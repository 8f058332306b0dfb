/**
 Optional white space in a list of codings. Section 5.6.3 of RFC 9110 counts tabs as well
 as spaces; the trim of src/decoder.rs:61-69 takes spaces only, and leaves an element of
 spaces alone as it is.
 */
module OptionalSpace {
  import opened ByteText
  import opened Decoder
  import opened Http
  import opened Wrappers

  predicate IsOws(b: byte) {
    b == SP || b == HTAB
  }

  function TrimOws(s: Bytes): Bytes {
    if s == [] then []
    else if IsOws(s[0]) then TrimOws(s[1..])
    else if IsOws(s[|s| - 1]) then TrimOws(s[..|s| - 1])
    else s
  }

  lemma {:induction false} TrimOwsIs(s: Bytes) returns (before: nat, after: nat)
    ensures var t := TrimOws(s);
            && before + |t| + after == |s| && t == s[before..before + |t|]
            && (forall i :: 0 <= i < before || |s| - after <= i < |s| ==> IsOws(s[i]))
            && (t != [] ==> !IsOws(t[0]) && !IsOws(t[|t| - 1]))
  {
    before, after := 0, 0;
    if s != [] && IsOws(s[0]) {
      before, after := TrimOwsIs(s[1..]);
      before := before + 1;
      assert forall i :: 1 <= i < |s| ==> s[i] == s[1..][i - 1];
    } else if s != [] && IsOws(s[|s| - 1]) {
      before, after := TrimOwsIs(s[..|s| - 1]);
      after := after + 1;
    }
  }

  /** Only spaces surround the element: what its first and last byte other than a space are
      is no tab, and it is not blank, unless it is empty. */
  predicate SpacesOnly(s: Bytes) {
    s != [] ==>
      && FirstNonSpace(s).Some? && FirstNonSpace(s).value < |s| && s[FirstNonSpace(s).value] != HTAB
      && LastNonSpace(s).Some? && s[LastNonSpace(s).value] != HTAB
  }

  /** The two trims agree on exactly these elements. */
  lemma {:induction false} TrimsAgreeIff(s: Bytes)
    ensures TrimSpaces(s) == TrimOws(s) <==> SpacesOnly(s)
  {
    hide TrimOws, FirstNonSpace, LastNonSpace;
    FirstNonSpaceIs(s);
    LastNonSpaceIs(s);
    NonSpaceBounds(s);
    var before, after := TrimSpacesIs(s);
    var a, b := TrimOwsIs(s);
    var spaces, ows := TrimSpaces(s), TrimOws(s);
    if s != [] && HasText(s) {
      assert spaces[0] == s[FirstNonSpace(s).value] && spaces[|spaces| - 1] == s[LastNonSpace(s).value];
      if SpacesOnly(s) {
        assert !IsOws(s[before]) && !IsOws(s[|s| - after - 1]);
        assert ows != [];
        assert !IsOws(s[a]) && !IsOws(s[|s| - b - 1]);
        assert a == before && b == after;
      }
    } else {
      assert spaces == s;
      assert s != [] ==> s[0] == SP && ows != s;
    }
  }

  function OwsEach(pieces: seq<Bytes>): (r: seq<Bytes>)
    ensures |r| == |pieces| && forall i :: 0 <= i < |r| ==> r[i] == TrimOws(pieces[i])
  {
    if pieces == [] then [] else [TrimOws(pieces[0])] + OwsEach(pieces[1..])
  }

  /** The elements of all the lines, before any trim. */
  function RawElements(values: seq<Bytes>): seq<Bytes> {
    if values == [] then [] else Split(values[0]) + RawElements(values[1..])
  }

  lemma {:induction false} ElementsAreTrimmed(values: seq<Bytes>)
    ensures Elements(values) == TrimEach(RawElements(values))
  {
    hide TrimEach, Split;
    if values == [] {
      NothingTrimmed();
    } else {
      ElementsAreTrimmed(values[1..]);
      TrimEachSplits(Split(values[0]), RawElements(values[1..]));
    }
  }

  lemma {:induction false} NothingTrimmed()
    ensures TrimEach([]) == []
  {
  }

  predicate AllSpacesOnly(values: seq<Bytes>) {
    forall s :: s in RawElements(values) ==> SpacesOnly(s)
  }

  /** The code reads a list as the standard does exactly when only spaces surround its
      elements and none is blank. */
  lemma {:induction false} ReadingsAgreeIff(values: seq<Bytes>)
    ensures Elements(values) == OwsEach(RawElements(values)) <==> AllSpacesOnly(values)
  {
    hide TrimSpaces, TrimOws, SpacesOnly, RawElements;
    ElementsAreTrimmed(values);
    var raw := RawElements(values);
    forall s | s in raw
      ensures TrimSpaces(s) == TrimOws(s) <==> SpacesOnly(s)
    {
      TrimsAgreeIff(s);
    }
    if TrimEach(raw) == OwsEach(raw) {
      forall s | s in raw
        ensures SpacesOnly(s)
      {
        var i :| 0 <= i < |raw| && raw[i] == s;
        assert TrimEach(raw)[i] == OwsEach(raw)[i];
      }
    }
    if AllSpacesOnly(values) {
      forall i | 0 <= i < |raw|
        ensures TrimEach(raw)[i] == OwsEach(raw)[i]
      {
        assert raw[i] in raw;
      }
      assert TrimEach(raw) == OwsEach(raw);
    }
  }

  lemma {:induction false} KnownHasNoTab(name: Bytes)
    requires Known(name)
    ensures name != [] && !IsOws(name[0]) && !IsOws(name[|name| - 1])
  {
    assert |IDENTITY| == 8 && IDENTITY[0] == 105 && IDENTITY[7] == 121;
    assert Ascii("gzip")[0] == 103 && Ascii("gzip")[3] == 112;
    assert Ascii("x-gzip")[0] == 120 && Ascii("x-gzip")[5] == 112;
    assert Ascii("deflate")[0] == 100 && Ascii("deflate")[6] == 101;
    assert Ascii("br")[0] == 98 && Ascii("br")[1] == 114;
    assert Ascii("zstd")[0] == 122 && Ascii("zstd")[3] == 100;
  }

  lemma {:induction false} KnownIsSpacesOnly(s: Bytes)
    requires Known(TrimSpaces(s))
    ensures SpacesOnly(s)
  {
    hide Known, FirstNonSpace, LastNonSpace;
    FirstNonSpaceIs(s);
    LastNonSpaceIs(s);
    NonSpaceBounds(s);
    KnownHasNoTab(TrimSpaces(s));
  }

  /** Of lists that hold supported names only, as the standard reads them, the code accepts
      exactly those without a tab around a name. */
  lemma {:induction false} TabsMatter(codecs: Codecs, values: seq<Bytes>, source: Source)
    requires AllKnown(OwsEach(RawElements(values)))
    ensures DecodeChain(codecs, Elements(values), source).Ok? <==> AllSpacesOnly(values)
  {
    hide *;
    var _ := ChainFailsIff(codecs, Elements(values), source);
    ReadingsAgreeIff(values);
    if AllKnown(Elements(values)) {
      AllKnownIsSpacesOnly(values);
    }
  }

  lemma {:induction false} AllKnownIsSpacesOnly(values: seq<Bytes>)
    requires AllKnown(Elements(values))
    ensures AllSpacesOnly(values)
  {
    hide TrimSpaces, SpacesOnly, RawElements, Known;
    ElementsAreTrimmed(values);
    var raw := RawElements(values);
    forall s | s in raw
      ensures SpacesOnly(s)
    {
      var i :| 0 <= i < |raw| && raw[i] == s;
      assert TrimEach(raw)[i] in TrimEach(raw);
      KnownIsSpacesOnly(s);
    }
  }

  /** Section 5.6.1.2 of RFC 9110 has a recipient ignore empty elements. */
  function NonEmpty(names: seq<Bytes>): seq<Bytes> {
    if names == [] then []
    else (if names[0] == [] then [] else [names[0]]) + NonEmpty(names[1..])
  }

  lemma {:induction false} NonEmptyHolds(names: seq<Bytes>, name: Bytes)
    ensures name in NonEmpty(names) <==> name in names && name != []
  {
    if names != [] {
      NonEmptyHolds(names[1..], name);
    }
  }

  /** Of lists that hold supported names only, as the standard reads them, with tabs trimmed
      and empty elements ignored, the code accepts exactly those without a tab around a name
      and without an empty element. */
  lemma {:induction false} EmptyElementsMatter(codecs: Codecs, values: seq<Bytes>, source: Source)
    requires AllKnown(NonEmpty(OwsEach(RawElements(values))))
    ensures DecodeChain(codecs, Elements(values), source).Ok? <==> AllSpacesOnly(values) && [] !in RawElements(values)
  {
    hide TrimSpaces, TrimOws, SpacesOnly, RawElements, Known, Elements, DecodeChain;
    var _ := ChainFailsIff(codecs, Elements(values), source);
    ElementsAreTrimmed(values);
    ReadingsAgreeIff(values);
    var raw := RawElements(values);
    if [] in raw {
      var i :| 0 <= i < |raw| && raw[i] == [];
      NothingIsUnknown();
      assert Elements(values)[i] == [];
    }
    if AllKnown(Elements(values)) {
      AllKnownIsSpacesOnly(values);
    }
    if AllSpacesOnly(values) && [] !in raw {
      forall n | n in Elements(values)
        ensures Known(n)
      {
        NonEmptyHolds(OwsEach(raw), n);
        var i :| 0 <= i < |raw| && Elements(values)[i] == n;
        TextIsLeft(raw[i]);
      }
    }
  }

  lemma {:induction false} NothingIsUnknown()
    ensures TrimSpaces([]) == [] && !Known([])
  {
    assert |IDENTITY| == 8 && |Ascii("gzip")| == 4 && |Ascii("x-gzip")| == 6;
    assert |Ascii("deflate")| == 7 && |Ascii("br")| == 2 && |Ascii("zstd")| == 4;
  }

  /** The trim of the code leaves something of anything. */
  lemma {:induction false} TextIsLeft(s: Bytes)
    requires s != []
    ensures TrimSpaces(s) != []
  {
    var before, after := TrimSpacesIs(s);
  }

  /** `gzip,,br`: the standard sees two supported names, the code an empty third. */
  lemma {:induction false} EmptyElementRefused(codecs: Codecs, source: Source)
    ensures var value := Ascii("gzip") + [COMMA] + ([] + [COMMA] + Ascii("br"));
            && NonEmpty(OwsEach(RawElements([value]))) == [Ascii("gzip"), Ascii("br")]
            && DecodeChain(codecs, Encodings([value]), source) == Err(ProtocolError([]))
  {
    var first, second := Ascii("gzip"), Ascii("br");
    var value := first + [COMMA] + ([] + [COMMA] + second);
    TwoNames();
    hide Ascii, Split, TrimOws, TrimSpaces, CodingNamed, Known;
    var none: Bytes := [];
    SplitStep(first, [] + [COMMA] + second);
    SplitStep(none, second);
    SplitWithoutComma(second);
    var values, raw := [value], [first, none, second];
    assert values[1..] == [];
    assert RawElements(values) == raw;
    assert OwsEach(raw) == raw;
    assert NonEmpty([second]) == [second] by {
      var one := [second];
      assert one[1..] == [];
    }
    assert raw[1..] == [none, second] && [none, second][1..] == [second];
    ElementsAreTrimmed(values);
    assert TrimEach(raw) == raw;
    EncodingsAreReversed(values);
    assert Encodings(values) == [second, none, first];
    assert [second, none, first][1..] == [none, first];
  }

  lemma {:induction false} PlainIsKept(name: Bytes)
    requires PlainName(name) && HTAB !in name
    ensures TrimOws(name) == TrimSpaces(name) == name && COMMA !in name
  {
    hide TrimSpaces;
    PlainNameIsElement(name);
    assert name[0] in name && name[|name| - 1] in name;
  }

  lemma {:induction false} TwoNames()
    ensures TrimOws(Ascii("gzip")) == TrimSpaces(Ascii("gzip")) == Ascii("gzip") != [] && COMMA !in Ascii("gzip")
    ensures TrimOws(Ascii("br")) == TrimSpaces(Ascii("br")) == Ascii("br") != [] && COMMA !in Ascii("br")
    ensures TrimOws([]) == TrimSpaces([]) == []
    ensures CodingNamed(Ascii("br")).Some? && CodingNamed([]).None? && [] != IDENTITY && Ascii("br") != IDENTITY
  {
    hide TrimOws, TrimSpaces;
    assert Ascii("gzip") == [103, 122, 105, 112] && Ascii("br") == [98, 114] && |IDENTITY| == 8;
    PlainIsKept(Ascii("gzip"));
    PlainIsKept(Ascii("br"));
    NothingIsUnknown();
    NothingIsTrimmed();
  }

  lemma {:induction false} NothingIsTrimmed()
    ensures TrimOws([]) == []
  {
  }

  /** `gzip,` and then a tab and `br`: two supported names, and refused. */
  lemma {:induction false} TabbedListRefused(codecs: Codecs, source: Source)
    ensures var value := Ascii("gzip") + [COMMA] + ([HTAB] + Ascii("br"));
            && AllKnown(OwsEach(RawElements([value])))
            && DecodeChain(codecs, Elements([value]), source).Err?
  {
    var first, second := Ascii("gzip"), [HTAB] + Ascii("br");
    var value := first + [COMMA] + second;
    assert COMMA !in first && COMMA !in second;
    assert second[1..] == Ascii("br");
    assert TrimOws(first) == first && TrimOws(Ascii("br")) == Ascii("br") && TrimOws(second) == Ascii("br");
    assert FirstNonSpace(second) == Some(0);
    hide Ascii, Split, TrimOws, FirstNonSpace, LastNonSpace;
    SplitStep(first, second);
    SplitWithoutComma(second);
    var values := [value];
    assert values[1..] == [];
    assert RawElements(values) == [first, second];
    var trimmed := OwsEach([first, second]);
    assert trimmed == [first, Ascii("br")];
    assert Known(first) && Known(Ascii("br"));
    assert second in RawElements(values) && !SpacesOnly(second);
    TabsMatter(codecs, values, source);
  }
}
