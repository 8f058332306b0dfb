/**
 The single read with which the proxy takes a client's request (src/proxy.rs:33-36): how
 much of a printed request it must bring for the parser to get that very request.
 */
module FirstRead {
  import opened ByteText
  import opened Framing
  import opened Headers
  import opened Http
  import opened Messages
  import opened Transport
  import opened Utf8
  import opened Wrappers

  import Forwarding
  import Fragmentation

  const FIRST_READ: nat := 4096

  // ── What a part of the header lines holds ────────────────────

  /** The part of a field's value that is there when `k` bytes of its line are. */
  function PartOfValue(f: Field, k: nat): Bytes {
    if k < |f.name| + 2 then []
    else if k - |f.name| - 2 <= |f.value| then f.value[..k - |f.name| - 2]
    else f.value
  }

  /** The fields that the header walk finds in the first `k` bytes of printed lines. */
  function FieldsWithin(fields: seq<Field>, k: nat): seq<Field> {
    if fields == [] then []
    else
      var f, n := fields[0], |FieldText(fields[0])| + 2;
      if k >= n then [Field(f.name, Cleaned(f.value))] + FieldsWithin(fields[1..], k - n)
      else if k > |f.name| then [Field(f.name, Cleaned(PartOfValue(f, k)))]
      else []
  }

  lemma {:induction false} TrimDropsCr(s: Text)
    ensures Trim(s + [CR]) == Trim(s)
  {
    hide Trim;
    assert (s + [CR])[..|s|] == s;
    Forwarding.TrimDropsLast(s + [CR]);
  }

  lemma {:induction false} PartIsSlice(f: Field, line: Bytes)
    requires |f.name| < |line| && line <= FieldText(f) + [CR]
    ensures var part, behind := PartOfValue(f, |line|), line[|f.name| + 1..];
            && line == f.name + [COLON] + behind
            && (behind == [] == part || behind == [SP] + part || behind == [SP] + (part + [CR]))
  {
    var text, n, part := FieldText(f), |f.name|, PartOfValue(f, |line|);
    assert line == (text + [CR])[..|line|];
    assert text + [CR] == f.name + [COLON] + ([SP] + (f.value + [CR]));
    var behind := line[n + 1..];
    if |line| == n + 1 {
      assert behind == [] == part;
    } else if |line| <= |text| {
      assert behind == [SP] + part;
    } else {
      assert behind == [SP] + (part + [CR]);
    }
  }

  /** What stands behind the colon of a line that is cut off, or has only the CR of its line
      end, decoded. */
  lemma {:induction false} BehindColon(f: Field, line: Bytes) returns (behind: Text)
    requires ValidField(f) && |f.name| < |line| && line <= FieldText(f) + [CR]
    ensures Decode(line) == f.name + [COLON] + behind && Trim(behind) == Trim(Decode(PartOfValue(f, |line|)))
  {
    hide Trim, Decode, FieldText, PartOfValue, ValidValue;
    PartIsSlice(f, line);
    TokenIsPlain(f.name);
    var raw, part := line[|f.name| + 1..], PartOfValue(f, |line|);
    var colon: Bytes, sp: Bytes, cr: Bytes := [COLON], [SP], [CR];
    DecodeAroundAscii(f.name, colon, raw);
    DecodeAscii(f.name);
    behind := Decode(raw);
    DecodeAscii([]);
    if raw != part {
      var rest := if raw == sp + part then part else part + cr;
      assert raw == [] + sp + rest;
      DecodeAroundAscii([], sp, rest);
      assert behind == [SP] + Decode(rest);
      TrimLeadingSpace(Decode(rest));
      assert part + cr == part + cr + [];
      DecodeAroundAscii(part, cr, []);
      assert Decode(part + cr) == Decode(part) + [CR];
      TrimDropsCr(Decode(part));
    }
  }

  lemma {:induction false} PartOfLine(f: Field, line: Bytes, m: HeaderMap)
    requires ValidField(f) && line != [] && line <= FieldText(f) + [CR]
    ensures HeadersOf([Decode(line)], m)
            == Some(if |line| > |f.name| then Append(m, f.name, Cleaned(PartOfValue(f, |line|))) else m)
  {
    hide Trim, IsToken, Append, ValidValue, FieldText, PartOfValue, IndexOf, Decode, Encode;
    var n, text := |f.name|, Decode(line);
    var lines := [text];
    assert lines[1..] == [];
    TokenIsPlain(f.name);
    FieldLineParts(f);
    if |line| > n {
      var behind := BehindColon(f, line);
      PartIsValid(f, |line|);
      TrimIsTrimmed(f.name);
      assert text[..n] == f.name && text[n] == COLON && text[n + 1..] == behind;
      IndexOfIs(text, COLON, n);
    } else {
      NameInFront(f, line);
      DecodeAscii(line);
      IndexOfIs(text, COLON, |line|);
    }
  }

  lemma {:induction false} NameInFront(f: Field, line: Bytes)
    requires ValidField(f) && 0 < |line| <= |f.name| && line <= FieldText(f) + [CR]
    ensures IsAscii(line) && COLON !in line && Decode(line) != []
  {
    TokenIsPlain(f.name);
    assert line == f.name[..|line|] by {
      assert FieldText(f) + [CR] == f.name + ([COLON, SP] + f.value + [CR]);
    }
  }

  lemma {:induction false} PartIsValid(f: Field, k: nat)
    requires ValidField(f)
    ensures ValidValue(Cleaned(PartOfValue(f, k)))
  {
    CleanedIsValid(PartOfValue(f, k));
  }

  lemma {:induction false} OneCutLine(line: Bytes)
    requires line != [] && LF !in line
    ensures TextLines(line) == [Decode(line)] && Decode(line) != []
  {
    assert Decode(line) != [];
    hide Decode;
    DecodeKeepsAscii(line, LF);
    IndexOfIsFirst(Decode(line), LF);
  }

  lemma {:induction false} PartOfBlank(part: Bytes, m: HeaderMap)
    requires part <= CRLF
    ensures HeadersOf(TextLines(part), m) == Some(m)
  {
    assert part == [] || part == [CR] || part == CRLF;
    if part == [CR] {
      OneCutLine(part);
      DecodeAscii(part);
      var lines: seq<Text> := [part];
      assert lines[1..] == [];
      IndexOfIs(part, COLON, 1);
    } else if part == CRLF {
      assert part == [] + CRLF + [];
      TextLinesStep([], []);
      DecodeAscii([]);
    }
  }

  /** The header walk over the first bytes of printed lines. */
  lemma {:induction false} PartIsWalked(fields: seq<Field>, part: Bytes, m: HeaderMap)
    requires AllValid(fields) && part <= FieldLines(fields) + CRLF
    ensures HeadersOf(TextLines(part), m) == Some(AppendAll(m, FieldsWithin(fields, |part|)))
    decreases |fields|
  {
    hide TextLines, Cleaned, ValidField, Append, PartOfValue, HeadersOf, Decode, FieldLine;
    if fields == [] {
      assert FieldLines(fields) + CRLF == CRLF;
      PartOfBlank(part, m);
    } else {
      var f, text := fields[0], FieldText(fields[0]);
      var n, whole, rest := |text| + 2, FieldLines(fields) + CRLF, FieldLines(fields[1..]) + CRLF;
      FieldTextIsOneLine(f);
      assert whole == text + CRLF + rest;
      assert part == whole[..|part|];
      if |part| >= n {
        assert part == text + CRLF + part[n..] && part[n..] <= rest;
        TextLinesStep(text, part[n..]);
        FieldDecoded(f);
        var lines := TextLines(part);
        assert lines[1..] == TextLines(part[n..]);
        PartIsWalked(fields[1..], part[n..], Append(m, f.name, Cleaned(f.value)));
        assert FieldsWithin(fields, |part|)[1..] == FieldsWithin(fields[1..], |part| - n);
        WholeLine(f, lines, m);
      } else if part == [] {
        PartOfBlank([], m);
      } else {
        assert text + [CR] == (text + CRLF)[..|text| + 1];
        assert part <= text + [CR];
        OneCutLine(part);
        PartOfLine(f, part, m);
        var seen := FieldsWithin(fields, |part|);
        assert seen != [] ==> seen[1..] == [];
      }
    }
  }

  // ── A value that is cut off ──────────────────────────────────

  lemma {:induction false} CutRune(c: rune, i: nat)
    requires 0 < i < |EncodeRune(c)|
    ensures Decode(EncodeRune(c)[..i]) == [REPLACEMENT]
  {
    var r, q := EncodeRune(c), EncodeRune(c)[..i];
    FirstOfEncoded(c, []);
    assert r + [] == r;
    assert Run(q) == i;
    assert q[i..] == [];
  }

  /** The first bytes of a text: whole characters, and U+FFFD for a character that is cut. */
  lemma {:induction false} CutText(t: Text, i: nat) returns (j: nat)
    requires i <= |Encode(t)|
    ensures j <= |t| && |Encode(t[..j])| <= i
    ensures Decode(Encode(t)[..i]) == t[..j] + if i == |Encode(t[..j])| then [] else [REPLACEMENT]
    ensures i == |Encode(t[..j])| || (j < |t| && i < |Encode(t[..j])| + |EncodeRune(t[j])|)
  {
    hide EncodeRune, Run, FirstRune;
    j := 0;
    if i > 0 {
      var c, rest := EncodeRune(t[0]), Encode(t[1..]);
      assert t[..0] == [];
      if i < |c| {
        assert Encode(t)[..i] == c[..i];
        CutRune(t[0], i);
      } else {
        var k := CutText(t[1..], i - |c|);
        j := k + 1;
        assert t[..j][0] == t[0] && t[..j][1..] == t[1..][..k];
        assert Encode(t)[..i] == c + rest[..i - |c|];
        DecodeStep(t[0], rest[..i - |c|]);
        assert t[..j] == [t[0]] + t[1..][..k];
      }
    } else {
      assert Encode(t)[..0] == [] && t[..0] == [];
    }
  }

  /** How many bytes may be missing of a value: a last U+FFFD that is cut is read as U+FFFD. */
  function Slack(value: Bytes): nat {
    var t := Decode(value);
    if t != [] && t[|t| - 1] == REPLACEMENT then 2 else 0
  }

  lemma {:induction false} EncodeSplits(a: Text, b: Text)
    ensures Encode(a + b) == Encode(a) + Encode(b)
  {
    if a == [] {
      assert a + b == b;
    } else {
      assert (a + b)[1..] == a[1..] + b;
      EncodeSplits(a[1..], b);
    }
  }

  lemma {:induction false} ReplacementLength()
    ensures |EncodeRune(REPLACEMENT)| == 3 && !IsSpace(REPLACEMENT)
  {
  }

  lemma {:induction false} LastRune(t: Text, j: nat)
    requires j < |t|
    ensures |Encode(t)| >= |Encode(t[..j])| + |EncodeRune(t[j])|
    ensures j == |t| - 1 ==> |Encode(t)| == |Encode(t[..j])| + |EncodeRune(t[j])|
  {
    hide EncodeRune;
    assert t == t[..j] + t[j..];
    EncodeSplits(t[..j], t[j..]);
    assert t[j..][0] == t[j];
    assert j == |t| - 1 ==> t[j..][1..] == [];
  }

  /** A clean value that is cut off is taken for itself exactly when all that is missing is
      the end of a last U+FFFD. */
  lemma {:induction false} CutValueIff(value: Bytes, i: nat)
    requires Clean(value) && value != [] && i < |value|
    ensures Cleaned(value[..i]) == value <==> i + Slack(value) >= |value|
  {
    hide Decode, Encode, EncodeRune, Trim, Run, FirstRune;
    var t := Decode(value);
    assert t != [] by {
      EncodeOfNothing();
    }
    var j := CutText(t, i);
    var seen := Decode(value[..i]);
    TrimIsTrimmed(seen);
    TrimShortens(seen);
    DecodeEncoded(Trim(seen));
    DecodeEncoded(t);
    ReplacementLength();
    var n := |Encode(t[..j])|;
    if i == n {
      assert j < |t| by {
        assert t[..|t|] == t;
      }
      LastRune(t, j);
      assert |Trim(seen)| < |t|;
      if t[|t| - 1] == REPLACEMENT {
        LastRune(t, |t| - 1);
        if j < |t| - 1 {
          PrefixIsShorter(t, j);
        }
      }
    } else {
      LastRune(t, j);
      assert Trimmed(seen) by {
        assert seen[|seen| - 1] == REPLACEMENT && seen[0] == if j == 0 then REPLACEMENT else t[0];
      }
      assert Trim(seen) == seen;
      assert seen == t <==> j == |t| - 1 && t[j] == REPLACEMENT by {
        if j == |t| - 1 && t[j] == REPLACEMENT {
          assert t == t[..j] + [t[j]];
        }
      }
      if j < |t| - 1 && t[|t| - 1] == REPLACEMENT {
        LastRune(t, |t| - 1);
        PrefixIsShorter(t, j);
      }
    }
  }

  lemma {:induction false} EncodeOfNothing()
    ensures Encode([]) == []
  {
  }

  lemma {:induction false} TrimShortens(s: Text)
    ensures |Trim(s)| <= |s|
  {
  }

  /** What is in front of the last character is no shorter than a part of it with one more. */
  lemma {:induction false} PrefixIsShorter(t: Text, j: nat)
    requires j < |t| - 1
    ensures |Encode(t[..j])| + |EncodeRune(t[j])| <= |Encode(t[..|t| - 1])|
  {
    hide EncodeRune;
    var front := t[..|t| - 1];
    assert front[..j] == t[..j];
    LastRune(front, j);
  }

  // ── When it holds all of them ────────────────────────────────

  /** How many bytes of the printed lines hold every field: all up to the last value, or up
      to the last colon when that value is empty. */
  function FieldsEnd(fields: seq<Field>): nat {
    if fields == [] then 0
    else
      var f := fields[0];
      if |fields| > 1 then |FieldText(f)| + 2 + FieldsEnd(fields[1..])
      else if f.value == [] then |f.name| + 1
      else if Slack(f.value) <= |f.value| then |FieldText(f)| - Slack(f.value)
      else |FieldText(f)|
  }

  predicate AllClean(fields: seq<Field>) {
    forall f :: f in fields ==> Clean(f.value)
  }

  /** The same fields but for the last value. */
  predicate LastDiffers(a: seq<Field>, b: seq<Field>) {
    && |a| == |b| > 0 && a[..|a| - 1] == b[..|b| - 1]
    && a[|a| - 1].name == b[|b| - 1].name && a[|a| - 1].value != b[|b| - 1].value
  }

  lemma {:induction false} SlackIsSmall(value: Bytes)
    requires Clean(value)
    ensures Slack(value) <= 2 && Slack(value) <= |value| && (Slack(value) > 0 ==> |value| >= 3)
  {
    hide Decode, Encode, EncodeRune;
    var t := Decode(value);
    ReplacementLength();
    if t != [] {
      LastRune(t, |t| - 1);
    }
  }

  lemma {:induction false} PartOfOne(f: Field, k: nat)
    requires Clean(f.value) && k > |f.name|
    ensures Cleaned(PartOfValue(f, k)) == f.value <==> k >= FieldsEnd([f])
  {
    hide Clean, Cleaned, Slack;
    var v := f.value;
    SlackIsSmall(v);
    CleanedIsClean(v);
    assert v[..|v|] == v;
    if v != [] {
      var i := if k < |f.name| + 2 then 0 else k - |f.name| - 2;
      assert FieldsEnd([f]) == |f.name| + 2 + |v| - Slack(v);
      if i < |v| {
        assert v[..0] == [];
        assert PartOfValue(f, k) == v[..i];
        CutValueIff(v, i);
      } else {
        assert PartOfValue(f, k) == v;
      }
    }
  }

  lemma {:induction false} HeldIff(fields: seq<Field>, k: nat)
    requires AllClean(fields)
    ensures k >= FieldsEnd(fields) ==> FieldsWithin(fields, k) == fields
    ensures k < FieldsEnd(fields)
            ==> |FieldsWithin(fields, k)| < |fields| || LastDiffers(FieldsWithin(fields, k), fields)
  {
    hide Clean, Cleaned, PartOfValue, Slack;
    if fields != [] {
      var f, n, rest := fields[0], |FieldText(fields[0])| + 2, fields[1..];
      var seen := FieldsWithin(fields, k);
      assert fields == [f] + rest;
      assert Clean(f.value);
      CleanedIsClean(f.value);
      if k >= n {
        HeldIff(rest, k - n);
        var more := FieldsWithin(rest, k - n);
        assert seen == [f] + more;
        if LastDiffers(more, rest) {
          assert seen[..|seen| - 1] == [f] + more[..|more| - 1];
          assert fields[..|fields| - 1] == [f] + rest[..|rest| - 1];
        }
      } else if k > |f.name| {
        PartOfOne(f, k);
        assert seen == [Field(f.name, Cleaned(PartOfValue(f, k)))];
        if rest == [] {
          assert fields == [f];
          assert seen[..0] == fields[..0] == [];
        }
      }
    }
  }

  lemma {:induction false} AppendAddsField(m: HeaderMap, f: Field)
    ensures |Fields(Append(m, f.name, f.value))| == |Fields(m)| + 1
  {
    var r := Append(m, f.name, f.value);
    if m == [] {
      Forwarding.FieldsOfAppended(f.name, [], f.value);
      assert [] + [f.value] == [f.value];
      assert r[1..] == [];
    } else if m[0].name == f.name {
      Forwarding.FieldsOfAppended(f.name, m[0].values, f.value);
      assert r[1..] == m[1..];
    } else {
      AppendAddsField(m[1..], f);
      assert r == [m[0]] + Append(m[1..], f.name, f.value);
      assert r[1..] == Append(m[1..], f.name, f.value);
    }
  }

  lemma {:induction false} AppendAllAddsFields(m: HeaderMap, fields: seq<Field>)
    ensures |Fields(AppendAll(m, fields))| == |Fields(m)| + |fields|
    decreases |fields|
  {
    hide Append, Fields;
    if fields != [] {
      AppendAddsField(m, fields[0]);
      AppendAllAddsFields(Append(m, fields[0].name, fields[0].value), fields[1..]);
    }
  }

  lemma {:induction false} AppendIsInjective(m: HeaderMap, name: Bytes, a: Bytes, b: Bytes)
    requires Append(m, name, a) == Append(m, name, b)
    ensures a == b
  {
    var i := NamePosition(m, name);
    var left, right := Append(m, name, a)[i].values, Append(m, name, b)[i].values;
    assert left[|left| - 1] == right[|right| - 1];
  }

  lemma {:induction false} OtherLastValue(a: seq<Field>, b: seq<Field>)
    requires LastDiffers(a, b)
    ensures AppendAll([], a) != AppendAll([], b)
  {
    hide Append, AppendAll;
    var front, x, y := a[..|a| - 1], a[|a| - 1], b[|b| - 1];
    assert a == front + [x] && b == front + [y];
    AppendAllSplits([], front, [x]);
    AppendAllSplits([], front, [y]);
    AppendOne(AppendAll([], front), x);
    AppendOne(AppendAll([], front), y);
    if AppendAll([], a) == AppendAll([], b) {
      AppendIsInjective(AppendAll([], front), x.name, x.value, y.value);
    }
  }

  lemma {:induction false} AppendOne(m: HeaderMap, f: Field)
    ensures AppendAll(m, [f]) == Append(m, f.name, f.value)
  {
    var one := [f];
    assert one[1..] == [];
  }

  lemma {:induction false} FieldsAreClean(m: HeaderMap)
    requires CleanMap(m)
    ensures AllClean(Fields(m))
  {
    hide Clean;
    if m != [] {
      assert m[0] in m;
      FieldsOfAreClean(m[0].name, m[0].values);
      FieldsAreClean(m[1..]);
    }
  }

  lemma {:induction false} FieldsOfAreClean(name: Bytes, values: seq<Bytes>)
    requires forall v :: v in values ==> Clean(v)
    ensures AllClean(FieldsOf(name, values))
  {
    hide Clean;
    if values != [] {
      assert values[0] in values;
      FieldsOfAreClean(name, values[1..]);
    }
  }

  lemma {:induction false} MapIsRebuilt(m: HeaderMap)
    requires ValidMap(m)
    ensures AppendAll([], Fields(m)) == m
  {
    hide ValidName, ValidValue, Fields, AppendAll;
    forall e | e in m
      ensures e.values != []
    {
      assert ValidEntry(e);
    }
    assert [] + m == m;
    AppendingFieldsRebuilds([], m);
  }

  /** The header walk over a part of the printed lines gives the whole map exactly when the
      part reaches to the end of the last value. */
  lemma {:induction false} MapIsReadIff(m: HeaderMap, part: Bytes)
    requires ValidMap(m) && CleanMap(m) && part <= FieldLines(Fields(m)) + CRLF
    ensures HeadersOf(TextLines(part), []) == Some(m) <==> |part| >= FieldsEnd(Fields(m))
  {
    hide *;
    var fields, seen := Fields(m), FieldsWithin(Fields(m), |part|);
    FieldsAreValid(m);
    PartIsWalked(fields, part, []);
    FieldsAreClean(m);
    HeldIff(fields, |part|);
    MapIsRebuilt(m);
    AppendAllAddsFields([], seen);
    AppendAllAddsFields([], fields);
    if LastDiffers(seen, fields) {
      OtherLastValue(seen, fields);
    }
  }

  // ── The request line ─────────────────────────────────────────

  /** The target that the parser sees in the first `n` bytes of a request without headers. */
  function TargetWithin(req: Request, n: nat): Text {
    var start, rest := |req.verb| + 1, Encode(req.uri) + [SP] + Ascii("HTTP/1.1");
    var seen := if n <= start then [] else if n - start <= |rest| then rest[..n - start] else rest;
    TokenOr(Tokens(Decode(seen)), 0, Ascii("/"))
  }

  lemma {:induction false} PartOfTarget(uri: Text, i: nat)
    requires NoSpace(uri) && i <= |Encode(uri)|
    ensures NoSpace(Decode(Encode(uri)[..i])) && (i > 0 ==> Decode(Encode(uri)[..i]) != [])
  {
    ReplacementLength();
    var j := CutText(uri, i);
    assert i > 0 ==> Encode(uri)[..i] != [];
  }

  /** For a target without white space that is `/` until it starts to come, what has come of
      it, and then all of it. */
  lemma {:induction false} TargetArrives(req: Request, n: nat)
    requires NoSpace(req.uri) && req.uri != []
    ensures var start, target := |req.verb| + 1, Encode(req.uri);
            TargetWithin(req, n) == if n <= start then Ascii("/")
                                    else if n - start <= |target| then Decode(target[..n - start])
                                    else req.uri
  {
    hide Ascii, Tokens, Decode, Encode, NoSpace;
    var target, sp: Bytes := Encode(req.uri), [SP];
    var rest, start := target + sp + Ascii("HTTP/1.1"), |req.verb| + 1;
    NoTokens();
    if n > start && n - start <= |target| {
      assert rest[..n - start] == target[..n - start];
      PartOfTarget(req.uri, n - start);
      TokensLast(Decode(target[..n - start]));
    } else if n > start {
      var seen := if n - start <= |rest| then rest[..n - start] else rest;
      var version := seen[|target| + 1..];
      assert seen == target + sp + version;
      DecodeAroundAscii(target, sp, version);
      DecodeEncoded(req.uri);
      TokensStep(req.uri, Decode(version));
    }
  }

  lemma {:induction false} TrimStartOf(s: Text, more: Text)
    ensures TrimStart(s + more) == if TrimStart(s) == [] then TrimStart(more) else TrimStart(s) + more
  {
    if s == [] {
      assert s + more == more;
    } else if IsSpace(s[0]) {
      assert (s + more)[1..] == s[1..] + more;
      TrimStartOf(s[1..], more);
    }
  }

  /** A CR at the end is no word. */
  lemma {:induction false} TokensDropCr(s: Text)
    ensures Tokens(s + [CR]) == Tokens(s)
    decreases |s|
  {
    var cr: Text := [CR];
    TrimStartOf(s, cr);
    var t := TrimStart(s);
    assert TrimStart(cr) == [] && IsSpace(CR);
    hide IsSpace, TrimStart;
    if t != [] {
      var n := WordLength(t);
      assert forall i :: 0 <= i < n ==> !IsSpace(t[..n][i]);
      WordLengthIs(t + cr, n);
      assert (t + cr)[n..] == t[n..] + cr && (t + cr)[..n] == t[..n];
      TokensDropCr(t[n..]);
    }
  }

  lemma {:induction false} PartOfRequestLine(rules: HttpRules, req: Request, part: Bytes)
    requires rules.Lawful() && WellFormedRequest(rules, req)
    requires part != [] && part <= RequestLine(req) + [CR]
    ensures TokenOr(Tokens(Decode(part)), 0, Ascii("GET")) == req.verb <==> |part| >= |req.verb|
    ensures |part| >= |req.verb| ==> TokenOr(Tokens(Decode(part)), 1, Ascii("/")) == TargetWithin(req, |part|)
  {
    hide Ascii, Tokens, IsToken, ValidMap, Decode, Encode;
    TokenIsPlain(req.verb);
    MethodIsNotEmpty(req.verb);
    var sp: Bytes, cr: Bytes, n := [SP], [CR], |req.verb|;
    var rest := Encode(req.uri) + sp + Ascii("HTTP/1.1");
    var line := RequestLine(req) + cr;
    assert line == req.verb + sp + (rest + cr);
    assert part == line[..|part|];
    NoTokens();
    if |part| <= n {
      assert part == req.verb[..|part|];
      PartOfVerb(req.verb, |part|);
    } else {
      var seen := (rest + cr)[..|part| - n - 1];
      assert part == req.verb + sp + seen;
      DecodeAscii(req.verb);
      DecodeAroundAscii(req.verb, sp, seen);
      TokensStep(req.verb, Decode(seen));
      if |seen| <= |rest| {
        assert seen == rest[..|seen|];
        assert rest[..0] == [] && rest[..|rest|] == rest;
      } else {
        assert seen == rest + cr + [];
        DecodeAroundAscii(rest, cr, []);
        DecodeAscii([]);
        assert Decode(seen) == Decode(rest) + [CR];
        TokensDropCr(Decode(rest));
      }
    }
  }

  lemma {:induction false} PartOfVerb(verb: Bytes, n: nat)
    requires IsToken(verb) && 0 < n <= |verb|
    ensures Tokens(Decode(verb[..n])) == [verb[..n]]
  {
    hide Tokens, Decode;
    TokenIsPlain(verb);
    DecodeAscii(verb[..n]);
    TokensLast(verb[..n]);
  }

  lemma {:induction false} NoTokens()
    ensures Tokens(Decode([])) == []
  {
  }

  // ── The first read ───────────────────────────────────────────

  /** What becomes of the first read: bytes that start with `CONNECT` are for a tunnel, and
      the parser gets the others. */
  function Taken(rules: HttpRules, got: Bytes): Option<Parsed<Request>> {
    if Ascii("CONNECT") <= got then None else Some(ParsedRequest(rules, got))
  }

  predicate ForTunnel(req: Request) {
    Ascii("CONNECT") <= req.verb
  }

  /** A part of a printed request that holds the method goes to the tunnel by the method. */
  lemma {:induction false} TunnelByMethod(req: Request, got: Bytes, left: Bytes)
    requires got + left == RequestBytes(req) && |got| >= |req.verb|
    ensures Ascii("CONNECT") <= got <==> ForTunnel(req)
  {
    var word, rest := Ascii("CONNECT"), [SP] + (Encode(req.uri) + [SP] + Ascii("HTTP/1.1"));
    assert |word| == 7 && SP !in word;
    hide Ascii, FieldLines, Encode;
    var s := RequestBytes(req);
    assert s == req.verb + (rest + CRLF + (FieldLines(Fields(req.headers)) + CRLF) + BufferedBody(req.body));
    assert got == s[..|got|];
    assert got[..|req.verb|] == req.verb;
    assert s[|req.verb|] == SP;
  }

  /** Whether `n` bytes of a printed request are enough. With a body, nothing less than all
      of them. Without, everything up to the last header value. With neither, the method
      and as much of the target as the parser completes to the same target. */
  predicate Enough(rules: HttpRules, req: Request, n: nat)
    requires req.body.Full?
  {
    if req.body.bytes != [] then n >= |RequestBytes(req)|
    else if req.headers != [] then n >= |RequestLine(req)| + 2 + FieldsEnd(Fields(req.headers))
    else n >= |req.verb| && rules.canonicalUri(TargetWithin(req, n)) == Some(req.uri)
  }

  /** The body that the parser finds in a part of a printed request. */
  lemma {:induction false} PartOfBody(rules: HttpRules, req: Request, got: Bytes, left: Bytes)
    requires rules.Lawful() && WellFormedRequest(rules, req) && req.body.Full?
    requires got + left == RequestBytes(req)
    ensures Rest(got) == req.body.bytes <==> req.body.bytes == [] || left == []
  {
    hide FindBlank, RequestLine, ValidField, IsToken, ValidMap, HeadText;
    RequestLineIsRead(rules, req);
    FieldsAreValid(req.headers);
    PrintedHeadEnds(RequestLine(req), Fields(req.headers), req.body.bytes);
    if FindBlank(got).Some? {
      HeadIsStable(got, left);
    }
    assert left == [] ==> got == got + left;
  }

  lemma {:induction false} NoHeaderFields(m: HeaderMap)
    requires ValidMap(m)
    ensures Fields(m) == [] <==> m == []
    ensures FieldsEnd(Fields(m)) == 0 <==> m == []
  {
    if m != [] {
      assert ValidEntry(m[0]);
    }
  }

  /** A read that ends within the first line. */
  lemma {:induction false} WithinFirstLine(rules: HttpRules, req: Request, got: Bytes)
    requires rules.Lawful() && WellFormedRequest(rules, req) && req.body == Full([])
    requires got != [] && got <= RequestLine(req) + [CR] && Rest(got) == []
    ensures ParsedRequest(rules, got) == Ok(req) <==> req.headers == [] && Enough(rules, req, |got|)
  {
    hide Tokens, TextLines, RequestLine, IsToken, ValidMap, Rest, Ascii, TargetWithin, HeadText;
    RequestLineIsRead(rules, req);
    OneCutLine(got);
    PartOfRequestLine(rules, req, got);
    var lines := [Decode(got)];
    assert lines[1..] == [];
  }

  /** A read that brings the first line and a part of the header lines. */
  lemma {:induction false} BehindFirstLine(rules: HttpRules, req: Request, part: Bytes)
    requires rules.Lawful() && WellFormedRequest(rules, req)
    requires req.body.Full? && CleanMap(req.headers) && rules.canonicalUri(TargetRead(req.uri)) == Some(req.uri)
    requires part <= FieldLines(Fields(req.headers)) + CRLF
    ensures ParsedRequest(rules, RequestLine(req) + CRLF + part) == Ok(req)
            <==> Rest(RequestLine(req) + CRLF + part) == req.body.bytes && |part| >= FieldsEnd(Fields(req.headers))
  {
    hide Tokens, TextLines, RequestLine, ValidMap, Rest, Ascii, HeadersOf, Fields, FieldLines, FieldsEnd, CleanMap,
         OneLine;
    RequestLineIsRead(rules, req);
    assert LF !in RequestLine(req) by {
      LineHasNoLf(RequestLine(req));
    }
    TextLinesStep(RequestLine(req), part);
    var lines := [Decode(RequestLine(req))] + TextLines(part);
    assert lines[1..] == TextLines(part);
    MapIsReadIff(req.headers, part);
  }

  lemma {:induction false} LineHasNoLf(line: Bytes)
    requires OneLine(line)
    ensures LF !in line
  {
  }

  lemma {:induction false} WholeTargetIsEnough(req: Request, n: nat)
    requires n > |RequestLine(req)|
    ensures TargetWithin(req, n) == TargetRead(req.uri) && n >= |req.verb|
  {
    hide Ascii, Tokens, Decode, Encode;
    VersionIsPlain();
    var sp: Bytes := [SP];
    DecodeAroundAscii(Encode(req.uri), sp, Ascii("HTTP/1.1"));
    DecodeEncoded(req.uri);
    DecodeAscii(Ascii("HTTP/1.1"));
  }

  lemma {:induction false} ParsedIffEnough(rules: HttpRules, req: Request, fragments: seq<Bytes>)
    requires rules.Lawful() && WellFormedRequest(rules, req) && req.body.Full?
    requires ParsedRequest(rules, RequestBytes(req)) == Ok(req) && Fragmentation.Delivers(fragments, RequestBytes(req))
    ensures var got := NextRead(fragments, FIRST_READ);
            ParsedRequest(rules, got) == Ok(req) <==> Enough(rules, req, |got|)
  {
    hide RequestLine, ParsedRequest, CleanMap, ValidMap, IsToken, Fields, FieldLines, FieldsEnd, TargetWithin,
         TargetRead, Rest, NextRead;
    var s, got, left := RequestBytes(req), NextRead(fragments, FIRST_READ), Concat(AfterRead(fragments, FIRST_READ));
    var line, fields := RequestLine(req), FieldLines(Fields(req.headers)) + CRLF;
    ReadSplits(fragments, FIRST_READ);
    RequestRoundTrip(rules, req);
    PartOfBody(rules, req, got, left);
    NoHeaderFields(req.headers);
    assert s == line + CRLF + (fields + req.body.bytes);
    assert got == s[..|got|];
    if req.body.bytes != [] {
      if left == [] {
        assert got == s;
      }
      if ParsedRequest(rules, got) == Ok(req) {
        RestIsBody(rules, req, got);
      }
    } else if |got| < |line| + 2 {
      assert s[..|line| + 1] == line + [CR];
      assert got == (line + [CR])[..|got|];
      WithinFirstLine(rules, req, got);
    } else {
      var part := got[|line| + 2..];
      assert s[|line| + 2..] == fields;
      assert part == fields[..|part|];
      assert got == line + CRLF + part;
      BehindFirstLine(rules, req, part);
      WholeTargetIsEnough(req, |got|);
    }
  }

  lemma {:induction false} EnoughHasMethod(rules: HttpRules, req: Request, n: nat)
    requires req.body.Full? && Enough(rules, req, n)
    ensures n >= |req.verb|
  {
    hide FieldsEnd, TargetWithin;
  }

  /** Of a request that is parsed as sent when all of it is there: the parser gets it, from
      whatever part the first read brings, exactly when that part is enough and the method
      does not ask for a tunnel. */
  lemma {:induction false} FirstReadSuffices(rules: HttpRules, req: Request, fragments: seq<Bytes>)
    requires rules.Lawful() && WellFormedRequest(rules, req) && req.body.Full?
    requires ParsedRequest(rules, RequestBytes(req)) == Ok(req) && Fragmentation.Delivers(fragments, RequestBytes(req))
    ensures var got := NextRead(fragments, 4096);
            Taken(rules, got) == Some(Ok(req)) <==> Enough(rules, req, |got|) && !(Ascii("CONNECT") <= req.verb)
  {
    hide Enough, ParsedRequest, NextRead, RequestBytes, WellFormedRequest, Ascii;
    var got, left := NextRead(fragments, FIRST_READ), Concat(AfterRead(fragments, FIRST_READ));
    ReadSplits(fragments, FIRST_READ);
    ParsedIffEnough(rules, req, fragments);
    if Enough(rules, req, |got|) {
      EnoughHasMethod(rules, req, |got|);
      TunnelByMethod(req, got, left);
    }
  }

  lemma {:induction false} RestIsBody(rules: HttpRules, req: Request, got: Bytes)
    requires ParsedRequest(rules, got) == Ok(req)
    ensures req.body == Full(Rest(got))
  {
    hide *;
    RestIsParsedBody(rules, got);
  }

  lemma {:induction false} RestIsParsedBody(rules: HttpRules, got: Bytes)
    requires ParsedRequest(rules, got).Ok?
    ensures ParsedRequest(rules, got).value.body == Full(Rest(got))
  {
    hide Lines, Tokens, HeadersOf, Rest, Ascii, IsToken;
  }

  /** With a body, the request must have arrived in one fragment of at most 4096 bytes. */
  lemma {:induction false} OneReadSuffices(rules: HttpRules, req: Request, fragments: seq<Bytes>)
    requires rules.Lawful() && WellFormedRequest(rules, req) && req.body.Full?
    requires ParsedRequest(rules, RequestBytes(req)) == Ok(req) && Fragmentation.Delivers(fragments, RequestBytes(req))
    ensures req.body.bytes != [] ==>
              (Taken(rules, NextRead(fragments, 4096)) == Some(Ok(req))
               <==> fragments == [RequestBytes(req)] && |RequestBytes(req)| <= 4096 && !(Ascii("CONNECT") <= req.verb))
  {
    assert RequestBytes(req) != [];
    hide Taken, ForTunnel, RequestBytes, ParsedRequest, WellFormedRequest, NextRead;
    FirstReadSuffices(rules, req, fragments);
    WholeInOneIff(fragments, FIRST_READ);
  }
}
