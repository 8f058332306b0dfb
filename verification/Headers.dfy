/**
 The header multimap of the `http` crate, as far as the proxy uses it: entries in the
 order in which their names first came in, each with its values in order.
 */
module Headers {
  import opened Wrappers
  import opened ByteText
  import opened Utf8

  datatype Entry = Entry(name: Bytes, values: seq<Bytes>)

  type HeaderMap = seq<Entry>

  /** One header line. */
  datatype Field = Field(name: Bytes, value: Bytes)

  const TRANSFER_ENCODING: Bytes := Ascii("transfer-encoding")
  const CONTENT_LENGTH: Bytes := Ascii("content-length")
  const CONTENT_ENCODING: Bytes := Ascii("content-encoding")

  // ── Names and values (sections 5.1, 5.5 and 5.6.2 of RFC 9110) ─

  predicate IsTokenRune(b: rune) {
    || 48 <= b <= 57 || 65 <= b <= 90 || 97 <= b <= 122
    || b == 33 || 35 <= b <= 39 || b == 42 || b == 43 || b == 45 || b == 46
    || b == 94 || b == 95 || b == 96 || b == 124 || b == 126
  }

  predicate IsToken(s: Text) {
    s != [] && forall i :: 0 <= i < |s| ==> IsTokenRune(s[i])
  }

  /** A stored name: a token in lower case. */
  predicate ValidName(s: Text) {
    IsToken(s) && Lower(s) == s
  }

  predicate ValidValue(s: Bytes) {
    forall i :: 0 <= i < |s| ==> (32 <= s[i] && s[i] != 127) || s[i] == HTAB
  }

  predicate Inline(s: Text) {
    CR !in s && LF !in s
  }

  lemma {:induction false} TokenIsPlain(s: Text)
    requires IsToken(s)
    ensures NoSpace(s) && Trimmed(s) && Inline(s) && COLON !in s && ValidName(Lower(s))
    ensures IsAscii(s) && IsAscii(Lower(s))
  {
    forall i | 0 <= i < |s|
      ensures LowerRune(LowerRune(s[i])) == LowerRune(s[i]) && IsTokenRune(LowerRune(s[i]))
    {
      assert IsTokenRune(s[i]);
    }
    assert Lower(Lower(s)) == Lower(s);
  }

  // ── The map ──────────────────────────────────────────────────

  function NamePosition(m: HeaderMap, name: Bytes): (i: nat)
    ensures i <= |m|
    ensures i < |m| ==> m[i].name == name
    ensures forall j :: 0 <= j < i ==> m[j].name != name
  {
    if m == [] || m[0].name == name then 0 else 1 + NamePosition(m[1..], name)
  }

  function Append(m: HeaderMap, name: Bytes, value: Bytes): HeaderMap {
    var i := NamePosition(m, name);
    if i == |m| then m + [Entry(name, [value])]
    else m[i := Entry(name, m[i].values + [value])]
  }

  function GetAll(m: HeaderMap, name: Bytes): seq<Bytes> {
    var i := NamePosition(m, name);
    if i == |m| then [] else m[i].values
  }

  function Get(m: HeaderMap, name: Bytes): Option<Bytes> {
    var values := GetAll(m, name);
    if values == [] then None else Some(values[0])
  }

  predicate HasName(m: HeaderMap, name: Bytes) {
    NamePosition(m, name) < |m|
  }

  /** Removal fills the gap with the last entry. */
  function Remove(m: HeaderMap, name: Bytes): HeaderMap {
    var i := NamePosition(m, name);
    if i == |m| then m
    else if i == |m| - 1 then m[..i]
    else m[..|m| - 1][i := m[|m| - 1]]
  }

  predicate ValidEntry(e: Entry) {
    ValidName(e.name) && e.values != [] && forall v :: v in e.values ==> ValidValue(v)
  }

  predicate Distinct(m: HeaderMap) {
    forall i, j :: 0 <= i < j < |m| ==> m[i].name != m[j].name
  }

  /** What the crate keeps of every map. */
  predicate ValidMap(m: HeaderMap) {
    Distinct(m) && forall e :: e in m ==> ValidEntry(e)
  }

  lemma {:induction false} NameFoundAt(m: HeaderMap, i: nat)
    requires Distinct(m) && i < |m|
    ensures NamePosition(m, m[i].name) == i
  {
    var j := NamePosition(m, m[i].name);
    assert j <= i;
  }

  lemma {:induction false} AppendKeepsValid(m: HeaderMap, name: Bytes, value: Bytes)
    requires ValidMap(m) && ValidName(name) && ValidValue(value)
    ensures ValidMap(Append(m, name, value))
  {
    hide ValidName, ValidValue;
    var r := Append(m, name, value);
    var i := NamePosition(m, name);
    forall e | e in r
      ensures ValidEntry(e)
    {
      if e !in m {
        assert i < |m| ==> ValidEntry(m[i]);
        assert e == r[i];
      }
    }
  }

  /** Appending puts the value behind those that the name has, and leaves the other names. */
  lemma {:induction false} AppendAdds(m: HeaderMap, name: Bytes, value: Bytes, other: Bytes)
    ensures GetAll(Append(m, name, value), name) == GetAll(m, name) + [value]
    ensures other != name ==> GetAll(Append(m, name, value), other) == GetAll(m, other)
    ensures GetAll([], name) == []
  {
    var r, i, k := Append(m, name, value), NamePosition(m, name), NamePosition(m, other);
    assert forall j :: 0 <= j < |m| ==> r[j].name == m[j].name;
    var i', k' := NamePosition(r, name), NamePosition(r, other);
    assert r[i].name == name;
    assert i' == i;
    if other != name {
      assert k < |m| ==> k' == k;
      assert k == |m| ==> k' == |r|;
    }
  }

  /** Removal fills the gap with the last entry. */
  lemma {:induction false} RemoveMovesLast(front: HeaderMap, e: Entry, back: HeaderMap, last: Entry)
    requires !HasName(front, e.name)
    ensures Remove(front + [e] + back + [last], e.name) == front + [last] + back
    ensures Remove(front + [e], e.name) == front
  {
    var m := front + [e] + back + [last];
    FirstNamePosition(front, e, back + [last]);
    assert front + [e] + (back + [last]) == m;
    FirstNamePosition(front, e, []);
    assert front + [e] + [] == front + [e];
  }

  lemma {:induction false} FirstNamePosition(front: HeaderMap, e: Entry, more: HeaderMap)
    requires !HasName(front, e.name)
    ensures NamePosition(front + [e] + more, e.name) == |front|
  {
    var m := front + [e] + more;
    assert m[|front|] == e && forall j :: 0 <= j < |front| ==> m[j] == front[j];
  }

  /** Removing a name takes that name away and no value of any other name. */
  lemma {:induction false} RemoveTakesOnlyItsName(m: HeaderMap, name: Bytes, other: Bytes)
    requires Distinct(m)
    ensures Distinct(Remove(m, name))
    ensures !HasName(Remove(m, name), name)
    ensures other != name ==> GetAll(Remove(m, name), other) == GetAll(m, other)
  {
    var i := NamePosition(m, name);
    var r := Remove(m, name);
    if i < |m| {
      var last := |m| - 1;
      assert forall j :: 0 <= j < |r| ==> r[j] == m[if j == i then last else j];
      if other != name && HasName(m, other) {
        var k := NamePosition(m, other);
        var k' := if k == last then i else k;
        assert r[k'] == m[k];
        NameFoundAt(r, k');
      }
    }
  }

  // ── Walking the map ──────────────────────────────────────────

  function FieldsOf(name: Bytes, values: seq<Bytes>): seq<Field> {
    if values == [] then [] else [Field(name, values[0])] + FieldsOf(name, values[1..])
  }

  /** The order in which iteration yields the lines. */
  function Fields(m: HeaderMap): seq<Field> {
    if m == [] then [] else FieldsOf(m[0].name, m[0].values) + Fields(m[1..])
  }

  function AppendAll(m: HeaderMap, fields: seq<Field>): HeaderMap
    decreases |fields|
  {
    if fields == [] then m else AppendAll(Append(m, fields[0].name, fields[0].value), fields[1..])
  }

  lemma {:induction false} AppendAllSplits(m: HeaderMap, a: seq<Field>, b: seq<Field>)
    ensures AppendAll(m, a + b) == AppendAll(AppendAll(m, a), b)
    decreases |a|
  {
    if a == [] {
      assert a + b == b;
    } else {
      assert (a + b)[1..] == a[1..] + b;
      AppendAllSplits(Append(m, a[0].name, a[0].value), a[1..], b);
    }
  }

  lemma {:induction false} NewNamePosition(m: HeaderMap, e: Entry)
    requires !HasName(m, e.name)
    ensures NamePosition(m + [e], e.name) == |m|
  {
    if m == [] {
      assert m + [e] == [e];
    } else {
      assert (m + [e])[1..] == m[1..] + [e];
      NewNamePosition(m[1..], e);
    }
  }

  lemma {:induction false} AppendAtLast(m: HeaderMap, e: Entry, value: Bytes)
    requires !HasName(m, e.name)
    ensures Append(m + [e], e.name, value) == m + [Entry(e.name, e.values + [value])]
  {
    hide NamePosition;
    NewNamePosition(m, e);
  }

  /** More values for the name that the map ends with go to that entry. */
  lemma {:induction false} AppendToLast(m: HeaderMap, name: Bytes, values: seq<Bytes>, more: seq<Bytes>)
    requires !HasName(m, name)
    ensures AppendAll(m + [Entry(name, values)], FieldsOf(name, more)) == m + [Entry(name, values + more)]
    decreases |more|
  {
    hide HasName, Append;
    if more == [] {
      assert values + more == values;
    } else {
      AppendAtLast(m, Entry(name, values), more[0]);
      AppendToLast(m, name, values + [more[0]], more[1..]);
      assert values + [more[0]] + more[1..] == values + more;
      assert FieldsOf(name, more)[1..] == FieldsOf(name, more[1..]);
    }
  }

  lemma {:induction false} AppendEntry(m: HeaderMap, e: Entry)
    requires !HasName(m, e.name) && e.values != []
    ensures AppendAll(m, FieldsOf(e.name, e.values)) == m + [e]
  {
    assert Append(m, e.name, e.values[0]) == m + [Entry(e.name, [e.values[0]])];
    AppendToLast(m, e.name, [e.values[0]], e.values[1..]);
    assert [e.values[0]] + e.values[1..] == e.values;
  }

  /** Entries that can follow those already there: new names, each with a value. */
  predicate CanFollow(done: HeaderMap, m: HeaderMap) {
    Distinct(done + m) && forall e :: e in m ==> e.values != []
  }

  lemma {:induction false} NextEntry(done: HeaderMap, m: HeaderMap)
    requires m != [] && CanFollow(done, m)
    ensures !HasName(done, m[0].name) && m[0].values != []
    ensures CanFollow(done + [m[0]], m[1..]) && done + [m[0]] + m[1..] == done + m
  {
    var i := NamePosition(done, m[0].name);
    assert (done + m)[|done|] == m[0];
    assert forall k :: 0 <= k < |done| ==> (done + m)[k] == done[k];
    assert done + [m[0]] + m[1..] == done + m;
  }

  /** Appending the lines of a map one by one, in iteration order, rebuilds the map. */
  lemma {:induction false} AppendingFieldsRebuilds(done: HeaderMap, m: HeaderMap)
    requires CanFollow(done, m)
    ensures AppendAll(done, Fields(m)) == done + m
    decreases |m|
  {
    if m == [] {
      assert done + m == done;
    } else {
      var e := m[0];
      assert Fields(m) == FieldsOf(e.name, e.values) + Fields(m[1..]);
      hide *;
      NextEntry(done, m);
      AppendAllSplits(done, FieldsOf(e.name, e.values), Fields(m[1..]));
      AppendEntry(done, e);
      AppendingFieldsRebuilds(done + [e], m[1..]);
    }
  }

  // ── Cleaning every value ─────────────────────────────────────

  /** What becomes of a value that is printed, decoded and trimmed. */
  function Cleaned(value: Bytes): Bytes {
    Encode(Trim(Decode(value)))
  }

  /** Valid UTF-8, and no white space at either end. */
  predicate Clean(value: Bytes) {
    Encode(Decode(value)) == value && Trimmed(Decode(value))
  }

  lemma {:induction false} TrimmedIsClean(t: Text)
    requires Trimmed(t)
    ensures Clean(Encode(t))
  {
    hide Trimmed;
    DecodeEncoded(t);
  }

  lemma {:induction false} CleanedIsClean(value: Bytes)
    ensures Clean(Cleaned(value))
    ensures Cleaned(value) == value <==> Clean(value)
  {
    hide Trim, Trimmed, Decode, Encode;
    TrimIsTrimmed(Decode(value));
    TrimmedIsClean(Trim(Decode(value)));
    DecodeEncoded(Trim(Decode(value)));
  }

  function CleanedAll(values: seq<Bytes>): (r: seq<Bytes>)
    ensures |r| == |values| && forall i :: 0 <= i < |r| ==> r[i] == Cleaned(values[i])
  {
    if values == [] then [] else [Cleaned(values[0])] + CleanedAll(values[1..])
  }

  function CleanedMap(m: HeaderMap): (r: HeaderMap)
    ensures |r| == |m|
    ensures forall i :: 0 <= i < |r| ==> r[i] == Entry(m[i].name, CleanedAll(m[i].values))
  {
    if m == [] then [] else [Entry(m[0].name, CleanedAll(m[0].values))] + CleanedMap(m[1..])
  }

  lemma {:induction false} CleanedMapKeepsShape(m: HeaderMap)
    requires ValidMap(m)
    ensures CanFollow([], CleanedMap(m))
  {
    hide ValidName, ValidValue, CleanedAll, CleanedMap;
    var t := CleanedMap(m);
    assert Distinct(t) by {
      assert forall i :: 0 <= i < |t| ==> t[i].name == m[i].name;
    }
    forall e | e in t
      ensures e.values != []
    {
      var i :| 0 <= i < |t| && t[i] == e;
      assert ValidEntry(m[i]);
    }
    assert [] + t == t;
  }

  predicate CleanMap(m: HeaderMap) {
    forall e :: e in m ==> forall v :: v in e.values ==> Clean(v)
  }

  lemma {:induction false} CleanedMapIsIdentity(m: HeaderMap)
    ensures CleanedMap(m) == m <==> CleanMap(m)
  {
    hide Clean, Cleaned;
    var t := CleanedMap(m);
    if CleanMap(m) {
      forall i | 0 <= i < |m|
        ensures t[i] == m[i]
      {
        assert m[i] in m;
        forall j | 0 <= j < |m[i].values|
          ensures Cleaned(m[i].values[j]) == m[i].values[j]
        {
          assert m[i].values[j] in m[i].values;
          CleanedIsClean(m[i].values[j]);
        }
        assert CleanedAll(m[i].values) == m[i].values;
      }
      assert t == m;
    }
    if t == m {
      forall e, v | e in m && v in e.values
        ensures Clean(v)
      {
        var i :| 0 <= i < |m| && m[i] == e;
        var j :| 0 <= j < |e.values| && e.values[j] == v;
        CleanedIsClean(v);
        assert t[i].values[j] == Cleaned(v);
      }
    }
  }

  function CleanedFields(fields: seq<Field>): seq<Field> {
    if fields == [] then []
    else [Field(fields[0].name, Cleaned(fields[0].value))] + CleanedFields(fields[1..])
  }

  lemma {:induction false} CleanedFieldsSplit(a: seq<Field>, b: seq<Field>)
    ensures CleanedFields(a + b) == CleanedFields(a) + CleanedFields(b)
  {
    if a == [] {
      assert a + b == b;
    } else {
      assert (a + b)[1..] == a[1..] + b;
      CleanedFieldsSplit(a[1..], b);
    }
  }

  lemma {:induction false} CleanedFieldsOf(name: Bytes, values: seq<Bytes>)
    ensures CleanedFields(FieldsOf(name, values)) == FieldsOf(name, CleanedAll(values))
  {
    if values != [] {
      CleanedFieldsOf(name, values[1..]);
      assert FieldsOf(name, values)[1..] == FieldsOf(name, values[1..]);
      assert CleanedAll(values)[1..] == CleanedAll(values[1..]);
    }
  }

  lemma {:induction false} CleaningCommutes(m: HeaderMap)
    ensures CleanedFields(Fields(m)) == Fields(CleanedMap(m))
  {
    if m != [] {
      CleanedFieldsSplit(FieldsOf(m[0].name, m[0].values), Fields(m[1..]));
      CleanedFieldsOf(m[0].name, m[0].values);
      CleaningCommutes(m[1..]);
      assert CleanedMap(m)[1..] == CleanedMap(m[1..]);
    }
  }

  predicate ValidField(f: Field) {
    ValidName(f.name) && ValidValue(f.value)
  }

  lemma {:induction false} FieldsOfAreValid(name: Bytes, values: seq<Bytes>)
    requires ValidName(name) && forall v :: v in values ==> ValidValue(v)
    ensures forall f :: f in FieldsOf(name, values) ==> ValidField(f)
  {
    if values != [] {
      FieldsOfAreValid(name, values[1..]);
    }
  }

  predicate AllValid(fields: seq<Field>) {
    forall f :: f in fields ==> ValidField(f)
  }

  lemma {:induction false} FieldsAreValid(m: HeaderMap)
    requires ValidMap(m)
    ensures AllValid(Fields(m))
  {
    hide ValidName, ValidValue;
    if m != [] {
      assert ValidEntry(m[0]);
      FieldsOfAreValid(m[0].name, m[0].values);
      assert ValidMap(m[1..]);
      FieldsAreValid(m[1..]);
    }
  }
}
