/**
 Bytes and text, and the operations of Rust's `str` that the message layer relies on: line
 splitting, trimming, white-space tokens, number parsing and searches.

 A byte is a character below 256, so that what is said of texts can be said of bytes.
 */
module ByteText {
  import opened Wrappers

  /** A `char`: a Unicode scalar value. */
  newtype rune = c: int | 0 <= c < 0xD800 || 0xE000 <= c < 0x110000

  type Text = seq<rune>

  type byte = c: rune | c < 256

  type Bytes = seq<byte>

  const HTAB: byte := 9
  const LF: byte := 10
  const CR: byte := 13
  const SP: byte := 32
  const PLUS: byte := 43
  const COMMA: byte := 44
  const COLON: byte := 58
  const SEMICOLON: byte := 59

  const CRLF: Bytes := [CR, LF]

  /** The bytes of an ASCII literal. */
  function Ascii(s: string): (r: Bytes)
    ensures |r| == |s|
  {
    seq(|s|, i requires 0 <= i < |s| => if s[i] as int < 256 then s[i] as int as byte else 63)
  }

  function Concat(parts: seq<Bytes>): Bytes {
    if parts == [] then [] else parts[0] + Concat(parts[1..])
  }

  lemma {:induction false} ConcatAppend(a: seq<Bytes>, b: seq<Bytes>)
    ensures Concat(a + b) == Concat(a) + Concat(b)
  {
    if a == [] {
      assert a + b == b;
    } else {
      assert (a + b)[1..] == a[1..] + b;
      ConcatAppend(a[1..], b);
    }
  }

  // ── Searching ────────────────────────────────────────────────

  /** The position of the first `b`, or the length of `s` when there is none. */
  function IndexOf(s: Text, b: rune): (i: nat)
    ensures i <= |s|
    ensures i < |s| ==> s[i] == b
  {
    if s == [] || s[0] == b then 0 else 1 + IndexOf(s[1..], b)
  }

  lemma {:induction false} IndexOfIsFirst(s: Text, b: rune)
    ensures forall j :: 0 <= j < IndexOf(s, b) ==> s[j] != b
    ensures IndexOf(s, b) < |s| <==> b in s
  {
    if s != [] && s[0] != b {
      IndexOfIsFirst(s[1..], b);
      assert s == [s[0]] + s[1..];
      forall j | 0 <= j < IndexOf(s, b)
        ensures s[j] != b
      {
        assert j > 0 ==> s[j] == s[1..][j - 1];
      }
    }
  }

  lemma {:induction false} IndexOfIs(s: Text, b: rune, n: nat)
    requires n <= |s| && b !in s[..n] && (n < |s| ==> s[n] == b)
    ensures IndexOf(s, b) == n
  {
    IndexOfIsFirst(s, b);
  }

  /** What precedes the first `b`: the first piece of `split(b)`. */
  function Before(s: Text, b: rune): Text {
    s[..IndexOf(s, b)]
  }

  predicate BlankAt(s: Bytes, i: nat) {
    i + 4 <= |s| && s[i] == CR && s[i + 1] == LF && s[i + 2] == CR && s[i + 3] == LF
  }

  /** The leftmost CRLFCRLF at or after `from`, as `windows(4).position(..)` finds it. */
  function FindBlank(s: Bytes, from: nat := 0): (r: Option<nat>)
    ensures r.Some? ==> from <= r.value && BlankAt(s, r.value)
    ensures r.Some? ==> forall j :: from <= j < r.value ==> !BlankAt(s, j)
    ensures r.None? ==> forall j :: from <= j ==> !BlankAt(s, j)
    decreases |s| - from
  {
    if from + 4 > |s| then None
    else if BlankAt(s, from) then Some(from)
    else FindBlank(s, from + 1)
  }

  predicate MatchesAt(s: Text, word: Text, i: nat) {
    i + |word| <= |s| && s[i..i + |word|] == word
  }

  predicate Contains(s: Text, word: Text) {
    exists i: nat | i <= |s| :: MatchesAt(s, word, i)
  }

  // ── Case, white space, trimming ──────────────────────────────

  /** `to_lowercase`, as far as it can make a word of ASCII: the Kelvin sign becomes a `k`, and
      no other character beyond ASCII becomes part of a word that the source looks for. */
  function LowerRune(c: rune): rune {
    if 65 <= c <= 90 then c + 32 else if c == 0x212A then 107 else c
  }

  function Lower(s: Text): (r: Text)
    ensures |r| == |s|
  {
    seq(|s|, i requires 0 <= i < |s| => LowerRune(s[i]))
  }

  /** `char::is_whitespace`. */
  predicate IsSpace(c: rune) {
    || 9 <= c <= 13 || c == SP || c == 0x85 || c == 0xA0 || c == 0x1680 || 0x2000 <= c <= 0x200A
    || c == 0x2028 || c == 0x2029 || c == 0x202F || c == 0x205F || c == 0x3000
  }

  predicate NoSpace(s: Text) {
    forall i :: 0 <= i < |s| ==> !IsSpace(s[i])
  }

  function TrimStart(s: Text): (r: Text)
    ensures |r| <= |s|
    ensures r != [] ==> !IsSpace(r[0])
  {
    if s != [] && IsSpace(s[0]) then TrimStart(s[1..]) else s
  }

  function TrimEnd(s: Text): (r: Text)
    ensures |r| <= |s|
    ensures r != [] ==> !IsSpace(r[|r| - 1])
  {
    if s != [] && IsSpace(s[|s| - 1]) then TrimEnd(s[..|s| - 1]) else s
  }

  function Trim(s: Text): Text {
    TrimEnd(TrimStart(s))
  }

  predicate Trimmed(s: Text) {
    s == [] || (!IsSpace(s[0]) && !IsSpace(s[|s| - 1]))
  }

  lemma {:induction false} TrimStartIsSuffix(s: Text)
    ensures TrimStart(s) == s[|s| - |TrimStart(s)|..]
  {
    if s != [] && IsSpace(s[0]) {
      TrimStartIsSuffix(s[1..]);
    }
  }

  lemma {:induction false} TrimEndIsPrefix(s: Text)
    ensures TrimEnd(s) == s[..|TrimEnd(s)|]
  {
    if s != [] && IsSpace(s[|s| - 1]) {
      TrimEndIsPrefix(s[..|s| - 1]);
    }
  }

  lemma {:induction false} TrimIsTrimmed(s: Text)
    ensures Trimmed(Trim(s))
    ensures forall b :: b in Trim(s) ==> b in s
    ensures Trimmed(s) ==> Trim(s) == s
  {
    var t := TrimStart(s);
    var u := TrimEnd(t);
    TrimStartIsSuffix(s);
    TrimEndIsPrefix(t);
    if Trimmed(s) {
      assert t == s;
    }
    hide TrimStart, TrimEnd;
    assert u != [] ==> u[0] == t[0];
    forall b | b in u
      ensures b in s
    {
      assert b in t;
    }
  }

  lemma {:induction false} TrimLeadingSpace(s: Text)
    ensures Trim([SP] + s) == Trim(s)
  {
    assert ([SP] + s)[1..] == s;
  }

  /** A text whose last byte is no space shields what precedes it from the trim. */
  lemma {:induction false} TrimEndAfter(a: Text, s: Text)
    requires a != [] && !IsSpace(a[|a| - 1])
    ensures TrimEnd(a + s) == a + TrimEnd(s)
  {
    if s == [] {
      assert a + s == a;
    } else if IsSpace(s[|s| - 1]) {
      assert (a + s)[..|a + s| - 1] == a + s[..|s| - 1];
      TrimEndAfter(a, s[..|s| - 1]);
    }
  }

  /** The length of the leading run of non-space bytes. */
  function WordLength(s: Text): (n: nat)
    ensures n <= |s|
    ensures NoSpace(s[..n])
    ensures n < |s| ==> IsSpace(s[n])
  {
    if s == [] || IsSpace(s[0]) then 0
    else
      var n := 1 + WordLength(s[1..]);
      assert forall i :: 1 <= i < n ==> s[..n][i] == s[1..][..n - 1][i - 1];
      n
  }

  /** `split_whitespace`. */
  function Tokens(s: Text): (r: seq<Text>)
    ensures forall t :: t in r ==> t != [] && NoSpace(t)
    decreases |s|
  {
    var t := TrimStart(s);
    if t == [] then []
    else
      var n := WordLength(t);
      [t[..n]] + Tokens(t[n..])
  }

  lemma {:induction false} TokensStep(word: Text, rest: Text)
    requires word != [] && NoSpace(word)
    ensures Tokens(word + [SP] + rest) == [word] + Tokens(rest)
  {
    var s := word + [SP] + rest;
    assert TrimStart(s) == s by { assert s[0] == word[0]; }
    WordLengthIs(s, |word|);
    assert s[|word|..] == [SP] + rest;
    assert s[..|word|] == word;
    assert TrimStart([SP] + rest) == TrimStart(rest) by { assert ([SP] + rest)[1..] == rest; }
  }

  lemma {:induction false} TokensLast(word: Text)
    requires word != [] && NoSpace(word)
    ensures Tokens(word) == [word]
  {
    WordLengthIs(word, |word|);
    assert word[|word|..] == [];
    assert word[..|word|] == word;
  }

  lemma {:induction false} WordLengthIs(s: Text, n: nat)
    requires n <= |s| && forall i :: 0 <= i < n ==> !IsSpace(s[i])
    requires n < |s| ==> IsSpace(s[n])
    ensures WordLength(s) == n
  {
  }

  // ── Lines ────────────────────────────────────────────────────

  function StripCr(s: Text): Text {
    if s != [] && s[|s| - 1] == CR then s[..|s| - 1] else s
  }

  /** `str::lines`: a line ends at LF or CRLF; an unterminated last line keeps its CR. */
  function Lines(s: Text): seq<Text>
    decreases |s|
  {
    if s == [] then []
    else
      var nl := IndexOf(s, LF);
      if nl == |s| then [s] else [StripCr(s[..nl])] + Lines(s[nl + 1..])
  }

  lemma {:induction false} LinesStep(line: Text, rest: Text)
    requires LF !in line
    ensures Lines(line + CRLF + rest) == [line] + Lines(rest)
  {
    var s := line + CRLF + rest;
    assert s[..|line| + 1] == line + [CR];
    IndexOfIs(s, LF, |line| + 1);
    assert StripCr(line + [CR]) == line;
    assert s[|line| + 2..] == rest;
  }

  lemma {:induction false} NoLines()
    ensures Lines([]) == []
  {
  }

  // ── Numbers ──────────────────────────────────────────────────

  function DigitValue(b: rune): nat {
    if 48 <= b <= 57 then b as nat - 48
    else if 97 <= b <= 102 then b as nat - 87
    else if 65 <= b <= 70 then b as nat - 55
    else 99
  }

  datatype Radix = Decimals | Hex {
    function Base(): nat {
      if Hex? then 16 else 10
    }

    function Times(n: nat): nat {
      if Hex? then 16 * n else 10 * n
    }
  }

  predicate AllDigits(s: Text, radix: Radix) {
    forall i :: 0 <= i < |s| ==> DigitValue(s[i]) < radix.Base()
  }

  function NumberValue(s: Text, radix: Radix): nat {
    if s == [] then 0 else radix.Times(NumberValue(s[..|s| - 1], radix)) + DigitValue(s[|s| - 1])
  }

  /** `from_str_radix` of an unsigned type whose largest value is `max`: an optional `+`,
      then at least one digit, and no overflow. */
  function ParseNumber(s: Text, radix: Radix, max: nat): Option<nat> {
    var digits := if |s| > 1 && s[0] == PLUS then s[1..] else s;
    if digits == [] || !AllDigits(digits, radix) then None
    else
      var v := NumberValue(digits, radix);
      if v <= max then Some(v) else None
  }

  /** The shortest decimal form of a number. */
  function Decimal(n: nat): (r: Bytes)
    ensures r != [] && NoSpace(r) && AllDigits(r, Decimals)
    ensures r[0] == 48 <==> n == 0
    ensures n == 0 ==> |r| == 1
  {
    if n < 10 then [(n + 48) as byte] else Decimal(n / 10) + [(n % 10 + 48) as byte]
  }

  lemma {:induction false} DecimalValue(n: nat)
    ensures NumberValue(Decimal(n), Decimals) == n
  {
    var d := Decimal(n);
    if n < 10 {
      assert d[..0] == [];
    } else {
      DecimalValue(n / 10);
      assert d[..|d| - 1] == Decimal(n / 10);
    }
  }

  lemma {:induction false} ParsePrintedDecimal(n: nat, max: nat)
    ensures ParseNumber(Decimal(n), Decimals, max) == if n <= max then Some(n) else None
  {
    DecimalValue(n);
    assert DigitValue(Decimal(n)[0]) < 10;
  }
}
