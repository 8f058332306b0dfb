/**
 UTF-8: how text is written, and how Rust's `from_utf8_lossy` reads bytes, with U+FFFD for
 each maximal part that starts no well-formed character.
 */
module Utf8 {
  import opened ByteText

  const REPLACEMENT: rune := 0xFFFD

  // ── Writing ──────────────────────────────────────────────────

  function EncodeRune(c: rune): (r: Bytes)
    ensures r != []
  {
    if c < 0x80 then [c]
    else if c < 0x800 then [0xC0 + c / 64, 0x80 + c % 64]
    else if c < 0x10000 then [0xE0 + c / 4096, 0x80 + c / 64 % 64, 0x80 + c % 64]
    else [0xF0 + c / 262144, 0x80 + c / 4096 % 64, 0x80 + c / 64 % 64, 0x80 + c % 64]
  }

  function Encode(t: Text): Bytes {
    if t == [] then [] else EncodeRune(t[0]) + Encode(t[1..])
  }

  // ── Reading ──────────────────────────────────────────────────

  /** The length of the characters that start with this byte, or 0 when none does. */
  function LengthFrom(lead: byte): nat {
    if lead < 0x80 then 1
    else if 0xC2 <= lead <= 0xDF then 2
    else if 0xE0 <= lead <= 0xEF then 3
    else if 0xF0 <= lead <= 0xF4 then 4
    else 0
  }

  predicate IsTail(b: byte) {
    0x80 <= b <= 0xBF
  }

  predicate SecondFits(lead: byte, b: byte) {
    && IsTail(b)
    && (lead == 0xE0 ==> 0xA0 <= b) && (lead == 0xED ==> b <= 0x9F)
    && (lead == 0xF0 ==> 0x90 <= b) && (lead == 0xF4 ==> b <= 0x8F)
  }

  /** How many bytes are read together: a whole character, or as much of one as there is. */
  function Run(s: Bytes): (n: nat)
    requires s != []
    ensures 1 <= n <= 4 && n <= |s|
  {
    var n := LengthFrom(s[0]);
    if n <= 1 || |s| == 1 || !SecondFits(s[0], s[1]) then 1
    else if n == 2 || |s| == 2 || !IsTail(s[2]) then 2
    else if n == 3 || |s| == 3 || !IsTail(s[3]) then 3
    else 4
  }

  predicate Whole(s: Bytes)
    requires s != []
  {
    Run(s) == LengthFrom(s[0])
  }

  /** The character that the bytes start with. */
  function FirstRune(s: Bytes): rune
    requires s != []
  {
    if !Whole(s) then REPLACEMENT
    else if s[0] < 0x80 then s[0]
    else if s[0] < 0xE0 then ((s[0] as int - 0xC0) * 64 + (s[1] as int - 0x80)) as rune
    else if s[0] < 0xF0 then
      ((s[0] as int - 0xE0) * 4096 + (s[1] as int - 0x80) * 64 + (s[2] as int - 0x80)) as rune
    else
      ((s[0] as int - 0xF0) * 262144 + (s[1] as int - 0x80) * 4096
       + (s[2] as int - 0x80) * 64 + (s[3] as int - 0x80)) as rune
  }

  /** `String::from_utf8_lossy`. */
  function Decode(s: Bytes): Text
    decreases |s|
  {
    if s == [] then [] else [FirstRune(s)] + Decode(s[Run(s)..])
  }

  // ── Reading what was written ─────────────────────────────────

  lemma {:induction false} ReadTwo(c: rune, s: Bytes)
    requires 0x80 <= c < 0x800 && |s| >= 2 && s[..2] == EncodeRune(c)
    ensures Run(s) == 2 && FirstRune(s) == c
  {
    var r := EncodeRune(c);
    assert s[0] == s[..2][0] == r[0] && s[1] == s[..2][1] == r[1];
    assert c as int == (c / 64) as int * 64 + (c % 64) as int;
  }

  lemma {:induction false} ReadThree(c: rune, s: Bytes)
    requires 0x800 <= c < 0x10000 && |s| >= 3 && s[..3] == EncodeRune(c)
    ensures Run(s) == 3 && FirstRune(s) == c
  {
    var r := EncodeRune(c);
    assert s[0] == s[..3][0] == r[0] && s[1] == s[..3][1] == r[1] && s[2] == s[..3][2] == r[2];
    var a, x, y := c as int / 4096, c as int / 64 % 64, c as int % 64;
    assert c as int == a * 4096 + x * 64 + y && 0 <= a <= 15;
    assert r == [0xE0 + a as rune, 0x80 + x as rune, 0x80 + y as rune];
  }

  lemma {:induction false} FourDigits(c: int)
    requires 0x10000 <= c < 0x110000
    ensures c == c / 262144 * 262144 + c / 4096 % 64 * 4096 + c / 64 % 64 * 64 + c % 64
    ensures 0 <= c / 262144 <= 4
  {
    assert c / 64 == c / 4096 * 64 + c / 64 % 64;
    assert c / 4096 == c / 262144 * 64 + c / 4096 % 64;
  }

  lemma {:induction false} ReadFour(c: rune, s: Bytes)
    requires 0x10000 <= c && |s| >= 4 && s[..4] == EncodeRune(c)
    ensures Run(s) == 4 && FirstRune(s) == c
  {
    var r := EncodeRune(c);
    assert s[0] == s[..4][0] == r[0] && s[1] == s[..4][1] == r[1];
    assert s[2] == s[..4][2] == r[2] && s[3] == s[..4][3] == r[3];
    var a, x, y, z := c as int / 262144, c as int / 4096 % 64, c as int / 64 % 64, c as int % 64;
    FourDigits(c as int);
    assert r == [0xF0 + a as rune, 0x80 + x as rune, 0x80 + y as rune, 0x80 + z as rune];
  }

  lemma {:induction false} FirstOfEncoded(c: rune, rest: Bytes)
    ensures var s := EncodeRune(c) + rest;
            Run(s) == |EncodeRune(c)| && FirstRune(s) == c && s[Run(s)..] == rest
  {
    var s, n := EncodeRune(c) + rest, |EncodeRune(c)|;
    assert s[..n] == EncodeRune(c) && s[n..] == rest;
    if c < 0x80 {
      assert s[0] == c;
    } else {
      hide Run, FirstRune;
      if c < 0x800 {
        ReadTwo(c, s);
      } else if c < 0x10000 {
        ReadThree(c, s);
      } else {
        ReadFour(c, s);
      }
    }
  }

  lemma {:induction false} DecodeStep(c: rune, rest: Bytes)
    ensures Decode(EncodeRune(c) + rest) == [c] + Decode(rest)
  {
    hide EncodeRune, Run, FirstRune;
    FirstOfEncoded(c, rest);
  }

  /** Text that is written as UTF-8 is read back. */
  lemma {:induction false} DecodeEncoded(t: Text)
    ensures Decode(Encode(t)) == t
  {
    hide EncodeRune, Run, FirstRune;
    if t != [] {
      DecodeStep(t[0], Encode(t[1..]));
      DecodeEncoded(t[1..]);
    }
  }

  // ── Cutting between characters ───────────────────────────────

  /** No character goes across this place. */
  predicate CutsBetween(a: Bytes, b: Bytes) {
    a == [] || b == [] || a[|a| - 1] < 0x80 || !IsTail(b[0])
  }

  lemma {:induction false} RunStaysInside(a: Bytes, b: Bytes)
    requires a != [] && CutsBetween(a, b)
    ensures Run(a + b) == Run(a) && FirstRune(a + b) == FirstRune(a)
    ensures CutsBetween(a[Run(a)..], b)
  {
    var s := a + b;
    assert forall i :: 0 <= i < |a| ==> s[i] == a[i];
    assert b != [] ==> s[|a|] == b[0];
    if b == [] {
      assert s == a;
    }
  }

  lemma {:induction false} DecodeSplits(a: Bytes, b: Bytes)
    requires CutsBetween(a, b)
    ensures Decode(a + b) == Decode(a) + Decode(b)
    decreases |a|
  {
    hide Run, FirstRune, CutsBetween;
    if a == [] {
      assert a + b == b;
    } else {
      RunStaysInside(a, b);
      assert (a + b)[Run(a)..] == a[Run(a)..] + b;
      DecodeSplits(a[Run(a)..], b);
    }
  }

  predicate IsAscii(s: Text) {
    forall i :: 0 <= i < |s| ==> s[i] < 0x80
  }

  lemma {:induction false} DecodeAscii(s: Bytes)
    requires IsAscii(s)
    ensures Decode(s) == s
  {
    if s != [] {
      assert Run(s) == 1;
      DecodeAscii(s[1..]);
    }
  }

  lemma {:induction false} EncodeAscii(t: Text)
    requires IsAscii(t)
    ensures Encode(t) == t
  {
    if t != [] {
      EncodeAscii(t[1..]);
    }
  }

  lemma {:induction false} RunHolds(s: Bytes, c: rune)
    requires s != [] && c < 0x80
    ensures FirstRune(s) == c <==> c in s[..Run(s)]
  {
    assert s[0] in s[..Run(s)];
    if s[0] == c {
      assert Run(s) == 1;
    }
    forall b | b in s[..Run(s)]
      ensures b == s[0] || IsTail(b)
    {
      var i :| 0 <= i < Run(s) && s[i] == b;
    }
  }

  /** Decoding neither makes nor loses a character of ASCII. */
  lemma {:induction false} DecodeKeepsAscii(s: Bytes, c: rune)
    requires c < 0x80
    ensures c in Decode(s) <==> c in s
    decreases |s|
  {
    hide Run, FirstRune;
    if s != [] {
      RunHolds(s, c);
      DecodeKeepsAscii(s[Run(s)..], c);
      assert s == s[..Run(s)] + s[Run(s)..];
    }
  }

  // ── Lines of decoded bytes ───────────────────────────────────

  /** `String::from_utf8_lossy(s).lines()`. */
  function TextLines(s: Bytes): seq<Text> {
    Lines(Decode(s))
  }

  lemma {:induction false} CrlfIsAscii()
    ensures IsAscii(CRLF) && |CRLF| == 2
  {
  }

  lemma {:induction false} DecodeAroundAscii(a: Bytes, word: Bytes, b: Bytes)
    requires word != [] && IsAscii(word)
    ensures Decode(a + word + b) == Decode(a) + word + Decode(b)
  {
    hide Decode;
    DecodeAscii(word);
    DecodeSplits(a, word);
    assert (a + word)[|a + word| - 1] == word[|word| - 1];
    DecodeSplits(a + word, b);
  }

  lemma {:induction false} TextLinesStep(line: Bytes, rest: Bytes)
    requires LF !in line
    ensures TextLines(line + CRLF + rest) == [Decode(line)] + TextLines(rest)
  {
    hide Decode, Lines;
    CrlfIsAscii();
    DecodeAroundAscii(line, CRLF, rest);
    DecodeKeepsAscii(line, LF);
    LinesStep(Decode(line), Decode(rest));
  }

  lemma {:induction false} NoTextLines()
    ensures TextLines([]) == []
  {
  }
}
