/**
 The tables behind the text operations, in characters as one writes them: white space, case,
 tokens (section 5.6.2 of RFC 9110), header values, digits, and well-formed UTF-8.
 */
module Characters {
  import opened ByteText
  import opened Headers
  import opened Utf8
  import opened Wrappers

  /** `White_Space`, as the Unicode Character Database lists it. */
  const WHITE_SPACE: Text := [0x09, 0x0A, 0x0B, 0x0C, 0x0D, 0x20, 0x85, 0xA0, 0x1680, 0x2000, 0x2001, 0x2002, 0x2003,
                              0x2004, 0x2005, 0x2006, 0x2007, 0x2008, 0x2009, 0x200A, 0x2028, 0x2029, 0x202F, 0x205F,
                              0x3000]

  lemma {:induction false} SpaceIff(c: rune)
    ensures IsSpace(c) <==> c in WHITE_SPACE
  {
    if 0x2000 <= c <= 0x200A {
      assert c == WHITE_SPACE[9 + (c - 0x2000) as int];
    } else if 9 <= c <= 13 {
      assert c == WHITE_SPACE[(c - 9) as int];
    } else if IsSpace(c) {
      assert c in [WHITE_SPACE[5], WHITE_SPACE[6], WHITE_SPACE[7], WHITE_SPACE[8], WHITE_SPACE[20], WHITE_SPACE[21],
                   WHITE_SPACE[22], WHITE_SPACE[23], WHITE_SPACE[24]];
    }
  }

  function Char(c: rune): char {
    c as int as char
  }

  /** Letters of ASCII lose their case, the Kelvin sign becomes a `k`, and all else stays. */
  lemma {:induction false} LowerIs(c: rune)
    ensures 'A' <= Char(c) <= 'Z' ==> 'a' <= Char(LowerRune(c)) <= 'z' && Char(LowerRune(c)) - 'a' == Char(c) - 'A'
    ensures c == 0x212A ==> Char(LowerRune(c)) == 'k'
    ensures !('A' <= Char(c) <= 'Z') && c != 0x212A ==> LowerRune(c) == c
  {
  }

  lemma {:induction false} TokenIff(c: rune)
    ensures IsToken([c]) <==>
              || '0' <= Char(c) <= '9' || 'A' <= Char(c) <= 'Z' || 'a' <= Char(c) <= 'z'
              || Char(c) in "!#$%&'*+-.^_`|~"
  {
    var s := [c];
    assert s[0] == c;
  }

  lemma {:induction false} TokenParts(a: Text, b: Text)
    requires a != [] && b != []
    ensures IsToken(a + b) <==> IsToken(a) && IsToken(b)
    ensures !IsToken([])
  {
    if IsToken(a + b) {
      assert forall i :: 0 <= i < |a| ==> (a + b)[i] == a[i];
      assert forall i :: 0 <= i < |b| ==> (a + b)[|a| + i] == b[i];
    }
  }

  lemma {:induction false} ValueIff(s: Bytes)
    ensures ValidValue(s) <==> forall b :: b in s ==> (Char(b) >= ' ' || Char(b) == '\t') && b != 127
  {
    if forall b :: b in s ==> (Char(b) >= ' ' || Char(b) == '\t') && b != 127 {
      assert forall i :: 0 <= i < |s| ==> s[i] in s;
    }
  }

  // ── Numbers ──────────────────────────────────────────────────

  /** Which single characters are numbers, and that a sign alone is none. */
  lemma {:induction false} DigitIff(c: rune)
    ensures ParseNumber([c], Decimals, 9) == if '0' <= Char(c) <= '9' then Some(Char(c) as nat - '0' as nat) else None
    ensures ParseNumber([c], Hex, 15)
            == if '0' <= Char(c) <= '9' then Some(Char(c) as nat - '0' as nat)
               else if 'a' <= Char(c) <= 'f' then Some(10 + Char(c) as nat - 'a' as nat)
               else if 'A' <= Char(c) <= 'F' then Some(10 + Char(c) as nat - 'A' as nat)
               else None
    ensures ParseNumber([], Decimals, 9) == None && ParseNumber([], Hex, 15) == None
  {
    var s := [c];
    assert s[..0] == [];
    assert NumberValue([], Decimals) == 0 && NumberValue([], Hex) == 0;
    assert s[0] == c;
  }

  function Unsigned(s: Text): Text {
    if |s| > 1 && s[0] == PLUS then s[1..] else s
  }

  lemma {:induction false} OneDigit(c: rune, radix: Radix, d: nat)
    requires ParseNumber([c], radix, 15) == Some(d)
    ensures DigitValue(c) == d && d < radix.Base() && c != PLUS
  {
    var one := [c];
    assert one[..0] == [] && one[0] == c;
    assert NumberValue([], radix) == 0;
  }

  lemma {:induction false} ValueGrows(digits: Text, last: rune, radix: Radix)
    requires AllDigits(digits, radix) && DigitValue(last) < radix.Base()
    ensures AllDigits(digits + [last], radix)
    ensures NumberValue(digits + [last], radix) == radix.Times(NumberValue(digits, radix)) + DigitValue(last)
  {
    hide DigitValue;
    var all := digits + [last];
    assert all[..|all| - 1] == digits;
  }

  /** A digit more multiplies by the base. */
  lemma {:induction false} DigitsAdd(front: Text, last: rune, radix: Radix, n: nat, d: nat, max: nat, more: nat)
    requires ParseNumber(front, radix, max) == Some(n) && ParseNumber([last], radix, 15) == Some(d)
    ensures var v := (if radix.Hex? then 16 else 10) * n + d;
            ParseNumber(front + [last], radix, more) == if v <= more then Some(v) else None
  {
    OnlySignIsNoNumber(front, radix, max);
    OneDigit(last, radix, d);
    hide DigitValue, NumberValue, AllDigits;
    ValueGrows(Unsigned(front), last, radix);
    assert Unsigned(front + [last]) == Unsigned(front) + [last];
  }

  lemma {:induction false} OnlySignIsNoNumber(s: Text, radix: Radix, max: nat)
    requires ParseNumber(s, radix, max).Some?
    ensures s != [] && !(|s| == 1 && s[0] == PLUS)
  {
  }

  /** One `+` in front changes nothing; anything that is no digit behind it is refused. */
  lemma {:induction false} SignIsSkipped(s: Text, radix: Radix, max: nat)
    requires s != [] && Char(s[0]) != '+'
    ensures var plus := [PLUS];
            Char(PLUS) == '+' && ParseNumber(plus + s, radix, max) == ParseNumber(s, radix, max)
  {
    assert ([PLUS] + s)[1..] == s;
  }

  lemma {:induction false} NoOtherCharacter(front: Text, c: rune, back: Text, radix: Radix, max: nat)
    requires ParseNumber([c], radix, 15) == None && (front == [] ==> Char(c) != '+')
    ensures ParseNumber(front + [c] + back, radix, max) == None
  {
    NoDigit(c, radix);
    DigitsAreSmall(c);
    hide DigitValue;
    var s := front + [c] + back;
    assert s[|front|] == c;
    var digits := Unsigned(s);
    assert digits == s || digits[|front| - 1] == c;
  }

  lemma {:induction false} NoDigit(c: rune, radix: Radix)
    requires ParseNumber([c], radix, 15) == None
    ensures DigitValue(c) >= radix.Base()
  {
    DigitsAreSmall(c);
    hide DigitValue;
    var one := [c];
    assert one[..0] == [] && NumberValue([], radix) == 0 && one[0] == c;
    assert NumberValue(one, radix) == DigitValue(c);
  }

  lemma {:induction false} DigitsAreSmall(c: rune)
    ensures DigitValue(c) <= 15 || DigitValue(c) == 99
    ensures Char(c) == '+' <==> c == PLUS
  {
  }

  // ── Well-formed UTF-8 ────────────────────────────────────────

  /** Bytes start with a whole character exactly when they start with the writing of one. */
  lemma {:induction false} WholeIff(s: Bytes)
    requires s != []
    ensures Whole(s) <==> exists c: rune :: EncodeRune(c) <= s
  {
    if Whole(s) {
      WholeIsWritten(s);
    }
    if exists c: rune :: EncodeRune(c) <= s {
      var c: rune :| EncodeRune(c) <= s;
      hide EncodeRune, Run;
      assert s == EncodeRune(c) + s[|EncodeRune(c)|..];
      WrittenIsWhole(c, s[|EncodeRune(c)|..]);
    }
  }

  lemma {:induction false} WrittenIsWhole(c: rune, rest: Bytes)
    ensures Whole(EncodeRune(c) + rest)
  {
    FirstOfEncoded(c, rest);
    LeadOf(c);
    hide Run;
    assert (EncodeRune(c) + rest)[0] == EncodeRune(c)[0];
  }

  lemma {:induction false} LeadOf(c: rune)
    ensures LengthFrom(EncodeRune(c)[0]) == |EncodeRune(c)|
  {
  }

  lemma {:induction false} Split64(a: int, b: int)
    requires 0 <= a && 0 <= b < 64
    ensures (a * 64 + b) / 64 == a && (a * 64 + b) % 64 == b
  {
  }

  lemma {:induction false} TwoAreWritten(s: Bytes)
    requires s != [] && Whole(s) && Run(s) == 2
    ensures EncodeRune(FirstRune(s)) == [s[0], s[1]]
  {
    var a, x := s[0] as int - 0xC0, s[1] as int - 0x80;
    Split64(a, x);
    assert FirstRune(s) as int == a * 64 + x;
  }

  lemma {:induction false} ThreeAreWritten(s: Bytes)
    requires s != [] && Whole(s) && Run(s) == 3
    ensures EncodeRune(FirstRune(s)) == [s[0], s[1], s[2]]
  {
    var a, x, y := s[0] as int - 0xE0, s[1] as int - 0x80, s[2] as int - 0x80;
    Split64(a * 64 + x, y);
    Split64(a, x);
    var c := FirstRune(s);
    assert c as int == (a * 64 + x) * 64 + y && 0x800 <= c < 0x10000;
    hide FirstRune, Run;
    assert c as int / 64 == a * 64 + x && c as int / 4096 == (c as int / 64) / 64;
    assert EncodeRune(c) == [0xE0 + a as rune, 0x80 + x as rune, 0x80 + y as rune];
  }

  lemma {:induction false} FourAreWritten(s: Bytes)
    requires s != [] && Whole(s) && Run(s) == 4
    ensures EncodeRune(FirstRune(s)) == [s[0], s[1], s[2], s[3]]
  {
    var a, x, y, z := s[0] as int - 0xF0, s[1] as int - 0x80, s[2] as int - 0x80, s[3] as int - 0x80;
    Split64((a * 64 + x) * 64 + y, z);
    Split64(a * 64 + x, y);
    Split64(a, x);
    var c := FirstRune(s);
    assert c as int == ((a * 64 + x) * 64 + y) * 64 + z && 0x10000 <= c;
    hide FirstRune, Run;
    assert c as int / 64 == (a * 64 + x) * 64 + y;
    assert c as int / 4096 == (c as int / 64) / 64 && c as int / 262144 == (c as int / 4096) / 64;
    assert EncodeRune(c) == [0xF0 + a as rune, 0x80 + x as rune, 0x80 + y as rune, 0x80 + z as rune];
  }

  lemma {:induction false} WholeIsWritten(s: Bytes)
    requires s != [] && Whole(s)
    ensures EncodeRune(FirstRune(s)) <= s
  {
    var n := Run(s);
    if n == 1 {
      assert s[0] < 0x80;
    } else {
      hide EncodeRune, FirstRune, Run;
      if n == 2 {
        TwoAreWritten(s);
        assert s[..2] == [s[0], s[1]];
      } else if n == 3 {
        ThreeAreWritten(s);
        assert s[..3] == [s[0], s[1], s[2]];
      } else {
        FourAreWritten(s);
        assert s[..4] == [s[0], s[1], s[2], s[3]];
      }
    }
  }

  /** The start of a character that is not all there, or cannot go on, goes as far as it is
      the start of the writing of one. */
  lemma {:induction false} PartIsLongest(s: Bytes, n: nat)
    requires s != [] && !Whole(s) && Run(s) < n <= |s|
    ensures !exists c: rune :: s[..n] <= EncodeRune(c)
  {
    if exists c: rune :: s[..n] <= EncodeRune(c) {
      var c: rune :| s[..n] <= EncodeRune(c);
      StartGoesOn(s, n, c);
    }
  }

  lemma {:induction false} StartGoesOn(s: Bytes, n: nat, c: rune)
    requires s != [] && 0 < n <= |s| && s[..n] <= EncodeRune(c)
    ensures n <= Run(s)
  {
    TailsOf(c);
    var r := EncodeRune(c);
    hide EncodeRune;
    assert forall i :: 0 <= i < n ==> s[i] == s[..n][i] == r[i];
  }

  lemma {:induction false} TailsOf(c: rune)
    ensures var r := EncodeRune(c);
            && |r| <= 4 && LengthFrom(r[0]) == |r|
            && (|r| > 1 ==> SecondFits(r[0], r[1])) && (|r| > 2 ==> IsTail(r[2])) && (|r| > 3 ==> IsTail(r[3]))
  {
  }

  /** And it is the start of one, unless its first byte starts none. */
  lemma {:induction false} PartIsStart(s: Bytes) returns (c: rune)
    requires s != [] && LengthFrom(s[0]) != 0
    ensures s[..Run(s)] <= EncodeRune(c)
  {
    var n, k := Run(s), LengthFrom(s[0]);
    var second: byte := if n > 1 then s[1] else if s[0] == 0xE0 then 0xA0 else if s[0] == 0xF0 then 0x90 else 0x80;
    var third: byte, fourth: byte := if n > 2 then s[2] else 0x80, if n > 3 then s[3] else 0x80;
    var whole := if k == 1 then [s[0]] else if k == 2 then [s[0], second]
                 else if k == 3 then [s[0], second, third] else [s[0], second, third, fourth];
    WholeIsWritten(whole);
    c := FirstRune(whole);
    hide EncodeRune, FirstRune;
    LeadOf(c);
    assert s[..n] == whole[..n];
  }
}
