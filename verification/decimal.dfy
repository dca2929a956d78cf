/**
  The C and C++ library conversions between integers and decimal text that
  the snapshot code relies on: `std::to_string`, zero-filled `std::setw`
  output, and `std::atoi`.
*/
module Decimal {

  predicate IsDigit(c: char) { '0' <= c <= '9' }

  predicate AllDigits(s: string) { forall k :: 0 <= k < |s| ==> IsDigit(s[k]) }

  function DigitChar(d: int): (c: char)
    requires 0 <= d < 10
    ensures IsDigit(c)
  {
    ('0' as int + d) as char
  }

  function DigitValue(c: char): int
    requires IsDigit(c)
  {
    c as int - '0' as int
  }

  /** Decimal digits of a natural number, no leading zeros ("0" for zero). */
  function Digits(n: nat): (s: string)
    ensures |s| > 0 && AllDigits(s)
    ensures n < 10 <==> |s| == 1
  {
    if n < 10 then [DigitChar(n)] else Digits(n / 10) + [DigitChar(n % 10)]
  }

  /** `std::to_string` of an int: a minus sign for negative values, no padding. */
  function ToString(n: int): string
  {
    if n < 0 then "-" + Digits(-n) else Digits(n)
  }

  /**
    `std::setw(w)` with fill '0' and the default (right) adjustment: fill
    characters go in front of the whole text, even in front of a minus sign.
  */
  function PadZero(s: string, w: nat): (r: string)
    ensures |r| == if |s| >= w then |s| else w
    ensures r[|r| - |s|..] == s
    ensures forall k :: 0 <= k < |r| - |s| ==> r[k] == '0'
  {
    if |s| >= w then s else Zeros(w - |s|) + s
  }

  /** Value of a string of digits, most significant first. */
  function Value(s: string): nat
    requires AllDigits(s)
  {
    if |s| == 0 then 0 else 10 * Value(s[..|s| - 1]) + DigitValue(s[|s| - 1])
  }

  /** The longest prefix of s made of digits. */
  function LeadingDigits(s: string): (r: string)
    ensures AllDigits(r) && r <= s
    ensures |r| < |s| ==> !IsDigit(s[|r|])
  {
    if |s| == 0 || !IsDigit(s[0]) then [] else [s[0]] + LeadingDigits(s[1..])
  }

  predicate IsSpace(c: char)
  {
    c == ' ' || c == '\t' || c == '\n' || c == '\r' || c as int == 11 || c as int == 12
  }

  function SkipSpaces(s: string): (r: string)
    ensures |r| <= |s| && r == s[|s| - |r|..]
    ensures |r| > 0 ==> !IsSpace(r[0])
  {
    if |s| > 0 && IsSpace(s[0]) then SkipSpaces(s[1..]) else s
  }

  /**
    `std::atoi`: leading white space, an optional sign, then as many digits as
    follow; anything after them is ignored and no digits give 0.
  */
  function Atoi(s: string): int
  {
    var t := SkipSpaces(s);
    if |t| > 0 && t[0] == '-' then 0 - Value(LeadingDigits(t[1..]))
    else if |t| > 0 && t[0] == '+' then Value(LeadingDigits(t[1..]))
    else Value(LeadingDigits(t))
  }

  // ---------------------------------------------------------------------
  // Round trips
  // ---------------------------------------------------------------------

  lemma {:induction false} ValueOfDigits(n: nat)
    ensures Value(Digits(n)) == n
  {
    if n >= 10 {
      var s := Digits(n);
      assert s[..|s| - 1] == Digits(n / 10);
      ValueOfDigits(n / 10);
    }
  }

  lemma LeadingDigitsOfDigits(s: string)
    requires AllDigits(s)
    ensures LeadingDigits(s) == s
  {
  }

  function Zeros(z: nat): (r: string)
    ensures |r| == z && AllDigits(r)
  {
    seq(z, _ => '0')
  }

  /** One more leading zero keeps the value. */
  lemma {:induction false} ValueOfZeroPrefix(s: string)
    requires AllDigits(s)
    ensures AllDigits(['0'] + s)
    ensures Value(['0'] + s) == Value(s)
  {
    if |s| > 0 {
      var t := ['0'] + s;
      assert t[..|t| - 1] == ['0'] + s[..|s| - 1];
      ValueOfZeroPrefix(s[..|s| - 1]);
    }
  }

  /** Leading zeros do not change the value. */
  lemma {:induction false} ValueIgnoresZeros(z: nat, s: string)
    requires AllDigits(s)
    ensures AllDigits(Zeros(z) + s)
    ensures Value(Zeros(z) + s) == Value(s)
  {
    if z > 0 {
      var tail := Zeros(z - 1) + s;
      assert Zeros(z) + s == ['0'] + tail;
      ValueIgnoresZeros(z - 1, s);
      ValueOfZeroPrefix(tail);
    } else {
      assert Zeros(z) + s == s;
    }
  }

  lemma SkipSpacesOfDigits(s: string)
    requires AllDigits(s)
    ensures SkipSpaces(s) == s
  {
    if |s| > 0 {
      assert IsDigit(s[0]);
    }
  }

  lemma AtoiOfDigits(s: string)
    requires AllDigits(s)
    ensures Atoi(s) == Value(s)
  {
    LeadingDigitsOfDigits(s);
    SkipSpacesOfDigits(s);
    if |s| > 0 {
      assert IsDigit(s[0]);
    }
  }

  /** Parsing a zero-padded rendering of a natural number gives the number back. */
  lemma PaddedRoundTrip(n: nat, w: nat)
    ensures AllDigits(PadZero(Digits(n), w))
    ensures Atoi(PadZero(Digits(n), w)) == n
  {
    var s := Digits(n);
    var p := PadZero(s, w);
    if |s| < w {
      assert p == Zeros(w - |s|) + s;
      ValueIgnoresZeros(w - |s|, s);
    } else {
      assert p == s;
    }
    assert AllDigits(p) && Value(p) == Value(s);
    ValueOfDigits(n);
    AtoiOfDigits(p);
  }

  /** `std::atoi` inverts `std::to_string` on every int. */
  lemma ToStringRoundTrip(n: int)
    ensures Atoi(ToString(n)) == n
  {
    if n < 0 {
      var d := Digits(-n);
      var s := ['-'] + d;
      assert ToString(n) == s;
      SkipSpacesMinus(d);
      assert s[1..] == d;
      LeadingDigitsOfDigits(d);
      ValueOfDigits(-n);
      assert Atoi(s) == 0 - Value(d);
    } else {
      PaddedRoundTrip(n, 0);
    }
  }

  lemma SkipSpacesMinus(d: string)
    ensures SkipSpaces(['-'] + d) == ['-'] + d
  {
  }

  /** A rendered int holds only digits and perhaps a leading minus sign. */
  lemma ToStringAlphabet(n: int)
    ensures forall k :: 0 <= k < |ToString(n)| ==> IsDigit(ToString(n)[k]) || (k == 0 && n < 0 && ToString(n)[k] == '-')
  {
  }

  lemma PadZeroAppend(a: string, c: char, w: nat)
    requires |a| <= w
    ensures PadZero(a + [c], w + 1) == PadZero(a, w) + [c]
  {
    if |a| < w {
      assert PadZero(a + [c], w + 1) == Zeros(w - |a|) + (a + [c]);
      assert PadZero(a, w) == Zeros(w - |a|) + a;
    }
  }

  /** A digit string of value zero is all zeros. */
  lemma {:induction false} ZeroValue(s: string)
    requires AllDigits(s) && Value(s) == 0
    ensures s == Zeros(|s|)
  {
    if |s| > 0 {
      ZeroValue(s[..|s| - 1]);
      assert s == s[..|s| - 1] + [s[|s| - 1]];
    }
  }

  lemma DigitRoundTrip(c: char)
    requires IsDigit(c)
    ensures DigitChar(DigitValue(c)) == c
  {
  }

  /** Re-rendering the value of a digit string at the string's width gives the string back. */
  lemma {:induction false} DigitsOfValue(s: string)
    requires AllDigits(s) && |s| > 0
    ensures |Digits(Value(s))| <= |s|
    ensures PadZero(Digits(Value(s)), |s|) == s
  {
    var v := Value(s);
    var init := s[..|s| - 1];
    var last := s[|s| - 1];
    if v < 10 {
      DigitsOfSmallValue(s);
    } else {
      assert s == init + [last];
      DigitRoundTrip(last);
      assert |init| > 0;
      assert v / 10 == Value(init) && v % 10 == DigitValue(last);
      DigitsOfValue(init);
      assert Digits(v) == Digits(Value(init)) + [last];
      PadZeroAppend(Digits(Value(init)), last, |init|);
    }
  }

  /** A digit string of value below ten is its last digit behind zeros. */
  lemma DigitsOfSmallValue(s: string)
    requires AllDigits(s) && |s| > 0 && Value(s) < 10
    ensures |Digits(Value(s))| <= |s|
    ensures PadZero(Digits(Value(s)), |s|) == s
  {
    var init := s[..|s| - 1];
    var last := s[|s| - 1];
    assert s == init + [last];
    assert Value(s) == 10 * Value(init) + DigitValue(last);
    assert Value(init) == 0;
    var v := Value(s);
    assert v == DigitValue(last);
    assert Digits(v) == [DigitChar(v)];
    DigitRoundTrip(last);
    ZeroValue(init);
    PadOneDigit(last, |init|);
  }

  lemma PadOneDigit(c: char, z: nat)
    ensures PadZero([c], z + 1) == Zeros(z) + [c]
  {
    if z == 0 {
      assert Zeros(z) + [c] == [c];
    }
  }
}
