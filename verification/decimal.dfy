/** Decimal text of integers as Python prints them (`str(n)`, `f"{n}"`),
    the zero-padded form `f"{n:04d}"`, and the reading back of both. */
module Decimal {
  import opened Text

  predicate IsDigit(c: char) {
    '0' <= c <= '9'
  }

  predicate AllDigits(s: string) {
    forall i :: 0 <= i < |s| ==> IsDigit(s[i])
  }

  function DigitChar(d: nat): (c: char)
    requires d < 10
    ensures IsDigit(c)
  {
    ('0' as int + d) as char
  }

  function DigitValue(c: char): (d: nat)
    requires IsDigit(c)
    ensures d < 10 && DigitChar(d) == c
  {
    c as int - '0' as int
  }

  /** The shortest decimal digit string of `n`. */
  function Digits(n: nat): (r: string)
    ensures |r| >= 1 && AllDigits(r)
    ensures r[0] == '0' ==> n == 0
    decreases n
  {
    if n < 10 then [DigitChar(n)] else Digits(n / 10) + [DigitChar(n % 10)]
  }

  /** The number a digit string denotes; leading zeros are allowed. */
  function Value(s: string): nat
    requires AllDigits(s)
    decreases |s|
  {
    if |s| == 0 then 0 else Value(s[..|s| - 1]) * 10 + DigitValue(s[|s| - 1])
  }

  function Zeros(k: nat): (r: string)
    ensures |r| == k && AllDigits(r)
    ensures forall i :: 0 <= i < k ==> r[i] == '0'
  {
    seq(k, _ => '0')
  }

  function Pow10(k: nat): (p: nat)
    ensures p >= 1
  {
    if k == 0 then 1 else 10 * Pow10(k - 1)
  }

  /** `str(n)`: a minus sign for negative numbers, then the digits of |n|,
      with no leading zero except for `0` itself. */
  function Format(n: int): (r: string)
    ensures |r| >= 1
    ensures r[0] == '-' <==> n < 0
    ensures n < 0 ==> |r| >= 2
    ensures forall i :: 0 <= i < |r| && (i > 0 || n >= 0) ==> IsDigit(r[i])
    ensures |r| >= 2 ==> r[if n < 0 then 1 else 0] != '0'
  {
    if n < 0 then "-" + Digits(-n) else Digits(n)
  }

  /** Left-pad a digit string with zeros up to `width` characters; a longer
      string is kept whole. */
  function PadZeros(s: string, width: nat): (r: string)
    ensures |r| == if |s| < width then width else |s|
    ensures AllDigits(s) ==> AllDigits(r)
  {
    if |s| < width then Zeros(width - |s|) + s else s
  }

  /** `f"{n:04d}"`: the sign is part of the width of 4, and nothing is cut. */
  function Format04(n: int): (r: string)
    ensures |r| == if |Format(n)| < 4 then 4 else |Format(n)|
    ensures |Format(n)| >= 4 ==> r == Format(n)
    ensures r[0] == '-' <==> n < 0
  {
    if n < 0 then "-" + PadZeros(Digits(-n), 3) else PadZeros(Digits(n), 4)
  }

  /** Reads an optional minus sign followed by at least one digit. */
  function Parse(s: string): (r: Option<int>)
    ensures r.Some? ==> |s| >= 1
  {
    if |s| >= 2 && s[0] == '-' && AllDigits(s[1..]) then Some(0 - Value(s[1..]))
    else if |s| >= 1 && AllDigits(s) then Some(Value(s))
    else None
  }

  lemma {:induction false} ValueOfDigits(n: nat)
    ensures Value(Digits(n)) == n
    decreases n
  {
    if n >= 10 {
      var d := Digits(n);
      assert d[..|d| - 1] == Digits(n / 10);
      ValueOfDigits(n / 10);
    }
  }

  /** A leading zero does not change the value. */
  lemma {:induction false} ValueLeadingZero(s: string)
    requires AllDigits(s)
    ensures Value(['0'] + s) == Value(s)
    decreases |s|
  {
    if |s| > 0 {
      var t := ['0'] + s;
      assert t[..|t| - 1] == ['0'] + s[..|s| - 1];
      ValueLeadingZero(s[..|s| - 1]);
    }
  }

  lemma {:induction false} ValueZerosPrefix(k: nat, s: string)
    requires AllDigits(s)
    ensures Value(Zeros(k) + s) == Value(s)
    decreases k
  {
    if k > 0 {
      assert Zeros(k) + s == ['0'] + (Zeros(k - 1) + s);
      ValueZerosPrefix(k - 1, s);
      ValueLeadingZero(Zeros(k - 1) + s);
    } else {
      assert Zeros(k) + s == s;
    }
  }

  lemma ValueOfPadded(n: nat, width: nat)
    ensures AllDigits(PadZeros(Digits(n), width))
    ensures Value(PadZeros(Digits(n), width)) == n
  {
    ValueOfDigits(n);
    if |Digits(n)| < width {
      ValueZerosPrefix(width - |Digits(n)|, Digits(n));
    }
  }

  /** A number below 10^k has at most k digits. */
  lemma {:induction false} DigitsLength(n: nat, k: nat)
    requires k >= 1 && n < Pow10(k)
    ensures |Digits(n)| <= k
    decreases n
  {
    if n >= 10 {
      assert Pow10(1) == 10;
      DigitsLength(n / 10, k - 1);
    }
  }

  /** A number of at least 10^(k-1) has at least k digits. */
  lemma {:induction false} DigitsAtLeast(n: nat, k: nat)
    requires k >= 1 && n >= Pow10(k - 1)
    ensures |Digits(n)| >= k
    decreases k
  {
    if k > 1 {
      assert Pow10(k - 1) == 10 * Pow10(k - 2);
      DigitsAtLeast(n / 10, k - 1);
    }
  }

  /** A string of digits, at least one, reads back as its value. */
  lemma ParseDigits(s: string)
    requires |s| >= 1 && AllDigits(s)
    ensures Parse(s) == Some(Value(s))
  {
    assert s[0] != '-';
  }

  /** A minus sign followed by digits reads back as the negated value. */
  lemma ParseNegative(s: string)
    requires |s| >= 1 && AllDigits(s)
    ensures Parse("-" + s) == Some(0 - Value(s))
  {
    assert ("-" + s)[1..] == s;
  }

  /** Reading back the printed form gives the number: `str` is injective. */
  lemma FormatRoundTrip(n: int)
    ensures Parse(Format(n)) == Some(n)
  {
    if n < 0 {
      var d := Digits(-n);
      assert Format(n) == "-" + d;
      ValueOfDigits(-n);
      ParseNegative(d);
      assert Parse("-" + d) == Some(n);
    } else {
      var d := Digits(n);
      assert Format(n) == d;
      ValueOfDigits(n);
      ParseDigits(d);
      assert Parse(d) == Some(n);
    }
  }

  lemma FormatInjective(a: int, b: int)
    requires Format(a) == Format(b)
    ensures a == b
  {
    FormatRoundTrip(a);
    FormatRoundTrip(b);
  }

  /** `04d` reads back to the number for every integer, so it is injective too. */
  lemma Format04RoundTrip(n: int)
    ensures Parse(Format04(n)) == Some(n)
  {
    if n < 0 {
      PaddedNegativeRoundTrip(-n);
    } else {
      PaddedRoundTrip(n, 4);
    }
  }

  lemma PaddedRoundTrip(m: nat, width: nat)
    ensures Parse(PadZeros(Digits(m), width)) == Some(m)
  {
    ValueOfPadded(m, width);
    ParseDigits(PadZeros(Digits(m), width));
  }

  lemma PaddedNegativeRoundTrip(m: nat)
    requires m > 0
    ensures Parse("-" + PadZeros(Digits(m), 3)) == Some(0 - m)
  {
    ValueOfPadded(m, 3);
    ParseNegative(PadZeros(Digits(m), 3));
  }

  /** The common case: 0 <= n <= 9999 prints as exactly four digits. */
  lemma Format04FourDigits(n: int)
    requires 0 <= n <= 9999
    ensures |Format04(n)| == 4 && AllDigits(Format04(n))
  {
    assert Pow10(4) == 10000;
    DigitsLength(n, 4);
  }
}
