/**
 * The ASCII decimal notation of integers, as `Long.toString` and `Integer.toString`
 * write it, together with its inverse. This is the reference every numeric encoder
 * is proved against.
 */
module Decimals {
  import opened Primitives

  predicate IsDigit(b: byte) {
    ZERO <= b <= NINE
  }

  predicate AllDigits(s: seq<byte>) {
    forall i :: 0 <= i < |s| ==> IsDigit(s[i])
  }

  /** The ASCII byte of the digit `d`. */
  function DigitByte(d: nat): (b: byte)
    requires d < 10
    ensures IsDigit(b) && (b - ZERO) as int == d
  {
    (ZERO as int + d) as byte
  }

  function Pow10(k: nat): (p: nat)
    ensures p >= 1
  {
    if k == 0 then 1 else 10 * Pow10(k - 1)
  }

  /** The decimal digits of `x`, most significant first, with no leading zero (`0` is "0"). */
  function Digits(x: nat): (r: seq<byte>)
    ensures 1 <= |r|
    ensures (r[0] == ZERO) <==> x == 0
  {
    if x < 10 then [DigitByte(x)] else Digits(x / 10) + [DigitByte(x % 10)]
  }

  /** Every byte of `Digits(x)` is an ASCII digit. */
  lemma {:induction false} DigitsAreDigits(x: nat)
    ensures AllDigits(Digits(x))
  {
    if x >= 10 {
      DigitsAreDigits(x / 10);
    }
  }

  /** The digits of `x` with the convention that `0` has none: what remains to be written. */
  function LeadingDigits(x: nat): (r: seq<byte>)
    ensures x > 0 ==> r == Digits(x)
    ensures x == 0 ==> r == []
  {
    if x == 0 then [] else Digits(x)
  }

  /** Peeling the last digit off a positive number. */
  lemma DigitsStep(x: nat)
    requires x > 0
    ensures LeadingDigits(x) == LeadingDigits(x / 10) + [DigitByte(x % 10)]
  {
  }

  /** The decimal notation of `n`: a '-' sign for negative numbers, then the digits of |n|. */
  function Decimal(n: int): seq<byte>
  {
    if n < 0 then [MINUS] + Digits(-n) else Digits(n)
  }

  /** The value of a string of decimal digits (the empty string has value 0). */
  function DigitsValue(s: seq<byte>): nat
    requires AllDigits(s)
  {
    if s == [] then 0 else DigitsValue(s[..|s| - 1]) * 10 + (s[|s| - 1] - ZERO) as int
  }

  /** Reads an optionally '-'-signed, non-empty string of decimal digits. */
  function ParseDecimal(s: seq<byte>): (r: Option<int>)
    ensures r.Some? ==> 1 <= |s|
  {
    if |s| > 0 && s[0] == MINUS then
      if |s| > 1 && AllDigits(s[1..]) then Some(-(DigitsValue(s[1..]) as int)) else None
    else if |s| > 0 && AllDigits(s) then Some(DigitsValue(s))
    else None
  }

  lemma {:induction false} Pow10Increasing(i: nat, j: nat)
    requires i < j
    ensures Pow10(i) < Pow10(j)
  {
    if j > i + 1 {
      Pow10Increasing(i, j - 1);
    }
  }

  /** Reading back the digits of `x` gives `x`. */
  lemma {:induction false} DigitsValueOfDigits(x: nat)
    ensures AllDigits(Digits(x)) && DigitsValue(Digits(x)) == x
  {
    DigitsAreDigits(x);
    if x >= 10 {
      var d := Digits(x);
      DigitsValueOfDigits(x / 10);
      assert d[..|d| - 1] == Digits(x / 10);
    }
  }

  /** `ParseDecimal` inverts `Decimal`: the notation of every integer reads back as that integer. */
  lemma DecimalRoundTrip(n: int)
    ensures ParseDecimal(Decimal(n)) == Some(n)
  {
    var d := Decimal(n);
    if n < 0 {
      assert d[1..] == Digits(-n);
      DigitsValueOfDigits(-n);
    } else {
      DigitsValueOfDigits(n);
    }
  }

  /** The notation of `n` starts with '-' exactly when `n` is negative and is digits everywhere else. */
  lemma DecimalShape(n: int)
    ensures |Decimal(n)| == |Digits(if n < 0 then -n else n)| + (if n < 0 then 1 else 0)
    ensures (Decimal(n)[0] == MINUS) <==> n < 0
    ensures forall i :: 0 < i < |Decimal(n)| ==> IsDigit(Decimal(n)[i])
    ensures n >= 0 ==> IsDigit(Decimal(n)[0])
  {
    DigitsAreDigits(if n < 0 then -n else n);
  }

  /** `x` has exactly `k` digits when it lies in [10^(k-1), 10^k) (or in [0, 10) for `k == 1`). */
  lemma {:induction false} DigitCount(x: nat, k: nat)
    requires 1 <= k
    requires k == 1 || Pow10(k - 1) <= x
    requires x < Pow10(k)
    ensures |Digits(x)| == k
  {
    if x >= 10 {
      assert k >= 2;
      DigitCount(x / 10, k - 1);
    }
  }

  /** No number below 10^k has more than `k` digits. */
  lemma {:induction false} DigitCountAtMost(x: nat, k: nat)
    requires 1 <= k
    requires x < Pow10(k)
    ensures |Digits(x)| <= k
  {
    if x >= 10 {
      assert k >= 2;
      DigitCountAtMost(x / 10, k - 1);
    }
  }

  lemma Pow10Values()
    ensures Pow10(18) == 1_000_000_000_000_000_000
    ensures Pow10(19) == 10_000_000_000_000_000_000
  {
    assert Pow10(1) == 10;
    assert Pow10(2) == 100;
    assert Pow10(3) == 1000;
    assert Pow10(4) == 10000;
    assert Pow10(5) == 100000;
    assert Pow10(6) == 1000000;
    assert Pow10(7) == 10000000;
    assert Pow10(8) == 100000000;
    assert Pow10(9) == 1000000000;
    assert Pow10(10) == 10000000000;
    assert Pow10(11) == 100000000000;
    assert Pow10(12) == 1000000000000;
    assert Pow10(13) == 10000000000000;
    assert Pow10(14) == 100000000000000;
    assert Pow10(15) == 1000000000000000;
    assert Pow10(16) == 10000000000000000;
    assert Pow10(17) == 100000000000000000;
    assert Pow10(18) == 1000000000000000000;
    assert Pow10(19) == 10000000000000000000;
  }

  /** A long has at most 19 digits and its notation at most 20 bytes. */
  lemma LongDecimalLength(n: Int64)
    ensures |Digits(if n < 0 then -(n as int) else n as int)| <= 19
    ensures |Decimal(n as int)| <= 20
  {
    Pow10Values();
    DigitCountAtMost(if n < 0 then -(n as int) else n as int, 19);
  }
}
