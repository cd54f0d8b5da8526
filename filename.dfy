/**
 * The numbered file names `PixelBuffer::createFilename` builds: the prefix,
 * a "0" for every i in 1 .. leading0 with counter < 10^i, the counter in
 * decimal, and ".pbf".
 */
module Filename {
  import opened Util

  /** 10^i; `pow(10, i)` is exact in a double for every i where it matters (10^i > 2^32 from i = 10 on). */
  function Pow10(i: nat): (p: nat)
    ensures p >= 1
  {
    if i == 0 then 1 else 10 * Pow10(i - 1)
  }

  function Zeros(k: nat): (s: string)
    ensures |s| == k && forall j :: 0 <= j < k ==> s[j] == '0'
  {
    seq(k, _ => '0')
  }

  function DigitChar(d: int): (c: char)
    requires 0 <= d < 10
    ensures '0' <= c <= '9' && DigitValue(c) == d
  {
    ['0', '1', '2', '3', '4', '5', '6', '7', '8', '9'][d]
  }

  function DigitValue(c: char): nat {
    if '0' <= c <= '9' then (c as int) - ('0' as int) else 0
  }

  predicate AllDigits(s: string) {
    forall i :: 0 <= i < |s| ==> '0' <= s[i] <= '9'
  }

  /** How `operator<<` writes an unsigned number: decimal digits, most significant first, no leading zero. */
  function Decimal(n: nat): (s: string)
    ensures |s| >= 1 && AllDigits(s)
    ensures s[0] == '0' <==> n == 0
    decreases n
  {
    if n < 10 then [DigitChar(n)] else Decimal(n / 10) + [DigitChar(n % 10)]
  }

  /** The number of decimal digits of n (1 for 0). */
  function Digits(n: nat): (d: nat)
    ensures d >= 1
    decreases n
  {
    if n < 10 then 1 else 1 + Digits(n / 10)
  }

  /** The value of a string of decimal digits, read left to right. */
  function DecimalValue(s: string): nat
    decreases |s|
  {
    if |s| == 0 then 0 else 10 * DecimalValue(s[..|s| - 1]) + DigitValue(s[|s| - 1])
  }

  /** The zeros the loop of `createFilename` writes for i = 1 .. k. */
  function ZerosUpTo(counter: nat, k: nat): nat
    decreases k
  {
    if k == 0 then 0 else ZerosUpTo(counter, k - 1) + (if counter < Pow10(k) then 1 else 0)
  }

  /** The number part of the file name: the padding zeros, then the counter. */
  function Padded(counter: uint32, leading0: uint8): string {
    Zeros(ZerosUpTo(counter, leading0)) + Decimal(counter)
  }

  /** The whole file name. */
  function FileName(prefix: string, counter: uint32, leading0: uint8): string {
    prefix + Padded(counter, leading0) + ".pbf"
  }

  lemma {:induction false} DecimalLength(n: nat)
    ensures |Decimal(n)| == Digits(n)
    decreases n
  {
    if n >= 10 {
      DecimalLength(n / 10);
    }
  }

  /** Reading the decimal digits of n gives n back. */
  lemma {:induction false} DecimalRoundTrip(n: nat)
    ensures DecimalValue(Decimal(n)) == n
    decreases n
  {
    if n < 10 {
      assert Decimal(n)[..0] == [];
    } else {
      var s := Decimal(n);
      assert s[..|s| - 1] == Decimal(n / 10);
      DecimalRoundTrip(n / 10);
    }
  }

  /** Leading zeros do not change the value of a digit string. */
  lemma {:induction false} LeadingZeros(k: nat, s: string)
    ensures DecimalValue(Zeros(k) + s) == DecimalValue(s)
    decreases |s| + k
  {
    if |s| > 0 {
      assert (Zeros(k) + s)[..|Zeros(k) + s| - 1] == Zeros(k) + s[..|s| - 1];
      LeadingZeros(k, s[..|s| - 1]);
    } else if k > 0 {
      assert Zeros(k) + s == Zeros(k - 1) + ['0'];
      assert (Zeros(k - 1) + ['0'])[..k - 1] == Zeros(k - 1) + [];
      LeadingZeros(k - 1, []);
    }
  }

  /** A number is below 10^i exactly when it has at most i digits. */
  lemma {:induction false} BelowPow10(n: nat, i: nat)
    requires i >= 1
    ensures n < Pow10(i) <==> Digits(n) <= i
    decreases i
  {
    if i > 1 && n >= 10 {
      BelowPow10(n / 10, i - 1);
    } else if i > 1 {
      assert Pow10(i) == 10 * Pow10(i - 1);
    }
  }

  /**
   * The loop writes one zero for each i in 1 .. k from the number of
   * digits of the counter on.
   */
  lemma {:induction false} ZeroCount(counter: nat, k: nat)
    ensures ZerosUpTo(counter, k) == if Digits(counter) <= k then k - Digits(counter) + 1 else 0
    decreases k
  {
    if k > 0 {
      ZeroCount(counter, k - 1);
      BelowPow10(counter, k);
    }
  }

  /**
   * The number part is the counter, padded with zeros to leading0 + 1
   * digits when it is shorter, and its value is the counter.
   */
  lemma {:induction false} PaddedCounter(counter: uint32, leading0: uint8)
    ensures |Padded(counter, leading0)| == if Digits(counter) <= leading0 + 1 then leading0 + 1 else Digits(counter)
    ensures DecimalValue(Padded(counter, leading0)) == counter
  {
    ZeroCount(counter, leading0);
    DecimalLength(counter);
    LeadingZeros(ZerosUpTo(counter, leading0), Decimal(counter));
    DecimalRoundTrip(counter);
  }

  /** A counter shorter than leading0 + 1 digits is padded with zeros. */
  lemma FileNamePadded()
    ensures FileName("image", 42, 4) == "image00042.pbf"
  {
    assert Decimal(42) == "42" by {
      assert Decimal(4) == "4";
    }
    assert ZerosUpTo(42, 4) == 3 by {
      ZeroCount(42, 4);
      assert Digits(42) == 2;
    }
    assert Zeros(3) == "000";
    assert Padded(42, 4) == "00042";
  }

  /** A counter with more digits than leading0 + 1 is written as it is. */
  lemma FileNameUnpadded()
    ensures FileName("f", 123, 1) == "f123.pbf"
  {
    assert Decimal(123) == "123" by {
      assert Decimal(1) == [DigitChar(1)] == "1";
      assert Decimal(12) == Decimal(1) + [DigitChar(2)] == "12";
      assert Decimal(123) == Decimal(12) + [DigitChar(3)];
    }
    assert ZerosUpTo(123, 1) == 0 by {
      assert Pow10(1) == 10;
    }
    assert Padded(123, 1) == Zeros(0) + Decimal(123) == "123";
  }
}
