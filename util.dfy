/**
 * Integer helpers of pixelbuffer/util.h: byte/word packing, `constrain`,
 * the row-major `index`, and the fixed-width integer types the rest of the
 * model is written in.
 */
module Util {

  /** C++ `uint8_t`, `uint16_t`, `uint32_t`, `short` and the range of `size_t`. */
  type uint8 = n: int | 0 <= n < 0x100
  type uint16 = n: int | 0 <= n < 0x1_0000
  type uint32 = n: int | 0 <= n < 0x1_0000_0000
  type int16 = n: int | -0x8000 <= n < 0x8000
  const SIZE_RANGE: nat := 0x1_0000_0000_0000_0000

  function Abs(n: int): nat { if n < 0 then -n else n }

  /** Conversion of any integer to `uint8_t`: C++ keeps the value modulo 256. */
  function ToUint8(n: int): (b: uint8)
    ensures (n - b) % 0x100 == 0
  {
    n % 0x100
  }

  /**
   * C++ `/` on `int`: the quotient is truncated toward zero, so the
   * remainder is smaller than the divisor and has the sign of the dividend.
   */
  function CDiv(a: int, b: int): int
    requires b != 0
  {
    var m := Abs(a) / Abs(b);
    if (a < 0) == (b < 0) then m else -m
  }

  lemma {:induction false} CDivTruncates(a: int, b: int)
    requires b != 0
    ensures var q := CDiv(a, b);
      Abs(a - q * b) < Abs(b) && (a - q * b == 0 || (a - q * b < 0 <==> a < 0))
  {
  }

  /**
   * `count * (depth / 8)`, the bytes that `count` pixels of 8, 16, 24 or
   * 32 bits take, written depth by depth so that it stays linear in count.
   */
  function PixelBytes(count: nat, depth: int): nat {
    if depth == 8 then count
    else if depth == 16 then 2 * count
    else if depth == 24 then 3 * count
    else if depth == 32 then 4 * count
    else 0
  }

  /** The bytes of `count` pixels are their bits divided by 8. */
  lemma {:induction false} PixelBytesAsBits(count: nat, depth: int)
    requires depth == 8 || depth == 16 || depth == 24 || depth == 32
    ensures PixelBytes(count, depth) == count * depth / 8
  {
    if depth == 8 {
      assert count * depth == 8 * count;
    } else if depth == 16 {
      assert count * depth == 8 * (2 * count);
    } else if depth == 24 {
      assert count * depth == 8 * (3 * count);
    } else {
      assert count * depth == 8 * (4 * count);
    }
  }

  lemma {:induction false} MulMonotone(x: int, y: int, z: int)
    requires x >= 0 && y <= z
    ensures x * y <= x * z
  {
  }

  /** Quotient and remainder are the only pair with n == q*d + r, 0 <= r < d. */
  lemma {:induction false} DivModUnique(n: int, d: int, q: int, r: int)
    requires d > 0 && 0 <= r < d && n == q * d + r
    ensures n / d == q && n % d == r
  {
    var q', r' := n / d, n % d;
    assert (q - q') * d == r' - r;
    if q - q' >= 1 {
      MulMonotone(d, 1, q - q');
    } else if q - q' <= -1 {
      MulMonotone(d, q - q', -1);
    }
  }

  lemma {:induction false} MulDivCancel(k: int, v: int)
    requires k > 0
    ensures (k * v) / k == v
  {
    DivModUnique(k * v, k, v, 0);
  }

  lemma {:induction false} DivAtMost(n: int, d: int, m: int)
    requires d > 0 && 0 <= n <= m * d
    ensures n / d <= m
  {
    if n / d > m {
      MulMonotone(d, m + 1, n / d);
    }
  }

  /** C++ division undoes a multiplication by the same nonzero factor. */
  lemma {:induction false} CDivOfProduct(a: int, b: int)
    requires b != 0
    ensures CDiv(a * b, b) == a
  {
    var q := CDiv(a * b, b);
    CDivTruncates(a * b, b);
    assert Abs((a - q) * b) < Abs(b);
    if a - q >= 1 || a - q <= -1 {
      AbsMulAtLeast(a - q, b);
    }
  }

  lemma {:induction false} AbsMulAtLeast(k: int, b: int)
    requires k != 0
    ensures Abs(k * b) >= Abs(b)
  {
    if k > 0 && b >= 0 {
      MulMonotone(b, 1, k);
    } else if k > 0 {
      MulMonotone(-b, 1, k);
    } else if b >= 0 {
      MulMonotone(b, 1, -k);
    } else {
      MulMonotone(-b, 1, -k);
    }
  }

  /** `high_byte`: `wrd >> 8`, the number of whole 256s in the word. */
  function HighByte(wrd: uint16): (high: uint8)
    ensures high * 0x100 <= wrd < (high + 1) * 0x100
  {
    wrd / 0x100
  }

  /** `low_byte`: `wrd & 0xFF`, what is left once the high byte is taken out. */
  function LowByte(wrd: uint16): (low: uint8)
    ensures low == wrd - HighByte(wrd) * 0x100
  {
    wrd % 0x100
  }

  /**
   * `make_word`: `(high << 8) | low`. The two operands have no bit in
   * common, so the `|` is an addition.
   */
  function MakeWord(high: uint8, low: uint8): (wrd: uint16)
    ensures HighByte(wrd) == high && LowByte(wrd) == low
  {
    high * 0x100 + low
  }

  /** Splitting a word and joining the halves gives the word back. */
  lemma {:induction false} WordRoundTrip(wrd: uint16)
    ensures MakeWord(HighByte(wrd), LowByte(wrd)) == wrd
  {
  }

  lemma WordExamples()
    ensures HighByte(0xABCD) == 0xAB && LowByte(0xABCD) == 0xCD
    ensures MakeWord(0x7A, 0x42) == 0x7A42
  {
  }

  /**
   * `constrain` on doubles: the parameter is overwritten by `min`, then the
   * overwritten value is compared with `max`. When min <= max the result is
   * in [min, max]; when min > max it is always max.
   */
  function Constrain(value: real, min: real, max: real): (r: real)
    ensures min <= max ==> min <= r <= max
    ensures min <= value <= max ==> r == value
    ensures value < min && min <= max ==> r == min
    ensures value > max ==> r == max
    ensures min > max ==> r == max
  {
    var v := if value < min then min else value;
    if v > max then max else v
  }

  lemma ConstrainExamples()
    ensures Constrain(12.0, 42.0, 48.0) == 42.0
    ensures Constrain(56.0, 42.0, 48.0) == 48.0
    ensures Constrain(45.0, 42.0, 48.0) == 45.0
  {
  }

  /**
   * `index`: `(y*cols)+x` computed on `int`, returned as `size_t`; a
   * negative value wraps around to the top of the `size_t` range.
   */
  function Index(x: int, y: int, cols: int): (i: nat)
    ensures i < SIZE_RANGE && (i - (y * cols + x)) % SIZE_RANGE == 0
    ensures 0 <= y * cols + x < SIZE_RANGE ==> i == y * cols + x
  {
    (y * cols + x) % SIZE_RANGE
  }

  lemma IndexExample()
    ensures Index(3, 2, 5) == 13
  {
  }
}
