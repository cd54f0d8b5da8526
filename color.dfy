/**
 * The RGBA colour of pixelbuffer/color.h: a `vec4_t<uint8_t>` whose
 * components are read as r, g, b, a; its constructors, the 32-bit packing,
 * `negative`, `average`, `alphaBlend` and the named colours.
 */
module Color {
  import opened Util
  import opened Vector4

  predicate IsRgba(v: Vec4) {
    0 <= v.x < 0x100 && 0 <= v.y < 0x100 && 0 <= v.z < 0x100 && 0 <= v.w < 0x100
  }

  /** `RGBAColor`: four 8-bit channels. */
  type RGBAColor = v: Vec4 | IsRgba(v) witness Vec4(0, 0, 0, 0)

  const BLACK: RGBAColor := Vec4(0, 0, 0, 255)
  const GRAY: RGBAColor := Vec4(127, 127, 127, 255)
  const RED: RGBAColor := Vec4(255, 0, 0, 255)
  const ORANGE: RGBAColor := Vec4(255, 127, 0, 255)
  const YELLOW: RGBAColor := Vec4(255, 255, 0, 255)
  const GREEN: RGBAColor := Vec4(0, 255, 0, 255)
  const CYAN: RGBAColor := Vec4(0, 255, 255, 255)
  const BLUE: RGBAColor := Vec4(0, 0, 255, 255)
  const MAGENTA: RGBAColor := Vec4(255, 0, 255, 255)
  const PURPLE: RGBAColor := Vec4(127, 0, 127, 255)
  const PINK: RGBAColor := Vec4(255, 127, 255, 255)
  const WHITE: RGBAColor := Vec4(255, 255, 255, 255)
  const TRANSPARENT: RGBAColor := Vec4(0, 0, 0, 0)

  /** Default constructor: opaque white, every channel 255. */
  function Default(): (c: RGBAColor)
    ensures forall i: nat :: Get(c, i) == 255
    ensures c == WHITE
  {
    Vec4(255, 255, 255, 255)
  }

  /** 24/32-bit constructor; alpha defaults to 255 (opaque). */
  function Rgba(red: uint8, green: uint8, blue: uint8, alpha: uint8 := 255): (c: RGBAColor)
    ensures Get(c, 0) == red && Get(c, 1) == green && Get(c, 2) == blue && Get(c, 3) == alpha
  {
    Vec4(red, green, blue, alpha)
  }

  /** 8/16-bit constructor: r = g = b = gray; alpha defaults to 255. */
  function Gray(gray: uint8, alpha: uint8 := 255): (c: RGBAColor)
    ensures Get(c, 0) == Get(c, 1) == Get(c, 2) == gray && Get(c, 3) == alpha
  {
    Vec4(gray, gray, gray, alpha)
  }

  /** A write of a byte through `operator[]` leaves a valid colour. */
  function SetChannel(c: RGBAColor, index: nat, n: uint8): (d: RGBAColor)
    ensures Get(d, index) == n
    ensures forall j: nat :: j % 4 != index % 4 ==> Get(d, j) == Get(c, j)
  {
    Set(c, index, n)
  }

  /**
   * `asInt`: r in bits 31-24, g in 23-16, b in 15-8, a in 7-0. Each shifted
   * channel is below the next one's weight, so the sum never carries.
   */
  function AsInt(c: RGBAColor): (n: uint32)
    ensures n / 0x100_0000 == c.r
    ensures n / 0x1_0000 % 0x100 == c.g
    ensures n / 0x100 % 0x100 == c.b
    ensures n % 0x100 == c.a
  {
    var n := c.r * 0x100_0000 + c.g * 0x1_0000 + c.b * 0x100 + c.a;
    DivModUnique(n, 0x100_0000, c.r, c.g * 0x1_0000 + c.b * 0x100 + c.a);
    DivModUnique(n, 0x1_0000, c.r * 0x100 + c.g, c.b * 0x100 + c.a);
    DivModUnique(c.r * 0x100 + c.g, 0x100, c.r, c.g);
    DivModUnique(n, 0x100, c.r * 0x1_0000 + c.g * 0x100 + c.b, c.a);
    DivModUnique(c.r * 0x1_0000 + c.g * 0x100 + c.b, 0x100, c.r * 0x100 + c.g, c.b);
    n
  }

  /** `fromInt`: the inverse of `asInt` on every 32-bit value. */
  function FromInt(n: uint32): (c: RGBAColor)
    ensures AsInt(c) == n
  {
    var r := n / 0x100_0000 % 0x100;
    var g := n / 0x1_0000 % 0x100;
    var b := n / 0x100 % 0x100;
    var a := n % 0x100;
    Unpacked(n);
    Rgba(r, g, b, a)
  }

  /** A 32-bit value is its four bytes, most significant first, in base 256. */
  lemma {:induction false} Unpacked(n: uint32)
    ensures n == ((n / 0x100_0000 % 0x100 * 0x100 + n / 0x1_0000 % 0x100) * 0x100 + n / 0x100 % 0x100) * 0x100 + n % 0x100
  {
    var a, q1 := n % 0x100, n / 0x100;
    var b, q2 := q1 % 0x100, q1 / 0x100;
    var g, q3 := q2 % 0x100, q2 / 0x100;
    DivModUnique(n, 0x1_0000, q2, b * 0x100 + a);
    DivModUnique(n, 0x100_0000, q3, g * 0x1_0000 + b * 0x100 + a);
    assert q3 < 0x100;
  }

  /** Packing a colour and unpacking it restores every channel. */
  lemma {:induction false} ColorIntRoundTrip(c: RGBAColor)
    ensures FromInt(AsInt(c)) == c
  {
    var n := AsInt(c);
    assert n / 0x100_0000 % 0x100 == c.r;
  }

  lemma FromIntExample()
    ensures FromInt(1439445930) == Vec4(85, 204, 51, 170)
    ensures AsInt(Vec4(85, 204, 51, 170)) == 1439445930
  {
  }

  /** `negative`: every colour channel mirrored around 255, alpha kept. */
  function Negative(c: RGBAColor): (d: RGBAColor)
    ensures d.r + c.r == 255 && d.g + c.g == 255 && d.b + c.b == 255
    ensures d.a == c.a
  {
    Rgba(255 - c.r, 255 - c.g, 255 - c.b, c.a)
  }

  lemma {:induction false} NegativeInvolution(c: RGBAColor)
    ensures Negative(Negative(c)) == c
  {
  }

  /** `average`: a gray whose level is the floor of the mean of r, g, b. */
  function Average(c: RGBAColor): (d: RGBAColor)
    ensures d.r == d.g == d.b
    ensures 3 * d.r <= c.r + c.g + c.b < 3 * d.r + 3
    ensures d.a == c.a
  {
    Gray((c.r + c.g + c.b) / 3, c.a)
  }

  /** Averaging a gray changes nothing, so `average` is idempotent. */
  lemma {:induction false} AverageIdempotent(c: RGBAColor)
    ensures Average(Average(c)) == Average(c)
  {
    var d := Average(c);
    assert (d.r + d.g + d.b) / 3 == d.r;
  }

  lemma ConstantsDifferInAlpha()
    ensures TRANSPARENT == BLACK.(w := 0) && TRANSPARENT != BLACK
  {
  }

  /**
   * One colour channel of the "over" operator: the exact value of
   * `((1-a0)*a1*c1 + a0*c0) / a01 * 255` with a0 = at/255, a1 = ab/255 and
   * a01 = d/(255*255), truncated.
   */
  function BlendChannel(ct: uint8, cb: uint8, at: uint8, ab: uint8): (c: uint8)
    requires at > 0 || ab > 0
    ensures at == 255 ==> c == ct
    ensures at == 0 ==> c == cb
    ensures ab == 0 ==> c == ct
  {
    BlendAlpha(at, ab);
    BlendChannelBound(ct, cb, at, ab);
    BlendChannelExact(ct, cb, at, ab);
    ((255 - at) * ab * cb + 255 * at * ct) / ((255 - at) * ab + 255 * at)
  }

  lemma {:induction false} BlendChannelBound(ct: uint8, cb: uint8, at: uint8, ab: uint8)
    requires (255 - at) * ab + 255 * at > 0
    ensures 0 <= ((255 - at) * ab * cb + 255 * at * ct) / ((255 - at) * ab + 255 * at) <= 255
  {
    MulMonotone(255 - at, 0, ab);
    WeightedMeanBound((255 - at) * ab, 255 * at, cb, ct);
  }

  /** A mean of two channel values with nonnegative weights is a channel value. */
  lemma {:induction false} WeightedMeanBound(wb: int, wt: int, cb: uint8, ct: uint8)
    requires wb >= 0 && wt >= 0 && wb + wt > 0
    ensures 0 <= (wb * cb + wt * ct) / (wb + wt) <= 255
  {
    var n := wb * cb + wt * ct;
    assert 0 <= n <= 255 * (wb + wt) by {
      MulMonotone(wb, 0, cb);
      MulMonotone(wt, 0, ct);
      MulMonotone(wb, cb, 255);
      MulMonotone(wt, ct, 255);
    }
    DivAtMost(n, wb + wt, 255);
  }

  lemma {:induction false} BlendChannelExact(ct: uint8, cb: uint8, at: uint8, ab: uint8)
    requires (255 - at) * ab + 255 * at > 0
    ensures var d := (255 - at) * ab + 255 * at;
      var n := (255 - at) * ab * cb + 255 * at * ct;
      (at == 255 ==> n / d == ct) && (at == 0 ==> n / d == cb) && (ab == 0 ==> n / d == ct)
  {
    var d := (255 - at) * ab + 255 * at;
    if at == 255 {
      assert (255 - at) * ab * cb + 255 * at * ct == d * ct;
      MulDivCancel(d, ct);
    } else if at == 0 {
      assert (255 - at) * ab * cb + 255 * at * ct == d * cb;
      MulDivCancel(d, cb);
    }
    if ab == 0 {
      assert (255 - at) * ab * cb + 255 * at * ct == d * ct;
      MulDivCancel(d, ct);
    }
  }

  /** The alpha of the "over" operator, `a01 * 255`, truncated. */
  lemma {:induction false} BlendAlpha(at: uint8, ab: uint8)
    ensures var d := (255 - at) * ab + 255 * at;
      0 <= d / 255 <= 255 &&
      (ab == 255 ==> d / 255 == 255) &&
      (at == 0 ==> d / 255 == ab) &&
      (ab == 0 ==> d / 255 == at) &&
      (d == 0 <==> at == 0 && ab == 0)
  {
    var d := (255 - at) * ab + 255 * at;
    MulMonotone(255 - at, 0, ab);
    MulMonotone(255 - at, ab, 255);
    DivAtMost(d, 255, 255);
    if ab == 255 {
      MulDivCancel(255, 255);
    }
    if at == 0 {
      MulDivCancel(255, ab);
    }
    if ab == 0 {
      MulDivCancel(255, at);
    }
  }

  /** The alpha of the "over" operator, `a01 * 255`, truncated. */
  function BlendedAlpha(at: uint8, ab: uint8): (a: uint8)
    ensures at == 255 || ab == 255 ==> a == 255
    ensures at == 0 ==> a == ab
    ensures ab == 0 ==> a == at
  {
    BlendAlpha(at, ab);
    assert at == 255 ==> ((255 - at) * ab + 255 * at) / 255 == 255 by {
      if at == 255 {
        MulDivCancel(255, 255);
      }
    }
    ((255 - at) * ab + 255 * at) / 255
  }

  /**
   * `alphaBlend(top, bottom)`, the "over" operator, in exact integer
   * arithmetic. When both alphas are 0 the source divides 0 by 0; the model
   * gives TRANSPARENT there.
   */
  function AlphaBlend(top: RGBAColor, bottom: RGBAColor): (c: RGBAColor)
    ensures top.a == 255 ==> c == top
    ensures top.a == 0 && bottom.a > 0 ==> c == bottom
    ensures bottom.a == 0 && top.a > 0 ==> c == top
    ensures top.a == 0 && bottom.a == 0 ==> c == TRANSPARENT
    ensures bottom.a == 255 ==> c.a == 255
  {
    if top.a == 0 && bottom.a == 0 then TRANSPARENT
    else
      Rgba(BlendChannel(top.r, bottom.r, top.a, bottom.a),
           BlendChannel(top.g, bottom.g, top.a, bottom.a),
           BlendChannel(top.b, bottom.b, top.a, bottom.a),
           BlendedAlpha(top.a, bottom.a))
  }
}
