/**
 * The whole-buffer operations of pixelbuffer/pixelbuffer.h as functions of
 * the pixel list: `flipRows`, `copy`, `paste` and `blur`. The last two work
 * in place, pixel by pixel in raster order, so they are folds of
 * `Raster.Put` over the positions they visit.
 */
module Transform {
  import opened Util
  import opened Vector4
  import opened Vector2
  import opened Color
  import opened Raster

  /** Cell i of a w-wide grid of h rows is column i % w of row i / w. */
  lemma {:induction false} CellOf(i: int, w: nat, h: nat)
    requires 0 <= i < w * h
    ensures w > 0 && 0 <= i / w < h && 0 <= i % w < w && IdFromPos(i % w, i / w, w) == i
  {
    if i / w >= h {
      MulMonotone(w, h, i / w);
    }
  }

  /** A cell of the grid has an index below w*h. */
  lemma {:induction false} IndexInGrid(x: int, y: int, w: nat, h: nat)
    requires 0 <= x < w && 0 <= y < h
    ensures 0 <= IdFromPos(x, y, w) < w * h
  {
    MulMonotone(w, y + 1, h);
  }

  /** The row of cell i mirrored top to bottom: row h-1-y of the same column. */
  function MirrorIndex(i: int, w: nat, h: nat): (j: int)
    requires 0 <= i < w * h
    ensures 0 <= j < w * h
  {
    CellOf(i, w, h);
    IndexInGrid(i % w, h - 1 - i / w, w, h);
    IdFromPos(i % w, h - 1 - i / w, w)
  }

  /**
   * The pixels after `flipRows`: the first w*h pixels are filled with
   * TRANSPARENT and then each cell (x, y) receives, through `setPixel`, the
   * original colour of (x, h-1-y); any pixels beyond w*h keep their colour.
   */
  function Flipped(p: seq<RGBAColor>, w: nat, h: nat): (q: seq<RGBAColor>)
    requires w * h <= |p|
    ensures |q| == |p|
  {
    seq(|p|, i requires 0 <= i < |p| => if i < w * h then Over(p[MirrorIndex(i, w, h)], TRANSPARENT) else p[i])
  }

  /** What `flipRows` does to a position: (x, y) takes the colour (x, h-1-y) had. */
  lemma {:induction false} FlippedAt(p: seq<RGBAColor>, w: nat, h: nat, x: int, y: int)
    requires |p| == w * h && 0 <= x < w && 0 <= y < h
    ensures PixelAt(Flipped(p, w, h), w, h, x, y) == Over(PixelAt(p, w, h, x, h - 1 - y), TRANSPARENT)
  {
    var q := Flipped(p, w, h);
    ReadInside(q, w, h, x, y);
    ReadInside(p, w, h, x, h - 1 - y);
    var i := IdFromPos(x, y, w);
    IdFromPosInverse(x, y, w);
    assert MirrorIndex(i, w, h) == IdFromPos(x, h - 1 - y, w);
    assert q[i] == Over(p[MirrorIndex(i, w, h)], TRANSPARENT);
  }

  /** Whether storing over a transparent pixel keeps the colour: alpha above 0, or fully transparent. */
  predicate Storable(c: RGBAColor) {
    c.a > 0 || c == TRANSPARENT
  }

  /**
   * Flipping twice restores the buffer, provided no pixel is a colour with
   * alpha 0 other than TRANSPARENT (those come back as TRANSPARENT). This
   * rests on the exact blend of `Color.AlphaBlend`; with the float blend
   * only opaque pixels are sure to come back unchanged.
   */
  lemma {:induction false} FlipInvolution(p: seq<RGBAColor>, w: nat, h: nat)
    requires w * h <= |p|
    requires forall i :: 0 <= i < w * h ==> Storable(p[i])
    ensures Flipped(Flipped(p, w, h), w, h) == p
  {
    var q := Flipped(p, w, h);
    forall i | 0 <= i < |p|
      ensures Flipped(q, w, h)[i] == p[i]
    {
      if i < w * h {
        MirrorInvolution(i, w, h);
      }
    }
  }

  /** Mirroring the row of a cell twice gives the cell back. */
  lemma {:induction false} MirrorInvolution(i: int, w: nat, h: nat)
    requires 0 <= i < w * h
    ensures MirrorIndex(MirrorIndex(i, w, h), w, h) == i
  {
    CellOf(i, w, h);
    IdFromPosInverse(i % w, h - 1 - i / w, w);
  }

  /**
   * The pixels of the buffer `copy(x, y, cw, ch)` returns: a transparent
   * cw x ch buffer onto which each (i, j) receives, through `setPixel`, the
   * colour `getPixel(x + i, y + j)` of the source.
   */
  function Copied(p: seq<RGBAColor>, w: nat, h: nat, x: nat, y: nat, cw: nat, ch: nat): (q: seq<RGBAColor>)
    ensures |q| == cw * ch
  {
    seq(cw * ch, k requires 0 <= k < cw * ch => CellOf(k, cw, ch); CopiedCell(p, w, h, x, y, k % cw, k / cw))
  }

  /** Cell (i, j) of the copy: source position (x + i, y + j) stored over TRANSPARENT. */
  function CopiedCell(p: seq<RGBAColor>, w: nat, h: nat, x: nat, y: nat, i: int, j: int): RGBAColor {
    Over(PixelAt(p, w, h, x + i, y + j), TRANSPARENT)
  }

  /** Position (i, j) of the copy shows position (x + i, y + j) of the source. */
  lemma {:induction false} CopiedAt(p: seq<RGBAColor>, w: nat, h: nat, x: nat, y: nat, cw: nat, ch: nat, i: int, j: int)
    requires 0 <= i < cw && 0 <= j < ch
    ensures PixelAt(Copied(p, w, h, x, y, cw, ch), cw, ch, i, j) == CopiedCell(p, w, h, x, y, i, j)
  {
    var q := Copied(p, w, h, x, y, cw, ch);
    var k := IdFromPos(i, j, cw);
    assert 0 <= k < cw * ch && PixelAt(q, cw, ch, i, j) == q[k] by {
      ReadInside(q, cw, ch, i, j);
    }
    assert k % cw == i && k / cw == j by {
      IdFromPosInverse(i, j, cw);
    }
    assert q[k] == CopiedCell(p, w, h, x, y, k % cw, k / cw);
  }

  /** Copying the whole of a consistent buffer gives its pixels back (exactly so with the exact blend). */
  lemma {:induction false} CopyWhole(p: seq<RGBAColor>, w: nat, h: nat)
    requires |p| == w * h && forall i :: 0 <= i < |p| ==> Storable(p[i])
    ensures Copied(p, w, h, 0, 0, w, h) == p
  {
    forall i | 0 <= i < |p|
      ensures Copied(p, w, h, 0, 0, w, h)[i] == p[i]
    {
      CellOf(i, w, h);
      ReadInside(p, w, h, i % w, i / w);
    }
  }

  /**
   * A pass over the grid in raster order: `step(q, x, y)` is applied to
   * every cell of rows 0 .. y-1 and to columns 0 .. x-1 of row y, each time
   * to the pixels the previous steps left.
   */
  function RasterFold(p: seq<RGBAColor>, cols: nat, y: nat, x: nat, step: (seq<RGBAColor>, int, int) -> seq<RGBAColor>): seq<RGBAColor>
    decreases y, x
  {
    if x > 0 then step(RasterFold(p, cols, y, x - 1, step), x - 1, y)
    else if y > 0 then RasterFold(p, cols, y - 1, cols, step)
    else p
  }

  /** A pass whose every step leaves the pixels as they are changes nothing. */
  lemma {:induction false} RasterFoldFixed(p: seq<RGBAColor>, cols: nat, rows: nat, y: nat, x: nat,
                                           step: (seq<RGBAColor>, int, int) -> seq<RGBAColor>)
    requires forall a, b :: 0 <= a < cols && 0 <= b < rows ==> step(p, a, b) == p
    requires (y < rows && x <= cols) || (y == rows && x == 0)
    ensures RasterFold(p, cols, y, x, step) == p
    decreases y, x
  {
    if x > 0 {
      RasterFoldFixed(p, cols, rows, y, x - 1, step);
    } else if y > 0 {
      RasterFoldFixed(p, cols, rows, y - 1, cols, step);
    }
  }

  /**
   * One step of `paste`: brush pixel (x, y) goes through `setPixel` to
   * (x + px, y + py). When the brush is the buffer itself (`self`), the
   * brush pixel is read from the pixels as they are at that moment.
   */
  function PasteStep(q: seq<RGBAColor>, w: nat, h: nat, brush: seq<RGBAColor>, bw: nat, bh: nat, self: bool,
                     px: int, py: int, x: int, y: int): (q': seq<RGBAColor>)
    ensures |q'| == |q|
  {
    Put(q, w, h, x + px, y + py, PixelAt(if self then q else brush, bw, bh, x, y))
  }

  /** The step of the paste pass, as a function value. */
  function PasteSteps(w: nat, h: nat, brush: seq<RGBAColor>, bw: nat, bh: nat, self: bool, px: int, py: int)
    : (seq<RGBAColor>, int, int) -> seq<RGBAColor>
  {
    (q, x, y) => PasteStep(q, w, h, brush, bw, bh, self, px, py, x, y)
  }

  /** The pixels after `paste(brush, px, py)`: every brush pixel handled in raster order. */
  function Pasted(p: seq<RGBAColor>, w: nat, h: nat, brush: seq<RGBAColor>, bw: nat, bh: nat, self: bool,
                  px: int, py: int): seq<RGBAColor>
  {
    RasterFold(p, bw, bh, 0, PasteSteps(w, h, brush, bw, bh, self, px, py))
  }

  /** Whether target cell i lies under brush cell (x, y) at offset (px, py). */
  predicate Under(i: int, w: nat, px: int, py: int, x: int, y: int) {
    0 <= x + px < w && i == IdFromPos(x + px, y + py, w)
  }

  /** Whether target cell i lies under a brush pixel that comes before (x, y) in raster order. */
  predicate Painted(i: int, w: nat, bw: nat, bh: nat, px: int, py: int, y: int, x: int) {
    exists b, a :: 0 <= b < bh && 0 <= a < bw && (b < y || (b == y && a < x)) && Under(i, w, px, py, a, b)
  }

  /** Handling brush pixel (x - 1, y) adds exactly the cell under it to the painted ones. */
  lemma {:induction false} PaintedStep(i: int, w: nat, bw: nat, bh: nat, px: int, py: int, y: int, x: int)
    requires 0 < x <= bw && 0 <= y < bh && 0 <= px && px + bw <= w
    ensures Painted(i, w, bw, bh, px, py, y, x) <==>
      Painted(i, w, bw, bh, px, py, y, x - 1) || i == IdFromPos(x - 1 + px, y + py, w)
  {
    if i == IdFromPos(x - 1 + px, y + py, w) {
      assert Under(i, w, px, py, x - 1, y);
    }
    if Painted(i, w, bw, bh, px, py, y, x) {
      var b, a :| 0 <= b < bh && 0 <= a < bw && (b < y || (b == y && a < x)) && Under(i, w, px, py, a, b);
      if !(b < y || (b == y && a < x - 1)) {
        assert a == x - 1 && b == y;
      }
    }
  }

  /** Finishing a row is starting the next one. */
  lemma {:induction false} PaintedRow(i: int, w: nat, bw: nat, bh: nat, px: int, py: int, y: int)
    ensures Painted(i, w, bw, bh, px, py, y, 0) <==> Painted(i, w, bw, bh, px, py, y - 1, bw)
  {
    if Painted(i, w, bw, bh, px, py, y, 0) {
      var b, a :| 0 <= b < bh && 0 <= a < bw && (b < y || (b == y && a < 0)) && Under(i, w, px, py, a, b);
      assert b < y - 1 || (b == y - 1 && a < bw);
    }
  }

  /** The brush pixel a painted cell shows: the brush cell it lies under. */
  function BrushPixelOver(brush: seq<RGBAColor>, i: int, w: nat, bw: nat, bh: nat, px: int, py: int): RGBAColor
    requires w > 0
  {
    PixelAt(brush, bw, bh, i % w - px, i / w - py)
  }

  /**
   * An opaque brush placed inside the target: after brush rows < y and
   * columns < x of row y, the cells under those brush pixels show them and
   * every other cell is unchanged.
   */
  lemma {:induction false} PastePartialOpaque(p: seq<RGBAColor>, w: nat, h: nat, brush: seq<RGBAColor>, bw: nat, bh: nat,
                                           px: int, py: int, y: nat, x: nat, i: int)
    requires |p| == w * h && |brush| == bw * bh && forall k :: 0 <= k < |brush| ==> brush[k].a == 255
    requires 0 <= px && px + bw <= w && 0 <= py && py + bh <= h
    requires (y < bh && x <= bw) || (y == bh && x == 0)
    requires 0 <= i < |p|
    ensures |RasterFold(p, bw, y, x, PasteSteps(w, h, brush, bw, bh, false, px, py))| == |p|
    ensures RasterFold(p, bw, y, x, PasteSteps(w, h, brush, bw, bh, false, px, py))[i] ==
      if Painted(i, w, bw, bh, px, py, y, x) then BrushPixelOver(brush, i, w, bw, bh, px, py) else p[i]
    decreases y, x
  {
    if x > 0 {
      PastePartialOpaque(p, w, h, brush, bw, bh, px, py, y, x - 1, i);
      PaintedStep(i, w, bw, bh, px, py, y, x);
      PasteStepOpaque(RasterFold(p, bw, y, x - 1, PasteSteps(w, h, brush, bw, bh, false, px, py)), w, h, brush, bw, bh, px, py, x - 1, y, i);
    } else if y > 0 {
      PastePartialOpaque(p, w, h, brush, bw, bh, px, py, y - 1, bw, i);
      PaintedRow(i, w, bw, bh, px, py, y);
    }
  }

  /** One opaque brush pixel inside the target lands on exactly one cell. */
  lemma {:induction false} PasteStepOpaque(q: seq<RGBAColor>, w: nat, h: nat, brush: seq<RGBAColor>, bw: nat, bh: nat,
                                           px: int, py: int, a: int, b: int, i: int)
    requires |q| == w * h && |brush| == bw * bh && forall k :: 0 <= k < |brush| ==> brush[k].a == 255
    requires 0 <= px && px + bw <= w && 0 <= py && py + bh <= h
    requires 0 <= a < bw && 0 <= b < bh && 0 <= i < |q|
    ensures PasteStep(q, w, h, brush, bw, bh, false, px, py, a, b)[i] ==
      if i == IdFromPos(a + px, b + py, w) then BrushPixelOver(brush, i, w, bw, bh, px, py) else q[i]
  {
    IndexInGrid(a, b, bw, bh);
    ReadInside(brush, bw, bh, a, b);
    IndexInGrid(a + px, b + py, w, h);
    AcceptsExactly(w, h, a + px, b + py);
    IdFromPosInverse(a + px, b + py, w);
  }

  /**
   * `paste` of a separate, opaque brush that fits inside the target: the
   * cell under brush pixel (a, b) shows it, and cells outside the brush
   * rectangle keep their colour.
   */
  lemma {:induction false} PasteOpaque(p: seq<RGBAColor>, w: nat, h: nat, brush: seq<RGBAColor>, bw: nat, bh: nat,
                                       px: int, py: int, X: int, Y: int)
    requires |p| == w * h && |brush| == bw * bh && forall k :: 0 <= k < |brush| ==> brush[k].a == 255
    requires 0 <= px && px + bw <= w && 0 <= py && py + bh <= h
    requires 0 <= X < w && 0 <= Y < h
    ensures var q := Pasted(p, w, h, brush, bw, bh, false, px, py);
      PixelAt(q, w, h, X, Y) ==
        if px <= X < px + bw && py <= Y < py + bh then PixelAt(brush, bw, bh, X - px, Y - py)
        else PixelAt(p, w, h, X, Y)
  {
    var i := IdFromPos(X, Y, w);
    ReadInside(p, w, h, X, Y);
    PastePartialOpaque(p, w, h, brush, bw, bh, px, py, bh, 0, i);
    ReadInside(Pasted(p, w, h, brush, bw, bh, false, px, py), w, h, X, Y);
    IdFromPosInverse(X, Y, w);
    if px <= X < px + bw && py <= Y < py + bh {
      assert Under(i, w, px, py, X - px, Y - py);
    } else {
      forall b, a | 0 <= b < bh && 0 <= a < bw && Under(i, w, px, py, a, b)
        ensures false
      {
        IdFromPosInverse(a + px, b + py, w);
      }
    }
  }

  const ZERO4: Vec4 := Vec4(0, 0, 0, 0)

  function AddVec4(u: Vec4, v: Vec4): Vec4 {
    Vec4(u.x + v.x, u.y + v.y, u.z + v.z, u.w + v.w)
  }

  /** The channels of a colour multiplied by a weight. */
  function Weighted(c: RGBAColor, k: int): Vec4 {
    Vec4(c.r * k, c.g * k, c.b * k, c.a * k)
  }

  /**
   * The contribution of neighbour (x + dc, y + dr) to the blur of (x, y):
   * the position is clamped to the grid, and the centre is weighted by the
   * sharpness, every other neighbour by 1.
   */
  function BlurTerm(p: seq<RGBAColor>, cols: nat, rows: nat, x: int, y: int, sharpness: int, dr: int, dc: int): Vec4 {
    var n := Clamp(Vec2(x + dc, y + dr), cols, rows);
    Weighted(PixelAt(p, cols, rows, n.x, n.y), if dr == 0 && dc == 0 then sharpness else 1)
  }

  /** The totals of row dr of the window over columns -1 .. dc - 1. */
  function RowTotal(p: seq<RGBAColor>, cols: nat, rows: nat, x: int, y: int, sharpness: int, dr: int, dc: int): Vec4
    decreases dc + 1
  {
    if dc <= -1 then ZERO4
    else AddVec4(RowTotal(p, cols, rows, x, y, sharpness, dr, dc - 1), BlurTerm(p, cols, rows, x, y, sharpness, dr, dc - 1))
  }

  /** The totals of window rows -1 .. dr - 1. */
  function WindowTotal(p: seq<RGBAColor>, cols: nat, rows: nat, x: int, y: int, sharpness: int, dr: int): Vec4
    decreases dr + 1
  {
    if dr <= -1 then ZERO4
    else AddVec4(WindowTotal(p, cols, rows, x, y, sharpness, dr - 1), RowTotal(p, cols, rows, x, y, sharpness, dr - 1, 2))
  }

  /**
   * The colour `blur` computes for (x, y) from the current pixels: each
   * total divided, truncating, by 8 + sharpness and converted to uint8_t.
   */
  function Blurred(p: seq<RGBAColor>, cols: nat, rows: nat, x: int, y: int, sharpness: int): RGBAColor
    requires sharpness != -8
  {
    ScaleDown(WindowTotal(p, cols, rows, x, y, sharpness, 2), 8 + sharpness)
  }

  /** Each total divided, truncating, by the weight and converted to `uint8_t`. */
  function ScaleDown(t: Vec4, weight: int): RGBAColor
    requires weight != 0
  {
    Vec4(ToUint8(CDiv(t.x, weight)), ToUint8(CDiv(t.y, weight)), ToUint8(CDiv(t.z, weight)), ToUint8(CDiv(t.w, weight)))
  }

  /** `blur`'s work on one cell: the blurred colour goes through `setPixel`. */
  function BlurStep(q: seq<RGBAColor>, cols: nat, rows: nat, sharpness: int, x: int, y: int): (q': seq<RGBAColor>)
    requires sharpness != -8
    ensures |q'| == |q|
  {
    Put(q, cols, rows, x, y, Blurred(q, cols, rows, x, y, sharpness))
  }

  /** The step of the blur pass, as a function value. */
  function BlurSteps(cols: nat, rows: nat, sharpness: int): (seq<RGBAColor>, int, int) -> seq<RGBAColor> {
    (q, x, y) => if sharpness != -8 then BlurStep(q, cols, rows, sharpness, x, y) else q
  }

  /**
   * The pixels after `blur(sharpness)`: every cell blurred in raster order,
   * each from the pixels as they are at its turn, so later cells average
   * neighbours that are already blurred. With sharpness -8 the source
   * divides by zero at the first cell; the model's step leaves the pixels
   * as they are, which is what the source does on an image with no cells.
   */
  function BlurAll(p: seq<RGBAColor>, cols: nat, rows: nat, sharpness: int): seq<RGBAColor>
  {
    RasterFold(p, cols, rows, 0, BlurSteps(cols, rows, sharpness))
  }

  /** Every neighbour of a cell in a uniform image has the same colour. */
  lemma {:induction false} UniformTerm(p: seq<RGBAColor>, cols: nat, rows: nat, c: RGBAColor, x: int, y: int, s: int, dr: int, dc: int)
    requires |p| == cols * rows && cols >= 1 && rows >= 1
    requires forall i :: 0 <= i < |p| ==> p[i] == c
    ensures BlurTerm(p, cols, rows, x, y, s, dr, dc) == Weighted(c, if dr == 0 && dc == 0 then s else 1)
  {
    var n := Clamp(Vec2(x + dc, y + dr), cols, rows);
    ReadInside(p, cols, rows, n.x, n.y);
  }

  /** Weights add up: k1 times a colour plus k2 times it is (k1 + k2) times it. */
  lemma {:induction false} WeightedAdd(c: RGBAColor, k1: int, k2: int)
    ensures AddVec4(Weighted(c, k1), Weighted(c, k2)) == Weighted(c, k1 + k2)
  {
    assert c.r * k1 + c.r * k2 == c.r * (k1 + k2);
    assert c.g * k1 + c.g * k2 == c.g * (k1 + k2);
    assert c.b * k1 + c.b * k2 == c.b * (k1 + k2);
    assert c.a * k1 + c.a * k2 == c.a * (k1 + k2);
  }

  /** Dividing k times a colour by k gives the colour back. */
  lemma {:induction false} ScaleDownWeighted(c: RGBAColor, k: int)
    requires k != 0
    ensures ScaleDown(Weighted(c, k), k) == c
  {
    CDivOfProduct(c.r, k);
    CDivOfProduct(c.g, k);
    CDivOfProduct(c.b, k);
    CDivOfProduct(c.a, k);
  }

  /** A window row whose three terms are a colour weighted 1, k and 1 totals 2 + k times it. */
  lemma {:induction false} RowOfWeights(p: seq<RGBAColor>, cols: nat, rows: nat, c: RGBAColor, x: int, y: int, s: int, dr: int, k: int)
    requires BlurTerm(p, cols, rows, x, y, s, dr, -1) == Weighted(c, 1)
    requires BlurTerm(p, cols, rows, x, y, s, dr, 0) == Weighted(c, k)
    requires BlurTerm(p, cols, rows, x, y, s, dr, 1) == Weighted(c, 1)
    ensures RowTotal(p, cols, rows, x, y, s, dr, 2) == Weighted(c, 2 + k)
  {
    WeightedAdd(c, 0, 1);
    WeightedAdd(c, 1, k);
    WeightedAdd(c, 1 + k, 1);
    assert RowTotal(p, cols, rows, x, y, s, dr, -1) == Weighted(c, 0);
  }

  /** In a uniform image a window row totals 3 times the colour, the centre row 2 + sharpness times. */
  lemma {:induction false} UniformRow(p: seq<RGBAColor>, cols: nat, rows: nat, c: RGBAColor, x: int, y: int, s: int, dr: int)
    requires |p| == cols * rows && cols >= 1 && rows >= 1
    requires forall i :: 0 <= i < |p| ==> p[i] == c
    ensures RowTotal(p, cols, rows, x, y, s, dr, 2) == Weighted(c, if dr == 0 then 2 + s else 3)
  {
    UniformTerm(p, cols, rows, c, x, y, s, dr, -1);
    UniformTerm(p, cols, rows, c, x, y, s, dr, 0);
    UniformTerm(p, cols, rows, c, x, y, s, dr, 1);
    RowOfWeights(p, cols, rows, c, x, y, s, dr, if dr == 0 then s else 1);
  }

  /** In a uniform image the window totals are (8 + sharpness) times the colour. */
  lemma {:induction false} UniformTotal(p: seq<RGBAColor>, cols: nat, rows: nat, c: RGBAColor, x: int, y: int, s: int)
    requires |p| == cols * rows && cols >= 1 && rows >= 1
    requires forall i :: 0 <= i < |p| ==> p[i] == c
    ensures WindowTotal(p, cols, rows, x, y, s, 2) == Weighted(c, 8 + s)
  {
    UniformRow(p, cols, rows, c, x, y, s, -1);
    UniformRow(p, cols, rows, c, x, y, s, 0);
    UniformRow(p, cols, rows, c, x, y, s, 1);
    WeightedAdd(c, 0, 3);
    WeightedAdd(c, 3, 2 + s);
    WeightedAdd(c, 5 + s, 3);
    assert WindowTotal(p, cols, rows, x, y, s, -1) == ZERO4 == Weighted(c, 0);
    assert WindowTotal(p, cols, rows, x, y, s, 0) == Weighted(c, 3);
    assert WindowTotal(p, cols, rows, x, y, s, 1) == Weighted(c, 5 + s);
  }

  /** A cell of a uniform image blurs to the image's colour, whatever the sharpness. */
  lemma {:induction false} UniformBlurred(p: seq<RGBAColor>, cols: nat, rows: nat, c: RGBAColor, x: int, y: int, s: int)
    requires |p| == cols * rows && cols >= 1 && rows >= 1 && s != -8
    requires forall i :: 0 <= i < |p| ==> p[i] == c
    ensures Blurred(p, cols, rows, x, y, s) == c
  {
    UniformTotal(p, cols, rows, c, x, y, s);
    ScaleDownWeighted(c, 8 + s);
  }

  /** Blurring one cell of a uniform opaque image writes back the colour it had. */
  lemma {:induction false} UniformBlurStep(p: seq<RGBAColor>, cols: nat, rows: nat, c: RGBAColor, s: int, x: int, y: int)
    requires |p| == cols * rows && c.a == 255 && s != -8
    requires forall i :: 0 <= i < |p| ==> p[i] == c
    requires 0 <= x < cols && 0 <= y < rows
    ensures BlurStep(p, cols, rows, s, x, y) == p
  {
    var i := IdFromPos(x, y, cols);
    assert Blurred(p, cols, rows, x, y, s) == c by {
      UniformBlurred(p, cols, rows, c, x, y, s);
    }
    assert Accepts(cols, rows, |p|, x, y) && 0 <= i < |p| && p[i] == c by {
      AcceptsExactly(cols, rows, x, y);
      ReadInside(p, cols, rows, x, y);
    }
    assert BlurStep(p, cols, rows, s, x, y) == p[i := Over(c, p[i])];
    UpdateSame(p, i, c);
  }

  /** Storing the colour a pixel already has changes nothing. */
  lemma {:induction false} UpdateSame(p: seq<RGBAColor>, i: int, c: RGBAColor)
    requires 0 <= i < |p| && p[i] == c
    ensures p[i := c] == p
  {
  }

  /**
   * Blurring an image of one opaque colour leaves it unchanged, for every
   * sharpness the division accepts: each total is (8 + sharpness) times
   * the colour.
   */
  lemma {:induction false} BlurUniformFixed(p: seq<RGBAColor>, cols: nat, rows: nat, c: RGBAColor, s: int)
    requires |p| == cols * rows && c.a == 255 && s != -8
    requires forall i :: 0 <= i < |p| ==> p[i] == c
    ensures BlurAll(p, cols, rows, s) == p
  {
    var step := BlurSteps(cols, rows, s);
    forall a, b | 0 <= a < cols && 0 <= b < rows
      ensures step(p, a, b) == p
    {
      UniformBlurStep(p, cols, rows, c, s, a, b);
    }
    RasterFoldFixed(p, cols, rows, rows, 0, step);
  }
}
