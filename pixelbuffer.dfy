/**
 * `pb::PixelBuffer` of pixelbuffer/pixelbuffer.h: an 8-byte header and a
 * row-major list of RGBA pixels that its methods change in place. Each
 * method is proved equal to the function of `Raster`, `Transform`, `Pbf`,
 * `Tga` or `Filename` that states what it does.
 */
module PixelBuffers {
  import opened Util
  import opened Vector4
  import opened Vector2
  import opened Color
  import opened Raster
  import opened Transform
  import opened Pbf
  import Tga
  import opened Filename

  /**
   * `valid()`: the magic bytes, a valid depth, and exactly width*height
   * pixels. The header of a valid buffer is written as "pb", four size
   * bytes, one of the five depths, and ":".
   */
  predicate IsValid(hd: Header, count: nat): (v: bool)
    ensures v ==> var b := EncodeHeader(hd); b[..2] == [0x70, 0x62] && ValidBitdepth(b[6]) && b[7] == 0x3A
  {
    hd.typep == 0x70 && hd.typeb == 0x62 && ValidBitdepth(hd.bitdepth) && hd.end == 0x3A && hd.width * hd.height == count
  }

  /** A buffer built from a width, a height and a depth is valid exactly when the depth is one of the five. */
  lemma {:induction false} ConstructedValid(width: uint16, height: uint16, bitdepth: uint8)
    ensures IsValid(DEFAULT_HEADER.(width := width, height := height, bitdepth := bitdepth), width * height)
        <==> ValidBitdepth(bitdepth)
  {
  }

  /**
   * A default-constructed buffer is not valid: its depth is 0. (The
   * library's own test of the default constructor expects depth 32 and a
   * valid buffer.)
   */
  lemma DefaultInvalid()
    ensures !IsValid(DEFAULT_HEADER, 0) && DEFAULT_HEADER.bitdepth == 0
  {
  }

  /** The pixels after `fill(c)`: the first n are c, the rest keep their colour. */
  function Filled(p: seq<RGBAColor>, n: nat, c: RGBAColor): (q: seq<RGBAColor>)
    ensures |q| == |p|
  {
    seq(|p|, k requires 0 <= k < |p| => if k < n then c else p[k])
  }

  /** After `fill(c)` every cell of a consistent buffer reads c. */
  lemma {:induction false} FilledAt(p: seq<RGBAColor>, w: nat, h: nat, c: RGBAColor, x: int, y: int)
    requires |p| == w * h && 0 <= x < w && 0 <= y < h
    ensures PixelAt(Filled(p, w * h, c), w, h, x, y) == c
  {
    ReadInside(Filled(p, w * h, c), w, h, x, y);
  }

  /**
   * A transparent grid part-way through being drawn cell by cell in raster
   * order: the cells below n hold the target, the cells from n to total are
   * still TRANSPARENT, and the pixels beyond total already hold the target.
   */
  ghost predicate DrawnUpTo(q: seq<RGBAColor>, target: seq<RGBAColor>, n: int, total: int) {
    |q| == |target| && forall k {:trigger q[k]} :: 0 <= k < |q| ==> q[k] == (if k < n || k >= total then target[k] else TRANSPARENT)
  }

  /** `setPixel` on the next cell, with the colour the target shows there once stored over TRANSPARENT. */
  lemma {:induction false} DrawStep(q: seq<RGBAColor>, target: seq<RGBAColor>, w: nat, h: nat, x: int, y: int, i: int, c: RGBAColor)
    requires 0 <= x < w && 0 <= y < h && i == IdFromPos(x, y, w) && 0 <= i < w * h <= |q|
    requires DrawnUpTo(q, target, i, w * h) && target[i] == Over(c, TRANSPARENT)
    ensures DrawnUpTo(Put(q, w, h, x, y, c), target, i + 1, w * h)
  {
    assert Accepts(w, h, |q|, x, y);
  }

  /** A grid drawn up to its last cell is the target. */
  lemma {:induction false} DrawnAll(q: seq<RGBAColor>, target: seq<RGBAColor>, total: int)
    requires DrawnUpTo(q, target, total, total)
    ensures q == target
  {
  }

  /**
   * `flipRows` part-way: the cells below n hold their mirrored colour
   * stored over TRANSPARENT, the rest of the grid is still TRANSPARENT from
   * the fill, and the pixels beyond w*h keep their colour.
   */
  ghost predicate FlipDrawn(q: seq<RGBAColor>, p: seq<RGBAColor>, w: nat, h: nat, n: int)
    requires w * h <= |p|
  {
    |q| == |p| &&
    forall k {:trigger q[k]} :: 0 <= k < |q| ==>
      q[k] == (if k < n && k < w * h then Over(p[MirrorIndex(k, w, h)], TRANSPARENT) else if k < w * h then TRANSPARENT else p[k])
  }

  /** Right after the fill with TRANSPARENT no cell is drawn yet. */
  lemma {:induction false} FlipStart(p: seq<RGBAColor>, w: nat, h: nat)
    requires w * h <= |p|
    ensures FlipDrawn(Filled(p, w * h, TRANSPARENT), p, w, h, 0)
  {
  }

  /** `setPixel` on cell (x, y) with the colour of (x, h-1-y) draws one more cell. */
  lemma {:induction false} FlipStep(q: seq<RGBAColor>, p: seq<RGBAColor>, w: nat, h: nat, x: int, y: int, c: RGBAColor)
    requires w * h <= |p| && 0 <= x < w && 0 <= y < h
    requires FlipDrawn(q, p, w, h, IdFromPos(x, y, w))
    requires c == PixelAt(p[..w * h], w, h, x, h - 1 - y)
    ensures FlipDrawn(Put(q, w, h, x, y, c), p, w, h, IdFromPos(x, y, w) + 1)
  {
    var i := IdFromPos(x, y, w);
    IndexInGrid(x, y, w, h);
    IdFromPosInverse(x, y, w);
    assert MirrorIndex(i, w, h) == IdFromPos(x, h - 1 - y, w);
    ReadInside(p[..w * h], w, h, x, h - 1 - y);
    assert Accepts(w, h, |q|, x, y);
  }

  /** The flip drawn up to the last cell is `Flipped`. */
  lemma {:induction false} FlipDone(q: seq<RGBAColor>, p: seq<RGBAColor>, w: nat, h: nat)
    requires w * h <= |p| && FlipDrawn(q, p, w, h, w * h)
    ensures q == Flipped(p, w, h)
  {
  }

  /**
   * One iteration of the `drawLine` loop: its point moves from the steps
   * still to come to the points done, and the steps that remain start from
   * the next column with the updated row and error.
   */
  lemma {:induction false} LineStepsAdvance(done: seq<Vec2>, rest: seq<Vec2>, all: seq<Vec2>,
                                            x: int, xEnd: int, y: int, err: int, dx: int, derr: int, ystep: int, steep: bool,
                                            x': int, y': int, err': int)
    requires x <= xEnd && x' == x + 1
    requires var e := err + derr; (y', err') == if e > dx then (y + ystep, e - dx * 2) else (y, e)
    requires rest == LineSteps(x, xEnd, y, err, dx, derr, ystep, steep) && done + rest == all
    ensures |rest| > 0 && rest[1..] == LineSteps(x', xEnd, y', err', dx, derr, ystep, steep)
    ensures (done + [Unswap(steep, x, y)]) + rest[1..] == all
  {
    assert rest == [Unswap(steep, x, y)] + LineSteps(x', xEnd, y', err', dx, derr, ystep, steep);
  }

  /** Once x has passed the end no step remains, so the points done are all the points. */
  lemma {:induction false} LineStepsDone(done: seq<Vec2>, rest: seq<Vec2>, x: int, xEnd: int, y: int, err: int, dx: int, derr: int, ystep: int, steep: bool,
                                         all: seq<Vec2>)
    requires x > xEnd && rest == LineSteps(x, xEnd, y, err, dx, derr, ystep, steep) && done + rest == all
    ensures done == all
  {
  }

  /** Replacing element i keeps the elements before it and puts the new one after them. */
  lemma {:induction false} UpdatePrefix(p: seq<RGBAColor>, i: nat, c: RGBAColor)
    requires i < |p|
    ensures p[i := c][..i + 1] == p[..i] + [c]
  {
  }

  /** Plotting one more point after a list is plotting the longer list. */
  lemma {:induction false} PlotOneMore(p: seq<RGBAColor>, w: nat, h: nat, done: seq<Vec2>, pt: Vec2, c: RGBAColor, q: seq<RGBAColor>)
    requires q == Put(PlotAll(p, w, h, done, c), w, h, pt.x, pt.y, c)
    ensures q == PlotAll(p, w, h, done + [pt], c)
  {
    assert (done + [pt])[..|done|] == done;
  }

  /**
   * One iteration of the position loop of `drawCircle`: the eight offsets
   * of (x, y) are collected, and the steps that remain start from the
   * updated x, y and error.
   */
  lemma {:induction false} CircleStepsAdvance(positions: seq<Vec2>, x: int, y: int, err: int, x': int, y': int, err': int)
    requires x >= y
    requires var y1 := if err <= 0 then y + 1 else y;
      var err1 := if err <= 0 then err + 2 * y1 + 1 else err;
      y' == y1 && x' == (if err1 > 0 then x - 1 else x) && err' == (if err1 > 0 then err1 - (2 * x' + 1) else err1)
    ensures positions + CircleSteps(x, y, err) == (positions + Octants(x, y)) + CircleSteps(x', y', err')
  {
  }

  /**
   * One iteration of the inner loop of `blur`: adding neighbour (x + c, y + r),
   * weighted by the sharpness at the centre and by 1 elsewhere, extends
   * the totals of row r by one column.
   */
  lemma {:induction false} WindowAdvance(p: seq<RGBAColor>, cols: nat, rows: nat, x: int, y: int, s: int, r: int, c: int, t: Vec4, t': Vec4)
    requires c >= -1
    requires t == AddVec4(WindowTotal(p, cols, rows, x, y, s, r), RowTotal(p, cols, rows, x, y, s, r, c))
    requires t' == AddVec4(t, BlurTerm(p, cols, rows, x, y, s, r, c))
    ensures t' == AddVec4(WindowTotal(p, cols, rows, x, y, s, r), RowTotal(p, cols, rows, x, y, s, r, c + 1))
  {
  }

  /** Before the first column of a window row, the totals are those of the rows above. */
  lemma RowStart(p: seq<RGBAColor>, cols: nat, rows: nat, x: int, y: int, s: int, r: int, t: Vec4)
    requires t == WindowTotal(p, cols, rows, x, y, s, r)
    ensures t == AddVec4(WindowTotal(p, cols, rows, x, y, s, r), RowTotal(p, cols, rows, x, y, s, r, -1))
  {
  }

  /** After the last column of window row r, the totals are those of rows -1 .. r. */
  lemma RowDone(p: seq<RGBAColor>, cols: nat, rows: nat, x: int, y: int, s: int, r: int, t: Vec4)
    requires r >= -1
    requires t == AddVec4(WindowTotal(p, cols, rows, x, y, s, r), RowTotal(p, cols, rows, x, y, s, r, 2))
    ensures t == WindowTotal(p, cols, rows, x, y, s, r + 1)
  {
  }

  /** The colour `blur` stores for a cell: each window total divided by 8 + sharpness, truncated to 8 bits. */
  lemma BlurredFromTotals(p: seq<RGBAColor>, cols: nat, rows: nat, x: int, y: int, s: int, t: Vec4, avg: RGBAColor)
    requires s != -8 && t == WindowTotal(p, cols, rows, x, y, s, 2)
    requires avg == Vec4(ToUint8(CDiv(t.x, 8 + s)), ToUint8(CDiv(t.y, 8 + s)), ToUint8(CDiv(t.z, 8 + s)), ToUint8(CDiv(t.w, 8 + s)))
    ensures avg == Blurred(p, cols, rows, x, y, s)
  {
  }

  /** The neighbour term is the colour read at the clamped position, weighted. */
  lemma TermOf(p: seq<RGBAColor>, cols: nat, rows: nat, x: int, y: int, s: int, r: int, c: int, color: RGBAColor)
    requires color == PixelAt(p, cols, rows, Clamp(Vec2(x + c, y + r), cols, rows).x, Clamp(Vec2(x + c, y + r), cols, rows).y)
    ensures BlurTerm(p, cols, rows, x, y, s, r, c) == Weighted(color, if r == 0 && c == 0 then s else 1)
  {
  }

  /** Cell (i, j) of a copy is source position (x + i, y + j) stored over TRANSPARENT. */
  lemma {:induction false} CopyCell(p: seq<RGBAColor>, w: nat, h: nat, x: nat, y: nat, cw: nat, ch: nat, i: int, j: int)
    requires 0 <= i < cw && 0 <= j < ch
    ensures 0 <= IdFromPos(i, j, cw) < cw * ch
    ensures Copied(p, w, h, x, y, cw, ch)[IdFromPos(i, j, cw)] == CopiedCell(p, w, h, x, y, i, j)
  {
    var k := IdFromPos(i, j, cw);
    IndexInGrid(i, j, cw, ch);
    assert k % cw == i && k / cw == j by {
      IdFromPosInverse(i, j, cw);
    }
    assert Copied(p, w, h, x, y, cw, ch)[k] == CopiedCell(p, w, h, x, y, k % cw, k / cw);
  }

  /** `setPixel` of cell (i, j) of a copy with source pixel (x + i, y + j) draws one more cell. */
  lemma {:induction false} CopyStep(q: seq<RGBAColor>, p: seq<RGBAColor>, w: nat, h: nat, x: nat, y: nat, cw: nat, ch: nat, i: int, j: int, c: RGBAColor)
    requires 0 <= i < cw && 0 <= j < ch
    requires DrawnUpTo(q, Copied(p, w, h, x, y, cw, ch), IdFromPos(i, j, cw), cw * ch)
    requires c == PixelAt(p, w, h, x + i, y + j)
    ensures DrawnUpTo(Put(q, cw, ch, i, j, c), Copied(p, w, h, x, y, cw, ch), IdFromPos(i, j, cw) + 1, cw * ch)
  {
    var target := Copied(p, w, h, x, y, cw, ch);
    CopyCell(p, w, h, x, y, cw, ch, i, j);
    assert target[IdFromPos(i, j, cw)] == Over(c, TRANSPARENT);
    DrawStep(q, target, cw, ch, i, j, IdFromPos(i, j, cw), c);
  }

  /**
   * The first loop of `drawCircle`: the midpoint algorithm from (radius, 0)
   * with error 0, pushing the eight symmetric offsets of each (x, y).
   */
  method CircleOffsets(radius: int) returns (positions: seq<Vec2>)
    ensures positions == CirclePositions(radius)
  {
    var x := radius;
    var y := 0;
    var err := 0;
    positions := [];
    while x >= y
      invariant positions + CircleSteps(x, y, err) == CirclePositions(radius)
      decreases x - y
    {
      ghost var (before, x0, y0, err0) := (positions, x, y, err);
      positions := positions + [Vec2(x, y), Vec2(y, x), Vec2(-y, x), Vec2(-x, y),
                                Vec2(-x, -y), Vec2(-y, -x), Vec2(y, -x), Vec2(x, -y)];
      if err <= 0 {
        y := y + 1;
        err := err + 2 * y + 1;
      }
      if err > 0 {
        x := x - 1;
        err := err - (2 * x + 1);
      }
      CircleStepsAdvance(before, x0, y0, err0, x, y, err);
    }
    assert CircleSteps(x, y, err) == [];
  }

  class PixelBuffer {
    var header: Header
    var pixels: seq<RGBAColor>

    /** `PixelBuffer()`: the default header and no pixels. */
    constructor Empty()
      ensures header == DEFAULT_HEADER && pixels == []
      ensures !Valid()
    {
      header := DEFAULT_HEADER;
      pixels := [];
    }

    /**
     * `PixelBuffer(width, height, bitdepth, color)`: width*height pixels of
     * the colour. The depth is stored without being checked.
     */
    constructor (width: uint16, height: uint16, bitdepth: uint8, color: RGBAColor)
      ensures header == DEFAULT_HEADER.(width := width, height := height, bitdepth := bitdepth)
      ensures |pixels| == width * height && forall k :: 0 <= k < |pixels| ==> pixels[k] == color
      ensures Valid() <==> ValidBitdepth(bitdepth)
    {
      header := DEFAULT_HEADER.(width := width, height := height, bitdepth := bitdepth);
      var numpixels := width * height;
      var list: seq<RGBAColor> := [];
      var i := 0;
      while i < numpixels
        invariant 0 <= i <= numpixels
        invariant |list| == i && forall k :: 0 <= k < i ==> list[k] == color
      {
        list := list + [color];
        i := i + 1;
      }
      ConstructedValid(width, height, bitdepth);
      assert IsValid(DEFAULT_HEADER.(width := width, height := height, bitdepth := bitdepth), |list|) <==> ValidBitdepth(bitdepth);
      pixels := list;
    }

    /**
     * The copy constructor: width, height and depth, and the first
     * width*height pixels of the other buffer, which must have that many.
     */
    constructor CopyOf(other: PixelBuffer)
      requires other.header.width * other.header.height <= |other.pixels|
      ensures header == DEFAULT_HEADER.(width := other.header.width, height := other.header.height, bitdepth := other.header.bitdepth)
      ensures pixels == other.pixels[..other.header.width * other.header.height]
    {
      header := DEFAULT_HEADER.(width := other.header.width, height := other.header.height, bitdepth := other.header.bitdepth);
      var numpixels := other.header.width * other.header.height;
      var list: seq<RGBAColor> := [];
      var i := 0;
      while i < numpixels
        invariant 0 <= i <= numpixels
        invariant list == other.pixels[..i]
      {
        list := list + [other.pixels[i]];
        i := i + 1;
      }
      pixels := list;
    }

    /** `width()`: the 16-bit width returned as `uint8_t`, so only its low byte. */
    function Width(): (w: uint8)
      reads this
      ensures w as int == header.width <==> header.width < 0x100
      ensures w == LowByte(header.width)
    {
      ToUint8(header.width)
    }

    /** `height()`: the low byte of the 16-bit height. */
    function Height(): (h: uint8)
      reads this
      ensures h as int == header.height <==> header.height < 0x100
      ensures h == LowByte(header.height)
    {
      ToUint8(header.height)
    }

    /** `bitdepth()`: the stored depth; a valid buffer reports one of the five. */
    function Bitdepth(): (b: uint8)
      reads this
      ensures Valid() ==> ValidBitdepth(b)
    {
      header.bitdepth
    }

    /** The `bitdepth(b)` setter: only a valid depth is stored; the current depth is returned. */
    method SetBitdepth(b: uint8) returns (current: uint8)
      modifies this
      ensures ValidBitdepth(b) ==> header == old(header).(bitdepth := b)
      ensures !ValidBitdepth(b) ==> header == old(header)
      ensures current == header.bitdepth && pixels == old(pixels)
    {
      if ValidBitdepth(b) {
        header := header.(bitdepth := b);
      }
      current := header.bitdepth;
    }

    predicate Valid()
      reads this
    {
      IsValid(header, |pixels|)
    }

    /** `operator[]` read: the pixel at the index, or pixel 0 for an index past the end. */
    function At(index: nat): (c: RGBAColor)
      reads this
      requires |pixels| > 0
      ensures index < |pixels| ==> c == pixels[index]
      ensures index >= |pixels| ==> c == pixels[0]
    {
      if index < |pixels| then pixels[index] else pixels[0]
    }

    /** A write through the reference `operator[]` returns: the same pixel is replaced. */
    method SetAt(index: nat, c: RGBAColor)
      requires |pixels| > 0
      modifies this
      ensures var i := if index < |old(pixels)| then index else 0;
        pixels == old(pixels)[i := c] && header == old(header)
    {
      var i := if index < |pixels| then index else 0;
      pixels := pixels[i := c];
    }

    /**
     * `read(filename)` on the bytes of the file: the header is the first 8
     * bytes, then width*height pixels are built from the rest (byte by byte
     * through `byte2vec` at depth 1); the file size is returned.
     */
    method Read(bytes: seq<uint8>, byte2vec: uint8 -> seq<RGBAColor>) returns (size: int)
      requires Readable(bytes)
      modifies this
      ensures (header, pixels) == Decode(bytes, byte2vec)
      ensures size == |bytes|
    {
      header := DecodeHeader(bytes);
      var numpixels := header.width * header.height;
      if header.bitdepth == 1 {
        ReadPacked(bytes, numpixels / 8, byte2vec);
      } else {
        ReadPixels(bytes, header.bitdepth, numpixels);
      }
      size := |bytes|;
    }

    /** The depth-1 loop of `read`: `count` bytes from byte 8 on, each unpacked by `byte2vec`. */
    method ReadPacked(bytes: seq<uint8>, count: nat, byte2vec: uint8 -> seq<RGBAColor>)
      requires 8 + count <= |bytes|
      modifies this
      ensures header == old(header) && pixels == DecodeOneBit(bytes, 8, count, byte2vec)
    {
      ghost var all := DecodeOneBit(bytes, 8, count, byte2vec);
      pixels := [];
      var start := 8;
      var i := 0;
      while i < count
        invariant 0 <= i <= count && start == 8 + i && header == old(header)
        invariant pixels + DecodeOneBit(bytes, start, count - i, byte2vec) == all
      {
        var vec := byte2vec(bytes[start]);
        DecodeOneBitStep(pixels, bytes, start, count - i, byte2vec, all);
        AppendAll(vec);
        start := start + 1;
        i := i + 1;
      }
    }

    /** The loop of `read` at the other depths: `count` pixels from byte 8 on. */
    method ReadPixels(bytes: seq<uint8>, depth: uint8, count: nat)
      requires PixelsFit(|bytes|, 8, depth, count)
      modifies this
      ensures header == old(header) && pixels == DecodePixels(bytes, 8, depth, count)
    {
      ghost var all := DecodePixels(bytes, 8, depth, count);
      pixels := [];
      var start: nat := 8;
      var i := 0;
      while i < count
        invariant 0 <= i <= count && header == old(header)
        invariant PixelsFit(|bytes|, start, depth, count - i)
        invariant pixels + DecodePixels(bytes, start, depth, count - i) == all
      {
        start := ReadStep(bytes, start, depth, count - i, all);
        i := i + 1;
      }
    }

    /** One iteration of `ReadPixels`: the pixel at `start` is appended; the next cursor is returned. */
    method ReadStep(bytes: seq<uint8>, start: nat, depth: uint8, left: nat, ghost all: seq<RGBAColor>)
      returns (next: nat)
      requires left > 0 && PixelsFit(|bytes|, start, depth, left)
      requires pixels + DecodePixels(bytes, start, depth, left) == all
      modifies this
      ensures header == old(header)
      ensures PixelsFit(|bytes|, next, depth, left - 1)
      ensures pixels + DecodePixels(bytes, next, depth, left - 1) == all
    {
      DecodePixelsStep(pixels, bytes, start, depth, left, all);
      var pixel := ReadPixel(bytes, start, depth);
      pixels := pixels + [pixel];
      next := start + depth / 8;
    }

    /** The inner loop of `read` at depth 1: every pixel of the unpacked byte is appended. */
    method AppendAll(vec: seq<RGBAColor>)
      modifies this
      ensures header == old(header) && pixels == old(pixels) + vec
    {
      var i := 0;
      while i < |vec|
        invariant 0 <= i <= |vec| && header == old(header)
        invariant pixels == old(pixels) + vec[..i]
      {
        pixels := pixels + [vec[i]];
        i := i + 1;
      }
    }

    /** The pixel `read` builds from the bytes at `start` at a depth other than 1. */
    static method ReadPixel(bytes: seq<uint8>, start: nat, depth: uint8) returns (pixel: RGBAColor)
      requires ByteDepth(depth) ==> start + depth / 8 <= |bytes|
      ensures pixel == DecodePixel(bytes, start, depth)
      ensures depth == 32 ==> pixel == Rgba(bytes[start], bytes[start + 1], bytes[start + 2], bytes[start + 3])
      ensures depth == 16 ==> pixel == Gray(bytes[start], bytes[start + 1])
    {
      pixel := Default();
      if depth == 8 || depth == 16 {
        var val := bytes[start];
        pixel := Rgba(val, val, val);
      }
      if depth == 16 {
        pixel := pixel.(w := bytes[start + 1]);
      } else if depth == 24 || depth == 32 {
        pixel := Rgba(bytes[start], bytes[start + 1], bytes[start + 2]);
      }
      if depth == 32 {
        pixel := pixel.(w := bytes[start + 3]);
      }
    }

    /**
     * `write(filename)`: the bytes written to the file, the header and then
     * every pixel of the list, 8 pixels to a byte through `vec2byte` at
     * depth 1; the status is 1.
     */
    method Write(vec2byte: seq<RGBAColor> -> uint8) returns (bytes: seq<uint8>, status: int)
      requires header.bitdepth == 1 ==> |pixels| % 8 == 0
      ensures bytes == Encode(header, pixels, vec2byte)
      ensures status == 1
    {
      bytes := EncodeHeader(header);
      if header.bitdepth == 1 {
        var start := 0;
        var i := 0;
        while i < |pixels|
          invariant 0 <= i <= |pixels| && i % 8 == 0 && start == i
          invariant bytes == EncodeHeader(header) + EncodeOneBit(pixels[..i], vec2byte)
        {
          var vec := Group(start);
          EncodeOneBitSnoc(pixels[..i], vec, vec2byte);
          assert pixels[..i + 8] == pixels[..i] + vec;
          bytes := bytes + [vec2byte(vec)];
          start := start + 8;
          i := i + 8;
        }
        assert pixels[..i] == pixels;
      } else {
        var k := 0;
        while k < |pixels|
          invariant 0 <= k <= |pixels|
          invariant bytes == EncodeHeader(header) + EncodePixels(pixels[..k], header.bitdepth)
        {
          var pixel := pixels[k];
          var more := WritePixel(pixel, header.bitdepth);
          EncodePixelsSnoc(pixels[..k], pixel, header.bitdepth);
          assert pixels[..k + 1] == pixels[..k] + [pixel];
          bytes := bytes + more;
          k := k + 1;
        }
        assert pixels[..k] == pixels;
      }
      status := 1;
    }

    /** The 8 pixels from `start` that `write` packs into one byte at depth 1. */
    method Group(start: nat) returns (vec: seq<RGBAColor>)
      requires start + 8 <= |pixels|
      ensures vec == pixels[start..start + 8]
    {
      vec := [];
      var v := 0;
      while v < 8
        invariant 0 <= v <= 8 && vec == pixels[start..start + v]
      {
        vec := vec + [pixels[v + start]];
        v := v + 1;
      }
    }

    /** The bytes `write` emits for one pixel at a depth other than 1. */
    static method WritePixel(pixel: RGBAColor, depth: uint8) returns (bytes: seq<uint8>)
      ensures bytes == EncodePixel(pixel, depth)
      ensures depth == 8 ==> bytes == [(pixel.r + pixel.g + pixel.b) / 3]
    {
      bytes := [];
      if depth == 8 || depth == 16 {
        var value := (pixel.r + pixel.b + pixel.g) / 3;
        bytes := bytes + [value];
      }
      if depth == 16 {
        bytes := bytes + [pixel.a];
      } else if depth == 24 || depth == 32 {
        bytes := bytes + [pixel.r, pixel.g, pixel.b];
      }
      if depth == 32 {
        bytes := bytes + [pixel.a];
      }
    }

    /**
     * `createFilename(prefix, counter, leading0)`: the prefix, a "0" for
     * each i in 1 .. leading0 with counter < 10^i, the counter and ".pbf".
     */
    static method CreateFilename(prefix: string, counter: uint32, leading0: uint8) returns (name: string)
      ensures name == FileName(prefix, counter, leading0)
    {
      name := prefix;
      var i := 1;
      while i < leading0 + 1
        invariant 1 <= i <= leading0 + 1
        invariant name == prefix + Zeros(ZerosUpTo(counter, i - 1))
      {
        if counter < Pow10(i) {
          name := name + "0";
        }
        i := i + 1;
      }
      name := name + Decimal(counter) + ".pbf";
    }

    /**
     * `fromTGA(filename)` on the bytes of the file: a compressed image gives
     * 0 and no change; otherwise width, height and depth come from the TGA
     * header, width*height pixels are placed in file order (after a fill
     * with opaque black), the rows are flipped when the y origin is 0, and
     * the file size is returned.
     */
    method FromTga(bytes: seq<uint8>) returns (size: int)
      requires Tga.Importable(bytes)
      modifies this
      ensures var th := Tga.ParseHeader(bytes);
        Tga.Compressed(th) ==> size == 0 && header == old(header) && pixels == old(pixels)
      ensures var th := Tga.ParseHeader(bytes);
        !Tga.Compressed(th) ==>
          size == |bytes| && pixels == Tga.Imported(bytes) &&
          header == old(header).(width := th.width, height := th.height, bitdepth := th.bitdepth)
    {
      var th := Tga.ParseHeader(bytes);
      if Tga.Compressed(th) {
        return 0;
      }
      header := header.(width := th.width, height := th.height, bitdepth := th.bitdepth);
      var numpixels := th.width * th.height;
      FillBlack(numpixels);
      PlaceAll(bytes, numpixels);
      if th.yOrigin == 0 {
        FlipRows();
      }
      size := |bytes|;
    }

    /** The first loop of `fromTGA`: the pixels become `numpixels` opaque black ones. */
    method FillBlack(numpixels: nat)
      modifies this
      ensures header == old(header) && |pixels| == numpixels
      ensures forall k :: 0 <= k < |pixels| ==> pixels[k] == Rgba(0, 0, 0, 255)
    {
      pixels := [];
      var i := 0;
      while i < numpixels
        invariant 0 <= i <= numpixels && header == old(header) && |pixels| == i
        invariant forall k :: 0 <= k < |pixels| ==> pixels[k] == Rgba(0, 0, 0, 255)
      {
        pixels := pixels + [Rgba(0, 0, 0, 255)];
        i := i + 1;
      }
    }

    /** The second loop of `fromTGA`: pixel i becomes the file's pixel i, in file order. */
    method PlaceAll(bytes: seq<uint8>, numpixels: nat)
      requires Tga.Importable(bytes) && !Tga.Compressed(Tga.ParseHeader(bytes))
      requires numpixels == Tga.PixelCount(Tga.ParseHeader(bytes)) && |pixels| == numpixels
      modifies this
      ensures header == old(header) && pixels == Tga.FilePixels(bytes)
    {
      var depth := Tga.ParseHeader(bytes).bitdepth;
      ghost var all := Tga.FilePixels(bytes);
      var start: nat := Tga.HEADER_SIZE;
      var i := 0;
      while i < numpixels
        invariant 0 <= i <= numpixels && header == old(header) && |pixels| == numpixels
        invariant Tga.PixelsFit(|bytes|, start, depth, numpixels - i)
        invariant pixels[..i] + Tga.DecodePixels(bytes, start, depth, numpixels - i) == all
      {
        start := PlaceStep(bytes, start, depth, i, numpixels - i, all);
        i := i + 1;
      }
      assert pixels[..i] == pixels;
    }

    /** One iteration of `PlaceAll`: pixel i becomes the file's pixel at `start`; the next cursor is returned. */
    method PlaceStep(bytes: seq<uint8>, start: nat, depth: uint8, i: nat, left: nat, ghost all: seq<RGBAColor>)
      returns (next: nat)
      requires left > 0 && i < |pixels| && Tga.PixelsFit(|bytes|, start, depth, left)
      requires pixels[..i] + Tga.DecodePixels(bytes, start, depth, left) == all
      modifies this
      ensures header == old(header) && |pixels| == |old(pixels)|
      ensures Tga.PixelsFit(|bytes|, next, depth, left - 1)
      ensures pixels[..i + 1] + Tga.DecodePixels(bytes, next, depth, left - 1) == all
    {
      Tga.DecodePixelsStep(pixels[..i], bytes, start, depth, left, all);
      var color := TgaPixel(bytes, start, depth);
      UpdatePrefix(pixels, i, color);
      pixels := pixels[i := color];
      next := start + depth / 8;
    }

    /** The colour `fromTGA` builds from the bytes at `start`. */
    static method TgaPixel(bytes: seq<uint8>, start: nat, depth: uint8) returns (color: RGBAColor)
      requires Tga.ReadDepth(depth) ==> start + depth / 8 <= |bytes|
      ensures color == Tga.DecodePixel(bytes, start, depth)
    {
      color := Default();
      if depth == 8 {
        color := Rgba(bytes[start], bytes[start], bytes[start]);
      }
      if depth == 24 {
        color := Rgba(bytes[start + 2], bytes[start + 1], bytes[start]);
      }
      if depth == 32 {
        color := Rgba(bytes[start + 2], bytes[start + 1], bytes[start], bytes[start + 3]);
      }
    }

    /**
     * `getPixel(x, y)`: TRANSPARENT when the position fails the sanity check
     * (which lets x == width and y == height through) or its index is past
     * the pixels, the pixel at y*width + x otherwise.
     */
    function GetPixel(x: int, y: int): (c: RGBAColor)
      reads this
      ensures x < 0 || x > header.width || y < 0 || y > header.height ==> c == TRANSPARENT
      ensures IdFromPos(x, y, header.width) >= |pixels| ==> c == TRANSPARENT
      ensures Accepts(header.width, header.height, |pixels|, x, y) ==> c == pixels[IdFromPos(x, y, header.width)]
      ensures c == PixelAt(pixels, header.width, header.height, x, y)
    {
      PixelAt(pixels, header.width, header.height, x, y)
    }

    /**
     * `setPixel(x, y, color)`: 0 and no change when the position fails the
     * test of `getPixel`; otherwise 1, and only pixel y*width + x changes:
     * it becomes the colour when opaque, the colour blended over it when not.
     */
    method SetPixel(x: int, y: int, color: RGBAColor) returns (status: int)
      modifies this
      ensures header == old(header) && pixels == Put(old(pixels), header.width, header.height, x, y, color)
      ensures status == (if Accepts(header.width, header.height, |pixels|, x, y) then 1 else 0)
    {
      if x < 0 || x > header.width || y < 0 || y > header.height {
        return 0;
      }
      var index := IdFromPos(x, y, header.width);
      assert 0 <= index by {
        MulMonotone(header.width, 0, y);
      }
      if index >= |pixels| {
        return 0;
      }
      var c := color;
      if c.a < 255 {
        c := AlphaBlend(c, GetPixel(x, y));
      }
      assert c == Over(color, pixels[index]);
      pixels := pixels[index := c];
      status := 1;
    }

    /** `fill(color)`: the first width*height pixels, which must exist, become the colour. */
    method Fill(color: RGBAColor)
      requires header.width * header.height <= |pixels|
      modifies this
      ensures header == old(header) && pixels == Filled(old(pixels), header.width * header.height, color)
    {
      var numpixels := header.width * header.height;
      var i := 0;
      while i < numpixels
        invariant 0 <= i <= numpixels && header == old(header) && |pixels| == |old(pixels)|
        invariant forall k :: 0 <= k < |pixels| ==> pixels[k] == if k < i then color else old(pixels)[k]
      {
        pixels := pixels[i := color];
        i := i + 1;
      }
    }

    /**
     * `flipRows()`: through a copy of the buffer, a fill with TRANSPARENT,
     * and a `setPixel` of every cell with the copy's pixel of the mirrored row.
     */
    method FlipRows()
      requires header.width * header.height <= |pixels|
      modifies this
      ensures header == old(header) && pixels == Flipped(old(pixels), header.width, header.height)
    {
      var duplicate := new PixelBuffer.CopyOf(this);
      Fill(TRANSPARENT);
      FlipStart(old(pixels), header.width, header.height);
      FlipAllRows(duplicate, old(pixels));
      FlipDone(pixels, old(pixels), header.width, header.height);
    }

    /** The outer loop of `flipRows`: every row receives the copy's mirrored row. */
    method FlipAllRows(duplicate: PixelBuffer, ghost p: seq<RGBAColor>)
      requires duplicate != this && header.width * header.height <= |p|
      requires duplicate.header.width == header.width && duplicate.header.height == header.height
      requires duplicate.pixels == p[..header.width * header.height]
      requires FlipDrawn(pixels, p, header.width, header.height, 0)
      modifies this
      ensures header == old(header)
      ensures FlipDrawn(pixels, p, header.width, header.height, header.width * header.height)
    {
      var rows, cols := header.height as nat, header.width as nat;
      var y := 0;
      while y < rows
        invariant 0 <= y <= rows && header == old(header)
        invariant FlipDrawn(pixels, p, cols, rows, IdFromPos(0, y, cols))
      {
        FlipRow(duplicate, p, y);
        y := y + 1;
      }
      assert IdFromPos(0, rows, cols) == cols * rows;
    }

    /** The inner loop of `flipRows`: row y receives the copy's row height-1-y. */
    method FlipRow(duplicate: PixelBuffer, ghost p: seq<RGBAColor>, y: nat)
      requires duplicate != this && header.width * header.height <= |p| && y < header.height
      requires duplicate.header.width == header.width && duplicate.header.height == header.height
      requires duplicate.pixels == p[..header.width * header.height]
      requires FlipDrawn(pixels, p, header.width, header.height, IdFromPos(0, y, header.width))
      modifies this
      ensures header == old(header)
      ensures FlipDrawn(pixels, p, header.width, header.height, IdFromPos(0, y + 1, header.width))
    {
      var rows, cols := header.height as nat, header.width as nat;
      var x := 0;
      while x < cols
        invariant 0 <= x <= cols && header == old(header)
        invariant FlipDrawn(pixels, p, cols, rows, IdFromPos(x, y, cols))
      {
        var color := duplicate.GetPixel(x, rows - y - 1);
        FlipStep(pixels, p, cols, rows, x, y, color);
        var _ := SetPixel(x, y, color);
        x := x + 1;
      }
      assert IdFromPos(cols, y, cols) == IdFromPos(0, y + 1, cols);
    }

    /**
     * `copy(x, y, width, height)`: a new transparent buffer of that size
     * and this depth, onto which each (i, j) receives `getPixel(x + i, y + j)`
     * through `setPixel`. This buffer is not changed.
     */
    method Copy(x: uint16, y: uint16, width: uint16, height: uint16) returns (buffer: PixelBuffer)
      ensures fresh(buffer)
      ensures buffer.header == DEFAULT_HEADER.(width := width, height := height, bitdepth := header.bitdepth)
      ensures buffer.pixels == Copied(pixels, header.width, header.height, x, y, width, height)
    {
      buffer := new PixelBuffer(width, height, header.bitdepth, TRANSPARENT);
      ghost var target := Copied(pixels, header.width, header.height, x, y, width, height);
      var maxheight := height + y;
      var ny := y as nat;
      while ny < maxheight
        invariant y <= ny <= maxheight
        invariant buffer.header == DEFAULT_HEADER.(width := width, height := height, bitdepth := header.bitdepth)
        invariant DrawnUpTo(buffer.pixels, target, IdFromPos(0, ny - y, width), width * height)
      {
        CopyRow(buffer, x, y, width, height, ny, target);
        ny := ny + 1;
      }
      assert IdFromPos(0, height, width) == width * height;
      DrawnAll(buffer.pixels, target, width * height);
    }

    /** The inner loop of `copy`: row ny - y of the new buffer receives row ny from x on. */
    method CopyRow(buffer: PixelBuffer, x: uint16, y: uint16, width: uint16, height: uint16, ny: nat, ghost target: seq<RGBAColor>)
      requires buffer != this && y <= ny < y + height
      requires buffer.header.width == width && buffer.header.height == height
      requires target == Copied(pixels, header.width, header.height, x, y, width, height)
      requires DrawnUpTo(buffer.pixels, target, IdFromPos(0, ny - y, width), width * height)
      modifies buffer
      ensures buffer.header == old(buffer.header)
      ensures DrawnUpTo(buffer.pixels, target, IdFromPos(0, ny + 1 - y, width), width * height)
    {
      var maxwidth := width + x;
      var nx := x as nat;
      while nx < maxwidth
        invariant x <= nx <= maxwidth && buffer.header == old(buffer.header)
        invariant DrawnUpTo(buffer.pixels, target, IdFromPos(nx - x, ny - y, width), width * height)
      {
        var pixel := GetPixel(nx, ny);
        CopyStep(buffer.pixels, pixels, header.width, header.height, x, y, width, height, nx - x, ny - y, pixel);
        var _ := buffer.SetPixel(nx - x, ny - y, pixel);
        nx := nx + 1;
      }
      assert IdFromPos(width as int, ny - y, width) == IdFromPos(0, ny + 1 - y, width);
    }

    /**
     * `paste(brush, pos_x, pos_y)`: brush pixel (x, y) is read with
     * `getPixel` and set at (x + pos_x, y + pos_y) with `setPixel`, in raster
     * order over the brush; always 1. When the brush is this buffer it is
     * read as the paste has left it so far.
     */
    method Paste(brush: PixelBuffer, posX: int16, posY: int16) returns (status: int)
      modifies this
      ensures status == 1 && header == old(header)
      ensures pixels == Pasted(old(pixels), header.width, header.height, old(brush.pixels),
                               brush.header.width, brush.header.height, brush == this, posX, posY)
    {
      var height, width := brush.header.height as nat, brush.header.width as nat;
      ghost var step := PasteSteps(header.width, header.height, old(brush.pixels), width, height, brush == this, posX, posY);
      var y := 0;
      while y < height
        invariant 0 <= y <= height && header == old(header)
        invariant brush.header.width == width && brush.header.height == height
        invariant brush != this ==> brush.pixels == old(brush.pixels)
        invariant pixels == RasterFold(old(pixels), width, y, 0, step)
      {
        var x := 0;
        while x < width
          invariant 0 <= x <= width && header == old(header)
          invariant brush.header.width == width && brush.header.height == height
          invariant brush != this ==> brush.pixels == old(brush.pixels)
          invariant pixels == RasterFold(old(pixels), width, y, x, step)
        {
          var color := brush.GetPixel(x, y);
          var _ := SetPixel(x + posX, y + posY, color);
          x := x + 1;
        }
        y := y + 1;
      }
      return 1;
    }

    /**
     * `drawLine(x0, y0, x1, y1, color)`: Bresenham's algorithm after the
     * swaps that make the line shallow and left to right; each point goes
     * through `setPixel`.
     */
    method DrawLine(x0: int, y0: int, x1: int, y1: int, color: RGBAColor)
      modifies this
      ensures header == old(header)
      ensures pixels == PlotAll(old(pixels), header.width, header.height, LinePoints(x0, y0, x1, y1), color)
    {
      var a0, b0, a1, b1 := x0, y0, x1, y1;
      var steep := false;
      if Abs(a0 - a1) < Abs(b0 - b1) {
        a0, b0 := b0, a0;
        a1, b1 := b1, a1;
        steep := true;
      }
      if a0 > a1 {
        a0, a1 := a1, a0;
        b0, b1 := b1, b0;
      }
      assert Normalize(x0, y0, x1, y1) == LinePlan(steep, a0, b0, a1, b1);
      PlotLine(steep, a0, b0, a1, b1, color);
    }

    /**
     * The loop of `drawLine` once the line is shallow and runs left to
     * right: one point per column, y moving one row toward the end each
     * time the doubled error exceeds dx.
     */
    method PlotLine(steep: bool, a0: int, b0: int, a1: int, b1: int, color: RGBAColor)
      requires a0 <= a1
      modifies this
      ensures header == old(header)
      ensures pixels == PlotAll(old(pixels), header.width, header.height,
                                LineSteps(a0, a1, b0, 0, a1 - a0, Abs(b1 - b0) * 2, if b1 > b0 then 1 else -1, steep), color)
    {
      var dx := a1 - a0;
      var dy := b1 - b0;
      var derror2 := Abs(dy) * 2;
      var error2 := 0;
      var y := b0;
      ghost var ystep := if b1 > b0 then 1 else -1;
      ghost var all := LineSteps(a0, a1, b0, 0, dx, derror2, ystep, steep);
      ghost var done: seq<Vec2> := [];
      ghost var rest := all;
      var x := a0;
      while x <= a1
        invariant a0 <= x <= a1 + 1 && header == old(header)
        invariant rest == LineSteps(x, a1, y, error2, dx, derror2, ystep, steep)
        invariant done + rest == all
        invariant pixels == PlotAll(old(pixels), header.width, header.height, done, color)
        decreases a1 - x
      {
        ghost var (x0, y0, error0) := (x, y, error2);
        PlotUnswapped(steep, x, y, color, old(pixels), done);
        error2 := error2 + derror2;
        if error2 > dx {
          y := y + (if b1 > b0 then 1 else -1);
          error2 := error2 - dx * 2;
        }
        x := x + 1;
        LineStepsAdvance(done, rest, all, x0, a1, y0, error0, dx, derror2, ystep, steep, x, y, error2);
        done, rest := done + [Unswap(steep, x0, y0)], rest[1..];
      }
      LineStepsDone(done, rest, x, a1, y, error2, dx, derror2, ystep, steep, all);
    }

    /** The `setPixel` of one iteration of `drawLine`, with the coordinates swapped back when steep. */
    method PlotUnswapped(steep: bool, x: int, y: int, color: RGBAColor, ghost p: seq<RGBAColor>, ghost done: seq<Vec2>)
      requires pixels == PlotAll(p, header.width, header.height, done, color)
      modifies this
      ensures header == old(header)
      ensures pixels == PlotAll(p, header.width, header.height, done + [Unswap(steep, x, y)], color)
    {
      if steep {
        var _ := SetPixel(y, x, color);
      } else {
        var _ := SetPixel(x, y, color);
      }
      PlotOneMore(p, header.width, header.height, done, Unswap(steep, x, y), color, pixels);
    }

    /** `drawSquare(x0, y0, x1, y1, color)`: the four edges, x1 and y1 being width and height. */
    method DrawSquare(x0: int, y0: int, x1: int, y1: int, color: RGBAColor)
      modifies this
      ensures header == old(header)
      ensures pixels == PlotAll(old(pixels), header.width, header.height, SquarePoints(x0, y0, x1, y1), color)
    {
      ghost var (p0, w, h) := (pixels, header.width, header.height);
      DrawLine(x0, y0, x0 + x1, y0, color);
      ghost var p1 := pixels;
      assert header.width == w && header.height == h && p1 == PlotAll(p0, w, h, LinePoints(x0, y0, x0 + x1, y0), color);
      DrawLine(x0 + x1, y0, x0 + x1, y0 + y1, color);
      ghost var p2 := pixels;
      assert header.width == w && header.height == h && p2 == PlotAll(p1, w, h, LinePoints(x0 + x1, y0, x0 + x1, y0 + y1), color);
      DrawLine(x0, y0 + y1, x0 + x1, y0 + y1, color);
      ghost var p3 := pixels;
      assert header.width == w && header.height == h && p3 == PlotAll(p2, w, h, LinePoints(x0, y0 + y1, x0 + x1, y0 + y1), color);
      DrawLine(x0, y0, x0, y0 + y1, color);
      SquareEdges(p0, p1, p2, p3, pixels, w, h, x0, y0, x1, y1, color);
    }

    /**
     * `drawCircle(cx, cy, radius, color)`: the midpoint algorithm collects
     * the eight symmetric offsets of each step, then every offset moved by
     * the centre goes through `setPixel`, in that order.
     */
    method DrawCircle(circlex: int, circley: int, radius: int, color: RGBAColor)
      modifies this
      ensures header == old(header)
      ensures pixels == PlotAll(old(pixels), header.width, header.height,
                                Translate(CirclePositions(radius), circlex, circley), color)
    {
      var positions := CircleOffsets(radius);
      ghost var moved := Translate(positions, circlex, circley);
      var k := 0;
      while k < |positions|
        invariant 0 <= k <= |positions| && header == old(header)
        invariant pixels == PlotAll(old(pixels), header.width, header.height, moved[..k], color)
      {
        var local := positions[k];
        var _ := SetPixel(local.x + circlex, local.y + circley, color);
        assert moved[..k + 1][..k] == moved[..k];
        k := k + 1;
      }
      assert moved[..k] == moved;
    }

    /**
     * The two innermost loops of `blur` for cell (x, y): the channel totals
     * over the 3x3 window of clamped neighbours, the centre weighted by the
     * sharpness.
     */
    method WindowTotals(x: int, y: int, sharpness: int) returns (totalr: int, totalg: int, totalb: int, totala: int)
      ensures Vec4(totalr, totalg, totalb, totala) == WindowTotal(pixels, header.width, header.height, x, y, sharpness, 2)
    {
      var rows, cols := header.height as nat, header.width as nat;
      totalr, totalg, totalb, totala := 0, 0, 0, 0;
      var r := -1;
      while r < 2
        invariant -1 <= r <= 2
        invariant Vec4(totalr, totalg, totalb, totala) == WindowTotal(pixels, cols, rows, x, y, sharpness, r)
      {
        var c := -1;
        RowStart(pixels, cols, rows, x, y, sharpness, r, Vec4(totalr, totalg, totalb, totala));
        while c < 2
          invariant -1 <= c <= 2
          invariant Vec4(totalr, totalg, totalb, totala) ==
            AddVec4(WindowTotal(pixels, cols, rows, x, y, sharpness, r), RowTotal(pixels, cols, rows, x, y, sharpness, r, c))
        {
          ghost var before := Vec4(totalr, totalg, totalb, totala);
          totalr, totalg, totalb, totala := AddNeighbour(x, y, sharpness, r, c, totalr, totalg, totalb, totala);
          WindowAdvance(pixels, cols, rows, x, y, sharpness, r, c, before, Vec4(totalr, totalg, totalb, totala));
          c := c + 1;
        }
        RowDone(pixels, cols, rows, x, y, sharpness, r, Vec4(totalr, totalg, totalb, totala));
        r := r + 1;
      }
    }

    /**
     * The body of the innermost loop of `blur`: the colour of neighbour
     * (x + c, y + r), clamped to the grid, is added to the totals, times
     * the sharpness at the centre.
     */
    method AddNeighbour(x: int, y: int, sharpness: int, r: int, c: int, totalr: int, totalg: int, totalb: int, totala: int)
      returns (totalr': int, totalg': int, totalb': int, totala': int)
      ensures Vec4(totalr', totalg', totalb', totala') ==
        AddVec4(Vec4(totalr, totalg, totalb, totala), BlurTerm(pixels, header.width, header.height, x, y, sharpness, r, c))
    {
      var rows, cols := header.height as nat, header.width as nat;
      var n := Clamp(Vec2(x + c, y + r), cols, rows);
      var color := GetPixel(n.x, n.y);
      if r == 0 && c == 0 {
        totalr' := totalr + color.r * sharpness;
        totalg' := totalg + color.g * sharpness;
        totalb' := totalb + color.b * sharpness;
        totala' := totala + color.a * sharpness;
      } else {
        totalr' := totalr + color.r;
        totalg' := totalg + color.g;
        totalb' := totalb + color.b;
        totala' := totala + color.a;
      }
      TermOf(pixels, cols, rows, x, y, sharpness, r, c, color);
    }

    /**
     * `blur(sharpness)`: in raster order, each cell is set through
     * `setPixel` to its window totals divided by 8 + sharpness, read from
     * the pixels as the pass has left them so far.
     */
    method Blur(sharpness: int)
      requires header.width == 0 || header.height == 0 || sharpness != -8
      modifies this
      ensures header == old(header) && pixels == BlurAll(old(pixels), header.width, header.height, sharpness)
    {
      var rows, cols := header.height as nat, header.width as nat;
      ghost var step := BlurSteps(cols, rows, sharpness);
      var y := 0;
      while y < rows
        invariant 0 <= y <= rows && header == old(header)
        invariant pixels == RasterFold(old(pixels), cols, y, 0, step)
      {
        var x := 0;
        while x < cols
          invariant 0 <= x <= cols && header == old(header)
          invariant pixels == RasterFold(old(pixels), cols, y, x, step)
        {
          BlurCell(x, y, sharpness);
          x := x + 1;
        }
        y := y + 1;
      }
    }

    /** The body of the cell loop of `blur`: cell (x, y) is set to its blurred colour. */
    method BlurCell(x: int, y: int, sharpness: int)
      requires sharpness != -8
      modifies this
      ensures header == old(header) && pixels == BlurStep(old(pixels), header.width, header.height, sharpness, x, y)
    {
      var totalr, totalg, totalb, totala := WindowTotals(x, y, sharpness);
      var r := ToUint8(CDiv(totalr, 8 + sharpness));
      var g := ToUint8(CDiv(totalg, 8 + sharpness));
      var b := ToUint8(CDiv(totalb, 8 + sharpness));
      var a := ToUint8(CDiv(totala, 8 + sharpness));
      var avg := Rgba(r, g, b, a);
      BlurredFromTotals(pixels, header.width, header.height, x, y, sharpness, Vec4(totalr, totalg, totalb, totala), avg);
      var _ := SetPixel(x, y, avg);
    }
  }
}
