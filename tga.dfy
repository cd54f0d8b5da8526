/**
 * The uncompressed Truevision TGA images `PixelBuffer::fromTGA` imports:
 * the fields of the 18-byte TGA header it looks at, the pixel data from
 * byte 18 on, and the row order.
 */
module Tga {
  import opened Util
  import opened Vector4
  import opened Vector2
  import opened Color
  import opened Raster
  import opened Transform

  /** Where the pixel data starts. */
  const HEADER_SIZE: nat := 18

  /** The TGA header fields the importer uses. */
  datatype TgaHeader = TgaHeader(imageType: uint8, yOrigin: uint16, width: uint16, height: uint16, bitdepth: uint8)

  /**
   * The header fields at their TGA offsets: the image type at 2, then
   * little-endian words for the y origin at 10, the width at 12 and the
   * height at 14, and the pixel depth at 16.
   */
  function ParseHeader(bytes: seq<uint8>): TgaHeader
    requires |bytes| >= 17
  {
    TgaHeader(bytes[2], (bytes[11] as int) * 0x100 + bytes[10], (bytes[13] as int) * 0x100 + bytes[12], (bytes[15] as int) * 0x100 + bytes[14], bytes[16])
  }

  /** The width*height pixels the importer reads and keeps. */
  function PixelCount(th: TgaHeader): nat {
    th.width * th.height
  }

  /** Image types above 3 are run-length encoded, which the importer refuses. */
  predicate Compressed(th: TgaHeader) {
    th.imageType > 3
  }

  /** The depths whose pixels the importer reads: gray, BGR and BGRA. */
  predicate ReadDepth(depth: int) {
    depth == 8 || depth == 24 || depth == 32
  }

  /**
   * One pixel from the bytes at `start`: gray at depth 8, blue-green-red
   * at 24, blue-green-red-alpha at 32, alpha 255 unless given. At any
   * other depth nothing is read and the pixel stays white.
   */
  function DecodePixel(bytes: seq<uint8>, start: nat, depth: int): (c: RGBAColor)
    requires ReadDepth(depth) ==> start + depth / 8 <= |bytes|
    ensures depth == 8 ==> c == Gray(bytes[start])
    ensures depth == 24 ==> c == Rgba(bytes[start + 2], bytes[start + 1], bytes[start])
    ensures depth == 32 ==> c == Rgba(bytes[start + 2], bytes[start + 1], bytes[start], bytes[start + 3])
    ensures !ReadDepth(depth) ==> c == WHITE
  {
    var c := Default();
    var c := if depth == 8 then Gray(bytes[start]) else c;
    var c := if depth == 24 then Rgba(bytes[start + 2], bytes[start + 1], bytes[start]) else c;
    if depth == 32 then Rgba(bytes[start + 2], bytes[start + 1], bytes[start], bytes[start + 3]) else c
  }

  /** Whether `count` pixels from `start` stay inside the bytes; the cursor moves by depth / 8. */
  predicate PixelsFit(size: nat, start: nat, depth: nat, count: nat) {
    !ReadDepth(depth) || start + PixelBytes(count, depth) <= size
  }

  lemma {:induction false} PixelsFitNext(size: nat, start: nat, depth: nat, count: nat)
    requires count > 0 && PixelsFit(size, start, depth, count)
    ensures ReadDepth(depth) ==> start + depth / 8 <= size
    ensures PixelsFit(size, start + depth / 8, depth, count - 1)
  {
  }

  /** The `count` pixels read from `start` on, in file order. */
  function DecodePixels(bytes: seq<uint8>, start: nat, depth: uint8, count: nat): (px: seq<RGBAColor>)
    requires PixelsFit(|bytes|, start, depth, count)
    ensures |px| == count
    decreases count
  {
    if count == 0 then []
    else
      PixelsFitNext(|bytes|, start, depth, count);
      [DecodePixel(bytes, start, depth)] + DecodePixels(bytes, start + depth / 8, depth, count - 1)
  }

  /** One iteration of the placing loop of `fromTGA`: the pixel at `start` is next and the cursor moves on. */
  lemma {:induction false} DecodePixelsStep(done: seq<RGBAColor>, bytes: seq<uint8>, start: nat, depth: uint8, count: nat,
                                            all: seq<RGBAColor>)
    requires count > 0 && PixelsFit(|bytes|, start, depth, count)
    requires done + DecodePixels(bytes, start, depth, count) == all
    ensures ReadDepth(depth) ==> start + depth / 8 <= |bytes|
    ensures PixelsFit(|bytes|, start + depth / 8, depth, count - 1)
    ensures (done + [DecodePixel(bytes, start, depth)]) + DecodePixels(bytes, start + depth / 8, depth, count - 1) == all
  {
    PixelsFitNext(|bytes|, start, depth, count);
  }

  /** Pixel k of the data is the pixel at byte start + k * (depth / 8). */
  lemma {:induction false} DecodePixelsAt(bytes: seq<uint8>, start: nat, depth: uint8, count: nat, k: nat)
    requires PixelsFit(|bytes|, start, depth, count) && k < count
    ensures ReadDepth(depth) ==> start + PixelBytes(k, depth) + depth / 8 <= |bytes|
    ensures DecodePixels(bytes, start, depth, count)[k] == DecodePixel(bytes, start + PixelBytes(k, depth), depth)
    decreases k
  {
    PixelsFitNext(|bytes|, start, depth, count);
    if k > 0 {
      DecodePixelsAt(bytes, start + depth / 8, depth, count - 1, k - 1);
    }
  }

  /**
   * What the importer needs of a file: the header bytes up to the depth,
   * and, for an uncompressed image, every byte of width*height pixels.
   */
  predicate Importable(bytes: seq<uint8>) {
    |bytes| >= 17 &&
    var th := ParseHeader(bytes);
    Compressed(th) || PixelsFit(|bytes|, HEADER_SIZE, th.bitdepth, PixelCount(th))
  }

  /** The pixels of an uncompressed file in file order, before any row flip. */
  function FilePixels(bytes: seq<uint8>): (px: seq<RGBAColor>)
    requires Importable(bytes) && !Compressed(ParseHeader(bytes))
    ensures var th := ParseHeader(bytes); |px| == th.width * th.height
  {
    var th := ParseHeader(bytes);
    DecodePixels(bytes, HEADER_SIZE, th.bitdepth, th.width * th.height)
  }

  /**
   * The pixels the importer leaves: the file's, with rows flipped when the
   * y origin is 0 (a TGA image is stored bottom row first).
   */
  function Imported(bytes: seq<uint8>): (px: seq<RGBAColor>)
    requires Importable(bytes) && !Compressed(ParseHeader(bytes))
    ensures var th := ParseHeader(bytes); |px| == th.width * th.height
  {
    var th := ParseHeader(bytes);
    var px := FilePixels(bytes);
    if th.yOrigin == 0 then Flipped(px, th.width, th.height) else px
  }

  /** The core of `ImportedBottomUp32`, stated over the width and height alone. */
  lemma {:induction false} FlippedDataAt(bytes: seq<uint8>, w: nat, h: nat, x: int, y: int)
    requires PixelsFit(|bytes|, HEADER_SIZE, 32, w * h)
    requires 0 <= x < w && 0 <= y < h
    ensures var at := HEADER_SIZE + 4 * IdFromPos(x, h - 1 - y, w);
      0 <= at && at + 4 <= |bytes| &&
      var c := Rgba(bytes[at + 2], bytes[at + 1], bytes[at], bytes[at + 3]);
      PixelAt(Flipped(DecodePixels(bytes, HEADER_SIZE, 32, w * h), w, h), w, h, x, y) == (if c.a == 0 then TRANSPARENT else c)
  {
    var px := DecodePixels(bytes, HEADER_SIZE, 32, w * h);
    IndexInGrid(x, h - 1 - y, w, h);
    FlippedAt(px, w, h, x, y);
    ReadInside(px, w, h, x, h - 1 - y);
    DataAt32(bytes, w * h, IdFromPos(x, h - 1 - y, w));
  }

  /** Pixel k of 32-bit data, stored over a transparent pixel with the exact blend, is the BGRA quadruple at 18 + 4k. */
  lemma {:induction false} DataAt32(bytes: seq<uint8>, n: nat, k: int)
    requires PixelsFit(|bytes|, HEADER_SIZE, 32, n) && 0 <= k < n
    ensures var at := HEADER_SIZE + 4 * k;
      at + 4 <= |bytes| &&
      var c := Rgba(bytes[at + 2], bytes[at + 1], bytes[at], bytes[at + 3]);
      Over(DecodePixels(bytes, HEADER_SIZE, 32, n)[k], TRANSPARENT) == (if c.a == 0 then TRANSPARENT else c)
  {
    var at := HEADER_SIZE + 4 * k;
    DecodePixelsAt(bytes, HEADER_SIZE, 32, n, k);
    var c := Rgba(bytes[at + 2], bytes[at + 1], bytes[at], bytes[at + 3]);
    assert DecodePixels(bytes, HEADER_SIZE, 32, n)[k] == c;
  }

  /**
   * A bottom-up 32-bit image is shown upright: the pixel at (x, y) is the
   * BGRA quadruple of file row height-1-y, except that a quadruple with
   * alpha 0 comes out fully TRANSPARENT (the flip pastes it onto a
   * transparent buffer). Translucent quadruples come back unchanged with
   * the exact blend of `Color.AlphaBlend`, not always with the float one.
   */
  lemma {:induction false} ImportedBottomUp32(bytes: seq<uint8>, x: int, y: int)
    requires Importable(bytes)
    requires var th := ParseHeader(bytes); !Compressed(th) && th.bitdepth == 32 && th.yOrigin == 0
    requires var th := ParseHeader(bytes); 0 <= x < th.width && 0 <= y < th.height
    ensures var th := ParseHeader(bytes);
      var at := HEADER_SIZE + 4 * IdFromPos(x, th.height - 1 - y, th.width);
      0 <= at && at + 4 <= |bytes| &&
      var c := Rgba(bytes[at + 2], bytes[at + 1], bytes[at], bytes[at + 3]);
      PixelAt(Imported(bytes), th.width, th.height, x, y) == (if c.a == 0 then TRANSPARENT else c)
  {
    var th := ParseHeader(bytes);
    FlippedDataAt(bytes, th.width, th.height, x, y);
  }

  /** A top-down 8-bit image keeps its order: pixel k is gray level byte 18 + k. */
  lemma {:induction false} ImportedTopDown8(bytes: seq<uint8>, k: nat)
    requires Importable(bytes)
    requires var th := ParseHeader(bytes); !Compressed(th) && th.bitdepth == 8 && th.yOrigin != 0
    requires k < ParseHeader(bytes).width * ParseHeader(bytes).height
    ensures HEADER_SIZE + k < |bytes| && Imported(bytes)[k] == Gray(bytes[HEADER_SIZE + k])
  {
    var th := ParseHeader(bytes);
    DecodePixelsAt(bytes, HEADER_SIZE, 8, th.width * th.height, k);
  }

  /** A depth the importer does not read gives a white image of the header's size. */
  lemma {:induction false} UnreadDepthIsWhite(bytes: seq<uint8>, k: nat)
    requires Importable(bytes)
    requires var th := ParseHeader(bytes); !Compressed(th) && !ReadDepth(th.bitdepth)
    requires k < ParseHeader(bytes).width * ParseHeader(bytes).height
    ensures Imported(bytes)[k] == WHITE
  {
    var th := ParseHeader(bytes);
    var w, h := th.width as nat, th.height as nat;
    var px := FilePixels(bytes);
    DecodePixelsAt(bytes, HEADER_SIZE, th.bitdepth, w * h, k);
    if th.yOrigin == 0 {
      var m := MirrorIndex(k, w, h);
      DecodePixelsAt(bytes, HEADER_SIZE, th.bitdepth, w * h, m);
      assert Flipped(px, w, h)[k] == Over(px[m], TRANSPARENT);
    }
  }
}
