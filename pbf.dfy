/**
 * The PBF file format that `PixelBuffer::write` produces and
 * `PixelBuffer::read` consumes: the 8-byte `PBHeader` (a little-endian
 * memory image of the struct, as on the x86 targets the library is built
 * for), then the pixels at the header's bit depth.
 */
module Pbf {
  import opened Util
  import opened Vector4
  import opened Color

  /** `PBHeader`: 'p', 'b', width, height, bit depth, ':'. */
  datatype Header = Header(typep: uint8, typeb: uint8, width: uint16, height: uint16, bitdepth: uint8, end: uint8)

  /** The header a default-constructed buffer has. */
  const DEFAULT_HEADER: Header := Header(0x70, 0x62, 0, 0, 0, 0x3A)

  /** `_validBitdepth`. */
  predicate ValidBitdepth(b: int) {
    b == 1 || b == 8 || b == 16 || b == 24 || b == 32
  }

  /** The depths stored byte-wise, one to four bytes per pixel. */
  predicate ByteDepth(b: int) {
    b == 8 || b == 16 || b == 24 || b == 32
  }

  /** The 8 bytes of the header as they lie in memory. */
  function EncodeHeader(hd: Header): (bytes: seq<uint8>)
    ensures |bytes| == 8
  {
    [hd.typep, hd.typeb, LowByte(hd.width), HighByte(hd.width), LowByte(hd.height), HighByte(hd.height), hd.bitdepth, hd.end]
  }

  /** The header `read` takes from the first 8 bytes of a file, unchecked. */
  function DecodeHeader(bytes: seq<uint8>): Header
    requires |bytes| >= 8
  {
    Header(bytes[0], bytes[1], MakeWord(bytes[3], bytes[2]), MakeWord(bytes[5], bytes[4]), bytes[6], bytes[7])
  }

  /** Writing a header and reading it back gives the same header, whatever follows it. */
  lemma {:induction false} HeaderRoundTrip(hd: Header, rest: seq<uint8>)
    ensures DecodeHeader(EncodeHeader(hd) + rest) == hd
  {
    WordRoundTrip(hd.width);
    WordRoundTrip(hd.height);
  }

  /** Any 8 bytes read as a header are written back unchanged. */
  lemma {:induction false} HeaderBytesRoundTrip(bytes: seq<uint8>)
    requires |bytes| == 8
    ensures EncodeHeader(DecodeHeader(bytes)) == bytes
  {
  }

  /** The default header is "pb" ... ":" with width, height and depth 0. */
  lemma DefaultHeaderBytes()
    ensures EncodeHeader(DEFAULT_HEADER) == [0x70, 0x62, 0, 0, 0, 0, 0, 0x3A]
  {
  }

  /** The gray level `write` stores at depths 8 and 16: (r + b + g) / 3. */
  function GrayLevel(c: RGBAColor): (g: uint8)
    ensures g == Average(c).r
  {
    (c.r + c.b + c.g) / 3
  }

  /**
   * The bytes `write` emits for one pixel: the gray level at depths 8 and
   * 16, then alpha at 16, or r, g, b at 24 and 32, then alpha at 32. Any
   * other depth emits nothing.
   */
  function EncodePixel(c: RGBAColor, depth: int): (bytes: seq<uint8>)
    ensures ByteDepth(depth) ==> |bytes| == depth / 8
    ensures !ByteDepth(depth) ==> bytes == []
  {
    (if depth == 8 || depth == 16 then [GrayLevel(c)] else []) +
    (if depth == 16 then [c.a] else if depth == 24 || depth == 32 then [c.r, c.g, c.b] else []) +
    (if depth == 32 then [c.a] else [])
  }

  /** The bytes `write` emits for a list of pixels at a byte depth, in order. */
  function EncodePixels(px: seq<RGBAColor>, depth: int): (bytes: seq<uint8>)
    decreases |px|
  {
    if |px| == 0 then [] else EncodePixel(px[0], depth) + EncodePixels(px[1..], depth)
  }

  lemma {:induction false} EncodePixelsLength(px: seq<RGBAColor>, depth: int)
    requires ByteDepth(depth)
    ensures |EncodePixels(px, depth)| == PixelBytes(|px|, depth)
    decreases |px|
  {
    if |px| > 0 {
      EncodePixelsLength(px[1..], depth);
    }
  }

  /** Encoding one more pixel appends its bytes. */
  lemma {:induction false} EncodePixelsSnoc(px: seq<RGBAColor>, c: RGBAColor, depth: int)
    ensures EncodePixels(px + [c], depth) == EncodePixels(px, depth) + EncodePixel(c, depth)
    decreases |px|
  {
    if |px| == 0 {
      assert px + [c] == [c];
    } else {
      assert (px + [c])[1..] == px[1..] + [c];
      EncodePixelsSnoc(px[1..], c, depth);
    }
  }

  /** The byte `write` emits for a group of 8 pixels at depth 1, through the given packing function. */
  function EncodeOneBit(px: seq<RGBAColor>, vec2byte: seq<RGBAColor> -> uint8): (bytes: seq<uint8>)
    requires |px| % 8 == 0
    ensures |bytes| == |px| / 8
    decreases |px|
  {
    if |px| == 0 then [] else [vec2byte(px[..8])] + EncodeOneBit(px[8..], vec2byte)
  }

  /** Packing 8 more pixels appends their byte. */
  lemma {:induction false} EncodeOneBitSnoc(px: seq<RGBAColor>, group: seq<RGBAColor>, vec2byte: seq<RGBAColor> -> uint8)
    requires |px| % 8 == 0 && |group| == 8
    ensures (|px| + 8) % 8 == 0
    ensures EncodeOneBit(px + group, vec2byte) == EncodeOneBit(px, vec2byte) + [vec2byte(group)]
    decreases |px|
  {
    if |px| == 0 {
      assert (px + group)[..8] == group && (px + group)[8..] == [];
    } else {
      assert (px + group)[..8] == px[..8] && (px + group)[8..] == px[8..] + group;
      EncodeOneBitSnoc(px[8..], group, vec2byte);
    }
  }

  /**
   * The whole file `write` produces: the header, then all pixels of the list
   * (not only width*height of them). At depth 1 the list is taken 8 pixels
   * at a time, so its length must be a multiple of 8.
   */
  function Encode(hd: Header, px: seq<RGBAColor>, vec2byte: seq<RGBAColor> -> uint8): seq<uint8>
    requires hd.bitdepth == 1 ==> |px| % 8 == 0
  {
    EncodeHeader(hd) + if hd.bitdepth == 1 then EncodeOneBit(px, vec2byte) else EncodePixels(px, hd.bitdepth)
  }

  /** The file is 8 header bytes plus |px| * depth / 8 bytes of pixels (|px| / 8 at depth 1). */
  lemma {:induction false} EncodeLength(hd: Header, px: seq<RGBAColor>, vec2byte: seq<RGBAColor> -> uint8)
    requires ValidBitdepth(hd.bitdepth) && (hd.bitdepth == 1 ==> |px| % 8 == 0)
    ensures |Encode(hd, px, vec2byte)| == 8 + |px| * hd.bitdepth / 8
  {
    if hd.bitdepth != 1 {
      EncodePixelsLength(px, hd.bitdepth);
      PixelBytesAsBits(|px|, hd.bitdepth);
    }
  }

  /**
   * The pixel `read` builds from the bytes at `start`: a default (white)
   * colour, overwritten by gray and alpha 255 at depths 8 and 16, then
   * alpha from the second byte at 16, or r, g, b and alpha 255 at 24 and
   * 32, then alpha from the fourth byte at 32.
   */
  function DecodePixel(bytes: seq<uint8>, start: nat, depth: int): (c: RGBAColor)
    requires ByteDepth(depth) ==> start + depth / 8 <= |bytes|
    ensures !ByteDepth(depth) ==> c == WHITE
  {
    var c := Default();
    var c := if depth == 8 || depth == 16 then Gray(bytes[start]) else c;
    var c := if depth == 16 then c.(w := bytes[start + 1])
             else if depth == 24 || depth == 32 then Rgba(bytes[start], bytes[start + 1], bytes[start + 2])
             else c;
    if depth == 32 then c.(w := bytes[start + 3]) else c
  }

  /**
   * Whether `count` pixels from `start` stay inside the bytes: at a byte
   * depth each pixel reads depth / 8 bytes and the cursor moves by as
   * many; at any other depth nothing is read.
   */
  predicate PixelsFit(size: nat, start: nat, depth: nat, count: nat) {
    !ByteDepth(depth) || start + PixelBytes(count, depth) <= size
  }

  lemma {:induction false} PixelsFitNext(size: nat, start: nat, depth: nat, count: nat)
    requires count > 0 && PixelsFit(size, start, depth, count)
    ensures ByteDepth(depth) ==> start + depth / 8 <= size
    ensures PixelsFit(size, start + depth / 8, depth, count - 1)
  {
  }

  /** The `count` pixels `read` builds from `start` on, at depths other than 1. */
  function DecodePixels(bytes: seq<uint8>, start: nat, depth: uint8, count: nat): (px: seq<RGBAColor>)
    requires PixelsFit(|bytes|, start, depth, count)
    ensures |px| == count
    decreases count
  {
    if count == 0 then []
    else
      PixelsFitNext(|bytes|, start, depth, count);
      [DecodePixel(bytes, start, depth)] + DecodePixels(bytes, start + depth / 8, depth, count - 1)
  }

  /** The pixels `read` builds at depth 1: `count` bytes, each unpacked by the given function. */
  function DecodeOneBit(bytes: seq<uint8>, start: nat, count: nat, byte2vec: uint8 -> seq<RGBAColor>): seq<RGBAColor>
    requires start + count <= |bytes|
    decreases count
  {
    if count == 0 then [] else byte2vec(bytes[start]) + DecodeOneBit(bytes, start + 1, count - 1, byte2vec)
  }

  /** One iteration of the byte-depth loop of `read`: the pixel at `start` is appended and the cursor moves on. */
  lemma {:induction false} DecodePixelsStep(done: seq<RGBAColor>, bytes: seq<uint8>, start: nat, depth: uint8, count: nat,
                                            all: seq<RGBAColor>)
    requires count > 0 && PixelsFit(|bytes|, start, depth, count)
    requires done + DecodePixels(bytes, start, depth, count) == all
    ensures ByteDepth(depth) ==> start + depth / 8 <= |bytes|
    ensures PixelsFit(|bytes|, start + depth / 8, depth, count - 1)
    ensures (done + [DecodePixel(bytes, start, depth)]) + DecodePixels(bytes, start + depth / 8, depth, count - 1) == all
  {
    PixelsFitNext(|bytes|, start, depth, count);
  }

  /** One iteration of the depth-1 loop of `read`: the pixels of the byte at `start` are appended. */
  lemma {:induction false} DecodeOneBitStep(done: seq<RGBAColor>, bytes: seq<uint8>, start: nat, count: nat,
                                            byte2vec: uint8 -> seq<RGBAColor>, all: seq<RGBAColor>)
    requires count > 0 && start + count <= |bytes|
    requires done + DecodeOneBit(bytes, start, count, byte2vec) == all
    ensures (done + byte2vec(bytes[start])) + DecodeOneBit(bytes, start + 1, count - 1, byte2vec) == all
  {
  }

  /**
   * What `read` needs of a file: a whole header and, for width*height
   * pixels, every byte it reads (width*height / 8 bytes at depth 1).
   */
  predicate Readable(bytes: seq<uint8>) {
    |bytes| >= 8 &&
    var hd := DecodeHeader(bytes);
    var n := hd.width * hd.height;
    if hd.bitdepth == 1 then 8 + n / 8 <= |bytes| else PixelsFit(|bytes|, 8, hd.bitdepth, n)
  }

  /** The header and pixels `read` makes of a file. */
  function Decode(bytes: seq<uint8>, byte2vec: uint8 -> seq<RGBAColor>): (Header, seq<RGBAColor>)
    requires Readable(bytes)
  {
    var hd := DecodeHeader(bytes);
    var n := hd.width * hd.height;
    (hd, if hd.bitdepth == 1 then DecodeOneBit(bytes, 8, n / 8, byte2vec) else DecodePixels(bytes, 8, hd.bitdepth, n))
  }

  /**
   * What a pixel comes back as after a write and a read: the gray level
   * with alpha 255 at depth 8, the gray level with its alpha at 16, its
   * colour with alpha 255 at 24, itself at 32.
   */
  function Restored(c: RGBAColor, depth: int): (d: RGBAColor)
    requires ByteDepth(depth)
    ensures depth == 32 ==> d == c
    ensures depth == 24 ==> d == c.(w := 255)
    ensures depth == 8 ==> d == Average(c).(w := 255)
    ensures depth == 16 ==> d == Average(c)
  {
    if depth == 8 then Gray(GrayLevel(c))
    else if depth == 16 then Gray(GrayLevel(c), c.a)
    else if depth == 24 then Rgba(c.r, c.g, c.b)
    else c
  }

  function RestoredAll(px: seq<RGBAColor>, depth: int): (r: seq<RGBAColor>)
    requires ByteDepth(depth)
    ensures |r| == |px|
  {
    seq(|px|, k requires 0 <= k < |px| => Restored(px[k], depth))
  }

  /** Reading the bytes of one pixel gives back its restored colour. */
  lemma {:induction false} DecodeEncodedPixel(pre: seq<uint8>, c: RGBAColor, post: seq<uint8>, depth: uint8)
    requires ByteDepth(depth)
    ensures |pre| + depth / 8 <= |pre + EncodePixel(c, depth) + post|
    ensures DecodePixel(pre + EncodePixel(c, depth) + post, |pre|, depth) == Restored(c, depth)
  {
    var bytes := pre + EncodePixel(c, depth) + post;
    assert bytes[|pre|..|pre| + depth / 8] == EncodePixel(c, depth);
  }

  /** Reading the bytes of a list of pixels gives back each pixel restored, in order. */
  lemma {:induction false} DecodeEncodedPixels(pre: seq<uint8>, px: seq<RGBAColor>, post: seq<uint8>, depth: uint8)
    requires ByteDepth(depth)
    ensures PixelsFit(|pre + EncodePixels(px, depth) + post|, |pre|, depth, |px|)
    ensures DecodePixels(pre + EncodePixels(px, depth) + post, |pre|, depth, |px|) == RestoredAll(px, depth)
    decreases |px|
  {
    EncodedFits(pre, px, post, depth);
    if |px| > 0 {
      DecodeEncodedPixels(pre + EncodePixel(px[0], depth), px[1..], post, depth);
      DecodeEncodedCons(pre, px, post, depth);
    }
  }

  lemma {:induction false} EncodedFits(pre: seq<uint8>, px: seq<RGBAColor>, post: seq<uint8>, depth: uint8)
    requires ByteDepth(depth)
    ensures PixelsFit(|pre + EncodePixels(px, depth) + post|, |pre|, depth, |px|)
  {
    EncodePixelsLength(px, depth);
  }

  /** The step of `DecodeEncodedPixels`: the first pixel's bytes, then the rest read back. */
  lemma {:induction false} DecodeEncodedCons(pre: seq<uint8>, px: seq<RGBAColor>, post: seq<uint8>, depth: uint8)
    requires ByteDepth(depth) && |px| > 0
    requires PixelsFit(|pre + EncodePixels(px, depth) + post|, |pre|, depth, |px|)
    requires var pre' := pre + EncodePixel(px[0], depth);
      PixelsFit(|pre' + EncodePixels(px[1..], depth) + post|, |pre'|, depth, |px| - 1) &&
      DecodePixels(pre' + EncodePixels(px[1..], depth) + post, |pre'|, depth, |px| - 1) == RestoredAll(px[1..], depth)
    ensures DecodePixels(pre + EncodePixels(px, depth) + post, |pre|, depth, |px|) == RestoredAll(px, depth)
  {
    var bytes := pre + EncodePixels(px, depth) + post;
    var pre' := pre + EncodePixel(px[0], depth);
    var rest := EncodePixels(px[1..], depth) + post;
    EncodedSplit(pre, px, post, depth);
    DecodeEncodedPixel(pre, px[0], rest, depth);
    assert bytes == pre' + EncodePixels(px[1..], depth) + post;
    assert |pre'| == |pre| + depth / 8;
    PixelsFitNext(|bytes|, |pre|, depth, |px|);
    assert DecodePixels(bytes, |pre|, depth, |px|)
        == [DecodePixel(bytes, |pre|, depth)] + DecodePixels(bytes, |pre'|, depth, |px| - 1);
    RestoredAllCons(px, depth);
  }

  lemma {:induction false} EncodedSplit(pre: seq<uint8>, px: seq<RGBAColor>, post: seq<uint8>, depth: uint8)
    requires |px| > 0
    ensures var bytes := pre + EncodePixels(px, depth) + post;
      bytes == (pre + EncodePixel(px[0], depth)) + EncodePixels(px[1..], depth) + post &&
      bytes == pre + EncodePixel(px[0], depth) + (EncodePixels(px[1..], depth) + post)
  {
  }

  lemma {:induction false} RestoredAllCons(px: seq<RGBAColor>, depth: int)
    requires ByteDepth(depth) && |px| > 0
    ensures RestoredAll(px, depth) == [Restored(px[0], depth)] + RestoredAll(px[1..], depth)
  {
  }

  /**
   * Reading a written file of width*height pixels at depth 8, 16, 24 or 32
   * gives back the header and each pixel restored: exactly at depth 32,
   * with alpha 255 at depth 24, as gray at depths 8 and 16.
   */
  lemma {:induction false} ReadWrittenFile(hd: Header, px: seq<RGBAColor>, vec2byte: seq<RGBAColor> -> uint8,
                                           byte2vec: uint8 -> seq<RGBAColor>)
    requires ByteDepth(hd.bitdepth) && |px| == hd.width * hd.height
    ensures Readable(Encode(hd, px, vec2byte))
    ensures Decode(Encode(hd, px, vec2byte), byte2vec) == (hd, RestoredAll(px, hd.bitdepth))
  {
    var bytes := Encode(hd, px, vec2byte);
    HeaderRoundTrip(hd, EncodePixels(px, hd.bitdepth));
    DecodeEncodedPixels(EncodeHeader(hd), px, [], hd.bitdepth);
    assert bytes == EncodeHeader(hd) + EncodePixels(px, hd.bitdepth) + [];
  }

  /** Re-encoding a restored pixel gives the bytes of the original. */
  lemma {:induction false} RestoredEncodesAlike(c: RGBAColor, depth: int)
    requires ByteDepth(depth)
    ensures EncodePixel(Restored(c, depth), depth) == EncodePixel(c, depth)
  {
  }

  lemma {:induction false} RestoredAllEncodesAlike(px: seq<RGBAColor>, depth: int)
    requires ByteDepth(depth)
    ensures EncodePixels(RestoredAll(px, depth), depth) == EncodePixels(px, depth)
    decreases |px|
  {
    if |px| > 0 {
      RestoredEncodesAlike(px[0], depth);
      assert RestoredAll(px, depth)[1..] == RestoredAll(px[1..], depth);
      RestoredAllEncodesAlike(px[1..], depth);
    }
  }

  /**
   * Writing what was read from a written file reproduces that file byte for
   * byte, at every byte depth: in particular, re-encoding a decoded 8- or
   * 16-bit buffer gives the same bytes.
   */
  lemma {:induction false} RewriteIdempotent(hd: Header, px: seq<RGBAColor>, vec2byte: seq<RGBAColor> -> uint8,
                                             byte2vec: uint8 -> seq<RGBAColor>)
    requires ByteDepth(hd.bitdepth) && |px| == hd.width * hd.height
    ensures Readable(Encode(hd, px, vec2byte))
    ensures var (hd', px') := Decode(Encode(hd, px, vec2byte), byte2vec);
      Encode(hd', px', vec2byte) == Encode(hd, px, vec2byte)
  {
    ReadWrittenFile(hd, px, vec2byte, byte2vec);
    RestoredAllEncodesAlike(px, hd.bitdepth);
  }

  /**
   * At depth 1, when the packing function undoes the unpacking function and
   * every unpacked byte is 8 pixels, writing what was read reproduces the
   * header and the width*height / 8 pixel bytes.
   */
  lemma {:induction false} OneBitRewrite(bytes: seq<uint8>, start: nat, count: nat, vec2byte: seq<RGBAColor> -> uint8,
                                         byte2vec: uint8 -> seq<RGBAColor>)
    requires start + count <= |bytes|
    requires forall b: uint8 :: |byte2vec(b)| == 8 && vec2byte(byte2vec(b)) == b
    ensures |DecodeOneBit(bytes, start, count, byte2vec)| == 8 * count
    ensures EncodeOneBit(DecodeOneBit(bytes, start, count, byte2vec), vec2byte) == bytes[start..start + count]
    decreases count
  {
    if count > 0 {
      OneBitRewrite(bytes, start + 1, count - 1, vec2byte, byte2vec);
      var px := DecodeOneBit(bytes, start, count, byte2vec);
      var first := byte2vec(bytes[start]);
      assert px[..8] == first && px[8..] == DecodeOneBit(bytes, start + 1, count - 1, byte2vec);
      assert bytes[start..start + count] == [bytes[start]] + bytes[start + 1..start + count];
    }
  }
}
