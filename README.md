# pixelbuffer in Dafny

A model of the core of `pixelbuffer`, a small C++ header-only library that
keeps an image as a row-major list of RGBA pixels behind an 8-byte header
(`pb::PixelBuffer`), draws on it (`setPixel`, `drawLine`, `drawSquare`,
`drawCircle`, `fill`, `paste`, `blur`, `flipRows`, `copy`), and stores it in
its own PBF file format (`write`, `read`) or imports uncompressed TGA images
(`fromTGA`). The model also covers the value types the class is built on:
the RGBA colour and its helpers (`color.h`), the four-component vector it
derives from (`math/vec4.h`), the integer 2-D vector and grid helpers
(`vec2.h`) and the byte/word helpers (`util.h`).

Modules, one per file:

- `Util` (util.dfy): the fixed-width integer types; `low_byte`, `high_byte`,
  `make_word`, `constrain` and `index`; C++ truncating division; the bytes a
  run of pixels takes.
- `Vector4` (vec4.dfy): `vec4_t` with its constructors, `operator[]`,
  `operator==` and `operator!=`.
- `Color` (color.dfy): `RGBAColor` as a `Vec4` whose components are bytes,
  with its constructors, `fromInt`/`asInt`, `negative`, `average`,
  `alphaBlend` and the named colours.
- `Vector2` (vec2.dfy): `vec2_t<int>` arithmetic, comparisons, `wrap`,
  `clamp` and `idFromPos`.
- `Raster` (raster.dfy): what `getPixel` and `setPixel` read and write in the
  pixel list, as functions of the pixels, the width and the height. It also
  gives the exact sequence of points that `drawLine`, `drawSquare` and
  `drawCircle` hand to `setPixel`.
- `Transform` (transform.dfy): `flipRows`, `copy`, `paste` and `blur` as
  functions of the pixel list. The last two work in place in raster order,
  so they are folds of `setPixel` over the cells.
- `Pbf` (pbf.dfy): the PBF byte format that `write` produces and `read`
  consumes, with its round trips.
- `Tga` (tga.dfy): the TGA header fields and pixel data that `fromTGA` reads.
- `Filename` (filename.dfy): the numbered file names of `createFilename`.
- `PixelBuffers` (pixelbuffer.dfy): the class `PixelBuffer`. Its fields are
  `header` and `pixels`, and its methods change them in place. Each method
  is proved equal to the function of the modules above that states what it
  does.

Behaviour the model keeps as the code has it:

- The sanity check of `getPixel`/`setPixel` lets `x == width` and
  `y == height` through. A read at `(width, y)` therefore sees the first
  pixel of row `y + 1` (`Raster.ReadAliasesNextRow`), and a write there
  changes that pixel.
- `width()` and `height()` return `uint8_t`, so only the low byte of the
  16-bit width or height comes back.
- `write` writes every pixel of the list, whatever the header says. At
  depth 1 it needs a multiple of 8 pixels.
- The library's test of the default constructor (tests/pixelbuffertest.cpp)
  expects a valid buffer of depth 32. The code leaves the depth at 0, so a
  default buffer is not valid. The model follows the code
  (`PixelBuffers.DefaultInvalid`).

## Model

| member | source | states |
|---|---|---|
| Util.ToUint8 | pixelbuffer/pixelbuffer.h:558-561 | the conversion to `uint8_t` keeps the value modulo 256 |
| Util.CDivTruncates | pixelbuffer/pixelbuffer.h:558-561 | C++ `/` on `int` truncates: the remainder is smaller than the divisor and has the dividend's sign |
| Util.CDivOfProduct | pixelbuffer/pixelbuffer.h:558-561 | truncating division undoes a multiplication by the same nonzero factor |
| Util.PixelBytesAsBits | pixelbuffer/pixelbuffer.h:172-199 | `count` pixels at 8, 16, 24 or 32 bits move the read cursor by count*depth/8 bytes |
| Util.HighByte | pixelbuffer/util.h:38-41 | `high_byte` is the number of whole 256s in the word |
| Util.LowByte | pixelbuffer/util.h:28-31 | `low_byte` is what is left of the word once the high byte is taken out |
| Util.MakeWord | pixelbuffer/util.h:49-52 | `make_word` gives back its two bytes as high and low byte |
| Util.WordRoundTrip | pixelbuffer/util.h:28-52 | splitting a word into its bytes and joining them gives the word back |
| Util.WordExamples | tests/utiltest.cpp:6-22 | high/low byte of 0xABCD and `make_word(0x7A, 0x42)` as the library's test expects |
| Util.Constrain | pixelbuffer/util.h:76-81 | the result lies in [min, max] when min <= max, is the value when it is inside, min or max when it is below or above, and always max when min > max |
| Util.ConstrainExamples | tests/utiltest.cpp:32-43 | `constrain(12, 42, 48)`, `(56, 42, 48)`, `(45, 42, 48)` give 42, 48, 45 |
| Util.Index | pixelbuffer/util.h:90-92 | `index` is y*cols + x whenever that fits `size_t`, and wraps modulo 2^64 otherwise |
| Util.IndexExample | tests/utiltest.cpp:46-50 | `index(3, 2, 5)` is 13 |
| Vector4.Get | pixelbuffer/math/vec4.h:38-45 | `operator[]` reads component index % 4, in the order x, y, z, w |
| Vector4.Set | pixelbuffer/math/vec4.h:38-45 | a write through `operator[]` changes component index % 4 and keeps the other three |
| Vector4.Origin | pixelbuffer/math/vec4.h:29 | the default vector is (0, 0, 0, 1) |
| Vector4.Splat | pixelbuffer/math/vec4.h:30 | the one-value constructor sets every component to it |
| Vector4.FromXY | pixelbuffer/math/vec4.h:31 | two arguments give z = 0 and w = 1 |
| Vector4.FromXYZ | pixelbuffer/math/vec4.h:31 | three arguments give w = 1 |
| Vector4.FromVec3 | pixelbuffer/math/vec4.h:32 | the vec3 constructor copies x, y, z and takes w (default 1) |
| Vector4.Equal | pixelbuffer/math/vec4.h:35 | `operator==` holds exactly when the vectors are equal |
| Vector4.EqualByIndex | pixelbuffer/math/vec4.h:35-45 | `operator==` holds exactly when `operator[]` reads the same at every index |
| Vector4.NotEqual | pixelbuffer/math/vec4.h:36 | `operator!=` holds exactly when the vectors differ |
| Vector4.ConstructorExamples | tests/vec4test.cpp:10-30 | the default and vec3 constructors give the vectors the library's test expects |
| Color.Default | pixelbuffer/color.h:30 | the default colour is opaque white |
| Color.Rgba | pixelbuffer/color.h:37 | r, g, b, a are the arguments, alpha 255 by default |
| Color.Gray | pixelbuffer/color.h:42 | r = g = b = gray, alpha 255 by default |
| Color.SetChannel | pixelbuffer/math/vec4.h:38-45 | a byte written through `operator[]` lands in channel index % 4 and the others keep theirs |
| Color.AsInt | pixelbuffer/color.h:57-60 | r, g, b, a are bits 31-24, 23-16, 15-8 and 7-0 of the result |
| Color.FromInt | pixelbuffer/color.h:47-53 | `fromInt` is the inverse of `asInt` on every 32-bit value |
| Color.Unpacked | pixelbuffer/color.h:47-53 | a 32-bit value is its four bytes, most significant first, in base 256 |
| Color.ColorIntRoundTrip | pixelbuffer/color.h:47-60 | packing a colour with `asInt` and unpacking it with `fromInt` restores it |
| Color.FromIntExample | tests/colortest.cpp:27-37 | 1439445930 unpacks to (85, 204, 51, 170) and packs back |
| Color.Negative | pixelbuffer/color.h:228-230 | each colour channel of the result and the input add up to 255; alpha is kept |
| Color.NegativeInvolution | pixelbuffer/color.h:228-230 | `negative` applied twice gives the colour back |
| Color.Average | pixelbuffer/color.h:235-238 | a gray whose level is the floor of the mean of r, g, b; alpha kept |
| Color.AverageIdempotent | pixelbuffer/color.h:235-238 | averaging an averaged colour changes nothing |
| Color.ConstantsDifferInAlpha | pixelbuffer/color.h:249-261 | TRANSPARENT is BLACK with alpha 0 |
| Color.BlendChannel | pixelbuffer/color.h:196-203 | in the exact model, a blended channel is the top channel when the top is opaque or the bottom transparent, and the bottom channel when the top is transparent; the source's float arithmetic keeps only the opaque-top case exactly |
| Color.BlendChannelBound | pixelbuffer/color.h:197-203 | a blended channel fits a byte |
| Color.WeightedMeanBound | pixelbuffer/color.h:197-203 | a mean of two channel values with nonnegative weights fits a byte |
| Color.BlendChannelExact | pixelbuffer/color.h:196-203 | the exact blend formula gives the top or bottom channel in those three cases (only the opaque-top case holds exactly in float) |
| Color.BlendAlpha | pixelbuffer/color.h:196-204 | the blended alpha fits a byte, is 255 over an opaque bottom, is the other alpha when one is 0, and is 0 only when both are |
| Color.BlendedAlpha | pixelbuffer/color.h:196-204 | the blended alpha is 255 when either alpha is 255, and the other alpha when one is 0 |
| Color.AlphaBlend | pixelbuffer/color.h:181-207 | "over": an opaque top wins, a transparent top shows the bottom, a transparent bottom shows the top, an opaque bottom stays opaque |
| Vector2.FromX | pixelbuffer/vec2.h:17 | one argument gives y = 0 |
| Vector2.Add | pixelbuffer/vec2.h:20 | subtracting the right operand undoes the addition |
| Vector2.Sub | pixelbuffer/vec2.h:22 | the difference plus the right operand is the left operand |
| Vector2.Div | pixelbuffer/vec2.h:26 | a zero component in the divisor returns the vector unchanged; otherwise each quotient truncates toward zero: the remainder is smaller than the divisor and has the sign of the dividend |
| Vector2.AddScalar | pixelbuffer/vec2.h:29 | subtracting the scalar undoes the addition |
| Vector2.SubScalar | pixelbuffer/vec2.h:31 | the difference plus the scalar is the vector |
| Vector2.MulScalar | pixelbuffer/vec2.h:33 | multiplying by n is multiplying by (n, n) |
| Vector2.Mul | pixelbuffer/vec2.h:24 | the componentwise product; its only contract is through Vector2.DivUndoesMul and Vector2.MulScalar |
| Vector2.DivScalar | pixelbuffer/vec2.h:35 | dividing by n is dividing by (n, n), and by 0 changes nothing |
| Vector2.DivUndoesMul | pixelbuffer/vec2.h:24-26 | dividing by a vector without zero components undoes multiplying by it |
| Vector2.Equal | pixelbuffer/vec2.h:38 | `operator==` holds exactly when the vectors are equal |
| Vector2.NotEqual | pixelbuffer/vec2.h:39 | `operator!=` holds exactly when they differ |
| Vector2.MagSq | pixelbuffer/vec2.h:46 | the squared magnitude is never negative |
| Vector2.Less | pixelbuffer/vec2.h:41 | `<` compares squared magnitudes, so no vector is below itself |
| Vector2.Greater | pixelbuffer/vec2.h:42 | `>` is `<` with the operands swapped, so `u > v` excludes `u < v` and `u == v` |
| Vector2.LessEq | pixelbuffer/vec2.h:43 | `<=` compares squared magnitudes |
| Vector2.GreaterEq | pixelbuffer/vec2.h:44 | `>=` compares squared magnitudes |
| Vector2.ComparisonsByMagnitude | pixelbuffer/vec2.h:41-46 | the comparisons order by squared magnitude: total, `<=` mirrors `>=`, equal magnitudes are neither less nor greater |
| Vector2.ComparisonExamples | pixelbuffer/vec2.h:41-46 | (4, 3) < (5, 5), and (4, 3) and (-4, 3) compare equal in both directions though they differ |
| Vector2.Wrap | pixelbuffer/vec2.h:69-78 | a coordinate inside the grid is kept, one past the top end goes to 0, one below 0 to the top end (or 0 when both tests fire) |
| Vector2.Clamp | pixelbuffer/vec2.h:80-89 | the result is inside a non-empty grid, coordinates inside are kept, the others go to the nearest edge |
| Vector2.ClampIdempotent | pixelbuffer/vec2.h:80-89 | clamping twice is clamping once |
| Vector2.IdFromPosIsIndex | pixelbuffer/vec2.h:91-93 | `idFromPos` and `index` agree wherever the index fits `size_t` |
| Vector2.IdFromPos | pixelbuffer/vec2.h:91-93 | (y*cols)+x without a check; Vector2.IdFromPosIsIndex and Vector2.IdFromPosInverse say what it means |
| Vector2.IdFromPosInverse | pixelbuffer/vec2.h:91-93 | inside the grid the row and column come back as id / cols and id % cols |
| Vector2.IdFromVec | pixelbuffer/vec2.h:95-97 | the vector overload is the x, y overload |
| Raster.Accepts | pixelbuffer/pixelbuffer.h:412-420 | a position that passes the sanity check and the size test has an index inside the pixels |
| Raster.AcceptsExactly | pixelbuffer/pixelbuffer.h:412-420 | on w*h pixels the accepted positions are the grid cells plus x == w on all rows but the last |
| Raster.ReadAliasesNextRow | pixelbuffer/pixelbuffer.h:430-443 | `getPixel(width, y)` reads the first pixel of row y + 1 |
| Raster.ReadInside | pixelbuffer/pixelbuffer.h:430-443 | inside the grid `getPixel` is the row-major element |
| Raster.PixelAt | pixelbuffer/pixelbuffer.h:430-443 | `getPixel` as a function of the pixels; Raster.ReadInside, Raster.ReadAliasesNextRow and Raster.ReadAfterPut state its values |
| Raster.Over | pixelbuffer/pixelbuffer.h:422-424 | what `setPixel` stores: an opaque colour as it is; in the exact model only, a transparent one leaves the pixel and anything over TRANSPARENT is itself (in the source both are exact only over or as an opaque pixel) |
| Raster.ReadAfterPut | pixelbuffer/pixelbuffer.h:410-443 | after `setPixel` the written position reads the stored colour, every other index reads as before, and a rejected write changes nothing |
| Raster.PutFrame | pixelbuffer/pixelbuffer.h:410-428 | `setPixel` changes no element other than the one at y*width + x |
| Raster.Put | pixelbuffer/pixelbuffer.h:410-428 | the pixels after `setPixel` keep their number; Raster.ReadAfterPut and Raster.PutFrame say which one changes |
| Raster.PlotAllConcat | pixelbuffer/pixelbuffer.h:478-484 | plotting one list of points and then another is plotting their concatenation |
| Raster.PlotAllOpaque | pixelbuffer/pixelbuffer.h:410-428 | with an opaque colour, plotting paints exactly the elements some accepted point lands on |
| Raster.Normalize | pixelbuffer/pixelbuffer.h:447-456 | after the swaps the line runs left to right with slope at most 1, and it is swapped exactly when steep |
| Raster.LineSteps | pixelbuffer/pixelbuffer.h:463-475 | the loop plots one point per column from x to the end |
| Raster.LineLength | pixelbuffer/pixelbuffer.h:445-476 | a line has max(abs(dx), abs(dy)) + 1 points |
| Raster.LineStepsMajor | pixelbuffer/pixelbuffer.h:463-468 | point k of the loop sits in column x + k (row x + k when steep) |
| Raster.LineOnePerStep | pixelbuffer/pixelbuffer.h:445-476 | along the major axis point k has coordinate min + k |
| Raster.BresenhamStep | pixelbuffer/pixelbuffer.h:469-474 | one iteration keeps the error equal to 2*dy*k - 2*dx*m and within [-dx, dx] |
| Raster.BresenhamLastColumn | pixelbuffer/pixelbuffer.h:469-474 | at the last column y has moved exactly abs(dy) times |
| Raster.LineStepsReachEnd | pixelbuffer/pixelbuffer.h:457-475 | the last point of the loop is the end point |
| Raster.LineEndpoints | pixelbuffer/pixelbuffer.h:445-476 | both end points are among the plotted points |
| Raster.LinePoints | pixelbuffer/pixelbuffer.h:445-476 | the points `drawLine` plots, in order; Raster.LineLength, Raster.LineEndpoints and Raster.AxisLine state their number, ends and shape |
| Raster.DiagonalSteps | pixelbuffer/pixelbuffer.h:457-475 | on a 45-degree run y follows x |
| Raster.DiagonalLine | pixelbuffer/pixelbuffer.h:445-476 | a line from (a, a) to (a + n, a + n) is the n + 1 diagonal points |
| Raster.DrawLineDiagonalExample | tests/pixelbuffertest.cpp:158-178 | `drawLine(0, 0, 8, 8)` on a transparent 8x8 buffer paints (k, k) for k < 8 and leaves (1, 3) and (4, 2) transparent |
| Raster.FlatSteps | pixelbuffer/pixelbuffer.h:457-475 | with no rise every point keeps the start row |
| Raster.AxisLine | pixelbuffer/pixelbuffer.h:445-476 | a horizontal line stays on its row and a vertical one on its column |
| Raster.SquareEdges | pixelbuffer/pixelbuffer.h:478-484 | the four `drawLine` calls plot the square's point list |
| Raster.SquareOutline | pixelbuffer/pixelbuffer.h:478-484 | the outline holds its four corners, and every point of it lies on one of the four edges |
| Raster.OnSquareEdge | pixelbuffer/pixelbuffer.h:478-484 | a point of an edge lies on that edge's row or column |
| Raster.CircleSteps | pixelbuffer/pixelbuffer.h:502-520 | each iteration pushes eight positions |
| Raster.Translate | pixelbuffer/pixelbuffer.h:522-524 | each offset is moved by the centre |
| Raster.OctantsClosed | pixelbuffer/pixelbuffer.h:503-510 | the eight positions of one iteration are closed under swapping and negating coordinates |
| Raster.CircleStepsSymmetric | pixelbuffer/pixelbuffer.h:502-520 | the positions of the loop are closed under the eight symmetries |
| Raster.CircleSymmetric | pixelbuffer/pixelbuffer.h:494-520 | the offsets of `drawCircle` are closed under the eight symmetries of the square |
| Raster.CirclePositions | pixelbuffer/pixelbuffer.h:494-520 | the offsets `drawCircle` pushes come in groups of eight, one per octant |
| Raster.CircleCardinals | pixelbuffer/pixelbuffer.h:494-520 | a circle of radius r >= 0 passes through (r, 0), (-r, 0), (0, r) and (0, -r) |
| Raster.CircleDegenerate | pixelbuffer/pixelbuffer.h:494-520 | radius 0 plots the centre eight times and a negative radius plots nothing |
| Raster.CircleStepsBounded | pixelbuffer/pixelbuffer.h:502-520 | from x <= r and y >= 0 every position stays within r of the centre on both axes |
| Raster.CircleBounded | pixelbuffer/pixelbuffer.h:494-525 | no plotted offset lies outside the square of side 2r around the centre |
| Transform.MirrorIndex | pixelbuffer/pixelbuffer.h:370-374 | the mirrored cell of a grid cell is a grid cell |
| Transform.MirrorInvolution | pixelbuffer/pixelbuffer.h:370-374 | mirroring the row of a cell twice gives the cell back |
| Transform.FlippedAt | pixelbuffer/pixelbuffer.h:362-377 | after `flipRows` (x, y) holds the colour of (x, h-1-y) stored over TRANSPARENT |
| Transform.Flipped | pixelbuffer/pixelbuffer.h:362-377 | the pixels after `flipRows` keep their number; Transform.FlippedAt gives each cell |
| Transform.FlipInvolution | pixelbuffer/pixelbuffer.h:362-377 | in the exact model, flipping twice restores the buffer unless a pixel has alpha 0 and is not TRANSPARENT; in the source this is exact for opaque pixels only |
| Transform.Copied | pixelbuffer/pixelbuffer.h:379-393 | the copy has width*height pixels |
| Transform.CopiedAt | pixelbuffer/pixelbuffer.h:379-393 | cell (i, j) of the copy reads source position (x + i, y + j) stored over TRANSPARENT |
| Transform.CopyWhole | pixelbuffer/pixelbuffer.h:379-393 | in the exact model, copying the whole of a consistent buffer gives its pixels back; in the source this is exact for opaque pixels only |
| Transform.PasteStep | pixelbuffer/pixelbuffer.h:401-403 | one brush pixel keeps the length of the pixel list |
| Transform.PastePartialOpaque | pixelbuffer/pixelbuffer.h:399-405 | part-way through an opaque paste, exactly the cells under the brush pixels done so far show them |
| Transform.PasteStepOpaque | pixelbuffer/pixelbuffer.h:401-403 | one opaque brush pixel inside the target lands on exactly one cell |
| Transform.PasteOpaque | pixelbuffer/pixelbuffer.h:395-408 | pasting a separate opaque brush inside the target shows the brush under it and keeps every other cell |
| Transform.Pasted | pixelbuffer/pixelbuffer.h:395-408 | the pixels after `paste`: every brush pixel through `setPixel` in raster order; Transform.PasteOpaque states the result for an opaque brush |
| Transform.BlurStep | pixelbuffer/pixelbuffer.h:536-563 | blurring one cell keeps the length of the pixel list |
| Transform.RasterFoldFixed | pixelbuffer/pixelbuffer.h:534-565 | a raster-order pass whose every step keeps the pixels changes nothing |
| Transform.UniformTerm | pixelbuffer/pixelbuffer.h:543-555 | in a uniform image every neighbour adds the colour, weighted by the sharpness at the centre and by 1 elsewhere |
| Transform.WeightedAdd | pixelbuffer/pixelbuffer.h:546-554 | weights of the same colour add up |
| Transform.ScaleDownWeighted | pixelbuffer/pixelbuffer.h:558-561 | dividing k times a colour by k gives the colour back |
| Transform.RowOfWeights | pixelbuffer/pixelbuffer.h:542-556 | a window row of weights 1, k, 1 totals 2 + k times the colour |
| Transform.UniformRow | pixelbuffer/pixelbuffer.h:542-556 | in a uniform image a window row totals 3 times the colour, the centre row 2 + sharpness times |
| Transform.UniformTotal | pixelbuffer/pixelbuffer.h:537-557 | in a uniform image the window totals 8 + sharpness times the colour |
| Transform.UniformBlurred | pixelbuffer/pixelbuffer.h:537-562 | a cell of a uniform image blurs to the image's colour |
| Transform.Blurred | pixelbuffer/pixelbuffer.h:537-562 | one cell's window totals divided, truncating, by 8 + sharpness and cut to uint8_t; Transform.UniformBlurred states its value on a uniform image |
| Transform.UniformBlurStep | pixelbuffer/pixelbuffer.h:536-563 | blurring one cell of a uniform opaque image writes back its colour |
| Transform.BlurUniformFixed | pixelbuffer/pixelbuffer.h:529-566 | `blur` leaves an image of one opaque colour unchanged, for every sharpness but -8 |
| Transform.BlurAll | pixelbuffer/pixelbuffer.h:529-566 | every cell blurred in raster order from the current pixels; Transform.BlurUniformFixed states it fixes a uniform opaque image |
| Pbf.EncodeHeader | pixelbuffer/pixelbuffer.h:25-32 | the header is 8 bytes |
| Pbf.HeaderRoundTrip | pixelbuffer/pixelbuffer.h:153 | the header read from a written file is the header written, whatever follows it |
| Pbf.HeaderBytesRoundTrip | pixelbuffer/pixelbuffer.h:217 | any 8 bytes read as a header are written back unchanged |
| Pbf.DecodeHeader | pixelbuffer/pixelbuffer.h:153 | the 8 header bytes taken unchecked, words little-endian; Pbf.HeaderRoundTrip and Pbf.HeaderBytesRoundTrip make it the inverse of Pbf.EncodeHeader |
| Pbf.DefaultHeaderBytes | pixelbuffer/pixelbuffer.h:25-32 | the default header is 'p', 'b', width 0, height 0, depth 0, ':' |
| Pbf.GrayLevel | pixelbuffer/pixelbuffer.h:242 | the gray level written at depths 8 and 16 is the `average` gray |
| Pbf.EncodePixel | pixelbuffer/pixelbuffer.h:241-257 | one pixel takes depth / 8 bytes at a byte depth and none at any other depth |
| Pbf.EncodePixelsLength | pixelbuffer/pixelbuffer.h:240-258 | the pixels take (number of pixels) * depth / 8 bytes |
| Pbf.EncodePixelsSnoc | pixelbuffer/pixelbuffer.h:240-258 | one more pixel appends its bytes |
| Pbf.EncodeOneBit | pixelbuffer/pixelbuffer.h:224-238 | at depth 1 each group of 8 pixels becomes one byte |
| Pbf.EncodeOneBitSnoc | pixelbuffer/pixelbuffer.h:230-238 | 8 more pixels append their byte |
| Pbf.EncodeLength | pixelbuffer/pixelbuffer.h:207-264 | the file is 8 bytes of header plus (number of pixels) * depth / 8 bytes of pixels |
| Pbf.Encode | pixelbuffer/pixelbuffer.h:207-264 | the bytes `write` puts in the file; Pbf.EncodeLength gives their number and Pbf.ReadWrittenFile reads them back |
| Pbf.DecodePixel | pixelbuffer/pixelbuffer.h:173-194 | at a depth other than 8, 16, 24, 32 the pixel stays white |
| Pbf.DecodePixels | pixelbuffer/pixelbuffer.h:172-199 | the loop builds `count` pixels |
| Pbf.DecodePixelsStep | pixelbuffer/pixelbuffer.h:172-199 | one iteration appends the pixel at the cursor, moves the cursor by depth / 8 and stays in the bytes |
| Pbf.DecodeOneBitStep | pixelbuffer/pixelbuffer.h:161-170 | one iteration at depth 1 appends the pixels of the byte at the cursor |
| Pbf.Restored | pixelbuffer/pixelbuffer.h:173-194 | a pixel comes back exactly at depth 32, opaque at 24, as its opaque `average` at 8 and as its `average` at 16 |
| Pbf.DecodeEncodedPixel | pixelbuffer/pixelbuffer.h:173-194 | reading the bytes written for one pixel gives it back restored |
| Pbf.DecodeEncodedPixels | pixelbuffer/pixelbuffer.h:172-199 | reading the bytes written for a list of pixels gives each back restored, in order |
| Pbf.ReadWrittenFile | pixelbuffer/pixelbuffer.h:135-264 | reading a written width*height file at a byte depth gives the header and every pixel restored |
| Pbf.Decode | pixelbuffer/pixelbuffer.h:135-205 | the header and pixels `read` takes from the bytes; Pbf.ReadWrittenFile and Pbf.RewriteIdempotent relate it to Pbf.Encode |
| Pbf.RestoredEncodesAlike | pixelbuffer/pixelbuffer.h:241-257 | a restored pixel is written as the same bytes as the original |
| Pbf.RestoredAllEncodesAlike | pixelbuffer/pixelbuffer.h:240-258 | restored pixels are written as the same bytes as the originals |
| Pbf.RewriteIdempotent | pixelbuffer/pixelbuffer.h:135-264 | writing what was read from a written file reproduces that file byte for byte |
| Pbf.OneBitRewrite | pixelbuffer/pixelbuffer.h:161-170 | at depth 1, with a `vec2byte` that undoes an 8-pixel `byte2vec`, writing what was read reproduces the pixel bytes |
| Tga.DecodePixel | pixelbuffer/pixelbuffer.h:328-346 | gray at depth 8, blue-green-red at 24, blue-green-red-alpha at 32, white at any other depth |
| Tga.DecodePixelsStep | pixelbuffer/pixelbuffer.h:327-349 | one iteration places the pixel at the cursor and moves the cursor by depth / 8 |
| Tga.DecodePixelsAt | pixelbuffer/pixelbuffer.h:327-349 | pixel k is read at byte start + k * (depth / 8) |
| Tga.FilePixels | pixelbuffer/pixelbuffer.h:318-349 | an uncompressed file gives width*height pixels |
| Tga.ParseHeader | pixelbuffer/pixelbuffer.h:298-304 | data type at byte 2, y origin, width and height as little-endian words at bytes 10-15, depth at byte 16; Tga.Imported and Tga.ImportedBottomUp32 use it |
| Tga.Imported | pixelbuffer/pixelbuffer.h:296-357 | the imported image has width*height pixels |
| Tga.FlippedDataAt | pixelbuffer/pixelbuffer.h:341-357 | in a bottom-up 32-bit image, (x, y) shows the BGRA quadruple of file row h-1-y, exactly so in the source only for alpha 255 |
| Tga.DataAt32 | pixelbuffer/pixelbuffer.h:341-346 | 32-bit pixel k, stored over TRANSPARENT, is the BGRA quadruple at byte 18 + 4k, exactly so in the source only for alpha 255 |
| Tga.ImportedBottomUp32 | pixelbuffer/pixelbuffer.h:277-360 | a 32-bit image with y origin 0 is imported upside down: (x, y) is file row h-1-y, exactly so in the source only for alpha 255 |
| Tga.ImportedTopDown8 | pixelbuffer/pixelbuffer.h:277-360 | an 8-bit image with a nonzero y origin keeps its order: pixel k is the gray of byte 18 + k |
| Tga.UnreadDepthIsWhite | pixelbuffer/pixelbuffer.h:327-349 | at a depth the importer does not read, every pixel is white |
| Filename.Pow10 | pixelbuffer/pixelbuffer.h:271 | powers of ten are positive |
| Filename.Zeros | pixelbuffer/pixelbuffer.h:271 | k zeros are k characters '0' |
| Filename.DecimalLength | pixelbuffer/pixelbuffer.h:273 | the counter takes as many characters as it has decimal digits |
| Filename.DecimalRoundTrip | pixelbuffer/pixelbuffer.h:273 | the decimal digits of the counter read back as the counter |
| Filename.Decimal | pixelbuffer/pixelbuffer.h:273 | the counter as `operator<<` writes it: at least one character, all decimal digits, a leading '0' only for 0 |
| Filename.LeadingZeros | pixelbuffer/pixelbuffer.h:270-273 | leading zeros do not change the value of the number part |
| Filename.BelowPow10 | pixelbuffer/pixelbuffer.h:271 | a counter is below 10^i exactly when it has at most i digits |
| Filename.ZeroCount | pixelbuffer/pixelbuffer.h:270-272 | the loop writes k - digits + 1 zeros when the counter has at most k digits, else none |
| Filename.PaddedCounter | pixelbuffer/pixelbuffer.h:266-275 | the number part is the counter padded with zeros to leading0 + 1 digits, and it reads back as the counter |
| Filename.FileNamePadded | pixelbuffer/pixelbuffer.h:266-275 | counter 42 with 4 leading zeros gives "image00042.pbf" |
| Filename.FileNameUnpadded | pixelbuffer/pixelbuffer.h:266-275 | a counter longer than leading0 + 1 digits is written as it is |
| Filename.FileName | pixelbuffer/pixelbuffer.h:266-275 | prefix, padded counter and ".pbf"; Filename.PaddedCounter, Filename.FileNamePadded and Filename.FileNameUnpadded state its parts |
| PixelBuffers.ConstructedValid | pixelbuffer/pixelbuffer.h:56-66 | a buffer built from width, height and depth is valid exactly when the depth is 1, 8, 16, 24 or 32 |
| PixelBuffers.DefaultInvalid | pixelbuffer/pixelbuffer.h:50-54 | a default buffer has depth 0 and is not valid |
| PixelBuffers.IsValid | pixelbuffer/pixelbuffer.h:110-117 | `valid()`: a valid header is written as "pb", the size, one of the five depths and ":"; PixelBuffers.ConstructedValid and PixelBuffers.DefaultInvalid say which buffers are valid |
| PixelBuffers.Filled | pixelbuffer/pixelbuffer.h:486-492 | `fill` keeps the number of pixels |
| PixelBuffers.FilledAt | pixelbuffer/pixelbuffer.h:486-492 | after `fill(c)` every cell of a consistent buffer reads c |
| PixelBuffers.CircleOffsets | pixelbuffer/pixelbuffer.h:496-520 | the position loop of `drawCircle` collects exactly the midpoint offsets |
| PixelBuffers.PixelBuffer.Empty | pixelbuffer/pixelbuffer.h:50-54 | the default header, no pixels, not valid |
| PixelBuffers.PixelBuffer.constructor | pixelbuffer/pixelbuffer.h:56-66 | the header holds width, height and the unchecked depth; width*height pixels of the colour; valid exactly when the depth is valid |
| PixelBuffers.PixelBuffer.CopyOf | pixelbuffer/pixelbuffer.h:73-83 | width, height, depth and the first width*height pixels of the other buffer |
| PixelBuffers.PixelBuffer.Width | pixelbuffer/pixelbuffer.h:100 | `width()` is the low byte of the width, equal to it only below 256 |
| PixelBuffers.PixelBuffer.Height | pixelbuffer/pixelbuffer.h:101 | `height()` is the low byte of the height, equal to it only below 256 |
| PixelBuffers.PixelBuffer.Bitdepth | pixelbuffer/pixelbuffer.h:102 | `bitdepth()` of a valid buffer is one of 1, 8, 16, 24 and 32 |
| PixelBuffers.PixelBuffer.SetBitdepth | pixelbuffer/pixelbuffer.h:103-108 | a valid depth is stored and any other is ignored; the current depth is returned |
| PixelBuffers.PixelBuffer.At | pixelbuffer/pixelbuffer.h:95-98 | `operator[]` reads the pixel at the index, or pixel 0 past the end |
| PixelBuffers.PixelBuffer.SetAt | pixelbuffer/pixelbuffer.h:95-98 | a write through `operator[]` replaces the pixel at the index, or pixel 0 past the end |
| PixelBuffers.PixelBuffer.Read | pixelbuffer/pixelbuffer.h:135-205 | the header and pixels become those `Pbf.Decode` makes of the file; the file size is returned |
| PixelBuffers.PixelBuffer.ReadPacked | pixelbuffer/pixelbuffer.h:161-170 | the depth-1 loop builds the pixels of width*height / 8 bytes |
| PixelBuffers.PixelBuffer.ReadPixels | pixelbuffer/pixelbuffer.h:171-200 | the loop at the other depths builds width*height pixels |
| PixelBuffers.PixelBuffer.ReadStep | pixelbuffer/pixelbuffer.h:172-199 | one iteration appends the pixel at the cursor and advances it |
| PixelBuffers.PixelBuffer.AppendAll | pixelbuffer/pixelbuffer.h:165-167 | every pixel of the unpacked byte is appended in order |
| PixelBuffers.PixelBuffer.ReadPixel | pixelbuffer/pixelbuffer.h:173-194 | the pixel built from the bytes at the cursor, RGBA at depth 32 and gray with alpha at 16 |
| PixelBuffers.PixelBuffer.Write | pixelbuffer/pixelbuffer.h:207-264 | the bytes written are `Pbf.Encode` of the header and every pixel; status 1 |
| PixelBuffers.PixelBuffer.Group | pixelbuffer/pixelbuffer.h:231-233 | the 8 pixels from the cursor |
| PixelBuffers.PixelBuffer.WritePixel | pixelbuffer/pixelbuffer.h:241-257 | the bytes of one pixel, the gray level alone at depth 8 |
| PixelBuffers.PixelBuffer.CreateFilename | pixelbuffer/pixelbuffer.h:266-275 | the name is `Filename.FileName` of prefix, counter and leading0 |
| PixelBuffers.PixelBuffer.FromTga | pixelbuffer/pixelbuffer.h:277-360 | a compressed image gives 0 and no change; otherwise width, height and depth come from the TGA header, the pixels are `Tga.Imported`, and the file size is returned |
| PixelBuffers.PixelBuffer.FillBlack | pixelbuffer/pixelbuffer.h:318-323 | width*height pixels are made, every one opaque black (0, 0, 0, 255) |
| PixelBuffers.PixelBuffer.PlaceAll | pixelbuffer/pixelbuffer.h:325-349 | pixel i becomes the file's pixel i |
| PixelBuffers.PixelBuffer.PlaceStep | pixelbuffer/pixelbuffer.h:327-349 | one iteration places the pixel at the cursor and advances it |
| PixelBuffers.PixelBuffer.TgaPixel | pixelbuffer/pixelbuffer.h:328-346 | the colour built from the bytes at the cursor |
| PixelBuffers.PixelBuffer.GetPixel | pixelbuffer/pixelbuffer.h:430-443 | TRANSPARENT outside the sanity check or past the pixels, the pixel at y*width + x otherwise |
| PixelBuffers.PixelBuffer.SetPixel | pixelbuffer/pixelbuffer.h:410-428 | returns 1 exactly when the position is accepted, and the pixels become `Raster.Put` of the old ones |
| PixelBuffers.PixelBuffer.Fill | pixelbuffer/pixelbuffer.h:486-492 | the first width*height pixels become the colour, the rest keep theirs |
| PixelBuffers.PixelBuffer.FlipRows | pixelbuffer/pixelbuffer.h:362-377 | the pixels become `Transform.Flipped` of the old ones |
| PixelBuffers.PixelBuffer.FlipAllRows | pixelbuffer/pixelbuffer.h:370-375 | every row receives the copy's mirrored row |
| PixelBuffers.PixelBuffer.FlipRow | pixelbuffer/pixelbuffer.h:371-374 | row y receives the copy's row height-1-y |
| PixelBuffers.PixelBuffer.Copy | pixelbuffer/pixelbuffer.h:379-393 | a new buffer of the given size and this depth whose pixels are `Transform.Copied` |
| PixelBuffers.PixelBuffer.CopyRow | pixelbuffer/pixelbuffer.h:386-389 | one row of the copy is drawn |
| PixelBuffers.PixelBuffer.Paste | pixelbuffer/pixelbuffer.h:395-408 | the pixels become `Transform.Pasted` of the old ones, the brush read as the paste leaves it when it is this buffer; status 1 |
| PixelBuffers.PixelBuffer.DrawLine | pixelbuffer/pixelbuffer.h:445-476 | the pixels become those left by `setPixel` on every point of `Raster.LinePoints`, in order |
| PixelBuffers.PixelBuffer.PlotLine | pixelbuffer/pixelbuffer.h:457-475 | the Bresenham loop plots `Raster.LineSteps` from the first column |
| PixelBuffers.PixelBuffer.PlotUnswapped | pixelbuffer/pixelbuffer.h:464-468 | one point is plotted with its coordinates swapped back when steep |
| PixelBuffers.PixelBuffer.DrawSquare | pixelbuffer/pixelbuffer.h:478-484 | the pixels become those left by `setPixel` on `Raster.SquarePoints` |
| PixelBuffers.PixelBuffer.DrawCircle | pixelbuffer/pixelbuffer.h:494-525 | the pixels become those left by `setPixel` on every midpoint offset moved by the centre, in order |
| PixelBuffers.PixelBuffer.WindowTotals | pixelbuffer/pixelbuffer.h:537-557 | the channel totals of the clamped 3x3 window, the centre weighted by the sharpness |
| PixelBuffers.PixelBuffer.AddNeighbour | pixelbuffer/pixelbuffer.h:543-555 | one neighbour's weighted colour is added to the totals |
| PixelBuffers.PixelBuffer.Blur | pixelbuffer/pixelbuffer.h:529-566 | the pixels become `Transform.BlurAll` of the old ones; sharpness -8 is accepted when the image has no cells |
| PixelBuffers.PixelBuffer.BlurCell | pixelbuffer/pixelbuffer.h:536-563 | one cell is set to its blurred colour through `setPixel` |

## Left out

- File I/O: `read`, `write` and `fromTGA` are modelled on the bytes of the file. Opening, failing to open (return 0), sizing and closing the file are not modelled, and `write` returns the bytes it would write.
- `PixelBuffer(filename)` is `read` on the file's bytes and is not a separate member.
- `printInfo` and every `operator<<`: console output only.
- The destructor and the `header()` and `pixels()` accessors: the model reads the fields directly.
- `pb::Color::byte2vec` and `pb::Color::vec2byte` are not part of this model. They are parameters of `Read` and `Write`.
- `HSVAColor`, `RGBA2HSVA`, `HSVA2RGBA`, `rotate`, `quantize` and `luminance`: floating-point colour arithmetic.
- `map` (util.h and vec2.h), `rand_float`, `rand_double` and `rand_bm`: floating point and randomness.
- The `mag`, `angle`, `rotate` and `fromAngle` members of `vec2_t`: floating point and trigonometry.
- Color.AlphaBlend: the float computation is replaced by exact rational arithmetic, truncated. Float rounding can differ by one in a channel. When both alphas are 0 the source divides 0 by 0, and the model returns TRANSPARENT there.
- Vector2.Mul: the componentwise product has no contract of its own. It is stated through Vector2.DivUndoesMul and Vector2.MulScalar.
- The compound assignments of `vec2_t` (`+=`, `-=`, `*=`, `/=`) are the binary operators followed by an assignment, so the model has only the binary ones.
- `vec2_t` is modelled for `int`. The wrap-around of `short` and the `float` and `double` instantiations are not.
- Integer overflow in `int` and `size_t` arithmetic is not modelled: y*width + x, `width * height`, the blur totals and the cursor of `read` are exact in the model. In the source, `width * height` is an `int` product and overflows only for images of more than 2^31 - 1 pixels.
- Filename.Pow10: `pow(10, i)` is a double, modelled as exact. The comparison with a 32-bit counter is exact for every i.
- PixelBuffers.PixelBuffer.SetPixel: its contract states the new pixels through `Raster.Put`. That only the one pixel changes is proved in Raster.PutFrame and Raster.ReadAfterPut.
- Reads past the end of the file or of the pixel list are undefined behaviour in the source. The model requires them not to happen: `Pbf.Readable`, `Tga.Importable`, `CopyOf`, `Fill`, `FlipRows`, and `Write` at depth 1.
- PixelBuffers.PixelBuffer.At and PixelBuffers.PixelBuffer.SetAt require a non-empty pixel list: on an empty one `operator[]` returns `_pixels[0]` of an empty vector, which is undefined behaviour.
- Division by zero in `blur`: with sharpness -8 the source divides by 8 + sharpness = 0 at the first cell. Transform.Blurred, Transform.BlurStep and PixelBuffers.PixelBuffer.BlurCell require sharpness != -8; PixelBuffers.PixelBuffer.Blur requires it only when the image has cells, and with no cells it changes nothing, as in the source.
- Default arguments are not separate members: callers pass the constructor's `color` (TRANSPARENT by default), `blur`'s `sharpness` (1 by default), `createFilename`'s `counter` and `leading0` (0 and 4) explicitly.
- Color.BlendChannel: its ensures for a transparent bottom (`ab == 0`) and a transparent top (`at == 0`) hold in the exact model only. The source computes in single-precision float, and a translucent channel over TRANSPARENT can come out one lower (r = 11, a = 3 gives 10). Only the opaque-top case is exact in the source.
- Color.BlendChannelExact: the same two cases hold in the exact formula only, not in the float computation of the source.
- Raster.Over: its second and third ensures hold in the exact model only. The second (a colour with alpha 0 leaves a pixel with alpha above 0) is exact in the source only over an opaque pixel; over a translucent one the float blend can lower a channel by one (r = 11 under alpha 3 becomes 10). The third (anything over TRANSPARENT is itself) is exact in the source only for opaque colours; a translucent colour can lose one in a channel, and TRANSPARENT over TRANSPARENT divides 0 by 0 (see Color.AlphaBlend).
- Transform.FlipInvolution: flipping twice restores translucent and TRANSPARENT pixels in the exact model only; in the source it is exact for opaque pixels, a translucent one can lose one in a channel, and a TRANSPARENT one meets the 0/0 of Color.AlphaBlend.
- Transform.CopyWhole: the same holds for copying: only opaque pixels come back exactly in the source.
- Tga.DataAt32: a quadruple with alpha below 255 is equal to the stored pixel in the exact model only; the float blend can lower a channel by one, and alpha 0 meets the 0/0 of Color.AlphaBlend.
- Tga.FlippedDataAt: the same restriction, through `flipRows`.
- Tga.ImportedBottomUp32: the same restriction; in the source a bottom-up 32-bit image is shown exactly only where the alpha is 255.
- The loop helpers carry the same contracts as the loops they model, and their only partners are the methods that call them: FlipAllRows, FlipRow, CopyRow, PlotLine, PlotUnswapped, CircleOffsets, WindowTotals, AddNeighbour, BlurCell, ReadPacked, ReadPixels, ReadStep, AppendAll, Group, FillBlack, PlaceAll, PlaceStep.
