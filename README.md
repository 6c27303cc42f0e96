# font2bin: a verified model of the glyph-to-bitmap dataset writer

font2bin turns the glyphs of a font into a flat bitmap dataset. For every
requested code point it measures the character, draws it centred on a small
grayscale canvas, and appends the canvas samples to one byte array. It then
writes that array, the requested code points as 4-byte unsigned integers, and
the concatenation of both into a file whose name records, in hexadecimal,
where the pixel section ends.

This project models the logic of `main.py` that does not live in the font and
image libraries:

- `naming.dfy` (module `Naming`): `_regularize` and `decimal_to_hex` (glyph
  names such as `uni0061`, built from Python's `hex` and `str.zfill`), and
  `decimal_to_char` (Python's `chr`, including its `ValueError` outside
  `range(0x110000)`). The scalar and list forms are two functions, the scalar
  one defined through the list one as the source does. A reference hex reader,
  `ParseHex`, is the inverse used to state the round trip.
- `centering.dfy` (module `Centering`): `get_bbox_offset`, with Python's floor
  division `//` by 2. Dafny's `/` is Euclidean; for the positive divisor 2 it
  is the floor, also for negative coordinates, and `FloorHalf` states that
  floor property outright.
- `raster.dfy` (module `Raster`): `char_to_image`. The font library is an
  oracle `Font`: `bbox` is `getbbox` (None when it raises) and `coverage` is
  how much of each pixel, relative to the drawing origin, the glyph covers.
  A canvas is the row-major sample list `getdata` returns.
- `dataset.dfy` (module `Dataset`): the loop of `font2image` as a method with
  its invariant, and the byte layout it writes: pixel stream, code point
  stream (little-endian uint32), combined stream and combined file name. The
  layout lemmas hold for any rasteriser whose blocks all have one size;
  `Rasterizer` is the one `char_to_image` gives, with blocks of w * h bytes.
- `types.dfy` (module `Types`): bytes, code points, Option and Result.

The two streams are meant to be read side by side: record n of the pixel
stream (bytes n * w * h onwards) and record n of the code point stream (bytes
4n onwards) should describe the same glyph. `main.py:164` writes the whole
request list to the code point stream, skipped code points included, so that
pairing holds only when nothing is skipped (`Dataset.NoSkipAligned`). The model follows the code
(`Dataset.Layout`, `Dataset.Font2Image`); the discrepancy, and a corrected
layout with the pairing proved, are under "Findings".

## Model

| member | source | states |
|---|---|---|
| `Naming.HexDigits` | main.py:52 | the digits `hex(n)[2:]` of n >= 0: at least one lowercase hex digit, no leading zero unless n is 0, and no more digits than needed (16^(len-1) <= n < 16^len for n > 0) |
| `Naming.PyHex` | main.py:52 | Python's `hex`: "0x" then the hex digits for n >= 0, "-0x" then the digits of -n for n < 0; defined by its body, with the digit properties in HexDigits and ParseHexDigits |
| `Naming.ParseHexDigits` | main.py:52 | reading the hex digits of n back gives n |
| `Naming.ZFill` | main.py:53 | `str.zfill(width)` yields max(width, len) characters and leaves a string that is already wide enough unchanged |
| `Naming.ParseHexLeadingZeros` | main.py:53 | the zero padding added by `zfill` keeps the string a hex numeral of the same value |
| `Naming.Regularize` | main.py:48-54 | `_regularize`: the prefix followed by `hex(n)[2:].zfill(4)`; defined by its body, with its properties in RegularizeSpec, RegularizeZero, RegularizeNegative and RegularizeInjective |
| `Naming.RegularizeSpec` | main.py:48-54 | for n >= 0 the name is the prefix, then zeros, then the hex digits of n, of total length len(prefix) + max(4, digits(n)); the part after the prefix reads back as n |
| `Naming.RegularizeZero` | main.py:52-53 | code point 0 is named prefix + "0000" |
| `Naming.RegularizeNegative` | main.py:52-53 | for n < 0, `hex` gives "-0x..." and the slice keeps an "x", so the part after the prefix is not a hex numeral |
| `Naming.RegularizeInjective` | main.py:48-54 | two names are equal only for equal code points, whatever the sign of the second |
| `Naming.DecimalToHex` | main.py:56-65 | the list form returns one name per input, name i being `_regularize(codes[i], prefix)` (whose shape RegularizeSpec gives) |
| `Naming.DecimalToHexRoundTrip` | main.py:56-65 | in the list form, name i carries the prefix and reads back as code i, and names i and j are equal exactly when codes i and j are |
| `Naming.DecimalToHexScalar` | main.py:56-64 | the scalar form returns exactly `_regularize` of the value |
| `Naming.DefaultName0x61` | main.py:50-53 | with the default prefix "uni", code point 0x61 is named "uni0061" |
| `Naming.Chr` | main.py:77 | `chr` succeeds exactly on 0 .. 0x10FFFF and yields the character with that code point |
| `Naming.DecimalToChar` | main.py:68-81 | the list form fails exactly when some value is outside the range of `chr`; otherwise it returns one character per value, in order, each with the value as code point |
| `Naming.DecimalToCharScalar` | main.py:72-81 | the scalar form yields one character with that code point, or the `chr` error |
| `Centering.FloorHalf` | main.py:93-97 | `a // 2` is the floor of a / 2: 2r <= a < 2r + 2, negative a included |
| `Centering.BBoxOffset` | main.py:84-100 | after moving the box by the offset, the floor midpoint of the box equals the floor centre of the canvas on each axis |
| `Centering.CenteringUniqueX` | main.py:93-98 | the horizontal offset is the only shift that centres the box horizontally |
| `Centering.CenteringUniqueY` | main.py:94-99 | the vertical offset is the only shift that centres the box vertically |
| `Centering.AxesIndependent` | main.py:93-99 | the horizontal offset depends only on xmin, xmax and the width; the vertical one only on ymin, ymax and the height |
| `Centering.SquareIsPair` | main.py:90-91 | a single number as `image_size` means the square canvas (s, s) |
| `Centering.OffsetTranslation` | main.py:95-99 | translating the box by (tx, ty) changes the offset by (-tx, -ty), so where the glyph lands does not depend on where its box started |
| `Raster.NewImage` | main.py:121 | `Image.new` gives a w-by-h canvas with every pixel the given colour |
| `Raster.ValidCanvasSize` | main.py:121 | the sizes `Image.new` accepts: neither dimension negative; CharToImage raises exactly when a measured glyph meets a size outside it |
| `Raster.Blend` | main.py:123 | drawing with coverage 0 keeps the pixel; with full coverage it replaces it with the fill |
| `Raster.DrawText` | main.py:122-123 | drawing keeps the canvas size, and each pixel (x, y) is composited with the glyph's coverage at (x - dx, y - dy); glyph parts outside the canvas are clipped |
| `Raster.CharToImage` | main.py:103-124 | None exactly when `getbbox` fails; the `Image.new` error exactly when the box was measured but the size is negative; otherwise a canvas of exactly `image_size`, each pixel being the background composited with the foreground at the coverage of the glyph drawn at the centring offset |
| `Raster.BackgroundOutsidePlacedBox` | main.py:117-123 | for a font that inks only inside its boxes, every pixel outside the box moved by the offset keeps the background colour |
| `Raster.ForegroundWhereFullyCovered` | main.py:121-123 | a pixel the glyph covers fully carries the foreground colour |
| `Dataset.Block` | main.py:154-159 | on a valid canvas size the sample list of one code point is absent exactly when `getbbox` fails; when present it is w * h bytes long |
| `Dataset.Rasterizer` | main.py:154-159 | on a valid canvas size, `char_to_image` with `getdata` skips exactly the code points whose `getbbox` fails and yields blocks of w * h bytes |
| `Dataset.Rendered` | main.py:151-156 | the kept code points are all ones that render |
| `Dataset.RenderedMembers` | main.py:151-156 | a requested code point is kept exactly when it renders, and nothing outside the request is kept |
| `Dataset.RenderedCount` | main.py:151-156 | no more code points are kept than requested, and all of them are kept exactly when none is skipped |
| `Dataset.Pixels` | main.py:149-160 | the accumulator `arr` after the loop: the sample lists of the kept code points, appended in request order; defined by its body, with its length in PixelsLength and its blocks in PixelsBlock |
| `Dataset.PixelsLength` | main.py:149-160 | the accumulated pixel array has (number of successes) * w * h bytes |
| `Dataset.BlockAt` | main.py:159-160 | block k of a stream of `st`-byte blocks is `st` bytes long |
| `Dataset.PixelsBlock` | main.py:149-160 | block k of the pixel array is the image of the k-th successful code point, so skipped code points contribute nothing and order is kept |
| `Dataset.U32LE` | main.py:164 | one uint32 takes four bytes |
| `Dataset.U32RoundTrip` | main.py:164 | the four bytes of a uint32 read back as the value |
| `Dataset.CodeStream` | main.py:164 | the code point stream is 4 * len(request) bytes |
| `Dataset.CodeStreamAt` | main.py:164 | bytes 4k .. 4k + 4 of the code point stream read back as the k-th requested code point |
| `Dataset.CombinedName` | main.py:175 | the f-string `img(0)-unicode({hex(len(arr))}).raw`; defined by its body, and CombinedNameBoundary reads the pixel byte count back from it |
| `Dataset.CombinedNameBoundary` | main.py:175 | the hex numeral in the combined file name reads back as the length of the pixel section |
| `Dataset.Layout` | main.py:163-178 | the three written streams and the combined name, with every requested code point in the code point stream; defined by its body, with sizes and boundaries in LayoutShape |
| `Dataset.LayoutShape` | main.py:163-178 | the combined stream is the pixel stream followed by the code point stream, len(arr) + 4 * len(request) bytes, and its name encodes len(arr) |
| `Dataset.ErrorAt` | main.py:152-154 | one iteration raises exactly when `chr` rejects the value, or when its glyph is measured on a negative canvas size |
| `Dataset.FirstError` | main.py:151-154 | the exception the loop raises first, if any, going through the request in order; defined by its body, with FirstErrorSticks and FirstErrorValidSize giving its properties |
| `Dataset.FirstErrorSticks` | main.py:151-154 | once an iteration has raised, the run's error is that one, whatever follows |
| `Dataset.FirstErrorValidSize` | main.py:151-152 | on a valid canvas size the run raises exactly when `decimal_to_char` would raise on the request, and then with the `chr` error |
| `Dataset.Font2Image` | main.py:143-178 | raises exactly the first exception of the loop; otherwise every value passed `chr`, and the result is the layout of the accumulated pixel blocks and the whole request list, with a 4 * len(request)-byte code point stream |
| `Dataset.CombinedName512` | main.py:175 | 512 pixel bytes give the name "img(0)-unicode(0x200).raw" |
| `Dataset.TwoGlyphScenario` | main.py:149-178 | a font that renders 'A' and 'B' on a 16 x 16 canvas gives 512 pixel bytes, 8 code point bytes, 520 bytes combined, in "img(0)-unicode(0x200).raw" |
| `Dataset.SkipMisalignsStreams` | main.py:163-164 | as written, one skipped code point leaves the code point stream with more records than the pixel stream |
| `Dataset.NoSkipKeepsAll` | main.py:151-156 | when no requested code point is skipped, the kept list is the request itself, duplicates and order included |
| `Dataset.NoSkipAligned` | main.py:149-164 | as written, when nothing is skipped, record k of the pixel stream is the image of the k-th requested code point and record k of the code point stream reads back as it |
| `Dataset.AlignedLayout` | main.py:163-164 | with only the kept code points in the code point stream, both streams hold one record per kept code point |
| `Dataset.AlignedRecords` | main.py:163-164 | in that aligned layout, image k is the rendering of the code point stored at record k |
| `Dataset.RecordAt` | main.py:159-164 | record k of the kept code points: the k-th pixel block is its image and the k-th uint32 of the kept list reads back as it |

## Left out

- `get_cmap` and `get_decimal_unicode` (main.py:10-40) wrap the font parser; the code point list is an input of `Dataset.Font2Image`, so the default `decimal_unicode=None` path is not modelled.
- `ImageFont.truetype` (main.py:142) loads the font; the loaded font is the `Font` oracle, and a failure to load is not modelled.
- The internals of `getbbox`, `Image.new`, `ImageDraw.text` and `getdata` (hinting, anti-aliasing) belong to the image library; `Font.coverage` stands for the glyph mask.
- Raster.Blend: its rounding formula is a stand-in for the image library's own compositing arithmetic; only its behaviour at coverage 0 and 255 is stated.
- Keyword defaults are not separate entry points: `prefix='uni'` (main.py:43) is `Naming.DefaultPrefix`, and `bg_color=255`, `fg_color=0` (main.py:103, 131-132) are `Raster.DefaultBackground` and `Raster.DefaultForeground`; the modelled functions take these values as ordinary parameters.
- Writing the files (main.py:166-182): the model gives the three byte sequences and the combined file name, not the directory, the two other file names or the failure when the output directory already exists.
- `print` (main.py:162) and the hard-coded driver (main.py:185-188).
- show.py, which reads one bitmap back by seeking to code point * 256, is not part of this model.
- Dataset.U32LE: numpy writes uint32 in the host's byte order; the model takes little-endian.
- Dispatch on `isinstance(..., (list, tuple))`: lists and tuples are one sequence type here, and inputs that are neither integers nor sequences (a Python `TypeError`) are not modelled.

## Findings

| source | as written | input that shows it | evidently intended | confidence | as-written member | corrected member |
|---|---|---|---|---|---|---|
| main.py:164 | the code point stream is built from the whole request `decimal_unicode`, skipped code points included | a request [0x41, c] where `getbbox` fails for c: one image in the pixel stream, two code points in the code point stream, and the second record of each no longer belongs together | only the code points whose image was appended go into the code point stream, so that record n of both streams describes the same glyph | medium (not executed) | `Dataset.SkipMisalignsStreams` | `Dataset.AlignedRecords` |
