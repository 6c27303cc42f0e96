/** `char_to_image`: measure a character, create a background canvas of the
    requested size and draw the character on it at the centring offset.
    The font library is an oracle (`Font`): it measures a character, or fails,
    and says how much of a pixel the character covers. */
module Raster {
  import opened Types
  import opened Centering

  /** A rendering font (`ImageFont.truetype(file, size)`). `bbox` is `getbbox`
      (None when it raises); `coverage(c, gx, gy)` is the anti-aliased
      coverage, 0 .. 255, of pixel (gx, gy) relative to the drawing origin. */
  datatype Font = Font(bbox: CodePoint -> Option<BBox>, coverage: (CodePoint, int, int) -> byte)

  /** A mode 'L' image: `pixels` is what `getdata` lists, row by row. */
  datatype Canvas = Canvas(width: nat, height: nat, pixels: seq<byte>)

  predicate WellFormed(c: Canvas) {
    |c.pixels| == c.width * c.height
  }

  lemma MulLeq(a: int, b: int, c: nat)
    requires a <= b
    ensures a * c <= b * c
  {
  }

  lemma MulDistrib(a: int, b: int, c: int)
    ensures (a - b) * c == a * c - b * c
  {
  }

  /** Row-major cell (x, y) of a w-by-h grid is cell y * w + x, and that
      index gives back its row and column. */
  lemma CellIndex(w: nat, h: nat, x: nat, y: nat)
    requires x < w && y < h
    ensures y * w + x < w * h
    ensures (y * w + x) / w == y && (y * w + x) % w == x
  {
    MulDistrib(y + 1, 1, w);
    MulLeq(y + 1, h, w);
    var i := y * w + x;
    var q, r := i / w, i % w;
    MulDistrib(q, y, w);
    if q > y {
      MulLeq(1, q - y, w);
    } else if q < y {
      MulLeq(1, y - q, w);
      MulDistrib(y, q, w);
    }
  }

  /** The sample at column x, row y. */
  function At(c: Canvas, x: nat, y: nat): byte
    requires WellFormed(c) && x < c.width && y < c.height
  {
    CellIndex(c.width, c.height, x, y);
    c.pixels[y * c.width + x]
  }

  /** Weighted sum of the two samples, before rounding and scaling back. */
  function Mix(under: byte, fill: byte, alpha: byte): int {
    under as int * (255 - alpha as int) + fill as int * alpha as int
  }

  lemma MixBounds(under: byte, fill: byte, alpha: byte)
    ensures 0 <= Mix(under, fill, alpha) <= 255 * 255
    ensures alpha == 0 ==> Mix(under, fill, alpha) == 255 * under as int
    ensures alpha == 255 ==> Mix(under, fill, alpha) == 255 * fill as int
  {
    var u, f, a := under as int, fill as int, alpha as int;
    MulLeq(u, 255, 255 - a);
    MulLeq(f, 255, a);
    MulLeq(0, u, 255 - a);
    MulLeq(0, f, a);
    assert 255 * (255 - a) + 255 * a == 255 * 255;
  }

  /** Compositing `fill` over `under` with coverage `alpha`: no coverage keeps
      the pixel, full coverage replaces it. */
  function Blend(under: byte, fill: byte, alpha: byte): (r: byte)
    ensures alpha == 0 ==> r == under
    ensures alpha == 255 ==> r == fill
  {
    MixBounds(under, fill, alpha);
    ((Mix(under, fill, alpha) + 127) / 255) as byte
  }

  /** `Image.new('L', (w, h), color)`. */
  function NewImage(w: nat, h: nat, color: byte): (c: Canvas)
    ensures WellFormed(c) && c.width == w && c.height == h
    ensures forall x: nat, y: nat :: x < w && y < h ==> At(c, x, y) == color
  {
    var c := Canvas(w, h, seq(w * h, _ => color));
    forall x: nat, y: nat | x < w && y < h ensures At(c, x, y) == color {
      CellIndex(w, h, x, y);
    }
    c
  }

  /** `ImageDraw.Draw(c).text((dx, dy), ch, font, fill)`: every pixel of the
      canvas is composited with the coverage of the glyph pixel that lands on
      it; glyph pixels outside the canvas are clipped and the size is kept. */
  function DrawText(c: Canvas, at: Offset, ch: CodePoint, font: Font, fill: byte): (d: Canvas)
    requires WellFormed(c)
    ensures WellFormed(d) && d.width == c.width && d.height == c.height
    ensures forall x: nat, y: nat :: x < c.width && y < c.height ==>
      At(d, x, y) == Blend(At(c, x, y), fill, font.coverage(ch, x - at.dx, y - at.dy))
  {
    var d := Canvas(c.width, c.height,
      seq(|c.pixels|, i requires 0 <= i < |c.pixels| =>
        Blend(c.pixels[i], fill, font.coverage(ch, i % c.width - at.dx, i / c.width - at.dy))));
    forall x: nat, y: nat | x < c.width && y < c.height
      ensures At(d, x, y) == Blend(At(c, x, y), fill, font.coverage(ch, x - at.dx, y - at.dy))
    {
      CellIndex(c.width, c.height, x, y);
    }
    d
  }

  /** The default `bg_color` and `fg_color` of `char_to_image` and `font2image`. */
  const DefaultBackground: byte := 255
  const DefaultForeground: byte := 0

  /** The sizes `Image.new` accepts. */
  predicate ValidCanvasSize(size: ImageSize) {
    Width(size) >= 0 && Height(size) >= 0
  }

  /** `char_to_image`: None exactly when `getbbox` fails; the error of
      `Image.new` when the box was measured but the size is negative;
      otherwise a canvas of exactly the requested size whose every pixel is
      the background composited with the foreground at the coverage of the
      glyph drawn at the centring offset of its bounding box. */
  function CharToImage(ch: CodePoint, font: Font, size: ImageSize, bg: byte, fg: byte): (r: Result<Option<Canvas>>)
    ensures r.Err? <==> font.bbox(ch).Some? && !ValidCanvasSize(size)
    ensures r.Err? ==> r.error == NegativeImageSize
    ensures r.Ok? ==> (r.value.None? <==> font.bbox(ch).None?)
    ensures r.Ok? && r.value.Some? ==> WellFormed(r.value.value)
    ensures r.Ok? && r.value.Some? ==> r.value.value.width == Width(size) && r.value.value.height == Height(size)
    ensures r.Ok? && r.value.Some? ==> forall x: nat, y: nat :: x < r.value.value.width && y < r.value.value.height ==>
      At(r.value.value, x, y) == Blend(bg, fg, font.coverage(ch,
        x - BBoxOffset(font.bbox(ch).value, size).dx, y - BBoxOffset(font.bbox(ch).value, size).dy))
  {
    match font.bbox(ch)
    case None => Ok(None)
    case Some(box) =>
      if !ValidCanvasSize(size) then Err(NegativeImageSize)
      else
        var offset := BBoxOffset(box, size);
        var image := NewImage(Width(size), Height(size), bg);
        Ok(Some(DrawText(image, offset, ch, font, fg)))
  }

  /** A font whose glyphs put ink only inside their own bounding boxes
      (right and bottom edges exclusive, as PIL reports them). */
  ghost predicate InkInsideBBox(font: Font) {
    forall ch: CodePoint, gx: int, gy: int :: font.coverage(ch, gx, gy) != 0 ==>
      font.bbox(ch).Some? &&
      font.bbox(ch).value.xmin <= gx < font.bbox(ch).value.xmax &&
      font.bbox(ch).value.ymin <= gy < font.bbox(ch).value.ymax
  }

  /** The canvas is background-filled before the glyph is drawn: every pixel
      outside the bounding box moved by the centring offset keeps the
      background colour. */
  lemma BackgroundOutsidePlacedBox(ch: CodePoint, font: Font, size: ImageSize, bg: byte, fg: byte, x: nat, y: nat)
    requires InkInsideBBox(font)
    requires font.bbox(ch).Some?
    requires x < Width(size) && y < Height(size)
    ensures var box, off := font.bbox(ch).value, BBoxOffset(font.bbox(ch).value, size);
      var image := CharToImage(ch, font, size, bg, fg).value.value;
      var inside := box.xmin + off.dx <= x < box.xmax + off.dx && box.ymin + off.dy <= y < box.ymax + off.dy;
      !inside ==> At(image, x, y) == bg
  {
    var box, off := font.bbox(ch).value, BBoxOffset(font.bbox(ch).value, size);
    if !(box.xmin + off.dx <= x < box.xmax + off.dx && box.ymin + off.dy <= y < box.ymax + off.dy) {
      assert font.coverage(ch, x - off.dx, y - off.dy) == 0;
    }
  }

  /** Where the glyph covers a pixel fully, that pixel carries the foreground. */
  lemma ForegroundWhereFullyCovered(ch: CodePoint, font: Font, size: ImageSize, bg: byte, fg: byte, x: nat, y: nat)
    requires font.bbox(ch).Some?
    requires x < Width(size) && y < Height(size)
    ensures var off := BBoxOffset(font.bbox(ch).value, size);
      font.coverage(ch, x - off.dx, y - off.dy) == 255 ==> At(CharToImage(ch, font, size, bg, fg).value.value, x, y) == fg
  {
  }
}
