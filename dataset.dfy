/** `font2image` without its file system side: the loop that rasterises every
    requested code point and accumulates the pixel bytes, and the three byte
    streams it writes (pixels, code points, and their concatenation).
    The layout lemmas are stated for any rasteriser that yields blocks of one
    fixed size `st`; `Rasterizer` is the one `char_to_image` provides. */
module Dataset {
  import opened Types
  import opened Naming
  import opened Centering
  import opened Raster

  /** Pixel bytes of one code point, or None when it is skipped. */
  type Render = CodePoint -> Option<seq<byte>>

  /** Every block the rasteriser yields is `st` bytes long. */
  ghost predicate Uniform(render: Render, st: nat) {
    forall ch :: render(ch).Some? ==> |render(ch).value| == st
  }

  /** What stays fixed during one run: the loaded font, the canvas size and
      the two colours. */
  datatype Setup = Setup(font: Font, size: ImageSize, bg: byte, fg: byte)

  predicate ValidSetup(s: Setup) {
    ValidCanvasSize(s.size)
  }

  /** Bytes per rendered image: one sample per pixel. */
  function Stride(s: Setup): nat
    requires ValidSetup(s)
  {
    MulLeq(0, Width(s.size), Height(s.size));
    Width(s.size) * Height(s.size)
  }

  /** `list(image.getdata())` for one code point, or None when `char_to_image`
      yields no image. */
  function Block(s: Setup, ch: CodePoint): (b: Option<seq<byte>>)
    ensures ValidSetup(s) ==> (b.None? <==> s.font.bbox(ch).None?)
    ensures b.Some? ==> ValidSetup(s) && |b.value| == Width(s.size) * Height(s.size)
  {
    match CharToImage(ch, s.font, s.size, s.bg, s.fg)
    case Ok(Some(image)) => Some(image.pixels)
    case _ => None
  }

  /** `char_to_image` followed by `getdata`, as a rasteriser: on a valid
      canvas size it skips exactly the code points whose `getbbox` fails and
      yields blocks of w * h bytes. */
  function Rasterizer(s: Setup): (render: Render)
    ensures ValidSetup(s) ==> Uniform(render, Stride(s))
    ensures ValidSetup(s) ==> forall ch :: render(ch).None? <==> s.font.bbox(ch).None?
  {
    ch => Block(s, ch)
  }

  /** The code points, in request order, whose rasterisation succeeds. */
  function Rendered(render: Render, cps: seq<CodePoint>): (r: seq<CodePoint>)
    ensures forall j :: 0 <= j < |r| ==> render(r[j]).Some?
  {
    if cps == [] then []
    else
      var last := cps[|cps| - 1];
      Rendered(render, cps[..|cps| - 1]) + (if render(last).Some? then [last] else [])
  }

  /** The accumulator `arr` after the loop has seen `cps`: the pixel blocks
      of the successful code points, concatenated in order. */
  function Pixels(render: Render, cps: seq<CodePoint>): seq<byte>
  {
    if cps == [] then []
    else
      var last := cps[|cps| - 1];
      Pixels(render, cps[..|cps| - 1]) + (match render(last) case Some(b) => b case None => [])
  }

  /** A requested code point is kept exactly when it renders, and nothing
      else is kept. */
  lemma {:induction false} RenderedMembers(render: Render, cps: seq<CodePoint>)
    ensures forall x :: x in Rendered(render, cps) <==> x in cps && render(x).Some?
  {
    if cps != [] {
      var init, last := cps[..|cps| - 1], cps[|cps| - 1];
      RenderedMembers(render, init);
      assert cps == init + [last];
    }
  }

  /** At most every requested code point is rendered, and all of them are
      exactly when none is skipped. */
  lemma {:induction false} RenderedCount(render: Render, cps: seq<CodePoint>)
    ensures |Rendered(render, cps)| <= |cps|
    ensures |Rendered(render, cps)| == |cps| <==> forall i :: 0 <= i < |cps| ==> render(cps[i]).Some?
  {
    if cps != [] {
      var init := cps[..|cps| - 1];
      RenderedCount(render, init);
      assert forall i :: 0 <= i < |init| ==> init[i] == cps[i];
    }
  }

  lemma MulSucc(n: int, c: int)
    ensures (n + 1) * c == n * c + c
  {
  }

  /** The pixel stream is `(number of successes) * st` bytes long. */
  lemma {:induction false} PixelsLength(render: Render, st: nat, cps: seq<CodePoint>)
    requires Uniform(render, st)
    ensures |Pixels(render, cps)| == |Rendered(render, cps)| * st
  {
    if cps != [] {
      var init := cps[..|cps| - 1];
      PixelsLength(render, st, init);
      MulSucc(|Rendered(render, init)|, st);
    }
  }

  /** Arithmetic of consecutive blocks of `st` bytes. */
  lemma BlockBounds(k: nat, n: nat, st: nat)
    ensures (k + 1) * st == k * st + st
    ensures k < n ==> (k + 1) * st <= n * st
  {
    MulSucc(k, st);
    if k < n {
      MulLeq(k + 1, n, st);
    }
  }

  /** Block k of a stream cut into blocks of `st` bytes. */
  function BlockAt(bytes: seq<byte>, st: nat, k: nat): (b: seq<byte>)
    requires (k + 1) * st <= |bytes|
    ensures |b| == st
  {
    BlockBounds(k, k + 1, st);
    MulLeq(0, k, st);
    bytes[k * st .. (k + 1) * st]
  }

  /** The k-th block of `st` bytes of the pixel stream is the image of the
      k-th successful code point: skipped code points contribute nothing. */
  lemma {:induction false} PixelsBlock(render: Render, st: nat, cps: seq<CodePoint>, k: nat)
    requires Uniform(render, st)
    requires k < |Rendered(render, cps)|
    ensures (k + 1) * st <= |Pixels(render, cps)|
    ensures BlockAt(Pixels(render, cps), st, k) == render(Rendered(render, cps)[k]).value
  {
    var init, last := cps[..|cps| - 1], cps[|cps| - 1];
    var n := |Rendered(render, init)|;
    var before := Pixels(render, init);
    var extra := match render(last) case Some(b) => b case None => [];
    assert Pixels(render, cps) == before + extra;
    PixelsLength(render, st, init);
    BlockBounds(k, n, st);
    MulLeq(0, k, st);
    if k < n {
      PixelsBlock(render, st, init, k);
      assert Rendered(render, cps)[k] == Rendered(render, init)[k];
      assert (before + extra)[k * st .. (k + 1) * st] == before[k * st .. (k + 1) * st];
    } else {
      assert Rendered(render, cps)[k] == last;
      assert (before + extra)[k * st .. (k + 1) * st] == extra;
    }
  }

  /** numpy's uint32 `tofile`, taken here as little-endian. */
  function U32LE(v: nat): (b: seq<byte>)
    requires v < 0x1_0000_0000
    ensures |b| == 4
  {
    [(v % 0x100) as byte, (v / 0x100 % 0x100) as byte, (v / 0x1_0000 % 0x100) as byte, (v / 0x100_0000) as byte]
  }

  /** Reading one little-endian uint32 back. */
  function DecodeU32LE(b: seq<byte>): nat
    requires |b| == 4
  {
    b[0] as nat + 0x100 * b[1] as nat + 0x1_0000 * b[2] as nat + 0x100_0000 * b[3] as nat
  }

  lemma U32RoundTrip(v: nat)
    requires v < 0x1_0000_0000
    ensures DecodeU32LE(U32LE(v)) == v
  {
  }

  /** `np.array(decimal_unicode, dtype=np.uint32)` as bytes. */
  function CodeStream(cps: seq<CodePoint>): (b: seq<byte>)
    ensures |b| == 4 * |cps|
  {
    if cps == [] then [] else CodeStream(cps[..|cps| - 1]) + U32LE(cps[|cps| - 1] as nat)
  }

  /** The k-th four bytes of the code point stream read back as the k-th code point. */
  lemma {:induction false} CodeStreamAt(cps: seq<CodePoint>, k: nat)
    requires k < |cps|
    ensures DecodeU32LE(CodeStream(cps)[4 * k .. 4 * k + 4]) == cps[k] as int
  {
    var init := cps[..|cps| - 1];
    if k < |init| {
      CodeStreamAt(init, k);
      assert CodeStream(cps)[4 * k .. 4 * k + 4] == CodeStream(init)[4 * k .. 4 * k + 4];
    } else {
      assert CodeStream(cps)[4 * k .. 4 * k + 4] == U32LE(cps[k] as nat);
      U32RoundTrip(cps[k] as nat);
    }
  }

  /** The three byte sequences `font2image` writes, and the name of the
      combined file. */
  datatype Output = Output(imgU8: seq<byte>, unicodeU32: seq<byte>, combined: seq<byte>, combinedName: string)

  /** `f'img(0)-unicode({hex(len(arr))}).raw'`. */
  function CombinedName(pixelBytes: nat): string {
    "img(0)-unicode(" + PyHex(pixelBytes) + ").raw"
  }

  /** The combined file's name gives the length of the pixel section back:
      the hex numeral between "img(0)-unicode(0x" and ").raw" reads as it. */
  lemma CombinedNameBoundary(pixelBytes: nat)
    ensures var name := CombinedName(pixelBytes);
      && 22 <= |name|
      && name[..17] == "img(0)-unicode(0x"
      && name[|name| - 5..] == ").raw"
      && IsHexString(name[17..|name| - 5])
      && ParseHex(name[17..|name| - 5]) == pixelBytes
  {
    var name, digits := CombinedName(pixelBytes), HexDigits(pixelBytes);
    assert name == "img(0)-unicode(0x" + digits + ").raw";
    assert |name| == 22 + |digits|;
    assert name[17..|name| - 5] == digits;
    ParseHexDigits(pixelBytes);
  }

  /** The output as the source lays it out: every requested code point goes
      into the code point stream, rendered or not. */
  function Layout(render: Render, cps: seq<CodePoint>): Output
  {
    var pixels, codes := Pixels(render, cps), CodeStream(cps);
    Output(pixels, codes, pixels + codes, CombinedName(|pixels|))
  }

  /** Sizes and boundaries of the written output. */
  lemma LayoutShape(render: Render, st: nat, cps: seq<CodePoint>)
    requires Uniform(render, st)
    ensures var out := Layout(render, cps);
      && |out.imgU8| == |Rendered(render, cps)| * st
      && |out.unicodeU32| == 4 * |cps|
      && |out.combined| == |out.imgU8| + 4 * |cps|
      && out.combined[..|out.imgU8|] == out.imgU8
      && out.combined[|out.imgU8|..] == out.unicodeU32
      && ParseHex(out.combinedName[17..|out.combinedName| - 5]) == |out.imgU8|
  {
    PixelsLength(render, st, cps);
    CombinedNameBoundary(|Pixels(render, cps)|);
  }

  /** The exception, if any, that one iteration of the loop raises: `chr`
      first, then `Image.new` inside `char_to_image`. */
  function ErrorAt(s: Setup, code: int): (e: Option<Error>)
    ensures e.None? <==> InCodeSpace(code) && (ValidSetup(s) || s.font.bbox(code as CodePoint).None?)
  {
    match Chr(code)
    case Err(e) => Some(e)
    case Ok(ch) =>
      match CharToImage(ch, s.font, s.size, s.bg, s.fg)
      case Err(e) => Some(e)
      case Ok(_) => None
  }

  /** The exception the loop over `codes` raises first, if any. */
  function FirstError(s: Setup, codes: seq<int>): Option<Error>
  {
    if codes == [] then None
    else
      match FirstError(s, codes[..|codes| - 1])
      case Some(e) => Some(e)
      case None => ErrorAt(s, codes[|codes| - 1])
  }

  /** Once an iteration has raised, later code points change nothing. */
  lemma {:induction false} FirstErrorSticks(s: Setup, codes: seq<int>, i: nat)
    requires i <= |codes| && FirstError(s, codes[..i]).Some?
    ensures FirstError(s, codes) == FirstError(s, codes[..i])
    decreases |codes| - i
  {
    if i < |codes| {
      assert codes[..i + 1][..i] == codes[..i];
      FirstErrorSticks(s, codes, i + 1);
    } else {
      assert codes[..i] == codes;
    }
  }

  /** With a valid canvas size the only exception is that of `chr`, raised
      exactly when `decimal_to_char` would raise on the same list. */
  lemma {:induction false} FirstErrorValidSize(s: Setup, codes: seq<int>)
    requires ValidSetup(s)
    ensures FirstError(s, codes).Some? <==> DecimalToChar(codes).Err?
    ensures FirstError(s, codes).Some? ==> FirstError(s, codes).value == ChrOutOfRange
  {
    if codes != [] {
      var init := codes[..|codes| - 1];
      FirstErrorValidSize(s, init);
      assert forall i :: 0 <= i < |init| ==> init[i] == codes[i];
    }
  }

  /** `font2image` after the font is loaded and the code point list is known:
      raises the first exception of the loop (`chr` on a value outside its
      range, or `Image.new` on a negative size once a glyph is measured);
      otherwise yields the layout of the pixel blocks of the successful code
      points followed by ALL the requested code points as uint32. */
  method Font2Image(font: Font, size: ImageSize, codes: seq<int>, bg: byte, fg: byte) returns (r: Result<Output>)
    ensures r.Err? <==> FirstError(Setup(font, size, bg, fg), codes).Some?
    ensures r.Err? ==> r.error == FirstError(Setup(font, size, bg, fg), codes).value
    ensures r.Ok? ==> DecimalToChar(codes).Ok?
    ensures r.Ok? ==> r.value == Layout(Rasterizer(Setup(font, size, bg, fg)), DecimalToChar(codes).value)
    ensures r.Ok? ==> |r.value.unicodeU32| == 4 * |codes|
  {
    ghost var s := Setup(font, size, bg, fg);
    ghost var render := Rasterizer(s);
    var requested: seq<CodePoint> := [];
    var arr: seq<byte> := [];
    var i := 0;
    while i < |codes|
      invariant 0 <= i <= |codes|
      invariant |requested| == i && forall j :: 0 <= j < i ==> requested[j] as int == codes[j]
      invariant FirstError(s, codes[..i]).None?
      invariant arr == Pixels(render, requested)
    {
      assert codes[..i + 1][..i] == codes[..i];
      var ch := Chr(codes[i]);
      if ch.Err? {
        FirstErrorSticks(s, codes, i + 1);
        r := Err(ch.error);
        return;
      }
      var image := CharToImage(ch.value, font, size, bg, fg);
      if image.Err? {
        FirstErrorSticks(s, codes, i + 1);
        r := Err(image.error);
        return;
      }
      if image.value.Some? {
        arr := arr + image.value.value.pixels;
      }
      assert (requested + [ch.value])[..i] == requested;
      requested := requested + [ch.value];
      i := i + 1;
    }
    assert codes[..i] == codes;
    assert requested == DecimalToChar(codes).value;
    var codeStream := CodeStream(requested);
    r := Ok(Output(arr, codeStream, arr + codeStream, CombinedName(|arr|)));
  }

  /** 512 pixel bytes give the name "img(0)-unicode(0x200).raw". */
  lemma CombinedName512()
    ensures CombinedName(512) == "img(0)-unicode(0x200).raw"
  {
    assert HexDigits(2) == "2";
    assert HexDigits(32) == "20";
    assert HexDigits(512) == "200";
  }

  /** A font that renders 'A' and 'B' on a 16 x 16 canvas: 512 pixel bytes,
      8 code point bytes, 520 bytes in all, in "img(0)-unicode(0x200).raw". */
  lemma TwoGlyphScenario(font: Font)
    requires font.bbox(0x41).Some? && font.bbox(0x42).Some?
    ensures var out := Layout(Rasterizer(Setup(font, Square(16), DefaultBackground, DefaultForeground)), [0x41, 0x42]);
      && |out.imgU8| == 512
      && |out.unicodeU32| == 8
      && |out.combined| == 520
      && out.combinedName == "img(0)-unicode(0x200).raw"
  {
    var s, cps := Setup(font, Square(16), DefaultBackground, DefaultForeground), [0x41 as CodePoint, 0x42];
    var render := Rasterizer(s);
    assert ValidSetup(s);
    assert Block(s, 0x41).Some? && Block(s, 0x42).Some?;
    assert render(cps[0]) == Block(s, 0x41) && render(cps[1]) == Block(s, 0x42);
    RenderedCount(render, cps);
    assert forall i :: 0 <= i < |cps| ==> render(cps[i]).Some?;
    assert Stride(s) == 256;
    PixelsLength(render, 256, cps);
    CombinedName512();
  }

  /** As written, one skipped code point is enough for the two streams to
      disagree: the code point stream holds more records than the pixel stream. */
  lemma SkipMisalignsStreams(render: Render, st: nat, cps: seq<CodePoint>, i: nat)
    requires Uniform(render, st) && st > 0
    requires i < |cps| && render(cps[i]).None?
    ensures var out := Layout(render, cps);
      |out.imgU8| / st < |out.unicodeU32| / 4
  {
    RenderedCount(render, cps);
    PixelsLength(render, st, cps);
    var n := |Rendered(render, cps)|;
    assert n < |cps|;
    CellIndex(st, n + 1, 0, n);
  }

  /** With no skipped code point, every requested code point is kept, in order. */
  lemma {:induction false} NoSkipKeepsAll(render: Render, cps: seq<CodePoint>)
    requires forall i :: 0 <= i < |cps| ==> render(cps[i]).Some?
    ensures Rendered(render, cps) == cps
  {
    if cps != [] {
      var init := cps[..|cps| - 1];
      NoSkipKeepsAll(render, init);
      assert cps == init + [cps[|cps| - 1]];
    }
  }

  /** As written, the two streams pair up when nothing is skipped: record k
      of the pixel stream is the image of the k-th requested code point, and
      record k of the code point stream reads back as that code point. */
  lemma NoSkipAligned(render: Render, st: nat, cps: seq<CodePoint>, k: nat)
    requires Uniform(render, st)
    requires forall i :: 0 <= i < |cps| ==> render(cps[i]).Some?
    requires k < |cps|
    ensures var out := Layout(render, cps);
      && 4 * k + 4 <= |out.unicodeU32|
      && (k + 1) * st <= |out.imgU8|
      && DecodeU32LE(out.unicodeU32[4 * k .. 4 * k + 4]) == cps[k] as int
      && BlockAt(out.imgU8, st, k) == render(cps[k]).value
  {
    NoSkipKeepsAll(render, cps);
    PixelsBlock(render, st, cps, k);
    CodeStreamAt(cps, k);
  }

  /** The layout with the streams kept aligned: only the code points whose
      image was written go into the code point stream. Both streams then hold
      one record per kept code point. */
  function AlignedLayout(render: Render, st: nat, cps: seq<CodePoint>): (out: Output)
    requires Uniform(render, st)
    ensures |out.unicodeU32| == 4 * |Rendered(render, cps)|
    ensures |out.imgU8| == |Rendered(render, cps)| * st
    ensures out.combined == out.imgU8 + out.unicodeU32
  {
    PixelsLength(render, st, cps);
    var pixels, codes := Pixels(render, cps), CodeStream(Rendered(render, cps));
    Output(pixels, codes, pixels + codes, CombinedName(|pixels|))
  }

  /** In the aligned layout the k-th image is the rendering of the k-th
      stored code point. */
  lemma AlignedRecords(render: Render, st: nat, cps: seq<CodePoint>, k: nat)
    requires Uniform(render, st)
    ensures var out := AlignedLayout(render, st, cps);
      k < |Rendered(render, cps)| ==>
        && 4 * k + 4 <= |out.unicodeU32|
        && (k + 1) * st <= |out.imgU8|
        && DecodeU32LE(out.unicodeU32[4 * k .. 4 * k + 4]) == Rendered(render, cps)[k] as int
        && render(Rendered(render, cps)[k]).Some?
        && BlockAt(out.imgU8, st, k) == render(Rendered(render, cps)[k]).value
  {
    if k < |Rendered(render, cps)| {
      RecordAt(render, st, cps, k);
    }
  }

  /** Record k of the kept code points, in the two streams. */
  lemma RecordAt(render: Render, st: nat, cps: seq<CodePoint>, k: nat)
    requires Uniform(render, st)
    requires k < |Rendered(render, cps)|
    ensures (k + 1) * st <= |Pixels(render, cps)|
    ensures DecodeU32LE(CodeStream(Rendered(render, cps))[4 * k .. 4 * k + 4]) == Rendered(render, cps)[k] as int
    ensures BlockAt(Pixels(render, cps), st, k) == render(Rendered(render, cps)[k]).value
  {
    PixelsBlock(render, st, cps, k);
    CodeStreamAt(Rendered(render, cps), k);
  }

}
