/**
 * The processing part of `main` in vidtoascii.c: the grid size derived from the
 * image, the fixed ramp, and the three stages run one after the other.
 */
module Render {

  import Arith
  import opened Pixels
  import opened Cells
  import opened Glyphs
  import opened Art
  import opened Display

  /** Source pixels per character column (the SCALEX macro). */
  const ScaleX: nat := 10

  /**
   * The grid `main` computes: width / SCALEX columns, and rows from
   * `img.height/SCALEY`, which the unparenthesised macro expands to
   * `img.height / 10 * 0.56`, truncated to an int. Neither count is raised to 1.
   */
  function GridSize(width: nat, height: nat): (grid: (nat, nat))
    // as many columns as whole runs of SCALEX pixels fit in the width
    ensures ScaleX * grid.0 <= width < ScaleX * (grid.0 + 1)
    // as many rows as whole units of 100 fit in 56 times the height in tens of pixels
    ensures 100 * grid.1 <= 56 * (height / ScaleX) < 100 * (grid.1 + 1)
  {
    (width / ScaleX, (height / ScaleX) * 56 / 100)
  }

  /**
   * The grid `main` derives never has more cells than pixels along an axis, so
   * every cell holds pixels, and no cell is larger than 20 x 46 pixels, so the
   * 32-bit per-cell sum can never wrap.
   */
  lemma GridSizeFits(width: nat, height: nat)
    ensures GridSize(width, height).0 <= width && GridSize(width, height).1 <= height
    ensures AccumulatorFits(width, height, GridSize(width, height).0, GridSize(width, height).1)
  {
    var (cols, rows) := GridSize(width, height);
    if cols >= 1 && rows >= 1 {
      var h10 := height / ScaleX;
      assert width == 10 * cols + width % 10;
      Arith.DivAtMost(width, cols, 19);
      assert height == 10 * h10 + height % 10;
      assert 56 * h10 == 100 * rows + (56 * h10) % 100;
      Arith.DivAtMost(height, rows, 45);
      Arith.MulMono(height / rows + 1, 46, width / cols + 1, 20);
    }
  }

  /**
   * The text the processing in `main` writes for the decoded image `img`:
   * `rows` lines of `cols` glyphs, each line ended by a newline.
   */
  function RenderedText(img: Image): (text: seq<char>)
    requires img.WellFormed()
    ensures |text| == GridSize(img.width, img.height).1 * (GridSize(img.width, img.height).0 + 1)
  {
    var cols := GridSize(img.width, img.height).0;
    var rows := GridSize(img.width, img.height).1;
    var gray := Grayscale(img.data, img.channels, img.PixelCount());
    Layout(AsciiArt(gray, img.width, img.height, cols, rows, GrayRamp), cols, rows)
  }

  /**
   * The processing in `main` for the decoded image `img`: allocates the
   * luminance and character buffers, runs the three stages and returns the
   * text `printAsciiArt` writes.
   */
  method RenderImage(img: Image) returns (text: seq<char>)
    requires img.WellFormed()
    ensures text == RenderedText(img)
  {
    var outputCharCountXAxis := img.width / ScaleX;
    var outputCharCountYAxis := (img.height / ScaleX) * 56 / 100;
    ghost var gray := Grayscale(img.data, img.channels, img.PixelCount());
    ghost var art := AsciiArt(gray, img.width, img.height, outputCharCountXAxis, outputCharCountYAxis, GrayRamp);
    var grayscaleData := new uint8[img.width * img.height];
    var characterData := new char[outputCharCountXAxis * outputCharCountYAxis];
    PixelsToGrayscale(img, grayscaleData);
    assert grayscaleData[..img.width * img.height] == gray;
    ghost var written := ComputeAsciiArt(grayscaleData, img.width, img.height,
                                         outputCharCountXAxis, outputCharCountYAxis, GrayRamp, characterData);
    assert characterData[..] == art;
    text := PrintAsciiArt(characterData, outputCharCountXAxis, outputCharCountYAxis);
  }

  /** An image whose every byte is `v` (a gray of value v, any alpha equal too) has luminance `v` everywhere. */
  lemma {:induction false} UniformGrayscale(data: seq<uint8>, channels: nat, n: nat, v: uint8)
    requires channels >= 3 && n * channels <= |data|
    requires forall j :: 0 <= j < |data| ==> data[j] == v
    ensures forall i :: 0 <= i < n ==> Grayscale(data, channels, n)[i] == v
  {
    forall i | 0 <= i < n
      ensures Grayscale(data, channels, n)[i] == v
    {
      UniformPixel(data, channels, n, v, i);
    }
  }

  lemma UniformPixel(data: seq<uint8>, channels: nat, n: nat, v: uint8, i: nat)
    requires channels >= 3 && n * channels <= |data| && i < n
    requires forall j :: 0 <= j < |data| ==> data[j] == v
    ensures Grayscale(data, channels, n)[i] == v
  {
    GrayscaleAt(data, channels, n, i);
    GrayPixel(data, channels, i, v);
  }

  lemma GrayPixel(data: seq<uint8>, channels: nat, i: nat, v: uint8)
    requires i * channels + 2 < |data|
    requires forall j :: 0 <= j < |data| ==> data[j] == v
    ensures Lum(data[i * channels], data[i * channels + 1], data[i * channels + 2]) == v
  {
    var p := i * channels;
    assert data[p] == v && data[p + 1] == v && data[p + 2] == v;
  }

  /** The ramp runs from blank for density 0 to '$' for density 255. */
  lemma GrayRampEnds()
    ensures |GrayRamp| == 8
    ensures Glyph(0, GrayRamp) == ' ' && Glyph(255, GrayRamp) == '$'
  {
  }

  /**
   * An image narrower than SCALEX pixels gets no columns; `main` still prints
   * one newline per row, so the text is `rows` empty lines.
   */
  lemma NarrowImageText(img: Image)
    requires img.WellFormed() && img.width < ScaleX
    ensures GridSize(img.width, img.height).0 == 0
    ensures RenderedText(img) == seq(GridSize(img.width, img.height).1, _ => '\n')
  {
    var rows := GridSize(img.width, img.height).1;
    var gray := Grayscale(img.data, img.channels, img.PixelCount());
    var art := AsciiArt(gray, img.width, img.height, 0, rows, GrayRamp);
    ZeroColumnLayout(art, rows);
  }

  /** With the ramp " .:~+*#$", density 128 selects index round(128/255 * 7) = 4, the glyph '+'. */
  lemma MidGrayGlyph()
    ensures RampIndex(128, |GrayRamp|) == 4 && Glyph(128, GrayRamp) == '+'
  {
  }

  /**
   * End to end: an image whose every byte is `v` is rendered as `rows` lines of
   * `cols` copies of one glyph, the ramp glyph for `v`; for v = 128 that glyph is '+'.
   */
  lemma UniformImageText(img: Image, v: uint8, y: nat, x: nat)
    requires img.WellFormed()
    requires forall j :: 0 <= j < |img.data| ==> img.data[j] == v
    requires y < GridSize(img.width, img.height).1 && x < GridSize(img.width, img.height).0
    ensures var cols := GridSize(img.width, img.height).0;
            y * (cols + 1) + x < |RenderedText(img)| &&
            RenderedText(img)[y * (cols + 1) + x] == Glyph(v, GrayRamp) &&
            y * (cols + 1) + cols < |RenderedText(img)| &&
            RenderedText(img)[y * (cols + 1) + cols] == '\n'
    ensures v == 128 ==> Glyph(v, GrayRamp) == '+'
  {
    var cols := GridSize(img.width, img.height).0;
    var rows := GridSize(img.width, img.height).1;
    var gray := Grayscale(img.data, img.channels, img.PixelCount());
    UniformGrayscale(img.data, img.channels, img.PixelCount(), v);
    GridSizeFits(img.width, img.height);
    UniformImageArt(gray, img.width, img.height, cols, rows, GrayRamp, v);
    var art := AsciiArt(gray, img.width, img.height, cols, rows, GrayRamp);
    UniformLayout(art, cols, rows, Glyph(v, GrayRamp), y, x);
    assert RenderedText(img) == Layout(art, cols, rows);
  }
}
