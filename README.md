# vidtoascii: image to ASCII art, modelled in Dafny

`vidtoascii.c` turns a decoded image into a grid of characters in three
stages over flat buffers:

1. `pixelsToGrayscale` walks the interleaved pixel buffer with stride
   `channels` and writes one luminance byte per pixel.
2. `computeAsciiArt` cuts the `width x height` luminance buffer into an
   `outputCharCountXAxis x outputCharCountYAxis` grid. Cell boundaries come
   from floor division (`b*extent/count`). For each cell it:
   - sums the pixels into a `uint32_t`;
   - takes the truncating mean, or 0 for a cell without pixels;
   - has `selectAsciiCharacter` store the ramp glyph for that mean in slot
     `blocky*cols + blockx`.
3. `printAsciiArt` writes the grid row by row, each row followed by a
   newline.

`main` derives the grid from the image size, with `SCALEX = 10` and
`SCALEY = SCALEX*0.56`, and uses the ramp `" .:~+*#$"`.

The model has one module per concern:

- `Pixels`: the image, the luminance of a pixel, and `PixelsToGrayscale`, a
  method over an `array`.
- `Cells`: cell boundaries, their tiling, rectangle sums and means, as
  functions and lemmas.
- `Glyphs`: the ramp index and `SelectAsciiCharacter`.
- `Art`: the grid as a function, and the nested loops of `computeAsciiArt`
  as methods that fill an `array<char>`.
- `Display`: the printed text as a `seq<char>`, and `PrintAsciiArt`.
- `Render`: the grid size of `main` and the whole pipeline.
- `Arith`: facts about division and remainders.

The methods follow the source's loops. Each method is proved against a
specification function:

- `PixelsToGrayscale` against `Grayscale`;
- `ComputeAsciiArt` against `AsciiArt`;
- `PrintAsciiArt` against `Layout`;
- `RenderImage` against `RenderedText`.

Lemmas then prove what the source promises about those functions.

The 32-bit cell accumulator is modelled as it is written: every addition
is taken modulo 2^32, so a cell density is the mean of the wrapped sum.
Two results keep this honest:

- The bounds and uniform-image results about a cell hold whenever the cell
  has fewer than 2^32/255 pixels.
- `Render.GridSizeFits` proves that the grid `main` computes always meets
  that bound, because no cell is larger than 20 x 46 pixels.

`img.height/SCALEY` expands to `img.height/10*0.56`, which is then
truncated to an `int`. The model computes it as `(height/10)*56/100`. These
agree: the double nearest 0.56 lies above 0.56, so the product never falls
below an integer that the exact product reaches.

The code does not raise either grid count to at least 1, and the model
follows the code. A grid with no rows prints nothing. An image narrower
than 10 pixels gets no columns, and each of its rows prints as a bare
newline.

## Model

| member | source | states |
|---|---|---|
| Pixels.Lum | vidtoascii.c:88-91 | the luminance is 0.21 R + 0.72 G + 0.07 B rounded to nearest; it lies between the darkest and brightest channel; gray input maps to itself |
| Pixels.Grayscale | vidtoascii.c:84-94 | converting `n` pixels gives exactly `n` luminance bytes |
| Pixels.GrayscaleAt | vidtoascii.c:84-94 | output `i` of the conversion is the luminance of bytes `i*channels`, `i*channels+1`, `i*channels+2`, which lie inside the buffer |
| Pixels.ExtraChannelsIgnored | vidtoascii.c:86-92 | two buffers that agree on channel positions 0, 1, 2 of every pixel give the same luminance buffer: alpha and further channels never matter |
| Pixels.PixelsToGrayscale | vidtoascii.c:84-94 | the pointer walk writes exactly the first `width*height` slots, slot `i` with pixel `i`'s luminance, and leaves the rest of the buffer unchanged |
| Cells.CellBoundsTile | vidtoascii.c:111-117 | cell boundaries start at 0, end at the image extent and never decrease, so each cell ends where the next starts |
| Cells.CellOf | vidtoascii.c:111-117 | every pixel of an axis has a cell index below the count whose half-open range contains it |
| Cells.PixelInOneCell | vidtoascii.c:111-117 | a pixel lies in cell `b` if and only if `b` is its cell: no gaps and no overlaps along an axis |
| Cells.PixelInExactlyOneCell | vidtoascii.c:111-117 | every pixel (x, y) of the image lies in exactly one cell of the grid |
| Cells.CellSpanBalanced | vidtoascii.c:112-117 | every cell is `extent/count` or `extent/count + 1` pixels long, and no cell is empty when `count <= extent` |
| Cells.CellSpansDifferByAtMostOne | vidtoascii.c:112-117 | any two cells along an axis differ in length by at most one pixel |
| Cells.CellStart | vidtoascii.c:112-117 | the boundary of a cell that exists (index at most the count) never lies past the end of the axis |
| Cells.RectSum | vidtoascii.c:123-128 | a rectangle with no rows or no columns sums to 0 |
| Cells.RowSumBounds | vidtoascii.c:124-127 | a row segment whose pixels all lie in [lo, hi] sums to between lo and hi times its length |
| Cells.RectSumBounds | vidtoascii.c:122-128 | a rectangle whose pixels all lie in [lo, hi] sums to between lo and hi times its pixel count |
| Cells.CellMean | vidtoascii.c:131-135 | a cell without pixels has mean 0, and the truncating mean never exceeds the total |
| Cells.MeanWithin | vidtoascii.c:131-135 | the truncating mean of values in [lo, hi] lies in [lo, hi] |
| Cells.CellRect | vidtoascii.c:111-117 | the rectangle of a cell lies inside the image |
| Cells.RectMeanByte | vidtoascii.c:119-135 | the mean of a rectangle's 32-bit (wrapped) sum never exceeds 255, so the `uint8_t` cast loses nothing |
| Cells.NoWrap | vidtoascii.c:119-128 | a rectangle of fewer than 2^32/255 pixels has a sum the 32-bit accumulator holds exactly |
| Cells.CellDensity | vidtoascii.c:119-135 | the density is a byte, and a cell whose rectangle has no pixels has density 0 |
| Cells.CellDensityWithin | vidtoascii.c:119-135 | a cell that fits the accumulator has a density between any bounds of its pixels, hence between their minimum and maximum; a cell without pixels has density 0 |
| Cells.UniformCellDensity | vidtoascii.c:123-134 | in an image of uniform luminance `v`, every cell with pixels has density exactly `v` and an empty cell has 0 |
| Glyphs.RampIndex | vidtoascii.c:73-74 | the ramp index is at most `N-1`; density 0 gives index 0 and density 255 gives `N-1` |
| Glyphs.RampIndexNearest | vidtoascii.c:74 | the integer formula is `round(density/255 * (N-1))`: it is less than half a step from that value and every other integer is more than half a step away, so no tie arises |
| Glyphs.RampIndexMonotone | vidtoascii.c:74 | a denser cell never gets an earlier (sparser) glyph |
| Glyphs.Glyph | vidtoascii.c:73-75 | the chosen glyph is always a character of the ramp |
| Glyphs.SelectAsciiCharacter | vidtoascii.c:71-76 | stores the ramp glyph for the density in slot `charIndex` and changes no other slot |
| Art.CellGlyph | vidtoascii.c:139 | the glyph stored for a cell is always a character of the ramp |
| Art.ArtRow | vidtoascii.c:115-140 | one grid row has exactly `cols` characters |
| Art.ArtRows | vidtoascii.c:111-141 | the first `k` grid rows together have `k*cols` characters |
| Art.AsciiArt | vidtoascii.c:107-142 | the grid has exactly `cols*rows` characters, the size `main` allocates |
| Art.ArtRowsAt | vidtoascii.c:111-139 | in the first `k` grid rows, slot `row*cols + col` exists and holds the glyph of cell (col, row) |
| Art.AsciiArtAt | vidtoascii.c:107-142 | the grid has `cols*rows` slots, and slot `row*cols + col` holds the ramp glyph for the density of cell (col, row) |
| Art.UniformImageArt | vidtoascii.c:107-142 | an image of uniform luminance `v` becomes a grid of one glyph, the ramp glyph for `v`, whenever every cell has pixels or `v` is 0 |
| Art.CellAreaFits | vidtoascii.c:112-119 | under `AccumulatorFits`, every cell has fewer than 2^32/255 pixels |
| Art.AverageDensity | vidtoascii.c:119-135 | the two pixel loops and the division return the cell mean of the wrapped sum over the rectangle, 0 for an empty one |
| Art.AccumulateRow | vidtoascii.c:124-127 | the innermost loop adds the row's pixels to the running total modulo 2^32 and counts them |
| Art.RowAdded | vidtoascii.c:123-128 | adding a pixel row to the wrapped total of the rows before gives the wrapped total with that row |
| Art.AccumulateStep | vidtoascii.c:125 | adding one pixel to the wrapped running total wraps the sum that includes it |
| Art.MeanOfRect | vidtoascii.c:130-135 | the wrapped total divided by the pixel count is the cell's density and fits a byte |
| Art.CellDensityOfRect | vidtoascii.c:112-117 | the bounds the loops compute for cell (col, row) lie inside the image, and the cell's density is the mean over exactly that rectangle |
| Art.ComputeCell | vidtoascii.c:115-140 | one pass of the middle loop stores cell (col, row)'s glyph in slot `row*cols + col` and nothing else, and reports that slot |
| Art.ComputeArtRow | vidtoascii.c:111-140 | one pass of the outer loop fills slots `[row*cols, (row+1)*cols)` with grid row `row`, in order, each once, and leaves the rest of the buffer alone |
| Art.ComputeAsciiArt | vidtoascii.c:107-142 | the buffer's first `cols*rows` slots become the grid; slots 0 to `cols*rows - 1` are each written exactly once, in order; nothing past them changes |
| Display.Layout | vidtoascii.c:52-60 | the text of a cols x rows grid has `rows*(cols+1)` characters |
| Display.LayoutAt | vidtoascii.c:52-60 | position `y*(cols+1) + x` of the text is grid slot `y*cols + x` for `x < cols`, and the newline ending line `y` for `x == cols` |
| Display.LayoutPrefixes | vidtoascii.c:52-60 | the text of the first `k` lines is a prefix of the whole text: later lines never change earlier output |
| Display.ZeroColumnLayout | vidtoascii.c:52-60 | a grid with no columns prints as one bare newline per row |
| Display.UniformLayout | vidtoascii.c:52-60 | a grid of one glyph prints as lines of that glyph, each ended by a newline |
| Display.PrintAsciiArt | vidtoascii.c:49-61 | the emit loops produce exactly the layout of the character buffer |
| Render.GridSize | vidtoascii.c:160-161 | the column count is the number of whole runs of 10 pixels in the width; the row count is the largest `r` with `100*r <= 56*(height/10)` |
| Render.GridSizeFits | vidtoascii.c:160-161 | the grid `main` computes never has more cells than pixels along an axis, and no cell can make the 32-bit sum wrap |
| Render.RenderedText | vidtoascii.c:160-187 | the text for an image has `rows` lines of `cols + 1` characters for the grid `main` derives |
| Render.RenderImage | vidtoascii.c:160-187 | running the three stages on fresh buffers of `main`'s sizes yields exactly the rendered text |
| Render.UniformGrayscale | vidtoascii.c:84-94 | an image whose every byte is `v` has luminance `v` at every pixel |
| Render.GrayRampEnds | vidtoascii.c:177 | `main`'s ramp has 8 glyphs; density 0 selects ' ' and density 255 selects '$' |
| Render.NarrowImageText | vidtoascii.c:160-187 | an image narrower than 10 pixels gets no columns, and its text is one newline per grid row |
| Render.MidGrayGlyph | vidtoascii.c:177 | with `main`'s ramp, density 128 selects index 4, the glyph '+' |
| Render.UniformImageText | vidtoascii.c:160-187 | an image whose every byte is `v` prints as lines made only of the ramp glyph for `v`, each ended by a newline; for v = 128 that glyph is '+' |

## Left out

- `loadImage` and the stb decoder are not modelled: they are a foreign
  library.
  - The image is a value with `channels >= 3` whose buffer holds at least
    `width*height*channels` bytes.
  - `loadImage` overwrites `channels` with 3 whatever the decoder
    returned. For a four-channel file the buffer is longer than the stride
    says. The model walks it with stride 3 as the code does, so pixels
    after the first are read misaligned.
  - For a one- or two-channel file the code reads past the end of the
    buffer. The model does not cover that case: `WellFormed` requires
    `channels >= 3` and a buffer of at least `width*height*channels` bytes.
- Pixels.Lum: the luminance uses the double weights 0.21/0.72/0.07 and
  `round`. The model uses the integer formula `(21R + 72G + 7B + 50) / 100`,
  which is exact arithmetic on the decimal weights. It can differ from the
  double computation by one where the weighted sum is exactly a half.
- Render.GridSize: `SCALEY` is double arithmetic. The model uses the
  integer `(height/10)*56/100`, which agrees as argued above. Heights above
  2^53 are not considered.
- `printf` output is not modelled; the printed characters are returned as
  a sequence.
- `malloc`, `free` and the allocation-failure exit in `main` are left out.
  The buffers are `new` arrays.
- Video decoding and frame pacing do not appear in the code, so there is
  nothing to model.
- Integer widths are not modelled:
  - `int` overflow in `width*height*channels` and in the grid product;
  - `size_t` overflow in `blocky*height` and the other boundary products;
  - wrap-around of `size_t` index arithmetic.
  The model's integers are unbounded. Only the `uint32_t` cell accumulator
  wraps, and only where it does in the code.
- Glyphs.SelectAsciiCharacter: requires a non-empty ramp. For an empty
  ramp, `rampSize - 1` wraps in `size_t` and the code reads out of bounds.
  `strlen`'s scan for the terminating NUL is the length of the sequence.
- Cells.CellDensityWithin, Cells.UniformCellDensity, Art.UniformImageArt:
  stated only for cells below 2^32/255 pixels, the range where the 32-bit
  sum cannot wrap. `Render.GridSizeFits` shows that `main`'s grid is
  always in that range.
- The nested loops of `computeAsciiArt` are split into methods:
  - `ComputeArtRow`: the outer loop body;
  - `ComputeCell`: the middle loop body;
  - `AverageDensity`: the two pixel loops;
  - `AccumulateRow`: the innermost loop.

  The statements and their order are those of the code.
