/**
 * The character grid for a luminance buffer (`computeAsciiArt` in vidtoascii.c):
 * the specification as functions, and the four nested loops as methods.
 */
module Art {

  import Arith
  import opened Pixels
  import opened Cells
  import opened Glyphs

  /** The glyph of cell (col, row). */
  function CellGlyph(g: seq<uint8>, width: nat, height: nat, cols: nat, rows: nat, ramp: seq<char>, col: nat, row: nat): (c: char)
    requires |g| == width * height && |ramp| >= 1 && col < cols && row < rows
    ensures c in ramp
  {
    Glyph(CellDensity(g, width, height, cols, rows, col, row), ramp)
  }

  /** The glyphs of row `row` of the grid, left to right. */
  function ArtRow(g: seq<uint8>, width: nat, height: nat, cols: nat, rows: nat, ramp: seq<char>, row: nat): (line: seq<char>)
    requires |g| == width * height && |ramp| >= 1 && row < rows
    ensures |line| == cols
  {
    seq(cols, col requires 0 <= col < cols => CellGlyph(g, width, height, cols, rows, ramp, col, row))
  }

  /** The first `k` rows of the grid, row-major. */
  function ArtRows(g: seq<uint8>, width: nat, height: nat, cols: nat, rows: nat, ramp: seq<char>, k: nat): (grid: seq<char>)
    requires |g| == width * height && |ramp| >= 1 && k <= rows
    ensures |grid| == k * cols
  {
    if k == 0 then []
    else ArtRows(g, width, height, cols, rows, ramp, k - 1) + ArtRow(g, width, height, cols, rows, ramp, k - 1)
  }

  /** The whole character grid: `cols * rows` glyphs, row-major. */
  function AsciiArt(g: seq<uint8>, width: nat, height: nat, cols: nat, rows: nat, ramp: seq<char>): (art: seq<char>)
    requires |g| == width * height && |ramp| >= 1
    ensures |art| == cols * rows
  {
    ArtRows(g, width, height, cols, rows, ramp, rows)
  }

  /** Slot `row*cols + col` of the first `k` rows holds the glyph of cell (col, row). */
  lemma {:induction false} ArtRowsAt(g: seq<uint8>, width: nat, height: nat, cols: nat, rows: nat, ramp: seq<char>, k: nat, col: nat, row: nat)
    requires |g| == width * height && |ramp| >= 1 && k <= rows && col < cols && row < k
    ensures row * cols + col < k * cols
    ensures ArtRows(g, width, height, cols, rows, ramp, k)[row * cols + col] ==
            CellGlyph(g, width, height, cols, rows, ramp, col, row)
  {
    Arith.MulMono(row + 1, k, cols, cols);
    if row < k - 1 {
      ArtRowsAt(g, width, height, cols, rows, ramp, k - 1, col, row);
    } else {
      assert row * cols + col == (k - 1) * cols + col;
    }
  }

  /**
   * The grid is `cols * rows` long and slot `row*cols + col` holds the glyph of
   * cell (col, row), which is the ramp glyph for that cell's density.
   */
  lemma AsciiArtAt(g: seq<uint8>, width: nat, height: nat, cols: nat, rows: nat, ramp: seq<char>, col: nat, row: nat)
    requires |g| == width * height && |ramp| >= 1 && col < cols && row < rows
    ensures |AsciiArt(g, width, height, cols, rows, ramp)| == cols * rows
    ensures row * cols + col < cols * rows
    ensures AsciiArt(g, width, height, cols, rows, ramp)[row * cols + col] ==
            ramp[RampIndex(CellDensity(g, width, height, cols, rows, col, row), |ramp|)]
  {
    ArtRowsAt(g, width, height, cols, rows, ramp, rows, col, row);
  }

  /**
   * An image of uniform luminance `v` becomes a grid of one glyph, when every
   * cell has pixels or when `v` is 0 (cells without pixels count as 0).
   */
  lemma {:induction false} UniformArtRows(g: seq<uint8>, width: nat, height: nat, cols: nat, rows: nat, ramp: seq<char>, v: uint8, k: nat)
    requires |g| == width * height && |ramp| >= 1 && k <= rows
    requires forall j :: 0 <= j < |g| ==> g[j] == v
    requires v == 0 || (cols <= width && rows <= height)
    requires AccumulatorFits(width, height, cols, rows)
    ensures forall i :: 0 <= i < |ArtRows(g, width, height, cols, rows, ramp, k)| ==>
              ArtRows(g, width, height, cols, rows, ramp, k)[i] == ramp[RampIndex(v, |ramp|)]
  {
    if k > 0 {
      UniformArtRows(g, width, height, cols, rows, ramp, v, k - 1);
      var line := ArtRow(g, width, height, cols, rows, ramp, k - 1);
      forall col | 0 <= col < cols
        ensures line[col] == ramp[RampIndex(v, |ramp|)]
      {
        CellAreaFits(width, height, cols, rows, col, k - 1);
        UniformCellDensity(g, width, height, cols, rows, col, k - 1, v);
        if v != 0 {
          CellSpanBalanced(col, width, cols);
          CellSpanBalanced(k - 1, height, rows);
          var r := CellRect(width, height, cols, rows, col, k - 1);
          Arith.MulMono(1, r.y1 - r.y0, 1, r.x1 - r.x0);
        }
      }
    }
  }

  lemma UniformImageArt(g: seq<uint8>, width: nat, height: nat, cols: nat, rows: nat, ramp: seq<char>, v: uint8)
    requires |g| == width * height && |ramp| >= 1
    requires forall j :: 0 <= j < |g| ==> g[j] == v
    requires v == 0 || (cols <= width && rows <= height)
    requires AccumulatorFits(width, height, cols, rows)
    ensures |AsciiArt(g, width, height, cols, rows, ramp)| == cols * rows
    ensures forall i :: 0 <= i < cols * rows ==>
              AsciiArt(g, width, height, cols, rows, ramp)[i] == ramp[RampIndex(v, |ramp|)]
  {
    UniformArtRows(g, width, height, cols, rows, ramp, v, rows);
  }

  /**
   * The largest cell of a cols x rows grid has at most (height/rows + 1) *
   * (width/cols + 1) pixels; the source sums a cell in a `uint32_t`, which
   * cannot wrap when 255 times that many pixels fit in 32 bits.
   */
  predicate AccumulatorFits(width: nat, height: nat, cols: nat, rows: nat) {
    cols == 0 || rows == 0 || (height / rows + 1) * (width / cols + 1) * 255 < Uint32Modulus
  }

  lemma CellAreaFits(width: nat, height: nat, cols: nat, rows: nat, col: nat, row: nat)
    requires col < cols && row < rows && AccumulatorFits(width, height, cols, rows)
    ensures CellRect(width, height, cols, rows, col, row).Area() * 255 < Uint32Modulus
  {
    var r := CellRect(width, height, cols, rows, col, row);
    CellSpanBalanced(col, width, cols);
    CellSpanBalanced(row, height, rows);
    Arith.MulMono(r.y1 - r.y0, height / rows + 1, r.x1 - r.x0, width / cols + 1);
  }

  /**
   * The two inner loops of `computeAsciiArt` and the mean after them: sums the
   * luminance of the pixels in `r` row by row into a 32-bit accumulator (so
   * modulo 2^32), counts them, and returns the truncating mean, or 0 when `r`
   * holds no pixel. The mean always fits the `uint8_t` it is cast to.
   */
  method AverageDensity(gray: array<uint8>, width: nat, height: nat, r: Rect) returns (density: uint8)
    requires width * height <= gray.Length
    requires r.x0 <= r.x1 <= width && r.y0 <= r.y1 <= height
    ensures r.y1 * width <= width * height
    ensures density == CellMean(RectSum(gray[..width * height], width, r.y0, r.y1, r.x0, r.x1) % Uint32Modulus, r.Area())
  {
    ghost var g := gray[..width * height];
    Arith.MulMono(r.y1, height, width, width);
    var w := r.x1 - r.x0;
    var total: nat, count: nat := 0, 0;
    var y := r.y0;
    while y < r.y1
      invariant r.y0 <= y <= r.y1
      invariant count == (y - r.y0) * w
      invariant total == RectSum(g, width, r.y0, y, r.x0, r.x1) % Uint32Modulus
    {
      RowStep(y, width, height, r);
      RowAdded(g, width, r.y0, y, r.x0, r.x1, total);
      total, count := AccumulateRow(gray, width, height, y, r.x0, r.x1, total, count);
      y := y + 1;
    }
    MeanOfRect(g, width, r, total, count);
    density := 0;
    if count != 0 {
      density := total / count;
    }
  }

  /** The wrapped total of a whole rectangle divided by its pixel count is its density, a byte. */
  lemma MeanOfRect(g: seq<uint8>, width: nat, r: Rect, total: nat, count: nat)
    requires r.y0 <= r.y1 && r.x0 <= r.x1 <= width && r.y1 * width <= |g|
    requires total == RectSum(g, width, r.y0, r.y1, r.x0, r.x1) % Uint32Modulus
    requires count == (r.y1 - r.y0) * (r.x1 - r.x0)
    ensures CellMean(total, count) == CellMean(total, r.Area()) <= 255
  {
    RectMeanByte(g, width, r.y0, r.y1, r.x0, r.x1);
  }

  /**
   * The innermost loop of `computeAsciiArt`: adds the luminance of pixels
   * [x0, x1) of row `y` to the running 32-bit total, modulo 2^32, and counts them.
   */
  method AccumulateRow(gray: array<uint8>, width: nat, height: nat, y: nat, x0: nat, x1: nat, total: nat, count: nat)
    returns (total': nat, count': nat)
    requires width * height <= gray.Length
    requires x0 <= x1 && y * width + x1 <= width * height
    requires total < Uint32Modulus
    ensures total' == (total + RowSum(gray[..width * height], y * width, x0, x1)) % Uint32Modulus
    ensures count' == count + (x1 - x0)
  {
    ghost var g := gray[..width * height];
    var base := y * width;
    total', count' := total, count;
    Arith.ModAtMost(total, Uint32Modulus);
    var x := x0;
    while x < x1
      invariant x0 <= x <= x1
      invariant total' == (total + RowSum(g, base, x0, x)) % Uint32Modulus
      invariant count' == count + (x - x0)
    {
      var pixel := gray[base + x];
      AccumulateStep(g, base, x0, x, total, total', pixel);
      total' := (total' + pixel) % Uint32Modulus;
      count' := count' + 1;
      x := x + 1;
    }
  }

  /** Adding row `y` to the wrapped total of rows [y0, y) gives the wrapped total of rows [y0, y + 1). */
  lemma RowAdded(g: seq<uint8>, width: nat, y0: nat, y: nat, x0: nat, x1: nat, total: nat)
    requires y0 <= y && x0 <= x1 <= width && (y + 1) * width <= |g|
    requires total == RectSum(g, width, y0, y, x0, x1) % Uint32Modulus
    ensures y * width + x1 <= |g| && total < Uint32Modulus
    ensures (total + RowSum(g, y * width, x0, x1)) % Uint32Modulus == RectSum(g, width, y0, y + 1, x0, x1) % Uint32Modulus
  {
    RectSumNext(g, width, y0, y, x0, x1);
    Arith.ModAdd(RectSum(g, width, y0, y, x0, x1), RowSum(g, y * width, x0, x1), Uint32Modulus);
  }

  /** Adding pixel `x` to the wrapped running total wraps the sum that includes it. */
  lemma AccumulateStep(g: seq<uint8>, base: nat, x0: nat, x: nat, total: nat, acc: nat, pixel: uint8)
    requires x0 <= x && base + x < |g| && pixel == g[base + x]
    requires acc == (total + RowSum(g, base, x0, x)) % Uint32Modulus
    ensures (acc + pixel) % Uint32Modulus == (total + RowSum(g, base, x0, x + 1)) % Uint32Modulus
  {
    Arith.ModAdd(total + RowSum(g, base, x0, x), g[base + x], Uint32Modulus);
  }

  /** The density of a cell is the truncating mean of the 32-bit sum over its rectangle. */
  lemma CellDensityOfRect(g: seq<uint8>, width: nat, height: nat, cols: nat, rows: nat, col: nat, row: nat,
                          x0: nat, x1: nat, y0: nat, y1: nat)
    requires |g| == width * height && col < cols && row < rows
    requires x0 == CellStart(col, width, cols) && x1 == CellStart(col + 1, width, cols)
    requires y0 == CellStart(row, height, rows) && y1 == CellStart(row + 1, height, rows)
    ensures x0 <= x1 <= width && y0 <= y1 <= height && y1 * width <= |g|
    ensures CellDensity(g, width, height, cols, rows, col, row) ==
              CellMean(RectSum(g, width, y0, y1, x0, x1) % Uint32Modulus, Rect(x0, x1, y0, y1).Area())
  {
    var r := CellRect(width, height, cols, rows, col, row);
    Arith.MulMono(r.y1, height, width, width);
  }

  /** Slot `row*cols + col` of a cols x rows grid exists, and the next slot follows it. */
  lemma GridStep(row: nat, col: nat, cols: nat, rows: nat)
    requires row < rows && col <= cols
    ensures row * cols + col <= row * cols + cols == (row + 1) * cols <= cols * rows
  {
    Arith.MulMono(row + 1, rows, cols, cols);
  }

  /** Row `y` of `r` lies inside the buffer, and finishing it completes (y + 1 - y0) rows of the count. */
  lemma RowStep(y: nat, width: nat, height: nat, r: Rect)
    requires r.x0 <= r.x1 <= width && r.y0 <= y < r.y1 <= height
    ensures y * width + r.x1 <= (y + 1) * width <= r.y1 * width <= width * height
    ensures (y - r.y0) * (r.x1 - r.x0) + (r.x1 - r.x0) == (y + 1 - r.y0) * (r.x1 - r.x0)
  {
    Arith.MulMono(y + 1, r.y1, width, width);
    Arith.MulMono(r.y1, height, width, width);
    Arith.MulAddLeft(y - r.y0, 1, r.x1 - r.x0);
  }

  /** The slots `from`, `from + 1`, ... in that order. */
  predicate Consecutive(slots: seq<nat>, from: nat) {
    forall k :: 0 <= k < |slots| ==> slots[k] == from + k
  }

  lemma ConsecutiveAppend(a: seq<nat>, b: seq<nat>, from: nat)
    requires Consecutive(a, from) && Consecutive(b, from + |a|)
    ensures Consecutive(a + b, from)
  {
  }

  /**
   * `computeAsciiArt`: for each row of cells, top to bottom, stores the glyphs
   * of that row (see ComputeArtRow). `written` logs the slots in the order
   * they are stored.
   */
  method ComputeAsciiArt(gray: array<uint8>, width: nat, height: nat, cols: nat, rows: nat,
                         ramp: seq<char>, characterData: array<char>)
    returns (ghost written: seq<nat>)
    requires width * height <= gray.Length
    requires |ramp| >= 1
    requires cols * rows <= characterData.Length
    modifies characterData
    ensures characterData[..cols * rows] == AsciiArt(gray[..width * height], width, height, cols, rows, ramp)
    // slots 0, 1, ..., cols*rows - 1 are each written once, in that order, and nothing else is
    ensures |written| == cols * rows && Consecutive(written, 0)
    ensures characterData[cols * rows..] == old(characterData[cols * rows..])
  {
    ghost var g := gray[..width * height];
    ghost var orig := characterData[..];
    written := [];
    var row := 0;
    ghost var base := 0;
    while row < rows
      invariant row <= rows && base == row * cols && base <= cols * rows
      invariant characterData[..base] == ArtRows(g, width, height, cols, rows, ramp, row)
      invariant |written| == base && Consecutive(written, 0)
      invariant characterData[cols * rows..] == orig[cols * rows..]
    {
      GridStep(row, cols, cols, rows);
      ghost var before := characterData[..];
      ghost var slots := ComputeArtRow(gray, width, height, cols, rows, ramp, characterData, row);
      ArtRowStored(g, width, height, cols, rows, ramp, row, before, characterData[..], orig, base, cols * rows);
      ConsecutiveAppend(written, slots, 0);
      written := written + slots;
      row := row + 1;
      base := base + cols;
    }
    assert rows * cols == cols * rows;
  }

  /** Storing row `row` of the grid after the rows before it gives the first `row + 1` rows. */
  lemma ArtRowStored(g: seq<uint8>, width: nat, height: nat, cols: nat, rows: nat, ramp: seq<char>, row: nat,
                     before: seq<char>, after: seq<char>, orig: seq<char>, base: nat, n: nat)
    requires |g| == width * height && |ramp| >= 1 && row < rows
    requires |before| == |after| == |orig| && base + cols <= n <= |orig|
    requires before[..base] == ArtRows(g, width, height, cols, rows, ramp, row) && before[n..] == orig[n..]
    requires after[base..base + cols] == ArtRow(g, width, height, cols, rows, ramp, row)
    requires after[..base] == before[..base] && after[base + cols..] == before[base + cols..]
    ensures after[..base + cols] == ArtRows(g, width, height, cols, rows, ramp, row + 1)
    ensures after[n..] == orig[n..]
  {
    RowStored(before, after, orig, ArtRows(g, width, height, cols, rows, ramp, row),
              ArtRow(g, width, height, cols, rows, ramp, row), base, cols, n);
  }

  /**
   * Storing `line` in slots [base, base + cols) of a buffer whose first `base`
   * slots hold `done` extends that prefix to `done + line` and leaves the slots
   * from `n` on as they were.
   */
  lemma RowStored(before: seq<char>, after: seq<char>, orig: seq<char>, done: seq<char>, line: seq<char>,
                  base: nat, cols: nat, n: nat)
    requires |before| == |after| == |orig| && base + cols <= n <= |orig|
    requires before[..base] == done && before[n..] == orig[n..]
    requires after[base..base + cols] == line
    requires after[..base] == before[..base] && after[base + cols..] == before[base + cols..]
    ensures after[..base + cols] == done + line && after[n..] == orig[n..]
  {
    assert after[..base + cols] == after[..base] + after[base..base + cols];
    assert after[n..] == after[base + cols..][n - base - cols..];
    assert before[n..] == before[base + cols..][n - base - cols..];
  }

  /**
   * One pass of the outer loop of `computeAsciiArt`: the pixel rows of cell row
   * `row`, then for each cell of it, left to right, the cell's truncating mean
   * (0 for an empty cell) and its glyph stored in slot `row*cols + col`.
   */
  method ComputeArtRow(gray: array<uint8>, width: nat, height: nat, cols: nat, rows: nat,
                       ramp: seq<char>, characterData: array<char>, row: nat)
    returns (ghost written: seq<nat>)
    requires width * height <= gray.Length
    requires |ramp| >= 1
    requires row < rows && (row + 1) * cols <= characterData.Length
    modifies characterData
    ensures row * cols + cols == (row + 1) * cols
    ensures characterData[row * cols .. (row + 1) * cols] == ArtRow(gray[..width * height], width, height, cols, rows, ramp, row)
    ensures characterData[..row * cols] == old(characterData[..row * cols])
    ensures characterData[(row + 1) * cols..] == old(characterData[(row + 1) * cols..])
    ensures |written| == cols && Consecutive(written, row * cols)
  {
    ghost var g := gray[..width * height];
    ghost var line := ArtRow(g, width, height, cols, rows, ramp, row);
    ghost var base := row * cols;
    Arith.MulAddLeft(row, 1, cols);
    written := [];
    var startY := CellStart(row, height, rows);
    var endY := CellStart(row + 1, height, rows);
    var col := 0;
    while col < cols
      invariant col <= cols
      invariant characterData[base .. base + col] == line[..col]
      invariant characterData[..base] == old(characterData[..base])
      invariant characterData[base + cols..] == old(characterData[base + cols..])
      invariant |written| == col && Consecutive(written, base)
    {
      ghost var before := characterData[..];
      ghost var slot := ComputeCell(gray, width, height, cols, rows, ramp, characterData, row, col, startY, endY);
      CellStored(before, characterData[..], line, base, col, cols);
      written := written + [slot];
      col := col + 1;
    }
    assert line[..cols] == line;
  }

  /** Storing `line[col]` in slot `base + col` extends the stored part of `line` by one and changes no other slot. */
  lemma CellStored(before: seq<char>, after: seq<char>, line: seq<char>, base: nat, col: nat, cols: nat)
    requires col < cols == |line| && base + cols <= |before|
    requires before[base..base + col] == line[..col]
    requires after == before[base + col := line[col]]
    ensures after[base..base + col + 1] == line[..col + 1]
    ensures after[..base] == before[..base] && after[base + cols..] == before[base + cols..]
  {
    assert after[base..base + col + 1] == before[base..base + col] + [line[col]];
    assert line[..col + 1] == line[..col] + [line[col]];
  }

  /**
   * One pass of the middle loop of `computeAsciiArt`: the pixel columns of cell
   * (col, row), the cell's truncating mean, and its glyph stored in slot
   * `row*cols + col`; nothing else changes.
   */
  method ComputeCell(gray: array<uint8>, width: nat, height: nat, cols: nat, rows: nat,
                     ramp: seq<char>, characterData: array<char>, row: nat, col: nat, startY: nat, endY: nat)
    returns (ghost slot: nat)
    requires width * height <= gray.Length
    requires |ramp| >= 1
    requires col < cols && row < rows && row * cols + col < characterData.Length
    requires startY == CellStart(row, height, rows) && endY == CellStart(row + 1, height, rows)
    modifies characterData
    ensures slot == row * cols + col
    ensures characterData[..] ==
            old(characterData[..])[slot := CellGlyph(gray[..width * height], width, height, cols, rows, ramp, col, row)]
  {
    slot := row * cols + col;
    ghost var g := gray[..width * height];
    var startX := CellStart(col, width, cols);
    var endX := CellStart(col + 1, width, cols);
    CellDensityOfRect(g, width, height, cols, rows, col, row, startX, endX, startY, endY);
    var density := AverageDensity(gray, width, height, Rect(startX, endX, startY, endY));
    SelectAsciiCharacter(density, ramp, characterData, row * cols + col);
  }
}
