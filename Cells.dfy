/**
 * The partition of the luminance buffer into the output grid and the mean
 * luminance of each cell: the boundary arithmetic and the accumulation of
 * `computeAsciiArt` in vidtoascii.c, as functions.
 */
module Cells {

  import Arith
  import opened Pixels

  /**
   * First pixel of cell `b` along an axis of `extent` pixels cut into `count`
   * cells, `b*extent/count` rounded down. Cell `b` covers the half-open range
   * [CellStart(b), CellStart(b + 1)).
   */
  function CellStart(b: nat, extent: nat, count: nat): (s: nat)
    requires count >= 1
    // the boundary of a cell that exists never lies past the end of the axis
    ensures b <= count ==> s <= extent
  {
    if b <= count then
      Arith.MulMono(b, count, extent, extent);
      Arith.DivMono(b * extent, count * extent, count);
      Arith.DivModUnique(count * extent, count, extent, 0);
      b * extent / count
    else
      b * extent / count
  }

  /** The boundaries start at 0, end at `extent` and never go backwards, so consecutive cells share an edge. */
  lemma CellBoundsTile(extent: nat, count: nat, b1: nat, b2: nat)
    requires count >= 1 && b1 <= b2
    ensures CellStart(0, extent, count) == 0
    ensures CellStart(count, extent, count) == extent
    ensures CellStart(b1, extent, count) <= CellStart(b2, extent, count)
  {
    Arith.DivModUnique(count * extent, count, extent, 0);
    Arith.MulMono(b1, b2, extent, extent);
    Arith.DivMono(b1 * extent, b2 * extent, count);
  }

  /** The cell that contains pixel `p` of an axis. */
  function CellOf(p: nat, extent: nat, count: nat): (b: nat)
    requires count >= 1 && p < extent
    ensures b < count
    ensures CellStart(b, extent, count) <= p < CellStart(b + 1, extent, count)
  {
    CellOfBounds(p, extent, count);
    ((p + 1) * count - 1) / extent
  }

  lemma CellOfBounds(p: nat, extent: nat, count: nat)
    requires count >= 1 && p < extent
    ensures (p + 1) * count >= 1
    ensures var r := ((p + 1) * count - 1) / extent;
            r < count && r * extent / count <= p < (r + 1) * extent / count
  {
    Arith.MulMono(1, p + 1, 1, count);
    var x := (p + 1) * count - 1;
    CellOfParts(p, extent, count, x, x / extent, x % extent);
  }

  /** The same, with `x = (p + 1)*count - 1` already divided by `extent` into `r` and `e`. */
  lemma CellOfParts(p: nat, extent: nat, count: nat, x: nat, r: nat, e: nat)
    requires count >= 1 && p < extent && x + 1 == (p + 1) * count
    requires x == r * extent + e && e < extent
    ensures r < count && r * extent / count <= p < (r + 1) * extent / count
  {
    Arith.MulAddLeft(r, 1, extent);
    Arith.DivAtMost(r * extent, count, p);
    Arith.DivAtLeast((r + 1) * extent, count, p + 1);
    Arith.MulMono(p + 1, extent, count, count);
    Arith.MulLessCancel(r, count, extent);
  }

  /** Pixel `p` lies in cell `b` exactly when `b` is CellOf(p): no gaps and no overlaps along an axis. */
  lemma PixelInOneCell(p: nat, extent: nat, count: nat, b: nat)
    requires count >= 1 && p < extent && b < count
    ensures CellStart(b, extent, count) <= p < CellStart(b + 1, extent, count) <==> b == CellOf(p, extent, count)
  {
    var c := CellOf(p, extent, count);
    if b < c {
      CellBoundsTile(extent, count, b + 1, c);
    } else if b > c {
      CellBoundsTile(extent, count, c + 1, b);
    }
  }

  /** Pixel (x, y) lies in cell (col, row) of the grid. */
  predicate InCell(width: nat, height: nat, cols: nat, rows: nat, col: nat, row: nat, x: nat, y: nat)
    requires cols >= 1 && rows >= 1
  {
    CellStart(col, width, cols) <= x < CellStart(col + 1, width, cols) &&
    CellStart(row, height, rows) <= y < CellStart(row + 1, height, rows)
  }

  /** The cells tile the image: every pixel lies in one cell of the grid and in no other. */
  lemma {:induction false} PixelInExactlyOneCell(width: nat, height: nat, cols: nat, rows: nat, x: nat, y: nat)
    requires cols >= 1 && rows >= 1 && x < width && y < height
    ensures CellOf(x, width, cols) < cols && CellOf(y, height, rows) < rows
    ensures forall col: nat, row: nat :: col < cols && row < rows ==>
              (InCell(width, height, cols, rows, col, row, x, y) <==>
               col == CellOf(x, width, cols) && row == CellOf(y, height, rows))
  {
    forall col: nat, row: nat | col < cols && row < rows
      ensures InCell(width, height, cols, rows, col, row, x, y) <==>
              col == CellOf(x, width, cols) && row == CellOf(y, height, rows)
    {
      PixelInOneCell(x, width, cols, col);
      PixelInOneCell(y, height, rows, row);
    }
  }

  /**
   * Floor-division boundaries spread the remainder: every cell is `extent/count`
   * or `extent/count + 1` pixels long, and none is empty when `count <= extent`.
   */
  lemma CellSpanBalanced(b: nat, extent: nat, count: nat)
    requires count >= 1
    ensures extent / count <= CellStart(b + 1, extent, count) - CellStart(b, extent, count) <= extent / count + 1
    ensures count <= extent ==> CellStart(b, extent, count) < CellStart(b + 1, extent, count)
  {
    assert (b + 1) * extent == b * extent + extent;
    Arith.DivOfSum(b * extent, extent, count);
    if count <= extent {
      Arith.DivAtLeast(extent, count, 1);
    }
  }

  /** Any two cells along an axis differ in length by at most one pixel. */
  lemma CellSpansDifferByAtMostOne(b1: nat, b2: nat, extent: nat, count: nat)
    requires count >= 1
    ensures var s1 := CellStart(b1 + 1, extent, count) - CellStart(b1, extent, count);
            var s2 := CellStart(b2 + 1, extent, count) - CellStart(b2, extent, count);
            -1 <= s1 - s2 <= 1
  {
    CellSpanBalanced(b1, extent, count);
    CellSpanBalanced(b2, extent, count);
  }

  /** Sum of g[base + x] for x in [x0, x1), accumulated left to right. */
  function RowSum(g: seq<uint8>, base: nat, x0: nat, x1: nat): nat
    requires x0 <= x1 && base + x1 <= |g|
    decreases x1 - x0
  {
    if x1 == x0 then 0 else RowSum(g, base, x0, x1 - 1) + g[base + x1 - 1]
  }

  /** Sum of the luminance over rows [y0, y1) and columns [x0, x1) of a row-major buffer, row by row. */
  function RectSum(g: seq<uint8>, width: nat, y0: nat, y1: nat, x0: nat, x1: nat): (total: nat)
    requires y0 <= y1 && x0 <= x1 <= width && y1 * width <= |g|
    // a rectangle without rows or without columns holds no pixel and sums to 0
    ensures y0 == y1 || x0 == x1 ==> total == 0
    decreases y1 - y0
  {
    if y1 == y0 then 0
    else RectSum(g, width, y0, y1 - 1, x0, x1) + RowSum(g, (y1 - 1) * width, x0, x1)
  }

  /** Extending a rectangle by row `y` adds that row's sum. */
  lemma RectSumNext(g: seq<uint8>, width: nat, y0: nat, y: nat, x0: nat, x1: nat)
    requires y0 <= y && x0 <= x1 <= width && (y + 1) * width <= |g|
    ensures y * width + x1 <= (y + 1) * width
    ensures RectSum(g, width, y0, y + 1, x0, x1) == RectSum(g, width, y0, y, x0, x1) + RowSum(g, y * width, x0, x1)
  {
    PreviousRow(y + 1, width, x1);
  }

  /** Every pixel of row `y` in columns [x0, x1) has a luminance in [lo, hi]. */
  predicate RowWithin(g: seq<uint8>, width: nat, y: nat, x0: nat, x1: nat, lo: nat, hi: nat) {
    forall j :: y * width + x0 <= j < y * width + x1 && j < |g| ==> lo <= g[j] <= hi
  }

  /** Every pixel of the rectangle [y0, y1) x [x0, x1) has a luminance in [lo, hi]. */
  predicate RectWithin(g: seq<uint8>, width: nat, y0: nat, y1: nat, x0: nat, x1: nat, lo: nat, hi: nat) {
    forall y :: y0 <= y < y1 ==> RowWithin(g, width, y, x0, x1, lo, hi)
  }

  lemma {:induction false} RowSumBounds(g: seq<uint8>, width: nat, y: nat, x0: nat, x1: nat, lo: nat, hi: nat)
    requires x0 <= x1 && y * width + x1 <= |g|
    requires RowWithin(g, width, y, x0, x1, lo, hi)
    ensures lo * (x1 - x0) <= RowSum(g, y * width, x0, x1) <= hi * (x1 - x0)
    decreases x1 - x0
  {
    if x1 > x0 {
      var base := y * width;
      RowSumBounds(g, width, y, x0, x1 - 1, lo, hi);
      assert lo <= g[base + x1 - 1] <= hi;
      Arith.MulAddRight(lo, x1 - 1 - x0, 1);
      Arith.MulAddRight(hi, x1 - 1 - x0, 1);
    }
  }

  /** A rectangle whose pixels all lie in [lo, hi] has a sum between lo and hi times its pixel count. */
  lemma {:induction false} RectSumBounds(g: seq<uint8>, width: nat, y0: nat, y1: nat, x0: nat, x1: nat, lo: nat, hi: nat)
    requires y0 <= y1 && x0 <= x1 <= width && y1 * width <= |g|
    requires RectWithin(g, width, y0, y1, x0, x1, lo, hi)
    ensures lo * ((y1 - y0) * (x1 - x0)) <= RectSum(g, width, y0, y1, x0, x1) <= hi * ((y1 - y0) * (x1 - x0))
    decreases y1 - y0
  {
    if y1 > y0 {
      RectSumBounds(g, width, y0, y1 - 1, x0, x1, lo, hi);
      PreviousRow(y1, width, x1);
      RowSumBounds(g, width, y1 - 1, x0, x1, lo, hi);
      RectSumStep(g, width, y0, y1, x0, x1, lo, hi);
    }
  }

  /** The bounds for rows [y0, y1 - 1) and a last row within [lo, hi] give the bounds for rows [y0, y1). */
  lemma RectSumStep(g: seq<uint8>, width: nat, y0: nat, y1: nat, x0: nat, x1: nat, lo: nat, hi: nat)
    requires y0 < y1 && x0 <= x1 <= width && y1 * width <= |g|
    requires (y1 - 1) * width + x1 <= y1 * width
    requires lo * ((y1 - 1 - y0) * (x1 - x0)) <= RectSum(g, width, y0, y1 - 1, x0, x1) <= hi * ((y1 - 1 - y0) * (x1 - x0))
    requires lo * (x1 - x0) <= RowSum(g, (y1 - 1) * width, x0, x1) <= hi * (x1 - x0)
    ensures lo * ((y1 - y0) * (x1 - x0)) <= RectSum(g, width, y0, y1, x0, x1) <= hi * ((y1 - y0) * (x1 - x0))
  {
    BoundsStep(RectSum(g, width, y0, y1 - 1, x0, x1), RowSum(g, (y1 - 1) * width, x0, x1),
               y1 - 1 - y0, y1 - y0, x1 - x0, lo, hi);
  }

  lemma PreviousRow(y1: nat, width: nat, x1: nat)
    requires y1 >= 1 && x1 <= width
    ensures (y1 - 1) * width + x1 <= y1 * width
  {
  }

  /** Adding a row of `w` values in [lo, hi] to `k` such rows gives `k + 1` such rows. */
  lemma BoundsStep(rect: nat, row: nat, k: nat, k1: nat, w: nat, lo: nat, hi: nat)
    requires k1 == k + 1
    requires lo * (k * w) <= rect <= hi * (k * w) && lo * w <= row <= hi * w
    ensures lo * (k1 * w) <= rect + row <= hi * (k1 * w)
  {
    Arith.MulAddLeft(k, 1, w);
    Arith.MulAddRight(lo, k * w, w);
    Arith.MulAddRight(hi, k * w, w);
  }

  /** Truncating mean of `count` values summing to `total`; an empty cell has mean 0. */
  function CellMean(total: nat, count: nat): (mean: nat)
    ensures count == 0 ==> mean == 0
    ensures mean <= total
  {
    if count == 0 then 0
    else
      Arith.MulMono(1, count, total + 1, total + 1);
      Arith.DivAtMost(total, count, total);
      total / count
  }

  /** The truncating mean of values in [lo, hi] is again in [lo, hi]. */
  lemma MeanWithin(total: nat, count: nat, lo: nat, hi: nat)
    requires lo * count <= total <= hi * count
    ensures count >= 1 ==> lo <= CellMean(total, count) <= hi
  {
    if count >= 1 {
      Arith.DivAtLeast(total, count, lo);
      Arith.DivAtMost(total, count, hi);
    }
  }

  /** Pixel bounds [x0, x1) x [y0, y1) of cell (col, row). */
  datatype Rect = Rect(x0: nat, x1: nat, y0: nat, y1: nat) {
    function Area(): nat
      requires x0 <= x1 && y0 <= y1
    {
      (y1 - y0) * (x1 - x0)
    }
  }

  /** The rectangle of cell (col, row): rows [row*height/rows, (row+1)*height/rows), columns likewise. */
  function CellRect(width: nat, height: nat, cols: nat, rows: nat, col: nat, row: nat): (r: Rect)
    requires col < cols && row < rows
    ensures r.x0 <= r.x1 <= width && r.y0 <= r.y1 <= height
  {
    CellBoundsTile(width, cols, col, col + 1);
    CellBoundsTile(width, cols, col + 1, cols);
    CellBoundsTile(height, rows, row, row + 1);
    CellBoundsTile(height, rows, row + 1, rows);
    Rect(CellStart(col, width, cols), CellStart(col + 1, width, cols),
         CellStart(row, height, rows), CellStart(row + 1, height, rows))
  }

  /** The values a `uint32_t` holds: arithmetic on it is modulo this. */
  const Uint32Modulus: nat := 0x1_0000_0000

  /**
   * The density of cell (col, row): the sum of its pixels' luminance as the
   * 32-bit accumulator holds it (modulo 2^32), divided by the pixel count and
   * rounded down; 0 for a cell without pixels.
   */
  function CellDensity(g: seq<uint8>, width: nat, height: nat, cols: nat, rows: nat, col: nat, row: nat): (d: uint8)
    requires |g| == width * height && col < cols && row < rows
    // a cell without pixels has density 0
    ensures CellRect(width, height, cols, rows, col, row).Area() == 0 ==> d == 0
  {
    var r := CellRect(width, height, cols, rows, col, row);
    Arith.MulMono(r.y1, height, width, width);
    RectMeanByte(g, width, r.y0, r.y1, r.x0, r.x1);
    CellMean(RectSum(g, width, r.y0, r.y1, r.x0, r.x1) % Uint32Modulus, r.Area())
  }

  /** The mean of a rectangle's (possibly wrapped) luminance sum fits a byte. */
  lemma RectMeanByte(g: seq<uint8>, width: nat, y0: nat, y1: nat, x0: nat, x1: nat)
    requires y0 <= y1 && x0 <= x1 <= width && y1 * width <= |g|
    ensures CellMean(RectSum(g, width, y0, y1, x0, x1) % Uint32Modulus, (y1 - y0) * (x1 - x0)) <= 255
  {
    var total := RectSum(g, width, y0, y1, x0, x1);
    assert RectWithin(g, width, y0, y1, x0, x1, 0, 255);
    RectSumBounds(g, width, y0, y1, x0, x1, 0, 255);
    Arith.ModAtMost(total, Uint32Modulus);
    MeanWithin(total % Uint32Modulus, (y1 - y0) * (x1 - x0), 0, 255);
  }

  /** A rectangle of at most 2^32 / 255 pixels has a luminance sum the 32-bit accumulator holds exactly. */
  lemma NoWrap(g: seq<uint8>, width: nat, y0: nat, y1: nat, x0: nat, x1: nat)
    requires y0 <= y1 && x0 <= x1 <= width && y1 * width <= |g|
    requires (y1 - y0) * (x1 - x0) * 255 < Uint32Modulus
    ensures RectSum(g, width, y0, y1, x0, x1) % Uint32Modulus == RectSum(g, width, y0, y1, x0, x1)
  {
    assert RectWithin(g, width, y0, y1, x0, x1, 0, 255);
    RectSumBounds(g, width, y0, y1, x0, x1, 0, 255);
    Arith.ModAtMost(RectSum(g, width, y0, y1, x0, x1), Uint32Modulus);
  }

  /**
   * The density of a cell lies between any lower and any upper bound of the
   * luminance of its pixels, hence between their minimum and maximum; a cell
   * without pixels (only possible when cols > width or rows > height) has density 0.
   */
  lemma CellDensityWithin(g: seq<uint8>, width: nat, height: nat, cols: nat, rows: nat, col: nat, row: nat, lo: nat, hi: nat)
    requires |g| == width * height && col < cols && row < rows
    requires CellRect(width, height, cols, rows, col, row).Area() * 255 < Uint32Modulus
    requires var r := CellRect(width, height, cols, rows, col, row);
             RectWithin(g, width, r.y0, r.y1, r.x0, r.x1, lo, hi)
    ensures CellRect(width, height, cols, rows, col, row).Area() == 0 ==>
              CellDensity(g, width, height, cols, rows, col, row) == 0
    ensures CellRect(width, height, cols, rows, col, row).Area() >= 1 ==>
              lo <= CellDensity(g, width, height, cols, rows, col, row) <= hi
  {
    var r := CellRect(width, height, cols, rows, col, row);
    Arith.MulMono(r.y1, height, width, width);
    NoWrap(g, width, r.y0, r.y1, r.x0, r.x1);
    RectSumBounds(g, width, r.y0, r.y1, r.x0, r.x1, lo, hi);
    MeanWithin(RectSum(g, width, r.y0, r.y1, r.x0, r.x1), r.Area(), lo, hi);
  }

  /** In an image of uniform luminance `v` every cell with pixels has density exactly `v`. */
  lemma UniformCellDensity(g: seq<uint8>, width: nat, height: nat, cols: nat, rows: nat, col: nat, row: nat, v: uint8)
    requires |g| == width * height && col < cols && row < rows
    requires CellRect(width, height, cols, rows, col, row).Area() * 255 < Uint32Modulus
    requires forall j :: 0 <= j < |g| ==> g[j] == v
    ensures CellDensity(g, width, height, cols, rows, col, row) ==
              if CellRect(width, height, cols, rows, col, row).Area() == 0 then 0 else v
  {
    var r := CellRect(width, height, cols, rows, col, row);
    ConstantRectWithin(g, width, r.y0, r.y1, r.x0, r.x1, v);
    CellDensityWithin(g, width, height, cols, rows, col, row, v, v);
  }

  lemma ConstantRectWithin(g: seq<uint8>, width: nat, y0: nat, y1: nat, x0: nat, x1: nat, v: uint8)
    requires forall j :: 0 <= j < |g| ==> g[j] == v
    ensures RectWithin(g, width, y0, y1, x0, x1, v, v)
  {
  }
}
