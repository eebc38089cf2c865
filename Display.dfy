/**
 * The text layout of the character grid (`printAsciiArt` in vidtoascii.c):
 * each `printf` of the source appends to the produced text instead.
 */
module Display {

  import Arith

  /** The text of a cols x rows grid: row y is chars[y*cols .. y*cols + cols) followed by one newline. */
  function Layout(chars: seq<char>, cols: nat, rows: nat): (text: seq<char>)
    requires cols * rows <= |chars|
    ensures |text| == rows * (cols + 1)
  {
    if rows == 0 then []
    else
      Arith.MulMono(rows - 1, rows, cols, cols);
      Layout(chars, cols, rows - 1) + chars[(rows - 1) * cols .. rows * cols] + ['\n']
  }

  /**
   * Position y*(cols + 1) + x of the text is grid slot y*cols + x for x < cols,
   * and the newline ending line y for x == cols.
   */
  lemma LayoutAt(chars: seq<char>, cols: nat, rows: nat, y: nat, x: nat)
    requires cols * rows <= |chars| && y < rows && x <= cols
    ensures y * (cols + 1) + x < |Layout(chars, cols, rows)|
    ensures x < cols ==> y * cols + x < |chars|
    ensures x < cols ==> Layout(chars, cols, rows)[y * (cols + 1) + x] == chars[y * cols + x]
    ensures x == cols ==> Layout(chars, cols, rows)[y * (cols + 1) + x] == '\n'
  {
    LineBounds(y, rows, cols);
    LastLineAt(chars, cols, y + 1, x);
    LayoutPrefixes(chars, cols, rows, y + 1, y * (cols + 1) + x);
  }

  /** A grid of one glyph `c` is laid out as lines of `c` ended by newlines. */
  lemma UniformLayout(chars: seq<char>, cols: nat, rows: nat, c: char, y: nat, x: nat)
    requires cols * rows <= |chars| && y < rows && x < cols
    requires forall i :: 0 <= i < cols * rows ==> chars[i] == c
    ensures y * (cols + 1) + x < |Layout(chars, cols, rows)|
    ensures Layout(chars, cols, rows)[y * (cols + 1) + x] == c
    ensures y * (cols + 1) + cols < |Layout(chars, cols, rows)|
    ensures Layout(chars, cols, rows)[y * (cols + 1) + cols] == '\n'
  {
    LineBounds(y, rows, cols);
    LayoutAt(chars, cols, rows, y, x);
    LayoutAt(chars, cols, rows, y, cols);
    assert y * cols + x < cols * rows;
  }

  /** A grid without columns is laid out as one newline per row. */
  lemma {:induction false} ZeroColumnLayout(chars: seq<char>, rows: nat)
    ensures Layout(chars, 0, rows) == seq(rows, _ => '\n')
  {
    if rows > 0 {
      ZeroColumnLayout(chars, rows - 1);
      assert chars[(rows - 1) * 0 .. rows * 0] == [];
    }
  }

  /** The text of the first `k` lines is a prefix of the text of all `rows` lines. */
  lemma {:induction false} LayoutPrefixes(chars: seq<char>, cols: nat, rows: nat, k: nat, p: nat)
    requires cols * rows <= |chars| && k <= rows && cols * k <= |chars|
    requires p < |Layout(chars, cols, k)|
    ensures p < |Layout(chars, cols, rows)|
    ensures Layout(chars, cols, rows)[p] == Layout(chars, cols, k)[p]
    decreases rows - k
  {
    if k < rows {
      LineBounds(k, rows, cols);
      LayoutPrefix(chars, cols, k + 1, p);
      LayoutPrefixes(chars, cols, rows, k + 1, p);
    }
  }

  /** Adding a line leaves the text of the lines before it unchanged. */
  lemma LayoutPrefix(chars: seq<char>, cols: nat, rows: nat, p: nat)
    requires cols * rows <= |chars| && rows >= 1 && cols * (rows - 1) <= |chars|
    requires p < |Layout(chars, cols, rows - 1)|
    ensures p < |Layout(chars, cols, rows)|
    ensures Layout(chars, cols, rows)[p] == Layout(chars, cols, rows - 1)[p]
  {
  }

  /** The last line of the text is the last row of the grid and a newline. */
  lemma LastLineAt(chars: seq<char>, cols: nat, rows: nat, x: nat)
    requires cols * rows <= |chars| && rows >= 1 && x <= cols
    ensures (rows - 1) * (cols + 1) + x < |Layout(chars, cols, rows)|
    ensures x < cols ==> (rows - 1) * cols + x < |chars|
    ensures x < cols ==> Layout(chars, cols, rows)[(rows - 1) * (cols + 1) + x] == chars[(rows - 1) * cols + x]
    ensures x == cols ==> Layout(chars, cols, rows)[(rows - 1) * (cols + 1) + x] == '\n'
  {
    LineBounds(rows - 1, rows, cols);
    var prev := Layout(chars, cols, rows - 1);
    assert |prev| == (rows - 1) * (cols + 1);
  }

  /** Line `y` of the grid and of the text lie inside both, and the next line follows directly. */
  lemma LineBounds(y: nat, rows: nat, cols: nat)
    requires y < rows
    ensures y * cols + cols == (y + 1) * cols <= cols * rows
    ensures y * (cols + 1) + cols + 1 == (y + 1) * (cols + 1) <= rows * (cols + 1)
  {
    Arith.MulMono(y + 1, rows, cols, cols);
    Arith.MulMono(y + 1, rows, cols + 1, cols + 1);
  }

  /**
   * `printAsciiArt`: for each row, emits the row's characters left to right,
   * reading slot x + y*cols, then a newline.
   */
  method PrintAsciiArt(characterData: array<char>, cols: nat, rows: nat) returns (out: seq<char>)
    requires cols * rows <= characterData.Length
    ensures out == Layout(characterData[..], cols, rows)
  {
    ghost var chars := characterData[..];
    out := [];
    var y := 0;
    while y < rows
      invariant y <= rows
      invariant out == Layout(chars, cols, y)
    {
      LineBounds(y, rows, cols);
      ghost var base := y * cols;
      var x := 0;
      while x < cols
        invariant x <= cols
        invariant out == Layout(chars, cols, y) + chars[base .. base + x]
      {
        var index := x + y * cols;
        out := out + [characterData[index]];
        assert chars[base .. base + x + 1] == chars[base .. base + x] + [chars[index]];
        x := x + 1;
      }
      out := out + ['\n'];
      y := y + 1;
    }
  }
}
