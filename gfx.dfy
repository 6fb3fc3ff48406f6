/**
 * The cell-buffer half of the console renderer (SnakeCs/ConsoleGraphics.cs,
 * namespace `Gfx`): a flat row-major array of (character, attribute) cells
 * that the drawing calls change in place and `Flush` hands to the console
 * and clears.
 */
module Gfx {
  import opened Wrappers
  import opened Coords

  /**
   * The colour names shared by `ForegroundColor` and `BackgroundColor`; the
   * two enums differ only in their bit values, given by the two functions below.
   */
  datatype Color =
    | Black | Blue | Green | Red | Aqua | Magenta | Yellow | White
    | BrightBlue | BrightGreen | BrightRed | BrightAqua | BrightMagenta | BrightYellow

  /** `ForegroundColor`: blue, green and red in bits 0x01, 0x02, 0x04; bright in 0x08. */
  function ForegroundValue(c: Color): (v: bv16)
    ensures v & 0xFFF0 == 0
  {
    match c
    case Black => 0x0000
    case Blue => 0x0001
    case Green => 0x0002
    case Red => 0x0004
    case Aqua => 0x0001 | 0x0002
    case Magenta => 0x0001 | 0x0004
    case Yellow => 0x0002 | 0x0004
    case White => 0x0001 | 0x0002 | 0x0004
    case BrightBlue => 0x0001 | 0x0008
    case BrightGreen => 0x0002 | 0x0008
    case BrightRed => 0x0004 | 0x0008
    case BrightAqua => 0x0001 | 0x0002 | 0x0008
    case BrightMagenta => 0x0001 | 0x0004 | 0x0008
    case BrightYellow => 0x0002 | 0x0004 | 0x0008
  }

  /** `BackgroundColor`: the same bits one nibble higher. */
  function BackgroundValue(c: Color): (v: bv16)
    ensures v & 0xFF0F == 0
  {
    match c
    case Black => 0x0000
    case Blue => 0x0010
    case Green => 0x0020
    case Red => 0x0040
    case Aqua => 0x0010 | 0x0020
    case Magenta => 0x0010 | 0x0040
    case Yellow => 0x0020 | 0x0040
    case White => 0x0010 | 0x0020 | 0x0040
    case BrightBlue => 0x0010 | 0x0080
    case BrightGreen => 0x0020 | 0x0080
    case BrightRed => 0x0040 | 0x0080
    case BrightAqua => 0x0010 | 0x0020 | 0x0080
    case BrightMagenta => 0x0010 | 0x0040 | 0x0080
    case BrightYellow => 0x0020 | 0x0040 | 0x0080
  }

  /** Each background value is its foreground value shifted up by one nibble. */
  lemma BackgroundIsShiftedForeground(c: Color)
    ensures BackgroundValue(c) == ForegroundValue(c) << 4
  {
  }

  /** Distinct colours have distinct foreground values. */
  lemma ForegroundValueInjective(a: Color, b: Color)
    requires ForegroundValue(a) == ForegroundValue(b)
    ensures a == b
  {
  }

  /**
   * The attribute `Write` stores, `background | foreground`. The foreground
   * lives in the low nibble and the background in the next one, so masking
   * recovers each of them.
   */
  function Attribute(fg: Color, bg: Color): (a: bv16)
    ensures a & 0x000F == ForegroundValue(fg)
    ensures a & 0x00F0 == BackgroundValue(bg)
    ensures a & 0xFF00 == 0
  {
    BackgroundValue(bg) | ForegroundValue(fg)
  }

  /** An attribute determines both of its colours. */
  lemma AttributeInjective(fg1: Color, bg1: Color, fg2: Color, bg2: Color)
    requires Attribute(fg1, bg1) == Attribute(fg2, bg2)
    ensures fg1 == fg2 && bg1 == bg2
  {
    ForegroundValueInjective(fg1, fg2);
    BackgroundIsShiftedForeground(bg1);
    BackgroundIsShiftedForeground(bg2);
    assert ForegroundValue(bg1) == ForegroundValue(bg2) by {
      assert ForegroundValue(bg1) & 0xFFF0 == 0 && ForegroundValue(bg2) & 0xFFF0 == 0;
    }
    ForegroundValueInjective(bg1, bg2);
  }

  /** `CharInfo`: a character and its colour attribute. */
  datatype Cell = Cell(ch: char, attr: bv16)

  /** A cleared cell: character 0, attribute 0. */
  const Blank := Cell(0 as char, 0)

  /** What `DrawPoint` puts in a cell: a space on the given background. */
  function Point(color: Color): Cell {
    Cell(' ', Attribute(Black, color))
  }

  function Blanks(n: nat): (r: seq<Cell>)
    ensures |r| == n && forall i :: 0 <= i < n ==> r[i] == Blank
  {
    seq(n, _ => Blank)
  }

  /** The index of cell (x, y) in a row-major buffer `width` cells wide. */
  function CellIndex(width: int, x: int, y: int): int {
    y * width + x
  }

  /** Cell indices are in range and decode back to their column and row. */
  lemma CellIndexRoundTrip(width: int, height: int, x: int, y: int)
    requires 0 < width
    ensures 0 <= x < width ==> CellIndex(width, x, y) % width == x && CellIndex(width, x, y) / width == y
    ensures 0 <= x < width && 0 <= y < height ==> 0 <= CellIndex(width, x, y) < width * height
  {
    if 0 <= x < width {
      var i := CellIndex(width, x, y);
      var q, r := i / width, i % width;
      assert i == q * width + r && 0 <= r < width;
      assert (y - q) * width == r - x;
      if y - q >= 1 {
        MulAtLeast(y - q, width);
      } else if y - q <= -1 {
        MulAtLeast(q - y, width);
      }
      if 0 <= y < height {
        MulAtLeast(height - y, width);
      }
    }
  }

  /** A cell inside the buffer has an index inside the buffer. */
  lemma CellIndexInBuffer(width: int, height: int, x: int, y: int)
    requires 0 <= x < width && 0 <= y < height
    ensures 0 <= CellIndex(width, x, y) < width * height
  {
    MulAtLeast(height - y, width);
    assert width * height == CellIndex(width, x, y) + (width - x) + (height - y - 1) * width;
  }

  lemma MulAtLeast(a: int, b: int)
    requires 1 <= a && 0 < b
    ensures a * b >= b
  {
  }

  /** Distinct cells of a row have distinct indices. */
  lemma CellIndexInjective(width: int, x1: int, y1: int, x2: int, y2: int)
    requires 0 <= x1 < width && 0 <= x2 < width
    requires CellIndex(width, x1, y1) == CellIndex(width, x2, y2)
    ensures x1 == x2 && y1 == y2
  {
    CellIndexRoundTrip(width, 0, x1, y1);
    CellIndexRoundTrip(width, 0, x2, y2);
  }

  predicate InRect(x: int, y: int, x0: int, y0: int, w: int, h: int) {
    x0 <= x < x0 + w && y0 <= y < y0 + h
  }

  /** The buffer `s` with every cell of the rectangle `[x0, x0+w) x [y0, y0+h)` set to `c`. */
  function Fill(s: seq<Cell>, width: int, x0: int, y0: int, w: int, h: int, c: Cell): (r: seq<Cell>)
    requires width > 0
    ensures |r| == |s|
  {
    seq(|s|, i requires 0 <= i < |s| => if InRect(i % width, i / width, x0, y0, w, h) then c else s[i])
  }

  /** `Fill` changes exactly the cells of its rectangle. */
  lemma FillAt(s: seq<Cell>, width: int, x0: int, y0: int, w: int, h: int, c: Cell, x: int, y: int)
    requires 0 <= x < width && 0 <= CellIndex(width, x, y) < |s|
    ensures Fill(s, width, x0, y0, w, h, c)[CellIndex(width, x, y)]
         == if InRect(x, y, x0, y0, w, h) then c else s[CellIndex(width, x, y)]
  {
    CellIndexRoundTrip(width, 0, x, y);
  }

  /** A rectangle with no width or no height changes nothing. */
  lemma FillEmpty(s: seq<Cell>, width: int, x0: int, y0: int, w: int, h: int, c: Cell)
    requires width > 0 && (w <= 0 || h <= 0)
    ensures Fill(s, width, x0, y0, w, h, c) == s
  {
  }

  /** Adding one cell to the end of a one-row rectangle is one more cell update. */
  lemma FillNextCell(s: seq<Cell>, width: int, x0: int, y: int, k: int, c: Cell)
    requires 0 <= k && 0 <= x0 + k < width && 0 <= CellIndex(width, x0 + k, y) < |s|
    ensures Fill(s, width, x0, y, k + 1, 1, c) == Fill(s, width, x0, y, k, 1, c)[CellIndex(width, x0 + k, y) := c]
  {
    var j := CellIndex(width, x0 + k, y);
    CellIndexRoundTrip(width, 0, x0 + k, y);
    var longer := Fill(s, width, x0, y, k + 1, 1, c);
    var shorter := Fill(s, width, x0, y, k, 1, c)[j := c];
    forall i | 0 <= i < |s|
      ensures longer[i] == shorter[i]
    {
      if i != j {
        assert i == (i / width) * width + i % width;
        assert !(i % width == x0 + k && i / width == y);
      }
    }
  }

  /** Filling one more row below a rectangle gives the taller rectangle. */
  lemma FillNextRow(s: seq<Cell>, width: int, x0: int, y0: int, w: int, h: int, c: Cell)
    requires width > 0 && 0 <= h
    ensures Fill(Fill(s, width, x0, y0, w, h, c), width, x0, y0 + h, w, 1, c) == Fill(s, width, x0, y0, w, h + 1, c)
  {
  }

  /**
   * What `DrawLine` draws when the line is axis-aligned: a horizontal line
   * is the one-row rectangle `dx` cells wide, so its end cell is not drawn;
   * a vertical line covers rows `yStart` through `yEnd`, both included; when
   * `yEnd < yStart` nothing is drawn, whatever the slope.
   */
  predicate AxisAligned(xStart: Short, yStart: Short, xEnd: Short, yEnd: Short) {
    yStart == yEnd || yEnd < yStart || xStart == xEnd
  }

  function AxisLine(s: seq<Cell>, width: int, xStart: Short, yStart: Short, xEnd: Short, yEnd: Short, c: Cell): (r: seq<Cell>)
    requires width > 0 && AxisAligned(xStart, yStart, xEnd, yEnd)
    ensures |r| == |s|
  {
    if yStart == yEnd then Fill(s, width, xStart as int, yStart as int, Wrap16(xEnd as int - xStart as int) as int, 1, c)
    else Fill(s, width, xStart as int, yStart as int, 1, yEnd as int - yStart as int + 1, c)
  }

  /** A horizontal line leaves its end cell alone, while a vertical one draws both ends. */
  lemma LineEndpoints(s: seq<Cell>, width: int, height: int, xStart: Short, yStart: Short, xEnd: Short, yEnd: Short, c: Cell)
    requires |s| == width * height
    requires 0 <= xStart <= xEnd && xEnd as int < width && 0 <= yStart <= yEnd && yEnd as int < height
    requires yStart == yEnd || xStart == xEnd
    ensures 0 <= CellIndex(width, xStart as int, yStart as int) < |s| && 0 <= CellIndex(width, xEnd as int, yEnd as int) < |s|
    ensures yStart == yEnd ==>
      AxisLine(s, width, xStart, yStart, xEnd, yEnd, c)[CellIndex(width, xEnd as int, yEnd as int)] == s[CellIndex(width, xEnd as int, yEnd as int)]
    ensures yStart < yEnd ==>
      && AxisLine(s, width, xStart, yStart, xEnd, yEnd, c)[CellIndex(width, xStart as int, yStart as int)] == c
      && AxisLine(s, width, xStart, yStart, xEnd, yEnd, c)[CellIndex(width, xEnd as int, yEnd as int)] == c
  {
    CellIndexInBuffer(width, height, xEnd as int, yEnd as int);
    CellIndexInBuffer(width, height, xStart as int, yStart as int);
    var dx := Wrap16(xEnd as int - xStart as int);
    FillAt(s, width, xStart as int, yStart as int, dx as int, 1, c, xEnd as int, yEnd as int);
    FillAt(s, width, xStart as int, yStart as int, 1, yEnd as int - yStart as int + 1, c, xEnd as int, yEnd as int);
    FillAt(s, width, xStart as int, yStart as int, 1, yEnd as int - yStart as int + 1, c, xStart as int, yStart as int);
  }

  /** The result of `WriteText` on a buffer: the new cells, and whether the text fit. */
  datatype TextRun = TextRun(cells: seq<Cell>, fits: bool)

  /** The cursor move after one character: right, or to `wrap` on the next row at the right edge. */
  function Advance(width: int, wrap: int, x: int, y: int): (int, int) {
    if x + 1 >= width then (wrap, y + 1) else (x + 1, y)
  }

  /**
   * `WriteText` on the cells `s` of a `width x height` buffer: each character
   * is written at the cursor, the cursor advances, and the run fails as soon
   * as the cursor's row reaches `height`, after that character was written.
   */
  function WriteRun(s: seq<Cell>, width: int, height: int, text: string, x: int, y: int, wrap: int, attr: bv16): (r: TextRun)
    requires 0 <= x < width && 0 <= y < height && 0 <= wrap < width && |s| == width * height
    ensures |r.cells| == |s|
    decreases |text|
  {
    if text == [] then TextRun(s, true)
    else
      CellIndexInBuffer(width, height, x, y);
      var s1 := s[CellIndex(width, x, y) := Cell(text[0], attr)];
      var (x1, y1) := Advance(width, wrap, x, y);
      if y1 >= height then TextRun(s1, false)
      else WriteRun(s1, width, height, text[1..], x1, y1, wrap, attr)
  }

  /** How many characters fit from (x, y) on: the rest of this row and `width - wrap` per row below. */
  function Capacity(width: int, height: int, x: int, y: int, wrap: int): int {
    (width - x) + (height - 1 - y) * (width - wrap)
  }

  /** One cursor step stays in the columns and moves to a later cell in row-major order. */
  lemma AdvanceIndex(width: int, x: int, y: int, wrap: int)
    requires 0 <= x < width && 0 <= wrap < width
    ensures var (x1, y1) := Advance(width, wrap, x, y);
      && 0 <= x1 < width && y <= y1 <= y + 1
      && CellIndex(width, x, y) < CellIndex(width, x1, y1)
  {
    if x + 1 >= width {
      assert CellIndex(width, wrap, y + 1) == CellIndex(width, x, y) + (width - x) + wrap;
    }
  }

  /**
   * One cursor step uses up one cell of room; it leaves the last row exactly
   * when one cell of room was left.
   */
  lemma AdvanceCapacity(width: int, height: int, x: int, y: int, wrap: int)
    requires 0 <= x < width && 0 <= y < height && 0 <= wrap < width
    ensures var (x1, y1) := Advance(width, wrap, x, y);
      && Capacity(width, height, x, y, wrap) >= 1
      && (y1 < height <==> Capacity(width, height, x, y, wrap) != 1)
      && (y1 < height ==> Capacity(width, height, x1, y1, wrap) == Capacity(width, height, x, y, wrap) - 1)
  {
    var (x1, y1) := Advance(width, wrap, x, y);
    var rows := height - 1 - y;
    if rows >= 1 {
      MulAtLeast(rows, width - wrap);
    } else {
      assert rows == 0;
    }
    if x + 1 >= width {
      assert rows * (width - wrap) == (width - wrap) + (rows - 1) * (width - wrap);
    }
  }

  /**
   * The text fits exactly when it is shorter than the room left: text that
   * ends on the last cell of the buffer does not fit, because the cursor
   * then moves past the last row.
   */
  lemma {:induction false} WriteRunFitsIff(s: seq<Cell>, width: int, height: int, text: string, x: int, y: int, wrap: int, attr: bv16)
    requires 0 <= x < width && 0 <= y < height && 0 <= wrap < width && |s| == width * height
    ensures WriteRun(s, width, height, text, x, y, wrap, attr).fits <==> |text| < Capacity(width, height, x, y, wrap)
    decreases |text|
  {
    AdvanceCapacity(width, height, x, y, wrap);
    if text != [] {
      CellIndexInBuffer(width, height, x, y);
      var s1 := s[CellIndex(width, x, y) := Cell(text[0], attr)];
      var (x1, y1) := Advance(width, wrap, x, y);
      if y1 < height {
        WriteRunFitsIff(s1, width, height, text[1..], x1, y1, wrap, attr);
      }
    }
  }

  /** A run never touches the cells before its starting cursor. */
  lemma {:induction false} WriteRunKeepsEarlier(s: seq<Cell>, width: int, height: int, text: string, x: int, y: int, wrap: int, attr: bv16, i: int)
    requires 0 <= x < width && 0 <= y < height && 0 <= wrap < width && |s| == width * height
    requires 0 <= i < CellIndex(width, x, y) && i < |s|
    ensures WriteRun(s, width, height, text, x, y, wrap, attr).cells[i] == s[i]
    decreases |text|
  {
    if text != [] {
      CellIndexInBuffer(width, height, x, y);
      AdvanceIndex(width, x, y, wrap);
      var s1 := s[CellIndex(width, x, y) := Cell(text[0], attr)];
      var (x1, y1) := Advance(width, wrap, x, y);
      if y1 < height {
        WriteRunKeepsEarlier(s1, width, height, text[1..], x1, y1, wrap, attr, i);
      }
    }
  }

  /** The cursor after `k` characters. */
  function CursorAfter(width: int, wrap: int, x: int, y: int, k: nat): (int, int)
    decreases k
  {
    if k == 0 then (x, y)
    else
      var (x1, y1) := Advance(width, wrap, x, y);
      CursorAfter(width, wrap, x1, y1, k - 1)
  }

  /** The index of the cursor after `k` characters. */
  function CursorIndex(width: int, wrap: int, x: int, y: int, k: nat): int {
    var (cx, cy) := CursorAfter(width, wrap, x, y, k);
    CellIndex(width, cx, cy)
  }

  function Min(a: int, b: int): int {
    if a < b then a else b
  }

  /** Cell `i` is one of the first `n` cursor positions from (x, y). */
  ghost predicate Reached(width: int, wrap: int, x: int, y: int, n: int, i: int) {
    exists k: nat :: k < n && CursorIndex(width, wrap, x, y, k) == i
  }

  /**
   * The frame of a run: a cell that the cursor never reaches while the text
   * still fits keeps its old contents, whether or not the text wraps.
   */
  lemma {:induction false} WriteRunKeepsUnreached(s: seq<Cell>, width: int, height: int, text: string, x: int, y: int, wrap: int, attr: bv16, i: int)
    requires 0 <= x < width && 0 <= y < height && 0 <= wrap < width && |s| == width * height
    requires 0 <= i < |s| && !Reached(width, wrap, x, y, Min(|text|, Capacity(width, height, x, y, wrap)), i)
    ensures WriteRun(s, width, height, text, x, y, wrap, attr).cells[i] == s[i]
    decreases |text|
  {
    if text != [] {
      CellIndexInBuffer(width, height, x, y);
      AdvanceCapacity(width, height, x, y, wrap);
      assert CursorIndex(width, wrap, x, y, 0) == CellIndex(width, x, y);
      var s1 := s[CellIndex(width, x, y) := Cell(text[0], attr)];
      var (x1, y1) := Advance(width, wrap, x, y);
      AdvanceIndex(width, x, y, wrap);
      if y1 < height {
        var n1 := Min(|text| - 1, Capacity(width, height, x1, y1, wrap));
        forall k: nat | k < n1
          ensures CursorIndex(width, wrap, x1, y1, k) != i
        {
          assert CursorIndex(width, wrap, x, y, k + 1) == CursorIndex(width, wrap, x1, y1, k);
        }
        WriteRunKeepsUnreached(s1, width, height, text[1..], x1, y1, wrap, attr, i);
      }
    }
  }

  /**
   * Left to right with wrap: every character that fits stays in the buffer,
   * written at the cursor position it was reached at.
   */
  lemma {:induction false} WriteRunPlacesChar(s: seq<Cell>, width: int, height: int, text: string, x: int, y: int, wrap: int, attr: bv16, k: nat)
    requires 0 <= x < width && 0 <= y < height && 0 <= wrap < width && |s| == width * height
    requires k < |text| && k < Capacity(width, height, x, y, wrap)
    ensures var (cx, cy) := CursorAfter(width, wrap, x, y, k);
      && 0 <= cx < width && 0 <= cy < height
      && 0 <= CellIndex(width, cx, cy) < |s|
      && WriteRun(s, width, height, text, x, y, wrap, attr).cells[CellIndex(width, cx, cy)] == Cell(text[k], attr)
    decreases k
  {
    CellIndexInBuffer(width, height, x, y);
    AdvanceIndex(width, x, y, wrap);
    AdvanceCapacity(width, height, x, y, wrap);
    var s1 := s[CellIndex(width, x, y) := Cell(text[0], attr)];
    var (x1, y1) := Advance(width, wrap, x, y);
    if k == 0 {
      if y1 < height {
        WriteRunKeepsEarlier(s1, width, height, text[1..], x1, y1, wrap, attr, CellIndex(width, x, y));
      }
    } else {
      WriteRunPlacesChar(s1, width, height, text[1..], x1, y1, wrap, attr, k - 1);
    }
  }

  /**
   * Text that ends before the right edge stays in its row: the run fits,
   * cell `CellIndex(x, y) + k` holds character `k`, and every other cell is
   * unchanged.
   */
  lemma {:induction false} WriteRunInRow(s: seq<Cell>, width: int, height: int, text: string, x: int, y: int, wrap: int, attr: bv16, i: int)
    requires 0 <= x < width && 0 <= y < height && 0 <= wrap < width && |s| == width * height
    requires x + |text| < width && 0 <= i < |s|
    ensures var r := WriteRun(s, width, height, text, x, y, wrap, attr);
      && r.fits
      && r.cells[i] == if CellIndex(width, x, y) <= i < CellIndex(width, x, y) + |text|
                       then Cell(text[i - CellIndex(width, x, y)], attr) else s[i]
    decreases |text|
  {
    if text != [] {
      CellIndexInBuffer(width, height, x, y);
      var s1 := s[CellIndex(width, x, y) := Cell(text[0], attr)];
      assert Advance(width, wrap, x, y) == (x + 1, y);
      assert CellIndex(width, x + 1, y) == CellIndex(width, x, y) + 1;
      WriteRunInRow(s1, width, height, text[1..], x + 1, y, wrap, attr, i);
    }
  }

  /** "hi" at (9, 0) on a 10-wide buffer: 'h' at (9, 0), then 'i' wraps to (0, 1). */
  lemma WriteRunExample(s: seq<Cell>, attr: bv16)
    requires |s| == 10 * 3
    ensures var r := WriteRun(s, 10, 3, "hi", 9, 0, 0, attr);
      r.fits && r.cells[9] == Cell('h', attr) && r.cells[10] == Cell('i', attr)
  {
    WriteRunFitsIff(s, 10, 3, "hi", 9, 0, 0, attr);
    WriteRunPlacesChar(s, 10, 3, "hi", 9, 0, 0, attr, 0);
    WriteRunPlacesChar(s, 10, 3, "hi", 9, 0, 0, attr, 1);
  }

  datatype GfxError =
    | TextDoesNotFit            // ArgumentOutOfRangeException from WriteText
    | WriteFailed(code: Short)  // WriteConsoleOutputW failed; GetLastError's code

  class ConsoleGraphics {
    const writeBuffer: array<Cell>
    /** `writeBufferSize.X` and `writeBufferSize.Y`. */
    const width: Short
    const height: Short

    ghost predicate Valid() {
      0 < width && 0 < height && writeBuffer.Length == width as int * height as int
    }

    /** A blank buffer of `width * height` cells; the console resizing is not modelled. */
    constructor (width: int, height: int)
      requires 0 < width < 0x8000 && 0 < height < 0x8000
      ensures Valid() && fresh(writeBuffer)
      ensures this.width as int == width && this.height as int == height
      ensures writeBuffer[..] == Blanks(width * height)
    {
      writeBuffer := new Cell[width * height](_ => Blank);
      this.width := width as Short;
      this.height := height as Short;
    }

    /** `WriteBufferAt`: the index of cell (xPos, yPos); an in-buffer cell has exactly one. */
    function WriteBufferAt(xPos: Short, yPos: Short): (i: int)
      requires Valid()
      ensures 0 <= xPos < width && 0 <= yPos < height ==>
        0 <= i < writeBuffer.Length && i % width as int == xPos as int && i / width as int == yPos as int
    {
      CellIndexRoundTrip(width as int, height as int, xPos as int, yPos as int);
      CellIndex(width as int, xPos as int, yPos as int)
    }

    /** Sets exactly the one cell at (xPos, yPos); the index must fall in the array. */
    method Write(character: char, xPos: Short, yPos: Short, foregroundColor: Color, backgroundColor: Color)
      requires Valid() && 0 <= WriteBufferAt(xPos, yPos) < writeBuffer.Length
      modifies writeBuffer
      ensures writeBuffer[..] == old(writeBuffer[..])[WriteBufferAt(xPos, yPos) := Cell(character, Attribute(foregroundColor, backgroundColor))]
    {
      var i := WriteBufferAt(xPos, yPos);
      writeBuffer[i] := Cell(character, Attribute(foregroundColor, backgroundColor));
    }

    method DrawPoint(xPos: Short, yPos: Short, color: Color)
      requires Valid() && 0 <= WriteBufferAt(xPos, yPos) < writeBuffer.Length
      modifies writeBuffer
      ensures writeBuffer[..] == old(writeBuffer[..])[WriteBufferAt(xPos, yPos) := Point(color)]
    {
      Write(' ', xPos, yPos, Black, color);
    }

    /**
     * Paints the rectangle `[xPos, xPos+w) x [yPos, yPos+h)` row by row.
     * The far edges must fit in a `short`, so the `short` loop counters do
     * not wrap, and a non-empty rectangle must lie inside the buffer.
     */
    method DrawRectangle(xPos: Short, yPos: Short, w: Short, h: Short, color: Color)
      requires Valid()
      requires xPos as int + w as int < 0x8000 && yPos as int + h as int < 0x8000
      requires 0 < w && 0 < h ==> 0 <= xPos && xPos as int + w as int <= width as int && 0 <= yPos && yPos as int + h as int <= height as int
      modifies writeBuffer
      ensures writeBuffer[..] == Fill(old(writeBuffer[..]), width as int, xPos as int, yPos as int, w as int, h as int, Point(color))
    {
      ghost var s0 := writeBuffer[..];
      ghost var W := width as int;
      var y := yPos;
      FillEmpty(s0, W, xPos as int, yPos as int, w as int, 0, Point(color));
      while y as int < yPos as int + h as int
        invariant yPos <= y && (0 < h ==> y as int <= yPos as int + h as int) && (h <= 0 ==> y == yPos)
        invariant writeBuffer[..] == Fill(s0, W, xPos as int, yPos as int, w as int, y as int - yPos as int, Point(color))
      {
        ghost var rows := writeBuffer[..];
        var x := xPos;
        FillEmpty(rows, W, xPos as int, y as int, 0, 1, Point(color));
        while x as int < xPos as int + w as int
          invariant xPos <= x && (0 < w ==> x as int <= xPos as int + w as int) && (w <= 0 ==> x == xPos)
          invariant writeBuffer[..] == Fill(rows, W, xPos as int, y as int, x as int - xPos as int, 1, Point(color))
        {
          CellIndexRoundTrip(W, height as int, x as int, y as int);
          FillNextCell(rows, W, xPos as int, y as int, x as int - xPos as int, Point(color));
          DrawPoint(x, y, color);
          x := x + 1;
        }
        if w <= 0 {
          FillEmpty(rows, W, xPos as int, y as int, w as int, 1, Point(color));
          FillEmpty(rows, W, xPos as int, y as int, x as int - xPos as int, 1, Point(color));
        }
        FillNextRow(s0, W, xPos as int, yPos as int, w as int, y as int - yPos as int, Point(color));
        y := y + 1;
      }
      if h <= 0 {
        FillEmpty(s0, W, xPos as int, yPos as int, w as int, h as int, Point(color));
      }
    }

    /**
     * The axis-aligned cases of `DrawLine` (see `AxisLine`). A horizontal
     * line is `DrawRectangle(xStart, yStart, dx, 1)`; otherwise the column
     * `xStart` is painted from `yStart` down to `yEnd`.
     */
    method DrawLine(xStart: Short, yStart: Short, xEnd: Short, yEnd: Short, color: Color)
      requires Valid() && AxisAligned(xStart, yStart, xEnd, yEnd)
      requires yStart == yEnd ==>
        var dx := Wrap16(xEnd as int - xStart as int) as int;
        && xStart as int + dx < 0x8000 && yStart as int + 1 < 0x8000
        && (0 < dx ==> 0 <= xStart && xStart as int + dx <= width as int && 0 <= yStart < height)
      requires yStart < yEnd ==> 0 <= xStart < width && 0 <= yStart && yEnd < height
      modifies writeBuffer
      ensures writeBuffer[..] == AxisLine(old(writeBuffer[..]), width as int, xStart, yStart, xEnd, yEnd, Point(color))
    {
      var dx := Wrap16(xEnd as int - xStart as int);
      var dy := Wrap16(yEnd as int - yStart as int);
      assert dy == 0 <==> yStart == yEnd;
      if dy == 0 {
        DrawRectangle(xStart, yStart, dx, 1, color);
        return;
      }
      // Here xStart == xEnd or yEnd < yStart: the slope term is zero or the loop is empty.
      ghost var s0 := writeBuffer[..];
      ghost var W := width as int;
      var y := yStart;
      FillEmpty(s0, W, xStart as int, yStart as int, 1, 0, Point(color));
      while y <= yEnd
        invariant yStart <= y && (yStart <= yEnd ==> y as int <= yEnd as int + 1) && (yEnd < yStart ==> y == yStart)
        invariant writeBuffer[..] == Fill(s0, W, xStart as int, yStart as int, 1, y as int - yStart as int, Point(color))
      {
        ghost var before := writeBuffer[..];
        CellIndexRoundTrip(W, height as int, xStart as int, y as int);
        FillNextCell(before, W, xStart as int, y as int, 0, Point(color));
        FillEmpty(before, W, xStart as int, y as int, 0, 1, Point(color));
        FillNextRow(s0, W, xStart as int, yStart as int, 1, y as int - yStart as int, Point(color));
        DrawPoint(xStart, y, color);
        y := y + 1;
      }
      if yEnd < yStart {
        FillEmpty(s0, W, xStart as int, yStart as int, 1, yEnd as int - yStart as int + 1, Point(color));
      }
    }

    /**
     * Writes `text` left to right from (xPos, yPos), wrapping to `wrapXStart`
     * on the next row at the right edge, and fails with `TextDoesNotFit` as
     * soon as the cursor's row reaches the buffer height. The characters
     * written before the failure stay in the buffer.
     */
    method WriteText(text: string, xPos: Short, yPos: Short, wrapXStart: Short, foregroundColor: Color, backgroundColor: Color)
      returns (r: Outcome<GfxError>)
      requires Valid()
      requires 0 <= xPos < width && 0 <= yPos < height && 0 <= wrapXStart < width
      modifies writeBuffer
      ensures var run := WriteRun(old(writeBuffer[..]), width as int, height as int, text, xPos as int, yPos as int,
                                  wrapXStart as int, Attribute(foregroundColor, backgroundColor));
        && writeBuffer[..] == run.cells
        && r == if run.fits then Pass else Fail(TextDoesNotFit)
    {
      ghost var attr := Attribute(foregroundColor, backgroundColor);
      ghost var W, H := width as int, height as int;
      var x := xPos;
      var y := yPos;
      var i := 0;
      while i < |text|
        invariant 0 <= i <= |text|
        invariant 0 <= x < width && 0 <= y < height
        invariant WriteRun(old(writeBuffer[..]), W, H, text, xPos as int, yPos as int, wrapXStart as int, attr)
               == WriteRun(writeBuffer[..], W, H, text[i..], x as int, y as int, wrapXStart as int, attr)
      {
        assert text[i..][0] == text[i] && text[i..][1..] == text[i + 1..];
        Write(text[i], x, y, foregroundColor, backgroundColor);
        // one cell right, or to the wrap column of the next row at the right edge
        x := x + 1;
        if x >= width {
          x := wrapXStart;
          y := y + 1;
        }
        // past the last row: the characters so far stay written
        if y >= height {
          return Fail(TextDoesNotFit);
        }
        i := i + 1;
      }
      assert text[i..] == [];
      return Pass;
    }

    /** Hands the whole buffer to the console, clears it, and only then reports a failed write. */
    method Flush(writeSucceeded: bool, lastError: Short) returns (sent: seq<Cell>, r: Outcome<GfxError>)
      requires Valid()
      modifies writeBuffer
      ensures sent == old(writeBuffer[..])
      ensures writeBuffer[..] == Blanks(writeBuffer.Length)
      ensures r == if writeSucceeded then Pass else Fail(WriteFailed(lastError))
    {
      sent := writeBuffer[..];
      ClearWriteBuffer();
      if !writeSucceeded {
        return sent, Fail(WriteFailed(lastError));
      }
      r := Pass;
    }

    /** `Clear`: the buffer half only; clearing the visible console is not modelled. */
    method Clear()
      requires Valid()
      modifies writeBuffer
      ensures writeBuffer[..] == Blanks(writeBuffer.Length)
    {
      ClearWriteBuffer();
    }

    /** Sets every one of the `width * height` cells to character 0, attribute 0. */
    method ClearWriteBuffer()
      requires Valid()
      modifies writeBuffer
      ensures writeBuffer[..] == Blanks(writeBuffer.Length)
    {
      var idx := 0;
      while idx < width as int * height as int
        invariant 0 <= idx <= writeBuffer.Length
        invariant forall j :: 0 <= j < idx ==> writeBuffer[j] == Blank
      {
        writeBuffer[idx] := Blank;
        idx := idx + 1;
      }
    }
  }
}
