/**
 * A terminal with deferred wrap: a grid, a cursor, scrolling at the bottom row, absolute
 * cursor addressing (CUP, section 8.3.21 of ECMA-48) and UTF-8 text. A line feed also
 * returns the carriage, as terminal drivers make it do.
 */
module Terminal {
  import opened Utf8
  import opened Arithmetic

  const BLANK: uchar := 32

  /**
   * The grid in reading order. The cursor is on cell `at`; with `wrap` set it has just
   * filled the last column, and the next glyph goes to the row below.
   */
  datatype Grid = Grid(rows: nat, cols: nat, cells: seq<uchar>, at: nat, wrap: bool)

  predicate Proper(g: Grid) {
    && g.rows >= 1 && g.cols >= 1
    && |g.cells| == g.rows * g.cols
    && g.at < |g.cells|
    && (g.wrap ==> (g.at + 1) % g.cols == 0)
  }

  type Screen = g: Grid | Proper(g) witness Grid(1, 1, [BLANK], 0, false)

  /** The cell the next glyph goes to; one past the end means it will scroll. */
  function Next(s: Screen): (p: nat)
    ensures p <= |s.cells|
  {
    if s.wrap then s.at + 1 else s.at
  }

  function Blanks(n: nat): (b: seq<uchar>)
    ensures |b| == n && forall i :: 0 <= i < n ==> b[i] == BLANK
  {
    seq<uchar>(n, i => BLANK)
  }

  /** The cells after the top `n` cells have scrolled away. */
  function Scrolled(cells: seq<uchar>, n: nat): (r: seq<uchar>)
    ensures |r| == |cells|
  {
    if n <= |cells| then cells[n..] + Blanks(n) else Blanks(|cells|)
  }

  lemma LastRow(s: Screen)
    ensures s.cols <= |s.cells| && (|s.cells| - s.cols) % s.cols == 0 && |s.cells| % s.cols == 0
  {
    Multiple(s.rows, s.cols);
    Multiple(s.rows - 1, s.cols);
    MulStep(s.rows - 1, s.cols);
    MulMonotone(1, s.rows, s.cols);
  }

  /** A glyph at `p`, the cursor then behind it. */
  function Put(s: Screen, p: nat, c: uchar): (r: Screen)
    requires p < |s.cells|
    ensures r.rows == s.rows && r.cols == s.cols
  {
    LastRow(s);
    var full := (p + 1) % s.cols == 0;
    s.(cells := s.cells[p := c], at := if full then p else p + 1, wrap := full)
  }

  /** A line down from position `p`, the start of a row or the end of the grid. */
  function Ensure(s: Screen, p: nat): (r: Screen)
    requires p <= |s.cells|
    ensures Next(r) < |s.cells| && r.rows == s.rows && r.cols == s.cols
  {
    LastRow(s);
    if p < |s.cells| then s.(at := p, wrap := false)
    else s.(cells := Scrolled(s.cells, s.cols), at := |s.cells| - s.cols, wrap := false)
  }

  /** One glyph of one cell. */
  function Print(s: Screen, c: uchar): (r: Screen)
    ensures r.rows == s.rows && r.cols == s.cols
  {
    var t := Ensure(s, Next(s));
    Put(t, t.at, c)
  }

  function PrintAll(s: Screen, g: seq<uchar>): (r: Screen)
    ensures r.rows == s.rows && r.cols == s.cols
    decreases |g|
  {
    if g == [] then s
    else
      var n := |g| - 1;
      Print(PrintAll(s, g[..n]), g[n])
  }

  function LineFeed(s: Screen): Screen {
    RowInGrid(s.at, s.rows, s.cols);
    Ensure(s, s.at / s.cols * s.cols + s.cols)
  }

  /** CUP with coordinates counted from 0; outside the grid it goes as far as it can. */
  function MoveTo(s: Screen, row: nat, col: nat): Screen {
    var r, c := Min(row, s.rows - 1), Min(col, s.cols - 1);
    CellInGrid(r, c, s.rows, s.cols);
    s.(at := r * s.cols + c, wrap := false)
  }

  /** Row and column of a cell address that cell. */
  lemma MoveToCell(s: Screen, p: nat)
    requires p < |s.cells|
    ensures MoveTo(s, p / s.cols, p % s.cols) == s.(at := p, wrap := false)
  {
    RowInGrid(p, s.rows, s.cols);
  }

  /**
   * The grid as a window on an endless tape: its cells, `g` written over them from `p` on,
   * and blanks beyond.
   */
  function TapeAt(cells: seq<uchar>, p: nat, g: seq<uchar>, j: nat): uchar {
    if p <= j < p + |g| then g[j - p] else if j < |cells| then cells[j] else BLANK
  }

  ghost predicate OnTape(window: seq<uchar>, cells: seq<uchar>, p: nat, g: seq<uchar>, off: nat) {
    |window| == |cells| && forall i :: 0 <= i < |window| ==> window[i] == TapeAt(cells, p, g, i + off)
  }

  /** `off` cells, whole rows, have scrolled away once writing has come to position `p`, and no more than had to. */
  predicate ScrolledBy(size: nat, cols: nat, p: nat, off: nat)
    requires cols >= 1
  {
    off % cols == 0 && off <= p && p - off <= size && (off > 0 ==> size < p - off + cols)
  }

  lemma OnTapeWithin(window: seq<uchar>, cells: seq<uchar>, p: nat, g: seq<uchar>, off: nat, c: uchar)
    requires OnTape(window, cells, p, g, off) && off <= p + |g| < off + |window|
    ensures OnTape(window[p + |g| - off := c], cells, p, g + [c], off)
  {
  }

  lemma OnTapeScroll(window: seq<uchar>, cells: seq<uchar>, p: nat, g: seq<uchar>, off: nat, n: nat)
    requires OnTape(window, cells, p, g, off) && n <= |window| && p + |g| <= off + |window|
    ensures OnTape(Scrolled(window, n), cells, p, g, off + n)
  {
  }

  /** Printing writes on the tape and scrolls only as far as it must. */
  lemma {:induction false} PrintsOnTape(s: Screen, g: seq<uchar>) returns (off: nat)
    ensures ScrolledBy(|s.cells|, s.cols, Next(s) + |g|, off)
    ensures OnTape(PrintAll(s, g).cells, s.cells, Next(s), g, off)
    ensures Next(PrintAll(s, g)) == Next(s) + |g| - off
    ensures PrintAll(s, g).rows == s.rows && PrintAll(s, g).cols == s.cols
    ensures g != [] ==> (PrintAll(s, g).wrap <==> Next(PrintAll(s, g)) % s.cols == 0)
    decreases |g|
  {
    if g == [] {
      off := 0;
    } else {
      var n := |g| - 1;
      var front, c := g[..n], g[n];
      assert g == front + [c];
      off := PrintsOnTape(s, front);
      off := PrintsOneMore(s, front, c, off);
    }
  }

  lemma PrintsOneMore(s: Screen, front: seq<uchar>, c: uchar, off: nat) returns (off': nat)
    requires ScrolledBy(|s.cells|, s.cols, Next(s) + |front|, off)
    requires OnTape(PrintAll(s, front).cells, s.cells, Next(s), front, off)
    requires Next(PrintAll(s, front)) == Next(s) + |front| - off
    requires PrintAll(s, front).rows == s.rows && PrintAll(s, front).cols == s.cols
    ensures
      var t := Print(PrintAll(s, front), c);
      && ScrolledBy(|s.cells|, s.cols, Next(s) + |front| + 1, off')
      && OnTape(t.cells, s.cells, Next(s), front + [c], off')
      && Next(t) == Next(s) + |front| + 1 - off'
      && t.rows == s.rows && t.cols == s.cols
      && (t.wrap <==> Next(t) % s.cols == 0)
  {
    hide TapeAt;
    var t := PrintAll(s, front);
    var p, size := Next(s) + |front|, |s.cells|;
    LastRow(t);
    if Next(t) < size {
      off' := off;
      OnTapeWithin(t.cells, s.cells, Next(s), front, off, c);
    } else {
      off' := off + s.cols;
      DivShift(off, 1, s.cols);
      OnTapeScroll(t.cells, s.cells, Next(s), front, off, s.cols);
      OnTapeWithin(Scrolled(t.cells, s.cols), s.cells, Next(s), front, off', c);
    }
  }
}
