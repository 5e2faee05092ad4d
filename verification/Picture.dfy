/** What repainting a line does to a terminal, and what the screen shows at any time. */
module Picture {
  import opened Utf8
  import opened Terminal
  import opened Arithmetic

  /** rows_scrolled of handle_scroll, for the position `p` computed without scrolling. */
  function RowsScrolled(rows: nat, cols: nat, p: nat): int
    requires cols >= 1
  {
    p / cols - rows + 1
  }

  /** The cells by which all coordinates are shifted in consequence. */
  function Shift(rows: nat, cols: nat, p: nat): nat
    requires cols >= 1
  {
    var k := RowsScrolled(rows, cols, p);
    if k <= 0 then 0 else MulMonotone(0, k, cols); k * cols
  }

  /** The shift keeps the column and ends on the last row, or there is none and `p` is on the grid. */
  lemma ShiftFacts(rows: nat, cols: nat, p: nat)
    requires rows >= 1 && cols >= 1
    ensures RowsScrolled(rows, cols, p) <= 0 <==> p < rows * cols
    ensures p < rows * cols ==> Shift(rows, cols, p) == 0
    ensures p >= rows * cols ==> (rows - 1) * cols <= p - Shift(rows, cols, p) < rows * cols
    ensures p - Shift(rows, cols, p) == if p < rows * cols then p else (rows - 1) * cols + p % cols
    ensures Shift(rows, cols, p) % cols == 0
  {
    var q, k := p / cols, RowsScrolled(rows, cols, p);
    assert p == q * cols + p % cols;
    if p < rows * cols {
      RowInGrid(p, rows, cols);
    } else if q < rows {
      MulMonotone(q + 1, rows, cols);
      MulStep(q, cols);
    }
    if k > 0 {
      Multiple(k, cols);
      assert k * cols == q * cols - (rows - 1) * cols;
      MulStep(rows - 1, cols);
    }
  }

  /** Scrolling for one line after another comes to scrolling for the longest of them. */
  lemma ShiftsAddUp(rows: nat, cols: nat, start: nat, off: nat, longest: nat, n: nat)
    requires rows >= 1 && cols >= 1
    requires off == Shift(rows, cols, start + longest) && off <= start
    ensures off + Shift(rows, cols, start - off + n) == Shift(rows, cols, start + if n > longest then n else longest)
  {
    var p, q := start + longest, start + n;
    ShiftFacts(rows, cols, p);
    if n <= longest {
      ShiftFacts(rows, cols, q - off);
    } else if off > 0 {
      var k := RowsScrolled(rows, cols, p);
      DivShift(q, -k, cols);
      MulNegative(k, cols);
      QuotientMonotone(p, q, cols);
      var j := RowsScrolled(rows, cols, q) - k;
      MulSum(j, k, cols);
    }
  }

  lemma NothingScrolls(size: nat, cols: nat, p: nat, off: nat)
    requires cols >= 1 && ScrolledBy(size, cols, p, off) && p <= size
    ensures off == 0
  {
    PositiveMultiple(off, cols);
  }

  lemma LastScrolledPosition(rows: nat, cols: nat, p: nat, off: nat)
    requires rows >= 1 && cols >= 1 && ScrolledBy(rows * cols, cols, p, off) && p >= rows * cols
    ensures p - off == if p % cols == 0 then rows * cols else (rows - 1) * cols + p % cols
  {
    var size, x := rows * cols, p - off;
    MulStep(rows - 1, cols);
    assert size - cols < x <= size;
    SubMultiple(p, off, cols);
    if p % cols == 0 {
      Multiple(rows, cols);
      CongruentClose(x, size, cols);
    } else {
      var y := p % cols + (rows - 1) * cols;
      DivShift(p % cols, rows - 1, cols);
      assert size - cols <= y < size;
      assert x % cols == y % cols by { RemainderIsSmall(p, cols); }
      CongruentClose(x, y, cols);
    }
  }

  /**
   * Scroll agreement: the cells a deferred-wrap terminal really scrolls, plus the row of
   * the forced newline when the column comes out as 0, are those the renderer computes.
   */
  lemma ScrollAgreement(rows: nat, cols: nat, p: nat, off: nat)
    requires rows >= 1 && cols >= 1 && ScrolledBy(rows * cols, cols, p, off)
    ensures Shift(rows, cols, p) == off + if p >= rows * cols && p % cols == 0 then cols else 0
  {
    ShiftFacts(rows, cols, p);
    MulStep(rows - 1, cols);
    if p < rows * cols {
      NothingScrolls(rows * cols, cols, p, off);
    } else {
      LastScrolledPosition(rows, cols, p, off);
    }
  }

  function Home(s: Screen, base: nat): Screen
    requires base < |s.cells|
  {
    s.(at := base, wrap := false)
  }

  /** Printing a line from `base`, with the newline that forces a pending scroll. */
  function Draw(s: Screen, base: nat, g: seq<uchar>): Screen
    requires base < |s.cells|
  {
    var t := PrintAll(Home(s, base), g);
    if base + |g| >= |s.cells| && (base + |g|) % s.cols == 0 then LineFeed(t) else t
  }

  /** A line feed at a pending wrap completes the wrap. */
  lemma LineFeedCompletesWrap(t: Screen)
    requires t.wrap
    ensures LineFeed(t) == Ensure(t, t.at + 1)
  {
    var q := t.at / t.cols;
    assert t.at == q * t.cols + t.at % t.cols;
    MulStep(q, t.cols);
    if t.at % t.cols != t.cols - 1 {
      DivUnique(t.at + 1, t.cols, q, t.at % t.cols + 1);
    }
  }

  lemma WrapIsForced(t: Screen, cells: seq<uchar>, base: nat, g: seq<uchar>, off: nat)
    requires OnTape(t.cells, cells, base, g, off) && t.wrap && Next(t) == |t.cells| == base + |g| - off
    ensures
      var u := LineFeed(t);
      && u.rows == t.rows && u.cols == t.cols && Next(u) == |t.cells| - t.cols
      && OnTape(u.cells, cells, base, g, off + t.cols)
  {
    LastRow(t);
    LineFeedCompletesWrap(t);
    OnTapeScroll(t.cells, cells, base, g, off, t.cols);
  }

  /** `t` is the screen `s` after the line `g` has been drawn from `base` and `shift` cells have scrolled away. */
  ghost predicate Drawn(s: Screen, base: nat, g: seq<uchar>, shift: nat, t: Screen) {
    && t.rows == s.rows && t.cols == s.cols
    && shift <= base + |g| && Next(t) == base + |g| - shift
    && OnTape(t.cells, s.cells, base, g, shift)
  }

  lemma DrawWithNewline(s: Screen, base: nat, g: seq<uchar>)
    requires base < |s.cells| && base + |g| >= |s.cells| && (base + |g|) % s.cols == 0
    ensures Drawn(s, base, g, Shift(s.rows, s.cols, base + |g|), Draw(s, base, g))
  {
    var t, p := PrintAll(Home(s, base), g), base + |g|;
    var off := PrintsOnTape(Home(s, base), g);
    ScrollAgreement(s.rows, s.cols, p, off);
    LastScrolledPosition(s.rows, s.cols, p, off);
    Multiple(s.rows, s.cols);
    WrapIsForced(t, s.cells, base, g, off);
  }

  /** After drawing, the screen is the tape with the line on it, shifted as the renderer computes. */
  lemma DrawAgrees(s: Screen, base: nat, g: seq<uchar>)
    requires base < |s.cells|
    ensures Drawn(s, base, g, Shift(s.rows, s.cols, base + |g|), Draw(s, base, g))
    ensures Next(Draw(s, base, g)) < |s.cells|
  {
    var p := base + |g|;
    if p >= |s.cells| && p % s.cols == 0 {
      DrawWithNewline(s, base, g);
    } else {
      var off := PrintsOnTape(Home(s, base), g);
      ScrollAgreement(s.rows, s.cols, p, off);
    }
    ShiftFacts(s.rows, s.cols, p);
  }

  /**
   * What the screen is made of: the cells found at the start, those scrolled away since,
   * where the line now starts, and how far from there a line has ever reached.
   */
  datatype Scene = Scene(original: seq<uchar>, off: nat, base: int, extent: nat)

  /** Cell `i`: the line, blanks where a longer line has been, else what was there all along. */
  function CellOf(sc: Scene, line: seq<uchar>, i: nat): uchar {
    var j := i - sc.base;
    if 0 <= j < |line| then line[j]
    else if |line| <= j < sc.extent then BLANK
    else if i + sc.off < |sc.original| then sc.original[i + sc.off]
    else BLANK
  }

  /** The whole screen is accounted for. */
  ghost predicate Shows(s: Screen, sc: Scene, line: seq<uchar>) {
    |sc.original| == |s.cells| && forall i: nat :: i < |s.cells| ==> s.cells[i] == CellOf(sc, line, i)
  }

  /** A redraw: the line from its start, then blanks over what is left of a longer one. */
  function Repaint(s: Screen, base: nat, g: seq<uchar>, erase: nat): Screen
    requires base < |s.cells|
  {
    PrintAll(Draw(s, base, g), Blanks(erase))
  }

  function RepaintedScene(s: Screen, sc: Scene, line: seq<uchar>): Scene
    requires 0 <= sc.base
  {
    var shift := Shift(s.rows, s.cols, sc.base + |line|);
    Scene(sc.original, sc.off + shift, sc.base - shift, if |line| > sc.extent then |line| else sc.extent)
  }

  lemma ShowsAfterDraw(s: Screen, sc: Scene, before: seq<uchar>, line: seq<uchar>, t: Screen)
    requires Shows(s, sc, before) && 0 <= sc.base && |before| <= sc.extent
    requires Drawn(s, sc.base, line, Shift(s.rows, s.cols, sc.base + |line|), t)
    requires sc.base + |before| < |s.cells|
    requires |before| <= |line|
    ensures Shows(t, RepaintedScene(s, sc, line), line)
  {
    var n, shift := RepaintedScene(s, sc, line), Shift(s.rows, s.cols, sc.base + |line|);
    forall i: nat | i < |t.cells| ensures t.cells[i] == CellOf(n, line, i) {
      assert t.cells[i] == TapeAt(s.cells, sc.base, line, i + shift);
      assert i - n.base == i + shift - sc.base;
    }
  }

  lemma ShowsAfterErase(s: Screen, sc: Scene, before: seq<uchar>, line: seq<uchar>, t: Screen, u: Screen)
    requires Shows(s, sc, before) && 0 <= sc.base && |line| < |before| <= sc.extent
    requires OnTape(t.cells, s.cells, sc.base, line, 0)
    requires OnTape(u.cells, t.cells, sc.base + |line|, Blanks(|before| - |line|), 0)
    ensures Shows(u, sc, line)
  {
    forall i: nat | i < |u.cells| ensures u.cells[i] == CellOf(sc, line, i) {
      assert u.cells[i] == TapeAt(t.cells, sc.base + |line|, Blanks(|before| - |line|), i + 0);
      assert t.cells[i] == TapeAt(s.cells, sc.base, line, i + 0);
    }
  }

  /** Blanks needed to cover what is left of the line drawn before. */
  function Erase(before: nat, now: nat): nat {
    if before > now then before - now else 0
  }

  /** A redraw of any line over any earlier one leaves the screen fully accounted for. */
  lemma RepaintShows(s: Screen, sc: Scene, before: seq<uchar>, line: seq<uchar>)
    requires Shows(s, sc, before) && 0 <= sc.base && |before| <= sc.extent
    requires sc.base + |before| < |s.cells|
    ensures
      var u := Repaint(s, sc.base, line, Erase(|before|, |line|));
      && Shows(u, RepaintedScene(s, sc, line), line)
      && u.rows == s.rows && u.cols == s.cols
      && RepaintedScene(s, sc, line).base + |line| < |s.cells|
      && |line| <= RepaintedScene(s, sc, line).extent
  {
    hide Drawn, OnTape, Print;
    var t := Draw(s, sc.base, line);
    DrawAgrees(s, sc.base, line);
    if |before| <= |line| {
      ShowsAfterDraw(s, sc, before, line, t);
      assert Blanks(0) == [];
    } else {
      ShiftFacts(s.rows, s.cols, sc.base + |line|);
      var blanks := Blanks(|before| - |line|);
      var off := PrintsOnTape(t, blanks);
      NothingScrolls(|s.cells|, s.cols, sc.base + |before|, off);
      ShowsAfterErase(s, sc, before, line, t, PrintAll(t, blanks));
    }
  }

  /**
   * The start of the line stays on the screen exactly when the line is no longer than the
   * rows above the last one, plus what it takes of its last row.
   */
  lemma BaseStaysOnScreen(rows: nat, cols: nat, base: nat, n: nat)
    requires rows >= 1 && cols >= 1 && base < rows * cols
    ensures base - Shift(rows, cols, base + n) >= 0 <==> n <= (rows - 1) * cols + (base + n) % cols
    ensures n <= (rows - 1) * cols ==> base - Shift(rows, cols, base + n) >= 0
  {
    ShiftFacts(rows, cols, base + n);
    MulStep(rows - 1, cols);
    if base + n < rows * cols {
      OneRowLess(rows, cols, base, n);
    }
  }

  lemma OneRowLess(rows: nat, cols: nat, base: nat, n: nat)
    requires rows >= 1 && cols >= 1 && base + n < rows * cols
    ensures n <= (rows - 1) * cols + (base + n) % cols
  {
    var p := base + n;
    RowInGrid(p, rows, cols);
    MulMonotone(p / cols, rows - 1, cols);
  }
}
