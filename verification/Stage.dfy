/**
 * The line being edited, what the renderer remembers of the screen, and the screen
 * itself, with the invariant that ties them together in every reachable state.
 */
module Stage {
  import opened Utf8
  import opened Terminal
  import opened Picture
  import opened Arithmetic
  import opened Dictionary
  import opened Vt

  datatype EchoMode = Off | On | Obscured

  const STAR: uchar := 42

  /** cursor_pos. */
  datatype Pos = Pos(row: nat, col: nat)

  /**
   * `tracked`: no redraw has pushed the start of the line off the screen, and every address
   * fitted an int32_t. `plain`: every line drawn consisted of glyphs one cell wide.
   */
  datatype Stage = Stage(
    mode: EchoMode, cols: nat, width: uchar -> nat,
    line: seq<uchar>, cursor: nat, renderCursor: nat, dirty: bool,
    pos: Pos, lastWidth: nat,
    screen: Screen, scene: Scene, drawn: seq<uchar>,
    tracked: bool, plain: bool)

  /** Cells one character takes: its own width, or that of the star shown for it. */
  function Cells(mode: EchoMode, width: uchar -> nat, c: uchar): nat {
    if mode == Obscured then 1 else width(c)
  }

  /** ucswidth, or the number of stars. */
  function Width(mode: EchoMode, width: uchar -> nat, s: seq<uchar>): nat {
    if s == [] then 0
    else Width(mode, width, s[..|s| - 1]) + Cells(mode, width, s[|s| - 1])
  }

  /** What is printed for a line. */
  function Visible(mode: EchoMode, s: seq<uchar>): (g: seq<uchar>)
    ensures |g| == |s|
  {
    if mode == Obscured then seq<uchar>(|s|, i => STAR) else s
  }

  predicate PlainLine(mode: EchoMode, width: uchar -> nat, s: seq<uchar>) {
    mode == Obscured || forall i :: 0 <= i < |s| ==> Glyph(s[i]) && width(s[i]) == 1
  }

  lemma {:induction false} PlainWidth(mode: EchoMode, width: uchar -> nat, s: seq<uchar>)
    requires PlainLine(mode, width, s)
    ensures Width(mode, width, s) == |s| && AllGlyphs(Visible(mode, s))
  {
    if s != [] {
      PlainWidth(mode, width, s[..|s| - 1]);
    }
  }

  lemma {:induction false} WidthMonotone(mode: EchoMode, width: uchar -> nat, s: seq<uchar>, m: nat, n: nat)
    requires m <= n <= |s|
    ensures Width(mode, width, s[..m]) <= Width(mode, width, s[..n])
    decreases n
  {
    if m < n {
      assert s[..n][..n - 1] == s[..n - 1];
      WidthMonotone(mode, width, s, m, n - 1);
    }
  }

  function Linear(p: Pos, cols: nat): int {
    p.row * cols + p.col
  }

  /** The row and column of a cell counted in reading order. */
  function PosOf(p: nat, cols: nat): Pos
    requires cols >= 1
  {
    Pos(p / cols, p % cols)
  }

  lemma LinearOfPos(p: nat, cols: nat)
    requires cols >= 1
    ensures Linear(PosOf(p, cols), cols) == p && PosOf(p, cols).col < cols
  {
  }

  /** linear_offset_to_2d. */
  function Offset(p: Pos, cols: nat, offset: int): Pos
    requires cols >= 1
  {
    var linear := Linear(p, cols) + offset;
    if linear < 0 then Pos(0, 0) else PosOf(linear, cols)
  }

  /** The fallback at the origin loses the offset exactly when the target lies before it. */
  lemma OffsetIsExact(p: Pos, cols: nat, offset: int)
    requires cols >= 1
    ensures Linear(Offset(p, cols, offset), cols) == Linear(p, cols) + offset <==> Linear(p, cols) + offset >= 0
    ensures Offset(p, cols, offset).col < cols
  {
  }

  /** Addresses the formatter can print. */
  predicate Addressable(p: Pos) {
    p.row < 0x7FFF_FFFF && p.col < 0x7FFF_FFFF
  }

  /**
   * The screen shows the line, having scrolled no further than the longest line drawn needs;
   * once nothing is left to draw the terminal's cursor is at ours. A wrap that was pending at
   * the start is gone as soon as anything has been sent.
   */
  ghost predicate InPicture(st: Stage) {
    && Shows(st.screen, st.scene, st.drawn)
    && |st.drawn| == st.lastWidth <= st.scene.extent
    && st.scene.base + st.lastWidth < |st.screen.cells|
    && (var end := st.scene.base + st.scene.off + st.scene.extent;
        end >= 0 && st.scene.off == Picture.Shift(st.screen.rows, st.screen.cols, end))
    && (!st.dirty ==>
          && st.drawn == Visible(st.mode, st.line) && PlainLine(st.mode, st.width, st.line)
          && st.renderCursor == st.cursor
          && st.screen.at == st.scene.base + st.cursor && (st.screen.wrap ==> st.line == []))
  }

  /** The tracked position is where the drawn part of the line ends at the render cursor. */
  ghost predicate OnTrack(st: Stage)
    requires st.renderCursor <= |st.line| && st.cols >= 1
  {
    && 0 <= st.scene.base < |st.screen.cells| && st.scene.off % st.cols == 0
    && st.pos == PosOf(st.scene.base + Width(st.mode, st.width, st.line[..st.renderCursor]), st.cols)
  }

  ghost predicate Coherent(st: Stage) {
    && st.cols == st.screen.cols
    && st.renderCursor <= st.cursor <= |st.line|
    && (st.mode == Off ==> st.renderCursor == 0)
    && (st.mode != Off && st.tracked ==> OnTrack(st))
    && (st.mode != Off && st.tracked && st.plain ==> InPicture(st))
  }

  const BLANK_STAGE: Stage := Stage(Off, 1, c => 1, [], 0, 0, false, Pos(0, 0), 0,
                             Grid(1, 1, [BLANK], 0, false), Scene([BLANK], 0, 0, 0), [], false, false)

  type SoundStage = st: Stage | Coherent(st) witness BLANK_STAGE

  /** The state right after nrl_render_init: nothing drawn, the cursor wherever the terminal has it. */
  function Opened(mode: EchoMode, width: uchar -> nat, screen: Screen, pos: Pos): Stage {
    Stage(mode, screen.cols, width, [], 0, 0, false, pos, 0, screen, Scene(screen.cells, 0, screen.at, 0), [], true, true)
  }

  lemma FirstStage(mode: EchoMode, width: uchar -> nat, screen: Screen, pos: Pos) returns (st: SoundStage)
    requires pos == PosOf(screen.at, screen.cols)
    ensures st == Opened(mode, width, screen, pos)
  {
    var first := Opened(mode, width, screen, pos);
    assert Visible(mode, []) == [];
    assert Shows(screen, first.scene, []);
    ShiftFacts(screen.rows, screen.cols, screen.at);
    st := first;
  }

  /** Text entered, or a character taken out, behind the render cursor. */
  lemma AfterEdit(st: SoundStage, line: seq<uchar>, cursor: nat) returns (r: SoundStage)
    requires st.renderCursor <= cursor <= |line|
    requires line[..st.renderCursor] == st.line[..st.renderCursor]
    ensures r == st.(line := line, cursor := cursor, dirty := true)
  {
    r := st.(line := line, cursor := cursor, dirty := true);
  }

  /** Where move_to_pos goes from `pos`, by the difference of the widths before `from` and `to`. */
  function Goal(mode: EchoMode, width: uchar -> nat, cols: nat, line: seq<uchar>, pos: Pos, from: nat, to: nat): Pos
    requires cols >= 1 && from <= |line| && to <= |line|
  {
    Offset(pos, cols, Width(mode, width, line[..to]) - Width(mode, width, line[..from]))
  }

  function Target(st: Stage, to: nat): Pos
    requires st.cols >= 1 && st.renderCursor <= |st.line| && to <= |st.line|
  {
    Goal(st.mode, st.width, st.cols, st.line, st.pos, st.renderCursor, to)
  }

  lemma OffsetOfPos(p: nat, cols: nat, offset: int)
    requires cols >= 1 && p + offset >= 0
    ensures Offset(PosOf(p, cols), cols, offset) == PosOf(p + offset, cols)
  {
    LinearOfPos(p, cols);
  }

  lemma TargetIsExact(st: SoundStage, to: nat)
    requires st.mode != Off && st.tracked && to <= |st.line|
    ensures Target(st, to) == PosOf(st.scene.base + Width(st.mode, st.width, st.line[..to]), st.cols)
  {
    var here: int, there: int := Width(st.mode, st.width, st.line[..st.renderCursor]), Width(st.mode, st.width, st.line[..to]);
    OffsetOfPos(st.scene.base + here, st.cols, there - here);
  }

  /** nrl_render_sync_cursors after the cursor has been set to `to`. */
  function Synced(st: Stage, to: nat): Stage
    requires st.cols >= 1 && st.renderCursor <= |st.line| && to <= |st.line|
  {
    if st.mode == Off then st.(cursor := to)
    else
      var p := Target(st, to);
      st.(cursor := to, renderCursor := to, pos := p, screen := MoveTo(st.screen, p.row, p.col),
          tracked := st.tracked && Addressable(p))
  }

  /** Moving the cursor keeps the invariant, even over text that has not been drawn yet. */
  lemma AfterSync(st: SoundStage, to: nat) returns (r: SoundStage)
    requires to <= |st.line|
    ensures r == Synced(st, to)
  {
    if st.mode != Off && st.tracked {
      TargetIsExact(st, to);
      if st.plain && !st.dirty {
        PlainWidth(st.mode, st.width, st.line[..to]);
        MoveToCell(st.screen, st.scene.base + to);
      }
    }
    r := Synced(st, to);
  }

  function Whole(st: Stage): nat {
    Width(st.mode, st.width, st.line)
  }

  /** The position after printing, before and after handle_scroll. */
  function AfterPrint(st: Stage): Pos
    requires st.cols >= 1 && st.renderCursor <= |st.line|
  {
    Offset(Target(st, 0), st.cols, Whole(st))
  }

  function HandleScroll(rows: nat, p: Pos): Pos
    requires rows >= 1
  {
    if p.row >= rows then Pos(rows - 1, p.col) else p
  }

  function Settled(st: Stage): Pos
    requires st.cols >= 1 && st.renderCursor <= |st.line|
  {
    HandleScroll(st.screen.rows, AfterPrint(st))
  }

  /** Where a redraw leaves the cursor. */
  function EndOfRedraw(st: Stage): Pos
    requires st.cols >= 1 && st.renderCursor <= |st.line| && st.cursor <= |st.line|
  {
    Offset(Settled(st), st.cols, Width(st.mode, st.width, st.line[..st.cursor]) - Whole(st))
  }

  /** The cells by which a redraw makes the terminal scroll. */
  function ShiftOf(st: Stage): nat
    requires st.cols >= 1
  {
    if st.scene.base < 0 then 0 else Picture.Shift(st.screen.rows, st.cols, st.scene.base + Whole(st))
  }

  function SceneAfter(st: Stage): Scene
    requires st.cols >= 1
  {
    var sc, shift := st.scene, ShiftOf(st);
    Scene(sc.original, sc.off + shift, sc.base - shift, if |st.line| > sc.extent then |st.line| else sc.extent)
  }

  /** handle_scroll forces a pending scroll with a newline. */
  predicate ForcesNewline(rows: nat, p: Pos) {
    p.row >= rows && p.col == 0
  }

  /** What a redraw sends, as the terminal carries it out. */
  function RedrawScreen(s: Screen, home: Pos, g: seq<uchar>, newline: bool, erase: nat, end: Pos): Screen {
    var printed := PrintAll(MoveTo(s, home.row, home.col), g);
    var scrolled := if newline then LineFeed(printed) else printed;
    MoveTo(PrintAll(scrolled, Blanks(erase)), end.row, end.col)
  }

  function ScreenAfter(st: Stage): Screen
    requires st.cols >= 1 && st.renderCursor <= |st.line| && st.cursor <= |st.line|
  {
    RedrawScreen(st.screen, Target(st, 0), Visible(st.mode, st.line),
                 ForcesNewline(st.screen.rows, AfterPrint(st)), Erase(st.lastWidth, |st.line|), EndOfRedraw(st))
  }

  /** nrl_render_redraw. */
  function Redrawn(st: Stage): Stage
    requires st.cols >= 1 && st.renderCursor <= |st.line| && st.cursor <= |st.line|
  {
    if st.mode == Off then st.(dirty := false)
    else
      st.(dirty := false, renderCursor := st.cursor, pos := EndOfRedraw(st), lastWidth := Whole(st),
          drawn := Visible(st.mode, st.line), screen := ScreenAfter(st), scene := SceneAfter(st),
          tracked := st.tracked && SceneAfter(st).base >= 0 && Addressable(Target(st, 0)) && Addressable(EndOfRedraw(st)),
          plain := st.plain && PlainLine(st.mode, st.width, st.line))
  }

  /**
   * The number of blanks mixes a width with a count of characters: they cover what is left
   * of any earlier line exactly when the line is at least as wide as it has characters, and
   * never go beyond it exactly when it is at most that wide.
   */
  lemma BlanksCoverIff(mode: EchoMode, width: uchar -> nat, line: seq<uchar>)
    ensures (forall before: nat :: Width(mode, width, line) + Erase(before, |line|) >= before)
       <==> Width(mode, width, line) >= |line|
    ensures (forall before: nat :: Erase(before, |line|) > 0 ==> Width(mode, width, line) + Erase(before, |line|) <= before)
       <==> Width(mode, width, line) <= |line|
  {
    var w, n := Width(mode, width, line), |line|;
    assert Erase(n, n) == 0 && Erase(n + 1, n) == 1;
    if w > n {
      assert w + Erase(n + 1, n) > n + 1;
    } else if w < n {
      assert w + Erase(n, n) < n;
    }
  }

  /** handle_scroll moves the position by exactly the cells Shift names. */
  lemma ScrollKeepsTrack(rows: nat, cols: nat, p: nat)
    requires rows >= 1 && cols >= 1
    ensures p - Picture.Shift(rows, cols, p) >= 0
    ensures HandleScroll(rows, PosOf(p, cols)) == PosOf(p - Picture.Shift(rows, cols, p), cols)
    ensures ForcesNewline(rows, PosOf(p, cols)) <==> p >= rows * cols && p % cols == 0
  {
    ShiftFacts(rows, cols, p);
    if p >= rows * cols {
      DivUnique((rows - 1) * cols + p % cols, cols, rows - 1, p % cols);
    }
  }

  lemma PrintIsExact(st: SoundStage)
    requires st.mode != Off && st.tracked
    ensures Target(st, 0) == PosOf(st.scene.base, st.cols)
    ensures AfterPrint(st) == PosOf(st.scene.base + Whole(st), st.cols)
  {
    assert st.line[..0] == [];
    TargetIsExact(st, 0);
    OffsetOfPos(st.scene.base, st.cols, Whole(st));
  }

  lemma EndIsExact(st: SoundStage)
    requires st.mode != Off && st.tracked && SceneAfter(st).base >= 0
    ensures EndOfRedraw(st) == PosOf(SceneAfter(st).base + Width(st.mode, st.width, st.line[..st.cursor]), st.cols)
  {
    var p, shift, c := st.scene.base + Whole(st), ShiftOf(st), Width(st.mode, st.width, st.line[..st.cursor]);
    PrintIsExact(st);
    ScrollKeepsTrack(st.screen.rows, st.cols, p);
    OffsetOfPos(p - shift, st.cols, c - Whole(st));
  }

  lemma RedrawScreenIsRepaint(s: Screen, base: nat, g: seq<uchar>, erase: nat, end: Pos)
    requires base < |s.cells|
    ensures RedrawScreen(s, PosOf(base, s.cols), g, ForcesNewline(s.rows, PosOf(base + |g|, s.cols)), erase, end)
         == MoveTo(Repaint(s, base, g, erase), end.row, end.col)
  {
    MoveToCell(s, base);
    ScrollKeepsTrack(s.rows, s.cols, base + |g|);
  }

  /** The picture a redraw leaves, given what it sends. */
  lemma RepaintedPicture(st: SoundStage, end: Pos, sc: Scene)
    requires st.mode != Off && st.tracked && st.plain && PlainLine(st.mode, st.width, st.line)
    requires sc == RepaintedScene(st.screen, st.scene, Visible(st.mode, st.line)) && sc.base >= 0
    requires end == PosOf(sc.base + st.cursor, st.cols)
    ensures
      var g := Visible(st.mode, st.line);
      var u := Repaint(st.screen, st.scene.base, g, Erase(st.lastWidth, |g|));
      var v := MoveTo(u, end.row, end.col);
      && Shows(v, sc, g) && |g| <= sc.extent && sc.base + |g| < |v.cells|
      && v.at == sc.base + st.cursor && !v.wrap && v.rows == st.screen.rows && v.cols == st.cols
  {
    var g := Visible(st.mode, st.line);
    RepaintShows(st.screen, st.scene, st.drawn, g);
    MoveToCell(Repaint(st.screen, st.scene.base, g, Erase(st.lastWidth, |g|)), sc.base + st.cursor);
  }

  lemma ScreenAfterIsRepaint(st: SoundStage)
    requires st.mode != Off && st.tracked && st.plain && PlainLine(st.mode, st.width, st.line)
    ensures
      var g, end := Visible(st.mode, st.line), EndOfRedraw(st);
      ScreenAfter(st) == MoveTo(Repaint(st.screen, st.scene.base, g, Erase(st.lastWidth, |g|)), end.row, end.col)
  {
    var g := Visible(st.mode, st.line);
    PlainWidth(st.mode, st.width, st.line);
    PrintIsExact(st);
    RedrawScreenIsRepaint(st.screen, st.scene.base, g, Erase(st.lastWidth, |g|), EndOfRedraw(st));
  }

  lemma RedrawShows(st: SoundStage)
    requires st.mode != Off && st.tracked && SceneAfter(st).base >= 0
    requires st.plain && PlainLine(st.mode, st.width, st.line)
    ensures InPicture(Redrawn(st)) && Redrawn(st).screen.cols == st.cols
  {
    hide Shows, Offset, Repaint, RedrawScreen, Erase, HandleScroll, ForcesNewline, Picture.Shift;
    PlainWidth(st.mode, st.width, st.line);
    PlainWidth(st.mode, st.width, st.line[..st.cursor]);
    EndIsExact(st);
    ScreenAfterIsRepaint(st);
    RepaintedPicture(st, EndOfRedraw(st), SceneAfter(st));
    ScrolledForLongest(st);
  }

  /** The screen has scrolled as far as the longest line drawn needs, and no further. */
  lemma ScrolledForLongest(st: SoundStage)
    requires st.mode != Off && st.tracked && st.plain && PlainLine(st.mode, st.width, st.line)
    ensures
      var sc := SceneAfter(st);
      sc.base + sc.off >= 0 && sc.off == Picture.Shift(st.screen.rows, st.cols, sc.base + sc.off + sc.extent)
  {
    hide Shows;
    PlainWidth(st.mode, st.width, st.line);
    ShiftsAddUp(st.screen.rows, st.cols, st.scene.base + st.scene.off, st.scene.off, st.scene.extent, |st.line|);
  }

  lemma RowsStayWhole(st: SoundStage)
    requires st.mode != Off && st.tracked
    ensures SceneAfter(st).off % st.cols == 0
  {
    var p := st.scene.base + Whole(st);
    ShiftFacts(st.screen.rows, st.cols, p);
    SumOfMultiples(st.scene.off, Picture.Shift(st.screen.rows, st.cols, p), st.cols);
  }

  lemma RedrawScreenSize(s: Screen, home: Pos, g: seq<uchar>, newline: bool, erase: nat, end: Pos)
    ensures
      var t := RedrawScreen(s, home, g, newline, erase, end);
      t.cols == s.cols && t.rows == s.rows && |t.cells| == |s.cells|
  {
  }

  /** A redraw restores the whole picture. */
  lemma AfterRedraw(st: SoundStage) returns (r: SoundStage)
    ensures r == Redrawn(st)
  {
    if st.mode != Off {
      RedrawScreenSize(st.screen, Target(st, 0), Visible(st.mode, st.line),
                       ForcesNewline(st.screen.rows, AfterPrint(st)), Erase(st.lastWidth, |st.line|), EndOfRedraw(st));
      if Redrawn(st).tracked {
        EndIsExact(st);
        RowsStayWhole(st);
        if Redrawn(st).plain {
          RedrawShows(st);
        }
      }
    }
    r := Redrawn(st);
  }

  /** The line never pushes its own start off a screen of usual size. */
  ghost predicate LineNarrow(mode: EchoMode, width: uchar -> nat, rows: nat, cols: nat, line: seq<uchar>) {
    Width(mode, width, line) <= (rows - 1) * cols && rows <= 0xFFFF && cols <= 0xFFFF
  }

  ghost predicate IsNarrow(st: Stage) {
    LineNarrow(st.mode, st.width, st.screen.rows, st.cols, st.line)
  }

  ghost predicate Tracked(st: Stage) {
    st.mode != Off ==> st.tracked
  }

  ghost predicate AllPlain(st: Stage) {
    st.mode != Off ==> st.plain
  }

  lemma CellIsAddressable(p: nat, rows: nat, cols: nat)
    requires cols >= 1 && p < rows * cols + rows * cols && rows <= 0xFFFF && cols <= 0xFFFF
    ensures Addressable(PosOf(p, cols))
  {
    RowInGrid(p, rows + rows, cols);
  }

  /** For glyphs of any width a cursor movement within a narrow line is tracked, drawn or not. */
  lemma SyncStaysTracked(st: SoundStage, to: nat)
    requires IsNarrow(st) && Tracked(st) && to <= |st.line|
    ensures Tracked(Synced(st, to))
  {
    if st.mode != Off {
      TargetIsExact(st, to);
      WholeIsLargest(st.mode, st.width, st.line, to);
      MulStep(st.screen.rows - 1, st.cols);
      CellIsAddressable(st.scene.base + Width(st.mode, st.width, st.line[..to]), st.screen.rows, st.cols);
    }
  }

  lemma WholeIsLargest(mode: EchoMode, width: uchar -> nat, s: seq<uchar>, n: nat)
    requires n <= |s|
    ensures Width(mode, width, s[..n]) <= Width(mode, width, s)
  {
    WidthMonotone(mode, width, s, n, |s|);
    assert s[..|s|] == s;
  }

  /** And so is a redraw of a narrow line. */
  lemma RedrawStaysTracked(st: SoundStage)
    requires IsNarrow(st) && Tracked(st)
    ensures Tracked(Redrawn(st))
  {
    hide Offset, RedrawScreen, Shows, Addressable;
    if st.mode != Off {
      var rows, cols, base, n: nat := st.screen.rows, st.cols, st.scene.base, Whole(st);
      WholeIsLargest(st.mode, st.width, st.line, st.cursor);
      BaseStaysOnScreen(rows, cols, base, n);
      PrintIsExact(st);
      EndIsExact(st);
      MulStep(rows - 1, cols);
      CellIsAddressable(base, rows, cols);
      CellIsAddressable(SceneAfter(st).base + Width(st.mode, st.width, st.line[..st.cursor]), rows, cols);
    }
  }

  /** What every operation but a redraw keeps: the picture's parts, and the track while the line is narrow. */
  ghost predicate Follows(a: Stage, b: Stage) {
    b.scene == a.scene && b.plain == a.plain && (IsNarrow(a) && Tracked(a) ==> Tracked(b))
  }

  /** vec_erase at the cursor. */
  function Deleted(st: Stage): Stage
    requires st.cursor <= |st.line|
  {
    if st.cursor < |st.line| then st.(line := st.line[..st.cursor] + st.line[st.cursor + 1..], dirty := true) else st
  }

  /** What a standard key does to line, renderer and terminal. */
  function Pressed(st: Stage, key: nat): Stage
    requires st.cols >= 1 && st.renderCursor <= |st.line| && st.cursor <= |st.line|
  {
    if key == KEY_LEFT then if st.cursor > 0 then Synced(st, st.cursor - 1) else st
    else if key == KEY_RIGHT then if st.cursor < |st.line| then Synced(st, st.cursor + 1) else st
    else if key == KEY_BACKSPACE then if st.cursor > 0 then Deleted(Synced(st, st.cursor - 1)) else st
    else if key == KEY_HOME then Synced(st, 0)
    else if key == KEY_END then Synced(st, |st.line|)
    else if key == KEY_DELETE then Deleted(st)
    else st
  }

  /** The scene is still that of the first screen. */
  ghost predicate Anchored(first: Screen, st: Stage) {
    && st.scene.original == first.cells && st.scene.base + st.scene.off == first.at
    && st.cols == first.cols && st.screen.rows == first.rows
  }
}
