/** The main loop of src/nanorl.c. */
module Nanorl {
  import opened Bytes
  import opened Utf8
  import opened Dictionary
  import opened Dfa
  import opened Tokens
  import opened Refill
  import opened Reader
  import opened Terminal
  import opened Arithmetic
  import opened Picture
  import opened Vt
  import opened Stage
  import opened Output
  import opened Custom
  import opened Editor
  import Z = Zipper

  /** custom_ignore_default, nrl_lookup_custom, and the handlers in force. */
  datatype Settings = Settings(ignoreDefault: bool, lookup: nat -> seq<byte>, handlers: map<nat, Handler>)

  ghost predicate Usable(cfg: Settings) {
    forall k :: k in cfg.handlers ==> WellBehaved(cfg.handlers[k])
  }

  /** Handlers are only installed when the line is echoed. */
  function Enabled(cfg: Settings, mode: EchoMode): Settings {
    if mode == On then cfg else cfg.(handlers := map[])
  }

  predicate Proper(t: Token) {
    t.Text? ==> AllPrintable(t.text)
  }

  ghost predicate AllProper(ts: seq<Token>) {
    forall i :: 0 <= i < |ts| ==> Proper(ts[i])
  }

  /** What one token does to the line. */
  function Do(cfg: Settings, z: Z.Zipper, t: Token): (r: Z.Zipper)
    requires Usable(cfg) && 0 !in Z.Line(z) && Proper(t)
    ensures 0 !in Z.Line(r)
  {
    match t
    case Text(text) => PrintableIsNotNul(text); Z.Insert(z, text)
    case Key(key) => Z.Press(z, key)
    case Custom(key) =>
      if key in cfg.handlers then HandleKeepsNulFree(cfg.handlers[key], z); Handle(cfg.handlers[key], z)
      else if cfg.ignoreDefault then z
      else
        var text := Z.Caret(cfg.lookup(key));
        Z.CaretIsPrintable(cfg.lookup(key));
        PrintableIsNotNul(text);
        Z.Insert(z, text)
    case Stop(_) => z
  }

  lemma PrintableIsNotNul(s: seq<uchar>)
    requires AllPrintable(s)
    ensures 0 !in s
  {
  }

  lemma HandleKeepsNulFree(h: Handler, z: Z.Zipper)
    requires Behaves(h, z)
    ensures 0 !in Z.Line(Handle(h, z))
  {
    if h.Narrow? {
      var r := h.edit8(Encode(Z.Line(z)), |Encode(z.before)|);
      DecodeBothSides(r.0, r.1);
    }
  }

  /** Only a handler can bring in a control character. */
  lemma DoKeepsPrintable(cfg: Settings, z: Z.Zipper, t: Token)
    requires Usable(cfg) && 0 !in Z.Line(z) && Proper(t)
    requires AllPrintable(Z.Line(z)) && (t.Custom? ==> t.custom !in cfg.handlers)
    ensures AllPrintable(Z.Line(Do(cfg, z, t)))
  {
    hide Z.Caret, WellBehaved;
    SidesArePrintable(z);
    if t.Custom? {
      Z.CaretIsPrintable(cfg.lookup(t.custom));
    }
  }

  lemma SidesArePrintable(z: Z.Zipper)
    requires AllPrintable(Z.Line(z))
    ensures AllPrintable(z.before) && AllPrintable(z.after)
  {
    forall i | 0 <= i < |z.before| ensures Printable(z.before[i]) {
      assert Z.Line(z)[i] == z.before[i];
    }
    forall i | 0 <= i < |z.after| ensures Printable(z.after[i]) {
      assert Z.Line(z)[|z.before| + i] == z.after[i];
    }
  }

  /** The settings and all the tokens of one run. */
  datatype Course = Course(cfg: Settings, tokens: seq<Token>)

  ghost predicate Complete(r: Course) {
    && Usable(r.cfg) && AllProper(r.tokens)
    && r.tokens != [] && r.tokens[|r.tokens| - 1].Stop?
  }

  const EMPTY_RUN: Course := Course(Settings(true, k => [], map[]), [Stop(true)])

  type Run = r: Course | Complete(r) ghost witness EMPTY_RUN

  /** The line after the first `k` tokens. */
  ghost function After(run: Run, k: nat): (z: Z.Zipper)
    requires k <= |run.tokens|
    ensures 0 !in Z.Line(z)
  {
    if k == 0 then Z.Zipper([], []) else Do(run.cfg, After(run, k - 1), run.tokens[k - 1])
  }

  /** No key that comes up has a handler. */
  ghost predicate Unhandled(run: Run) {
    forall i :: 0 <= i < |run.tokens| && run.tokens[i].Custom? ==> run.tokens[i].custom !in run.cfg.handlers
  }

  lemma {:induction false} AfterIsPrintable(run: Run, k: nat)
    requires k <= |run.tokens| && Unhandled(run)
    ensures AllPrintable(Z.Line(After(run, k)))
  {
    if k > 0 {
      AfterIsPrintable(run, k - 1);
      DoKeepsPrintable(run.cfg, After(run, k - 1), run.tokens[k - 1]);
    }
  }

  // Runs and the stage

  /** So far, up to `n` tokens, the line has never pushed its own start off the screen. */
  ghost predicate AlwaysNarrow(run: Run, n: nat, mode: EchoMode, width: uchar -> nat, rows: nat, cols: nat)
    requires n <= |run.tokens|
  {
    forall k: nat :: k <= n ==> LineNarrow(mode, width, rows, cols, Z.Line(After(run, k)))
  }

  /** So far the line has always consisted of glyphs one cell wide. */
  ghost predicate AlwaysPlain(run: Run, n: nat, mode: EchoMode, width: uchar -> nat)
    requires n <= |run.tokens|
  {
    forall k: nat :: k <= n ==> PlainLine(mode, width, Z.Line(After(run, k)))
  }

  ghost predicate NarrowSoFar(run: Run, n: nat, st: Stage)
    requires n <= |run.tokens|
  {
    AlwaysNarrow(run, n, st.mode, st.width, st.screen.rows, st.cols)
  }

  ghost predicate PlainSoFar(run: Run, n: nat, st: Stage)
    requires n <= |run.tokens|
  {
    AlwaysPlain(run, n, st.mode, st.width)
  }

  /** Line and renderer after `k` tokens. */
  ghost predicate LineInStep(run: Run, k: nat, st: Stage) {
    && k <= |run.tokens| && st.cursor <= |st.line| && Z.Split(st.line, st.cursor) == After(run, k)
    && (NarrowSoFar(run, k, st) ==> Tracked(st)) && (PlainSoFar(run, k, st) ==> AllPlain(st))
  }

  ghost function LineLength(run: Run, k: nat): nat
    requires k <= |run.tokens|
  {
    |Z.Line(After(run, k))|
  }

  /** The longest line so far that has been shown: one after `k` tokens is, if no input was waiting then. */
  ghost function Extent(run: Run, ms: seq<Moment>): nat
    requires |ms| <= |run.tokens| + 1
  {
    if ms == [] then 0
    else
      var k := |ms| - 1;
      var before := Extent(run, ms[..k]);
      if !ms[k].waiting && LineLength(run, k) > before then LineLength(run, k) else before
  }

  /** The stage once the moments `ms` have come: one at the start, and one after each token. */
  ghost predicate InStep(run: Run, ms: seq<Moment>, st: Stage) {
    && 0 < |ms| <= |run.tokens| + 1 && LineInStep(run, |ms| - 1, st)
    && (!ms[|ms| - 1].waiting ==> !st.dirty)
    && (st.mode != Off && NarrowSoFar(run, |ms| - 1, st) && PlainSoFar(run, |ms| - 1, st) ==>
          st.scene.extent == Extent(run, ms))
  }

  /** The terminal is the same one. */
  ghost predicate SameTerminal(a: Stage, b: Stage) {
    b.mode == a.mode && b.width == a.width && b.screen.rows == a.screen.rows && b.cols == a.cols
  }

  lemma NarrowNow(run: Run, k: nat, st: Stage)
    requires LineInStep(run, k, st) && NarrowSoFar(run, k, st)
    ensures IsNarrow(st)
  {
    assert Z.Line(Z.Split(st.line, st.cursor)) == st.line;
  }

  lemma PlainNow(run: Run, k: nat, st: Stage)
    requires LineInStep(run, k, st) && PlainSoFar(run, k, st)
    ensures PlainLine(st.mode, st.width, st.line)
  {
    assert Z.Line(Z.Split(st.line, st.cursor)) == st.line;
  }

  /** One token taken. */
  lemma StepToken(run: Run, k: nat, a: SoundStage, b: SoundStage)
    requires k < |run.tokens| && LineInStep(run, k, a)
    requires SameTerminal(a, b) && Follows(a, b)
    requires Z.Split(b.line, b.cursor) == Do(run.cfg, After(run, k), run.tokens[k])
    ensures LineInStep(run, k + 1, b)
  {
    if NarrowSoFar(run, k, a) {
      NarrowNow(run, k, a);
    }
  }

  /** A redraw. */
  lemma StepRedraw(run: Run, k: nat, a: SoundStage, b: SoundStage)
    requires LineInStep(run, k, a)
    requires b == Redrawn(a) && SameTerminal(a, b) && (IsNarrow(a) && Tracked(a) ==> Tracked(b))
    ensures LineInStep(run, k, b) && !b.dirty
    ensures b.mode != Off ==>
              b.scene.extent == if LineLength(run, k) > a.scene.extent then LineLength(run, k) else a.scene.extent
  {
    if NarrowSoFar(run, k, a) {
      NarrowNow(run, k, a);
    }
    if PlainSoFar(run, k, a) {
      PlainNow(run, k, a);
    }
    assert Z.Line(Z.Split(a.line, a.cursor)) == a.line;
  }

  /** With nothing left to draw the line is no longer than what has been shown. */
  lemma CleanIsWithinExtent(run: Run, k: nat, st: SoundStage)
    requires LineInStep(run, k, st) && NarrowSoFar(run, k, st) && PlainSoFar(run, k, st)
    requires st.mode != Off && !st.dirty
    ensures LineLength(run, k) <= st.scene.extent
  {
    assert Z.Line(Z.Split(st.line, st.cursor)) == st.line;
  }

  /** The moment after a token, redrawn or not. */
  lemma StepMoment(run: Run, ms: seq<Moment>, a: SoundStage, b: SoundStage, next: Moment)
    requires InStep(run, ms, a) && |ms| <= |run.tokens| && SameTerminal(a, b)
    requires LineInStep(run, |ms|, b) && (!next.waiting ==> !b.dirty)
    requires next.waiting ==> b.scene.extent == a.scene.extent
    requires !next.waiting && b.mode != Off ==>
               || b.scene.extent == a.scene.extent
               || b.scene.extent == if LineLength(run, |ms|) > a.scene.extent then LineLength(run, |ms|) else a.scene.extent
    ensures InStep(run, ms + [next], b)
  {
    assert (ms + [next])[..|ms|] == ms;
    if b.mode != Off && NarrowSoFar(run, |ms|, b) && PlainSoFar(run, |ms|, b) && !next.waiting {
      CleanIsWithinExtent(run, |ms|, b);
    }
  }

  /**
   * The screen shows the line `z` from where the first cursor was, with blanks behind it up
   * to `extent`, and everything else as it was before. It has scrolled as far as a line of
   * that extent needs, and the cursor is in its place.
   */
  ghost predicate LineShown(first: Screen, mode: EchoMode, z: Z.Zipper, extent: nat, s: Screen) {
    var off := Picture.Shift(first.rows, first.cols, first.at + extent);
    && s.rows == first.rows && s.cols == first.cols && off <= first.at && |Z.Line(z)| <= extent
    && Shows(s, Scene(first.cells, off, first.at - off, extent), Visible(mode, Z.Line(z)))
    && s.at == first.at - off + |z.before| && (s.wrap ==> Z.Line(z) == [])
  }

  /** What stood before the place of the next glyph is still there, but for the rows that have scrolled away. */
  ghost predicate PromptKept(first: Screen, off: nat, s: Screen) {
    |s.cells| == |first.cells| && forall i: nat :: off <= i < Next(first) ==> s.cells[i - off] == first.cells[i]
  }

  /**
   * A line on the screen leaves what stood before it as it was exactly when no wrap was
   * pending at the start, or its first glyph happens to be the one it was put on.
   */
  lemma PromptKeptIff(first: Screen, mode: EchoMode, z: Z.Zipper, extent: nat, s: Screen)
    requires LineShown(first, mode, z, extent, s) && Z.Line(z) != []
    ensures PromptKept(first, Picture.Shift(first.rows, first.cols, first.at + extent), s)
       <==> !first.wrap || Visible(mode, Z.Line(z))[0] == first.cells[first.at]
  {
    hide LineShown, Picture.Shift, Visible;
    var off, g := Picture.Shift(first.rows, first.cols, first.at + extent), Visible(mode, Z.Line(z));
    ShownCell(first, mode, z, extent, s, first.at);
    forall i: nat | off <= i < first.at ensures s.cells[i - off] == first.cells[i] {
      ShownCell(first, mode, z, extent, s, i);
    }
  }

  /** The cell that cell `i` has become, up to where the line starts. */
  lemma ShownCell(first: Screen, mode: EchoMode, z: Z.Zipper, extent: nat, s: Screen, i: nat)
    requires LineShown(first, mode, z, extent, s) && Z.Line(z) != [] && i <= first.at
    ensures |s.cells| == |first.cells|
    ensures
      var off := Picture.Shift(first.rows, first.cols, first.at + extent);
      off <= first.at && (off <= i ==>
        s.cells[i - off] == if i < first.at then first.cells[i] else Visible(mode, Z.Line(z))[0])
  {
    hide Picture.Shift;
    var off := Picture.Shift(first.rows, first.cols, first.at + extent);
    var sc := Scene(first.cells, off, first.at - off, extent);
    if off <= i {
      assert s.cells[i - off] == CellOf(sc, Visible(mode, Z.Line(z)), i - off);
    }
  }

  /** A line of one glyph is drawn as it should be on any screen of two rows or more. */
  lemma GlyphIsShown(first: Screen, c: uchar, u: Screen) returns (end: nat)
    requires first.rows >= 2 && u == Repaint(first, first.at, [c], 0)
    ensures end == first.at - Picture.Shift(first.rows, first.cols, first.at + 1) + 1 >= 1
    ensures end < |u.cells| && u.cols == first.cols
    ensures LineShown(first, On, Z.Zipper([c], []), 1, u.(at := end, wrap := false))
  {
    hide Repaint, Picture.Shift;
    RepaintShows(first, Scene(first.cells, 0, first.at, 0), [], [c]);
    BaseStaysOnScreen(first.rows, first.cols, first.at, 1);
    MulMonotone(1, first.rows - 1, first.cols);
    end := first.at - Picture.Shift(first.rows, first.cols, first.at + 1) + 1;
    assert Z.Line(Z.Zipper([c], [])) == [c];
  }

  /** On any screen of two rows or more with a wrap pending, drawing some line loses the last glyph of the prompt. */
  lemma PromptIsOverwritten(first: Screen) returns (z: Z.Zipper, s: Screen)
    requires first.wrap && first.rows >= 2
    ensures Z.Line(z) != [] && LineShown(first, On, z, 1, s)
    ensures
      var off := Picture.Shift(first.rows, first.cols, first.at + 1);
      && !PromptKept(first, off, s) && off <= first.at
      && s == RedrawScreen(first, PosOf(first.at, first.cols), Z.Line(z),
                           ForcesNewline(first.rows, PosOf(first.at + 1, first.cols)), 0,
                           PosOf(first.at - off + 1, first.cols))
  {
    hide LineShown, PromptKept, Repaint, RedrawScreen, MoveTo, Picture.Shift, ForcesNewline;
    var c: uchar := if first.cells[first.at] == 97 then 98 else 97;
    z := Z.Zipper([c], []);
    assert Z.Line(z) == [c];
    var u := Repaint(first, first.at, [c], 0);
    var p := GlyphIsShown(first, c, u);
    RedrawScreenIsRepaint(first, first.at, [c], 0, PosOf(p, first.cols));
    MoveToCell(u, p);
    s := u.(at := p, wrap := false);
    PromptKeptIff(first, On, z, 1, s);
  }

  /** With a wrap pending on a single row no line fits at all. */
  lemma SingleRowIsFull(first: Screen, n: nat)
    requires first.wrap && first.rows == 1 && n >= 1
    ensures Picture.Shift(first.rows, first.cols, first.at + n) > first.at
  {
    var p := first.at + n;
    ShiftFacts(1, first.cols, p);
    assert first.at + 1 >= first.cols by {
      if first.at + 1 < first.cols {
        DivUnique(first.at + 1, first.cols, 0, first.at + 1);
      }
    }
    QuotientMonotone(first.cols, p, first.cols);
    DivUnique(first.cols, first.cols, 1, 0);
    MulMonotone(1, RowsScrolled(1, first.cols, p), first.cols);
  }

  /** So the prompt is safe from every line exactly when no wrap was pending, or there is only one row. */
  lemma PromptIsSafeIff(first: Screen)
    ensures (forall z: Z.Zipper, extent: nat, s: Screen | LineShown(first, On, z, extent, s) && Z.Line(z) != [] ::
               PromptKept(first, Picture.Shift(first.rows, first.cols, first.at + extent), s))
       <==> !first.wrap || first.rows == 1
  {
    if first.wrap && first.rows >= 2 {
      var z, s := PromptIsOverwritten(first);
    } else {
      forall z: Z.Zipper, extent: nat, s: Screen | LineShown(first, On, z, extent, s) && Z.Line(z) != []
        ensures PromptKept(first, Picture.Shift(first.rows, first.cols, first.at + extent), s)
      {
        PromptKeptIff(first, On, z, extent, s);
        if first.wrap {
          SingleRowIsFull(first, extent);
        }
      }
    }
  }

  /** What a terminal makes of `sent` is the line at the last of the moments `ms`. */
  ghost predicate Displayed(run: Run, ms: seq<Moment>, mode: EchoMode, first: Screen, sent: seq<byte>)
    requires 0 < |ms| <= |run.tokens| + 1
  {
    var v := FeedAll(Vt(first, []), sent);
    v.pending == [] && LineShown(first, mode, After(run, |ms| - 1), Extent(run, ms), v.screen)
  }

  lemma StageIsDisplayed(run: Run, ms: seq<Moment>, st: SoundStage, first: Screen, sent: seq<byte>)
    requires InStep(run, ms, st) && Anchored(first, st)
    requires NarrowSoFar(run, |ms| - 1, st) && PlainSoFar(run, |ms| - 1, st)
    requires !st.dirty && st.mode != Off
    requires FeedAll(Vt(first, []), sent) == Vt(st.screen, [])
    ensures Displayed(run, ms, st.mode, first, sent)
  {
    hide Do, After, Extent, NarrowSoFar, PlainSoFar, Shift, Shows, FeedAll, Visible;
    var z := After(run, |ms| - 1);
    assert z == Z.Split(st.line, st.cursor);
    assert Z.Line(z) == st.line;
    assert st.scene == Scene(first.cells, st.scene.off, first.at - st.scene.off, st.scene.extent);
  }

  /**
   * What had been sent by moment `k` goes on from `before`. Unless input was waiting then, it
   * shows the line, if the lines up to then fitted the screen and were glyphs one cell wide.
   */
  ghost predicate RightAt(run: Run, mode: EchoMode, width: uchar -> nat, first: Screen, before: seq<byte>,
                          ms: seq<Moment>, k: nat)
    requires k < |ms| <= |run.tokens|
  {
    && before <= ms[k].sent
    && (mode != Off && !ms[k].waiting ==>
          AlwaysNarrow(run, k, mode, width, first.rows, first.cols) && AlwaysPlain(run, k, mode, width) ==>
            Displayed(run, ms[..k + 1], mode, first, ms[k].sent[|before|..]))
  }

  ghost predicate AllRight(run: Run, mode: EchoMode, width: uchar -> nat, first: Screen, before: seq<byte>,
                           ms: seq<Moment>)
    requires |ms| <= |run.tokens|
  {
    forall k :: 0 <= k < |ms| ==> RightAt(run, mode, width, first, before, ms, k)
  }

  /** What had been sent by each moment begins what has been sent in the end. */
  ghost predicate AllBegin(ms: seq<Moment>, file: seq<byte>) {
    forall k :: 0 <= k < |ms| ==> ms[k].sent <= file
  }

  /** All that has been shown so far is right. */
  ghost predicate RightSoFar(run: Run, mode: EchoMode, width: uchar -> nat, first: Screen, before: seq<byte>,
                             ms: seq<Moment>, file: seq<byte>) {
    |ms| <= |run.tokens| && AllBegin(ms, file) && AllRight(run, mode, width, first, before, ms)
  }

  lemma MomentIsRight(run: Run, st: SoundStage, first: Screen, before: seq<byte>, ms: seq<Moment>, next: Moment)
    requires |ms| < |run.tokens| && InStep(run, ms + [next], st) && Anchored(first, st)
    requires before <= next.sent
    requires st.mode != Off && st.tracked && st.plain ==>
               FeedAll(Vt(first, []), next.sent[|before|..]) == Vt(st.screen, [])
    ensures RightAt(run, st.mode, st.width, first, before, ms + [next], |ms|)
  {
    hide Displayed, After, Do, Extent, AlwaysNarrow, AlwaysPlain, FeedAll;
    var all, k := ms + [next], |ms|;
    assert all[..k + 1] == all;
    if st.mode != Off && NarrowSoFar(run, k, st) && PlainSoFar(run, k, st) && !next.waiting {
      StageIsDisplayed(run, all, st, first, next.sent[|before|..]);
    }
  }

  lemma HistoryGrows(run: Run, mode: EchoMode, width: uchar -> nat, first: Screen, before: seq<byte>,
                     ms: seq<Moment>, next: Moment, file: seq<byte>)
    requires |ms| < |run.tokens|
    requires RightSoFar(run, mode, width, first, before, ms, file) && file <= next.sent
    requires RightAt(run, mode, width, first, before, ms + [next], |ms|)
    ensures RightSoFar(run, mode, width, first, before, ms + [next], next.sent)
  {
    hide Displayed, After, AlwaysNarrow, AlwaysPlain;
    var all := ms + [next];
    forall k | 0 <= k < |all| ensures RightAt(run, mode, width, first, before, all, k) {
      if k < |ms| {
        assert RightAt(run, mode, width, first, before, ms, k);
        assert all[..k + 1] == ms[..k + 1];
      }
    }
  }

  // What is sent

  /** The line exchanged behind a render cursor that stays where it is. */
  function Replaced(st: Stage, z: Z.Zipper, dirty: bool): Stage {
    st.(line := Z.Line(z), cursor := |z.before|, dirty := dirty)
  }

  /** Whether a token that is no standard key leaves something to draw. */
  function Marks(cfg: Settings, t: Token): bool {
    match t
    case Text(_) => true
    case Custom(key) => key in cfg.handlers || (!cfg.ignoreDefault && cfg.lookup(key) != [])
    case _ => false
  }

  /** What a token that makes the line `z` does to line, renderer and terminal. */
  function Applied(cfg: Settings, t: Token, z: Z.Zipper, st: SoundStage): Stage {
    match t
    case Key(key) => Pressed(st, key)
    case Custom(key) => Replaced(if key in cfg.handlers then Synced(st, 0) else st, z, st.dirty || Marks(cfg, t))
    case _ => Replaced(st, z, st.dirty || Marks(cfg, t))
  }

  function AppliedText(cfg: Settings, fmt: AddressFormat, t: Token, st: SoundStage): seq<byte> {
    match t
    case Key(key) => PressText(fmt, st, key)
    case Custom(key) => if key in cfg.handlers then SyncText(fmt, st, 0) else []
    case _ => []
  }

  /** The stage after a token, and after the redraw that may follow it. */
  datatype Frame = Frame(applied: SoundStage, shown: SoundStage)

  /** One pass from stage `a`, and all that it sends. */
  ghost predicate Passed(cfg: Settings, fmt: AddressFormat, t: Token, z: Z.Zipper, a: SoundStage, f: Frame, more: bool,
                         text: seq<byte>) {
    && f.applied == Applied(cfg, t, z, a)
    && var due := !more && f.applied.dirty;
    && f.shown == (if due then Redrawn(f.applied) else f.applied)
    && text == AppliedText(cfg, fmt, t, a) + (if due then PaintText(fmt, f.applied) else [])
  }

  /** A token, and the redraw that may follow it, make one pass. */
  lemma PassIs(cfg: Settings, fmt: AddressFormat, t: Token, z: Z.Zipper, a: SoundStage, f: Frame, more: bool,
               before: seq<byte>, sent: seq<byte>, after: seq<byte>)
    requires f.applied == Applied(cfg, t, z, a) && sent == before + AppliedText(cfg, fmt, t, a)
    requires f.shown == if !more && f.applied.dirty then Redrawn(f.applied) else f.applied
    requires after == sent + if !more && f.applied.dirty then PaintText(fmt, f.applied) else []
    ensures before <= after && Passed(cfg, fmt, t, z, a, f, more, after[|before|..])
  {
    hide Applied, AppliedText, Redrawn, PaintText;
    var t1, t2 := AppliedText(cfg, fmt, t, a), if !more && f.applied.dirty then PaintText(fmt, f.applied) else [];
    ConcatAssociates(before, t1, t2);
    DropOfConcat(before, t1 + t2, |before|);
  }

  ghost predicate Linked(run: Run, fmt: AddressFormat, ms: seq<Moment>, fs: seq<Frame>, k: nat)
    requires 0 < k < |ms| == |fs| && k <= |run.tokens|
  {
    && ms[k - 1].sent <= ms[k].sent
    && Passed(run.cfg, fmt, run.tokens[k - 1], After(run, k), fs[k - 1].shown, fs[k], ms[k].waiting,
              ms[k].sent[|ms[k - 1].sent|..])
  }

  /** Everything a run has sent by each of its moments, from the stage at its start. */
  ghost predicate Traced(run: Run, fmt: AddressFormat, start: Stage, before: seq<byte>, ms: seq<Moment>, fs: seq<Frame>) {
    && 0 < |ms| == |fs| <= |run.tokens| + 1
    && fs[0].shown == start && ms[0].sent == before
    && forall k :: 0 < k < |ms| ==> Linked(run, fmt, ms, fs, k)
  }

  lemma TraceStarts(run: Run, fmt: AddressFormat, st: SoundStage, now: Moment)
    ensures Traced(run, fmt, st, now.sent, [now], [Frame(st, st)])
  {
  }

  lemma TraceGrows(run: Run, fmt: AddressFormat, start: Stage, before: seq<byte>, ms: seq<Moment>, fs: seq<Frame>,
                   next: Moment, f: Frame, a: SoundStage, sent: seq<byte>)
    requires Traced(run, fmt, start, before, ms, fs) && |ms| <= |run.tokens|
    requires a == fs[|ms| - 1].shown && sent == ms[|ms| - 1].sent <= next.sent
    requires Passed(run.cfg, fmt, run.tokens[|ms| - 1], After(run, |ms|), a, f, next.waiting, next.sent[|sent|..])
    ensures Traced(run, fmt, start, before, ms + [next], fs + [f])
  {
    hide Passed, After;
    var all, frames := ms + [next], fs + [f];
    forall k | 0 < k < |all| ensures Linked(run, fmt, all, frames, k) {
      if k < |ms| {
        assert Linked(run, fmt, ms, fs, k);
      }
    }
  }

  // The loop

  /** An unhandled custom key, inserted in readable form. */
  method InsertReadable(session: Session, asText: seq<byte>)
    requires session.Valid()
    modifies session
    ensures session.Valid()
    ensures session.stage == old(session.stage).(line := session.buffer, cursor := session.cursor, dirty := session.dirty)
    ensures session.dirty <==> old(session.dirty) || asText != []
    ensures session.Zip() == Z.Insert(old(session.Zip()), Z.Caret(asText))
  {
    hide OnTrack, InPicture;
    ghost var z, st := session.Zip(), session.stage;
    assert Z.Insert(z, []) == z;
    var i := 0;
    while i < |asText|
      invariant 0 <= i <= |asText| && session.Valid()
      invariant session.stage == st.(line := session.buffer, cursor := session.cursor, dirty := session.dirty)
      invariant session.Zip() == Z.Insert(z, Z.Caret(asText[..i]))
      invariant session.dirty <==> st.dirty || i > 0
    {
      Z.CaretStep(z, asText, i);
      var control := Tokens.Control(asText[i]);
      // A byte is taken for the code point of the same number
      session.InsertText(if control.Some? then control.value else [asText[i]]);
      i := i + 1;
    }
    assert asText[..|asText|] == asText;
  }

  /** The body of the loop, up to the redraw. */
  method Apply(session: Session, cfg: Settings, token: Token)
    requires session.Valid() && Usable(cfg) && 0 !in session.buffer && Proper(token)
    modifies session, session.out, session.out.buf
    ensures session.Valid() && SameTerminal(old(session.stage), session.stage) && Follows(old(session.stage), session.stage)
    ensures 0 !in Z.Line(old(session.Zip())) && session.Zip() == Do(cfg, old(session.Zip()), token)
    ensures session.stage == Applied(cfg, token, session.Zip(), old(session.stage))
    ensures session.out.file == old(session.out.file) + AppliedText(cfg, session.address, token, old(session.stage))
  {
    match token {
      case Text(text) =>
        session.InsertText(text);
      case Key(key) =>
        session.EvalEscape(key);
      case Custom(key) =>
        if key in cfg.handlers {
          assert Behaves(cfg.handlers[key], session.Zip());
          session.EvalCustom(cfg.handlers[key]);
        } else if !cfg.ignoreDefault {
          var asText := cfg.lookup(key);
          InsertReadable(session, asText);
        }
      case Stop(_) =>
    }
  }

  /** The end of a pass: a full re-render once no more input waits. */
  method Refresh(session: Session, more: bool, ghost run: Run, ghost k: nat)
    requires session.Valid() && LineInStep(run, k, session.stage)
    modifies session, session.out, session.out.buf
    ensures session.Valid() && SameTerminal(old(session.stage), session.stage) && LineInStep(run, k, session.stage)
    ensures !more ==> !session.dirty
    ensures
      var before, after := old(session.stage).scene.extent, session.stage.scene.extent;
      session.mode != Off ==>
        after == before || (!more && after == if LineLength(run, k) > before then LineLength(run, k) else before)
    ensures session.stage == if !more && old(session.dirty) then Redrawn(old(session.stage)) else old(session.stage)
    ensures session.out.file
         == old(session.out.file) + if !more && old(session.dirty) then PaintText(session.address, old(session.stage)) else []
  {
    ghost var st := session.stage;
    if !more && session.dirty {
      session.Redraw();
      StepRedraw(run, k, st, session.stage);
    }
  }

  /** One pass of the loop, after the read, up to the moment of the next one. */
  method Round(session: Session, cfg: Settings, token: Token, more: bool, ghost run: Run, ghost ms: seq<Moment>)
    returns (ghost next: Moment, ghost f: Frame)
    requires session.Valid() && cfg == run.cfg && 0 < |ms| < |run.tokens| && token == run.tokens[|ms| - 1]
    requires InStep(run, ms, session.stage)
    requires RightSoFar(run, session.mode, session.width, session.first, session.before, ms, session.out.file)
    modifies session, session.out, session.out.buf
    ensures session.Valid() && next == Moment(more, session.out.file) && f.shown == session.stage
    ensures old(session.out.file) <= session.out.file
    ensures Passed(cfg, session.address, token, After(run, |ms|), old(session.stage), f, more,
                   session.out.file[|old(session.out.file)|..])
    ensures InStep(run, ms + [next], session.stage)
    ensures session.mode != Off && NarrowSoFar(run, |ms|, session.stage) ==> OnTrack(session.stage)
    ensures RightSoFar(run, session.mode, session.width, session.first, session.before, ms + [next], session.out.file)
  {
    hide Do, After, Extent, NarrowSoFar, PlainSoFar, Displayed, AllRight, AllBegin, Applied, AppliedText, Passed, PaintText,
         Redrawn, FeedAll;
    ghost var st, k := session.stage, |ms| - 1;
    Apply(session, cfg, token);
    StepToken(run, k, st, session.stage);
    ghost var applied, sent := session.stage, session.out.file;
    Refresh(session, more, run, k + 1);
    f := Frame(applied, session.stage);
    PassIs(cfg, session.address, token, After(run, k + 1), st, f, more, old(session.out.file), sent, session.out.file);
    next := Moment(more, session.out.file);
    StepMoment(run, ms, st, session.stage, next);
    MomentIsRight(run, session.stage, session.first, session.before, ms, next);
    HistoryGrows(run, session.mode, session.width, session.first, session.before, ms, next, old(session.out.file));
  }

  // The whole run

  lemma TokenIsProper(d: Dict, s: seq<byte>, pos: nat)
    ensures Proper(TokenAt(d, s, pos).token)
  {
    TextIsPrintable(s, pos);
  }

  lemma {:induction false} LexIsProper(d: Dict, s: seq<byte>, pos: nat)
    requires Terminating(d)
    ensures AllProper(Lex(d, s, pos))
    decreases if pos <= |s| then |s| + 1 - pos else 0
  {
    var l := TokenAt(d, s, pos);
    TokenIsProper(d, s, pos);
    if !l.token.Stop? {
      StopsAtTheEndUnless(d, s, pos);
      LexIsProper(d, s, pos + l.length);
    }
  }

  /** The run on the rest of a stream. */
  ghost function RunOf(settings: Settings, mode: EchoMode, d: Dict, s: seq<byte>, pos: nat): (run: Run)
    requires Usable(settings) && Terminating(d)
    ensures run.tokens == Lex(d, s, pos) && run.cfg == Enabled(settings, mode)
  {
    LexIsProper(d, s, pos);
    Course(Enabled(settings, mode), Lex(d, s, pos))
  }

  /** nrl_lookup_custom on a table of key sequences. */
  function LookupIn(customs: seq<Option<seq<byte>>>, key: nat): seq<byte> {
    if key < |customs| && customs[key].Some? then customs[key].value else []
  }

  /** The key that is looked up is the one that was typed: its text is the very bytes of the stream. */
  lemma LookupIsTyped(inputs: seq<Option<seq<byte>>>, xterm: bool, customs: seq<Option<seq<byte>>>,
                      s: seq<byte>, pos: nat)
    ensures
      var l := TokenAt(RegisterAll(map[], BuildTable(inputs, xterm, customs)), s, pos);
      l.token.Custom? ==> LookupIn(customs, l.token.custom) == Window(s, pos, l.length)
  {
    var d := RegisterAll(map[], BuildTable(inputs, xterm, customs));
    if TokenAt(d, s, pos).token.Custom? {
      TextIsPrintable(s, pos);
      CustomIsFromTable(inputs, xterm, customs, Window(s, pos, MatchLength(d, s, pos)));
    }
  }

  /** So a key without a handler that is not ignored goes into the line as the readable form of what was typed. */
  lemma UnhandledKeyIsShown(cfg: Settings, z: Z.Zipper, inputs: seq<Option<seq<byte>>>, xterm: bool,
                            customs: seq<Option<seq<byte>>>, s: seq<byte>, pos: nat)
    requires Usable(cfg) && 0 !in Z.Line(z) && !cfg.ignoreDefault
    ensures
      var l := TokenAt(RegisterAll(map[], BuildTable(inputs, xterm, customs)), s, pos);
      Proper(l.token) && (l.token.Custom? && l.token.custom !in cfg.handlers
                          && cfg.lookup(l.token.custom) == LookupIn(customs, l.token.custom) ==>
        Do(cfg, z, l.token) == Z.Insert(z, Z.Caret(Window(s, pos, l.length))))
  {
    LookupIsTyped(inputs, xterm, customs, s, pos);
    TokenIsProper(RegisterAll(map[], BuildTable(inputs, xterm, customs)), s, pos);
  }

  datatype Reply = Line(text: seq<byte>) | Eof

  /** What a run returns: the encoded line, or nothing for an EOF on an empty one. */
  ghost function Returned(run: Run): Reply {
    var line := Z.Line(After(run, |run.tokens| - 1));
    if run.tokens[|run.tokens| - 1].eof && line == [] then Eof else Line(Encode(line))
  }

  /** The encoded line decodes to the buffer again, and unless a handler has put one there it holds no control character. */
  lemma ReturnedIsWholeLine(run: Run)
    requires Returned(run).Line?
    ensures
      var line := Z.Line(After(run, |run.tokens| - 1));
      && Decode(Returned(run).text) == Some(line) && UntilNul(line + [0]) == line
      && (Unhandled(run) ==> AllPrintable(line))
  {
    var line := Z.Line(After(run, |run.tokens| - 1));
    DecodeEncode(line);
    NulFreeIsWhole(line);
    if Unhandled(run) {
      AfterIsPrintable(run, |run.tokens| - 1);
    }
  }

  lemma DoAlike(a: Settings, b: Settings, z: Z.Zipper, t: Token)
    requires Usable(a) && Usable(b) && 0 !in Z.Line(z) && Proper(t)
    requires a.ignoreDefault == b.ignoreDefault && a.lookup == b.lookup
    requires t.Custom? ==> t.custom !in a.handlers && t.custom !in b.handlers
    ensures Do(a, z, t) == Do(b, z, t)
  {
  }

  /** Nothing is returned only for an end of input on an empty line; otherwise the text decodes to the line. */
  ghost predicate Answers(run: Run, reply: Reply) {
    var n := |run.tokens|;
    var line := Z.Line(After(run, n));
    && (reply.Eof? <==> run.tokens[n - 1] == Stop(true) && line == [])
    && (reply.Line? ==> Decode(reply.text) == Some(line))
  }

  lemma ReturnedAnswers(run: Run)
    ensures Answers(run, Returned(run))
  {
    var n := |run.tokens|;
    assert After(run, n) == After(run, n - 1);
    DecodeEncode(Z.Line(After(run, n)));
  }

  /** Two runs on the same tokens in which the same keys are handled alike go through the same lines. */
  lemma {:induction false} SameLines(q: Run, r: Run, k: nat)
    requires q.tokens == r.tokens && k <= |q.tokens|
    requires q.cfg.ignoreDefault == r.cfg.ignoreDefault && q.cfg.lookup == r.cfg.lookup
    requires Unhandled(q) && Unhandled(r)
    ensures After(q, k) == After(r, k)
  {
    hide Do, Usable, WellBehaved;
    if k > 0 {
      SameLines(q, r, k - 1);
      DoAlike(q.cfg, r.cfg, After(q, k - 1), q.tokens[k - 1]);
    }
  }

  /** The reply does not depend on the echo mode unless a key that comes up has a handler, which only one of the modes enables. */
  lemma EchoModeIsInvisible(settings: Settings, m: EchoMode, n: EchoMode, d: Dict, s: seq<byte>, pos: nat)
    requires Usable(settings) && Terminating(d)
    requires Unhandled(RunOf(settings, On, d, s, pos)) || (m == On <==> n == On)
    ensures Returned(RunOf(settings, m, d, s, pos)) == Returned(RunOf(settings, n, d, s, pos))
  {
    hide Do, After, Lex, Terminating, WellBehaved, Usable, AllProper, Z.Line, Encode;
    var q, r := RunOf(settings, m, d, s, pos), RunOf(settings, n, d, s, pos);
    if !(m == On <==> n == On) {
      SameLines(q, r, |q.tokens| - 1);
    }
  }

  /** Where a run stands: the tokens from `k` on are those of the stream from `pos` on. */
  ghost predicate At(run: Run, k: nat, d: Dict, s: seq<byte>, pos: nat) {
    Terminating(d) && k <= |run.tokens| && run.tokens[k..] == Lex(d, s, pos)
  }

  /** Refills take pending bytes from where they are, or nothing that they overwrite is ever handed back. */
  ghost predicate Dependable(source: RefillSource, d: Dict, s: seq<byte>, pos: nat, supply: Supply) {
    source == FromUsed || (Terminating(d) && Clean(d, s, pos, supply))
  }

  /** This one read can be depended on. */
  ghost predicate ReadSurvives(source: RefillSource, d: Dict, s: seq<byte>, pos: nat, supply: Supply) {
    source == FromUsed || Survives(d, s, pos, supply)
  }

  lemma DependableNow(source: RefillSource, d: Dict, s: seq<byte>, pos: nat, supply: Supply)
    requires Dependable(source, d, s, pos, supply)
    ensures ReadSurvives(source, d, s, pos, supply)
  {
  }

  /** A read that survives takes the next token; one that does not stop leaves the run one token further. */
  lemma NextToken(run: Run, k: nat, source: RefillSource, d: Dict, s: seq<byte>, pos: nat, supply: Supply,
                  g: seq<byte>, h: seq<byte>)
    requires At(run, k, d, s, pos) && ReadSurvives(source, d, s, pos, supply)
    requires |g| == MatchLoss(source, d, s, pos, supply) && |h| == DecodeLoss(source, d, s, pos, g, supply)
    ensures
      var after := ReadSpec(d, s, pos, g, h);
      && k < |run.tokens| && run.tokens[k] == after.token
      && (after.token.Stop? ==> k == |run.tokens| - 1)
      && (!after.token.Stop? ==>
            && k + 1 < |run.tokens|
            && At(run, k + 1, d, after.stream, after.pos)
            && (Dependable(source, d, s, pos, supply) ==>
                  Dependable(source, d, after.stream, after.pos, SupplyAfter(d, s, pos, g, supply))))
  {
    hide ReadSpec, MatchLength, LookaheadLength, SupplyAfter, HandedBack, DecodeAt;
    assert g == [] && h == [];
    ReadSpecIntact(d, s, pos);
    assert run.tokens[k] == run.tokens[k..][0];
    assert run.tokens[k + 1..] == run.tokens[k..][1..];
  }

  /** The result: terminate the buffer and encode it. */
  method Finish(session: Session, eof: bool, ghost run: Run) returns (reply: Reply)
    requires session.Valid() && run.tokens[|run.tokens| - 1] == Stop(eof)
    requires LineInStep(run, |run.tokens| - 1, session.stage)
    ensures reply == Returned(run)
  {
    hide Do, NarrowSoFar, PlainSoFar;
    assert Z.Line(session.Zip()) == session.buffer;
    if eof && |session.buffer| == 0 {
      return Eof;
    }
    NulFreeIsWhole(session.buffer);
    var data := Encode(UntilNul(session.buffer + [0]));
    return Line(data);
  }

  /** nrl_io_read. A run goes right up to the first read that does not survive its refills. */
  method ReadToken(dfa: Automaton, input: Input, ghost run: Run, ghost k: nat) returns (token: Token, more: bool)
    requires input.Valid() && input.pending == 0 && dfa.Valid() && Short(dfa.Dict())
    requires At(run, k, dfa.Dict(), input.view.stream, input.view.pos)
    requires ReadSurvives(input.source, dfa.Dict(), input.view.stream, input.view.pos, input.Supplied())
    modifies input, input.buf, input.history
    ensures input.Valid() && input.pending == 0 && (more <==> input.used < input.count) && input.used <= input.count
    ensures input.history.moments
         == old(input.history.moments) + [Moment(old(input.used < input.count), input.out.file)]
    ensures k < |run.tokens| && token == run.tokens[k] && (token.Stop? ==> k == |run.tokens| - 1)
    ensures !token.Stop? ==>
      && k + 1 < |run.tokens|
      && At(run, k + 1, dfa.Dict(), input.view.stream, input.view.pos)
      && (old(Dependable(input.source, dfa.Dict(), input.view.stream, input.view.pos, input.Supplied())) ==>
            Dependable(input.source, dfa.Dict(), input.view.stream, input.view.pos, input.Supplied()))
  {
    hide ReadSpec, ReadSurvives, MatchLoss, DecodeLoss, SupplyAfter, Dependable, LookaheadLength;
    ghost var stream, pos, supply := input.view.stream, input.view.pos, input.Supplied();
    ghost var g, h;
    token, more, g, h := input.Read(dfa);
    NextToken(run, k, input.source, dfa.Dict(), stream, pos, supply, g, h);
  }

  /** Moments since there were `n` of them. */
  ghost function Since(ms: seq<Moment>, n: nat): seq<Moment> {
    if n <= |ms| then ms[n..] else []
  }

  /** All passes, up to the token that stops. */
  method Loop(dfa: Automaton, input: Input, session: Session, cfg: Settings, ghost run: Run) returns (eof: bool)
    requires input.Valid() && input.pending == 0 && input.used <= input.count
    requires input.buf != session.out.buf && input.out == session.out
    requires dfa.Valid() && Short(dfa.Dict()) && At(run, 0, dfa.Dict(), input.view.stream, input.view.pos)
    requires Dependable(input.source, dfa.Dict(), input.view.stream, input.view.pos, input.Supplied())
    requires session.Valid() && cfg == run.cfg
    requires var now := [Moment(input.used < input.count, input.out.file)];
      InStep(run, now, session.stage) &&
      RightSoFar(run, session.mode, session.width, session.first, session.before, now, session.out.file)
    modifies input, input.buf, input.history, session, session.out, session.out.buf
    ensures session.Valid() && run.tokens[|run.tokens| - 1] == Stop(eof)
    ensures old(input.history.moments) <= input.history.moments
    ensures var ms := Since(input.history.moments, old(|input.history.moments|));
      exists fs :: Traced(run, session.address, old(session.stage), old(session.out.file), ms, fs)
    ensures var ms := Since(input.history.moments, old(|input.history.moments|));
      && |ms| == |run.tokens| && InStep(run, ms, session.stage)
      && RightSoFar(run, session.mode, session.width, session.first, session.before, ms, session.out.file)
  {
    hide *;
    ghost var base, ms := input.history.moments, [Moment(input.used < input.count, input.out.file)];
    ghost var fs := [Frame(session.stage, session.stage)];
    TraceStarts(run, session.address, session.stage, ms[0]);
    DependableNow(input.source, dfa.Dict(), input.view.stream, input.view.pos, input.Supplied());
    var token, more := ReadToken(dfa, input, run, 0);
    while !token.Stop?
      invariant input.Valid() && input.pending == 0 && session.Valid()
      invariant (more <==> input.used < input.count) && input.used <= input.count
      invariant input.history.moments == base + ms && 0 < |ms| <= |run.tokens|
      invariant token == run.tokens[|ms| - 1] && (token.Stop? <==> |ms| == |run.tokens|)
      invariant !token.Stop? ==>
        && At(run, |ms|, dfa.Dict(), input.view.stream, input.view.pos)
        && Dependable(input.source, dfa.Dict(), input.view.stream, input.view.pos, input.Supplied())
      invariant |fs| == |ms| && fs[|ms| - 1].shown == session.stage && ms[|ms| - 1].sent == session.out.file
      invariant Traced(run, session.address, old(session.stage), old(session.out.file), ms, fs)
      invariant InStep(run, ms, session.stage)
      invariant RightSoFar(run, session.mode, session.width, session.first, session.before, ms, session.out.file)
      decreases |run.tokens| - |ms|
    {
      ghost var st, sent := session.stage, session.out.file;
      ghost var next, f := Round(session, cfg, token, more, run, ms);
      TraceGrows(run, session.address, old(session.stage), old(session.out.file), ms, fs, next, f, st, sent);
      ms, fs := ms + [next], fs + [f];
      DependableNow(input.source, dfa.Dict(), input.view.stream, input.view.pos, input.Supplied());
      token, more := ReadToken(dfa, input, run, |ms| - 1);
    }
    eof := token.eof;
    SinceBase(base, ms);
  }

  lemma SinceBase(base: seq<Moment>, ms: seq<Moment>)
    ensures Since(base + ms, |base|) == ms
  {
  }

  /**
   * What a run comes to, given the moments at which it read. It reads once for each token and
   * returns the line the tokens make; and whenever it waits for input the terminal shows
   * the line, if the lines so far fitted the screen and consisted of glyphs one cell wide.
   */
  ghost predicate Achieves(run: Run, mode: EchoMode, width: uchar -> nat, first: Screen, before: seq<byte>,
                           address: AddressFormat, pos: Pos, reply: Reply, ms: seq<Moment>, file: seq<byte>) {
    && (exists fs :: Traced(run, address, Opened(mode, width, first, pos), before, ms, fs))
    && reply == Returned(run) && Answers(run, reply) && |ms| == |run.tokens| && AllBegin(ms, file) && before <= file
    && (mode == Off ==> file == before)
    && AllRight(run, mode, width, first, before, ms)
  }

  /** Before anything has been read the screen is as it was found. */
  lemma FirstMoment(run: Run, st: SoundStage, first: Screen, before: seq<byte>, now: Moment)
    requires st.line == [] && st.cursor == 0 && st.scene.extent == 0 && st.tracked && st.plain && !st.dirty
    requires Anchored(first, st) && st.screen == first && now.sent == before
    ensures InStep(run, [now], st) && RightSoFar(run, st.mode, st.width, first, before, [now], before)
  {
    assert before[|before|..] == [];
    assert Z.Line(After(run, 0)) == [];
    assert [now][..0] == [] && [now][..1] == [now];
    assert Extent(run, [now]) == 0;
    assert InStep(run, [now], st);
    if st.mode != Off && NarrowSoFar(run, 0, st) && PlainSoFar(run, 0, st) {
      StageIsDisplayed(run, [now], st, first, []);
    }
    assert RightAt(run, st.mode, st.width, first, before, [now], 0);
  }

  /**
   * nanorl, from the point where the renderer has taken over the terminal. The reply is a
   * function of the stream alone, however reads split it; the number of reads is bounded.
   */
  method ReadLine(dfa: Automaton, input: Input, out: Sink, mode: EchoMode, width: uchar -> nat, address: AddressFormat,
                  settings: Settings, ghost first: Screen, rows: nat, cols: nat, pos: Pos)
    returns (reply: Reply)
    requires input.Valid() && input.pending == 0 && input.used <= input.count
    requires input.buf != out.buf && input.out == out
    requires dfa.Valid() && Short(dfa.Dict()) && Terminating(dfa.Dict())
    requires Dependable(input.source, dfa.Dict(), input.view.stream, input.view.pos, input.Supplied())
    requires out.Valid() && out.reliable && out.count == 0 && (out.echo <==> mode != Off)
    requires rows == first.rows && cols == first.cols && pos == PosOf(first.at, cols)
    requires Usable(settings)
    modifies input, input.buf, input.history, out, out.buf
    ensures out.Valid() && out.count == 0
    ensures old(input.history.moments) <= input.history.moments
    ensures
      var run := RunOf(settings, mode, dfa.Dict(), old(input.view.stream), old(input.view.pos));
      Achieves(run, mode, width, first, old(out.file), address, pos,
               reply, Since(input.history.moments, old(|input.history.moments|)), out.file)
  {
    hide Do, After, InStep, OnTrack, InPicture, AllRight, Returned, AllBegin, Clean, Lex, Answers, Traced;
    var cfg := Enabled(settings, mode);
    ghost var run := RunOf(settings, mode, dfa.Dict(), input.view.stream, input.view.pos);
    var session := new Session(mode, width, address, out, first, rows, cols, pos);
    FirstMoment(run, session.stage, first, out.file, Moment(input.used < input.count, out.file));
    assert run.tokens[0..] == run.tokens;
    var eof := Loop(dfa, input, session, cfg, run);
    EndInStep(run, Since(input.history.moments, old(|input.history.moments|)), session.stage);
    reply := Finish(session, eof, run);
    ReturnedAnswers(run);
  }

  lemma EndInStep(run: Run, ms: seq<Moment>, st: Stage)
    requires InStep(run, ms, st) && |ms| == |run.tokens|
    ensures LineInStep(run, |run.tokens| - 1, st)
  {
  }
}
