/** What the echo of a line gives away: in obscured mode its length, and nothing of its text. */
module Secrecy {
  import opened Bytes
  import opened Utf8
  import opened Dictionary
  import opened Tokens
  import opened Reader
  import opened Terminal
  import opened Picture
  import opened Vt
  import opened Stage
  import opened Editor
  import opened Nanorl
  import Z = Zipper

  /** Where a line is shown its own characters are on the screen, or one asterisk for each of them. */
  lemma ShownGlyph(first: Screen, mode: EchoMode, z: Z.Zipper, extent: nat, s: Screen, i: nat)
    requires LineShown(first, mode, z, extent, s) && i < |Z.Line(z)|
    ensures
      var p := first.at - Picture.Shift(first.rows, first.cols, first.at + extent) + i;
      0 <= p < |s.cells| && s.cells[p] == if mode == Obscured then 42 else Z.Line(z)[i]
  {
    var off := Picture.Shift(first.rows, first.cols, first.at + extent);
    ShiftFacts(first.rows, first.cols, first.at + extent);
    var sc := Scene(first.cells, off, first.at - off, extent);
    var p: nat := first.at - off + i;
    assert s.cells[p] == CellOf(sc, Visible(mode, Z.Line(z)), p);
  }

  /** A shown line is on the screen as a whole, whole rows having scrolled, and the cursor is in its place. */
  lemma ShownPlace(first: Screen, mode: EchoMode, z: Z.Zipper, extent: nat, s: Screen) returns (base: nat)
    requires LineShown(first, mode, z, extent, s)
    ensures base == first.at - Picture.Shift(first.rows, first.cols, first.at + extent)
    ensures base <= first.at && (first.at - base) % first.cols == 0
    ensures base + |Z.Line(z)| < |s.cells| && s.at == base + |z.before|
  {
    ShiftFacts(first.rows, first.cols, first.at + extent);
    base := first.at - Picture.Shift(first.rows, first.cols, first.at + extent);
  }

  /** Two obscured stages that differ in nothing but the characters of their lines, and in what has been drawn. */
  ghost predicate Alike(a: Stage, b: Stage) {
    && a.mode == b.mode == Obscured && a.cols == b.cols && a.screen.rows == b.screen.rows
    && |a.line| == |b.line| && a.cursor == b.cursor && a.renderCursor == b.renderCursor
    && a.dirty == b.dirty && a.pos == b.pos && a.lastWidth == b.lastWidth
  }

  lemma WidthIsLength(mode: EchoMode, width: uchar -> nat, s: seq<uchar>)
    requires mode == Obscured
    ensures Width(mode, width, s) == |s|
  {
    PlainWidth(mode, width, s);
  }

  lemma AlikeTarget(a: SoundStage, b: SoundStage, to: nat)
    requires Alike(a, b) && to <= |a.line|
    ensures Target(a, to) == Target(b, to)
  {
    WidthIsLength(a.mode, a.width, a.line[..to]);
    WidthIsLength(b.mode, b.width, b.line[..to]);
    WidthIsLength(a.mode, a.width, a.line[..a.renderCursor]);
    WidthIsLength(b.mode, b.width, b.line[..b.renderCursor]);
  }

  lemma AlikeSync(fmt: AddressFormat, a: SoundStage, b: SoundStage, to: nat)
    requires Alike(a, b) && to <= |a.line|
    ensures SyncText(fmt, a, to) == SyncText(fmt, b, to) && Alike(Synced(a, to), Synced(b, to))
  {
    hide Target;
    AlikeTarget(a, b, to);
  }

  lemma AlikePress(fmt: AddressFormat, a: SoundStage, b: SoundStage, key: nat)
    requires Alike(a, b)
    ensures PressText(fmt, a, key) == PressText(fmt, b, key) && Alike(Pressed(a, key), Pressed(b, key))
  {
    hide Synced, SyncText, OnTrack, InPicture;
    AlikeSync(fmt, a, b, 0);
    AlikeSync(fmt, a, b, |a.line|);
    if a.cursor > 0 {
      AlikeSync(fmt, a, b, a.cursor - 1);
      SyncedKeepsLine(a, a.cursor - 1);
      SyncedKeepsLine(b, a.cursor - 1);
    }
    if a.cursor < |a.line| {
      AlikeSync(fmt, a, b, a.cursor + 1);
    }
  }

  lemma SyncedKeepsLine(a: SoundStage, to: nat)
    requires to <= |a.line|
    ensures Synced(a, to).line == a.line && Synced(a, to).cursor == to
  {
  }

  /** A redraw of either sends the same stars and the same addresses. */
  lemma AlikePaint(fmt: AddressFormat, a: SoundStage, b: SoundStage)
    requires Alike(a, b)
    ensures PaintText(fmt, a) == PaintText(fmt, b) && Alike(Redrawn(a), Redrawn(b))
  {
    hide Target, Offset, AddressText, Encode;
    AlikeTarget(a, b, 0);
    WidthIsLength(a.mode, a.width, a.line);
    WidthIsLength(b.mode, b.width, b.line);
    WidthIsLength(a.mode, a.width, a.line[..a.cursor]);
    WidthIsLength(b.mode, b.width, b.line[..b.cursor]);
    assert Visible(a.mode, a.line) == Visible(b.mode, b.line);
    RedrawScreenSize(a.screen, Target(a, 0), Visible(a.mode, a.line),
                     ForcesNewline(a.screen.rows, AfterPrint(a)), Erase(a.lastWidth, |a.line|), EndOfRedraw(a));
    RedrawScreenSize(b.screen, Target(b, 0), Visible(b.mode, b.line),
                     ForcesNewline(b.screen.rows, AfterPrint(b)), Erase(b.lastWidth, |b.line|), EndOfRedraw(b));
  }

  /** Lines of the same length with the cursor at the same place. */
  ghost predicate SameShape(y: Z.Zipper, z: Z.Zipper) {
    |y.before| == |z.before| && |y.after| == |z.after|
  }

  /** The same standard key, or two tokens that are none and agree in whether they leave something to draw. */
  ghost predicate SameMove(c: Settings, t: Token, d: Settings, u: Token) {
    (t.Key? || u.Key? ==> t == u) && (Marks(c, t) <==> Marks(d, u))
  }

  lemma AlikePass(c: Settings, d: Settings, fmt: AddressFormat, t: Token, u: Token, y: Z.Zipper, z: Z.Zipper,
                  a: SoundStage, b: SoundStage, f: Frame, g: Frame, more: bool, x: seq<byte>, w: seq<byte>)
    requires c.handlers == d.handlers == map[] && Alike(a, b) && SameShape(y, z) && SameMove(c, t, d, u)
    requires Passed(c, fmt, t, y, a, f, more, x) && Passed(d, fmt, u, z, b, g, more, w)
    ensures x == w && Alike(f.shown, g.shown)
  {
    hide Pressed, PressText, Redrawn, PaintText;
    if t.Key? {
      AlikePress(fmt, a, b, t.key);
    }
    assert Alike(f.applied, g.applied);
    AlikePaint(fmt, f.applied, g.applied);
  }

  /** Two runs with the same moves, the same lengths and input waiting at the same moments, up to moment `k`. */
  ghost predicate SameOutline(q: Run, ms: seq<Moment>, r: Run, ns: seq<Moment>, k: nat)
    requires k <= |q.tokens| && k <= |r.tokens| && k < |ms| && k < |ns|
  {
    && (forall j :: 0 <= j < k ==> SameMove(q.cfg, q.tokens[j], r.cfg, r.tokens[j]))
    && (forall j :: 0 <= j <= k ==> SameShape(After(q, j), After(r, j)))
    && (forall j :: 0 < j <= k ==> ms[j].waiting == ns[j].waiting)
  }

  lemma {:induction false} AlikeRuns(q: Run, r: Run, fmt: AddressFormat, a: Stage, b: Stage, before: seq<byte>,
                                     ms: seq<Moment>, ns: seq<Moment>, fs: seq<Frame>, gs: seq<Frame>, k: nat)
    requires Traced(q, fmt, a, before, ms, fs) && Traced(r, fmt, b, before, ns, gs) && Alike(a, b)
    requires q.cfg.handlers == r.cfg.handlers == map[] && k < |ms| && k < |ns| && SameOutline(q, ms, r, ns, k)
    ensures ms[k].sent == ns[k].sent && Alike(fs[k].shown, gs[k].shown)
  {
    hide Passed, After, SameMove, SameShape, Alike;
    if k > 0 {
      AlikeRuns(q, r, fmt, a, b, before, ms, ns, fs, gs, k - 1);
      assert Linked(q, fmt, ms, fs, k) && Linked(r, fmt, ns, gs, k);
      assert SameMove(q.cfg, q.tokens[k - 1], r.cfg, r.tokens[k - 1]) && SameShape(After(q, k), After(r, k));
      var x, w := ms[k].sent[|ms[k - 1].sent|..], ns[k].sent[|ns[k - 1].sent|..];
      AlikePass(q.cfg, r.cfg, fmt, q.tokens[k - 1], r.tokens[k - 1], After(q, k), After(r, k),
                fs[k - 1].shown, gs[k - 1].shown, fs[k], gs[k], ms[k].waiting, x, w);
      assert ms[k].sent == ms[k - 1].sent + x && ns[k].sent == ns[k - 1].sent + w;
    }
  }

  /**
   * Two obscured runs on the same terminal whose lines agree in length and cursor at every
   * moment have sent the same bytes by every moment, whatever characters the lines hold.
   */
  lemma SecretsLookAlike(q: Run, r: Run, v: uchar -> nat, w: uchar -> nat, first: Screen, before: seq<byte>,
                         fmt: AddressFormat, pos: Pos, x: Reply, y: Reply, ms: seq<Moment>, ns: seq<Moment>,
                         file: seq<byte>, file': seq<byte>, k: nat)
    requires Achieves(q, Obscured, v, first, before, fmt, pos, x, ms, file)
    requires Achieves(r, Obscured, w, first, before, fmt, pos, y, ns, file')
    requires q.cfg.handlers == r.cfg.handlers == map[] && k < |ms| && k < |ns| && SameOutline(q, ms, r, ns, k)
    ensures ms[k].sent == ns[k].sent
  {
    hide Traced, AllRight, AllBegin, Answers, SameOutline;
    var fs :| Traced(q, fmt, Opened(Obscured, v, first, pos), before, ms, fs);
    var gs :| Traced(r, fmt, Opened(Obscured, w, first, pos), before, ns, gs);
    AlikeRuns(q, r, fmt, Opened(Obscured, v, first, pos), Opened(Obscured, w, first, pos), before, ms, ns, fs, gs, k);
  }

  /** At every read of an obscured run that finds no input waiting each cell of the line is an asterisk. */
  lemma SecretIsStars(run: Run, ms: seq<Moment>, first: Screen, sent: seq<byte>, i: nat)
    requires 0 < |ms| <= |run.tokens| + 1 && Displayed(run, ms, Obscured, first, sent)
    requires i < |Z.Line(After(run, |ms| - 1))|
    ensures
      var p := first.at - Picture.Shift(first.rows, first.cols, first.at + Extent(run, ms)) + i;
      var s := FeedAll(Vt(first, []), sent).screen;
      0 <= p < |s.cells| && s.cells[p] == 42
  {
    hide FeedAll, LineShown, After, Extent, Picture.Shift;
    ShownGlyph(first, Obscured, After(run, |ms| - 1), Extent(run, ms), FeedAll(Vt(first, []), sent).screen, i);
  }

  /** In the modes that are meant for secrets no handler is consulted, whichever are configured. */
  lemma SecretIsKeptFromHandlers(settings: Settings, mode: EchoMode, d: Dict, s: seq<byte>, pos: nat)
    requires Usable(settings) && Terminating(d) && mode != On
    ensures RunOf(settings, mode, d, s, pos).cfg == settings.(handlers := map[])
    ensures Usable(settings.(handlers := map[]))
    ensures RunOf(settings, mode, d, s, pos) == RunOf(settings.(handlers := map[]), On, d, s, pos)
  {
    hide Lex, Terminating;
  }

  /** With echo on the handlers are those configured. */
  lemma HandlersAreConsulted(settings: Settings, d: Dict, s: seq<byte>, pos: nat)
    requires Usable(settings) && Terminating(d)
    ensures RunOf(settings, On, d, s, pos).cfg == settings
  {
    hide Lex, Terminating;
  }

  /** While input waits text is not drawn, and without handlers only cursor keys send anything at all. */
  lemma NothingIsSentWhileInputWaits(cfg: Settings, fmt: AddressFormat, t: Token, z: Z.Zipper, a: SoundStage, f: Frame,
                                     text: seq<byte>)
    requires Passed(cfg, fmt, t, z, a, f, true, text) && cfg.handlers == map[] && !t.Key?
    ensures text == []
  {
  }

  lemma MovesDirtyNothing(a: SoundStage, key: nat)
    requires key != KEY_BACKSPACE && key != KEY_DELETE
    ensures Pressed(a, key).dirty == a.dirty
  {
    hide Target, MoveTo, Addressable, OnTrack, InPicture;
  }

  /** Nor is anything drawn when nothing has changed. */
  lemma NothingIsRedrawnInVain(cfg: Settings, fmt: AddressFormat, t: Token, z: Z.Zipper, a: SoundStage, f: Frame,
                               more: bool, text: seq<byte>)
    requires Passed(cfg, fmt, t, z, a, f, more, text) && !a.dirty
    requires t.Key? && t.key != KEY_BACKSPACE && t.key != KEY_DELETE
    ensures text == PressText(fmt, a, t.key)
  {
    hide PressText, Pressed, PaintText, Redrawn, OnTrack, InPicture;
    MovesDirtyNothing(a, t.key);
    assert !f.applied.dirty;
  }
}
