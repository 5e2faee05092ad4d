/** One whole call of nanorl() on an xterm: setup, the loop, teardown. */
module Program {
  import opened Bytes
  import opened Utf8
  import opened Dictionary
  import opened Dfa
  import opened Fastload
  import opened Tokens
  import opened Refill
  import opened Reader
  import opened Terminal
  import opened Stage
  import opened Output
  import opened Vt
  import opened Editor
  import opened Custom
  import opened Nanorl

  /** keypad_local and keypad_xmit of xterm. */
  const KEYPAD_LOCAL: seq<byte> := [27, 91, 63, 49, 108, 27, 62]
  const KEYPAD_XMIT: seq<byte> := [27, 91, 63, 49, 104, 27, 61]

  function XtermDict(): Dict {
    RegisterAll(map[], XtermTable())
  }

  /** custom_ignore_default and handlers as configured, and the custom keys of xterm. */
  function XtermSettings(ignoreDefault: bool, handlers: map<nat, Handler>): Settings {
    Settings(ignoreDefault, k => LookupIn(XTERM_CUSTOMS, k), handlers)
  }

  /** What init sends. */
  function Opening(assumeSmkx: bool, prompt: seq<byte>): seq<byte> {
    (if assumeSmkx then [] else KEYPAD_XMIT) + prompt
  }

  /** nrl_dfa_build at the start of every call: the first one builds, the others change nothing. */
  method BuildAgain(dfa: Automaton)
    requires dfa.Valid() && (dfa.Dict() == map[] || dfa.Dict() == XtermDict())
    modifies dfa
    ensures dfa.Valid() && dfa.Dict() == XtermDict()
    ensures old(dfa.Dict()) == XtermDict() ==> |dfa.nodes| == |old(dfa.nodes)|
    ensures Terminating(dfa.Dict()) && Short(dfa.Dict())
  {
    XtermIsReadable();
    RebuildIsStable(map[], XtermTable());
    dfa.Build(XTERM_INPUTS, true, XTERM_CUSTOMS);
  }

  /** The writes of init. */
  method Open(out: Sink, mode: EchoMode, assumeSmkx: bool, prompt: seq<byte>)
    requires out.Valid() && out.reliable && out.count == 0
    modifies out, out.buf
    ensures out.Valid() && out.count == 0 && (out.echo <==> mode != Off)
    ensures out.file == old(out.file) + Opening(assumeSmkx, prompt)
  {
    out.echo := true;
    ghost var sent := out.Sent();
    assert sent == out.file;
    var ok;
    if !assumeSmkx {
      ok := out.Write(KEYPAD_XMIT);
    }
    ok := out.Write(prompt);
    out.echo := mode != Off;
    ok := out.Flush();
    ConcatAssociates(sent, if assumeSmkx then [] else KEYPAD_XMIT, prompt);
  }

  /** The writes of deinit. */
  method Close(out: Sink)
    requires out.Valid() && out.reliable && out.count == 0
    modifies out, out.buf
    ensures out.Valid() && out.count == 0
    ensures out.file == old(out.file) + CLOSING
  {
    out.echo := true;
    ghost var sent := out.Sent();
    assert sent == out.file;
    var ok := out.Write([LF]);
    ok := out.Write(KEYPAD_LOCAL);
    ok := out.Flush();
    ConcatAssociates(sent, [LF], KEYPAD_LOCAL);
  }

  function Stream(preload: Option<seq<byte>>, typed: seq<byte>): seq<byte> {
    (if preload.Some? then preload.value else []) + typed
  }

  /** The loop on a fresh input buffer, which reads preload first and then what is typed. */
  method Serve(dfa: Automaton, out: Sink, mode: EchoMode, width: uchar -> nat, settings: Settings,
               preload: Option<seq<byte>>, typed: seq<byte>, schedule: seq<nat>,
               source: RefillSource, beyond: nat -> byte,
               ghost history: History, ghost first: Screen, rows: nat, cols: nat, pos: Pos)
    returns (reply: Reply)
    requires dfa.Valid() && Short(dfa.Dict()) && Terminating(dfa.Dict())
    requires Dependable(source, dfa.Dict(), Stream(preload, typed), 0, Supply(preload, typed, schedule, 0))
    requires out.Valid() && out.reliable && out.count == 0 && (out.echo <==> mode != Off)
    requires rows == first.rows && cols == first.cols && pos == PosOf(first.at, cols)
    requires Usable(settings)
    modifies history, out, out.buf
    ensures out.Valid() && out.count == 0 && old(history.moments) <= history.moments
    ensures
      var run := RunOf(settings, mode, dfa.Dict(), Stream(preload, typed), 0);
      Achieves(run, mode, width, first, old(out.file), XtermAddress(), pos,
               reply, Since(history.moments, old(|history.moments|)), out.file)
  {
    hide Short, Terminating, Clean, Usable, Achieves, Addresses;
    var input := new Input(source, beyond, preload, typed, schedule, out, history);
    reply := ReadLine(dfa, input, out, mode, width, XtermAddress(), settings, first, rows, cols, pos);
  }

  /** What deinit sends. */
  const CLOSING: seq<byte> := [LF] + KEYPAD_LOCAL

  lemma XtermIsReadable()
    ensures Terminating(XtermDict()) && Short(XtermDict()) && TableFits(map[], XtermTable())
  {
    XtermKeys();
    KeyTablesFit(map[], XtermTable());
    KeysAreReadable(XtermDict());
  }

  /** A run on an xterm. */
  ghost function XtermRun(ignoreDefault: bool, handlers: map<nat, Handler>, mode: EchoMode, stream: seq<byte>): (run: Run)
    requires Usable(XtermSettings(ignoreDefault, handlers))
  {
    XtermIsReadable();
    RunOf(XtermSettings(ignoreDefault, handlers), mode, XtermDict(), stream, 0)
  }

  /** What a call has sent in the end: what the run has achieved, and then a newline and the keypad sequence. */
  ghost predicate CallAchieves(run: Run, mode: EchoMode, width: uchar -> nat, first: Screen, before: seq<byte>, pos: Pos,
                               reply: Reply, ms: seq<Moment>, file: seq<byte>) {
    var end: int := |file| - 8;
    && end >= 0 && file[end..] == [10, 27, 91, 63, 49, 108, 27, 62]
    && Achieves(run, mode, width, first, before, XtermAddress(), pos, reply, ms, file[..end])
  }

  /** What init sends shows the prompt, glyph for glyph, and nothing else. */
  lemma PromptIsShown(start: Screen, assumeSmkx: bool, g: seq<uchar>)
    requires AllGlyphs(g)
    ensures FeedAll(Vt(start, []), (if assumeSmkx then [] else KEYPAD_XMIT) + Encode(g)) == Vt(PrintAll(start, g), [])
  {
    var keypad := if assumeSmkx then [] else KEYPAD_XMIT;
    FeedConcat(Vt(start, []), keypad, Encode(g));
    KeypadShowsNothing(start);
    FeedText(start, g);
  }

  lemma KeypadShowsNothing(s: Screen)
    ensures FeedAll(Vt(s, []), KEYPAD_XMIT) == Vt(s, [])
  {
    var csi: seq<byte>, params: seq<byte>, esc: seq<byte> := [27, 91], [63, 49, 104], [27, 61];
    assert KEYPAD_XMIT == csi + (params + esc);
    FeedConcat(Vt(s, []), csi, params + esc);
    assert csi == [ESC] + [LEFT_BRACKET];
    FeedConcat(Vt(s, []), [ESC], [LEFT_BRACKET]);
    FeedOne(Vt(s, []), ESC);
    FeedOne(Vt(s, [ESC]), LEFT_BRACKET);
    FeedConcat(Vt(s, csi), params, esc);
    assert params == [63, 49] + [104];
    FeedConcat(Vt(s, csi), [63, 49], [104]);
    FeedParams(s, csi, [63, 49]);
    FeedOne(Vt(s, csi + [63, 49]), 104);
    assert esc == [ESC] + [61];
    FeedConcat(Vt(s, []), [ESC], [61]);
    FeedOne(Vt(s, [ESC]), 61);
  }

  /**
   * The reply depends on preload and input alone: not on how read() splits the input, not on
   * what earlier calls have built, and on the echo mode only through the handlers. `history`
   * is the record of all reads. By the first of them the whole prompt has been sent and a
   * terminal that showed `start` shows it. Between what init sends and what deinit sends there
   * is what the run has sent, and with echo off that is nothing.
   */
  method Call(dfa: Automaton, out: Sink, mode: EchoMode, width: uchar -> nat,
              ignoreDefault: bool, handlers: map<nat, Handler>, assumeSmkx: bool, prompt: seq<byte>,
              preload: Option<seq<byte>>, typed: seq<byte>, schedule: seq<nat>,
              source: RefillSource, beyond: nat -> byte,
              ghost history: History, ghost start: Screen, ghost first: Screen, rows: nat, cols: nat, pos: Pos)
    returns (reply: Reply)
    requires dfa.Valid() && (dfa.Dict() == map[] || dfa.Dict() == XtermDict())
    requires Dependable(source, XtermDict(), Stream(preload, typed), 0, Supply(preload, typed, schedule, 0))
    requires out.Valid() && out.reliable && out.count == 0
    requires FeedAll(Vt(start, []), Opening(assumeSmkx, prompt)) == Vt(first, [])
    requires rows == first.rows && cols == first.cols && pos == PosOf(first.at, cols)
    requires Usable(XtermSettings(ignoreDefault, handlers))
    modifies dfa, history, out, out.buf
    ensures dfa.Valid() && dfa.Dict() == XtermDict() && Terminating(XtermDict())
    ensures old(history.moments) <= history.moments
    ensures
      var ms := Since(history.moments, old(|history.moments|));
      && 0 < |ms| <= |Stream(preload, typed)| + 1
      && ms[0].sent == old(out.file) + ((if assumeSmkx then [] else KEYPAD_XMIT) + prompt)
    ensures forall g: seq<uchar> | AllGlyphs(g) && prompt == Encode(g) :: first == PrintAll(start, g)
    ensures CallAchieves(XtermRun(ignoreDefault, handlers, mode, Stream(preload, typed)), mode, width, first,
                         old(out.file) + ((if assumeSmkx then [] else KEYPAD_XMIT) + prompt), pos,
                         reply, Since(history.moments, old(|history.moments|)), out.file)
  {
    hide XtermSettings, XtermDict, XtermTable, Terminating, Short, Usable, Clean, Achieves, CallAchieves, FeedAll, AllGlyphs,
         Encode, XtermRun, XtermAddress, RunOf, TableFits;
    XtermIsReadable();
    BuildAgain(dfa);
    Open(out, mode, assumeSmkx, prompt);
    ghost var before := out.file;
    reply := Serve(dfa, out, mode, width, XtermSettings(ignoreDefault, handlers), preload, typed, schedule, source, beyond,
                   history, first, rows, cols, pos);
    ghost var sent := out.file;
    Close(out);
    XtermRunIs(ignoreDefault, handlers, mode, Stream(preload, typed));
    CallIsDone(XtermRun(ignoreDefault, handlers, mode, Stream(preload, typed)), mode, width, first, before, pos, reply,
               Since(history.moments, old(|history.moments|)), sent, out.file);
    PromptIsFirst(start, first, assumeSmkx, prompt);
  }

  lemma XtermRunIs(ignoreDefault: bool, handlers: map<nat, Handler>, mode: EchoMode, stream: seq<byte>)
    requires Usable(XtermSettings(ignoreDefault, handlers)) && Terminating(XtermDict())
    ensures
      var run := XtermRun(ignoreDefault, handlers, mode, stream);
      && run == RunOf(XtermSettings(ignoreDefault, handlers), mode, XtermDict(), stream, 0)
      && |run.tokens| <= |stream| + 1
  {
  }

  lemma CallIsDone(run: Run, mode: EchoMode, width: uchar -> nat, first: Screen, before: seq<byte>, pos: Pos,
                   reply: Reply, ms: seq<Moment>, sent: seq<byte>, file: seq<byte>)
    requires Achieves(run, mode, width, first, before, XtermAddress(), pos, reply, ms, sent) && file == sent + CLOSING
    ensures CallAchieves(run, mode, width, first, before, pos, reply, ms, file)
    ensures |ms| == |run.tokens| > 0 && ms[0].sent == before
  {
    hide XtermAddress;
    assert file[..|sent|] == sent && file[|sent|..] == CLOSING;
  }

  lemma PromptIsFirst(start: Screen, first: Screen, assumeSmkx: bool, prompt: seq<byte>)
    requires FeedAll(Vt(start, []), Opening(assumeSmkx, prompt)) == Vt(first, [])
    ensures forall g: seq<uchar> | AllGlyphs(g) && prompt == Encode(g) :: first == PrintAll(start, g)
  {
    forall g: seq<uchar> | AllGlyphs(g) && prompt == Encode(g) ensures first == PrintAll(start, g) {
      PromptIsShown(start, assumeSmkx, g);
    }
  }
}
