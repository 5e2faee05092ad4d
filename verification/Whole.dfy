/** A whole call in plain terms: what comes back for a line that is typed, and what is seen of it. */
module Whole {
  import opened Bytes
  import opened Utf8
  import opened Dictionary
  import opened Dfa
  import opened Refill
  import opened Reader
  import opened Terminal
  import opened Vt
  import opened Stage
  import opened Output
  import opened Editor
  import opened Nanorl
  import opened Program
  import opened Typed
  import opened Keys

  /** What has been sent by moment `k` of an xterm call shows the first `k` characters behind the prompt. */
  ghost predicate SeenAt(first: Screen, mode: EchoMode, before: seq<byte>, ms: seq<Moment>, w: seq<uchar>, k: nat)
    requires k < |ms| && k <= |w|
  {
    before <= ms[k].sent && exists base: nat ::
      && base <= first.at && (first.at - base) % first.cols == 0
      && Reads(FeedAll(Vt(first, []), ms[k].sent[|before|..]).screen, base, mode, w[..k])
  }

  lemma LineOfCall(run: Run, mode: EchoMode, width: uchar -> nat, first: Screen, before: seq<byte>, pos: Pos,
                   reply: Reply, ms: seq<Moment>, file: seq<byte>, w: seq<uchar>, eof: bool)
    requires CallAchieves(run, mode, width, first, before, pos, reply, ms, file)
    requires run.tokens == TextTokens(w) + [Tokens.Stop(eof)]
    requires Returned(run) == if eof && w == [] then Eof else Line(Encode(w))
    ensures reply == (if eof && w == [] then Eof else Line(Encode(w))) && |ms| == |w| + 1
    ensures forall k :: 0 <= k < |ms| ==> before <= ms[k].sent <= file
    ensures mode != Off && FitsScreen(mode, width, first.rows, first.cols, w) ==>
              forall k :: 0 <= k <= |w| && !ms[k].waiting ==> SeenAt(first, mode, before, ms, w, k)
  {
    hide Returned, FitsScreen, SeenAt, Traced, Answers, Displayed, TextTokens;
    forall k | 0 <= k < |ms| ensures before <= ms[k].sent <= file {
      assert RightAt(run, mode, width, first, before, ms, k);
    }
    if mode != Off && FitsScreen(mode, width, first.rows, first.cols, w) {
      forall k | 0 <= k <= |w| && !ms[k].waiting ensures SeenAt(first, mode, before, ms, w, k) {
        SeenInCall(run, mode, width, first, before, pos, reply, ms, file, w, eof, k);
      }
    }
  }

  lemma SeenInCall(run: Run, mode: EchoMode, width: uchar -> nat, first: Screen, before: seq<byte>, pos: Pos,
                   reply: Reply, ms: seq<Moment>, file: seq<byte>, w: seq<uchar>, eof: bool, k: nat)
    requires CallAchieves(run, mode, width, first, before, pos, reply, ms, file)
    requires run.tokens == TextTokens(w) + [Tokens.Stop(eof)] && k <= |w| && k < |ms|
    requires mode != Off && FitsScreen(mode, width, first.rows, first.cols, w) && !ms[k].waiting
    ensures SeenAt(first, mode, before, ms, w, k)
  {
    hide Achieves, FitsScreen, Reads, FeedAll, TextTokens, XtermAddress;
    TypedIsShown(run, mode, width, first, before, XtermAddress(), pos, reply, ms, file[..|file| - 8], w, eof, k);
  }

  lemma StreamOfLine(u: seq<uchar>, w: seq<uchar>, eof: bool)
    ensures Stream(Some(Encode(u)), Encode(w) + Ending(eof)) == Encode(u + w) + Ending(eof)
  {
    EncodeConcat(u, w);
    ConcatAssociates(Encode(u), Encode(w), Ending(eof));
  }

  lemma XtermRunOfLine(mode: EchoMode, u: seq<uchar>, w: seq<uchar>, eof: bool)
    requires IsText(u) && IsText(w)
    ensures Usable(XtermSettings(true, map[]))
    ensures
      var run := XtermRun(true, map[], mode, Stream(Some(Encode(u)), Encode(w) + Ending(eof)));
      && run.tokens == TextTokens(u + w) + [Tokens.Stop(eof)]
      && Returned(run) == if eof && u + w == [] then Eof else Line(Encode(u + w))
  {
    hide Returned, Encode;
    XtermIsReadable();
    XtermIsQuiet();
    StreamOfLine(u, w, eof);
    TypedIsReturned(XtermSettings(true, map[]), mode, XtermDict(), u + w, eof);
  }

  /**
   * A line `u` that is preloaded, and `w` typed behind it in whatever pieces, come back as one.
   * There is one read for each character and one for the end. By the first read the prompt
   * `> ` is on the terminal. At each that finds no input waiting, the characters so far, or as
   * many asterisks, stand where the terminal's cursor was then, if all of them fit the screen.
   */
  method TypeLine(dfa: Automaton, out: Sink, mode: EchoMode, width: uchar -> nat, u: seq<uchar>, w: seq<uchar>, eof: bool,
                  schedule: seq<nat>, ghost history: History, ghost start: Screen, rows: nat, cols: nat, pos: Pos)
    returns (reply: Reply)
    requires dfa.Valid() && (dfa.Dict() == map[] || dfa.Dict() == XtermDict())
    requires out.Valid() && out.reliable && out.count == 0
    requires IsText(u) && IsText(w)
    requires var first := PrintAll(start, [62, 32]);
      rows == first.rows && cols == first.cols && pos == PosOf(first.at, cols)
    modifies dfa, history, out, out.buf
    ensures reply == if eof && u + w == [] then Eof else Line(Encode(u + w))
    ensures old(history.moments) <= history.moments
    ensures
      var first, ms := PrintAll(start, [62, 32]), Since(history.moments, old(|history.moments|));
      && |ms| == |u| + |w| + 1 && old(out.file) <= ms[0].sent
      && (forall k :: 0 <= k < |ms| ==> ms[0].sent <= ms[k].sent <= out.file)
      && FeedAll(Vt(start, []), ms[0].sent[|old(out.file)|..]) == Vt(first, [])
      && (mode != Off && FitsScreen(mode, width, rows, cols, u + w) ==>
            forall k :: 0 <= k <= |u + w| && !ms[k].waiting ==> SeenAt(first, mode, ms[0].sent, ms, u + w, k))
  {
    hide CallAchieves, XtermRun, XtermDict, FitsScreen, SeenAt, Returned, Stream, PrintAll, FeedAll, TextTokens, IsText,
         Usable, XtermSettings, Encode, Ending;
    ghost var first, prompt, before := PrintAll(start, [62, 32]), [62, 32], out.file;
    XtermRunOfLine(mode, u, w, eof);
    PromptBytes(start);
    reply := Call(dfa, out, mode, width, true, map[], true, [62, 32], Some(Encode(u)), Encode(w) + Ending(eof), schedule,
                  FromUsed, k => 0, history, start, first, rows, cols, pos);
    ghost var ms := Since(history.moments, old(|history.moments|));
    LineOfCall(XtermRun(true, map[], mode, Stream(Some(Encode(u)), Encode(w) + Ending(eof))), mode, width, first,
               before + ([] + prompt), pos, reply, ms, out.file, u + w, eof);
    DropOfConcat(before, [] + prompt, |before|);
  }

  lemma PromptBytes(start: Screen)
    ensures FeedAll(Vt(start, []), Opening(true, [62, 32])) == Vt(PrintAll(start, [62, 32]), [])
    ensures FeedAll(Vt(start, []), [62, 32]) == Vt(PrintAll(start, [62, 32]), [])
  {
    var g: seq<uchar>, b: seq<byte> := [62, 32], [62, 32];
    assert g[1..] == [32] && [32][1..] == [];
    assert Encode([32]) == [32] && Encode(g) == [62] + [32];
    assert [] + b == b;
    PromptIsShown(start, true, g);
  }
}
