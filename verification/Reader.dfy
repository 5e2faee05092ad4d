/** The input half of src/io.c: a refillable buffer under a backtracking lexer. */
module Reader {
  import opened Bytes
  import opened Utf8
  import opened Dictionary
  import opened Dfa
  import opened Tokens
  import opened Refill
  import opened Output

  /**
   * The buffer and its counters, what is still to be delivered, and what it all stands for:
   * the stream from `pos` on, except that the first `stale` pending bytes may be garbage.
   */
  datatype View = View(
    buf: seq<byte>, count: nat, used: nat, pending: nat, undelivered: seq<byte>,
    source: RefillSource, stream: seq<byte>, pos: nat, stale: nat)

  /** Byte `i` of the buffer is byte `i + shift` of the stream. */
  ghost predicate Agrees(b: seq<byte>, i: int, stream: seq<byte>, shift: int) {
    0 <= i < |b| && 0 <= i + shift && b[i] == At(stream, i + shift)
  }

  ghost predicate Holds(b: seq<byte>, from: nat, to: nat, stream: seq<byte>, shift: int) {
    to <= |b| && forall i :: from <= i < to ==> Agrees(b, i, stream, shift)
  }

  ghost predicate Sound(v: View) {
    && |v.buf| == IO_BUF_SIZE
    && v.used + v.pending <= v.count && v.stale <= v.pending
    && Holds(v.buf, v.used + v.stale, v.count, v.stream, v.pos - v.used)
    && v.undelivered == Drop(v.stream, v.count + v.pos - v.used)
    && (v.source == FromUsed ==> v.stale == 0)
  }

  const EMPTY_VIEW: View := View(seq<byte>(IO_BUF_SIZE, i => 0), 0, 0, 0, [], FromUsed, [], 0, 0)

  type SoundView = v: View | Sound(v) witness EMPTY_VIEW

  /** `n` bytes of `data`, EOT-padded, have been stored at `off`. */
  ghost predicate Filled(before: seq<byte>, b: seq<byte>, off: nat, n: nat, data: seq<byte>) {
    && |b| == |before| && off + n <= |b|
    && b[..off] == before[..off]
    && b[off..off + n] == Window(data, 0, n)
    && b[off + n..] == before[off + n..]
  }

  lemma HoldsAfterFill(before: seq<byte>, b: seq<byte>, stale: nat, kept: nat, n: nat, stream: seq<byte>, pos: nat)
    requires Holds(before, stale, kept, stream, pos)
    requires Filled(before, b, kept, n, Drop(stream, kept + pos))
    ensures Holds(b, stale, kept + n, stream, pos)
  {
    forall i | stale <= i < kept + n ensures Agrees(b, i, stream, pos) {
      if i < kept {
        assert Agrees(before, i, stream, pos);
        assert b[i] == b[..kept][i] == before[..kept][i];
      } else {
        assert b[i] == b[kept..kept + n][i - kept];
      }
    }
  }

  /** Reading behind the `pending` bytes of a buffer that holds nothing else, at its front. */
  lemma ViewAfterFill(v: SoundView, b: seq<byte>, n: nat, undelivered: seq<byte>) returns (w: SoundView)
    requires v.used == 0 && v.count == v.pending
    requires Filled(v.buf, b, v.count, n, v.undelivered) && undelivered == Drop(v.undelivered, n)
    ensures w == v.(buf := b, count := v.count + n, undelivered := undelivered)
  {
    HoldsAfterFill(v.buf, b, v.stale, v.count, n, v.stream, v.pos);
    DropDrop(v.stream, v.count + v.pos, n);
    w := v.(buf := b, count := v.count + n, undelivered := undelivered);
  }

  lemma ViewAfterReset(v: SoundView) returns (w: SoundView)
    requires v.used == v.count
    ensures w == v.(used := 0, count := 0, pending := 0, stale := 0)
  {
    w := v.(used := 0, count := 0, pending := 0, stale := 0);
  }

  /** The pending bytes have been moved to the front, or something else has. */
  lemma ViewAfterMove(v: SoundView, b: seq<byte>) returns (w: SoundView)
    requires v.used + v.pending == v.count && |b| == |v.buf|
    requires v.source == FromUsed ==> b[..v.pending] == v.buf[v.used..v.count]
    ensures w == v.(buf := b, used := 0, count := v.pending, stale := if v.source == FromUsed then 0 else v.pending)
  {
    if v.source == FromUsed {
      forall i | 0 <= i < v.pending ensures Agrees(b, i, v.stream, v.pos) {
        assert Agrees(v.buf, v.used + i, v.stream, v.pos - v.used);
        assert b[i] == b[..v.pending][i] == v.buf[v.used..v.count][i];
      }
    }
    w := v.(buf := b, used := 0, count := v.pending, stale := if v.source == FromUsed then 0 else v.pending);
  }

  /** Handing out one more byte. */
  lemma ViewAfterChar(v: SoundView) returns (w: SoundView)
    requires v.used + v.pending < v.count
    ensures w == v.(pending := v.pending + 1)
    ensures v.buf[v.used + v.pending] == At(v.stream, v.pos + v.pending)
    ensures Window(v.stream, v.pos, v.pending + 1)
         == Window(v.stream, v.pos, v.pending) + [v.buf[v.used + v.pending]]
  {
    assert Agrees(v.buf, v.used + v.pending, v.stream, v.pos - v.used);
    WindowExtend(v.stream, v.pos, v.pending);
    w := v.(pending := v.pending + 1);
  }

  /** Garbage that is handed back becomes part of the stream. */
  lemma HoldsAfterPatch(b: seq<byte>, from: nat, mid: nat, to: nat, stream: seq<byte>, shift: int)
    requires Holds(b, mid, to, stream, shift) && from <= mid <= to && 0 <= from + shift
    ensures Holds(b, from, to, Patch(stream, from + shift, b[from..mid]), shift)
  {
    var g := b[from..mid];
    var s := Patch(stream, from + shift, g);
    forall i | from <= i < to ensures Agrees(b, i, s, shift) {
      AgreesAfterPatch(b, i, from, g, stream, shift);
    }
  }

  lemma AgreesAfterPatch(b: seq<byte>, i: nat, from: nat, g: seq<byte>, stream: seq<byte>, shift: int)
    requires from <= i < |b| && 0 <= from + shift
    requires i < from + |g| ==> g[i - from] == b[i]
    requires from + |g| <= i ==> Agrees(b, i, stream, shift)
    ensures Agrees(b, i, Patch(stream, from + shift, g), shift)
  {
    var pos: nat, j: nat := from + shift, i + shift;
    PatchAt(stream, pos, g, j);
    if i < from + |g| {
      assert j - pos == i - from;
    } else {
      assert Agrees(b, i, stream, shift);
    }
    assert At(Patch(stream, pos, g), j) == b[i];
  }

  /**
   * Consuming `k` pending bytes and handing back the others; what has overwritten some of
   * them is now part of the stream.
   */
  lemma ViewAfterConsume(v: SoundView, k: nat) returns (w: SoundView, g: seq<byte>)
    requires k <= v.pending
    ensures g == if v.stale <= k then [] else v.buf[v.used + k..v.used + v.stale]
    ensures w == v.(used := v.used + k, pending := 0, stale := 0, pos := v.pos + k, stream := Patch(v.stream, v.pos + k, g))
  {
    hide Agrees, Drop, Window;
    g := [];
    if k < v.stale {
      g := v.buf[v.used + k..v.used + v.stale];
      HoldsAfterPatch(v.buf, v.used + k, v.used + v.stale, v.count, v.stream, v.pos - v.used);
      DropAfterPatch(v.stream, v.pos + k, g, v.count + v.pos - v.used);
    }
    w := v.(used := v.used + k, pending := 0, stale := 0, pos := v.pos + k, stream := Patch(v.stream, v.pos + k, g));
  }

  lemma DropAfterPatch(s: seq<byte>, pos: nat, g: seq<byte>, n: nat)
    requires pos + |g| <= n
    ensures Drop(Patch(s, pos, g), n) == Drop(s, n)
  {
    if g != [] && n <= |s| {
      assert Patch(s, pos, g)[n..] == s[n..];
    }
  }

  /** Sequences the buffer can hold: their size is taken to be negligible beside it. */
  ghost predicate Short(d: Dict) {
    forall k :: k in d ==> |k| <= IO_BUF_SIZE
  }

  lemma StillShort(d: Dict, w: seq<byte>)
    requires Short(d) && LeadsTo(d, w) && w !in d
    ensures |w| < IO_BUF_SIZE
  {
    var k :| k in d && w <= k;
    assert k != w;
  }

  ghost predicate IsZero(b: seq<byte>, i: int) {
    0 <= i < |b| && b[i] == 0
  }

  /** Everything delivered so far is still in a buffer that was zero before, and so is what was moved over it. */
  ghost predicate Pristine(v: View) {
    v.used == 0 && (forall i :: 0 <= i < v.stale ==> IsZero(v.buf, i))
    && (forall i :: v.count <= i < IO_BUF_SIZE ==> IsZero(v.buf, i))
  }

  lemma PristineAfterFill(v: SoundView, b: seq<byte>, n: nat, data: seq<byte>, w: SoundView)
    requires Pristine(v) && Filled(v.buf, b, v.count, n, data)
    requires w == v.(buf := b, count := v.count + n, undelivered := w.undelivered)
    ensures Pristine(w)
  {
    forall i | 0 <= i < w.stale ensures IsZero(b, i) {
      assert IsZero(v.buf, i) && b[i] == b[..v.count][i] == v.buf[..v.count][i];
    }
    forall i | w.count <= i < IO_BUF_SIZE ensures IsZero(b, i) {
      assert IsZero(v.buf, i) && b[i] == b[w.count..][i - w.count] == v.buf[w.count..][i - w.count];
    }
  }

  /** Moving over the pending bytes what lies behind them moves zeros. */
  lemma PristineAfterMove(v: SoundView, b: seq<byte>, w: SoundView)
    requires Pristine(v) && v.pending == v.count && 2 * v.pending <= IO_BUF_SIZE
    requires |b| == |v.buf| && forall i :: v.pending <= i < |b| ==> b[i] == v.buf[i]
    requires v.source == FromCount ==> forall i :: 0 <= i < v.pending ==> b[i] == v.buf[v.count + i]
    requires w == v.(buf := b, used := 0, count := v.pending, stale := if v.source == FromUsed then 0 else v.pending)
    ensures Pristine(w)
  {
    forall i | 0 <= i < w.stale ensures IsZero(b, i) {
      assert IsZero(v.buf, v.count + i);
    }
    forall i | w.count <= i < IO_BUF_SIZE ensures IsZero(b, i) {
      assert IsZero(v.buf, i);
    }
  }

  lemma PristineLoss(v: SoundView, g: seq<byte>)
    requires Pristine(v) && g == v.buf[v.used..v.used + v.stale]
    ensures g == seq<byte>(v.stale, i => 0)
  {
    forall i | 0 <= i < v.stale ensures g[i] == 0 {
      assert IsZero(v.buf, i);
    }
  }

  /** A call of nrl_io_read: whether input was waiting in the buffer, and what had been sent by then. */
  datatype Moment = Moment(waiting: bool, sent: seq<byte>)

  /** All calls of nrl_io_read, in order. */
  class History {
    ghost var moments: seq<Moment>

    constructor ()
      ensures moments == []
    {
      moments := [];
    }
  }

  function Answer(next: Outcome): Option<Entry> {
    if next.Accept? then Some(next.entry) else None
  }

  class Input {
    const source: RefillSource
    /** Memory behind rd_buf, which FromCount may reach. */
    const beyond: nat -> byte

    const buf: array<byte>
    var count: nat
    var used: nat
    var pending: nat
    var preload: Option<seq<byte>>

    /** The descriptor: bytes still to come, and how many each read() is willing to give. */
    var rest: seq<byte>
    var schedule: seq<nat>

    /** What is sent, and the record of it. */
    ghost const out: Sink
    ghost const history: History

    ghost var view: SoundView

    ghost function Supplied(): Supply
      requires used <= count
      reads this
    {
      Supply(preload, rest, schedule, count - used)
    }

    ghost function Undelivered(): seq<byte>
      reads this`preload, this`rest
    {
      (if preload.Some? then preload.value else []) + rest
    }

    ghost function Shown(): View
      reads this, buf
    {
      View(buf[..], count, used, pending, Undelivered(), source, view.stream, view.pos, view.stale)
    }

    ghost predicate Valid()
      reads this, buf
    {
      view == Shown() && (preload == Some([]) ==> count == 0)
    }

    constructor (source: RefillSource, beyond: nat -> byte, preload: Option<seq<byte>>,
                 rest: seq<byte>, schedule: seq<nat>, ghost out: Sink, ghost history: History)
      ensures Valid() && fresh(buf) && this.source == source && this.out == out && this.history == history
      ensures pending == 0 && Supplied() == Supply(preload, rest, schedule, 0) && Pristine(view)
      ensures view.pos == 0 && view.stream == (if preload.Some? then preload.value else []) + rest
    {
      this.source, this.beyond, this.out, this.history := source, beyond, out, history;
      buf := new byte[IO_BUF_SIZE](_ => 0);
      count, used, pending := 0, 0, 0;
      this.preload, this.rest, this.schedule := preload, rest, schedule;
      var stream := (if preload.Some? then preload.value else []) + rest;
      new;
      view := View(buf[..], 0, 0, 0, stream, source, stream, 0, 0);
      assert forall i :: 0 <= i < IO_BUF_SIZE ==> IsZero(buf[..], i);
    }

    /** read(2): some bytes as long as there are any, never more than asked for. */
    method ReadFile(off: nat, cap: nat) returns (n: nat)
      requires 0 < cap && off + cap <= buf.Length
      modifies this`rest, this`schedule, buf
      ensures n == Granted(old(rest), old(schedule), cap)
      ensures rest == old(rest)[n..] && schedule == if old(schedule) == [] then [] else old(schedule)[1..]
      ensures Filled(old(buf[..]), buf[..], off, n, old(rest))
    {
      n := Granted(rest, schedule, cap);
      schedule := if schedule == [] then [] else schedule[1..];
      forall i | 0 <= i < n {
        buf[off + i] := rest[i];
      }
      rest := rest[n..];
    }

    /** Preload, as much of it as there is room for. */
    method TakePreload(off: nat, cap: nat) returns (n: nat)
      requires 0 < cap && off + cap <= buf.Length && preload.Some?
      modifies this`preload, buf
      ensures n <= cap && preload != Some([]) && (n == 0 ==> old(preload) == Some([]))
      ensures Supply(preload, rest, schedule, n) == Fetch(Supply(old(preload), rest, schedule, 0), cap)
      ensures Filled(old(buf[..]), buf[..], off, n, old(Undelivered()))
      ensures Undelivered() == Drop(old(Undelivered()), n)
    {
      var data := preload.value;
      n := if |data| > cap then cap else |data|;
      forall i | 0 <= i < n {
        buf[off + i] := data[i];
      }
      preload := if |data| > cap then Some(data[cap..]) else None;
    }

    /** read_wrapper: preload first, and an EOT when there is nothing more. */
    method ReadWrapper(off: nat, cap: nat) returns (n: nat)
      requires 0 < cap && off + cap <= buf.Length
      modifies this`preload, this`rest, this`schedule, buf
      ensures n <= cap && preload != Some([]) && (n == 0 ==> old(preload) == Some([]))
      ensures Supply(preload, rest, schedule, n) == Fetch(Supply(old(preload), old(rest), old(schedule), 0), cap)
      ensures Filled(old(buf[..]), buf[..], off, n, old(Undelivered()))
      ensures Undelivered() == Drop(old(Undelivered()), n)
    {
      if preload.Some? {
        n := TakePreload(off, cap);
        return;
      }
      n := ReadFile(off, cap);
      if n == 0 {
        buf[off] := EOT;
        return 1;
      }
    }

    /** The next byte of the stream, whatever refills it takes. */
    method NextChar() returns (c: byte)
      requires Valid() && pending < IO_BUF_SIZE
      modifies this, buf
      ensures Valid()
      ensures view.pos == old(view.pos) && view.stream == old(view.stream)
      ensures pending == old(pending) + 1
      ensures c == At(view.stream, view.pos + old(pending))
      ensures Window(view.stream, view.pos, pending) == Window(view.stream, view.pos, old(pending)) + [c]
      ensures Supplied() == Draw(old(Supplied()), old(pending))
      ensures view.stale == AfterDraw(source, old(Supplied()), old(pending), old(view.stale))
      ensures old(Pristine(view)) && 2 * old(pending) <= IO_BUF_SIZE ==> Pristine(view)
    {
      hide Agrees, Drop, Fetch, Window, IsZero;
      if used == count {
        RefillEmpty();
      }
      if used + pending == count {
        RefillPending();
      }
      c := buf[used + pending];
      view := ViewAfterChar(view);
      pending := pending + 1;
    }

    /** An empty buffer starts over at its front. Only an empty preload yields nothing. */
    method RefillEmpty()
      requires Valid() && used == count
      modifies this, buf
      ensures Valid() && preload != Some([])
      ensures view.pos == old(view.pos) && view.stream == old(view.stream)
      ensures used == pending == view.stale == old(pending) == old(view.stale) == 0
      ensures Supplied() == Fetch(old(Supplied()), IO_BUF_SIZE)
      ensures old(Pristine(view)) ==> Pristine(view)
    {
      hide Fetch, IsZero, Filled, Drop, Agrees, Window;
      ghost var pristine := Pristine(view);
      view := ViewAfterReset(view);
      used, pending := 0, 0;
      ghost var v := view;
      count := ReadWrapper(0, IO_BUF_SIZE);
      view := ViewAfterFill(view, buf[..], count, Undelivered());
      if pristine {
        PristineAfterFill(v, buf[..], count, v.undelivered, view);
      }
    }

    /** The buffer ends in the middle of a sequence: keep the pending bytes and read behind them. */
    method RefillPending()
      requires Valid() && used + pending == count && pending < IO_BUF_SIZE && preload != Some([])
      modifies this, buf
      ensures Valid() && preload != Some([])
      ensures view.pos == old(view.pos) && view.stream == old(view.stream)
      ensures used == 0 && old(pending) == pending < count
      ensures Supplied() == Fetch(old(Supplied()), IO_BUF_SIZE - pending)
      ensures view.stale == if source == FromUsed then 0 else pending
      ensures old(Pristine(view)) && 2 * pending <= IO_BUF_SIZE ==> Pristine(view)
    {
      hide Fetch, Pristine, Filled, Drop, Agrees, Window;
      FetchAddsUp(Supply(preload, rest, schedule, 0), pending, IO_BUF_SIZE - pending);
      MovePending();
      ghost var v := view;
      var bytes := ReadWrapper(count, IO_BUF_SIZE - count);
      view := ViewAfterFill(view, buf[..], bytes, Undelivered());
      if Pristine(v) {
        PristineAfterFill(v, buf[..], bytes, v.undelivered, view);
      }
      count := count + bytes;
    }

    /** memmove of the pending bytes to the front, from the place `source` says. */
    method MovePending()
      requires Valid() && used + pending == count && preload != Some([])
      modifies this`count, this`used, this`view, buf
      ensures Valid() && used == 0 && count == pending
      ensures view.pos == old(view.pos) && view.stream == old(view.stream) && view.undelivered == old(view.undelivered)
      ensures view.stale == if source == FromUsed then 0 else pending
      ensures old(Pristine(view)) && 2 * pending <= IO_BUF_SIZE ==> Pristine(view)
    {
      if source == FromUsed {
        forall i | 0 <= i < pending {
          buf[i] := buf[used + i];
        }
        assert buf[..pending] == old(buf[used..count]);
      } else {
        forall i | 0 <= i < pending {
          buf[i] := if count + i < buf.Length then buf[count + i] else beyond(count + i);
        }
      }
      ghost var v := view;
      view := ViewAfterMove(view, buf[..]);
      if Pristine(v) && 2 * pending <= IO_BUF_SIZE {
        PristineAfterMove(v, buf[..], view);
      }
      count, used := pending, 0;
    }

    /** nrl_dfa_parse, drawing its characters from this buffer. */
    method Parse(dfa: Automaton) returns (accepted: Option<Entry>)
      requires Valid() && pending == 0 && dfa.Valid() && Short(dfa.Dict())
      modifies this, buf
      ensures Valid() && view.pos == old(view.pos) && view.stream == old(view.stream)
      ensures accepted == Matched(dfa.Dict(), view.stream, view.pos)
      ensures pending == LookaheadLength(dfa.Dict(), view.stream, view.pos)
      ensures Supplied() == Drawn(old(Supplied()), pending) && view.stale == Stale(source, old(Supplied()), pending)
      ensures old(Pristine(view)) && 2 * pending <= IO_BUF_SIZE ==> Pristine(view)
    {
      hide Holds, Drop, Lookahead, LeadsTo, Pristine, Draw, Drawn, Stale, AfterDraw, Short, Straddles;
      DrawOneMore(source, Supplied(), 0);
      ghost var stream, pos, supply, pristine := view.stream, view.pos, Supplied(), Pristine(view);
      var root := dfa.Start();
      if root.None? {
        return None;
      }
      var next := Descend(root.value);
      while next.Descend?
        invariant Valid() && view.pos == pos && view.stream == stream
        invariant Supplied() == Drawn(supply, pending) && view.stale == Stale(source, supply, pending)
        invariant pristine && 2 * pending <= IO_BUF_SIZE ==> Pristine(view)
        invariant next.Descend? ==> dfa.Reached(next.node, Window(stream, pos, pending)) && pending < IO_BUF_SIZE
        invariant next.Descend? ==> Open(dfa.Dict(), Window(stream, pos, pending))
        invariant !next.Descend? ==>
          Answer(next) == Matched(dfa.Dict(), stream, pos) && pending == LookaheadLength(dfa.Dict(), stream, pos)
        decreases IO_BUF_SIZE - pending
      {
        DrawOneMore(source, supply, pending);
        next := Advance(dfa, next.node);
      }
      accepted := Answer(next);
    }

    /** One round of the loop of nrl_dfa_parse: a byte and the edge for it. */
    method Advance(dfa: Automaton, trav: nat) returns (next: Outcome)
      requires Valid() && pending < IO_BUF_SIZE && dfa.Valid() && Short(dfa.Dict()) && dfa.Dict() != map[]
      requires dfa.Reached(trav, Window(view.stream, view.pos, pending))
      requires Open(dfa.Dict(), Window(view.stream, view.pos, pending))
      modifies this, buf
      ensures Valid() && view.pos == old(view.pos) && view.stream == old(view.stream)
      ensures pending == old(pending) + 1
      ensures Supplied() == Draw(old(Supplied()), old(pending))
      ensures view.stale == AfterDraw(source, old(Supplied()), old(pending), old(view.stale))
      ensures old(Pristine(view)) && 2 * old(pending) <= IO_BUF_SIZE ==> Pristine(view)
      ensures next.Descend? ==> dfa.Reached(next.node, Window(view.stream, view.pos, pending)) && pending < IO_BUF_SIZE
      ensures next.Descend? ==> Open(dfa.Dict(), Window(view.stream, view.pos, pending))
      ensures !next.Descend? ==> Answer(next) == Matched(dfa.Dict(), view.stream, view.pos)
      ensures !next.Descend? ==> pending == LookaheadLength(dfa.Dict(), view.stream, view.pos)
    {
      hide Holds, Drop, Lookahead, LeadsTo, Matched, LookaheadLength, Short, Pristine, Draw, AfterDraw;
      ghost var depth, sofar := pending, Window(view.stream, view.pos, pending);
      var input := NextChar();
      next := dfa.Step(trav, input, sofar);
      if next.Fail? {
        NoMatchBeyond(dfa.Dict(), view.stream, view.pos, depth);
      } else if next.Accept? {
        MatchFound(dfa.Dict(), view.stream, view.pos, depth);
      } else {
        StillShort(dfa.Dict(), sofar + [input]);
      }
    }

    /** next_uchar; `lost` are the overwritten bytes that a failed decode hands back. */
    method NextUChar() returns (uc: uchar, ghost lost: seq<byte>)
      requires Valid() && pending == 0
      modifies this, buf
      ensures Valid() && pending == 0
      ensures Classify(uc) == DecodeAt(old(view.stream), old(view.pos)).token
      ensures view.pos == old(view.pos) + DecodeAt(old(view.stream), old(view.pos)).length
      ensures view.stream == Patch(old(view.stream), view.pos, lost)
      ensures Supplied() == TextTaken(old(view.stream), old(view.pos), old(Supplied()))
      ensures |lost| == TextLoss(source, old(view.stream), old(view.pos), old(Supplied()))
    {
      hide Parse4, Classify, Patch, Loaded, Holds, Drop, Draw, Pristine;
      ghost var stream, pos, supply := view.stream, view.pos, Supplied();
      var b0 := NextChar();
      var buffer: seq<byte> := [b0, 0, 0, 0];
      LoadedFirst(buffer, stream, pos);
      var n := Inspect(b0);
      while pending < n
        invariant Valid() && view.pos == pos && view.stream == stream && 1 <= pending <= n
        invariant |buffer| == 4 && buffer[0] == b0 && Loaded(buffer, pending, stream, pos)
        invariant Supplied() == Drawn(supply, pending) && view.stale == Stale(source, supply, pending)
      {
        var c := NextChar();
        LoadedMore(buffer, pending - 1, stream, pos);
        buffer := buffer[pending - 1 := c];
      }
      var r := Utf8.Parse(buffer);
      DecodeLoaded(stream, pos, buffer);
      lost := Consume(if r.consumed == 0 then 1 else r.consumed);
      uc := if r.consumed == 0 then ERROR_CHAR else r.value;
    }

    /** rd_used += k; rd_pending = 0. */
    method Consume(k: nat) returns (ghost lost: seq<byte>)
      requires Valid() && k <= pending
      modifies this`used, this`pending, this`view
      ensures Valid() && pending == 0 && Supplied() == Consumed(old(Supplied()), k)
      ensures view.pos == old(view.pos) + k
      ensures view.stream == Patch(old(view.stream), view.pos, lost)
      ensures |lost| == Less(old(view.stale), k) && (lost == [] ==> view.stream == old(view.stream))
      ensures old(Pristine(view)) && k == 0 ==> lost == seq<byte>(|lost|, i => 0)
    {
      hide Agrees, Drop, Window, IsZero;
      if Pristine(view) && k == 0 {
        PristineLoss(view, view.buf[view.used..view.used + view.stale]);
      }
      view, lost := ViewAfterConsume(view, k);
      used := used + k;
      pending := 0;
    }

    /**
     * nrl_io_read: a registered sequence if one comes next, else a code point. The ghost
     * results are the bytes that were handed back after a refill had overwritten them.
     */
    method Read(dfa: Automaton) returns (token: Token, more: bool, ghost dfaLost: seq<byte>, ghost utfLost: seq<byte>)
      requires Valid() && pending == 0 && dfa.Valid() && Short(dfa.Dict())
      modifies this, buf, history
      ensures Valid() && pending == 0 && (more <==> used < count)
      ensures history.moments == old(history.moments) + [Moment(old(used < count), out.file)]
      ensures Progress(token, view.pos, view.stream)
           == ReadSpec(dfa.Dict(), old(view.stream), old(view.pos), dfaLost, utfLost)
      ensures |dfaLost| == MatchLoss(source, dfa.Dict(), old(view.stream), old(view.pos), old(Supplied()))
      ensures |utfLost| == DecodeLoss(source, dfa.Dict(), old(view.stream), old(view.pos), dfaLost, old(Supplied()))
      ensures Supplied() == SupplyAfter(dfa.Dict(), old(view.stream), old(view.pos), dfaLost, old(Supplied()))
      ensures old(Pristine(view)) && 2 * LookaheadLength(dfa.Dict(), old(view.stream), old(view.pos)) <= IO_BUF_SIZE ==>
                dfaLost == seq<byte>(|dfaLost|, i => 0)
    {
      hide ReadSpec, CodeSpec, Matched, LookaheadLength, MatchLoss, DecodeLoss, SupplyAfter, TextLoss, TextTaken,
           Drawn, Stale, TopUp, Consumed, Pristine, Patch, Holds, Drop;
      ghost var stream, pos, supply := view.stream, view.pos, Supplied();
      history.moments := history.moments + [Moment(used < count, out.file)];
      var accepted := Parse(dfa);
      if accepted.Some? {
        MatchedRead(source, dfa.Dict(), stream, pos, supply);
        dfaLost := Consume(pending);
        utfLost := [];
        token := KeyToken(accepted.value);
      } else {
        token, dfaLost, utfLost := ReadCode();
        UnmatchedRead(source, dfa.Dict(), stream, pos, dfaLost, utfLost, supply);
      }
      more := used < count;
    }

    /** The second half of nrl_io_read: hand back what the DFA has drawn and take one code point. */
    method ReadCode() returns (token: Token, ghost dfaLost: seq<byte>, ghost utfLost: seq<byte>)
      requires Valid()
      modifies this, buf
      ensures Valid() && pending == 0
      ensures Progress(token, view.pos, view.stream) == CodeSpec(old(view.stream), old(view.pos), dfaLost, utfLost)
      ensures |dfaLost| == old(view.stale) && (old(Pristine(view)) ==> dfaLost == seq<byte>(|dfaLost|, i => 0))
      ensures
        var t, read := TopUp(old(Supplied())), Patch(old(view.stream), old(view.pos), dfaLost);
        Supplied() == TextTaken(read, old(view.pos), t) && |utfLost| == TextLoss(source, read, old(view.pos), t)
    {
      hide DecodeAt, Patch, Pristine, TextLoss, TextTaken;
      // This only happens when nothing is registered
      if count == used {
        RefillEmpty();
      }
      dfaLost := Consume(0);
      ghost var read := view.stream;
      assert view.pos == old(view.pos);
      assert read == Patch(old(view.stream), old(view.pos), dfaLost);
      var uc;
      uc, utfLost := NextUChar();
      token := Classify(uc);
      CodeSpecIs(old(view.stream), old(view.pos), dfaLost, utfLost, read, Progress(token, view.pos, view.stream));
    }
  }
}
