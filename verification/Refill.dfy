/**
 * Refilling the read buffer of src/io.c as arithmetic: how many bytes it holds after each
 * read, and which of the pending ones a refill overwrites when memmove takes them from the
 * wrong place.
 */
module Refill {
  import opened Bytes
  import opened Utf8
  import opened Dictionary
  import opened Tokens

  /**
   * Where memmove takes the pending bytes from when a refill interrupts a sequence:
   * FromUsed is where they are, as the comment there intends; FromCount is what is written.
   */
  datatype RefillSource = FromUsed | FromCount

  /** What read_wrapper has to offer, and the number of bytes in the buffer that are not used up. */
  datatype Supply = Supply(preload: Option<seq<byte>>, rest: seq<byte>, schedule: seq<nat>, held: nat)

  /** How many bytes one read(2) with room for `cap` gives: none only at the end of the input. */
  function Granted(rest: seq<byte>, schedule: seq<nat>, cap: nat): (n: nat)
    ensures n <= cap && n <= |rest| && (cap > 0 ==> (n == 0 <==> rest == []))
  {
    var n := if schedule == [] then cap else if schedule[0] == 0 then 1 else schedule[0];
    var m := if n > cap then cap else n;
    if m > |rest| then |rest| else m
  }

  /** read_wrapper. */
  function Fetch(s: Supply, cap: nat): Supply {
    match s.preload
    case Some(data) =>
      if |data| > cap then s.(preload := Some(data[cap..]), held := s.held + cap)
      else s.(preload := None, held := s.held + |data|)
    case None =>
      var n := Granted(s.rest, s.schedule, cap);
      s.(rest := s.rest[n..], schedule := if s.schedule == [] then [] else s.schedule[1..],
         held := s.held + if n == 0 then 1 else n)
  }

  /** A read into an empty buffer. */
  function TopUp(s: Supply): Supply {
    if s.held == 0 then Fetch(s, IO_BUF_SIZE) else s
  }

  /** The next byte is not in the buffer, and `pending` bytes that are must be kept. */
  predicate Straddles(s: Supply, pending: nat) {
    TopUp(s).held == pending
  }

  /** next_char. */
  function Draw(s: Supply, pending: nat): Supply {
    var t := TopUp(s);
    if Straddles(s, pending) then Fetch(t, if pending < IO_BUF_SIZE then IO_BUF_SIZE - pending else 0) else t
  }

  /** After `n` bytes have been drawn. */
  function Drawn(s: Supply, n: nat): Supply {
    if n == 0 then s else Draw(Drawn(s, n - 1), n - 1)
  }

  /** How many of `n` bytes drawn the last refill has overwritten: all that were pending then. */
  function Overwritten(s: Supply, n: nat): (k: nat)
    ensures k == 0 || k < n
  {
    if n == 0 then 0
    else if Straddles(Drawn(s, n - 1), n - 1) then n - 1
    else Overwritten(s, n - 1)
  }

  /** The same for either source. */
  function Stale(source: RefillSource, s: Supply, n: nat): nat {
    if source == FromUsed then 0 else Overwritten(s, n)
  }

  /** Bytes overwritten once one more has been drawn. */
  function AfterDraw(source: RefillSource, s: Supply, pending: nat, stale: nat): nat {
    if Straddles(s, pending) then if source == FromUsed then 0 else pending else stale
  }

  lemma DrawOneMore(source: RefillSource, s: Supply, n: nat)
    ensures Drawn(s, 0) == s && Stale(source, s, 0) == 0
    ensures Drawn(s, n + 1) == Draw(Drawn(s, n), n)
    ensures Stale(source, s, n + 1) == AfterDraw(source, Drawn(s, n), n, Stale(source, s, n))
  {
  }

  lemma FetchAddsUp(s: Supply, held: nat, cap: nat)
    requires s.held == 0
    ensures Fetch(s.(held := held), cap) == Fetch(s, cap).(held := held + Fetch(s, cap).held)
  {
  }

  function Less(m: nat, n: nat): nat {
    if m > n then m - n else 0
  }

  /** An empty preload can only be there before the first read. */
  predicate Sensible(s: Supply) {
    s.preload == Some([]) ==> s.held == 0
  }

  lemma DrawHolds(s: Supply, pending: nat)
    requires Sensible(s) && pending <= s.held && pending < IO_BUF_SIZE
    ensures Sensible(Draw(s, pending)) && pending < Draw(s, pending).held
  {
  }

  lemma {:induction false} DrawnHolds(s: Supply, n: nat)
    requires Sensible(s) && n <= IO_BUF_SIZE
    ensures Sensible(Drawn(s, n)) && n <= Drawn(s, n).held
  {
    if n > 0 {
      DrawnHolds(s, n - 1);
      DrawHolds(Drawn(s, n - 1), n - 1);
    }
  }

  /** Nothing is overwritten exactly when all bytes drawn were in the buffer once the first of them was. */
  lemma {:induction false} OverwrittenIff(s: Supply, n: nat)
    requires Sensible(s) && n <= IO_BUF_SIZE
    ensures Overwritten(s, n) == 0 <==> n <= 1 || n <= Drawn(s, 1).held
    ensures 1 <= n <= Drawn(s, 1).held ==> Drawn(s, n) == Drawn(s, 1)
  {
    if n > 1 {
      OverwrittenIff(s, n - 1);
      DrawnHolds(s, 1);
      DrawnHolds(s, n - 1);
    }
  }

  // One read

  /** Bytes that a failed match hands back after they have been overwritten. */
  ghost function MatchLoss(source: RefillSource, d: Dict, s: seq<byte>, pos: nat, supply: Supply): nat {
    if Matched(d, s, pos).Some? then 0 else Stale(source, supply, LookaheadLength(d, s, pos))
  }

  /** The buffer when a failed match has handed its bytes back. */
  ghost function HandedBack(d: Dict, s: seq<byte>, pos: nat, supply: Supply): Supply {
    TopUp(Drawn(supply, LookaheadLength(d, s, pos)))
  }

  function Consumed(s: Supply, k: nat): Supply {
    s.(held := Less(s.held, k))
  }

  /** Bytes that a decoder started on `supply` hands back after they have been overwritten. */
  function TextLoss(source: RefillSource, read: seq<byte>, pos: nat, supply: Supply): nat {
    Less(Stale(source, supply, Inspect(Bytes.At(read, pos))), DecodeAt(read, pos).length)
  }

  function TextTaken(read: seq<byte>, pos: nat, supply: Supply): Supply {
    Consumed(Drawn(supply, Inspect(Bytes.At(read, pos))), DecodeAt(read, pos).length)
  }

  /** The same in a read whose failed match has handed back `g`. */
  ghost function DecodeLoss(source: RefillSource, d: Dict, s: seq<byte>, pos: nat, g: seq<byte>, supply: Supply): nat {
    if Matched(d, s, pos).Some? then 0 else TextLoss(source, Patch(s, pos, g), pos, HandedBack(d, s, pos, supply))
  }

  ghost function SupplyAfter(d: Dict, s: seq<byte>, pos: nat, g: seq<byte>, supply: Supply): Supply {
    if Matched(d, s, pos).Some? then Consumed(Drawn(supply, LookaheadLength(d, s, pos)), MatchLength(d, s, pos))
    else TextTaken(Patch(s, pos, g), pos, HandedBack(d, s, pos, supply))
  }

  /** A match: its bytes are drawn and consumed, and nothing is handed back. */
  lemma MatchedRead(source: RefillSource, d: Dict, s: seq<byte>, pos: nat, supply: Supply)
    requires PrefixFree(d) && Matched(d, s, pos).Some?
    ensures
      var n := LookaheadLength(d, s, pos);
      && ReadSpec(d, s, pos, [], []) == Progress(KeyToken(Matched(d, s, pos).value), pos + n, s)
      && MatchLoss(source, d, s, pos, supply) == 0 && DecodeLoss(source, d, s, pos, [], supply) == 0
      && SupplyAfter(d, s, pos, [], supply) == Consumed(Drawn(supply, n), n)
  {
    AcceptedLength(d, s, pos);
  }

  /** No match: all bytes drawn are handed back, and one code point is read. */
  lemma UnmatchedRead(source: RefillSource, d: Dict, s: seq<byte>, pos: nat, g: seq<byte>, h: seq<byte>, supply: Supply)
    requires Matched(d, s, pos).None?
    ensures
      var n, read := LookaheadLength(d, s, pos), Patch(s, pos, g);
      var t := TopUp(Drawn(supply, n));
      && ReadSpec(d, s, pos, g, h) == CodeSpec(s, pos, g, h)
      && MatchLoss(source, d, s, pos, supply) == Stale(source, supply, n)
      && DecodeLoss(source, d, s, pos, g, supply) == TextLoss(source, read, pos, t)
      && SupplyAfter(d, s, pos, g, supply) == TextTaken(read, pos, t)
  {
  }

  /** No byte that this read hands back has been overwritten. */
  ghost predicate Survives(d: Dict, s: seq<byte>, pos: nat, supply: Supply) {
    MatchLoss(FromCount, d, s, pos, supply) == 0 && DecodeLoss(FromCount, d, s, pos, [], supply) == 0
  }

  /** What one read should come to. */
  ghost function Intact(d: Dict, s: seq<byte>, pos: nat): Progress {
    Progress(TokenAt(d, s, pos).token, pos + TokenAt(d, s, pos).length, s)
  }

  ghost predicate RightWith(d: Dict, s: seq<byte>, pos: nat, g: seq<byte>, h: seq<byte>) {
    ReadSpec(d, s, pos, g, h) == Intact(d, s, pos)
  }

  /** What memory may have put in place of the bytes handed back. */
  ghost predicate MayHandBack(d: Dict, s: seq<byte>, pos: nat, supply: Supply, g: seq<byte>, h: seq<byte>) {
    |g| == MatchLoss(FromCount, d, s, pos, supply) && |h| == DecodeLoss(FromCount, d, s, pos, g, supply)
  }

  lemma MatchLossHurts(d: Dict, s: seq<byte>, pos: nat, g: seq<byte>, h: seq<byte>)
    requires Matched(d, s, pos).None? && g != [] && forall i :: 0 <= i < |g| ==> g[i] == g[0]
    requires g[0] == if DecodeAt(s, pos).token == Text([97]) then 98 else 97
    ensures !RightWith(d, s, pos, g, h)
  {
    PatchAt(s, pos, g, pos);
    DecodeAscii(Patch(s, pos, g), pos);
  }

  lemma DecodeLossHurts(d: Dict, s: seq<byte>, pos: nat, h: seq<byte>)
    requires Matched(d, s, pos).None? && h != []
    requires h[0] != Bytes.At(s, pos + DecodeAt(s, pos).length)
    ensures !RightWith(d, s, pos, [], h)
  {
    var next := pos + DecodeAt(s, pos).length;
    PatchAt(s, next, h, next);
  }

  /**
   * With the move as it is written, one read returns the right token and leaves the right
   * stream, whatever memory holds, exactly when it hands back nothing that was overwritten.
   */
  lemma ReadIsRightIff(d: Dict, s: seq<byte>, pos: nat, supply: Supply)
    ensures (forall g: seq<byte>, h: seq<byte> | MayHandBack(d, s, pos, supply, g, h) :: RightWith(d, s, pos, g, h))
       <==> Survives(d, s, pos, supply)
  {
    hide ReadSpec, DecodeAt, Patch, LookaheadLength, MatchLength;
    ReadSpecIntact(d, s, pos);
    var k, n := MatchLoss(FromCount, d, s, pos, supply), DecodeLoss(FromCount, d, s, pos, [], supply);
    if k > 0 {
      var c: byte := if DecodeAt(s, pos).token == Text([97]) then 98 else 97;
      var g: seq<byte> := seq(k, i => c);
      var h: seq<byte> := seq(DecodeLoss(FromCount, d, s, pos, g, supply), i => 0);
      MatchLossHurts(d, s, pos, g, h);
      assert MayHandBack(d, s, pos, supply, g, h);
    } else if n > 0 {
      var c: byte := if Bytes.At(s, pos + DecodeAt(s, pos).length) == 0 then 1 else 0;
      var h: seq<byte> := seq(n, i => c);
      DecodeLossHurts(d, s, pos, h);
      assert MayHandBack(d, s, pos, supply, [], h);
    }
  }

  /**
   * In terms of the buffer: a sequence matches; or all bytes looked at were in the buffer once
   * the first of them was, and the code point is well-formed or lost no more than its first byte.
   */
  lemma SurvivesIff(d: Dict, s: seq<byte>, pos: nat, supply: Supply)
    requires Sensible(supply) && LookaheadLength(d, s, pos) <= IO_BUF_SIZE
    ensures
      var n, m := LookaheadLength(d, s, pos), Inspect(Bytes.At(s, pos));
      Survives(d, s, pos, supply)
      <==> || Matched(d, s, pos).Some?
           || ((n <= 1 || n <= Drawn(supply, 1).held)
               && (DecodeAt(s, pos).length == m || Overwritten(HandedBack(d, s, pos, supply), m) <= 1))
  {
    OverwrittenIff(supply, LookaheadLength(d, s, pos));
  }

  // Whole runs

  /** Every read up to the first stop survives its refills. */
  ghost predicate Clean(d: Dict, s: seq<byte>, pos: nat, supply: Supply)
    requires Terminating(d)
    decreases if pos <= |s| then |s| + 1 - pos else 0
  {
    && Survives(d, s, pos, supply)
    && (TokenAt(d, s, pos).token.Stop? ||
        (StopsAtTheEndUnless(d, s, pos);
         Clean(d, s, pos + TokenAt(d, s, pos).length, SupplyAfter(d, s, pos, [], supply))))
  }

  /** What starts at `pos` completes: a sequence, or failing at its first byte a well-formed code point. */
  ghost predicate Completes(d: Dict, s: seq<byte>, pos: nat) {
    Matched(d, s, pos).Some? ||
    (LookaheadLength(d, s, pos) <= 1 && DecodeAt(s, pos).length == Inspect(Bytes.At(s, pos)))
  }

  ghost predicate AllComplete(d: Dict, s: seq<byte>, pos: nat)
    requires Terminating(d)
    decreases if pos <= |s| then |s| + 1 - pos else 0
  {
    && Completes(d, s, pos)
    && (TokenAt(d, s, pos).token.Stop? ||
        (StopsAtTheEndUnless(d, s, pos); AllComplete(d, s, pos + TokenAt(d, s, pos).length)))
  }

  /** A stream in which everything completes is read rightly however it is split. */
  lemma {:induction false} CompleteIsClean(d: Dict, s: seq<byte>, pos: nat, supply: Supply)
    requires Terminating(d) && AllComplete(d, s, pos)
    ensures Clean(d, s, pos, supply)
    decreases if pos <= |s| then |s| + 1 - pos else 0
  {
    hide MatchLength, LookaheadLength, SupplyAfter, HandedBack, Terminating;
    if !TokenAt(d, s, pos).token.Stop? {
      StopsAtTheEndUnless(d, s, pos);
      CompleteIsClean(d, s, pos + TokenAt(d, s, pos).length, SupplyAfter(d, s, pos, [], supply));
    }
  }

  /** What memory puts in place of the bytes that one read hands back overwritten. */
  datatype Garbage = Garbage(matched: seq<byte>, decoded: seq<byte>)

  /** A run of as many reads, with what memory may hold at each of them. */
  ghost predicate Possible(d: Dict, s: seq<byte>, pos: nat, supply: Supply, gs: seq<Garbage>)
    decreases |gs|
  {
    gs != [] ==>
      var g, h := gs[0].matched, gs[0].decoded;
      var after := ReadSpec(d, s, pos, g, h);
      && MayHandBack(d, s, pos, supply, g, h)
      && (after.token.Stop? || Possible(d, after.stream, after.pos, SupplyAfter(d, s, pos, g, supply), gs[1..]))
  }

  /** Every read of the run, up to one that stops, returns the right token and leaves the right stream. */
  ghost predicate RunIsRight(d: Dict, s: seq<byte>, pos: nat, supply: Supply, gs: seq<Garbage>)
    decreases |gs|
  {
    gs != [] ==>
      && RightWith(d, s, pos, gs[0].matched, gs[0].decoded)
      && (TokenAt(d, s, pos).token.Stop? ||
          RunIsRight(d, s, pos + TokenAt(d, s, pos).length,
                     SupplyAfter(d, s, pos, gs[0].matched, supply), gs[1..]))
  }

  lemma {:induction false} CleanRunsAreRight(d: Dict, s: seq<byte>, pos: nat, supply: Supply, gs: seq<Garbage>)
    requires Terminating(d) && Clean(d, s, pos, supply) && Possible(d, s, pos, supply, gs)
    ensures RunIsRight(d, s, pos, supply, gs)
    decreases |gs|
  {
    hide DecodeAt, MatchLength, LookaheadLength, SupplyAfter, MatchLoss, DecodeLoss, TokenAt, Matched, Terminating, ReadSpec;
    if gs != [] {
      ReadIsRightIff(d, s, pos, supply);
      assert RightWith(d, s, pos, gs[0].matched, gs[0].decoded);
      assert gs[0].matched == [];
      if !TokenAt(d, s, pos).token.Stop? {
        CleanRunsAreRight(d, s, pos + TokenAt(d, s, pos).length, SupplyAfter(d, s, pos, [], supply), gs[1..]);
      }
    }
  }

  /** The first read that does not survive can go wrong, after others that went right. */
  lemma {:induction false} UncleanCanGoWrong(d: Dict, s: seq<byte>, pos: nat, supply: Supply)
    returns (gs: seq<Garbage>)
    requires Terminating(d) && !Clean(d, s, pos, supply)
    ensures Possible(d, s, pos, supply, gs) && !RunIsRight(d, s, pos, supply, gs)
    decreases if pos <= |s| then |s| + 1 - pos else 0
  {
    hide DecodeAt, MatchLength, LookaheadLength, SupplyAfter, MatchLoss, DecodeLoss, TokenAt, Matched, Terminating, ReadSpec;
    ReadIsRightIff(d, s, pos, supply);
    if !Survives(d, s, pos, supply) {
      var g, h :| MayHandBack(d, s, pos, supply, g, h) && !RightWith(d, s, pos, g, h);
      gs := [Garbage(g, h)];
      assert gs[1..] == [];
    } else {
      StopsAtTheEndUnless(d, s, pos);
      var rest := UncleanCanGoWrong(d, s, pos + TokenAt(d, s, pos).length, SupplyAfter(d, s, pos, [], supply));
      ReadSpecIntact(d, s, pos);
      gs := [Garbage([], [])] + rest;
      assert gs[1..] == rest;
    }
  }

  /** Whatever memory holds, all reads of a run go right exactly when each of them survives its refills. */
  lemma RunIsRightIff(d: Dict, s: seq<byte>, pos: nat, supply: Supply)
    requires Terminating(d)
    ensures (forall gs | Possible(d, s, pos, supply, gs) :: RunIsRight(d, s, pos, supply, gs))
       <==> Clean(d, s, pos, supply)
  {
    if Clean(d, s, pos, supply) {
      forall gs | Possible(d, s, pos, supply, gs) ensures RunIsRight(d, s, pos, supply, gs) {
        CleanRunsAreRight(d, s, pos, supply, gs);
      }
    } else {
      var gs := UncleanCanGoWrong(d, s, pos, supply);
    }
  }
}
