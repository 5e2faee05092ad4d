/** The xterm tables of src/fastload.c, and why key sequences of their shape make a DFA. */
module Fastload {
  import opened Bytes
  import opened Utf8
  import opened Dictionary
  import opened Dfa
  import opened Tokens
  import opened Reader
  import opened Refill
  import opened Output

  const LETTER_O: byte := 79

  const XTERM_INPUTS: seq<Option<seq<byte>>> := [
    Some([ESC, 79, 68]), Some([ESC, 79, 67]), Some([DEL]), Some([ESC, 79, 72]), Some([ESC, 79, 70]),
    Some([ESC, 91, 51, 126])
  ]

  const XTERM_CUSTOMS: seq<Option<seq<byte>>> := [
    None, None, None, None, Some([ESC, 79, 66]), None,
    None, None, None, Some([ESC, 79, 80]), Some([ESC, 79, 81]), Some([ESC, 79, 82]),
    Some([ESC, 79, 83]), Some([ESC, 91, 49, 53, 126]), Some([ESC, 91, 49, 55, 126]),
    Some([ESC, 91, 49, 56, 126]), Some([ESC, 91, 49, 57, 126]), Some([ESC, 91, 50, 48, 126]),
    Some([ESC, 91, 50, 49, 126]), Some([ESC, 91, 50, 126]), None, None, Some([ESC, 91, 54, 126]), Some([ESC, 91, 53, 126]),
    Some([ESC, 91, 49, 59, 50, 66]), Some([ESC, 91, 49, 59, 50, 65]), None, Some([ESC, 79, 65]), Some([9])
  ]

  /** A control code other than EOT. */
  predicate IsSingle(k: seq<byte>) {
    |k| == 1 && k[0] != ESC && k[0] != EOT
  }

  /** ESC O and one more byte. */
  predicate IsShift(k: seq<byte>) {
    |k| == 3 && k[0] == ESC && k[1] == LETTER_O
  }

  predicate IsParameter(b: byte) {
    b < 0x40
  }

  /** A control sequence: ESC [, parameters and intermediates, and one final byte. */
  predicate IsControl(k: seq<byte>) {
    && 3 <= |k| <= IO_BUF_SIZE && k[0] == ESC && k[1] == LEFT_BRACKET
    && (forall i :: 2 <= i < |k| - 1 ==> IsParameter(k[i])) && !IsParameter(k[|k| - 1])
  }

  /** The shapes key sequences have. */
  predicate IsKey(k: seq<byte>) {
    IsSingle(k) || IsShift(k) || IsControl(k)
  }

  /** No key sequence of these shapes is a proper prefix of another. */
  lemma KeysDoNotExtend(a: seq<byte>, b: seq<byte>)
    requires IsKey(a) && IsKey(b) && a <= b
    ensures a == b
  {
    assert a[0] == b[0] && a[|a| - 1] == b[|a| - 1];
  }

  ghost predicate AllKeys(table: seq<Option<seq<byte>>>) {
    forall i :: 0 <= i < |table| && table[i].Some? ==> IsKey(table[i].value)
  }

  ghost predicate KeysOnly(rs: seq<Registration>) {
    forall i :: 0 <= i < |rs| ==> IsKey(rs[i].sequence)
  }

  lemma {:induction false} EntriesAreKeys(table: seq<Option<seq<byte>>>, custom: bool)
    requires AllKeys(table)
    ensures KeysOnly(Entries(table, custom))
  {
    if table != [] {
      EntriesAreKeys(table[..|table| - 1], custom);
    }
  }

  /** Tables of key sequences fit a DFA of key sequences. */
  lemma KeyTablesFit(d: Dict, rs: seq<Registration>)
    requires KeysOnly(rs) && forall k :: k in d ==> IsKey(k)
    ensures TableFits(d, rs)
    ensures forall k :: k in RegisterAll(d, rs) ==> IsKey(k)
  {
    forall a: seq<byte>, b: seq<byte> | IsKey(a) && IsKey(b) && Comparable(a, b) ensures a == b {
      if a <= b {
        KeysDoNotExtend(a, b);
      } else {
        KeysDoNotExtend(b, a);
      }
    }
    forall k | k in RegisterAll(d, rs) ensures IsKey(k) {
      RegisterAllMeaning(d, rs, k);
    }
  }

  /** A DFA of key sequences can be read with, and reading stops. */
  lemma KeysAreReadable(d: Dict)
    requires forall k :: k in d ==> IsKey(k)
    ensures Terminating(d) && Short(d)
  {
    KeyTablesFit(d, []);
    forall k, l | k in d && l in d && Comparable(k, l) ensures k == l {
      if k <= l {
        KeysDoNotExtend(k, l);
      } else {
        KeysDoNotExtend(l, k);
      }
    }
  }

  function XtermTable(): seq<Registration> {
    BuildTable(XTERM_INPUTS, true, XTERM_CUSTOMS)
  }

  lemma XtermKeys()
    ensures KeysOnly(XtermTable())
  {
    EntriesAreKeys(XTERM_INPUTS, false);
    EntriesAreKeys(XTERM_CUSTOMS, true);
  }

  /** nrl_load_terminfo and nrl_dfa_build on an xterm, with the extra backspace. */
  method XtermAutomaton() returns (dfa: Automaton)
    ensures fresh(dfa) && dfa.Valid() && dfa.Dict() == RegisterAll(map[], XtermTable())
    ensures Terminating(dfa.Dict()) && Short(dfa.Dict())
    ensures (forall k :: k in dfa.Dict() ==> IsKey(k)) && LeadsTo(dfa.Dict(), [ESC])
  {
    dfa := new Automaton();
    XtermKeys();
    KeyTablesFit(map[], XtermTable());
    dfa.Build(XTERM_INPUTS, true, XTERM_CUSTOMS);
    KeysAreReadable(dfa.Dict());
    XtermHasEscape();
  }

  lemma XtermHasEscape()
    ensures LeadsTo(RegisterAll(map[], XtermTable()), [ESC])
  {
    var left: seq<byte>, table := [ESC, 79, 68], XtermTable();
    EntriesPrefix(XTERM_INPUTS, false, 0);
    assert XTERM_INPUTS[..0] == [];
    assert table[0] == Registration(left, 0, false);
    assert Last(table, left) >= 0;
    RegisterAllMeaning(map[], table, left);
    assert [ESC] <= left;
  }

  const LETTER_B: byte := 98

  /** Among key sequences, ESC followed by `b` is looked at and left again. */
  lemma EscapeIsAlone(d: Dict)
    requires (forall k :: k in d ==> IsKey(k)) && LeadsTo(d, [ESC])
    ensures Matched(d, [ESC, LETTER_B], 0) == None && LookaheadLength(d, [ESC, LETTER_B], 0) == 2
    ensures TokenAt(d, [ESC, LETTER_B], 0) == Lexeme(Text([CARET, 91]), 1)
  {
    var s := [ESC, LETTER_B];
    assert Window(s, 0, 1) == [ESC] && Window(s, 0, 2) == s;
    KeysAreReadable(d);
    assert d != map[];
    assert [ESC] !in d;
    assert !LeadsTo(d, s) by {
      forall k | k in d ensures !(s <= k) {
        assert IsKey(k) && s[1] == LETTER_B;
      }
    }
    NoMatchBeyond(d, s, 0, 1);
  }

  /** Read one byte at a time, the first of them is overwritten; as a zero it reads ^@. */
  lemma EscapeIsOverwritten(d: Dict, h: seq<byte>)
    requires (forall k :: k in d ==> IsKey(k)) && LeadsTo(d, [ESC])
    ensures MatchLoss(FromCount, d, [ESC, LETTER_B], 0, Supply(None, [ESC, LETTER_B], [1], 0)) == 1
    ensures ReadSpec(d, [ESC, LETTER_B], 0, [0], h).token == Text([CARET, 64])
  {
    var s, supply := [ESC, LETTER_B], Supply(None, [ESC, LETTER_B], [1], 0);
    EscapeIsAlone(d);
    assert s[1..] == [LETTER_B];
    assert Drawn(supply, 1) == Draw(supply, 0) == Supply(None, [LETTER_B], [], 1);
    assert Overwritten(supply, 2) == 1;
    assert Bytes.At(Patch(s, 0, [0]), 0) == 0;
  }

  /**
   * With the move as it is written, ESC and `b` that arrive in two reads are not read as ESC
   * and `b`: the ESC that is handed back has become a zero from the unused buffer.
   */
  method ReadSplitEscape(dfa: Automaton, beyond: nat -> byte) returns (token: Token)
    requires dfa.Valid() && (forall k :: k in dfa.Dict() ==> IsKey(k)) && LeadsTo(dfa.Dict(), [ESC])
    ensures TokenAt(dfa.Dict(), [ESC, LETTER_B], 0).token == Text([CARET, 91])
    ensures token == Text([CARET, 64])
  {
    hide LookaheadLength, MatchLength, Matched, ReadSpec, MatchLoss, DecodeLoss, SupplyAfter, LeadsTo, TokenAt, Sound, Pristine, IsKey;
    KeysAreReadable(dfa.Dict());
    EscapeIsAlone(dfa.Dict());
    var out := new Sink(true);
    var history := new History();
    var input := new Input(FromCount, beyond, None, [ESC, LETTER_B], [1], out, history);
    assert input.view.stream == [ESC, LETTER_B];
    ghost var lost, more, h;
    token, more, lost, h := input.Read(dfa);
    EscapeIsOverwritten(dfa.Dict(), h);
    assert lost == [0];
  }
}
