/**
 * The input language of the line editor, stated over whole streams: preload, then
 * input, then EOT for ever. Nothing here knows of buffers or chunks.
 */
module Tokens {
  import opened Bytes
  import opened Utf8
  import opened Dictionary

  datatype Token =
    | Key(key: nat)
    | Custom(custom: nat)
    | Text(text: seq<uchar>)
    | Stop(eof: bool)

  /** A token and the number of stream bytes it stands for. */
  datatype Lexeme = Lexeme(token: Token, length: nat)

  const ERROR_CHAR: uchar := 0xFFFD
  const CARET: uchar := 94

  /** The printable form of a control code, None for a printable character. */
  function Control(c: uchar): Option<seq<uchar>> {
    if c == 0x7F then Some([CARET, 63])
    else if c >= 0x20 then None
    else Some([CARET, c + 0x40])
  }

  predicate Printable(c: uchar) {
    c >= 0x20 && c != 0x7F
  }

  predicate AllPrintable(s: seq<uchar>) {
    forall i :: 0 <= i < |s| ==> Printable(s[i])
  }

  /** What one decoded code point means as input. */
  function Classify(c: uchar): Token {
    if c == LF || c == EOT then Stop(c == EOT)
    else
      match Control(c)
      case Some(caret) => Text(caret)
      case None => Text([c])
  }

  /** One code point, or U+FFFD for a byte that starts none. */
  function DecodeAt(s: seq<byte>, pos: nat): (l: Lexeme)
    ensures 1 <= l.length <= 4
  {
    var r := Parse4(At(s, pos), At(s, pos + 1), At(s, pos + 2), At(s, pos + 3));
    if r.consumed == 0 then Lexeme(Classify(ERROR_CHAR), 1)
    else Lexeme(Classify(r.value), r.consumed)
  }

  /** The first `n` bytes of the local buffer are those of the stream. */
  ghost predicate Loaded(b: seq<byte>, n: nat, s: seq<byte>, pos: nat) {
    n <= |b| && forall i :: 0 <= i < n ==> b[i] == At(s, pos + i)
  }

  lemma LoadedFirst(b: seq<byte>, s: seq<byte>, pos: nat)
    requires b != [] && b[0] == At(s, pos)
    ensures Loaded(b, 1, s, pos)
  {
  }

  lemma LoadedMore(b: seq<byte>, n: nat, s: seq<byte>, pos: nat)
    requires n < |b| && Loaded(b, n, s, pos)
    ensures Loaded(b[n := At(s, pos + n)], n + 1, s, pos)
  {
  }

  /** Decoding the buffer into which the bytes of one code point have been loaded. */
  lemma DecodeLoaded(s: seq<byte>, pos: nat, b: seq<byte>)
    requires |b| == 4 && Loaded(b, Inspect(b[0]), s, pos)
    ensures
      var r := Parse(b);
      DecodeAt(s, pos) == if r.consumed == 0 then Lexeme(Classify(ERROR_CHAR), 1)
                          else Lexeme(Classify(r.value), r.consumed)
  {
  }

  /** Text never holds a control code. */
  lemma TextIsPrintable(s: seq<byte>, pos: nat)
    ensures DecodeAt(s, pos).token.Text? || DecodeAt(s, pos).token.Stop?
    ensures DecodeAt(s, pos).token.Text? ==> AllPrintable(DecodeAt(s, pos).token.text)
  {
  }

  /** A registered sequence of `n` bytes comes next. */
  ghost predicate Starts(d: Dict, s: seq<byte>, pos: nat, n: nat) {
    n != 0 && Window(s, pos, n) in d
  }

  /** Length of the registered sequence that starts the stream at `pos`, or 0. */
  ghost function MatchLength(d: Dict, s: seq<byte>, pos: nat): nat {
    if exists n: nat :: Starts(d, s, pos, n) then var n: nat :| Starts(d, s, pos, n); n else 0
  }

  lemma MatchIsUnique(d: Dict, s: seq<byte>, pos: nat, n: nat)
    requires PrefixFree(d) && Window(s, pos, n) in d
    ensures MatchLength(d, s, pos) == n != 0
  {
    assert Window(s, pos, 0) == [];
    assert Starts(d, s, pos, n);
    AtMostOneMatch(d, s, pos, n, MatchLength(d, s, pos));
  }

  /** A registered sequence is still possible after these bytes, and none is complete. */
  ghost predicate Open(d: Dict, w: seq<byte>) {
    w == [] || (w !in d && LeadsTo(d, w))
  }

  /** How far the DFA looks: up to the byte that completes a sequence or leaves every one of them. */
  ghost predicate Lookahead(d: Dict, s: seq<byte>, pos: nat, n: nat) {
    && (Window(s, pos, n) in d || !LeadsTo(d, Window(s, pos, n)))
    && n > 0 && Open(d, Window(s, pos, n - 1))
  }

  lemma LookaheadIsUnique(d: Dict, s: seq<byte>, pos: nat, m: nat, n: nat)
    requires PrefixFree(d) && Lookahead(d, s, pos, m) && Lookahead(d, s, pos, n)
    ensures m == n
  {
    if m < n {
      NoLookaheadBefore(d, s, pos, m, n);
    } else if n < m {
      NoLookaheadBefore(d, s, pos, n, m);
    }
  }

  lemma NoLookaheadBefore(d: Dict, s: seq<byte>, pos: nat, m: nat, n: nat)
    requires PrefixFree(d) && m < n && Open(d, Window(s, pos, n - 1))
    ensures !Lookahead(d, s, pos, m)
  {
    var w := Window(s, pos, n - 1);
    WindowPrefix(s, pos, m, n - 1);
    if m > 0 {
      var k :| k in d && w <= k;
      assert Window(s, pos, m) <= k && k != w;
      assert Comparable(Window(s, pos, m), k);
    }
  }

  /** The number of bytes the DFA draws before it answers. */
  ghost function LookaheadLength(d: Dict, s: seq<byte>, pos: nat): nat {
    if d != map[] && exists n: nat :: Lookahead(d, s, pos, n) then var n: nat :| Lookahead(d, s, pos, n); n else 0
  }

  /** The acceptor of the registered sequence that comes next, if one does. */
  ghost function Matched(d: Dict, s: seq<byte>, pos: nat): Option<Entry> {
    var n := MatchLength(d, s, pos);
    if Starts(d, s, pos, n) then Some(d[Window(s, pos, n)]) else None
  }

  /** An accepted sequence is drawn exactly, without a byte more. */
  lemma AcceptedLength(d: Dict, s: seq<byte>, pos: nat)
    requires PrefixFree(d) && MatchLength(d, s, pos) > 0
    ensures LookaheadLength(d, s, pos) == MatchLength(d, s, pos)
  {
    var n := MatchLength(d, s, pos);
    WindowPrefix(s, pos, n - 1, n);
    var w := Window(s, pos, n - 1);
    assert w <= Window(s, pos, n) && Comparable(w, Window(s, pos, n));
    assert Window(s, pos, 0) == [];
    assert Lookahead(d, s, pos, n);
    LookaheadIsUnique(d, s, pos, n, LookaheadLength(d, s, pos));
  }

  /** Once the input has left every registered sequence nothing can match. */
  lemma NoMatchBeyond(d: Dict, s: seq<byte>, pos: nat, n: nat)
    requires PrefixFree(d) && Open(d, Window(s, pos, n)) && !LeadsTo(d, Window(s, pos, n + 1))
    requires d != map[]
    ensures Matched(d, s, pos) == None && LookaheadLength(d, s, pos) == n + 1
  {
    assert Lookahead(d, s, pos, n + 1);
    LookaheadIsUnique(d, s, pos, n + 1, LookaheadLength(d, s, pos));
    if MatchLength(d, s, pos) > 0 {
      AcceptedLength(d, s, pos);
    }
  }

  /** Once a registered sequence is complete it is the one match. */
  lemma MatchFound(d: Dict, s: seq<byte>, pos: nat, n: nat)
    requires PrefixFree(d) && Window(s, pos, n + 1) in d
    ensures Matched(d, s, pos) == Some(d[Window(s, pos, n + 1)]) && LookaheadLength(d, s, pos) == n + 1
  {
    MatchIsUnique(d, s, pos, n + 1);
    AcceptedLength(d, s, pos);
  }

  /** The unique registered sequence that starts the rest of the stream, else one code point. */
  ghost function TokenAt(d: Dict, s: seq<byte>, pos: nat): (l: Lexeme)
    ensures l.length > 0
  {
    match Matched(d, s, pos)
    case Some(e) => Lexeme(KeyToken(e), MatchLength(d, s, pos))
    case None => DecodeAt(s, pos)
  }

  function KeyToken(e: Entry): Token {
    if e.custom then Custom(e.id) else Key(e.id)
  }

  /** Where one read leaves the lexer. */
  datatype Progress = Progress(token: Token, pos: nat, stream: seq<byte>)

  /** One code point read while `g` has overwritten what came before it and `h` what it hands back. */
  function CodeSpec(s: seq<byte>, pos: nat, g: seq<byte>, h: seq<byte>): Progress {
    var read := Patch(s, pos, g);
    var l := DecodeAt(read, pos);
    Progress(l.token, pos + l.length, Patch(read, pos + l.length, h))
  }

  lemma CodeSpecIs(s: seq<byte>, pos: nat, g: seq<byte>, h: seq<byte>, read: seq<byte>, after: Progress)
    requires read == Patch(s, pos, g) && after.token == DecodeAt(read, pos).token
    requires after.pos == pos + DecodeAt(read, pos).length && after.stream == Patch(read, after.pos, h)
    ensures after == CodeSpec(s, pos, g, h)
  {
  }

  /**
   * One read during which `g` and `h` have overwritten the bytes that a failed match and
   * a failed decode handed back.
   */
  ghost function ReadSpec(d: Dict, s: seq<byte>, pos: nat, g: seq<byte>, h: seq<byte>): Progress {
    match Matched(d, s, pos)
    case Some(e) => Progress(KeyToken(e), pos + MatchLength(d, s, pos), s)
    case None => CodeSpec(s, pos, g, h)
  }

  lemma ReadSpecIntact(d: Dict, s: seq<byte>, pos: nat)
    ensures ReadSpec(d, s, pos, [], [])
         == Progress(TokenAt(d, s, pos).token, pos + TokenAt(d, s, pos).length, s)
  {
  }

  /** Sequences an exhausted stream cannot keep matching. */
  ghost predicate Terminating(d: Dict) {
    PrefixFree(d) && forall k :: k in d ==> k[0] != EOT
  }

  lemma StopsAtTheEnd(d: Dict, s: seq<byte>, pos: nat)
    requires Terminating(d) && pos >= |s|
    ensures TokenAt(d, s, pos).token == Stop(true)
  {
    forall m: nat ensures !Starts(d, s, pos, m) {
      assert m > 0 ==> Window(s, pos, m)[0] == EOT;
    }
  }

  /** All tokens up to and including the first stop; there are at most as many as bytes left, plus one. */
  ghost function Lex(d: Dict, s: seq<byte>, pos: nat): (ts: seq<Token>)
    requires Terminating(d)
    ensures ts != [] && ts[|ts| - 1].Stop?
    ensures forall i :: 0 <= i < |ts| - 1 ==> !ts[i].Stop?
    ensures |ts| <= 1 + if pos <= |s| then |s| - pos else 0
    decreases if pos <= |s| then |s| + 1 - pos else 0
  {
    var l := TokenAt(d, s, pos);
    if l.token.Stop? then [l.token]
    else
      StopsAtTheEndUnless(d, s, pos);
      [l.token] + Lex(d, s, pos + l.length)
  }

  lemma StopsAtTheEndUnless(d: Dict, s: seq<byte>, pos: nat)
    requires Terminating(d) && !TokenAt(d, s, pos).token.Stop?
    ensures pos < |s|
  {
    if pos >= |s| {
      StopsAtTheEnd(d, s, pos);
    }
  }

  /** The stream in which the bytes at `pos` have been replaced by `g`. */
  function Patch(s: seq<byte>, pos: nat, g: seq<byte>): seq<byte> {
    if g == [] then s else Window(s, 0, pos) + g + Drop(s, pos + |g|)
  }

  lemma PatchAt(s: seq<byte>, pos: nat, g: seq<byte>, i: nat)
    ensures At(Patch(s, pos, g), i) == if pos <= i < pos + |g| then g[i - pos] else At(s, i)
  {
  }

  function Drop(s: seq<byte>, n: nat): seq<byte> {
    if n <= |s| then s[n..] else []
  }

  lemma DropDrop(s: seq<byte>, m: nat, n: nat)
    ensures Drop(Drop(s, m), n) == Drop(s, m + n)
    ensures forall i: nat :: At(Drop(s, m), i) == At(s, m + i)
  {
  }

  lemma DecodeAscii(s: seq<byte>, pos: nat)
    requires 0x20 <= At(s, pos) < 0x7F
    ensures DecodeAt(s, pos) == Lexeme(Text([At(s, pos)]), 1)
  {
  }
}
