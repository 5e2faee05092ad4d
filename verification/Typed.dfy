/**
 * What bytes mean, from the stream to the reply: characters, control codes, the end of a line
 * and the end of input, without any of the names the lexer uses for them.
 */
module Typed {
  import opened Bytes
  import opened Utf8
  import opened Dictionary
  import opened Dfa
  import opened Tokens
  import opened Reader
  import opened Arithmetic
  import opened Terminal
  import opened Vt
  import opened Stage
  import opened Custom
  import opened Editor
  import opened Secrecy
  import opened Nanorl
  import Picture
  import Z = Zipper

  // Single code points

  /** Newline and EOT stop, and any other control code is text in caret notation. */
  lemma ControlIsRead(s: seq<byte>, pos: nat)
    ensures
      var b, l := Bytes.At(s, pos), DecodeAt(s, pos);
      && (b == 10 ==> l == Lexeme(Stop(false), 1))
      && (b == 4 ==> l == Lexeme(Stop(true), 1))
      && (b < 0x20 && b != 10 && b != 4 ==> l == Lexeme(Text([94, b + 64]), 1))
      && (b == 0x7F ==> l == Lexeme(Text([94, 63]), 1))
  {
  }

  /** The encoding of a printable code point is that code point. */
  lemma CharacterIsRead(s: seq<byte>, pos: nat, c: uchar)
    requires c >= 0x20 && c != 0x7F && Window(s, pos, |Encode1(c)|) == Encode1(c)
    ensures DecodeAt(s, pos) == Lexeme(Text([c]), |Encode1(c)|)
  {
    var b := [Bytes.At(s, pos), Bytes.At(s, pos + 1), Bytes.At(s, pos + 2), Bytes.At(s, pos + 3)];
    assert b[..|Encode1(c)|] == Window(s, pos, |Encode1(c)|);
    ParseIffEncoded(b, c);
  }

  /** A byte that starts no code point is U+FFFD, alone. */
  lemma BadByteIsReplaced(s: seq<byte>, pos: nat)
    requires forall c: uchar :: Window(s, pos, |Encode1(c)|) != Encode1(c)
    ensures DecodeAt(s, pos) == Lexeme(Text([0xFFFD]), 1)
  {
    hide Encode1, Parse4;
    var b := [Bytes.At(s, pos), Bytes.At(s, pos + 1), Bytes.At(s, pos + 2), Bytes.At(s, pos + 3)];
    var c := Parse(b).value;
    ParsedLength(b);
    ParseIffEncoded(b, c);
    assert b[..|Encode1(c)|] == Window(s, pos, |Encode1(c)|);
  }

  predicate Follows6(e: seq<byte>) {
    forall i :: 1 <= i < |e| ==> 0x80 <= e[i] < 0xC0
  }

  /** The bytes of a code point: a lead byte that tells their number, and its bits six at a time (RFC 3629, section 3). */
  lemma ShortEncoding(c: uchar)
    requires c < 0x800
    ensures
      var e := Encode1(c);
      && (c < 0x80 ==> e == [c]) && Follows6(e)
      && (c >= 0x80 ==> |e| == 2 && 0xC0 <= e[0] < 0xE0 && c == (e[0] as int - 0xC0) * 64 + (e[1] as int - 0x80))
  {
  }

  lemma MiddleEncoding(c: uchar)
    requires 0x800 <= c < 0x1_0000
    ensures
      var e := Encode1(c);
      && |e| == 3 && 0xE0 <= e[0] < 0xF0 && Follows6(e)
      && c == (e[0] as int - 0xE0) * 4096 + (e[1] as int - 0x80) * 64 + (e[2] as int - 0x80)
  {
    var high: int := c / 64;
    assert high == c / 4096 * 64 + high % 64;
  }

  lemma LongEncoding(c: uchar)
    requires 0x1_0000 <= c
    ensures
      var e := Encode1(c);
      && |e| == 4 && 0xF0 <= e[0] < 0xF8 && Follows6(e)
      && c == (e[0] as int - 0xF0) * 0x4_0000 + (e[1] as int - 0x80) * 4096 + (e[2] as int - 0x80) * 64 + (e[3] as int - 0x80)
  {
    var high: int, higher: int := c / 64, c / 4096;
    assert higher == c / 0x4_0000 * 64 + higher % 64;
    assert high == higher * 64 + high % 64;
  }

  /** The first byte of a code point is the code point itself, or no ASCII byte. */
  lemma LeadByte(c: uchar)
    ensures if c < 0x80 then Encode1(c)[0] == c else Encode1(c)[0] >= 0xC0
  {
    hide Encode1;
    if c < 0x800 {
      ShortEncoding(c);
    } else if c < 0x1_0000 {
      MiddleEncoding(c);
    } else {
      LongEncoding(c);
    }
  }

  /** The readable form of a key goes byte by byte. */
  lemma CaretOfByte(s: seq<byte>, b: byte)
    ensures Z.Caret([]) == []
    ensures Z.Caret(s + [b])
         == Z.Caret(s) + if b < 0x20 then [94, b + 64] else if b == 0x7F then [94, 63] else [b]
  {
    assert (s + [b])[..|s|] == s;
  }

  // Lines

  predicate IsPrintable(c: uchar) {
    c >= 0x20 && c != 0x7F
  }

  predicate IsText(w: seq<uchar>) {
    forall i :: 0 <= i < |w| ==> IsPrintable(w[i])
  }

  predicate StartsWithControl(k: seq<byte>) {
    k != [] && (k[0] < 0x20 || k[0] == 0x7F) && k[0] != 10 && k[0] != 4
  }

  /** Keys start with a control code other than newline and EOT. */
  ghost predicate Quiet(d: Dict) {
    PrefixFree(d) && forall k :: k in d ==> StartsWithControl(k)
  }

  /** Where no key can start, a code point is read. */
  lemma NoKeyHere(d: Dict, s: seq<byte>, pos: nat)
    requires Quiet(d) && var b := Bytes.At(s, pos); b == 10 || b == 4 || (b >= 0x20 && b != 0x7F)
    ensures Terminating(d) && TokenAt(d, s, pos) == DecodeAt(s, pos)
  {
    forall n: nat ensures !Starts(d, s, pos, n) {
      assert n > 0 ==> Window(s, pos, n)[0] == Bytes.At(s, pos);
    }
  }

  /** One token for each character. */
  function TextTokens(w: seq<uchar>): (ts: seq<Token>)
    ensures |ts| == |w| && forall i :: 0 <= i < |w| ==> ts[i] == Text([w[i]])
  {
    seq<Token>(|w|, i requires 0 <= i < |w| => Text([w[i]]))
  }

  /** How a line ends: with a newline, or with the input. */
  function Ending(eof: bool): seq<byte> {
    if eof then [] else [10]
  }

  lemma FirstOfLine(front: seq<byte>, w: seq<uchar>, eof: bool)
    requires w != []
    ensures
      var s := front + (Encode(w) + Ending(eof));
      && s == (front + Encode1(w[0])) + (Encode(w[1..]) + Ending(eof))
      && Window(s, |front|, |Encode1(w[0])|) == Encode1(w[0])
  {
    hide Encode1, Ending;
    var e, rest := Encode1(w[0]), Encode(w[1..]);
    assert Encode(w) == e + rest;
    ConcatAssociates(e, rest, Ending(eof));
    ConcatAssociates(front, e, rest + Ending(eof));
    WindowOfConcat(front, e, rest + Ending(eof));
  }

  /** The first character of a line is its first token. */
  lemma FirstToken(d: Dict, front: seq<byte>, w: seq<uchar>, eof: bool)
    requires Quiet(d) && w != [] && IsPrintable(w[0])
    ensures
      var s := front + (Encode(w) + Ending(eof));
      TokenAt(d, s, |front|) == Lexeme(Text([w[0]]), |Encode1(w[0])|)
  {
    hide Encode, Ending, TokenAt, DecodeAt;
    var s, e := front + (Encode(w) + Ending(eof)), Encode1(w[0]);
    FirstOfLine(front, w, eof);
    assert Window(s, |front|, |e|)[0] == Bytes.At(s, |front|);
    LeadByte(w[0]);
    NoKeyHere(d, s, |front|);
    CharacterIsRead(s, |front|, w[0]);
  }

  lemma EndOfLine(d: Dict, front: seq<byte>, eof: bool)
    requires Quiet(d)
    ensures TokenAt(d, front + Ending(eof), |front|).token == Stop(eof)
  {
    var s := front + Ending(eof);
    ControlIsRead(s, |front|);
    NoKeyHere(d, s, |front|);
  }

  /** Printable text and the end of its line are lexed as the characters and the stop. */
  lemma {:induction false} LineIsLexed(d: Dict, front: seq<byte>, w: seq<uchar>, eof: bool)
    requires Quiet(d) && Terminating(d) && IsText(w)
    ensures Lex(d, front + (Encode(w) + Ending(eof)), |front|) == TextTokens(w) + [Stop(eof)]
    decreases |w|
  {
    hide TokenAt, Terminating, Quiet, Encode1, Ending;
    var s := front + (Encode(w) + Ending(eof));
    if w == [] {
      assert s == front + Ending(eof);
      EndOfLine(d, front, eof);
      assert TextTokens(w) == [];
    } else {
      assert IsPrintable(w[0]) && IsText(w[1..]);
      FirstOfLine(front, w, eof);
      FirstToken(d, front, w, eof);
      LineIsLexed(d, front + Encode1(w[0]), w[1..], eof);
      assert TextTokens(w) == [Text([w[0]])] + TextTokens(w[1..]);
    }
  }

  /** After `k` characters of a line those are in front of the cursor, and nothing behind it. */
  lemma {:induction false} TypedSoFar(run: Run, w: seq<uchar>, eof: bool, k: nat)
    requires run.tokens == TextTokens(w) + [Stop(eof)] && k <= |w|
    ensures After(run, k) == Z.Zipper(w[..k], [])
  {
    if k > 0 {
      TypedSoFar(run, w, eof, k - 1);
      TakeNext(w, k - 1);
    }
  }

  /** A typed line is returned as it is, the empty one included; only an empty line ended by the input is not. */
  lemma TypedIsReturned(settings: Settings, mode: EchoMode, d: Dict, w: seq<uchar>, eof: bool)
    requires Usable(settings) && Quiet(d) && Terminating(d) && IsText(w)
    ensures
      var run := RunOf(settings, mode, d, Encode(w) + Ending(eof), 0);
      && run.tokens == TextTokens(w) + [Stop(eof)]
      && Returned(run) == if eof && w == [] then Eof else Line(Encode(w))
  {
    hide Lex, Encode, Ending, Terminating, Quiet;
    var run := RunOf(settings, mode, d, Encode(w) + Ending(eof), 0);
    LineIsLexed(d, [], w, eof);
    assert [] + (Encode(w) + Ending(eof)) == Encode(w) + Ending(eof);
    TypedSoFar(run, w, eof, |w|);
    assert w[..|w|] == w && w + [] == w;
  }

  // Keys without a meaning of their own

  /** A handled key is its handler's; another is ignored, or goes in as the readable form of its text. */
  lemma CustomKeyMeans(cfg: Settings, z: Z.Zipper, key: nat)
    requires Usable(cfg) && 0 !in Z.Line(z)
    ensures
      Do(cfg, z, Custom(key)) ==
        if key in cfg.handlers then Handle(cfg.handlers[key], z)
        else if cfg.ignoreDefault then z
        else Z.Zipper(z.before + Z.Caret(cfg.lookup(key)), z.after)
  {
  }

  /** A handler is given the whole line and the cursor in it, and line and cursor are what it returns. */
  lemma HandlerDecides(h: Handler, z: Z.Zipper)
    requires Behaves(h, z)
    ensures
      var y := Handle(h, z);
      match h
      case Wide(f) =>
        y.before + y.after == f(z.before + z.after, |z.before|).0 && |y.before| == f(z.before + z.after, |z.before|).1
      case Narrow(f) =>
        var r := f(Encode(z.before + z.after), |Encode(z.before)|);
        Encode(y.before + y.after) == r.0 && |Encode(y.before)| == r.1
  {
    if h.Narrow? {
      var r := h.edit8(Encode(Z.Line(z)), |Encode(z.before)|);
      DecodeBothSides(r.0, r.1);
      EncodeDecode(r.0);
      EncodeDecode(r.0[..r.1]);
    }
  }

  // The screen

  predicate IsPlainGlyph(c: uchar) {
    0x20 <= c < 0x7F || c >= 0xA0
  }

  /** Characters one cell wide, and as many as fit on the rows above the last one of a screen of usual size. */
  ghost predicate FitsScreen(mode: EchoMode, width: uchar -> nat, rows: nat, cols: nat, w: seq<uchar>) {
    && (mode == On ==> forall i :: 0 <= i < |w| ==> IsPlainGlyph(w[i]) && width(w[i]) == 1)
    && |w| <= (rows - 1) * cols && rows <= 0xFFFF && cols <= 0xFFFF
  }

  /** Printable ASCII is text, and fits if there is room for it. */
  lemma AsciiFits(mode: EchoMode, width: uchar -> nat, rows: nat, cols: nat, w: seq<uchar>)
    requires forall i :: 0 <= i < |w| ==> 0x20 <= w[i] < 0x7F && width(w[i]) == 1
    ensures IsText(w)
    ensures FitsScreen(mode, width, rows, cols, w) <==> |w| <= (rows - 1) * cols && rows <= 65535 && cols <= 65535
  {
  }

  lemma PrefixFits(mode: EchoMode, width: uchar -> nat, rows: nat, cols: nat, w: seq<uchar>, k: nat)
    requires mode != Off && FitsScreen(mode, width, rows, cols, w) && k <= |w|
    ensures LineNarrow(mode, width, rows, cols, w[..k]) && PlainLine(mode, width, w[..k])
  {
    assert mode == On ==> forall i :: 0 <= i < k ==> IsPlainGlyph(w[..k][i]) && width(w[..k][i]) == 1;
    PlainWidth(mode, width, w[..k]);
  }

  /** Character `i` of a line that starts at `base`, or an asterisk in its place. */
  predicate GlyphAt(s: Screen, base: int, mode: EchoMode, w: seq<uchar>, i: nat) {
    i < |w| && 0 <= base + i < |s.cells| && s.cells[base + i] == if mode == Obscured then 42 else w[i]
  }

  /** Row by row from `base` on, the characters or as many asterisks, and the cursor behind them. */
  ghost predicate Reads(s: Screen, base: int, mode: EchoMode, w: seq<uchar>) {
    && 0 <= base && base + |w| < |s.cells|
    && (forall i: nat :: i < |w| ==> GlyphAt(s, base, mode, w, i))
    && s.at == base + |w|
  }

  /** Whenever no input waits the terminal shows what has been typed, where the cursor was but for whole rows scrolled. */
  lemma TypedIsShown(run: Run, mode: EchoMode, width: uchar -> nat, first: Screen, before: seq<byte>,
                     fmt: AddressFormat, pos: Pos, reply: Reply, ms: seq<Moment>, file: seq<byte>,
                     w: seq<uchar>, eof: bool, k: nat)
    requires Achieves(run, mode, width, first, before, fmt, pos, reply, ms, file)
    requires run.tokens == TextTokens(w) + [Stop(eof)] && k <= |w|
    requires mode != Off && FitsScreen(mode, width, first.rows, first.cols, w) && !ms[k].waiting
    ensures before <= ms[k].sent
    ensures exists base: nat ::
      && base <= first.at && (first.at - base) % first.cols == 0
      && Reads(FeedAll(Vt(first, []), ms[k].sent[|before|..]).screen, base, mode, w[..k])
  {
    hide Traced, AllBegin, Answers, Displayed, FeedAll, TextTokens;
    assert RightAt(run, mode, width, first, before, ms, k);
    forall j: nat | j <= k
      ensures LineNarrow(mode, width, first.rows, first.cols, Z.Line(After(run, j))) && PlainLine(mode, width, Z.Line(After(run, j)))
    {
      TypedSoFar(run, w, eof, j);
      assert w[..j] + [] == w[..j];
      PrefixFits(mode, width, first.rows, first.cols, w, j);
    }
    TypedSoFar(run, w, eof, k);
    DisplayedReads(run, ms[..k + 1], mode, first, ms[k].sent[|before|..], w[..k]);
  }

  lemma DisplayedReads(run: Run, ms: seq<Moment>, mode: EchoMode, first: Screen, sent: seq<byte>, v: seq<uchar>)
    requires 0 < |ms| <= |run.tokens| + 1 && Displayed(run, ms, mode, first, sent)
    requires After(run, |ms| - 1) == Z.Zipper(v, [])
    ensures exists base: nat ::
      && base <= first.at && (first.at - base) % first.cols == 0
      && Reads(FeedAll(Vt(first, []), sent).screen, base, mode, v)
  {
    hide FeedAll, After, Extent, LineShown, Reads;
    var base := ShownReads(first, mode, Extent(run, ms), FeedAll(Vt(first, []), sent).screen, v);
  }

  lemma ShownReads(first: Screen, mode: EchoMode, extent: nat, s: Screen, v: seq<uchar>) returns (base: nat)
    requires LineShown(first, mode, Z.Zipper(v, []), extent, s)
    ensures base <= first.at && (first.at - base) % first.cols == 0 && Reads(s, base, mode, v)
  {
    hide LineShown, Picture.Shift, GlyphAt;
    var z := Z.Zipper(v, []);
    assert Z.Line(z) == v;
    base := ShownPlace(first, mode, z, extent, s);
    forall i: nat | i < |v| ensures GlyphAt(s, base, mode, v, i) {
      GlyphIsThere(first, mode, extent, s, v, base, i);
    }
  }

  lemma GlyphIsThere(first: Screen, mode: EchoMode, extent: nat, s: Screen, v: seq<uchar>, base: nat, i: nat)
    requires LineShown(first, mode, Z.Zipper(v, []), extent, s) && i < |v|
    requires base == first.at - Picture.Shift(first.rows, first.cols, first.at + extent)
    ensures GlyphAt(s, base, mode, v, i)
  {
    hide LineShown, Picture.Shift;
    assert Z.Line(Z.Zipper(v, [])) == v;
    ShownGlyph(first, mode, Z.Zipper(v, []), extent, s, i);
  }
}
