/** The terminal at the other end of the descriptor: it takes one byte at a time. */
module Vt {
  import opened Bytes
  import opened Utf8
  import opened Format
  import opened Terminal

  const SEMICOLON: byte := 59
  const LETTER_H: byte := 72

  /** The screen and the bytes of a sequence that is not complete yet. */
  datatype Vt = Vt(screen: Screen, pending: seq<byte>)

  /** Code points that occupy a cell: no C0 or C1 control code. */
  predicate Glyph(c: uchar) {
    c >= 0x20 && !(0x7F <= c < 0xA0)
  }

  function Show(s: Screen, c: uchar): Screen {
    if Glyph(c) then Print(s, c) else s
  }

  function Ground(s: Screen, b: byte): Vt {
    if b == ESC then Vt(s, [b])
    else if b == LF then Vt(LineFeed(s), [])
    else if b < 0x80 then Vt(Show(s, b), [])
    else if Inspect(b) > 1 then Vt(s, [b])
    else Vt(s, [])
  }

  /** Inside UTF-8 text: malformed sequences show nothing. */
  function Text(s: Screen, bytes: seq<byte>): Vt
    requires bytes != []
  {
    if |bytes| < Inspect(bytes[0]) then Vt(s, bytes)
    else
      var r := First(bytes);
      Vt(if r.consumed == |bytes| then Show(s, r.value) else s, [])
  }

  predicate Final(b: byte) {
    0x40 <= b < 0x7F
  }

  /** The number at the start of a parameter string; 1 when it is missing or zero. */
  function Param(s: seq<byte>): nat {
    var v := Value(s[..DigitRun(s)]);
    if v == 0 then 1 else v
  }

  /** CUP: row and column, separated by a semicolon and counted from 1. */
  function Address(s: Screen, params: seq<byte>): Screen {
    var rest := params[DigitRun(params)..];
    MoveTo(s, Param(params) - 1, Param(if rest == [] then [] else rest[1..]) - 1)
  }

  /** Inside a control sequence; only CUP has an effect. */
  function Control(s: Screen, bytes: seq<byte>): Vt
    requires |bytes| >= 2
  {
    var b := bytes[|bytes| - 1];
    if |bytes| == 2 then Vt(s, if b == LEFT_BRACKET then bytes else [])
    else if !Final(b) then Vt(s, bytes)
    else Vt(if b == LETTER_H then Address(s, bytes[2..|bytes| - 1]) else s, [])
  }

  function Feed(t: Vt, b: byte): Vt {
    if t.pending == [] then Ground(t.screen, b)
    else if t.pending[0] == ESC then Control(t.screen, t.pending + [b])
    else Text(t.screen, t.pending + [b])
  }

  function FeedAll(t: Vt, bs: seq<byte>): Vt
    decreases |bs|
  {
    if bs == [] then t else FeedAll(Feed(t, bs[0]), bs[1..])
  }

  lemma {:induction false} FeedConcat(t: Vt, a: seq<byte>, b: seq<byte>)
    ensures FeedAll(t, a + b) == FeedAll(FeedAll(t, a), b)
    decreases |a|
  {
    if a == [] {
      assert a + b == b;
    } else {
      assert (a + b)[1..] == a[1..] + b;
      FeedConcat(Feed(t, a[0]), a[1..], b);
    }
  }

  lemma FeedOne(t: Vt, b: byte)
    ensures FeedAll(t, [b]) == Feed(t, b)
  {
    assert [b][1..] == [];
  }

  /** The bytes of one code point, all but the last. */
  lemma {:induction false} FeedPartial(s: Screen, e: seq<byte>, n: nat)
    requires 1 <= n < |e| && |e| == Inspect(e[0])
    ensures FeedAll(Vt(s, []), e[..n]) == Vt(s, e[..n])
  {
    if n == 1 {
      assert e[..1] == [e[0]];
      FeedOne(Vt(s, []), e[0]);
    } else {
      FeedPartial(s, e, n - 1);
      TakeNext(e, n - 1);
      FeedConcat(Vt(s, []), e[..n - 1], [e[n - 1]]);
      FeedOne(Vt(s, e[..n - 1]), e[n - 1]);
    }
  }

  lemma FeedCodePoint(s: Screen, c: uchar)
    requires Glyph(c)
    ensures FeedAll(Vt(s, []), Encode1(c)) == Vt(Print(s, c), [])
  {
    var e := Encode1(c);
    var n := |e| - 1;
    assert e == e[..n] + [e[n]];
    FeedOne(Vt(s, e[..n]), e[n]);
    if n > 0 {
      FeedPartial(s, e, n);
      FeedConcat(Vt(s, []), e[..n], [e[n]]);
      FirstOfEncoded(c, []);
      assert e + [] == e;
    } else {
      assert e[..n] == [];
    }
  }

  predicate AllGlyphs(g: seq<uchar>) {
    forall i :: 0 <= i < |g| ==> Glyph(g[i])
  }

  /** UTF-8 text is printed code point by code point. */
  lemma {:induction false} FeedText(s: Screen, g: seq<uchar>)
    requires AllGlyphs(g)
    ensures FeedAll(Vt(s, []), Encode(g)) == Vt(PrintAll(s, g), [])
    decreases |g|
  {
    if g != [] {
      var n := |g| - 1;
      FeedText(s, g[..n]);
      assert g == g[..n] + [g[n]];
      EncodeConcat(g[..n], [g[n]]);
      EncodeSingle(g[n]);
      FeedConcat(Vt(s, []), Encode(g[..n]), Encode1(g[n]));
      FeedCodePoint(PrintAll(s, g[..n]), g[n]);
    }
  }

  lemma EncodeSingle(c: uchar)
    ensures Encode([c]) == Encode1(c)
  {
    assert [c][1..] == [];
    assert Encode1(c) + [] == Encode1(c);
  }

  /** Parameter bytes are collected. */
  lemma {:induction false} FeedParams(s: Screen, got: seq<byte>, ps: seq<byte>)
    requires |got| >= 2 && got[0] == ESC
    requires forall i :: 0 <= i < |ps| ==> !Final(ps[i])
    ensures FeedAll(Vt(s, got), ps) == Vt(s, got + ps)
    decreases |ps|
  {
    if ps == [] {
      assert got + ps == got;
    } else {
      FeedParams(s, got + [ps[0]], ps[1..]);
      assert got + [ps[0]] + ps[1..] == got + ps;
    }
  }

  /** cursor_address of xterm, and what it prints for a row and a column counted from 0. */
  const CURSOR_ADDRESS: Shape := Shape([ESC, LEFT_BRACKET], true, [], [SEMICOLON], [LETTER_H])

  const CURSOR_ADDRESS_TEXT: seq<byte> := PrintFormat(CURSOR_ADDRESS)

  /** ESC [ %i %p1 %d ; %p2 %d H */
  lemma CursorAddressShape()
    ensures CURSOR_ADDRESS_TEXT == [27, 91, 37, 105, 37, 112, 49, 37, 100, 59, 37, 112, 50, 37, 100, 72]
    ensures CString(CURSOR_ADDRESS_TEXT)
  {
    var last := LastParam(CURSOR_ADDRESS);
    assert last == [37, 112, 50, 37, 100, 72];
    var both := BothParams(CURSOR_ADDRESS);
    assert both == [37, 112, 49, 37, 100, 59] + last;
    assert PrintFormat(CURSOR_ADDRESS) == [27, 91, 37, 105] + both;
  }

  function CupParams(row: nat, col: nat): seq<byte> {
    Digits(row + 1) + ([SEMICOLON] + Digits(col + 1))
  }

  function CupBytes(row: nat, col: nat): seq<byte> {
    Printed(CURSOR_ADDRESS, row + 1, col + 1)
  }

  lemma CupBytesSplit(row: nat, col: nat)
    ensures CupBytes(row, col) == [ESC] + ([LEFT_BRACKET] + (CupParams(row, col) + [LETTER_H]))
  {
    var d := Digits(col + 1);
    assert [] + (Digits(row + 1) + ([SEMICOLON] + (d + [LETTER_H]))) == CupParams(row, col) + [LETTER_H];
  }

  /** The parameters of CUP are read back as the row and column they were printed for. */
  lemma AddressOfParams(s: Screen, row: nat, col: nat)
    ensures Address(s, CupParams(row, col)) == MoveTo(s, row, col)
  {
    var rest := [SEMICOLON] + Digits(col + 1);
    ScanDigits(row + 1, rest);
    assert CupParams(row, col)[|Digits(row + 1)|..] == rest;
    assert rest[1..] == Digits(col + 1);
    ScanDigits(col + 1, []);
    assert Digits(col + 1) + [] == Digits(col + 1);
  }

  /** Cursor addressing moves the terminal's cursor to the cell asked for. */
  lemma FeedMove(s: Screen, row: nat, col: nat)
    ensures FeedAll(Vt(s, []), CupBytes(row, col)) == Vt(MoveTo(s, row, col), [])
  {
    var ps := CupParams(row, col);
    CupBytesSplit(row, col);
    FeedConcat(Vt(s, []), [ESC], [LEFT_BRACKET] + (ps + [LETTER_H]));
    FeedOne(Vt(s, []), ESC);
    FeedConcat(Vt(s, [ESC]), [LEFT_BRACKET], ps + [LETTER_H]);
    FeedOne(Vt(s, [ESC]), LEFT_BRACKET);
    var got := [ESC] + [LEFT_BRACKET];
    FeedConcat(Vt(s, got), ps, [LETTER_H]);
    FeedParams(s, got, ps);
    FeedOne(Vt(s, got + ps), LETTER_H);
    var all := got + ps + [LETTER_H];
    assert all[2..|all| - 1] == ps;
    AddressOfParams(s, row, col);
  }

  /** user6 of xterm: how a cursor position report (CPR, section 8.3.14 of ECMA-48) looks. */
  const CURSOR_REPORT: Shape := Shape([ESC, LEFT_BRACKET], true, [], [SEMICOLON], [82])

  /** A report counts rows and columns from 1, and every position comes back as it is counted from 0. */
  lemma ReportIsReadBack(row: nat, col: nat, x: int, y: int)
    requires row < 0x7FFF_FFFF && col < 0x7FFF_FFFF
    ensures Scannable(ScanFormat(CURSOR_REPORT))
    ensures ParseSpec(ScanFormat(CURSOR_REPORT), Printed(CURSOR_REPORT, row + 1, col + 1), false, 0, x, y)
         == Reading(true, row, col)
  {
    ReadBack(CURSOR_REPORT, row, col, x, y);
    FormatPrints(CURSOR_REPORT, row, col);
  }
}
