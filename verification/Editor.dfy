/**
 * Line manipulation and rendering: src/manip.c and src/render.c. One object holds the
 * line_data structure and the static variables of the renderer.
 */
module Editor {
  import opened Bytes
  import opened Utf8
  import opened Format
  import opened Terminal
  import opened Picture
  import opened Vt
  import opened Stage
  import opened Output
  import opened Dictionary
  import Z = Zipper
  import C = Custom

  /** Formatting a row and a column gives text that moves the terminal's cursor there. */
  ghost predicate AddressesCell(fmt: seq<byte>, row: nat, col: nat)
    requires Ended(fmt)
  {
    var text := FormatSpec(fmt, [row, col]);
    && text.Some?
    && (Addressable(Pos(row, col)) ==>
          forall s: Screen :: FeedAll(Vt(s, []), text.value) == Vt(MoveTo(s, row, col), []))
  }

  ghost predicate Addresses(fmt: seq<byte>) {
    CString(fmt) && Ended(fmt) && forall row: nat, col: nat :: AddressesCell(fmt, row, col)
  }

  /** The cursor_address capability of a terminal that does what its terminfo entry says. */
  type AddressFormat = f: seq<byte> | Addresses(f) ghost witness (XtermAddresses(); CURSOR_ADDRESS_TEXT)

  lemma XtermAddresses()
    ensures Addresses(CURSOR_ADDRESS_TEXT)
  {
    CursorAddressShape();
    FormatPrints(CURSOR_ADDRESS, 0, 0);
    forall row: nat, col: nat ensures AddressesCell(CURSOR_ADDRESS_TEXT, row, col) {
      FormatPrints(CURSOR_ADDRESS, row, col);
      forall s: Screen | Addressable(Pos(row, col))
        ensures FeedAll(Vt(s, []), FormatSpec(CURSOR_ADDRESS_TEXT, [row, col]).value) == Vt(MoveTo(s, row, col), [])
      {
        FeedMove(s, row, col);
      }
    }
  }

  function XtermAddress(): AddressFormat {
    XtermAddresses();
    CURSOR_ADDRESS_TEXT
  }

  /** What move_cursor_2d sends. */
  function AddressText(fmt: AddressFormat, p: Pos): seq<byte> {
    assert AddressesCell(fmt, p.row, p.col);
    FormatSpec(fmt, [p.row, p.col]).value
  }

  lemma FeedAddress(fmt: AddressFormat, s: Screen, p: Pos)
    requires Addressable(p)
    ensures FeedAll(Vt(s, []), AddressText(fmt, p)) == Vt(MoveTo(s, p.row, p.col), [])
  {
    assert AddressesCell(fmt, p.row, p.col);
  }

  const NEWLINE: seq<byte> := [LF]

  function NewlineIf(b: bool): seq<byte> {
    if b then NEWLINE else []
  }

  /** Everything one redraw sends. */
  function RedrawText(fmt: AddressFormat, home: Pos, data: seq<byte>, newline: bool, erase: nat, end: Pos): seq<byte> {
    AddressText(fmt, home) + (data + (NewlineIf(newline) + (Encode(Blanks(erase)) + AddressText(fmt, end))))
  }

  /** What a cursor movement sends. */
  function SyncText(fmt: AddressFormat, st: Stage, to: nat): seq<byte>
    requires st.cols >= 1 && st.renderCursor <= |st.line| && to <= |st.line|
  {
    if st.mode == Off then [] else AddressText(fmt, Target(st, to))
  }

  /** What a standard key sends: an address whenever the cursor is moved, and nothing else. */
  function PressText(fmt: AddressFormat, st: Stage, key: nat): seq<byte>
    requires st.cols >= 1 && st.renderCursor <= |st.line| && st.cursor <= |st.line|
  {
    if key == KEY_LEFT || key == KEY_BACKSPACE then if st.cursor > 0 then SyncText(fmt, st, st.cursor - 1) else []
    else if key == KEY_RIGHT then if st.cursor < |st.line| then SyncText(fmt, st, st.cursor + 1) else []
    else if key == KEY_HOME then SyncText(fmt, st, 0)
    else if key == KEY_END then SyncText(fmt, st, |st.line|)
    else []
  }

  /** The keys that only move the cursor move it with the renderer, or do nothing at an end of the line. */
  lemma MovesSync(fmt: AddressFormat, st: SoundStage)
    ensures Follows(st, st)
    ensures st.cursor > 0 ==> Pressed(st, KEY_LEFT) == Synced(st, st.cursor - 1)
                              && PressText(fmt, st, KEY_LEFT) == SyncText(fmt, st, st.cursor - 1)
    ensures st.cursor == 0 ==> Pressed(st, KEY_LEFT) == st && PressText(fmt, st, KEY_LEFT) == []
    ensures st.cursor < |st.line| ==> Pressed(st, KEY_RIGHT) == Synced(st, st.cursor + 1)
                                      && PressText(fmt, st, KEY_RIGHT) == SyncText(fmt, st, st.cursor + 1)
    ensures st.cursor >= |st.line| ==> Pressed(st, KEY_RIGHT) == st && PressText(fmt, st, KEY_RIGHT) == []
    ensures Pressed(st, KEY_HOME) == Synced(st, 0) && PressText(fmt, st, KEY_HOME) == SyncText(fmt, st, 0)
    ensures Pressed(st, KEY_END) == Synced(st, |st.line|) && PressText(fmt, st, KEY_END) == SyncText(fmt, st, |st.line|)
  {
    hide Synced, SyncText;
  }

  /** What a redraw sends. */
  function PaintText(fmt: AddressFormat, st: Stage): seq<byte>
    requires st.cols >= 1 && st.renderCursor <= |st.line| && st.cursor <= |st.line|
  {
    if st.mode == Off then []
    else RedrawText(fmt, Target(st, 0), Encode(Painted(st.mode, st.line)), ForcesNewline(st.screen.rows, AfterPrint(st)),
                    Erase(st.lastWidth, |st.line|), EndOfRedraw(st))
  }

  /** The terminal carries out a redraw as it was meant. */
  lemma FeedRedraw(fmt: AddressFormat, s: Screen, home: Pos, g: seq<uchar>, newline: bool, erase: nat, end: Pos)
    requires Addressable(home) && Addressable(end) && AllGlyphs(g)
    ensures FeedAll(Vt(s, []), RedrawText(fmt, home, Encode(g), newline, erase, end))
         == Vt(RedrawScreen(s, home, g, newline, erase, end), [])
  {
    var blanks, last := Encode(Blanks(erase)), AddressText(fmt, end);
    var s1 := MoveTo(s, home.row, home.col);
    var s2 := PrintAll(s1, g);
    var s3 := if newline then LineFeed(s2) else s2;
    var s4 := PrintAll(s3, Blanks(erase));
    FeedConcat(Vt(s, []), AddressText(fmt, home), Encode(g) + (NewlineIf(newline) + (blanks + last)));
    FeedAddress(fmt, s, home);
    FeedConcat(Vt(s1, []), Encode(g), NewlineIf(newline) + (blanks + last));
    FeedText(s1, g);
    FeedConcat(Vt(s2, []), NewlineIf(newline), blanks + last);
    FeedOne(Vt(s2, []), LF);
    FeedConcat(Vt(s3, []), blanks, last);
    FeedText(s3, Blanks(erase));
    FeedAddress(fmt, s4, end);
  }

  /** The formatted cursor_address capability. */
  method AddressCommand(fmt: AddressFormat, p: Pos) returns (cmd: seq<byte>)
    ensures cmd == AddressText(fmt, p)
  {
    assert AddressesCell(fmt, p.row, p.col);
    var r := Format.Format(fmt, [p.row, p.col]);
    cmd := r.value;
  }

  class Session {
    const mode: EchoMode
    /** ucwidth, which is not part of this repository. */
    const width: uchar -> nat
    /** The cursor_address capability. */
    const address: AddressFormat
    /** term_size, and the descriptor. */
    const rows: nat
    const cols: nat
    const out: Sink

    // line_data
    var buffer: seq<uchar>
    var cursor: nat
    var renderCursor: nat
    var dirty: bool

    // cursor_pos and last_rendered_width
    var pos: Pos
    var lastWidth: nat

    /** The terminal when the renderer took over, what had been sent by then, and what is known now. */
    ghost const first: Screen
    ghost const before: seq<byte>
    ghost var stage: SoundStage

    /** The stage with the real fields in it. */
    ghost function Shown(): Stage
      reads this
    {
      Stage(mode, cols, width, buffer, cursor, renderCursor, dirty, pos, lastWidth,
            stage.screen, stage.scene, stage.drawn, stage.tracked, stage.plain)
    }

    /** The descriptor is in order. */
    ghost predicate Open()
      reads this, out, out.buf
    {
      out.Valid() && out.reliable && (out.echo <==> mode != Off) && rows >= 1 && cols >= 1
    }

    /** What the terminal has made of everything sent to it; nothing waits in the write buffer. */
    ghost predicate Heard(st: Stage)
      reads this, out
    {
      && out.count == 0 && before <= out.file && (mode == Off ==> out.file == before)
      && (mode != Off && st.tracked && st.plain ==>
            FeedAll(Vt(first, []), out.file[|before|..]) == Vt(st.screen, []))
    }

    ghost predicate Valid()
      reads this, out, out.buf
    {
      stage == Shown() && Open() && Heard(stage) && stage.screen.rows == rows && Anchored(first, stage)
    }

    ghost function Zip(): Z.Zipper
      requires cursor <= |buffer|
      reads this
    {
      Z.Split(buffer, cursor)
    }

    /** nrl_render_init with the size and the cursor the terminal reports; the line is empty. */
    constructor (mode: EchoMode, width: uchar -> nat, address: AddressFormat, out: Sink,
                 ghost screen: Screen, rows: nat, cols: nat, pos: Pos)
      requires out.Valid() && out.reliable && out.count == 0 && (out.echo <==> mode != Off)
      requires rows == screen.rows && cols == screen.cols && pos == PosOf(screen.at, cols)
      ensures Valid() && this.mode == mode && this.width == width && this.address == address && this.out == out
      ensures this.rows == rows && this.cols == cols
      ensures buffer == [] && cursor == 0 && !dirty && first == screen && before == out.file
      ensures stage == Opened(mode, width, screen, pos)
    {
      this.mode, this.width, this.address := mode, width, address;
      this.rows, this.cols, this.out := rows, cols, out;
      buffer, cursor, renderCursor, dirty := [], 0, 0, false;
      this.pos, lastWidth := pos, 0;
      first, before := screen, out.file;
      new;
      stage := FirstStage(mode, width, screen, pos);
      assert out.file[|before|..] == [];
    }

    /** move_cursor_2d. */
    method MoveCursor(to: Pos)
      requires Open() && mode != Off
      modifies this`pos, out, out.buf
      ensures Open() && pos == to && out.count == 0 && out.file == old(out.Sent()) + AddressText(address, to)
    {
      var cmd := AddressCommand(address, to);
      var ok := out.Write(cmd);
      ok := out.Flush();
      pos := to;
    }

    /** move_to_pos_normal: step over characters, adding up their widths. */
    method MoveToPosNormal(to: nat)
      requires Open() && mode == On && renderCursor <= |buffer| && to <= |buffer|
      modifies this`pos, this`renderCursor, out, out.buf
      ensures Open() && renderCursor == to && out.count == 0
      ensures pos == Goal(mode, width, cols, buffer, old(pos), old(renderCursor), to)
      ensures out.file == old(out.Sent()) + AddressText(address, pos)
    {
      var moveWidth := StepTo(to);
      MoveCursor(Offset(pos, cols, moveWidth));
    }

    /** The loop of move_to_pos_normal. */
    method StepTo(to: nat) returns (moveWidth: int)
      requires renderCursor <= |buffer| && to <= |buffer| && mode == On
      modifies this`renderCursor
      ensures renderCursor == to
      ensures moveWidth == Width(mode, width, buffer[..to]) - Width(mode, width, buffer[..old(renderCursor)])
    {
      moveWidth := 0;
      var forward := to as int - renderCursor > 0;
      while renderCursor != to
        invariant if forward then renderCursor <= to else to <= renderCursor
        invariant renderCursor <= |buffer|
        invariant moveWidth == Width(mode, width, buffer[..renderCursor]) - Width(mode, width, buffer[..old(renderCursor)])
        decreases if forward then to - renderCursor else renderCursor - to
      {
        // Backwards, the character passed is the one before the render cursor
        var step := if forward then renderCursor else renderCursor - 1;
        WidthStep(mode, width, buffer, step);
        var w := width(buffer[step]);
        if forward {
          renderCursor := renderCursor + 1;
          moveWidth := moveWidth + w;
        } else {
          renderCursor := renderCursor - 1;
          moveWidth := moveWidth - w;
        }
      }
    }

    /** move_to_pos_obscured: every character is one star. */
    method MoveToPosObscured(to: nat)
      requires Open() && mode == Obscured && renderCursor <= |buffer| && to <= |buffer|
      modifies this`pos, this`renderCursor, out, out.buf
      ensures Open() && renderCursor == to && out.count == 0
      ensures pos == Goal(mode, width, cols, buffer, old(pos), old(renderCursor), to)
      ensures out.file == old(out.Sent()) + AddressText(address, pos)
    {
      PlainWidth(mode, width, buffer[..to]);
      PlainWidth(mode, width, buffer[..renderCursor]);
      var offset := to as int - renderCursor;
      renderCursor := to;
      MoveCursor(Offset(pos, cols, offset));
    }

    method MoveToPos(to: nat)
      requires Open() && mode != Off && renderCursor <= |buffer| && to <= |buffer|
      modifies this`pos, this`renderCursor, out, out.buf
      ensures Open() && renderCursor == to && out.count == 0
      ensures pos == Goal(mode, width, cols, buffer, old(pos), old(renderCursor), to)
      ensures out.file == old(out.Sent()) + AddressText(address, pos)
    {
      if mode == On {
        MoveToPosNormal(to);
      } else {
        MoveToPosObscured(to);
      }
    }

    /** handle_scroll. */
    method ScrollPosition()
      requires Open() && mode != Off
      modifies this`pos, out, out.buf
      ensures Open() && pos == HandleScroll(rows, old(pos))
      ensures out.Sent() == old(out.Sent()) + NewlineIf(ForcesNewline(rows, old(pos)))
    {
      var rowsScrolled := pos.row - rows + 1;
      if rowsScrolled <= 0 {
        return;
      }
      // The wrap is still pending, and only a line feed makes it happen
      if pos.col == 0 {
        var ok := out.Write(NEWLINE);
        ok := out.Flush();
      }
      pos := Pos(pos.row - rowsScrolled, pos.col);
    }

    /** A loop that writes one ASCII character `n` times. */
    method WriteRepeated(c: byte, n: nat)
      requires Open() && mode != Off && c < 0x80
      modifies out, out.buf
      ensures Open() && out.Sent() == old(out.Sent()) + Encode(Repeat(c, n))
    {
      assert Encode(Repeat(c, 0)) == [];
      var i := 0;
      while i < n
        invariant 0 <= i <= n && Open()
        invariant out.Sent() == old(out.Sent()) + Encode(Repeat(c, i))
      {
        var ok := out.Write([c]);
        RepeatStep(c, i);
        ConcatAssociates(old(out.Sent()), Encode(Repeat(c, i)), [c]);
        i := i + 1;
      }
    }

    /** Recompute the position after `wrWidth` cells, and handle_scroll. */
    method Settle(wrWidth: nat)
      requires Open() && mode != Off
      modifies this`pos, this`renderCursor, out, out.buf
      ensures Open() && renderCursor == |buffer|
      ensures pos == HandleScroll(rows, Offset(old(pos), cols, wrWidth))
      ensures out.Sent() == old(out.Sent()) + NewlineIf(ForcesNewline(rows, Offset(old(pos), cols, wrWidth)))
    {
      renderCursor := |buffer|;
      pos := Offset(pos, cols, wrWidth);
      ScrollPosition();
    }

    /** Blank what is left of a longer line. */
    method EraseTail(wrWidth: nat)
      requires Open() && mode != Off
      modifies this`lastWidth, out, out.buf
      ensures Open() && lastWidth == wrWidth
      ensures out.Sent() == old(out.Sent()) + Encode(Blanks(Erase(old(lastWidth), |buffer|)))
    {
      var toErase := lastWidth as int - |buffer|;
      WriteRepeated(32, if toErase > 0 then toErase else 0);
      lastWidth := wrWidth;
      assert Blanks(Erase(old(lastWidth), |buffer|)) == Repeat(32, Erase(old(lastWidth), |buffer|));
    }

    /** The common end of both redraws: settle the position, erase, and go to the cursor. */
    method FinishRedraw(wrWidth: nat) returns (ghost newline: bool, ghost erase: nat)
      requires Open() && mode != Off && cursor <= |buffer|
      modifies this`pos, this`renderCursor, this`lastWidth, out, out.buf
      ensures Open() && renderCursor == cursor && lastWidth == wrWidth && out.count == 0
      ensures pos == Goal(mode, width, cols, buffer, HandleScroll(rows, Offset(old(pos), cols, wrWidth)), |buffer|, cursor)
      ensures newline == ForcesNewline(rows, Offset(old(pos), cols, wrWidth)) && erase == Erase(old(lastWidth), |buffer|)
      ensures out.file == old(out.Sent()) + (NewlineIf(newline) + (Encode(Blanks(erase)) + AddressText(address, pos)))
    {
      newline, erase := ForcesNewline(rows, Offset(pos, cols, wrWidth)), Erase(lastWidth, |buffer|);
      Settle(wrWidth);
      EraseTail(wrWidth);
      MoveToPos(cursor);
      FourAssociate(old(out.Sent()), NewlineIf(newline), Encode(Blanks(erase)), AddressText(address, pos));
    }

    method RedrawNormal()
      requires Open() && mode == On && renderCursor <= cursor <= |buffer| && stage.screen.rows == rows
      modifies this`pos, this`renderCursor, this`lastWidth, out, out.buf
      ensures Open() && Repainted(old(Shown()), UntilNul(buffer + [0]), old(out.Sent()))
    {
      ghost var st := Shown();
      var data := Encode(UntilNul(buffer + [0]));
      MoveToPos(0);
      ghost var home := pos;
      assert out.Sent() == out.file;
      var ok := out.Write(data);
      ghost var newline, erase := FinishRedraw(Width(mode, width, buffer));
      RedrawOf(address, st, UntilNul(buffer + [0]), old(out.Sent()), home, newline, erase, pos, out.file);
    }

    method RedrawObscured()
      requires Open() && mode == Obscured && renderCursor <= cursor <= |buffer| && stage.screen.rows == rows
      modifies this`pos, this`renderCursor, this`lastWidth, out, out.buf
      ensures Open() && Repainted(old(Shown()), Visible(mode, buffer), old(out.Sent()))
    {
      ghost var st := Shown();
      MoveToPos(0);
      ghost var home := pos;
      assert out.Sent() == out.file;
      var wrWidth := |buffer|;
      WriteRepeated(42, wrWidth);
      assert Visible(mode, buffer) == Repeat(42, wrWidth);
      PlainWidth(mode, width, buffer);
      ghost var newline, erase := FinishRedraw(wrWidth);
      RedrawOf(address, st, Visible(mode, buffer), old(out.Sent()), home, newline, erase, pos, out.file);
    }

    /** The part of a redraw that depends on the echo mode. */
    method Paint() returns (ghost g: seq<uchar>)
      requires Open() && renderCursor <= cursor <= |buffer| && stage.screen.rows == rows
      modifies this`pos, this`renderCursor, this`lastWidth, out, out.buf
      ensures Open() && g == Painted(mode, buffer)
      ensures mode == Off ==> pos == old(pos) && renderCursor == old(renderCursor) && lastWidth == old(lastWidth)
      ensures mode == Off ==> out.count == old(out.count) && out.file == old(out.file)
      ensures mode != Off ==> Repainted(old(Shown()), g, old(out.Sent()))
    {
      g := Painted(mode, buffer);
      if mode == On {
        RedrawNormal();
      } else if mode == Obscured {
        RedrawObscured();
      }
    }

    /** nrl_render_redraw. */
    method Redraw()
      requires Valid()
      modifies this`pos, this`renderCursor, this`lastWidth, this`dirty, this`stage, out, out.buf
      ensures Valid() && stage == Redrawn(old(stage))
      ensures out.file == old(out.file) + PaintText(address, old(stage))
      ensures IsNarrow(old(stage)) && Tracked(old(stage)) ==> Tracked(stage)
    {
      hide OnTrack, InPicture, Encode, FeedAll, EndOfRedraw, Whole, AfterPrint, Target, RedrawText, IsNarrow;
      ghost var st, sent := stage, out.file;
      assert out.Sent() == sent;
      ghost var g := Paint();
      dirty := false;
      var ok := out.Flush();
      stage := AfterRedraw(st);
      if IsNarrow(st) && Tracked(st) {
        RedrawStaysTracked(st);
      }
      HeardRedraw(address, first, sent, |before|, st, stage, g, out.file);
    }

    /** nrl_render_sync_cursors, called when the line's cursor has been moved. */
    method SyncCursors()
      requires Open() && Heard(stage) && stage.screen.rows == rows && Anchored(first, stage)
      requires stage == Shown().(cursor := stage.cursor) && cursor <= |buffer|
      modifies this`pos, this`renderCursor, this`stage, out, out.buf
      ensures Valid() && stage == Synced(old(stage), cursor) && Follows(old(stage), stage)
      ensures out.file == old(out.file) + SyncText(address, old(stage), cursor)
    {
      hide OnTrack, InPicture, Shows, Printed, Encode;
      ghost var st, sent := stage, out.file;
      assert out.Sent() == sent;
      if mode != Off {
        MoveToPos(cursor);
      }
      var ok := out.Flush();
      stage := AfterSync(st, cursor);
      if IsNarrow(st) && Tracked(st) {
        SyncStaysTracked(st, cursor);
      }
      HeardSync(address, first, sent, |before|, st, cursor, out.file);
    }

    /** Set the line's cursor and let the renderer follow. */
    method SetCursor(to: nat)
      requires Valid() && to <= |buffer|
      modifies this`cursor, this`pos, this`renderCursor, this`stage, out, out.buf
      ensures Valid() && stage == Synced(old(stage), to) && Follows(old(stage), stage)
      ensures out.file == old(out.file) + SyncText(address, old(stage), to)
      ensures Zip() == Z.Split(buffer, to)
    {
      cursor := to;
      SyncCursors();
    }

    /** nrl_manip_insert_text. */
    method InsertText(text: seq<uchar>)
      requires Valid()
      modifies this`buffer, this`cursor, this`dirty, this`stage
      ensures Valid() && stage == old(stage).(line := buffer, cursor := cursor, dirty := true)
      ensures Zip() == Z.Insert(old(Zip()), text)
    {
      Z.EditsOfSplit(buffer, cursor, text);
      buffer := buffer[..cursor] + text + buffer[cursor..];
      cursor := cursor + |text|;
      dirty := true;
      stage := AfterEdit(stage, buffer, cursor);
    }

    /** escape_left. */
    method Left()
      requires Valid()
      modifies this`cursor, this`pos, this`renderCursor, this`stage, out, out.buf
      ensures Valid() && Follows(old(stage), stage)
      ensures out.file == old(out.file) + PressText(address, old(stage), KEY_LEFT)
      ensures Zip() == Z.Left(old(Zip())) && stage == Pressed(old(stage), KEY_LEFT)
    {
      hide OnTrack, InPicture, Synced, SyncText, Pressed, PressText, Follows, FeedAll, Anchored, Z.Split, Z.Line, Z.Left;
      MovesSync(address, stage);
      Z.MovesOfSplit(buffer, cursor);
      if cursor > 0 {
        SetCursor(cursor - 1);
      }
    }

    /** escape_right. */
    method Right()
      requires Valid()
      modifies this`cursor, this`pos, this`renderCursor, this`stage, out, out.buf
      ensures Valid() && Follows(old(stage), stage)
      ensures out.file == old(out.file) + PressText(address, old(stage), KEY_RIGHT)
      ensures Zip() == Z.Right(old(Zip())) && stage == Pressed(old(stage), KEY_RIGHT)
    {
      hide OnTrack, InPicture, Synced, SyncText, Pressed, PressText, Follows, FeedAll, Anchored, Z.Split, Z.Line, Z.Right;
      MovesSync(address, stage);
      Z.MovesOfSplit(buffer, cursor);
      if cursor < |buffer| {
        SetCursor(cursor + 1);
      }
    }

    /** escape_home. */
    method Home()
      requires Valid()
      modifies this`cursor, this`pos, this`renderCursor, this`stage, out, out.buf
      ensures Valid() && Follows(old(stage), stage)
      ensures out.file == old(out.file) + PressText(address, old(stage), KEY_HOME)
      ensures Zip() == Z.Home(old(Zip())) && stage == Pressed(old(stage), KEY_HOME)
    {
      hide OnTrack, InPicture, Synced, SyncText, Pressed, PressText, Follows, FeedAll, Anchored, Z.Split, Z.Line, Z.Home;
      MovesSync(address, stage);
      Z.MovesOfSplit(buffer, cursor);
      SetCursor(0);
    }

    /** escape_end. */
    method End()
      requires Valid()
      modifies this`cursor, this`pos, this`renderCursor, this`stage, out, out.buf
      ensures Valid() && Follows(old(stage), stage)
      ensures out.file == old(out.file) + PressText(address, old(stage), KEY_END)
      ensures Zip() == Z.End(old(Zip())) && stage == Pressed(old(stage), KEY_END)
    {
      hide OnTrack, InPicture, Synced, SyncText, Pressed, PressText, Follows, FeedAll, Anchored, Z.Split, Z.Line, Z.End;
      MovesSync(address, stage);
      Z.MovesOfSplit(buffer, cursor);
      SetCursor(|buffer|);
    }

    /** escape_delete. */
    method Delete()
      requires Valid()
      modifies this`buffer, this`dirty, this`stage
      ensures Valid() && Follows(old(stage), stage)
      ensures Zip() == Z.Delete(old(Zip())) && stage == Pressed(old(stage), KEY_DELETE)
    {
      // At the very end nothing is left to take out
      Z.EditsOfSplit(buffer, cursor, []);
      if cursor < |buffer| {
        buffer := buffer[..cursor] + buffer[cursor + 1..];
        dirty := true;
        stage := AfterEdit(stage, buffer, cursor);
      }
    }

    /** escape_backspace. */
    method Backspace()
      requires Valid()
      modifies this`buffer, this`cursor, this`dirty, this`pos, this`renderCursor, this`stage, out, out.buf
      ensures Valid() && Follows(old(stage), stage)
      ensures out.file == old(out.file) + PressText(address, old(stage), KEY_BACKSPACE)
      ensures Zip() == Z.Backspace(old(Zip())) && stage == Pressed(old(stage), KEY_BACKSPACE)
    {
      Z.BackspaceIsLeftThenDelete(Zip());
      if cursor > 0 {
        Left();
        Delete();
      }
    }

    /** nrl_manip_eval_escape. */
    method EvalEscape(key: nat)
      requires Valid()
      modifies this`buffer, this`cursor, this`dirty, this`pos, this`renderCursor, this`stage, out, out.buf
      ensures Valid() && Follows(old(stage), stage)
      ensures out.file == old(out.file) + PressText(address, old(stage), key)
      ensures Zip() == Z.Press(old(Zip()), key) && stage == Pressed(old(stage), key)
    {
      if key == KEY_BACKSPACE {
        Backspace();
      } else if key == KEY_LEFT {
        Left();
      } else if key == KEY_RIGHT {
        Right();
      } else if key == KEY_DELETE {
        Delete();
      } else if key == KEY_HOME {
        Home();
      } else if key == KEY_END {
        End();
      }
    }

    /** The state handed to a handler, and what it gives back. */
    method Consult(handler: C.Handler, saved: nat) returns (line: seq<uchar>, at: nat)
      requires saved <= |buffer| && 0 !in buffer && C.Behaves(handler, Z.Split(buffer, saved))
      ensures at <= |line| && Z.Split(line, at) == C.Handle(handler, Z.Split(buffer, saved))
      ensures 0 !in line
    {
      // The C string that is exported
      var ucLine := buffer + [0];
      C.NulFreeIsWhole(buffer);
      match handler {
        case Wide(func) =>
          var r := func(UntilNul(ucLine), saved);
          C.NulFreeIsWhole(r.0);
          line, at := UntilNul(r.0 + [0]), r.1;
        case Narrow(func) =>
          var utf8Line := Encode(UntilNul(ucLine));
          // Cut at the cursor, the encoding is as long as the byte cursor
          C.CutAtCursor(buffer, saved);
          ucLine := ucLine[saved := 0];
          var r := func(utf8Line, |Encode(UntilNul(ucLine))|);
          // And back: the bytes before the cursor, decoded, are as many characters as it says
          var decoded, before := Decode(r.0).value, Decode(r.0[..r.1]).value;
          C.DecodeBothSides(r.0, r.1);
          C.NulFreeIsWhole(decoded);
          C.NulFreeIsWhole(before);
          line, at := UntilNul(decoded + [0]), |UntilNul(before + [0])|;
      }
    }

    /** nrl_manip_eval_custom, once a handler has been found. */
    method EvalCustom(handler: C.Handler)
      requires Valid() && 0 !in buffer && C.Behaves(handler, Zip())
      modifies this`buffer, this`cursor, this`dirty, this`pos, this`renderCursor, this`stage, out, out.buf
      ensures Valid() && Follows(old(stage), stage)
      ensures out.file == old(out.file) + SyncText(address, old(stage), 0)
      ensures Zip() == C.Handle(handler, old(Zip())) && 0 !in buffer
      ensures stage == Synced(old(stage), 0).(line := buffer, cursor := cursor, dirty := true)
    {
      // Home first: no width of the old line is known afterwards
      var savedCursor := cursor;
      SetCursor(0);
      var imported, at := Consult(handler, savedCursor);
      ReplaceLine(imported, at);
    }

    /** A new line under a render cursor that has gone home. */
    method ReplaceLine(imported: seq<uchar>, at: nat)
      requires Valid() && renderCursor == 0 && at <= |imported|
      modifies this`buffer, this`cursor, this`dirty, this`stage
      ensures Valid() && stage == old(stage).(line := imported, cursor := at, dirty := true)
      ensures Zip() == Z.Split(imported, at) && buffer == imported && dirty
    {
      buffer, cursor, dirty := imported, at, true;
      stage := AfterEdit(stage, buffer, cursor);
    }

    /** The renderer's fields and the descriptor after a redraw of `st` that printed `g`. */
    ghost predicate Repainted(st: Stage, g: seq<uchar>, sent: seq<byte>)
      requires st.cols >= 1 && st.renderCursor <= |st.line| && st.cursor <= |st.line|
      reads this, out
    {
      && renderCursor == st.cursor && pos == EndOfRedraw(st) && lastWidth == Whole(st) && out.count == 0
      && out.file == sent + RedrawText(address, Target(st, 0), Encode(g), ForcesNewline(st.screen.rows, AfterPrint(st)),
                                       Erase(st.lastWidth, |st.line|), EndOfRedraw(st))
    }
  }

  /** What a redraw encodes. */
  function Painted(mode: EchoMode, s: seq<uchar>): seq<uchar> {
    if mode == On then UntilNul(s + [0]) else Visible(mode, s)
  }

  /** What the terminal makes of a redraw sent after everything else. */
  lemma HeardRedraw(fmt: AddressFormat, first: Screen, sent: seq<byte>, skip: nat,
                    st: SoundStage, r: Stage, g: seq<uchar>, file: seq<byte>)
    requires skip <= |sent| && r == Redrawn(st) && g == Painted(st.mode, st.line)
    requires st.mode != Off ==>
      file == sent + RedrawText(fmt, Target(st, 0), Encode(g), ForcesNewline(st.screen.rows, AfterPrint(st)),
                                Erase(st.lastWidth, |st.line|), EndOfRedraw(st))
    requires st.mode != Off && st.tracked && st.plain ==> FeedAll(Vt(first, []), sent[skip..]) == Vt(st.screen, [])
    ensures st.mode != Off && r.tracked && r.plain ==> FeedAll(Vt(first, []), file[skip..]) == Vt(r.screen, [])
  {
    if st.mode != Off && r.tracked && r.plain {
      PlainLineIsWhole(st.mode, st.width, st.line);
      PlainWidth(st.mode, st.width, st.line);
      var newline, erase := ForcesNewline(st.screen.rows, AfterPrint(st)), Erase(st.lastWidth, |st.line|);
      var text := RedrawText(fmt, Target(st, 0), Encode(g), newline, erase, EndOfRedraw(st));
      FeedMore(first, sent, skip, st.screen, file, text);
      FeedRedraw(fmt, st.screen, Target(st, 0), g, newline, erase, EndOfRedraw(st));
    }
  }

  lemma HeardSync(fmt: AddressFormat, first: Screen, sent: seq<byte>, skip: nat, st: SoundStage, to: nat, file: seq<byte>)
    requires skip <= |sent| && to <= |st.line|
    requires st.mode != Off ==> file == sent + AddressText(fmt, Target(st, to))
    requires st.mode != Off && st.tracked && st.plain ==> FeedAll(Vt(first, []), sent[skip..]) == Vt(st.screen, [])
    ensures st.mode != Off && Synced(st, to).tracked && st.plain ==>
              FeedAll(Vt(first, []), file[skip..]) == Vt(Synced(st, to).screen, [])
  {
    var p := Target(st, to);
    if st.mode != Off && Synced(st, to).tracked && st.plain {
      FeedMore(first, sent, skip, st.screen, file, AddressText(fmt, p));
      FeedAddress(fmt, st.screen, p);
    }
  }

  lemma FeedMore(first: Screen, sent: seq<byte>, skip: nat, s: Screen, file: seq<byte>, text: seq<byte>)
    requires skip <= |sent| && file == sent + text
    requires FeedAll(Vt(first, []), sent[skip..]) == Vt(s, [])
    ensures FeedAll(Vt(first, []), file[skip..]) == FeedAll(Vt(s, []), text)
  {
    DropOfConcat(sent, text, skip);
    FeedConcat(Vt(first, []), sent[skip..], text);
  }

  /** A line of glyphs holds no NUL. */
  lemma PlainLineIsWhole(mode: EchoMode, width: uchar -> nat, s: seq<uchar>)
    requires PlainLine(mode, width, s)
    ensures mode == On ==> UntilNul(s + [0]) == Visible(mode, s)
  {
    if mode == On {
      C.NulFreeIsWhole(s);
    }
  }

  /** The pieces sent make up the text of a redraw. */
  lemma RedrawOf(fmt: AddressFormat, st: Stage, g: seq<uchar>, sent: seq<byte>,
                 home: Pos, newline: bool, erase: nat, end: Pos, file: seq<byte>)
    requires st.cols >= 1 && st.screen.rows >= 1 && st.renderCursor <= |st.line| && st.cursor <= |st.line|
    requires home == Target(st, 0)
    requires end == Goal(st.mode, st.width, st.cols, st.line,
                         HandleScroll(st.screen.rows, Offset(home, st.cols, Whole(st))), |st.line|, st.cursor)
    requires newline == ForcesNewline(st.screen.rows, Offset(home, st.cols, Whole(st)))
    requires erase == Erase(st.lastWidth, |st.line|)
    requires file == sent + AddressText(fmt, home) + Encode(g)
                     + (NewlineIf(newline) + (Encode(Blanks(erase)) + AddressText(fmt, end)))
    ensures end == EndOfRedraw(st)
    ensures file == sent + RedrawText(fmt, Target(st, 0), Encode(g), ForcesNewline(st.screen.rows, AfterPrint(st)),
                                      Erase(st.lastWidth, |st.line|), EndOfRedraw(st))
  {
    hide Offset, HandleScroll, ForcesNewline, AddressText, Encode;
    assert st.line[..|st.line|] == st.line;
    FourAssociate(sent, AddressText(fmt, home), Encode(g),
                  NewlineIf(newline) + (Encode(Blanks(erase)) + AddressText(fmt, end)));
  }

  function Repeat(c: uchar, n: nat): seq<uchar> {
    seq<uchar>(n, i => c)
  }

  lemma RepeatStep(c: byte, n: nat)
    requires c < 0x80
    ensures Encode(Repeat(c, n + 1)) == Encode(Repeat(c, n)) + [c]
  {
    assert Repeat(c, n + 1) == Repeat(c, n) + [c];
    EncodeConcat(Repeat(c, n), [c]);
    EncodeSingle(c);
  }

  lemma WidthStep(mode: EchoMode, width: uchar -> nat, s: seq<uchar>, i: nat)
    requires i < |s|
    ensures Width(mode, width, s[..i + 1]) == Width(mode, width, s[..i]) + Cells(mode, width, s[i])
  {
    assert s[..i + 1][..i] == s[..i];
  }
}
