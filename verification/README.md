# A verified model of nanorl

nanorl is a small line editor: bytes from a descriptor go through a trie of key sequences
and a UTF-8 decoder, the resulting keys and characters edit a buffer of code points, and a
renderer keeps the terminal in step with the buffer by sending as little as it can. This
project models that whole chain in Dafny and proves what holds across its stages.

The stages change state in place in C, and they do so here: `Reader.Input`, `Dfa.Automaton`,
`Editor.Session`, `Output.Sink` and `Terminfo.Database` are classes whose methods follow the C
functions branch by branch. Each is proved against a specification on values, and the
specifications are what the theorems are about:

* `Dictionary`, `Tokens`: the input language as a function of the whole byte stream (preload,
  then input, then EOT for ever). It knows neither buffers nor chunks.
* `Zipper`, `Custom`: editing as a text before and a text after the cursor.
* `Terminal`, `Vt`: a terminal with deferred wrap, scrolling and cursor addressing, fed one byte
  at a time. `Picture`, `Stage`: what the renderer remembers, what the screen shows, and the
  invariant that ties the two together in every reachable state.
* `Format`: the terminfo parameter language, token by token. `Terminfo`: the file format.
* `Typed`, `Keys`, `Secrecy`: what all this comes to for the user, from bytes to lines and screens
  and without the names the program uses: characters and control codes, keys and what they
  do, and what the echo of a secret gives away. `Whole.TypeLine` types a line and sees it come back.

`Program.Call` is the summary. For any preload, any input, any way of splitting the input
into reads and any echo mode, it returns the encoding of the line that a pure zipper makes of
the token sequence. A `Reader.History`, which only `Reader.Input.Read` writes, records each call
of `nrl_io_read`: whether input was waiting in the buffer, and all that had been sent by
then. There is one such call for each token, so at most one per stream byte plus one. At each of
them that finds no input waiting, what a terminal makes of the bytes sent so far is the line
(or its stars) from where the cursor first was, blanks behind it as far as the longest
line shown before reached, everything else as it was, the cursor in its place, and
the screen scrolled exactly as far as that longest line needs. This last part holds as
long as the lines so far have been one-cell glyphs no wider than the rows above the last one.
Without that bound the renderer's own fallback loses the start of the line, and
`Picture.BaseStaysOnScreen` says exactly when. Within it the tracked position is right for glyphs
of any width.

## Where the code falls short of its intent

* src/io.c:205 moves pending bytes from `rd_buf + rd_count`, but they are at `rd_buf + rd_used`;
  the comment at lines 202-203 gives the intent. `Reader` is parameterised by the source of the
  move. Moved from `rd_used`, every read is right. Moved as written, a read overwrites the bytes
  pending at its last refill, and `Reader.Input.Read` says how many of them it hands back.
  `Refill.ReadIsRightIff`: whatever memory holds, the read is right exactly when that is none.
  `Refill.SurvivesIff` puts this in terms of what is in the buffer. A run goes right, whatever
  memory holds, exactly when each of its reads is of that kind: `Refill.RunIsRightIff`. Then
  `Program.Call` holds, and `Refill.CompleteIsClean` names streams on which every run is
  so, however they are split. `Fastload.ReadSplitEscape` is a read that
  goes wrong: ESC and `b` in two chunks are taken for a NUL and `b`.
* src/render.c:160 subtracts a count of characters from a width: `Stage.BlanksCoverIff`.
* src/render.c:270-273 gives up at the origin: `Stage.OffsetIsExact`, `Picture.BaseStaysOnScreen`.
* src/format.c:144 takes a printed zero for a failure: `Format.ReadBack` says exactly when a
  reply is read back. With `%i` every position from 0 is.
* src/format.c:43-86 prints nothing for `%%`, where terminfo(5) prints a percent sign. Among
  formats of literals, `%p`, `%i`, `%d` and `%%` that do not fail, `Format.StandardIff` says exactly
  which are affected; `Format.PercentIsLost` is the shortest of them.
* src/format.c:57-83 skips every other operator of terminfo(5) (`%c`, `%s`, `%x`, `%{..}`, widths
  and so on), as its comment says: `Format.OthersDoNothing`. So `%p1%c` prints nothing
  (`Format.CharacterIsLost`), where terminfo(5) prints a character.
* src/terminfo.c:375 reads past the strings of a short entry: `Terminfo.EntryLoadsIff`.
* src/dfa.c:33-36 keeps children and acceptor in a union, so sequences must be non-empty
  and none a proper prefix of another: `Dfa.UnionIsSafeIff`. `Fastload.KeyTablesFit` shows that
  keys of the usual shapes never collide.
* src/render.c:351-390 asks where the cursor is, which does not tell a terminal with a wrap
  pending from one without. So after a prompt that exactly fills its row the line starts on the
  prompt's last cell. `Nanorl.PromptKeptIff` says exactly which lines leave the prompt as it
  was, `Nanorl.PromptIsOverwritten` is a redraw that does not, on any screen of two rows or
  more, and by `Nanorl.PromptIsSafeIff` the prompt is safe from all lines that are shown iff no
  wrap was pending or there is only one row, on which then none can be.

## Model

| member | source | states |
|---|---|---|
| Program.Call | src/nanorl.c:88-176 | for any preload, input, chunking and echo mode, and whatever earlier calls built: the whole prompt is sent, and on the terminal, before the first read; the reply is that of the pure editor on the tokens of preload ++ input; there is one read per token and at most one per stream byte plus one, and at each recorded read that finds no input waiting the terminal shows the line, as long as the lines up to then fitted; with echo off nothing is sent between prompt and closing newline; with the refill as written, provided every read survives it |
| Whole.TypeLine | src/nanorl.c:88-176 | a preloaded line and one typed behind it, in whatever pieces, come back as one text, after one read for each character and one for the end; by the first read the prompt is on the terminal; whenever no input waits, the characters so far or as many asterisks stand where the cursor was; only an empty line ended by the input gives nothing |
| Program.PromptIsShown | src/nanorl.c:284-296 | the keypad sequence shows nothing and the prompt shows itself, glyph for glyph |
| Program.BuildAgain | src/nanorl.c:233-239 | building again on every call leaves the recognised map and the number of nodes as they are |
| Program.Serve | src/nanorl.c:282-315 | the loop on fresh buffers reads preload first and then the input, and achieves what a run should, as the record of its reads shows |
| Nanorl.ReadLine | src/nanorl.c:100-176 | for any registered sequences that are prefix-free and do not start with EOT, number of reads and reply follow from the stream alone; nothing is returned iff the input ends on an empty line, and otherwise a text that decodes to the line; at every recorded read that finds no input waiting the screen is exactly right, as long as the lines up to then fitted; what each pass sends is known byte for byte |
| Nanorl.Loop | src/nanorl.c:107-144 | the recorded reads are one for each token, in order, up to the first stop; at each of them what had been sent shows the line unless input was waiting, as long as the lines up to then fitted; line and stage stay in step |
| Nanorl.Round | src/nanorl.c:109-143 | one pass does what the token means to the line and redraws only when no input waits; then, if the lines up to now fitted, the terminal shows the line, and for glyphs of any width the tracked position is that of the render cursor |
| Nanorl.InsertReadable | src/nanorl.c:118-134 | an unhandled custom key inserts the caret form of its text |
| Nanorl.LookupIsTyped | src/nanorl.c:121-122 | the text looked up for a custom key is the very bytes of the stream that were matched, whatever tables were registered |
| Nanorl.UnhandledKeyIsShown | src/nanorl.c:118-134 | so an unhandled key that is not ignored goes into the line as the caret form of what was typed |
| Nanorl.StageIsDisplayed | src/render.c:81-110 | a clean stage means the bytes sent so far make a terminal show the line, with the cursor where the editor has it |
| Nanorl.PromptKeptIff | src/render.c:351-390 | a line on the screen leaves everything before it as it was, but for scrolling, iff no wrap was pending at the start or its first glyph is the one it was put on |
| Nanorl.PromptIsOverwritten | src/render.c:134-169 | on any screen of two rows or more with a wrap pending, a redraw that loses the last glyph of the prompt |
| Nanorl.PromptIsSafeIff | src/render.c:351-390 | all lines that are shown leave the prompt as it was iff no wrap was pending or there is only one row |
| Nanorl.StepToken | src/nanorl.c:110-138 | a token keeps line and stage in step, and the position tracked while lines are narrow enough |
| Nanorl.StepRedraw | src/nanorl.c:140-143 | so does a redraw, and what has been shown then extends as far as the longest line |
| Nanorl.AfterIsPrintable | src/nanorl.c:109-138 | unless a handler brings one in, no code point below 0x20 or equal to 0x7f is ever in the line |
| Nanorl.ReturnedIsWholeLine | src/nanorl.c:159-175 | the line holds no NUL, so the terminator cuts nothing off and decoding the reply gives the buffer back; without handled keys it is printable |
| Nanorl.ReturnedAnswers | src/nanorl.c:152-175 | nothing is returned iff the last token is an end of input and the line is empty; otherwise the text decodes to the line after all tokens |
| Nanorl.EchoModeIsInvisible | src/nanorl.c:298-303 | the reply is the same in all echo modes when no key that comes up has a handler |
| Secrecy.SecretsLookAlike | src/render.c:176-209 | two obscured runs on the same terminal whose lines agree in length and cursor have sent the same bytes by every moment, whatever their characters |
| Secrecy.SecretIsStars | src/render.c:189-193 | at every read of an obscured run that finds no input waiting each cell of the line is an asterisk |
| Secrecy.ShownGlyph | src/render.c:142-150 | with echo on each cell of a shown line is its own character |
| Secrecy.SecretIsKeptFromHandlers | src/nanorl.c:298-303 | in obscured and off mode no handler is consulted, whichever are configured |
| Secrecy.HandlersAreConsulted | src/nanorl.c:298-303 | with echo on the handlers are those configured |
| Secrecy.NothingIsSentWhileInputWaits | src/nanorl.c:140-143 | while input waits nothing but cursor keys sends anything |
| Secrecy.NothingIsRedrawnInVain | src/nanorl.c:140-143 | a key that only moves the cursor of a line already drawn sends its cursor address and no more |
| Typed.ControlIsRead | src/io.c:81-126 | newline stops, EOT stops as end of input, and any other control code is text in caret notation |
| Typed.CharacterIsRead | src/io.c:223-261 | the UTF-8 bytes of a printable code point are that code point, anywhere in the stream |
| Typed.BadByteIsReplaced | src/io.c:250-255 | where no code point is encoded one byte is taken for U+FFFD |
| Typed.ShortEncoding | src/io.c:226-247 | one byte up to 0x7F, and up to 0x7FF two with eleven bits, as RFC 3629 has it |
| Typed.MiddleEncoding | src/io.c:226-247 | three bytes with sixteen bits |
| Typed.LongEncoding | src/io.c:226-247 | four bytes with twenty-one bits |
| Typed.LineIsLexed | src/nanorl.c:109-113 | printable text and the end of its line are read as its characters and the stop, whatever keys are registered that start with a control code |
| Typed.TypedIsReturned | src/nanorl.c:152-175 | typed text is returned as it is, the empty line included; the end of input on an empty line is not |
| Typed.TypedIsShown | src/render.c:134-209 | and shown as it is, whenever no input waits |
| Typed.AsciiFits | src/render.c:263-281 | printable ASCII is text, and fits the screen iff it fits the rows above the last |
| Typed.CustomKeyMeans | src/nanorl.c:114-137 | a handled key is its handler's; another is ignored, or inserted in readable form, as configured |
| Typed.CaretOfByte | src/nanorl.c:123-133 | the readable form of a key goes byte by byte |
| Typed.HandlerDecides | src/manip.c:111-168 | a handler is given the whole line and the cursor in its format, and line and cursor are what it returns |
| Keys.XtermKeyMeans | src/fastload.c:19-21 | from the bytes of an xterm to the line: what Left, Right, Home, End, Delete and both Backspaces do, wherever they are typed |
| Keys.XtermCustomKeyMeans | src/fastload.c:33-39 | a custom key of an xterm without a handler is ignored or goes in as the readable form of what was typed |
| Keys.XtermCustomKeyIs | src/fastload.c:33-39 | which custom key the arrows, paging, insert, function and tab keys of an xterm are |
| Keys.CapabilityMeans | src/terminfo.c:68-75 | from a terminfo entry to the line: typing the text of a standard key's capability does what that key means |
| Keys.PlacesOfTables | src/terminfo.c:82-133 | which capability each place of the other tables holds |
| Keys.LoadEntry | src/nanorl.c:233-239 | loading a compiled entry and building makes the DFA of its capabilities |
| Nanorl.NextToken | src/io.c:60-96 | a read that hands back nothing overwritten takes exactly the next token of the stream |
| Nanorl.ReadToken | src/io.c:60-96 | so a run is right up to the first read that does, and reads are recorded one by one |
| Custom.DecodeBothSides | src/manip.c:144-152 | counting the code points before an imported byte cursor is the same as decoding the text on both sides of it |
| Custom.IdentityHandlers | src/manip.c:95-172 | a handler that changes nothing brings back line and cursor, in both formats, for every line without NUL |
| Custom.IdentityIsWellBehaved | include/escape.h:118-126 | such a handler keeps the promises handlers make |
| Custom.CutAtCursor | src/manip.c:120-125 | the NUL put at the cursor leaves exactly the text before it |
| Utf8.BoundaryIffDecodes | src/manip.c:148-152 | a byte position decodes without error iff it is on a code-point boundary, and then cuts the text there |
| Editor.Session.EvalCustom | src/manip.c:95-172 | a handler sees the NUL-free line and the cursor in its format, and the line becomes what it returned; the picture keeps its origin |
| Editor.Session.Consult | src/manip.c:111-168 | export and import in either format amount to cutting the text at the cursor |
| Editor.Session.InsertText | src/manip.c:52-61 | text goes in before the cursor; nothing of the drawn state changes |
| Editor.Session.Left | src/manip.c:182-187 | the cursor moves over one character; renderer and terminal follow it, even over text not drawn yet |
| Editor.Session.Right | src/manip.c:189-194 | likewise to the right |
| Editor.Session.Home | src/manip.c:206-209 | the cursor goes before the whole line, on the terminal too |
| Editor.Session.End | src/manip.c:211-214 | the cursor goes behind the whole line, on the terminal too |
| Editor.Session.Delete | src/manip.c:196-204 | the character at the cursor goes and is left to be redrawn; nothing happens at the end |
| Editor.Session.Backspace | src/manip.c:175-180 | the terminal steps back over the character before the cursor, which goes; nothing happens at the start |
| Editor.Session.EvalEscape | src/manip.c:63-73 | every standard key does what it means to the zipper, and to line, renderer and terminal |
| Editor.Session.SyncCursors | src/render.c:112-127 | the terminal and the tracked position follow the line's cursor, dirty or not |
| Editor.Session.Redraw | src/render.c:81-110 | a redraw takes the stage, terminal included, to the one that shows the line |
| Editor.Session.RedrawNormal | src/render.c:134-169 | exactly the address, line, forced newline, blanks and final address go out, in that order |
| Editor.Session.RedrawObscured | src/render.c:176-209 | the same with one star for each character, whatever the characters are |
| Editor.Session.MoveToPosNormal | src/render.c:217-241 | stepping over characters adds up to the difference of the widths before the two positions |
| Editor.Session.MoveToPosObscured | src/render.c:249-254 | the shortcut for stars goes to the same place as stepping would |
| Editor.Session.ScrollPosition | src/render.c:420-435 | the position is pulled back to the last row, after a newline iff the column is 0 |
| Editor.Session.MoveCursor | src/render.c:399-415 | the formatted cursor_address, whichever the terminal has, is all that is sent after everything buffered before |
| Editor.XtermAddresses | src/fastload.c:26-30 | the cursor_address of xterm moves a terminal to every row and column |
| Editor.FeedRedraw | src/render.c:134-209 | a byte-level terminal carries out the text of a redraw as a move, the glyphs, the line feed, the blanks and a move |
| Editor.HeardRedraw | src/render.c:81-110 | the terminal fed with everything sent is on the screen the stage says, after a redraw |
| Editor.HeardSync | src/render.c:112-127 | and after a cursor movement |
| Stage.AfterRedraw | src/render.c:134-209 | a redraw of any line over any other restores the tracking invariant for every width function while the start of the line is on the screen, and the whole picture for one-cell glyphs |
| Stage.AfterSync | src/render.c:112-126 | moving the cursor keeps the tracking invariant in dirty states too |
| Stage.AfterEdit | src/manip.c:52-61 | an edit behind the render cursor keeps it |
| Stage.TargetIsExact | src/render.c:217-241 | moving by width differences reaches base plus the width before the target, for any non-negative widths |
| Stage.EndIsExact | src/render.c:152-167 | after printing, scrolling and moving back the tracked position is that of the cursor |
| Stage.ScrollKeepsTrack | src/render.c:420-435 | handle_scroll shifts the coordinates by whole rows, keeps the column and forces a newline exactly at a full screen's edge |
| Stage.OffsetIsExact | src/render.c:263-281 | the linear form of the result is the sum iff the sum is not negative |
| Stage.SyncStaysTracked | src/render.c:217-281 | nor does moving the cursor within such a line, drawn or not |
| Stage.RedrawStaysTracked | src/render.c:263-281 | for any widths, redrawing a line no wider than the rows above the last never makes the renderer lose its start |
| Stage.BlanksCoverIff | src/render.c:159-163 | the blanks cover any longer line iff a line is at least as wide as it has characters, and never go beyond iff it is at most that wide |
| Stage.RedrawShows | src/render.c:134-209 | after a redraw every cell is accounted for: line, blanks over an older line, or what was there before |
| Picture.ScrollAgreement | src/render.c:420-435 | rows really scrolled by a deferred-wrap terminal plus the forced newline are rows_scrolled |
| Picture.ShiftsAddUp | src/render.c:420-435 | scrolling for one line after another comes to scrolling once for the longest |
| Picture.DrawAgrees | src/render.c:149-157 | printing a line leaves the old cells under it, shifted as the renderer computes |
| Picture.RepaintShows | src/render.c:146-163 | line and blanks together leave no trace of the earlier line |
| Picture.BaseStaysOnScreen | src/render.c:267-273 | the start of the line stays on the screen iff the line is no longer than the rows above the last plus its last row |
| Terminal.PrintsOnTape | src/render.c:149-150 | printing n cells writes them in reading order and scrolls whole rows, as few as possible |
| Vt.FeedMove | src/render.c:399-415 | the bytes of cursor_address move a terminal's cursor to the cell asked for |
| Vt.FeedText | src/render.c:149-150 | UTF-8 text sent byte by byte is printed code point by code point |
| Vt.ReportIsReadBack | src/render.c:377-387 | a cursor position report gives back every row and column from 0 |
| Reader.Input.Read | src/io.c:60-96 | the next token of the stream is returned and nothing else is lost, repeated or reordered; with the move as written exactly the stated numbers of bytes are handed back overwritten; `more` iff bytes are left; the call is recorded with what had been sent |
| Reader.Input.Parse | src/dfa.c:99-129 | the match is that of a map lookup over all prefixes, and exactly the bytes needed to decide are drawn |
| Reader.Input.NextChar | src/io.c:191-216 | the next byte of the stream, through any refill |
| Reader.Input.NextUChar | src/io.c:223-261 | one code point, or U+FFFD for one bad byte, and the bytes after it are handed back |
| Reader.Input.ReadWrapper | src/io.c:271-299 | preload first, then the descriptor, then EOT for ever; only an empty preload yields nothing |
| Reader.ViewAfterConsume | src/io.c:63-66 | handing back bytes leaves the stream as it was, but for what a refill overwrote |
| Tokens.Lex | src/nanorl.c:109-144 | every stream has finitely many tokens up to a stop, at most one per byte plus one |
| Tokens.StopsAtTheEnd | src/io.c:291-295 | an exhausted stream stops the loop with EOF |
| Tokens.AcceptedLength | src/dfa.c:105-128 | an accepted sequence is drawn exactly |
| Tokens.NoMatchBeyond | src/dfa.c:105-128 | a failure draws one byte past the longest matching path |
| Tokens.MatchIsUnique | src/dfa.c:99-129 | at most one registered sequence starts the rest of the stream |
| Tokens.TextIsPrintable | src/io.c:105-126 | text tokens never hold a control code |
| Refill.OverwrittenIff | src/io.c:204-213 | no byte drawn is overwritten iff all of them were in the buffer once the first was |
| Refill.ReadIsRightIff | src/io.c:202-260 | with the move as written, whatever memory holds, a read returns the right token and leaves the right stream iff neither the match nor the decoder hands back an overwritten byte |
| Refill.SurvivesIff | src/io.c:202-260 | that is so iff a sequence matches, or all bytes looked at were in the buffer and the code point is well-formed or lost at most its first byte |
| Refill.RunIsRightIff | src/io.c:202-260 | whatever memory holds, all reads of a run up to its stop return the right token and leave the right stream iff none of them hands back an overwritten byte |
| Refill.CompleteIsClean | src/io.c:202-213 | a stream on which every sequence or code point that starts also completes is read rightly by every run, however it is split |
| Dfa.Automaton.Insert | src/dfa.c:169-201 | the trie stands for the map with one more entry, through every growth; a known sequence adds no node |
| Dfa.Automaton.Build | src/dfa.c:71-97 | the trie stands for the tables registered in order; a table already known adds no node |
| Dfa.Automaton.Step | src/dfa.c:108-123 | one edge decides whether the bytes so far are a sequence, lead to one, or have left all of them |
| Dfa.SiblingsDiffer | src/dfa.c:175-191 | no two children of a node have the same edge |
| Dfa.LeavesAreSequences | src/dfa.c:112-116 | a node without children ends a registered sequence, and only such a node does |
| Dfa.NodesArePrefixes | src/dfa.c:169-201 | there is a node for exactly the prefixes of registered sequences |
| Dfa.RebuildIsStable | src/dfa.c:71-97 | the same tables fit again and change nothing |
| Dfa.CustomIsFromTable | src/dfa.c:89-95 | a sequence recognised as custom is the one its identifier stands for in the table of custom keys |
| Dfa.UnionIsSafeIff | src/dfa.c:33-36 | an insertion never takes an acceptor for children or children for an acceptor iff the sequence is not empty and neither prefix nor extension of another |
| Dictionary.RegisterAllMeaning | src/dfa.c:189-200 | every sequence ends up with its first custom flag and its last acceptor |
| Dictionary.OrderDoesNotMatter | src/dfa.c:71-97 | distinct sequences may be registered in any order |
| Fastload.KeyTablesFit | src/fastload.c:19-39 | key sequences of the usual shapes are prefix-free, whatever the table |
| Fastload.XtermAutomaton | src/fastload.c:19-39 | the xterm tables with the extra backspace make a DFA that can be read with and stops, all its keys have the usual shapes, and some start with ESC |
| Fastload.ReadSplitEscape | src/io.c:205 | a read that goes wrong: with the move as written, ESC and b in two chunks give ^@ first, not ^[ |
| Utf8.ParseIffEncoded | src/io.c:246-261 | a code point is decoded from exactly its encoding |
| Utf8.DecodeEncode | src/nanorl.c:170-175 | decoding an encoded text gives it back |
| Utf8.EncodeDecode | src/manip.c:144-146 | encoding a decoded text gives the bytes back |
| Format.Format | src/format.c:24-95 | the pointer loop prints what the token-by-token semantics prints, and fails when it does |
| Format.NullIffFaulty | src/format.c:56-83 | NULL iff some parameter digit is bad or some `%d` finds the stack empty |
| Format.StandardIff | src/format.c:43-86 | on a format of the fragment (literals, parameters, increment, decimal output and %%) that does not fail, the output is that of terminfo(5) iff the format has no %% |
| Format.PercentIsLost | src/format.c:56-83 | %% alone prints nothing instead of a percent sign |
| Format.OthersDoNothing | src/format.c:56-83 | any other operator prints nothing and pops nothing: the output is that of the format without it |
| Format.CharacterIsLost | src/format.c:56-83 | %p1%c prints nothing, for every parameter |
| Format.FormatPrints | src/format.c:43-94 | a format of literals, an optional `%i` and two parameters prints both, counted from 1 with `%i` |
| Format.Parse2 | src/format.c:97-162 | the matching loop reads what its specification on suffixes reads |
| Format.ReadBack | src/format.c:97-162 | reading what was printed succeeds iff neither printed number is zero, and then gives the parameters back |
| Format.StrtolOfDecimal | src/format.c:143 | a printed int32 is scanned back, up to the literal after it |
| Format.DecimalIsBaseTen | src/format.c:80 | numbers are printed in base ten, most significant digit first, with a minus sign when negative |
| Format.LastPushedFirst | src/format.c:58-82 | the parameter pushed last is printed first |
| Format.MismatchIsRejected | src/format.c:107-118 | data that does not go on with the literals of the format is rejected |
| Terminfo.Database.Parse | src/terminfo.c:304-358 | all four tables are filled from the sections of the file, or none is touched |
| Terminfo.SectionsOfFile | src/terminfo.c:304-342 | the offset and padding arithmetic finds strings and string table of every compiled entry, with 16-bit and with 32-bit numbers |
| Terminfo.HeaderBytes12 | src/terminfo.c:21-33 | an entry starts with octal 0432 or 01036 and five sizes, low bytes first |
| Terminfo.SectionBytes | src/terminfo.c:322-342 | names, flags, padding to an even byte, numbers of two or four bytes, offsets and strings follow in that order |
| Terminfo.EntryExists | src/terminfo.c:304-358 | any capabilities whose strings 16-bit offsets can reach have an encoding of either number size |
| Terminfo.WantedIff | src/terminfo.c:378-382 | a slot is filled exactly by a string that is present and not empty |
| Terminfo.SlotIsRightIff | src/terminfo.c:369-384 | a slot holds its capability, or nothing when it is absent, cancelled or empty, whatever is in memory, iff the entry has that many strings |
| Terminfo.EntryLoadsIff | src/terminfo.c:304-384 | an entry is loaded as it should be iff it has more strings than the largest index used |
| Output.Sink.Write | src/io.c:128-149 | bytes in the file plus bytes waiting are all that was written, in order, across buffered, overflowing and oversize writes; nothing is written with echo off |
| Output.Sink.Flush | src/io.c:162-175 | everything waiting reaches the file, or the buffer is kept |
| Zipper.MovesOfSplit | src/manip.c:182-214 | moving the cursor of a buffer is moving in the zipper |
| Zipper.EditsOfSplit | src/manip.c:52-61 | inserting and erasing at the cursor are the zipper's edits |

## Left out

- Editor.Session.Redraw: the picture is proved for glyphs of one cell; for other widths only the tracked coordinates, because the code's linear positions do not describe a wide glyph that wraps early.
- Nanorl.ReadLine: once a line has pushed its own start off the screen, or held a glyph that is not one cell wide, nothing more is claimed about the screen; what was claimed before and the reply are not affected.
- Nanorl.InsertReadable: bytes from 0x80 on are taken for the code points of the same number, as where char is unsigned; where it is signed, the conversion in the code gives no code point.
- Editor.Session.EvalCustom: handlers are functions of the state they are given and leave a UTF-8 cursor on a code-point boundary; the repair of other cursors depends on how the c-utils decoder reports errors.
- Reader.Input.Read: sequences are at most as long as the buffer, as the comment in the code assumes.
- Nanorl.Loop: with the refill as written, a run in which some read hands back overwritten bytes depends on what memory holds; what a single such read does is modelled, the rest of the run is not.
- Format.Format: a format that ends in a bare `%` is read past its end in the code and is not modelled; arguments wrap as int32_t.
- Dfa.Automaton: nodes live in one sequence and children are indices; memory addresses and realloc are not modelled.
- Editor.Session: the line and the renderer's static variables are one object; positions are unbounded, so overflow of the 32-bit positions is not modelled.
- Output.Sink.Write: `wr_count + length` does not overflow, which needs a write of almost 4 GiB.
- utf8_*, ucwidth, vector and stack come from c-utils, which is not part of this repository: UTF-8 is that of RFC 3629, widths are any function, vectors are sequences.
- The terminal's driver turns a line feed into carriage return and line feed, and the terminal shows no combining or wide glyphs.
- Resizing, the size query and the loop that collects a cursor position report: the first position and the size are given.
- Dumb terminals, and the smartness test, which indexes the output table with indices of other tables.
- Signals and EINTR, termios, isatty, failing system calls, opening and searching terminfo files, environment variables.
- Debug printing, buffer wiping, allocation failure, freeing, argument checks, filling the handler table.
