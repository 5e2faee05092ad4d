/** What the keys of a terminal do to a line, from the bytes they send. */
module Keys {
  import opened Bytes
  import opened Utf8
  import opened Dictionary
  import opened Dfa
  import opened Tokens
  import opened Fastload
  import opened Reader
  import opened Typed
  import opened Custom
  import opened Nanorl
  import opened Program
  import T = Terminfo
  import Z = Zipper

  // Cursor movements and deletions, spelt out

  function ToLeft(z: Z.Zipper): Z.Zipper {
    if z.before == [] then z
    else Z.Zipper(z.before[..|z.before| - 1], [z.before[|z.before| - 1]] + z.after)
  }

  function ToRight(z: Z.Zipper): Z.Zipper {
    if z.after == [] then z else Z.Zipper(z.before + [z.after[0]], z.after[1..])
  }

  function ToStart(z: Z.Zipper): Z.Zipper {
    Z.Zipper([], z.before + z.after)
  }

  function ToEnd(z: Z.Zipper): Z.Zipper {
    Z.Zipper(z.before + z.after, [])
  }

  function WithoutNext(z: Z.Zipper): Z.Zipper {
    if z.after == [] then z else Z.Zipper(z.before, z.after[1..])
  }

  function WithoutLast(z: Z.Zipper): Z.Zipper {
    if z.before == [] then z else Z.Zipper(z.before[..|z.before| - 1], z.after)
  }

  /** What the key with this terminfo capability does: key_left, key_right, key_backspace, key_home, key_end, key_dc. */
  function KeyMeans(capability: nat, z: Z.Zipper): Z.Zipper {
    if capability == 79 then ToLeft(z)
    else if capability == 83 then ToRight(z)
    else if capability == 55 then WithoutLast(z)
    else if capability == 76 then ToStart(z)
    else if capability == 164 then ToEnd(z)
    else if capability == 59 then WithoutNext(z)
    else z
  }

  /** The key in this place of the input table. */
  function CapabilityAt(i: nat): nat {
    if i == 0 then 79 else if i == 1 then 83 else if i == 2 then 55
    else if i == 3 then 76 else if i == 4 then 164 else 59
  }

  lemma PlaceMeans(cfg: Settings, z: Z.Zipper, i: nat)
    requires Usable(cfg) && 0 !in Z.Line(z) && i < 6
    ensures Do(cfg, z, Key(i)) == KeyMeans(CapabilityAt(i), z)
  {
  }

  // Tables

  ghost predicate OnlyAt(table: seq<Option<seq<byte>>>, i: nat, w: seq<byte>) {
    i < |table| && table[i] == Some(w) && forall j :: 0 <= j < |table| && table[j] == Some(w) ==> j == i
  }

  lemma {:induction false} EntryIsThere(table: seq<Option<seq<byte>>>, custom: bool, i: nat, w: seq<byte>)
    requires i < |table| && table[i] == Some(w)
    ensures Registration(w, i, custom) in Entries(table, custom)
  {
    var n := |table| - 1;
    if i < n {
      EntryIsThere(table[..n], custom, i, w);
    }
  }

  /** A text that stands for one key only is recognised as that key. */
  lemma KeyIsKnown(inputs: seq<Option<seq<byte>>>, xterm: bool, customs: seq<Option<seq<byte>>>, i: nat, w: seq<byte>)
    requires OnlyAt(inputs, i, w) && Some(w) !in customs && (xterm && w == [8] ==> i == 2)
    ensures
      var d := RegisterAll(map[], BuildTable(inputs, xterm, customs));
      w in d && d[w] == Entry(false, i)
  {
    var rs, first := BuildTable(inputs, xterm, customs), Entries(inputs, false);
    EntryIsThere(inputs, false, i, w);
    var p :| 0 <= p < |first| && first[p] == Registration(w, i, false);
    assert rs[p] == first[p];
    RegisterAllMeaning(map[], rs, w);
    KeyIsOne(inputs, xterm, customs, i, w, Dictionary.First(rs, w));
    KeyIsOne(inputs, xterm, customs, i, w, Last(rs, w));
  }

  lemma KeyIsOne(inputs: seq<Option<seq<byte>>>, xterm: bool, customs: seq<Option<seq<byte>>>, i: nat, w: seq<byte>, p: int)
    requires OnlyAt(inputs, i, w) && Some(w) !in customs && (xterm && w == [8] ==> i == 2)
    requires 0 <= p < |BuildTable(inputs, xterm, customs)| && BuildTable(inputs, xterm, customs)[p].sequence == w
    ensures BuildTable(inputs, xterm, customs)[p].id == i && !BuildTable(inputs, xterm, customs)[p].custom
  {
    var rs, first := BuildTable(inputs, xterm, customs), Entries(inputs, false);
    BuildTableAt(inputs, xterm, customs, p);
    if p < |first| {
      EntriesAreTable(inputs, false, p);
      assert rs[p] == first[p];
    }
  }

  /** On an xterm the byte 8 is the backspace key as well. */
  lemma ExtraBackspaceIsKnown(inputs: seq<Option<seq<byte>>>, customs: seq<Option<seq<byte>>>)
    requires Some([8]) !in inputs && Some([8]) !in customs
    ensures
      var d := RegisterAll(map[], BuildTable(inputs, true, customs));
      [8] in d && d[[8]] == Entry(false, 2)
  {
    var rs, first, w := BuildTable(inputs, true, customs), Entries(inputs, false), [8];
    assert rs[|first|] == Registration(w, 2, false);
    RegisterAllMeaning(map[], rs, w);
    var i, j := Dictionary.First(rs, w), Last(rs, w);
    assert j >= 0;
    ExtraIsOne(inputs, customs, i);
    ExtraIsOne(inputs, customs, j);
  }

  lemma {:induction false} NotAmongEntries(table: seq<Option<seq<byte>>>, custom: bool, w: seq<byte>, p: nat)
    requires Some(w) !in table && p < |Entries(table, custom)|
    ensures Entries(table, custom)[p].sequence != w
  {
    EntriesAreTable(table, custom, p);
  }

  lemma ExtraIsOne(inputs: seq<Option<seq<byte>>>, customs: seq<Option<seq<byte>>>, p: nat)
    requires Some([8]) !in inputs && Some([8]) !in customs && p < |BuildTable(inputs, true, customs)|
    ensures BuildTable(inputs, true, customs)[p].sequence == [8] ==>
              BuildTable(inputs, true, customs)[p] == Registration([8], 2, false)
  {
    var rs, first, last := BuildTable(inputs, true, customs), Entries(inputs, false), Entries(customs, true);
    if p < |first| {
      NotAmongEntries(inputs, false, [8], p);
      assert rs[p] == first[p];
    } else if p > |first| {
      NotAmongEntries(customs, true, [8], p - |first| - 1);
      assert rs[p] == last[p - |first| - 1];
    }
  }

  /** Where the text of a known key comes next, that key is the token, and all of its text is taken. */
  lemma KeyIsRead(d: Dict, w: seq<byte>, i: nat, s: seq<byte>, pos: nat)
    requires PrefixFree(d) && w in d && d[w] == Entry(false, i) && Window(s, pos, |w|) == w
    ensures TokenAt(d, s, pos) == Lexeme(Key(i), |w|)
  {
    MatchIsUnique(d, s, pos, |w|);
    assert w != [];
  }

  /** Fitting tables make a dictionary in which no sequence extends another. */
  lemma FittingIsPrefixFree(rs: seq<Registration>)
    requires TableFits(map[], rs)
    ensures PrefixFree(RegisterAll(map[], rs))
  {
    var d := RegisterAll(map[], rs);
    forall k | k in d ensures Last(rs, k) >= 0 && k != [] {
      RegisterAllMeaning(map[], rs, k);
      assert Insertable(map[], rs[Last(rs, k)].sequence);
    }
    RegisterAllMeaning(map[], rs, []);
    forall k, l | k in d && l in d && Comparable(k, l) ensures k == l {
      assert rs[Last(rs, k)].sequence == k && rs[Last(rs, l)].sequence == l;
    }
  }

  // xterm

  lemma XtermPlaces()
    ensures OnlyAt(XTERM_INPUTS, 0, [27, 79, 68]) && OnlyAt(XTERM_INPUTS, 1, [27, 79, 67])
    ensures OnlyAt(XTERM_INPUTS, 2, [127]) && OnlyAt(XTERM_INPUTS, 3, [27, 79, 72])
    ensures OnlyAt(XTERM_INPUTS, 4, [27, 79, 70]) && OnlyAt(XTERM_INPUTS, 5, [27, 91, 51, 126])
    ensures Some([8]) !in XTERM_INPUTS
  {
  }

  lemma XtermArrowsAreNotCustom()
    ensures Some([27, 79, 68]) !in XTERM_CUSTOMS && Some([27, 79, 67]) !in XTERM_CUSTOMS
  {
  }

  lemma XtermEndsAreNotCustom()
    ensures Some([27, 79, 72]) !in XTERM_CUSTOMS && Some([27, 79, 70]) !in XTERM_CUSTOMS
  {
  }

  lemma XtermDeletionsAreNotCustom()
    ensures Some([127]) !in XTERM_CUSTOMS && Some([8]) !in XTERM_CUSTOMS && Some([27, 91, 51, 126]) !in XTERM_CUSTOMS
  {
  }

  /** From the bytes of an xterm to the line: what each of the standard keys does, wherever it is typed. */
  lemma XtermKeyMeans(cfg: Settings, z: Z.Zipper, w: seq<byte>, capability: nat, s: seq<byte>, pos: nat)
    requires Usable(cfg) && 0 !in Z.Line(z) && Window(s, pos, |w|) == w
    requires || (w == [27, 79, 68] && capability == 79) || (w == [27, 79, 67] && capability == 83)
             || ((w == [127] || w == [8]) && capability == 55) || (w == [27, 79, 72] && capability == 76)
             || (w == [27, 79, 70] && capability == 164) || (w == [27, 91, 51, 126] && capability == 59)
    ensures
      var l := TokenAt(XtermDict(), s, pos);
      l.length == |w| && Proper(l.token) && Do(cfg, z, l.token) == KeyMeans(capability, z)
  {
    XtermIsReadable();
    hide OnlyAt, BuildTable, RegisterAll;
    XtermPlaces();
    XtermArrowsAreNotCustom();
    XtermEndsAreNotCustom();
    XtermDeletionsAreNotCustom();
    var i: nat := if capability == 79 then 0 else if capability == 83 then 1 else if capability == 55 then 2
                  else if capability == 76 then 3 else if capability == 164 then 4 else 5;
    if w == [8] {
      ExtraBackspaceIsKnown(XTERM_INPUTS, XTERM_CUSTOMS);
    } else {
      KeyIsKnown(XTERM_INPUTS, true, XTERM_CUSTOMS, i, w);
    }
    KeyIsRead(XtermDict(), w, i, s, pos);
    PlaceMeans(cfg, z, i);
  }

  ghost predicate QuietTable(table: seq<Option<seq<byte>>>) {
    forall i :: 0 <= i < |table| && table[i].Some? ==> StartsWithControl(table[i].value)
  }

  lemma QuietTables(inputs: seq<Option<seq<byte>>>, customs: seq<Option<seq<byte>>>, k: seq<byte>)
    requires QuietTable(inputs) && QuietTable(customs) && k in RegisterAll(map[], BuildTable(inputs, true, customs))
    ensures StartsWithControl(k)
  {
    var rs, first := BuildTable(inputs, true, customs), Entries(inputs, false);
    RegisterAllMeaning(map[], rs, k);
    var p := Last(rs, k);
    BuildTableAt(inputs, true, customs, p);
    if p < |first| {
      EntriesAreTable(inputs, false, p);
      assert rs[p] == first[p];
    }
  }

  lemma XtermTablesAreQuiet()
    ensures QuietTable(XTERM_INPUTS) && QuietTable(XTERM_CUSTOMS)
  {
  }

  /** The keys of an xterm all start with a control code that is none of newline and EOT. */
  lemma XtermIsQuiet()
    ensures Quiet(XtermDict())
  {
    hide StartsWithControl, BuildTable, RegisterAll, QuietTable;
    XtermIsReadable();
    XtermTablesAreQuiet();
    forall k | k in XtermDict() ensures StartsWithControl(k) {
      QuietTables(XTERM_INPUTS, XTERM_CUSTOMS, k);
    }
  }

  lemma CustomIsKnown(inputs: seq<Option<seq<byte>>>, customs: seq<Option<seq<byte>>>, i: nat, w: seq<byte>)
    requires OnlyAt(customs, i, w) && Some(w) !in inputs && w != [8]
    ensures
      var d := RegisterAll(map[], BuildTable(inputs, true, customs));
      w in d && d[w] == Entry(true, i)
  {
    var rs, last := BuildTable(inputs, true, customs), Entries(customs, true);
    EntryIsThere(customs, true, i, w);
    var p :| 0 <= p < |last| && last[p] == Registration(w, i, true);
    assert rs[|rs| - |last| + p] == last[p];
    RegisterAllMeaning(map[], rs, w);
    CustomIsOne(inputs, customs, i, w, Dictionary.First(rs, w));
    CustomIsOne(inputs, customs, i, w, Last(rs, w));
  }

  lemma CustomIsOne(inputs: seq<Option<seq<byte>>>, customs: seq<Option<seq<byte>>>, i: nat, w: seq<byte>, p: int)
    requires OnlyAt(customs, i, w) && Some(w) !in inputs && w != [8] && 0 <= p < |BuildTable(inputs, true, customs)|
    ensures
      var r := BuildTable(inputs, true, customs)[p];
      r.sequence == w ==> r.id == i && r.custom
  {
    var rs, first := BuildTable(inputs, true, customs), Entries(inputs, false);
    BuildTableAt(inputs, true, customs, p);
    if p < |first| {
      NotAmongEntries(inputs, false, w, p);
      assert rs[p] == first[p];
    }
  }

  predicate IsCustomKey(w: seq<byte>, i: nat) {
    || (w == [27, 79, 65] && i == 27) || (w == [27, 79, 66] && i == 4) || (w == [9] && i == 28)
    || (w == [27, 79, 80] && i == 9) || (w == [27, 79, 81] && i == 10)
    || (w == [27, 79, 82] && i == 11) || (w == [27, 79, 83] && i == 12)
    || (w == [27, 91, 50, 126] && i == 19) || (w == [27, 91, 54, 126] && i == 22) || (w == [27, 91, 53, 126] && i == 23)
  }

  lemma XtermCustomPlaces(w: seq<byte>, i: nat)
    requires IsCustomKey(w, i)
    ensures OnlyAt(XTERM_CUSTOMS, i, w)
  {
  }

  lemma XtermCustomsAreNoInputs(w: seq<byte>, i: nat)
    requires IsCustomKey(w, i)
    ensures Some(w) !in XTERM_INPUTS && w != [8]
  {
  }

  /** Up, Down and Tab, F1 to F4, and Insert, PageDown and PageUp of an xterm are the custom keys with these identifiers. */
  lemma XtermCustomKeyIs(w: seq<byte>, i: nat, s: seq<byte>, pos: nat)
    requires IsCustomKey(w, i) && Window(s, pos, |w|) == w
    ensures TokenAt(XtermDict(), s, pos) == Lexeme(Tokens.Custom(i), |w|)
  {
    hide OnlyAt, BuildTable, RegisterAll, IsCustomKey;
    XtermIsReadable();
    XtermCustomPlaces(w, i);
    XtermCustomsAreNoInputs(w, i);
    CustomIsKnown(XTERM_INPUTS, XTERM_CUSTOMS, i, w);
    MatchIsUnique(XtermDict(), s, pos, |w|);
  }

  /** A custom key of an xterm that has no handler is ignored, or goes in as the readable form of what was typed. */
  lemma XtermCustomKeyMeans(ignoreDefault: bool, handlers: map<nat, Handler>, z: Z.Zipper, s: seq<byte>, pos: nat)
    requires Usable(XtermSettings(ignoreDefault, handlers)) && 0 !in Z.Line(z)
    ensures
      var cfg, l := XtermSettings(ignoreDefault, handlers), TokenAt(XtermDict(), s, pos);
      Proper(l.token) && (l.token.Custom? && l.token.custom !in handlers ==>
        Do(cfg, z, l.token)
        == if ignoreDefault then z else Z.Zipper(z.before + Z.Caret(Window(s, pos, l.length)), z.after))
  {
    var cfg, l := XtermSettings(ignoreDefault, handlers), TokenAt(XtermDict(), s, pos);
    TokenIsProper(XtermDict(), s, pos);
    LookupIsTyped(XTERM_INPUTS, true, XTERM_CUSTOMS, s, pos);
    if l.token.Custom? {
      CustomKeyMeans(cfg, z, l.token.custom);
    }
  }

  // terminfo

  /** The tables parse fills from an entry with these capabilities. */
  function LoadedInputs(caps: seq<T.Cap>): seq<Option<seq<byte>>> {
    T.WantedAll(caps, T.INPUT_INDICES)
  }

  function LoadedCustoms(caps: seq<T.Cap>): seq<Option<seq<byte>>> {
    T.WantedAll(caps, T.CUSTOM_INDICES)
  }

  lemma OwnTextIsOnly(caps: seq<T.Cap>, i: nat)
    requires i < 6
    requires var c := CapabilityAt(i);
      && c < |caps| && caps[c].Text? && caps[c].text != []
      && (forall j: nat :: j < 6 && j != i ==> T.Wanted(caps, CapabilityAt(j)) != Some(caps[c].text))
      && (forall j: nat :: j < 29 ==> T.Wanted(caps, CustomCapability(j)) != Some(caps[c].text))
    ensures
      var w := caps[CapabilityAt(i)].text;
      OnlyAt(LoadedInputs(caps), i, w) && Some(w) !in LoadedCustoms(caps)
  {
    var w := caps[CapabilityAt(i)].text;
    forall j: nat | j < 6 ensures LoadedInputs(caps)[j] == T.Wanted(caps, CapabilityAt(j)) {
    }
    assert LoadedInputs(caps)[i] == T.Wanted(caps, CapabilityAt(i)) == Some(w);
    forall j | 0 <= j < 6 && LoadedInputs(caps)[j] == Some(w) ensures j == i {
      assert T.Wanted(caps, CapabilityAt(j)) == Some(w);
    }
    PlacesOfTables(caps);
    forall j: nat | j < 29 ensures LoadedCustoms(caps)[j] != Some(w) {
      assert LoadedCustoms(caps)[j] == T.Wanted(caps, CustomCapability(j));
    }
  }

  /**
   * From a terminfo entry to the line: once the tables of an entry have been built, typing the
   * text of a standard key's capability does what that key means, if the tables fit the DFA and
   * no other key has the same text.
   */
  lemma CapabilityMeans(cfg: Settings, z: Z.Zipper, caps: seq<T.Cap>, xterm: bool, i: nat, s: seq<byte>, pos: nat)
    requires Usable(cfg) && 0 !in Z.Line(z) && i < 6
    requires var c := CapabilityAt(i);
      && c < |caps| && caps[c].Text? && caps[c].text != []
      && (forall j: nat :: j < 6 && j != i ==> T.Wanted(caps, CapabilityAt(j)) != Some(caps[c].text))
      && (forall j: nat :: j < 29 ==> T.Wanted(caps, CustomCapability(j)) != Some(caps[c].text))
    requires xterm && caps[CapabilityAt(i)].text == [8] ==> CapabilityAt(i) == 55
    requires Window(s, pos, |caps[CapabilityAt(i)].text|) == caps[CapabilityAt(i)].text
    requires TableFits(map[], BuildTable(LoadedInputs(caps), xterm, LoadedCustoms(caps)))
    ensures
      var l := TokenAt(RegisterAll(map[], BuildTable(LoadedInputs(caps), xterm, LoadedCustoms(caps))), s, pos);
      && l.length == |caps[CapabilityAt(i)].text| && Proper(l.token)
      && Do(cfg, z, l.token) == KeyMeans(CapabilityAt(i), z)
  {
    hide LoadedInputs, LoadedCustoms, BuildTable, RegisterAll;
    var w, table := caps[CapabilityAt(i)].text, BuildTable(LoadedInputs(caps), xterm, LoadedCustoms(caps));
    OwnTextIsOnly(caps, i);
    KeyIsKnown(LoadedInputs(caps), xterm, LoadedCustoms(caps), i, w);
    FittingIsPrefixFree(table);
    KeyIsRead(RegisterAll(map[], table), w, i, s, pos);
    PlaceMeans(cfg, z, i);
  }

  /** nrl_load_terminfo and nrl_dfa_build on a compiled entry. */
  method LoadEntry(file: seq<byte>, m: T.Memory, xterm: bool, ghost c: T.Compiled, ghost caps: seq<T.Cap>, ghost tail: seq<byte>)
    returns (dfa: Automaton)
    requires T.Fits(c) && T.Encodes(c, caps) && |caps| > 294 && file == T.File(c) + tail
    requires TableFits(map[], BuildTable(LoadedInputs(caps), xterm, LoadedCustoms(caps)))
    ensures fresh(dfa) && dfa.Valid()
    ensures dfa.Dict() == RegisterAll(map[], BuildTable(LoadedInputs(caps), xterm, LoadedCustoms(caps)))
  {
    hide T.File, T.Sections, T.Slots, T.WantedAll, T.Fits, T.Encodes, BuildTable, TableFits, RegisterAll;
    T.EntryLoadsIff(c, caps, tail);
    assert T.Loads(file, m, caps);
    var database := new T.Database();
    var ok := database.Parse(file, m);
    dfa := new Automaton();
    dfa.Build(database.inputs[..], xterm, database.customs[..]);
  }

  /** The capability of a custom key: key_catab to key_up without the standard ones, key_f10 behind key_f9, and tab. */
  function CustomCapability(j: nat): nat {
    if j < 3 then 56 + j
    else if j < 9 then 57 + j
    else if j == 9 then 66
    else if j < 18 then 58 + j
    else if j == 18 then 67
    else if j < 21 then 58 + j
    else if j < 24 then 59 + j
    else if j < 28 then 60 + j
    else 134
  }

  /** The other tables, place by place: the custom keys; keypad_local and keypad_xmit; cursor_address, user6 and user7. */
  lemma PlacesOfTables(caps: seq<T.Cap>)
    ensures |LoadedCustoms(caps)| == 29
    ensures forall j: nat :: j < 29 ==> LoadedCustoms(caps)[j] == T.Wanted(caps, CustomCapability(j))
    ensures
      var t := T.WantedAll(caps, T.OUTPUT_INDICES);
      |t| == 2 && t[0] == T.Wanted(caps, 88) && t[1] == T.Wanted(caps, 89)
    ensures
      var t := T.WantedAll(caps, T.SPECIAL_INDICES);
      |t| == 3 && t[0] == T.Wanted(caps, 10) && t[1] == T.Wanted(caps, 293) && t[2] == T.Wanted(caps, 294)
  {
    forall j: nat | j < 29 ensures T.CUSTOM_INDICES[j] == CustomCapability(j) {
    }
  }
}
