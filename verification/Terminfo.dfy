/**
 * Compiled terminfo entries, as term(5) describes them ("Legacy Storage Format" and the
 * variant with 32-bit numbers), and how src/terminfo.c reads them on a little-endian host.
 */
module Terminfo {
  import opened Bytes
  import opened Utf8
  import opened Arithmetic

  const MAGIC_INT16: int := 0x11A
  const MAGIC_INT32: int := 0x21E

  const INPUT_INDICES: seq<nat> := [79, 83, 55, 76, 164, 59]
  const CUSTOM_INDICES: seq<nat> := [56, 57, 58, 60, 61, 62, 63, 64, 65, 66, 68, 69, 70, 71, 72, 73, 74, 75, 67,
                                    77, 78, 80, 81, 82, 84, 85, 86, 87, 134]
  const OUTPUT_INDICES: seq<nat> := [88, 89]
  const SPECIAL_INDICES: seq<nat> := [10, 293, 294]

  // The format

  /** A string capability of an entry. */
  datatype Cap = Absent | Cancelled | Text(text: seq<byte>)

  /** The sections of a compiled entry. */
  datatype Compiled = Compiled(wide: bool, names: seq<byte>, flags: seq<byte>, numbers: seq<int>,
                               offsets: seq<int>, table: seq<byte>)

  function Bytes16(v: int): (b: seq<byte>)
    ensures |b| == 2
  {
    [v % 256, v / 256 % 256]
  }

  function Bytes32(v: int): (b: seq<byte>)
    ensures |b| == 4
  {
    Bytes16(v) + Bytes16(v / 0x1_0000)
  }

  function All16(vs: seq<int>): (b: seq<byte>)
    ensures |b| == 2 * |vs|
  {
    if vs == [] then [] else Bytes16(vs[0]) + All16(vs[1..])
  }

  function All32(vs: seq<int>): (b: seq<byte>)
    ensures |b| == 4 * |vs|
  {
    if vs == [] then [] else Bytes32(vs[0]) + All32(vs[1..])
  }

  function Header(c: Compiled): seq<int> {
    [if c.wide then MAGIC_INT32 else MAGIC_INT16, |c.names|, |c.flags|, |c.numbers|, |c.offsets|, |c.table|]
  }

  function Numbers(c: Compiled): seq<byte> {
    if c.wide then All32(c.numbers) else All16(c.numbers)
  }

  /** Numbers start on an even byte. */
  function Padding(c: Compiled): seq<byte> {
    if (|c.names| + |c.flags|) % 2 == 1 then [0] else []
  }

  function Middle(c: Compiled): seq<byte> {
    c.names + c.flags + Padding(c) + Numbers(c)
  }

  function File(c: Compiled): seq<byte> {
    All16(Header(c)) + (Middle(c) + (All16(c.offsets) + c.table))
  }

  /** Section sizes are unsigned, and offsets signed, 16-bit numbers. */
  predicate Fits(c: Compiled) {
    && |c.names| < 0x1_0000 && |c.flags| < 0x1_0000 && |c.numbers| < 0x1_0000
    && |c.offsets| < 0x1_0000 && |c.table| < 0x1_0000
    && forall i :: 0 <= i < |c.offsets| ==> IsInt16(c.offsets[i])
  }

  predicate IsInt16(v: int) {
    -0x8000 <= v < 0x8000
  }

  /** A string of the table that starts at `off`. */
  predicate StringAt(table: seq<byte>, off: int, s: seq<byte>) {
    && 0 <= off && off + |s| < |table|
    && table[off..off + |s|] == s && table[off + |s|] == 0 && 0 !in s
  }

  predicate Laid(table: seq<byte>, off: int, cap: Cap) {
    match cap
    case Absent => off == -1
    case Cancelled => off == -2
    case Text(s) => StringAt(table, off, s)
  }

  /** Offsets and string table stand for these capabilities; strings may overlap. */
  predicate Encodes(c: Compiled, caps: seq<Cap>) {
    |c.offsets| == |caps| && forall i :: 0 <= i < |caps| ==> Laid(c.table, c.offsets[i], caps[i])
  }

  /** What a lookup should give: no string when the capability is absent, cancelled or empty. */
  function Wanted(caps: seq<Cap>, index: nat): Option<seq<byte>> {
    if index < |caps| && caps[index].Text? && caps[index].text != [] then Some(caps[index].text) else None
  }

  // The program

  /** Whatever is in memory where nothing has been read in: the header, behind `strings`, behind `strings_table`. */
  datatype Memory = Memory(header: seq<byte>, strings: seq<int>, text: seq<byte>)

  datatype Raw = Raw(strings: seq<int>, text: seq<byte>)

  /** fread: as many of `n` bytes at `pos` as there are. */
  function Chunk(file: seq<byte>, pos: nat, n: nat): (b: seq<byte>)
    ensures |b| <= n
    ensures |b| == n <==> n == 0 || pos + n <= |file|
  {
    file[Min(pos, |file|)..Min(pos + n, |file|)]
  }

  /** One uint16_t of a buffer. */
  function Unsigned(b: seq<byte>, i: nat): nat
    requires 2 * i + 1 < |b|
  {
    b[2 * i] as int + 256 * b[2 * i + 1] as int
  }

  function Signed(v: nat): int {
    if v >= 0x8000 then v - 0x1_0000 else v
  }

  function SignedAll(b: seq<byte>): (vs: seq<int>)
    ensures |vs| == |b| / 2
  {
    seq<int>(|b| / 2, i requires 0 <= i < |b| / 2 => Signed(Unsigned(b, i)))
  }

  /** A header that the file is too short for keeps what was in memory. */
  function HeaderBytes(file: seq<byte>, m: Memory): (b: seq<byte>)
    ensures |b| == 12
  {
    var got := Chunk(file, 0, 12);
    got + Window(m.header, |got|, 12 - |got|)
  }

  /** The string of memory that starts here. */
  function CStr(s: seq<byte>): (r: seq<byte>)
    ensures r <= s && 0 !in r
  {
    if s == [] || s[0] == 0 then [] else [s[0]] + CStr(s[1..])
  }

  /** What lookup_strings stores for one index, reading on in memory where the arrays end. */
  function Slot(raw: Raw, m: Memory, index: nat): Option<seq<byte>> {
    var strings, text := raw.strings + m.strings, raw.text + m.text;
    var offset := if index < |strings| then strings[index] else 0;
    if offset < 0 then None
    else
      var sequence := if offset <= |text| then CStr(text[offset..]) else [];
      if sequence == [] then None else Some(sequence)
  }

  function Slots(raw: Raw, m: Memory, indices: seq<nat>): (r: seq<Option<seq<byte>>>)
    ensures |r| == |indices|
  {
    seq(|indices|, i requires 0 <= i < |indices| => Slot(raw, m, indices[i]))
  }

  /** The strings and the table of a file; None when it cannot be parsed. */
  function Sections(file: seq<byte>, m: Memory): Option<Raw> {
    var h := HeaderBytes(file, m);
    var magic := Unsigned(h, 0);
    if magic != MAGIC_INT16 && magic != MAGIC_INT32 then None
    else
      var before := Unsigned(h, 1) + Unsigned(h, 2);
      var start := 12 + before + before % 2 + (if magic == MAGIC_INT16 then 2 else 4) * Unsigned(h, 3);
      var strings := Chunk(file, start, 2 * Unsigned(h, 4));
      var text := Chunk(file, start + |strings|, Unsigned(h, 5));
      if |strings| < 2 * Unsigned(h, 4) || |text| < Unsigned(h, 5) then None
      else Some(Raw(SignedAll(strings), text))
  }

  /** The static tables. */
  class Database {
    const inputs: array<Option<seq<byte>>>
    const customs: array<Option<seq<byte>>>
    const outputs: array<Option<seq<byte>>>
    const specials: array<Option<seq<byte>>>

    ghost predicate Valid() {
      && inputs.Length == |INPUT_INDICES| && customs.Length == |CUSTOM_INDICES|
      && outputs.Length == |OUTPUT_INDICES| && specials.Length == |SPECIAL_INDICES|
      && inputs != customs && inputs != outputs && inputs != specials
      && customs != outputs && customs != specials && outputs != specials
    }

    constructor ()
      ensures Valid() && fresh(inputs) && fresh(customs) && fresh(outputs) && fresh(specials)
    {
      inputs := new Option<seq<byte>>[|INPUT_INDICES|](_ => None);
      customs := new Option<seq<byte>>[|CUSTOM_INDICES|](_ => None);
      outputs := new Option<seq<byte>>[|OUTPUT_INDICES|](_ => None);
      specials := new Option<seq<byte>>[|SPECIAL_INDICES|](_ => None);
    }

    /** parse. */
    method Parse(file: seq<byte>, m: Memory) returns (ok: bool)
      requires Valid()
      modifies inputs, customs, outputs, specials
      ensures ok <==> Sections(file, m).Some?
      ensures ok ==>
        var raw := Sections(file, m).value;
        && inputs[..] == Slots(raw, m, INPUT_INDICES) && customs[..] == Slots(raw, m, CUSTOM_INDICES)
        && outputs[..] == Slots(raw, m, OUTPUT_INDICES) && specials[..] == Slots(raw, m, SPECIAL_INDICES)
      ensures !ok ==>
        && inputs[..] == old(inputs[..]) && customs[..] == old(customs[..])
        && outputs[..] == old(outputs[..]) && specials[..] == old(specials[..])
    {
      var header := HeaderBytes(file, m);
      var numberSize: nat;
      if Unsigned(header, 0) == MAGIC_INT16 {
        numberSize := 2;
      } else if Unsigned(header, 0) == MAGIC_INT32 {
        numberSize := 4;
      } else {
        return false;
      }
      var stringStart := Unsigned(header, 1) + Unsigned(header, 2);
      if stringStart % 2 == 1 {
        stringStart := stringStart + 1;
      }
      stringStart := stringStart + numberSize * Unsigned(header, 3);
      var strings := Chunk(file, 12 + stringStart, 2 * Unsigned(header, 4));
      if |strings| / 2 != Unsigned(header, 4) {
        return false;
      }
      var text := Chunk(file, 12 + stringStart + |strings|, Unsigned(header, 5));
      if |text| != Unsigned(header, 5) {
        return false;
      }
      var raw := Raw(SignedAll(strings), text);
      assert Sections(file, m) == Some(raw);
      LookupStrings(raw, m, INPUT_INDICES, inputs);
      LookupStrings(raw, m, OUTPUT_INDICES, outputs);
      LookupStrings(raw, m, SPECIAL_INDICES, specials);
      LookupStrings(raw, m, CUSTOM_INDICES, customs);
      return true;
    }

    /** lookup_strings. */
    method LookupStrings(raw: Raw, m: Memory, indices: seq<nat>, buf: array<Option<seq<byte>>>)
      requires buf.Length == |indices|
      modifies buf
      ensures buf[..] == Slots(raw, m, indices)
    {
      var i := 0;
      while i < |indices|
        invariant 0 <= i <= |indices|
        invariant forall j :: 0 <= j < i ==> buf[j] == Slot(raw, m, indices[j])
      {
        buf[i] := Slot(raw, m, indices[i]);
        i := i + 1;
      }
    }
  }

  // What it gives

  lemma SixteenBits(v: int)
    requires -0x8000 <= v < 0x1_0000
    ensures Unsigned(Bytes16(v), 0) == v % 0x1_0000
    ensures IsInt16(v) ==> Signed(v % 0x1_0000) == v
  {
    assert v / 256 % 256 == v % 0x1_0000 / 256;
  }

  /** Reading back what was written as 16-bit numbers. */
  lemma {:induction false} All16At(vs: seq<int>, i: nat)
    requires i < |vs| && -0x8000 <= vs[i] < 0x1_0000
    ensures Unsigned(All16(vs), i) == vs[i] % 0x1_0000
  {
    if i == 0 {
      SixteenBits(vs[0]);
    } else {
      All16At(vs[1..], i - 1);
      var rest := All16(vs[1..]);
      assert All16(vs)[2 * i] == rest[2 * (i - 1)] && All16(vs)[2 * i + 1] == rest[2 * (i - 1) + 1];
    }
  }

  lemma ReadsBack(vs: seq<int>)
    requires forall i :: 0 <= i < |vs| ==> IsInt16(vs[i])
    ensures SignedAll(All16(vs)) == vs
  {
    forall i | 0 <= i < |vs| ensures SignedAll(All16(vs))[i] == vs[i] {
      assert IsInt16(vs[i]);
      All16At(vs, i);
      SixteenBits(vs[i]);
    }
  }

  lemma ChunkOf(a: seq<byte>, b: seq<byte>, c: seq<byte>)
    ensures Chunk(a + (b + c), |a|, |b|) == b
  {
  }

  lemma SectionsInPlace(h: seq<byte>, m: seq<byte>, s: seq<byte>, t: seq<byte>, tail: seq<byte>)
    ensures
      var file := h + (m + (s + t)) + tail;
      && file == [] + (h + (m + (s + (t + tail))))
      && file == (h + m) + (s + (t + tail)) && file == (h + m + s) + (t + tail)
  {
  }

  lemma MiddleSize(c: Compiled)
    ensures
      var before := |c.names| + |c.flags|;
      |Middle(c)| == before + before % 2 + (if c.wide then 4 else 2) * |c.numbers|
  {
  }

  /** The offset arithmetic finds the strings of every compiled entry, whatever follows it in the file. */
  lemma SectionsOfFile(c: Compiled, tail: seq<byte>, m: Memory)
    requires Fits(c)
    ensures Sections(File(c) + tail, m) == Some(Raw(c.offsets, c.table))
  {
    hide All16, All32, Bytes16, Bytes32, Header, Middle, Chunk, Unsigned, SignedAll;
    var h, mid, s := All16(Header(c)), Middle(c), All16(c.offsets);
    SectionsInPlace(h, mid, s, c.table, tail);
    HeaderAt(c);
    MiddleSize(c);
    ChunkOf([], h, mid + (s + (c.table + tail)));
    assert h + Window(m.header, 12, 0) == h;
    ChunkOf(h + mid, s, c.table + tail);
    ChunkOf(h + mid + s, c.table, tail);
    ReadsBack(c.offsets);
  }

  lemma HeaderAt(c: Compiled)
    requires Fits(c)
    ensures |All16(Header(c))| == 12
    ensures
      var h := All16(Header(c));
      && Unsigned(h, 0) == (if c.wide then MAGIC_INT32 else MAGIC_INT16)
      && Unsigned(h, 1) == |c.names| && Unsigned(h, 2) == |c.flags| && Unsigned(h, 3) == |c.numbers|
      && Unsigned(h, 4) == |c.offsets| && Unsigned(h, 5) == |c.table|
  {
    var vs := Header(c);
    forall i | 0 <= i < 6 ensures Unsigned(All16(vs), i) == vs[i] {
      All16At(vs, i);
    }
  }

  lemma {:induction false} CStrStops(s: seq<byte>, rest: seq<byte>)
    requires 0 !in s
    ensures CStr(s + [0] + rest) == s
  {
    if s != [] {
      assert (s + [0] + rest)[1..] == s[1..] + [0] + rest;
      CStrStops(s[1..], rest);
    }
  }

  /** An index within the entry gives that capability, whatever is in memory. */
  lemma SlotWithin(c: Compiled, caps: seq<Cap>, m: Memory, index: nat)
    requires Encodes(c, caps) && index < |caps|
    ensures Slot(Raw(c.offsets, c.table), m, index) == Wanted(caps, index)
  {
    var off, text := c.offsets[index], c.table + m.text;
    assert Laid(c.table, off, caps[index]);
    if caps[index].Text? {
      var s := caps[index].text;
      assert text[off..] == s + [0] + text[off + |s| + 1..];
      CStrStops(s, text[off + |s| + 1..]);
    }
  }

  /** The lookup is right whatever is in memory exactly when the entry has a string of that index. */
  lemma SlotIsRightIff(c: Compiled, caps: seq<Cap>, index: nat)
    requires Encodes(c, caps)
    ensures (forall m :: Slot(Raw(c.offsets, c.table), m, index) == Wanted(caps, index)) <==> index < |caps|
  {
    if index < |caps| {
      forall m ensures Slot(Raw(c.offsets, c.table), m, index) == Wanted(caps, index) {
        SlotWithin(c, caps, m, index);
      }
    } else {
      var n := index - |caps|;
      var m := Memory([], seq<int>(n + 1, i => |c.table|), [65]);
      assert (c.table + m.text)[|c.table|..] == [65];
      assert [65] + [] == [65] && [65][1..] == [];
      assert Slot(Raw(c.offsets, c.table), m, index) == Some([65]);
    }
  }

  function WantedAll(caps: seq<Cap>, indices: seq<nat>): seq<Option<seq<byte>>> {
    seq(|indices|, i requires 0 <= i < |indices| => Wanted(caps, indices[i]))
  }

  /** What parse should achieve: every table holds the capabilities it is meant to hold. */
  ghost predicate Loads(file: seq<byte>, m: Memory, caps: seq<Cap>) {
    && Sections(file, m).Some?
    && var raw := Sections(file, m).value;
    && Slots(raw, m, INPUT_INDICES) == WantedAll(caps, INPUT_INDICES)
    && Slots(raw, m, CUSTOM_INDICES) == WantedAll(caps, CUSTOM_INDICES)
    && Slots(raw, m, OUTPUT_INDICES) == WantedAll(caps, OUTPUT_INDICES)
    && Slots(raw, m, SPECIAL_INDICES) == WantedAll(caps, SPECIAL_INDICES)
  }

  lemma TableWithin(c: Compiled, caps: seq<Cap>, m: Memory, indices: seq<nat>)
    requires Encodes(c, caps) && forall i :: 0 <= i < |indices| ==> indices[i] < |caps|
    ensures Slots(Raw(c.offsets, c.table), m, indices) == WantedAll(caps, indices)
  {
    forall i | 0 <= i < |indices|
      ensures Slot(Raw(c.offsets, c.table), m, indices[i]) == Wanted(caps, indices[i])
    {
      SlotWithin(c, caps, m, indices[i]);
    }
  }

  /**
   * A compiled entry is loaded as it should be, for both number sizes and whatever is in
   * memory, exactly when it has more strings than the largest index asked for.
   */
  lemma EntryLoadsIff(c: Compiled, caps: seq<Cap>, tail: seq<byte>)
    requires Fits(c) && Encodes(c, caps)
    ensures (forall m :: Loads(File(c) + tail, m, caps)) <==> |caps| > 294
  {
    hide Sections, Slot, Wanted, File;
    var file, raw := File(c) + tail, Raw(c.offsets, c.table);
    if |caps| > 294 {
      forall m ensures Loads(file, m, caps) {
        SectionsOfFile(c, tail, m);
        TableWithin(c, caps, m, INPUT_INDICES);
        TableWithin(c, caps, m, CUSTOM_INDICES);
        TableWithin(c, caps, m, OUTPUT_INDICES);
        TableWithin(c, caps, m, SPECIAL_INDICES);
      }
    } else {
      SlotIsRightIff(c, caps, 294);
      var m :| Slot(raw, m, 294) != Wanted(caps, 294);
      SectionsOfFile(c, tail, m);
      assert Slots(raw, m, SPECIAL_INDICES)[2] != WantedAll(caps, SPECIAL_INDICES)[2];
      assert !Loads(file, m, caps);
    }
  }

  // The format byte by byte

  /** Two bytes, the low one first. */
  function Little(f: seq<byte>, i: nat): int
    requires i + 1 < |f|
  {
    f[i] as int + 256 * f[i + 1] as int
  }

  /** An entry starts with its magic number, octal 0432 or 01036, and the sizes of its five sections. */
  lemma HeaderBytes12(c: Compiled)
    requires Fits(c)
    ensures |File(c)| >= 12
    ensures Little(File(c), 0) == if c.wide then 542 else 282
    ensures Little(File(c), 2) == |c.names| && Little(File(c), 4) == |c.flags| && Little(File(c), 6) == |c.numbers|
    ensures Little(File(c), 8) == |c.offsets| && Little(File(c), 10) == |c.table|
  {
    HeaderAt(c);
    var h := All16(Header(c));
    assert File(c)[..12] == h;
    forall i: nat | i < 12 ensures File(c)[i] == h[i] {
      assert File(c)[..12][i] == h[i];
    }
  }

  lemma FiveParts(a: seq<byte>, b: seq<byte>, c: seq<byte>, d: seq<byte>, x: seq<byte>)
    ensures a + b + c + d + x == a + (b + (c + d + x))
  {
  }

  lemma DropAll(a: seq<byte>, b: seq<byte>)
    ensures (a + b)[|a|..] == b
  {
  }

  /** Then come names, flags, a zero to make them even, numbers of two or four bytes, offsets of two, and the strings. */
  lemma SectionBytes(c: Compiled)
    requires Fits(c)
    ensures
      var f, n := File(c), |c.names| + |c.flags|;
      var start := 12 + n + n % 2 + (if c.wide then 4 else 2) * |c.numbers|;
      && |f| == start + 2 * |c.offsets| + |c.table|
      && f[12..12 + |c.names|] == c.names && f[12 + |c.names|..12 + n] == c.flags
      && f[start..start + 2 * |c.offsets|] == All16(c.offsets) && f[start + 2 * |c.offsets|..] == c.table
  {
    hide All16, All32, Header, Numbers, Padding;
    var h, s, rest := All16(Header(c)), All16(c.offsets), Padding(c) + Numbers(c);
    HeaderAt(c);
    MiddleSize(c);
    SectionsInPlace(h, Middle(c), s, c.table, []);
    var f, behind := File(c), rest + (s + c.table);
    assert f + [] == f && c.table + [] == c.table;
    SliceOfConcat(h + Middle(c), s, c.table);
    DropAll(h + Middle(c) + s, c.table);
    FiveParts(c.names, c.flags, Padding(c), Numbers(c), s + c.table);
    SliceOfConcat(h, c.names, c.flags + behind);
    ConcatAssociates(h, c.names, c.flags + behind);
    SliceOfConcat(h + c.names, c.flags, behind);
  }

  /** A slot holds a text exactly when the capability is that text and not empty; otherwise it holds nothing. */
  lemma WantedIff(caps: seq<Cap>, index: nat, w: seq<byte>)
    ensures Wanted(caps, index) == Some(w) <==> index < |caps| && caps[index] == Text(w) && w != []
  {
  }

  // Every entry has an encoding

  /** The strings of some capabilities, one behind the other. */
  function StringsOf(caps: seq<Cap>): seq<byte> {
    if caps == [] then []
    else
      var n := |caps| - 1;
      StringsOf(caps[..n]) + if caps[n].Text? then caps[n].text + [0] else []
  }

  function OffsetsOf(caps: seq<Cap>): (offs: seq<int>)
    ensures |offs| == |caps|
  {
    if caps == [] then []
    else
      var n := |caps| - 1;
      OffsetsOf(caps[..n])
      + [match caps[n] case Absent => -1 case Cancelled => -2 case Text(s) => |StringsOf(caps[..n])|]
  }

  lemma StringAtStays(table: seq<byte>, more: seq<byte>, off: int, cap: Cap)
    requires Laid(table, off, cap)
    ensures Laid(table + more, off, cap)
  {
    if cap.Text? {
      assert (table + more)[off..off + |cap.text|] == table[off..off + |cap.text|];
    }
  }

  lemma {:induction false} LaidOut(caps: seq<Cap>, i: nat)
    requires i < |caps| && forall j :: 0 <= j < |caps| && caps[j].Text? ==> 0 !in caps[j].text
    ensures Laid(StringsOf(caps), OffsetsOf(caps)[i], caps[i])
  {
    var n := |caps| - 1;
    var table, more := StringsOf(caps[..n]), if caps[n].Text? then caps[n].text + [0] else [];
    if i < n {
      LaidOut(caps[..n], i);
      StringAtStays(table, more, OffsetsOf(caps[..n])[i], caps[i]);
    } else if caps[n].Text? {
      SliceOfConcat(table, caps[n].text, [0]);
    }
  }

  /** Any capabilities whose strings the offsets can reach are those of some entry, with numbers of either size. */
  lemma EntryExists(caps: seq<Cap>, wide: bool, names: seq<byte>, flags: seq<byte>, numbers: seq<int>) returns (c: Compiled)
    requires forall j :: 0 <= j < |caps| && caps[j].Text? ==> 0 !in caps[j].text
    requires |names| < 0x1_0000 && |flags| < 0x1_0000 && |numbers| < 0x1_0000
    requires |caps| < 0x1_0000 && |StringsOf(caps)| < 0x8000
    ensures Fits(c) && Encodes(c, caps) && c.wide == wide && c.names == names && c.flags == flags && c.numbers == numbers
  {
    c := Compiled(wide, names, flags, numbers, OffsetsOf(caps), StringsOf(caps));
    forall i | 0 <= i < |caps| ensures Laid(c.table, c.offsets[i], caps[i]) {
      LaidOut(caps, i);
    }
    forall i | 0 <= i < |caps| ensures IsInt16(c.offsets[i]) {
      LaidOut(caps, i);
    }
  }
}
