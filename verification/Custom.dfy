/** Custom key handlers: the state they are given and the state they give back. */
module Custom {
  import opened Bytes
  import opened Utf8
  import opened Zipper

  /** A handler function, given the line and its cursor, by the format it asks for. */
  datatype Handler =
    | Wide(edit32: (seq<uchar>, nat) -> (seq<uchar>, nat))
    | Narrow(edit8: (seq<byte>, nat) -> (seq<byte>, nat))

  /** A cursor into UTF-8 text, with both sides well-formed. */
  predicate OnBoundary(b: seq<byte>, n: nat) {
    n <= |b| && Decode(b).Some? && Decode(b[..n]).Some?
  }

  /** A C string and a cursor into it. */
  predicate Acceptable(text: seq<uchar>, cursor: nat) {
    cursor <= |text| && 0 !in text
  }

  /** What a handler must not do: place the cursor outside the line or inside a code point. */
  predicate Behaves(h: Handler, z: Zipper) {
    match h
    case Wide(f) => var r := f(Line(z), |z.before|); Acceptable(r.0, r.1)
    case Narrow(f) =>
      var r := f(Encode(Line(z)), |Encode(z.before)|);
      OnBoundary(r.0, r.1) && 0 !in Decode(r.0).value
  }

  ghost predicate WellBehaved(h: Handler) {
    forall z: Zipper :: 0 !in Line(z) ==> Behaves(h, z)
  }

  /** What a handler means: UTF-8 text is cut at the byte cursor and both sides are decoded. */
  function Handle(h: Handler, z: Zipper): Zipper
    requires Behaves(h, z)
  {
    match h
    case Wide(f) => var r := f(Line(z), |z.before|); Split(r.0, r.1)
    case Narrow(f) =>
      var r := f(Encode(Line(z)), |Encode(z.before)|);
      DecodeBothSides(r.0, r.1);
      Zipper(Decode(r.0[..r.1]).value, Decode(r.0[r.1..]).value)
  }

  /** Counting the code points before the cursor is decoding both sides of it. */
  lemma DecodeBothSides(b: seq<byte>, n: nat)
    requires OnBoundary(b, n)
    ensures Decode(b[n..]).Some?
    ensures |Decode(b[..n]).value| <= |Decode(b).value|
    ensures Split(Decode(b).value, |Decode(b[..n]).value|) == Zipper(Decode(b[..n]).value, Decode(b[n..]).value)
  {
    var text := Decode(b).value;
    EncodeDecode(b);
    BoundaryIffDecodes(text, n);
    var k := |Decode(b[..n]).value|;
    DecodeEncode(text[..k]);
    DecodeEncode(text[k..]);
  }

  /** Both formats bring back the line and the cursor that were handed out. */
  lemma IdentityHandlers(z: Zipper)
    requires 0 !in Line(z)
    ensures Behaves(Wide((s, n) => (s, n)), z) && Handle(Wide((s, n) => (s, n)), z) == z
    ensures Behaves(Narrow((s, n) => (s, n)), z) && Handle(Narrow((s, n) => (s, n)), z) == z
  {
    SplitLine(z);
    EncodeConcat(z.before, z.after);
    DecodeEncode(Line(z));
    DecodeEncode(z.before);
    DecodeEncode(z.after);
    var b := Encode(Line(z));
    assert b[..|Encode(z.before)|] == Encode(z.before);
    assert b[|Encode(z.before)|..] == Encode(z.after);
  }

  lemma IdentityIsWellBehaved()
    ensures WellBehaved(Wide((s, n) => (s, n))) && WellBehaved(Narrow((s, n) => (s, n)))
  {
    forall z: Zipper | 0 !in Line(z)
      ensures Behaves(Wide((s, n) => (s, n)), z) && Behaves(Narrow((s, n) => (s, n)), z)
    {
      IdentityHandlers(z);
    }
  }

  /** Putting a NUL at the cursor leaves the text before it. */
  lemma CutAtCursor(s: seq<uchar>, k: nat)
    requires 0 !in s && k <= |s|
    ensures UntilNul((s + [0])[k := 0]) == s[..k]
  {
    assert (s + [0])[k := 0] == s[..k] + [0] + (s + [0])[k + 1..];
    NoNulSeen(s[..k], (s + [0])[k + 1..]);
  }

  /** The terminating NUL is the only one. */
  lemma NulFreeIsWhole(s: seq<uchar>)
    requires 0 !in s
    ensures UntilNul(s + [0]) == s
  {
    NoNulSeen(s, []);
    assert s + [0] + [] == s + [0];
  }
}
