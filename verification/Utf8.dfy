/**
 * UTF-8 as section 3 and the grammar of section 4 of RFC 3629 define it.
 * The c-utils decoder and encoder are not part of this repository.
 */
module Utf8 {
  import opened Bytes

  /** A Unicode scalar value. */
  type uchar = x: int | 0 <= x < 0xD800 || 0xE000 <= x < 0x11_0000

  datatype Option<+T> = None | Some(value: T)

  /** What the decoder says of a four-byte buffer: 0 bytes consumed is an error. */
  datatype Parsed = Parsed(consumed: nat, value: uchar)

  function Encode1(c: uchar): (r: seq<byte>)
    ensures 1 <= |r| <= 4 && |r| == Inspect(r[0])
  {
    if c < 0x80 then [c]
    else if c < 0x800 then [0xC0 + c / 64, 0x80 + c % 64]
    else if c < 0x1_0000 then [0xE0 + c / 4096, 0x80 + c / 64 % 64, 0x80 + c % 64]
    else [0xF0 + c / 0x4_0000, 0x80 + c / 4096 % 64, 0x80 + c / 64 % 64, 0x80 + c % 64]
  }

  /** How many bytes the lead byte announces; anything else counts as one. */
  function Inspect(lead: byte): (n: nat)
    ensures 1 <= n <= 4
  {
    if 0xC0 <= lead < 0xE0 then 2
    else if 0xE0 <= lead < 0xF0 then 3
    else if 0xF0 <= lead < 0xF8 then 4
    else 1
  }

  predicate Continuation(b: byte) { 0x80 <= b < 0xC0 }

  /** The value three, two or one six-bit continuation groups add to a lead value. */
  function Group(high: int, b: byte): int {
    var low: int := b;
    64 * high + low - 0x80
  }

  /** Decode the code point that starts a four-byte buffer; bytes past its own are not looked at. */
  function Parse4(b0: byte, b1: byte, b2: byte, b3: byte): (r: Parsed)
    ensures r.consumed == 0 || r.consumed == Inspect(b0)
  {
    var bad := Parsed(0, 0);
    var lead: int := b0;
    var n := Inspect(b0);
    if n == 1 then
      if lead < 0x80 then Parsed(1, lead) else bad
    else if n == 2 then
      var v := Group(lead - 0xC0, b1);
      if Continuation(b1) && v >= 0x80 then Parsed(2, v) else bad
    else if n == 3 then
      var v := Group(Group(lead - 0xE0, b1), b2);
      if Continuation(b1) && Continuation(b2) && v >= 0x800 && !(0xD800 <= v < 0xE000)
      then Parsed(3, v) else bad
    else
      var v := Group(Group(Group(lead - 0xF0, b1), b2), b3);
      if Continuation(b1) && Continuation(b2) && Continuation(b3) && 0x1_0000 <= v < 0x11_0000
      then Parsed(4, v) else bad
  }

  /** utf8_parse_uchar. */
  function Parse(b: seq<byte>): Parsed
    requires |b| == 4
  {
    Parse4(b[0], b[1], b[2], b[3])
  }

  /** The decoder accepts a buffer exactly when it starts with the encoding of its answer. */
  lemma ParseIffEncoded(b: seq<byte>, c: uchar)
    requires |b| == 4
    ensures Parse(b) == Parsed(|Encode1(c)|, c) <==> Encode1(c) <= b
  {
    if Encode1(c) <= b {
      EncodeThenParse(b, c);
    }
    if Parse(b) == Parsed(|Encode1(c)|, c) {
      ParseThenEncode(b);
    }
  }

  /** Splitting off a six-bit group and putting it back. */
  lemma GroupInverse(c: nat, high: nat, b: byte)
    ensures Group(c / 64, 0x80 + c % 64) == c && Continuation(0x80 + c % 64)
    ensures Continuation(b) ==> Group(high, b) / 64 == high && 0x80 + Group(high, b) % 64 == b
  {
  }

  lemma EncodeThenParse(b: seq<byte>, c: uchar)
    requires |b| == 4 && Encode1(c) <= b
    ensures Parse(b) == Parsed(|Encode1(c)|, c)
  {
    var e := Encode1(c);
    assert forall i :: 0 <= i < |e| ==> b[i] == e[i];
    GroupInverse(c, 0, 0);
    GroupInverse(c / 64, 0, 0);
    GroupInverse(c / 4096, 0, 0);
    assert c / 64 / 64 == c / 4096 && c / 4096 / 64 == c / 0x4_0000;
  }

  lemma ParseThenEncode(b: seq<byte>)
    requires |b| == 4 && Parse(b).consumed > 0
    ensures Encode1(Parse(b).value) == b[..Parse(b).consumed]
  {
    var n, v, lead: int := Parse(b).consumed, Parse(b).value, b[0];
    if n == 2 {
      GroupInverse(0, lead - 0xC0, b[1]);
    } else if n == 3 {
      var h := Group(lead - 0xE0, b[1]);
      GroupInverse(0, lead - 0xE0, b[1]);
      GroupInverse(0, h, b[2]);
      assert v / 4096 == v / 64 / 64;
    } else if n == 4 {
      var h := Group(lead - 0xF0, b[1]);
      var m := Group(h, b[2]);
      GroupInverse(0, lead - 0xF0, b[1]);
      GroupInverse(0, h, b[2]);
      GroupInverse(0, m, b[3]);
      assert v / 4096 == v / 64 / 64 && v / 0x4_0000 == v / 64 / 64 / 64;
    }
  }

  lemma ParsedLength(b: seq<byte>)
    requires |b| == 4
    ensures Parse(b).consumed > 0 ==> Parse(b).consumed == |Encode1(Parse(b).value)|
  {
    if Parse(b).consumed > 0 {
      ParseThenEncode(b);
    }
  }

  /** utf8_encode, up to but without the terminating NUL. */
  function Encode(s: seq<uchar>): seq<byte> {
    if s == [] then [] else Encode1(s[0]) + Encode(s[1..])
  }

  /** The code point a non-empty byte string starts with. */
  function First(b: seq<byte>): (r: Parsed)
    requires b != []
  {
    Parse((b + [0, 0, 0])[..4])
  }

  lemma FirstIsEncoded(b: seq<byte>)
    requires b != [] && 0 < First(b).consumed <= |b|
    ensures b == Encode1(First(b).value) + b[First(b).consumed..]
  {
    ParseThenEncode((b + [0, 0, 0])[..4]);
    PaddingIsCut(b, First(b).consumed);
  }

  lemma PaddingIsCut(b: seq<byte>, n: nat)
    requires n <= |b| && n <= 4 <= |b| + 3
    ensures b == (b + [0, 0, 0])[..4][..n] + b[n..]
  {
  }

  lemma FirstOfEncoded(c: uchar, b: seq<byte>)
    ensures First(Encode1(c) + b) == Parsed(|Encode1(c)|, c)
  {
    var p := (Encode1(c) + b + [0, 0, 0])[..4];
    assert Encode1(c) <= p;
    EncodeThenParse(p, c);
  }

  /** utf8_decode of well-formed text; None when some byte belongs to no code point. */
  function Decode(b: seq<byte>): Option<seq<uchar>> {
    if b == [] then Some([])
    else
      var r := First(b);
      if r.consumed == 0 || r.consumed > |b| then None
      else
        match Decode(b[r.consumed..])
        case None => None
        case Some(rest) => Some([r.value] + rest)
  }

  lemma {:induction false} EncodeConcat(s: seq<uchar>, t: seq<uchar>)
    ensures Encode(s + t) == Encode(s) + Encode(t)
  {
    hide Encode1;
    if s == [] {
      assert s + t == t;
      assert Encode(s) + Encode(t) == Encode(t);
    } else {
      var u := s + t;
      assert u[0] == s[0] && u[1..] == s[1..] + t;
      EncodeConcat(s[1..], t);
      ConcatAssociates(Encode1(s[0]), Encode(s[1..]), Encode(t));
    }
  }

  lemma {:induction false} DecodeEncode(s: seq<uchar>)
    ensures Decode(Encode(s)) == Some(s)
  {
    if s != [] {
      DecodeEncode(s[1..]);
      FirstOfEncoded(s[0], Encode(s[1..]));
      assert s == [s[0]] + s[1..];
    }
  }

  lemma {:induction false} EncodeDecode(b: seq<byte>)
    requires Decode(b).Some?
    ensures Encode(Decode(b).value) == b
  {
    if b != [] {
      FirstIsEncoded(b);
      EncodeDecode(b[First(b).consumed..]);
    }
  }

  /** The text up to a NUL, which is what utf8_encode and ustrlen see. */
  function UntilNul(s: seq<uchar>): (r: seq<uchar>)
    ensures r <= s
  {
    if s == [] || s[0] == 0 then [] else [s[0]] + UntilNul(s[1..])
  }

  lemma {:induction false} NoNulSeen(s: seq<uchar>, rest: seq<uchar>)
    requires 0 !in s
    ensures UntilNul(s + [0] + rest) == s
  {
    if s != [] {
      assert (s + [0] + rest)[1..] == s[1..] + [0] + rest;
      NoNulSeen(s[1..], rest);
    }
  }

  /** What begins the encoding is the encoding of what begins the text. */
  lemma {:induction false} EncodedPrefix(x: seq<uchar>, y: seq<uchar>)
    requires Encode(x) <= Encode(y)
    ensures x <= y
  {
    if x != [] {
      var e, rest := Encode1(x[0]), Encode(x[1..]);
      var tail := Encode(y)[|Encode(x)|..];
      assert Encode(y) == e + (rest + tail);
      FirstOfEncoded(x[0], rest + tail);
      FirstOfEncoded(y[0], Encode(y[1..]));
      assert Encode(y[1..]) == rest + tail by {
        assert Encode(y)[|e|..] == rest + tail;
        assert (Encode1(y[0]) + Encode(y[1..]))[|e|..] == Encode(y[1..]);
      }
      EncodedPrefix(x[1..], y[1..]);
    }
  }

  /** A byte position is on a code-point boundary exactly when the bytes before it decode. */
  lemma BoundaryIffDecodes(text: seq<uchar>, n: nat)
    requires n <= |Encode(text)|
    ensures Decode(Encode(text)[..n]).Some? <==> exists k: nat :: k <= |text| && n == |Encode(text[..k])|
    ensures Decode(Encode(text)[..n]).Some? ==>
              var k := |Decode(Encode(text)[..n]).value|;
              k <= |text| && Encode(text)[..n] == Encode(text[..k]) && Encode(text)[n..] == Encode(text[k..])
  {
    var b := Encode(text);
    if Decode(b[..n]).Some? {
      var x := Decode(b[..n]).value;
      EncodeDecode(b[..n]);
      EncodedPrefix(x, text);
      EncodeSplit(text, |x|);
      assert x == text[..|x|];
    }
    if k: nat :| k <= |text| && n == |Encode(text[..k])| {
      EncodeSplit(text, k);
      assert b[..n] == Encode(text[..k]);
      DecodeEncode(text[..k]);
    }
  }

  lemma EncodeSplit(text: seq<uchar>, k: nat)
    requires k <= |text|
    ensures Encode(text) == Encode(text[..k]) + Encode(text[k..])
  {
    assert text == text[..k] + text[k..];
    EncodeConcat(text[..k], text[k..]);
  }
}
