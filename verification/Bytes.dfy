/** Bytes, and the endless stream a finite input stands for. */
module Bytes {

  type byte = x: int | 0 <= x < 256

  /** CHAR_EOT: what a failed or empty read() leaves in the buffer. */
  const EOT: byte := 4
  const ESC: byte := 27
  const LF: byte := 10
  const DEL: byte := 127
  const LEFT_BRACKET: byte := 91

  const IO_BUF_SIZE: nat := 4096

  /** Byte `i` of `s ++ EOT ++ EOT ++ ...`. */
  function At(s: seq<byte>, i: nat): byte {
    if i < |s| then s[i] else EOT
  }

  /** The `n` bytes of that endless stream that start at `pos`. */
  function Window(s: seq<byte>, pos: nat, n: nat): (w: seq<byte>)
    ensures |w| == n && forall i :: 0 <= i < n ==> w[i] == At(s, pos + i)
  {
    seq<byte>(n, i requires 0 <= i < n => At(s, pos + i))
  }

  lemma WindowExtend(s: seq<byte>, pos: nat, n: nat)
    ensures Window(s, pos, n + 1) == Window(s, pos, n) + [At(s, pos + n)]
  {
  }

  lemma TakeNext<T>(s: seq<T>, i: nat)
    requires i < |s|
    ensures s[..i + 1] == s[..i] + [s[i]]
  {
  }

  lemma DropMore<T>(s: seq<T>, i: nat, k: nat)
    requires i + k <= |s|
    ensures s[i..][k..] == s[i + k..]
  {
  }

  lemma ConcatAssociates<T>(a: seq<T>, b: seq<T>, c: seq<T>)
    ensures (a + b) + c == a + (b + c)
  {
  }

  lemma FourAssociate<T>(a: seq<T>, b: seq<T>, c: seq<T>, d: seq<T>)
    ensures a + b + c + d == a + (b + (c + d))
  {
  }

  lemma DropOfConcat<T>(a: seq<T>, b: seq<T>, n: nat)
    requires n <= |a|
    ensures (a + b)[n..] == a[n..] + b
  {
  }

  lemma SliceOfConcat<T>(a: seq<T>, b: seq<T>, c: seq<T>)
    ensures (a + (b + c))[|a|..|a| + |b|] == b
  {
  }

  lemma WindowOfConcat(a: seq<byte>, b: seq<byte>, c: seq<byte>)
    ensures Window(a + (b + c), |a|, |b|) == b
  {
  }

  lemma WindowPrefix(s: seq<byte>, pos: nat, m: nat, n: nat)
    requires m <= n
    ensures Window(s, pos, n)[..m] == Window(s, pos, m)
  {
  }
}
