/** What editing means: the text before the cursor and the text after it. */
module Zipper {
  import opened Bytes
  import opened Utf8
  import opened Tokens
  import opened Dictionary

  datatype Zipper = Zipper(before: seq<uchar>, after: seq<uchar>)

  function Line(z: Zipper): seq<uchar> {
    z.before + z.after
  }

  function Insert(z: Zipper, text: seq<uchar>): Zipper {
    z.(before := z.before + text)
  }

  function Left(z: Zipper): Zipper {
    if z.before == [] then z
    else
      var n := |z.before| - 1;
      Zipper(z.before[..n], [z.before[n]] + z.after)
  }

  function Right(z: Zipper): Zipper {
    if z.after == [] then z else Zipper(z.before + [z.after[0]], z.after[1..])
  }

  function Home(z: Zipper): Zipper {
    Zipper([], z.before + z.after)
  }

  function End(z: Zipper): Zipper {
    Zipper(z.before + z.after, [])
  }

  function Delete(z: Zipper): Zipper {
    if z.after == [] then z else z.(after := z.after[1..])
  }

  function Backspace(z: Zipper): Zipper {
    if z.before == [] then z else z.(before := z.before[..|z.before| - 1])
  }

  /** The standard keys; any other identifier does nothing. */
  function Press(z: Zipper, key: nat): Zipper {
    if key == KEY_LEFT then Left(z)
    else if key == KEY_RIGHT then Right(z)
    else if key == KEY_BACKSPACE then Backspace(z)
    else if key == KEY_HOME then Home(z)
    else if key == KEY_END then End(z)
    else if key == KEY_DELETE then Delete(z)
    else z
  }

  /** The readable form of an ASCII key sequence. */
  function Caret(s: seq<byte>): seq<uchar> {
    if s == [] then []
    else
      var n := |s| - 1;
      Caret(s[..n]) + (match Control(s[n]) case Some(t) => t case None => [s[n]])
  }

  lemma CaretStep(z: Zipper, s: seq<byte>, i: nat)
    requires i < |s|
    ensures Insert(z, Caret(s[..i + 1]))
         == Insert(Insert(z, Caret(s[..i])), match Control(s[i]) case Some(t) => t case None => [s[i]])
  {
    assert s[..i + 1][..i] == s[..i];
  }

  lemma {:induction false} CaretIsPrintable(s: seq<byte>)
    ensures AllPrintable(Caret(s))
  {
    if s != [] {
      CaretIsPrintable(s[..|s| - 1]);
    }
  }

  lemma BackspaceIsLeftThenDelete(z: Zipper)
    ensures Backspace(z) == if z.before == [] then z else Delete(Left(z))
  {
  }

  /** A buffer with a cursor as a zipper. */
  function Split(s: seq<uchar>, cursor: nat): (z: Zipper)
    requires cursor <= |s|
    ensures Line(z) == s && |z.before| == cursor
  {
    Zipper(s[..cursor], s[cursor..])
  }

  lemma SplitLine(z: Zipper)
    ensures Split(Line(z), |z.before|) == z
  {
  }

  /** Moving the cursor of a buffer is moving in the zipper. */
  lemma MovesOfSplit(s: seq<uchar>, cursor: nat)
    requires cursor <= |s|
    ensures Left(Split(s, cursor)) == Split(s, if cursor > 0 then cursor - 1 else 0)
    ensures Right(Split(s, cursor)) == Split(s, if cursor < |s| then cursor + 1 else cursor)
    ensures Home(Split(s, cursor)) == Split(s, 0)
    ensures End(Split(s, cursor)) == Split(s, |s|)
  {
    assert s[..cursor] + s[cursor..] == s;
    if cursor > 0 {
      assert [s[cursor - 1]] + s[cursor..] == s[cursor - 1..];
    }
  }

  /** vec_bulk_insert and vec_erase at the cursor. */
  lemma EditsOfSplit(s: seq<uchar>, cursor: nat, text: seq<uchar>)
    requires cursor <= |s|
    ensures Insert(Split(s, cursor), text) == Split(s[..cursor] + text + s[cursor..], cursor + |text|)
    ensures cursor < |s| ==> Delete(Split(s, cursor)) == Split(s[..cursor] + s[cursor + 1..], cursor)
  {
    if cursor < |s| {
      assert s[cursor..][1..] == s[cursor + 1..];
    }
  }
}
