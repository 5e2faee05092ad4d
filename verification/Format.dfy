/** Terminfo parameterised strings: the fragment of src/format.c. */
module Format {
  import opened Bytes
  import opened Utf8

  const PERCENT: byte := 37
  const MINUS: byte := 45
  const PLUS: byte := 43
  const ZERO: byte := 48
  const LETTER_D: byte := 100
  const LETTER_I: byte := 105
  const LETTER_P: byte := 112

  /** A C string, without its terminator. */
  ghost predicate CString(s: seq<byte>) {
    0 !in s
  }

  /** The terminator included: what a pointer into the string reads. */
  function CharAt(s: seq<byte>, i: nat): byte {
    if i < |s| then s[i] else 0
  }

  /** Conversion to int32_t: two's complement wrap-around. */
  function Int32(x: int): (r: int)
    ensures -0x8000_0000 <= r < 0x8000_0000
    ensures -0x8000_0000 <= x < 0x8000_0000 ==> r == x
  {
    (x + 0x8000_0000) % 0x1_0000_0000 - 0x8000_0000
  }

  predicate IsDigit(b: byte) {
    ZERO <= b < ZERO + 10
  }

  function Digits(n: nat): (r: seq<byte>)
    ensures r != [] && forall i :: 0 <= i < |r| ==> IsDigit(r[i])
  {
    if n < 10 then [ZERO + n] else Digits(n / 10) + [ZERO + n % 10]
  }

  /** sprintf("%d"). */
  function Decimal(n: int): (r: seq<byte>)
    ensures r != []
  {
    if n < 0 then [MINUS] + Digits(-n) else Digits(n)
  }

  /** The value of a run of digits. */
  function Value(s: seq<byte>): nat
    requires forall i :: 0 <= i < |s| ==> IsDigit(s[i])
  {
    if s == [] then 0
    else
      assert IsDigit(s[|s| - 1]);
      var last: int := s[|s| - 1];
      10 * Value(s[..|s| - 1]) + (last - 48)
  }

  lemma {:induction false} ValueOfDigits(n: nat)
    ensures Value(Digits(n)) == n
  {
    var r := Digits(n);
    if n < 10 {
      assert r[..0] == [];
    } else {
      ValueOfDigits(n / 10);
      assert r[..|r| - 1] == Digits(n / 10);
    }
  }

  /** Length of the run of digits at the start of `s`. */
  function DigitRun(s: seq<byte>): (n: nat)
    ensures n <= |s| && forall i :: 0 <= i < n ==> IsDigit(s[i])
    ensures n < |s| ==> !IsDigit(s[n])
  {
    if s == [] || !IsDigit(s[0]) then 0 else 1 + DigitRun(s[1..])
  }

  predicate IsSpace(b: byte) {
    b == 32 || 9 <= b <= 13
  }

  function SpaceRun(s: seq<byte>): (n: nat)
    ensures n <= |s|
  {
    if s == [] || !IsSpace(s[0]) then 0 else 1 + SpaceRun(s[1..])
  }

  /** Value and number of characters consumed; nothing is consumed when there is no number. */
  datatype Number = Number(value: int, length: nat)

  /** strtol(data, &end, 10) with a 64-bit long. */
  function Strtol(s: seq<byte>): (r: Number)
    ensures r.length <= |s|
  {
    var t := s[SpaceRun(s)..];
    var u := if t != [] && (t[0] == MINUS || t[0] == PLUS) then t[1..] else t;
    var n := DigitRun(u);
    if n == 0 then Number(0, 0)
    else
      var v: int := Value(u[..n]);
      Number(Clamp(if t[0] == MINUS then -v else v), |s| - |u| + n)
  }

  function Clamp(v: int): int {
    if v > 0x7FFF_FFFF_FFFF_FFFF then 0x7FFF_FFFF_FFFF_FFFF
    else if v < -0x8000_0000_0000_0000 then -0x8000_0000_0000_0000
    else v
  }

  /** A number's end is visible: nothing follows it, or something that is no digit. */
  predicate Delimited(rest: seq<byte>) {
    rest == [] || !IsDigit(rest[0])
  }

  lemma RunOfDigits(a: seq<byte>, rest: seq<byte>)
    requires (forall i :: 0 <= i < |a| ==> IsDigit(a[i])) && Delimited(rest)
    ensures DigitRun(a + rest) == |a|
  {
    assert forall i :: 0 <= i < |a| ==> (a + rest)[i] == a[i];
    assert rest != [] ==> (a + rest)[|a|] == rest[0];
  }

  lemma ScanDigits(n: nat, rest: seq<byte>)
    requires Delimited(rest)
    ensures
      var u := Digits(n) + rest;
      DigitRun(u) == |Digits(n)| && u[..DigitRun(u)] == Digits(n) && Value(u[..DigitRun(u)]) == n
    ensures IsDigit((Digits(n) + rest)[0])
  {
    RunOfDigits(Digits(n), rest);
    ValueOfDigits(n);
    assert (Digits(n) + rest)[..|Digits(n)|] == Digits(n);
  }

  lemma NoSpace(s: seq<byte>)
    requires s != [] && !IsSpace(s[0])
    ensures s[SpaceRun(s)..] == s
  {
  }

  /** Scanning what sprintf printed gives the number back. */
  lemma StrtolOfDecimal(v: int, rest: seq<byte>)
    requires -0x8000_0000 <= v < 0x8000_0000 && Delimited(rest)
    ensures Strtol(Decimal(v) + rest) == Number(v, |Decimal(v)|)
  {
    if v < 0 {
      StrtolNegative(-v, rest);
    } else {
      StrtolPositive(v, rest);
    }
  }

  lemma StrtolPositive(n: nat, rest: seq<byte>)
    requires n < 0x8000_0000 && Delimited(rest)
    ensures Strtol(Digits(n) + rest) == Number(n, |Digits(n)|)
  {
    ScanDigits(n, rest);
    NoSpace(Digits(n) + rest);
  }

  lemma StrtolNegative(n: nat, rest: seq<byte>)
    requires n <= 0x8000_0000 && Delimited(rest)
    ensures Strtol([MINUS] + Digits(n) + rest) == Number(0 - n as int, 1 + |Digits(n)|)
  {
    var u := Digits(n) + rest;
    var s := [MINUS] + u;
    ScanDigits(n, rest);
    NoSpace(s);
    assert s[1..] == u;
    ConcatAssociates([MINUS], Digits(n), rest);
  }

  /** What a format is made of; `Ignored` is what is outside the fragment: any other character after a percent sign. */
  datatype Piece = Literal(b: byte) | Push(param: nat) | BadPush | Increment | Pop | Percent | Ignored

  /** A format does not end in a percent sign that introduces nothing. */
  predicate Ended(fmt: seq<byte>) {
    if fmt == [] then true
    else if fmt[0] != PERCENT then Ended(fmt[1..])
    else |fmt| > 1 && (if fmt[1] == LETTER_P then |fmt| == 2 || Ended(fmt[3..]) else Ended(fmt[2..]))
  }

  function Pieces(fmt: seq<byte>): seq<Piece>
    requires Ended(fmt)
  {
    if fmt == [] then []
    else if fmt[0] != PERCENT then [Literal(fmt[0])] + Pieces(fmt[1..])
    else if fmt[1] == LETTER_P then
      var n := CharAt(fmt, 2);
      if 49 <= n <= 57 then [Push(n - 49)] + Pieces(fmt[3..]) else [BadPush]
    else
      [if fmt[1] == LETTER_I then Increment else if fmt[1] == LETTER_D then Pop
       else if fmt[1] == PERCENT then Percent else Ignored] + Pieces(fmt[2..])
  }

  /** What has been printed, the value stack, and the nine parameters. */
  datatype State = State(out: seq<byte>, stack: seq<int>, params: seq<int>)

  /** One piece; None is the NULL the formatter returns. */
  function Execute(p: Piece, st: State): (r: Option<State>)
    requires |st.params| == 9
    ensures r.Some? ==> |r.value.params| == 9
  {
    match p
    case Literal(b) => Some(st.(out := st.out + [b]))
    case Push(n) => if n < 9 then Some(st.(stack := st.stack + [st.params[n]])) else None
    case BadPush => None
    case Increment => Some(st.(params := st.params[0 := Int32(st.params[0] + 1)][1 := Int32(st.params[1] + 1)]))
    case Pop =>
      if st.stack == [] then None
      else
        var top := |st.stack| - 1;
        Some(State(st.out + Decimal(st.stack[top]), st.stack[..top], st.params))
    case Percent => Some(st)
    case Ignored => Some(st)
  }

  function Run(ps: seq<Piece>, st: State): Option<seq<byte>>
    requires |st.params| == 9
  {
    if ps == [] then Some(st.out)
    else
      match Execute(ps[0], st)
      case None => None
      case Some(next) => Run(ps[1..], next)
  }

  function Zeros(n: nat): seq<int> {
    seq(n, i => 0)
  }

  /** The parameter list: the arguments, then zeros. */
  function ParamsOf(args: seq<int>): (p: seq<int>)
    requires |args| <= 9
    ensures |p| == 9
  {
    args + Zeros(9 - |args|)
  }

  /** What nrl_terminfo_string_format means: its pieces, one after the other. */
  function FormatSpec(fmt: seq<byte>, args: seq<int>): Option<seq<byte>>
    requires Ended(fmt) && |args| <= 9
  {
    Run(Pieces(fmt), State([], [], ParamsOf(args)))
  }

  /** Remaining pieces, resumed with some literals printed but not yet pushed. */
  function Resume(fmt: seq<byte>, out: seq<byte>, stack: seq<int>, params: seq<int>): Option<seq<byte>>
    requires Ended(fmt) && |params| == 9
  {
    Run(Pieces(fmt), State(out, stack, params))
  }

  lemma ResumeAll(fmt: seq<byte>, args: seq<int>)
    requires Ended(fmt) && |args| <= 9
    ensures Resume(fmt, [], [], ParamsOf(args)) == FormatSpec(fmt, args)
  {
  }

  lemma ResumeNothing(out: seq<byte>, stack: seq<int>, params: seq<int>)
    requires |params| == 9
    ensures Resume([], out, stack, params) == Some(out)
  {
  }

  lemma ResumeBadDigit(fmt: seq<byte>, out: seq<byte>, stack: seq<int>, params: seq<int>)
    requires Ended(fmt) && fmt != [] && fmt[0] == PERCENT && fmt[1] == LETTER_P && |params| == 9
    requires !(49 <= CharAt(fmt, 2) <= 57)
    ensures Resume(fmt, out, stack, params) == None
  {
  }

  lemma ResumeLiteral(fmt: seq<byte>, out: seq<byte>, stack: seq<int>, params: seq<int>)
    requires Ended(fmt) && fmt != [] && fmt[0] != PERCENT && |params| == 9
    ensures Resume(fmt, out, stack, params) == Resume(fmt[1..], out + [fmt[0]], stack, params)
  {
    assert Pieces(fmt)[1..] == Pieces(fmt[1..]);
  }

  lemma ResumeEscape(fmt: seq<byte>, out: seq<byte>, stack: seq<int>, params: seq<int>)
    requires Ended(fmt) && fmt != [] && fmt[0] == PERCENT && |params| == 9
    requires fmt[1] == LETTER_P ==> 49 <= CharAt(fmt, 2) <= 57
    ensures
      var p := Pieces(fmt)[0];
      var rest := if fmt[1] == LETTER_P then fmt[3..] else fmt[2..];
      var next := Execute(p, State(out, stack, params));
      Resume(fmt, out, stack, params) ==
        if next.None? then None else Resume(rest, next.value.out, next.value.stack, next.value.params)
  {
    assert Pieces(fmt)[1..] == Pieces(if fmt[1] == LETTER_P then fmt[3..] else fmt[2..]);
  }

  /** `f` is where the pointer stands in the string that starts at `last`. */
  ghost predicate Within(last: seq<byte>, f: seq<byte>) {
    |f| <= |last| && last[|last| - |f|..] == f
  }

  /** The characters between the two pointers. */
  function Pending(last: seq<byte>, f: seq<byte>): seq<byte>
    requires |f| <= |last|
  {
    last[..|last| - |f|]
  }

  lemma PendingGrows(last: seq<byte>, f: seq<byte>)
    requires Within(last, f) && f != []
    ensures Within(last, f[1..]) && Pending(last, f[1..]) == Pending(last, f) + [f[0]]
  {
    var k := |last| - |f|;
    DropMore(last, k, 1);
    TakeNext(last, k);
    assert last[k] == last[k..][0];
  }

  /**
   * nrl_terminfo_string_format: literals are pushed in windows from `last` to `f`, and
   * None stands for NULL. A pointer into a C string is the rest of the string from there.
   */
  method Format(fmt: seq<byte>, args: seq<int>) returns (r: Option<seq<byte>>)
    requires CString(fmt) && Ended(fmt) && |args| <= 9
    ensures r == FormatSpec(fmt, args)
  {
    hide Run, Resume, FormatSpec;
    var out: seq<byte> := [];
    var st: seq<int> := [];
    var plist := ParamsOf(args);
    var f, last := fmt, fmt;
    assert out + Pending(last, f) == [];
    ResumeAll(fmt, args);
    while f != []
      invariant |plist| == 9 && Ended(f) && Within(last, f)
      invariant Resume(f, out + Pending(last, f), st, plist) == FormatSpec(fmt, args)
      decreases |f|
    {
      if f[0] != PERCENT {
        ResumeLiteral(f, out + Pending(last, f), st, plist);
        PendingGrows(last, f);
        ConcatAssociates(out, Pending(last, f), [f[0]]);
        f := f[1..];
        continue;
      }
      out := out + Pending(last, f);
      if f[1] == LETTER_P {
        var c := CharAt(f, 2);
        if c < 49 || c > 57 {
          ResumeBadDigit(f, out, st, plist);
          return None;
        }
        ResumeEscape(f, out, st, plist);
        st := st + [plist[c - 48 - 1]];
        f := f[3..];
      } else {
        ResumeEscape(f, out, st, plist);
        if f[1] == LETTER_I {
          plist := plist[0 := Int32(plist[0] + 1)];
          plist := plist[1 := Int32(plist[1] + 1)];
        } else if f[1] == LETTER_D {
          if st == [] {
            return None;
          }
          var top := |st| - 1;
          out := out + Decimal(st[top]);
          st := st[..top];
        }
        f := f[2..];
      }
      last := f;
      assert out + Pending(last, f) == out;
    }
    ResumeNothing(out + Pending(last, f), st, plist);
    return Some(out + Pending(last, f));
  }

  /** Some prefix of the pieces pops more values than it has pushed, or pushes a bad parameter. */
  ghost predicate Faulty(ps: seq<Piece>, depth: nat) {
    exists i :: 0 <= i < |ps| && FaultAt(ps, depth, i)
  }

  ghost predicate FaultAt(ps: seq<Piece>, depth: nat, i: nat)
    requires i < |ps|
  {
    ps[i] == BadPush || (ps[i].Push? && ps[i].param >= 9) || (ps[i] == Pop && Balance(ps[..i], depth) <= 0)
  }

  /** Stack depth after some pieces, as if it could go below zero. */
  function Balance(ps: seq<Piece>, depth: int): int {
    if ps == [] then depth
    else Balance(ps[1..], depth + if ps[0].Push? then 1 else if ps[0].Pop? then -1 else 0)
  }

  /** The formatter answers NULL exactly for a bad parameter digit or a pop of an empty stack. */
  lemma {:induction false} NullIffFaulty(ps: seq<Piece>, st: State)
    requires |st.params| == 9
    ensures Run(ps, st).None? <==> Faulty(ps, |st.stack|)
  {
    if ps != [] {
      var depth := |st.stack|;
      var next := Execute(ps[0], st);
      assert FaultAt(ps, depth, 0) <==> next.None? by {
        assert ps[..0] == [];
      }
      if next.Some? {
        var depth' := |next.value.stack|;
        NullIffFaulty(ps[1..], next.value);
        forall i | 0 <= i < |ps| - 1 ensures FaultAt(ps, depth, i + 1) <==> FaultAt(ps[1..], depth', i) {
          assert ps[..i + 1][1..] == ps[1..][..i];
        }
        if Faulty(ps, depth) {
          var i :| 0 <= i < |ps| && FaultAt(ps, depth, i);
          assert FaultAt(ps[1..], depth', i - 1);
        }
        if Faulty(ps[1..], depth') {
          var i :| 0 <= i < |ps| - 1 && FaultAt(ps[1..], depth', i);
          assert FaultAt(ps, depth, i + 1);
        }
      }
    }
  }

  /** One piece as terminfo(5) has it ("Parameterized Strings"): `%%` outputs a percent sign. */
  function Standard(p: Piece, st: State): (r: Option<State>)
    requires |st.params| == 9
    ensures r.Some? ==> |r.value.params| == 9
  {
    if p.Percent? then Some(st.(out := st.out + [PERCENT])) else Execute(p, st)
  }

  function StandardRun(ps: seq<Piece>, st: State): Option<seq<byte>>
    requires |st.params| == 9
  {
    if ps == [] then Some(st.out)
    else
      match Standard(ps[0], st)
      case None => None
      case Some(next) => StandardRun(ps[1..], next)
  }

  function StandardSpec(fmt: seq<byte>, args: seq<int>): Option<seq<byte>>
    requires Ended(fmt) && |args| <= 9
  {
    StandardRun(Pieces(fmt), State([], [], ParamsOf(args)))
  }

  /** Both fail alike, and otherwise the output differs by as many bytes as there are `%%`. */
  lemma {:induction false} PercentsAreLost(ps: seq<Piece>, a: State, b: State)
    requires |a.params| == 9 && a.params == b.params && a.stack == b.stack
    ensures StandardRun(ps, a).None? <==> Run(ps, b).None?
    ensures Run(ps, b).Some? ==>
      var more := |StandardRun(ps, a).value| - |Run(ps, b).value| - (|a.out| - |b.out|);
      more >= 0 && (more == 0 <==> Percent !in ps)
    ensures Percent !in ps && a == b ==> StandardRun(ps, a) == Run(ps, b)
  {
    if ps != [] {
      var next, next' := Execute(ps[0], b), Standard(ps[0], a);
      assert ps == [ps[0]] + ps[1..];
      if next.Some? {
        PercentsAreLost(ps[1..], next'.value, next.value);
      }
    }
  }

  /** A format of literals, `%p`, `%i`, `%d` and `%%` only, to which terminfo(5) gives a meaning. */
  ghost predicate InFragment(fmt: seq<byte>)
    requires Ended(fmt)
  {
    Ignored !in Pieces(fmt) && !Faulty(Pieces(fmt), 0)
  }

  /** On a format of the fragment the formatter does what terminfo(5) says exactly when it has no `%%`. */
  lemma StandardIff(fmt: seq<byte>, args: seq<int>)
    requires Ended(fmt) && |args| <= 9 && InFragment(fmt)
    ensures StandardSpec(fmt, args).Some?
    ensures FormatSpec(fmt, args) == StandardSpec(fmt, args) <==> Percent !in Pieces(fmt)
  {
    var st := State([], [], ParamsOf(args));
    PercentsAreLost(Pieces(fmt), st, st);
    NullIffFaulty(Pieces(fmt), st);
  }

  function WithoutIgnored(ps: seq<Piece>): seq<Piece> {
    if ps == [] then []
    else (if ps[0].Ignored? then [] else [ps[0]]) + WithoutIgnored(ps[1..])
  }

  /** Every other operator is as good as absent: it prints nothing and pops nothing. */
  lemma {:induction false} OthersDoNothing(ps: seq<Piece>, st: State)
    requires |st.params| == 9
    ensures Run(WithoutIgnored(ps), st) == Run(ps, st)
  {
    if ps != [] {
      var rest := WithoutIgnored(ps[1..]);
      if ps[0].Ignored? {
        assert [] + rest == rest;
        OthersDoNothing(ps[1..], st);
      } else {
        assert ([ps[0]] + rest)[1..] == rest;
        var next := Execute(ps[0], st);
        if next.Some? {
          OthersDoNothing(ps[1..], next.value);
        }
      }
    }
  }

  /** `%c` is among them, so a character parameter is not printed. */
  lemma CharacterIsLost(arg: int)
    ensures FormatSpec([PERCENT, LETTER_P, 49, PERCENT, 99], [arg]) == Some([])
  {
    var fmt, st := [PERCENT, LETTER_P, 49, PERCENT, 99], State([], [], ParamsOf([arg]));
    var pushed := st.(stack := st.stack + [st.params[0]]);
    assert fmt[3..] == [PERCENT, 99] && [PERCENT, 99][2..] == [];
    assert Pieces([PERCENT, 99]) == [Ignored];
    assert Pieces(fmt) == [Push(0), Ignored];
    assert [Push(0), Ignored][1..] == [Ignored] && [Ignored][1..] == [];
    assert Run([Ignored], pushed) == Run([], pushed);
    assert Run([Push(0), Ignored], st) == Run([Ignored], pushed);
  }

  /** The shortest format of the fragment on which they differ. */
  lemma PercentIsLost()
    ensures FormatSpec([PERCENT, PERCENT], []) == Some([]) && StandardSpec([PERCENT, PERCENT], []) == Some([PERCENT])
  {
    var fmt := [PERCENT, PERCENT];
    assert fmt[2..] == [];
    var st := State([], [], ParamsOf([]));
    assert Pieces(fmt) == [Percent];
    assert [Percent][1..] == [];
    assert Run([Percent], st) == Run([], st);
    assert st.out + [PERCENT] == [PERCENT];
    assert StandardRun([Percent], st) == StandardRun([], st.(out := [PERCENT]));
  }

  /** Text that a format copies verbatim. */
  predicate Plain(a: seq<byte>) {
    PERCENT !in a
  }

  lemma {:induction false} ResumePlain(a: seq<byte>, rest: seq<byte>, out: seq<byte>, stack: seq<int>, params: seq<int>)
    requires Plain(a) && Ended(rest) && |params| == 9
    ensures Ended(a + rest) && Resume(a + rest, out, stack, params) == Resume(rest, out + a, stack, params)
  {
    if a == [] {
      assert a + rest == rest && out + a == out;
    } else {
      assert (a + rest)[1..] == a[1..] + rest;
      ResumePlain(a[1..], rest, out + [a[0]], stack, params);
      assert out + [a[0]] + a[1..] == out + a;
      ResumeLiteral(a + rest, out, stack, params);
    }
  }

  /** `%i`, or nothing. */
  function IncrementText(inc: bool): seq<byte> {
    if inc then [PERCENT, LETTER_I] else []
  }

  /** `%pN%d`. */
  function ParamText(n: nat): seq<byte>
    requires 1 <= n <= 9
  {
    [PERCENT, LETTER_P, ZERO + n, PERCENT, LETTER_D]
  }

  lemma ResumeIncrement(inc: bool, rest: seq<byte>, out: seq<byte>, params: seq<int>)
    requires Ended(rest) && |params| == 9
    ensures Ended(IncrementText(inc) + rest)
    ensures Resume(IncrementText(inc) + rest, out, [], params)
         == Resume(rest, out, [], if inc then params[0 := Int32(params[0] + 1)][1 := Int32(params[1] + 1)] else params)
  {
    var fmt := IncrementText(inc) + rest;
    if inc {
      assert fmt[2..] == rest;
      ResumeEscape(fmt, out, [], params);
    } else {
      assert fmt == rest;
    }
  }

  lemma ResumePush(n: nat, rest: seq<byte>, out: seq<byte>, params: seq<int>)
    requires 1 <= n <= 9 && Ended(rest) && |params| == 9
    ensures Ended([PERCENT, LETTER_P, ZERO + n] + rest)
    ensures Resume([PERCENT, LETTER_P, ZERO + n] + rest, out, [], params)
         == Resume(rest, out, [params[n - 1]], params)
  {
    var fmt := [PERCENT, LETTER_P, ZERO + n] + rest;
    assert fmt[3..] == rest;
    ResumeEscape(fmt, out, [], params);
    assert [] + [params[n - 1]] == [params[n - 1]];
  }

  lemma ResumePop(rest: seq<byte>, out: seq<byte>, v: int, params: seq<int>)
    requires Ended(rest) && |params| == 9
    ensures Ended([PERCENT, LETTER_D] + rest)
    ensures Resume([PERCENT, LETTER_D] + rest, out, [v], params) == Resume(rest, out + Decimal(v), [], params)
  {
    var fmt := [PERCENT, LETTER_D] + rest;
    assert fmt[2..] == rest;
    ResumeEscape(fmt, out, [v], params);
    assert [v][..0] == [];
  }

  lemma ResumeParam(n: nat, rest: seq<byte>, out: seq<byte>, params: seq<int>)
    requires 1 <= n <= 9 && Ended(rest) && |params| == 9
    ensures Ended(ParamText(n) + rest)
    ensures Resume(ParamText(n) + rest, out, [], params) == Resume(rest, out + Decimal(params[n - 1]), [], params)
  {
    assert ParamText(n) + rest == [PERCENT, LETTER_P, ZERO + n] + ([PERCENT, LETTER_D] + rest);
    ResumePop(rest, out, params[n - 1], params);
    ResumePush(n, [PERCENT, LETTER_D] + rest, out, params);
  }

  /** The two-parameter formats in use: `a [%i] b %p1%d c %p2%d d`. */
  datatype Shape = Shape(a: seq<byte>, inc: bool, b: seq<byte>, c: seq<byte>, d: seq<byte>)

  predicate Readable(s: Shape) {
    && Plain(s.a) && Plain(s.b) && Plain(s.c) && Plain(s.d)
    && s.c != [] && Delimited(s.c) && Delimited(s.d)
  }

  function LastParam(s: Shape): seq<byte> {
    ParamText(2) + s.d
  }

  function BothParams(s: Shape): seq<byte> {
    ParamText(1) + (s.c + LastParam(s))
  }

  function PrintFormat(s: Shape): seq<byte> {
    s.a + (IncrementText(s.inc) + (s.b + BothParams(s)))
  }

  /** What is printed for the values 1 and 2, already incremented. */
  function Printed(s: Shape, v1: int, v2: int): seq<byte> {
    s.a + (s.b + (Decimal(v1) + (s.c + (Decimal(v2) + s.d))))
  }

  function Shift(inc: bool, p: int): int {
    if inc then Int32(p + 1) else p
  }

  lemma LastPrints(s: Shape, out: seq<byte>, params: seq<int>)
    requires Plain(s.d) && |params| == 9
    ensures Ended(LastParam(s))
    ensures Resume(LastParam(s), out, [], params) == Some(out + (Decimal(params[1]) + s.d))
  {
    assert s.d + [] == s.d;
    ResumePlain(s.d, [], out + Decimal(params[1]), [], params);
    ResumeParam(2, s.d, out, params);
    ConcatAssociates(out, Decimal(params[1]), s.d);
  }

  lemma BothPrint(s: Shape, out: seq<byte>, params: seq<int>)
    requires Plain(s.c) && Plain(s.d) && |params| == 9
    ensures Ended(BothParams(s))
    ensures Resume(BothParams(s), out, [], params)
         == Some(out + (Decimal(params[0]) + (s.c + (Decimal(params[1]) + s.d))))
  {
    var o1 := out + Decimal(params[0]);
    LastPrints(s, o1 + s.c, params);
    ResumePlain(s.c, LastParam(s), o1, [], params);
    ResumeParam(1, s.c + LastParam(s), out, params);
    ConcatAssociates(o1, s.c, Decimal(params[1]) + s.d);
    ConcatAssociates(out, Decimal(params[0]), s.c + (Decimal(params[1]) + s.d));
  }

  /** The formatter prints the literals with the (incremented) parameters between them. */
  lemma FormatPrints(s: Shape, p1: int, p2: int)
    requires Plain(s.a) && Plain(s.b) && Plain(s.c) && Plain(s.d)
    ensures Ended(PrintFormat(s))
    ensures FormatSpec(PrintFormat(s), [p1, p2]) == Some(Printed(s, Shift(s.inc, p1), Shift(s.inc, p2)))
  {
    var ps := ParamsOf([p1, p2]);
    var qs := if s.inc then ps[0 := Int32(ps[0] + 1)][1 := Int32(ps[1] + 1)] else ps;
    var f := BothParams(s);
    BothPrint(s, s.a + s.b, qs);
    ResumePlain(s.b, f, s.a, [], qs);
    ResumeIncrement(s.inc, s.b + f, s.a, ps);
    ResumePlain(s.a, IncrementText(s.inc) + (s.b + f), [], [], ps);
    assert [] + s.a == s.a;
    ConcatAssociates(s.a, s.b, Decimal(qs[0]) + (s.c + (Decimal(qs[1]) + s.d)));
  }

  /** A format for reading does not end in a percent sign that introduces nothing. */
  predicate Scannable(fmt: seq<byte>) {
    if fmt == [] then true
    else if fmt[0] != PERCENT then Scannable(fmt[1..])
    else |fmt| > 1 && Scannable(fmt[2..])
  }

  /** The result of parse2 and what it has left in its two result variables. */
  datatype Reading = Reading(ok: bool, p1: int, p2: int)

  /** nrl_terminfo_string_parse2, one format character at a time; `k` counts the numbers read. */
  function ParseSpec(fmt: seq<byte>, data: seq<byte>, inc: bool, k: nat, p1: int, p2: int): Reading
    requires Scannable(fmt)
    decreases |fmt|
  {
    if fmt == [] then
      if inc then Reading(true, Int32(p1 - 1), Int32(p2 - 1)) else Reading(true, p1, p2)
    else if data == [] then Reading(false, p1, p2)
    else if fmt[0] != PERCENT then
      if fmt[0] != data[0] then Reading(false, p1, p2)
      else ParseSpec(fmt[1..], data[1..], inc, k, p1, p2)
    else if fmt[1] == LETTER_I then ParseSpec(fmt[2..], data, true, k, p1, p2)
    else if fmt[1] == LETTER_D then
      if k >= 2 then Reading(false, p1, p2)
      else
        var n := Strtol(data);
        var v := Int32(n.value);
        var q1, q2 := if k == 0 then v else p1, if k == 0 then p2 else v;
        if v == 0 then Reading(false, q1, q2)
        else ParseSpec(fmt[2..], data[n.length..], inc, k + 1, q1, q2)
    else ParseSpec(fmt[2..], data, inc, k, p1, p2)
  }

  lemma EndsAtNul(s: seq<byte>)
    requires CString(s)
    ensures CharAt(s, 0) == 0 <==> s == []
  {
  }

  /** A pointer into a C string is the rest of the string from there. */
  method Parse2(fmt: seq<byte>, data: seq<byte>, initial1: int, initial2: int) returns (ok: bool, p1: int, p2: int)
    requires CString(fmt) && CString(data) && Scannable(fmt)
    ensures Reading(ok, p1, p2) == ParseSpec(fmt, data, false, 0, initial1, initial2)
  {
    p1, p2 := initial1, initial2;
    var iFlag, current := false, 0;
    var f, d := fmt, data;
    while f != []
      invariant CString(d) && Scannable(f) && 0 <= current <= 2
      invariant ParseSpec(f, d, iFlag, current, p1, p2) == ParseSpec(fmt, data, false, 0, initial1, initial2)
      decreases |f|
    {
      EndsAtNul(d);
      if CharAt(d, 0) == 0 {
        return false, p1, p2;
      }
      if f[0] != PERCENT {
        if f[0] != d[0] {
          return false, p1, p2;
        }
        f, d := f[1..], d[1..];
        continue;
      }
      if f[1] == LETTER_I {
        iFlag := true;
      } else if f[1] == LETTER_D {
        if current >= 2 {
          return false, p1, p2;
        }
        var n := Strtol(d);
        var v := Int32(n.value);
        p1, p2 := if current == 0 then v else p1, if current == 0 then p2 else v;
        if v == 0 {
          return false, p1, p2;
        }
        current := current + 1;
        d := d[n.length..];
      }
      f := f[2..];
    }
    ok := true;
    if iFlag {
      p1, p2 := Int32(p1 - 1), Int32(p2 - 1);
    }
  }

  lemma {:induction false} ParsePlain(a: seq<byte>, fmt: seq<byte>, data: seq<byte>, inc: bool, k: nat, p1: int, p2: int)
    requires Plain(a) && Scannable(fmt)
    ensures Scannable(a + fmt)
    ensures ParseSpec(a + fmt, a + data, inc, k, p1, p2) == ParseSpec(fmt, data, inc, k, p1, p2)
  {
    if a == [] {
      assert a + fmt == fmt && a + data == data;
    } else {
      assert (a + fmt)[1..] == a[1..] + fmt && (a + data)[1..] == a[1..] + data;
      ParsePlain(a[1..], fmt, data, inc, k, p1, p2);
    }
  }

  lemma ParseNumber(v: int, fmt: seq<byte>, data: seq<byte>, inc: bool, k: nat, p1: int, p2: int)
    requires -0x8000_0000 <= v < 0x8000_0000 && Delimited(data) && Scannable(fmt) && k < 2
    ensures Scannable([PERCENT, LETTER_D] + fmt)
    ensures
      var q1, q2 := if k == 0 then v else p1, if k == 0 then p2 else v;
      ParseSpec([PERCENT, LETTER_D] + fmt, Decimal(v) + data, inc, k, p1, p2)
      == if v == 0 then Reading(false, q1, q2) else ParseSpec(fmt, data, inc, k + 1, q1, q2)
  {
    StrtolOfDecimal(v, data);
    assert ([PERCENT, LETTER_D] + fmt)[2..] == fmt;
    assert (Decimal(v) + data)[|Decimal(v)|..] == data;
  }

  lemma ParseIncrement(inc: bool, fmt: seq<byte>, data: seq<byte>, p1: int, p2: int)
    requires Scannable(fmt) && data != []
    ensures Scannable(IncrementText(inc) + fmt)
    ensures ParseSpec(IncrementText(inc) + fmt, data, false, 0, p1, p2) == ParseSpec(fmt, data, inc, 0, p1, p2)
  {
    if inc {
      assert (IncrementText(inc) + fmt)[2..] == fmt;
    } else {
      assert IncrementText(inc) + fmt == fmt;
    }
  }

  /** The matching format for reading: `a [%i] b %d c %d d`. */
  function ScanFormat(s: Shape): seq<byte> {
    s.a + (IncrementText(s.inc) + (s.b + NumbersFormat(s)))
  }

  function NumbersFormat(s: Shape): seq<byte> {
    [PERCENT, LETTER_D] + (s.c + ([PERCENT, LETTER_D] + s.d))
  }

  /** What the two numbers, read back, leave behind. */
  function ReadNumbers(inc: bool, v1: int, v2: int, y: int): Reading {
    if v1 == 0 then Reading(false, v1, y)
    else if v2 == 0 then Reading(false, v1, v2)
    else if inc then Reading(true, Int32(v1 - 1), Int32(v2 - 1))
    else Reading(true, v1, v2)
  }

  lemma ParseTail(d: seq<byte>, inc: bool, v1: int, v2: int)
    requires Plain(d)
    ensures Scannable(d)
    ensures ParseSpec(d, d, inc, 2, v1, v2)
         == if inc then Reading(true, Int32(v1 - 1), Int32(v2 - 1)) else Reading(true, v1, v2)
  {
    assert d + [] == d;
    ParsePlain(d, [], [], inc, 2, v1, v2);
  }

  lemma PlainIsScannable(d: seq<byte>)
    requires Plain(d)
    ensures Scannable(d)
  {
    if d != [] {
      PlainIsScannable(d[1..]);
    }
  }

  lemma ParseLast(d: seq<byte>, inc: bool, v1: int, v2: int, y: int)
    requires Plain(d) && Delimited(d) && v1 != 0 && -0x8000_0000 <= v2 < 0x8000_0000
    ensures Scannable([PERCENT, LETTER_D] + d)
    ensures ParseSpec([PERCENT, LETTER_D] + d, Decimal(v2) + d, inc, 1, v1, y) == ReadNumbers(inc, v1, v2, y)
  {
    hide Strtol, Decimal, Int32;
    PlainIsScannable(d);
    ParseNumber(v2, d, d, inc, 1, v1, y);
    var r := ParseSpec([PERCENT, LETTER_D] + d, Decimal(v2) + d, inc, 1, v1, y);
    if v2 == 0 {
      assert r == Reading(false, v1, v2);
    } else {
      assert r == ParseSpec(d, d, inc, 2, v1, v2);
      ParseTail(d, inc, v1, v2);
    }
  }

  lemma ParseSecond(s: Shape, v1: int, v2: int, y: int)
    requires Plain(s.c) && Plain(s.d) && Delimited(s.d) && v1 != 0 && -0x8000_0000 <= v2 < 0x8000_0000
    ensures Scannable(s.c + ([PERCENT, LETTER_D] + s.d))
    ensures ParseSpec(s.c + ([PERCENT, LETTER_D] + s.d), s.c + (Decimal(v2) + s.d), s.inc, 1, v1, y)
         == ReadNumbers(s.inc, v1, v2, y)
  {
    ParseLast(s.d, s.inc, v1, v2, y);
    ParsePlain(s.c, [PERCENT, LETTER_D] + s.d, Decimal(v2) + s.d, s.inc, 1, v1, y);
  }

  lemma ParseNumbers(s: Shape, v1: int, v2: int, x: int, y: int)
    requires Readable(s)
    requires -0x8000_0000 <= v1 < 0x8000_0000 && -0x8000_0000 <= v2 < 0x8000_0000
    ensures Scannable(NumbersFormat(s))
    ensures ParseSpec(NumbersFormat(s), Decimal(v1) + (s.c + (Decimal(v2) + s.d)), s.inc, 0, x, y)
         == ReadNumbers(s.inc, v1, v2, y)
  {
    var rest, data := s.c + ([PERCENT, LETTER_D] + s.d), s.c + (Decimal(v2) + s.d);
    assert Delimited(data);
    ParseSecond(s, if v1 == 0 then 1 else v1, v2, y);
    ParseNumber(v1, rest, data, s.inc, 0, x, y);
  }

  /**
   * Round trip: reading what was printed succeeds exactly when neither printed number is
   * zero, and then gives the parameters back. With `%i` every position >= 0 qualifies.
   */
  lemma ReadBack(s: Shape, p1: int, p2: int, x: int, y: int)
    requires Readable(s)
    requires -0x8000_0000 <= p1 && p1 + (if s.inc then 1 else 0) < 0x8000_0000
    requires -0x8000_0000 <= p2 && p2 + (if s.inc then 1 else 0) < 0x8000_0000
    ensures Ended(PrintFormat(s)) && Scannable(ScanFormat(s))
    ensures FormatSpec(PrintFormat(s), [p1, p2]).Some?
    ensures
      var r := ParseSpec(ScanFormat(s), FormatSpec(PrintFormat(s), [p1, p2]).value, false, 0, x, y);
      && (r.ok <==> Shift(s.inc, p1) != 0 && Shift(s.inc, p2) != 0)
      && (r.ok ==> r == Reading(true, p1, p2))
  {
    var v1, v2 := Shift(s.inc, p1), Shift(s.inc, p2);
    FormatPrints(s, p1, p2);
    var numbers := Decimal(v1) + (s.c + (Decimal(v2) + s.d));
    ParseNumbers(s, v1, v2, x, y);
    ParsePlain(s.b, NumbersFormat(s), numbers, s.inc, 0, x, y);
    ParseIncrement(s.inc, s.b + NumbersFormat(s), s.b + numbers, x, y);
    ParsePlain(s.a, IncrementText(s.inc) + (s.b + NumbersFormat(s)), s.b + numbers, false, 0, x, y);
  }

  // What is printed and scanned, character by character

  /** Numbers are printed in base ten, most significant digit first, with a minus sign when negative. */
  lemma DecimalIsBaseTen(n: int)
    ensures 0 <= n < 10 ==> Decimal(n) == [48 + n]
    ensures n >= 10 ==> Decimal(n) == Decimal(n / 10) + [48 + n % 10]
    ensures n < 0 ==> Decimal(n) == [45] + Decimal(-n)
  {
  }

  /** The value pushed last is printed first. */
  lemma LastPushedFirst(p1: int, p2: int)
    ensures FormatSpec([37, 112, 49, 37, 112, 50, 37, 100, 37, 100], [p1, p2]) == Some(Decimal(p2) + Decimal(p1))
  {
    var ps := ParamsOf([p1, p2]);
    ResumePush(1, [37, 112, 50, 37, 100, 37, 100], [], ps);
    var pop: seq<byte>, pops: seq<byte> := [37, 100], [37, 100, 37, 100];
    var fmt: seq<byte> := [37, 112, 49, 37, 112, 50, 37, 100, 37, 100];
    assert fmt[3..] == [37, 112, 50] + pops && fmt[3..][3..] == pops && pops[2..] == pop && pop[2..] == [];
    assert Pieces(pop) == [Pop] && Pieces(pops) == [Pop, Pop];
    assert Pieces(fmt[3..]) == [Push(1), Pop, Pop];
    assert Pieces(fmt) == [Push(0), Push(1), Pop, Pop];
    var st := State([], [], ps);
    var st1 := State([], [p1], ps);
    var st2 := State([], [p1, p2], ps);
    var st3 := State(Decimal(p2), [p1], ps);
    assert [] + [p1] == [p1] && [p1] + [p2] == [p1, p2] && [p1, p2][..1] == [p1] && [p1][..0] == [];
    assert [] + Decimal(p2) == Decimal(p2);
    assert Execute(Push(0), st) == Some(st1) && Execute(Push(1), st1) == Some(st2);
    assert Execute(Pop, st2) == Some(st3) && Execute(Pop, st3) == Some(State(Decimal(p2) + Decimal(p1), [], ps));
    assert [Push(0), Push(1), Pop, Pop][1..] == [Push(1), Pop, Pop] && [Push(1), Pop, Pop][1..] == [Pop, Pop];
    assert [Pop, Pop][1..] == [Pop] && [Pop][1..] == [];
    assert Run([Pop], st3) == Some(Decimal(p2) + Decimal(p1));
    assert Run([Pop, Pop], st2) == Run([Pop], st3);
    assert Run([Push(1), Pop, Pop], st1) == Run([Pop, Pop], st2);
  }

  /** Data that does not go on with the literals of the format is rejected. */
  lemma {:induction false} MismatchIsRejected(a: seq<byte>, rest: seq<byte>, data: seq<byte>, inc: bool, k: nat, p1: int, p2: int)
    requires Plain(a) && Scannable(a + rest) && !(a <= data)
    ensures !ParseSpec(a + rest, data, inc, k, p1, p2).ok
  {
    if data != [] && data[0] == a[0] {
      assert (a + rest)[1..] == a[1..] + rest;
      MismatchIsRejected(a[1..], rest, data[1..], inc, k, p1, p2);
    }
  }
}
