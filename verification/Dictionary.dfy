/** What the escape-sequence DFA means: a map from byte sequences to acceptors. */
module Dictionary {
  import opened Bytes

  // Identifiers of the standard keys
  const KEY_LEFT: nat := 0
  const KEY_RIGHT: nat := 1
  const KEY_BACKSPACE: nat := 2
  const KEY_HOME: nat := 3
  const KEY_END: nat := 4
  const KEY_DELETE: nat := 5

  /** An acceptor together with the flag of the node that holds it. */
  datatype Entry = Entry(custom: bool, id: nat)

  type Dict = map<seq<byte>, Entry>

  /** One call of dfa_insert. */
  datatype Registration = Registration(sequence: seq<byte>, id: nat, custom: bool)

  ghost predicate Comparable(a: seq<byte>, b: seq<byte>) {
    a <= b || b <= a
  }

  /** No registered sequence is empty or a proper prefix of another one. */
  ghost predicate PrefixFree(d: Dict) {
    [] !in d && forall k, l :: k in d && l in d && Comparable(k, l) ==> k == l
  }

  /** `s` may be registered beside the sequences of `d`. */
  ghost predicate Insertable(d: Dict, s: seq<byte>) {
    s != [] && forall k :: k in d && Comparable(k, s) ==> k == s
  }

  /** Some registered sequence starts with `p`. */
  ghost predicate LeadsTo(d: Dict, p: seq<byte>) {
    exists k :: k in d && p <= k
  }

  /** A repeated sequence keeps its first flag and takes the last acceptor. */
  function Register(d: Dict, r: Registration): Dict {
    d[r.sequence := Entry(if r.sequence in d then d[r.sequence].custom else r.custom, r.id)]
  }

  function RegisterAll(d: Dict, rs: seq<Registration>): Dict
    decreases |rs|
  {
    if rs == [] then d else RegisterAll(Register(d, rs[0]), rs[1..])
  }

  /** A whole table can be registered, in any order, on top of `d`. */
  ghost predicate TableFits(d: Dict, rs: seq<Registration>) {
    && (forall i :: 0 <= i < |rs| ==> Insertable(d, rs[i].sequence))
    && (forall i, j :: 0 <= i < |rs| && 0 <= j < |rs| && Comparable(rs[i].sequence, rs[j].sequence)
                       ==> rs[i].sequence == rs[j].sequence)
  }

  lemma RegisterKeepsPrefixFree(d: Dict, r: Registration)
    requires PrefixFree(d) && Insertable(d, r.sequence)
    ensures PrefixFree(Register(d, r))
  {
  }

  /** Index of the last registration of `s`, or -1. */
  function Last(rs: seq<Registration>, s: seq<byte>): (i: int)
    ensures -1 <= i < |rs|
    ensures i >= 0 ==> rs[i].sequence == s
    ensures forall j :: i < j < |rs| ==> rs[j].sequence != s
  {
    if rs == [] then -1
    else if rs[|rs| - 1].sequence == s then |rs| - 1
    else Last(rs[..|rs| - 1], s)
  }

  /** Index of the first registration of `s`, or -1. */
  function First(rs: seq<Registration>, s: seq<byte>): (i: int)
    ensures -1 <= i < |rs|
    ensures i >= 0 ==> rs[i].sequence == s
    ensures forall j :: 0 <= j < (if i < 0 then |rs| else i) ==> rs[j].sequence != s
  {
    if rs == [] then -1
    else if rs[0].sequence == s then 0
    else
      var i := First(rs[1..], s);
      if i < 0 then -1 else i + 1
  }

  lemma {:induction false} RegisterAllSnoc(d: Dict, rs: seq<Registration>, r: Registration)
    ensures RegisterAll(d, rs + [r]) == Register(RegisterAll(d, rs), r)
    decreases |rs|
  {
    if rs == [] {
      assert [] + [r] == [r];
      assert [r][1..] == [];
    } else {
      RegisterAllSnoc(Register(d, rs[0]), rs[1..], r);
      assert (rs + [r])[1..] == rs[1..] + [r];
    }
  }

  lemma FirstAndLastSnoc(rs: seq<Registration>, r: Registration, s: seq<byte>)
    ensures Last(rs + [r], s) == if r.sequence == s then |rs| else Last(rs, s)
    ensures First(rs + [r], s) == if First(rs, s) >= 0 then First(rs, s) else if r.sequence == s then |rs| else -1
  {
    var t := rs + [r];
    assert t[..|rs|] == rs;
    var i, j := First(t, s), First(rs, s);
    if j >= 0 {
      assert t[j].sequence == s;
      assert i >= 0 && i <= j;
      assert rs[i].sequence == s;
    } else {
      assert forall k :: 0 <= k < |rs| ==> t[k] == rs[k];
    }
  }

  /** Every sequence ends up with its first flag and its last acceptor. */
  lemma {:induction false} RegisterAllMeaning(d: Dict, rs: seq<Registration>, s: seq<byte>)
    ensures s in RegisterAll(d, rs) <==> s in d || Last(rs, s) >= 0
    ensures Last(rs, s) >= 0 <==> First(rs, s) >= 0
    ensures Last(rs, s) >= 0 ==>
      RegisterAll(d, rs)[s] == Entry(if s in d then d[s].custom else rs[First(rs, s)].custom, rs[Last(rs, s)].id)
    ensures Last(rs, s) < 0 && s in d ==> RegisterAll(d, rs)[s] == d[s]
  {
    if rs != [] {
      var n := |rs| - 1;
      var front, r := rs[..n], rs[n];
      RegisterAllMeaning(d, front, s);
      assert rs == front + [r];
      RegisterAllSnoc(d, front, r);
      FirstAndLastSnoc(front, r, s);
    }
  }

  /** Registering the same table again, as every call of nanorl() does, changes nothing. */
  lemma RegisterAgain(d: Dict, rs: seq<Registration>)
    ensures RegisterAll(RegisterAll(d, rs), rs) == RegisterAll(d, rs)
  {
    var e := RegisterAll(d, rs);
    forall s ensures s in RegisterAll(e, rs) <==> s in e
             ensures s in e ==> RegisterAll(e, rs)[s] == e[s]
    {
      RegisterAllMeaning(d, rs, s);
      RegisterAllMeaning(e, rs, s);
    }
  }

  /** Tables of distinct sequences may be registered in any order. */
  lemma OrderDoesNotMatter(d: Dict, rs: seq<Registration>, ts: seq<Registration>)
    requires forall i, j :: 0 <= i < j < |rs| ==> rs[i].sequence != rs[j].sequence
    requires forall i, j :: 0 <= i < j < |ts| ==> ts[i].sequence != ts[j].sequence
    requires forall r :: r in rs <==> r in ts
    ensures RegisterAll(d, rs) == RegisterAll(d, ts)
  {
    forall s ensures s in RegisterAll(d, rs) <==> s in RegisterAll(d, ts)
             ensures s in RegisterAll(d, rs) ==> RegisterAll(d, rs)[s] == RegisterAll(d, ts)[s]
    {
      RegisterAllMeaning(d, rs, s);
      RegisterAllMeaning(d, ts, s);
      var i, j := Last(rs, s), Last(ts, s);
      if i >= 0 {
        assert rs[i] in ts;
        var k :| 0 <= k < |ts| && ts[k] == rs[i];
        assert k == j && First(ts, s) == k && First(rs, s) == i;
      }
      if j >= 0 {
        assert ts[j] in rs;
      }
    }
  }

  /** Two registered sequences cannot both start the same input. */
  lemma AtMostOneMatch(d: Dict, s: seq<byte>, pos: nat, m: nat, n: nat)
    requires PrefixFree(d)
    requires Window(s, pos, m) in d && Window(s, pos, n) in d
    ensures m == n
  {
    var short, long := if m <= n then m else n, if m <= n then n else m;
    WindowPrefix(s, pos, short, long);
    assert Window(s, pos, short) <= Window(s, pos, long);
    assert Comparable(Window(s, pos, short), Window(s, pos, long));
  }
}
