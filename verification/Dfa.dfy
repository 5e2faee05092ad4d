/**
 * The escape-sequence DFA of src/dfa.c: a trie whose nodes own growing child arrays.
 * Nodes live in one growing sequence and a pointer is an index into it.
 */
module Dfa {
  import opened Bytes
  import opened Dictionary
  import opened Utf8

  /** union dfa_value: reading the wrong member is a proof failure. */
  datatype Value = Children(list: seq<nat>) | Acceptor(id: nat)

  datatype Node = Node(edge: byte, custom: bool, value: Value)

  function ChildrenCount(n: Node): nat {
    if n.value.Children? then |n.value.list| else 0
  }

  /** The nodes, the input that leads to each, the node each hangs off, and what it all means. */
  datatype Model = Model(nodes: seq<Node>, paths: seq<seq<byte>>, parents: seq<nat>, dict: Dict)

  /** Edges lead where the paths say, and siblings are distinct nodes. */
  ghost predicate Edges(m: Model) {
    forall i, j :: 0 <= i < |m.nodes| && m.nodes[i].value.Children? && 0 <= j < |m.nodes[i].value.list| ==>
      && m.nodes[i].value.list[j] < |m.nodes| <= |m.paths|
      && m.paths[m.nodes[i].value.list[j]] == m.paths[i] + [m.nodes[m.nodes[i].value.list[j]].edge]
      && forall k :: 0 <= k < j ==> m.nodes[i].value.list[k] != m.nodes[i].value.list[j]
  }

  ghost predicate Distinct(paths: seq<seq<byte>>) {
    forall i, j :: 0 <= i < j < |paths| ==> paths[i] != paths[j]
  }

  ghost predicate LinkedFrom(nodes: seq<Node>, i: nat, c: nat) {
    i < |nodes| && nodes[i].value.Children? && c in nodes[i].value.list
  }

  /** Every node but the root hangs off the node its own path comes from. */
  ghost predicate Parents(m: Model) {
    |m.parents| == |m.nodes| && forall c :: 1 <= c < |m.nodes| ==> LinkedFrom(m.nodes, m.parents[c], c)
  }

  /** The acceptors are exactly the dictionary. */
  ghost predicate Accepts(m: Model) {
    && |m.nodes| == |m.paths|
    && (forall i :: 0 <= i < |m.nodes| ==> (m.nodes[i].value.Acceptor? <==> m.paths[i] in m.dict))
    && (forall i :: 0 <= i < |m.nodes| && m.paths[i] in m.dict ==>
          m.nodes[i].value.Acceptor? && m.dict[m.paths[i]] == Entry(m.nodes[i].custom, m.nodes[i].value.id))
    && (forall k :: k in m.dict ==> k in m.paths)
  }

  ghost predicate Consistent(m: Model) {
    && |m.nodes| == |m.paths| >= 1 && m.paths[0] == []
    && Edges(m) && Distinct(m.paths) && Parents(m) && Accepts(m)
    && PrefixFree(m.dict)
  }

  /** Every node but `open` is a leaf with an acceptor or has children; each path goes on to a sequence. */
  ghost predicate Grown(m: Model, target: seq<byte>, open: nat) {
    && |m.nodes| == |m.paths|
    && (forall i :: 1 <= i < |m.nodes| && i != open ==> m.nodes[i].value.Acceptor? || m.nodes[i].value.list != [])
    && (forall i :: 1 <= i < |m.nodes| ==> m.paths[i] <= target || LeadsTo(m.dict, m.paths[i]))
  }

  /** A trie, perhaps in the middle of an insertion. */
  type Trie = m: Model | Consistent(m) witness ROOT_ONLY

  /** A trie between insertions. */
  type Tree = m: Model | Consistent(m) && Grown(m, [], 0) witness ROOT_ONLY

  const ROOT_ONLY: Model := Model([Node(0, false, Children([]))], [[]], [0], map[])

  /** A node is reached from the node whose path it extends. */
  lemma ReachedByEdge(m: Trie, at: nat, c: nat)
    requires at < |m.nodes| && c < |m.nodes| && m.paths[c] != []
    requires m.paths[c][..|m.paths[c]| - 1] == m.paths[at]
    ensures m.nodes[at].value.Children? && c in m.nodes[at].value.list
    ensures m.paths[c] == m.paths[at] + [m.nodes[c].edge]
  {
    var p := m.parents[c];
    assert LinkedFrom(m.nodes, p, c);
    EdgeExtendsPath(m, p, c);
    assert m.paths[c][..|m.paths[c]| - 1] == m.paths[p];
    assert p == at;
  }

  lemma EdgeExtendsPath(m: Trie, at: nat, c: nat)
    requires LinkedFrom(m.nodes, at, c) && c < |m.nodes|
    ensures m.paths[c] == m.paths[at] + [m.nodes[c].edge]
  {
    var j :| 0 <= j < |m.nodes[at].value.list| && m.nodes[at].value.list[j] == c;
  }

  /** `edge` leads nowhere from `at`. */
  ghost predicate NoEdge(nodes: seq<Node>, at: nat, edge: byte) {
    && at < |nodes| && nodes[at].value.Children?
    && forall j :: 0 <= j < |nodes[at].value.list| ==>
         nodes[at].value.list[j] < |nodes| && nodes[nodes[at].value.list[j]].edge != edge
  }

  /** Without a child for an edge there is no node anywhere for the longer path. */
  lemma NoOtherWay(m: Trie, at: nat, edge: byte)
    requires NoEdge(m.nodes, at, edge)
    ensures m.paths[at] + [edge] !in m.paths
  {
    var p := m.paths[at] + [edge];
    assert p[..|p| - 1] == m.paths[at];
    if p in m.paths {
      var c :| 0 <= c < |m.paths| && m.paths[c] == p;
      ReachedByEdge(m, at, c);
    }
  }

  /** Every prefix of a path has a node. */
  lemma {:induction false} PrefixHasNode(m: Trie, i: nat, n: nat)
    requires i < |m.paths| && n <= |m.paths[i]|
    ensures m.paths[i][..n] in m.paths
    decreases |m.paths[i]|
  {
    var p := m.paths[i];
    if n == |p| {
      assert p[..n] == p;
    } else {
      var q := m.parents[i];
      assert LinkedFrom(m.nodes, q, i);
      EdgeExtendsPath(m, q, i);
      PrefixHasNode(m, q, n);
      assert p[..n] == m.paths[q][..n];
    }
  }

  lemma NodeLeadsOn(m: Tree, i: nat)
    requires 1 <= i < |m.nodes|
    ensures LeadsTo(m.dict, m.paths[i])
  {
    assert m.paths[0] != m.paths[i];
  }

  lemma SequencePrefixHasNode(m: Trie, p: seq<byte>, k: seq<byte>)
    requires k in m.dict && p <= k
    ensures p in m.paths
  {
    var i :| 0 <= i < |m.paths| && m.paths[i] == k;
    PrefixHasNode(m, i, |p|);
    assert k[..|p|] == p;
  }

  /** The paths of the trie are exactly the prefixes of registered sequences. */
  lemma NodesArePrefixes(m: Tree, p: seq<byte>)
    ensures p in m.paths <==> p == [] || LeadsTo(m.dict, p)
  {
    if p in m.paths {
      var i :| 0 <= i < |m.paths| && m.paths[i] == p;
      if i != 0 {
        NodeLeadsOn(m, i);
      }
    } else if LeadsTo(m.dict, p) {
      var k :| k in m.dict && p <= k;
      SequencePrefixHasNode(m, p, k);
    }
  }

  /** A node is a leaf exactly when its path is a registered sequence. */
  lemma LeavesAreSequences(m: Tree, i: nat)
    requires i < |m.nodes|
    ensures m.paths[i] in m.dict <==> i != 0 && ChildrenCount(m.nodes[i]) == 0
    ensures i != 0 && ChildrenCount(m.nodes[i]) == 0 ==> m.nodes[i].value.Acceptor?
  {
    assert m.paths[0] !in m.dict;
  }

  /** Sibling edges are distinct. */
  lemma SiblingsDiffer(m: Tree, i: nat, a: nat, b: nat)
    requires i < |m.nodes| && m.nodes[i].value.Children? && a < b < |m.nodes[i].value.list|
    ensures m.nodes[i].value.list[a] < |m.nodes| && m.nodes[i].value.list[b] < |m.nodes|
    ensures m.nodes[m.nodes[i].value.list[a]].edge != m.nodes[m.nodes[i].value.list[b]].edge
  {
    var c, d := m.nodes[i].value.list[a], m.nodes[i].value.list[b];
    EdgeExtendsPath(m, i, c);
    EdgeExtendsPath(m, i, d);
    assert c != d && m.paths[c] != m.paths[d];
  }

  /**
   * Inserting `s` never uses an acceptor as children or children as an acceptor: no node on
   * the way ends a sequence, and the node at the end, if there is one, has no children.
   */
  ghost predicate UnionIsSafe(m: Tree, s: seq<byte>) {
    && s != []
    && forall i :: 0 <= i < |m.nodes| && m.paths[i] <= s ==>
         if m.paths[i] == s then ChildrenCount(m.nodes[i]) == 0 else m.nodes[i].value.Children?
  }

  /** That is so exactly when the sequence is not empty and neither prefix nor extension of another one. */
  lemma UnionIsSafeIff(m: Tree, s: seq<byte>)
    ensures UnionIsSafe(m, s) <==> Insertable(m.dict, s)
  {
    if UnionIsSafe(m, s) {
      forall k | k in m.dict && Comparable(k, s) ensures k == s {
        if k <= s {
          var i :| 0 <= i < |m.paths| && m.paths[i] == k;
        } else {
          NodesArePrefixes(m, s);
          var i :| 0 <= i < |m.paths| && m.paths[i] == s;
          LeavesAreSequences(m, i);
          assert Comparable(s, k);
        }
      }
    }
    if Insertable(m.dict, s) {
      forall i | 0 <= i < |m.nodes| && m.paths[i] <= s
        ensures if m.paths[i] == s then ChildrenCount(m.nodes[i]) == 0 else m.nodes[i].value.Children?
      {
        if m.paths[i] == s {
          EndHasNoChildren(m, i, s);
        } else {
          assert m.paths[i] in m.dict ==> Comparable(m.paths[i], s);
        }
      }
    }
  }

  lemma EndHasNoChildren(m: Tree, i: nat, s: seq<byte>)
    requires i < |m.nodes| && m.paths[i] == s && Insertable(m.dict, s)
    ensures ChildrenCount(m.nodes[i]) == 0
  {
    if ChildrenCount(m.nodes[i]) > 0 {
      var c := m.nodes[i].value.list[0];
      EdgeExtendsPath(m, i, c);
      NodesArePrefixes(m, m.paths[c]);
      forall k | k in m.dict ensures !(m.paths[c] <= k) {
        assert s <= k ==> Comparable(k, s);
      }
    }
  }

  /** children_count == 0 at the root means nothing is registered. */
  lemma EmptyRoot(m: Tree)
    ensures m.nodes[0].value.Children?
    ensures ChildrenCount(m.nodes[0]) == 0 <==> m.dict == map[]
  {
    hide Distinct;
    if ChildrenCount(m.nodes[0]) > 0 {
      var c := m.nodes[0].value.list[0];
      assert m.paths[c] == [m.nodes[c].edge];
      NodesArePrefixes(m, m.paths[c]);
    }
    if m.dict != map[] {
      var k :| k in m.dict;
      SequencePrefixHasNode(m, k[..1], k);
      var c :| 0 <= c < |m.paths| && m.paths[c] == k[..1];
      ReachedByEdge(m, 0, c);
    }
  }

  /** The trie with one more child below `cur`, as the realloc branch of dfa_insert builds it. */
  function Appended(nodes: seq<Node>, cur: nat, leaf: Node): (r: seq<Node>)
    requires cur < |nodes| && nodes[cur].value.Children?
    ensures |r| == |nodes| + 1 && r[|nodes|] == leaf
    ensures r[cur] == nodes[cur].(value := Children(nodes[cur].value.list + [|nodes|]))
    ensures forall i :: 0 <= i < |nodes| && i != cur ==> r[i] == nodes[i]
  {
    nodes[cur := nodes[cur].(value := Children(nodes[cur].value.list + [|nodes|]))] + [leaf]
  }

  function AppendedModel(m: Model, cur: nat, leaf: Node): Model
    requires cur < |m.nodes| == |m.paths| && m.nodes[cur].value.Children?
  {
    Model(Appended(m.nodes, cur, leaf), m.paths + [m.paths[cur] + [leaf.edge]], m.parents + [cur], m.dict)
  }

  lemma AppendedEdges(m: Model, cur: nat, leaf: Node)
    requires |m.nodes| == |m.paths| && Edges(m)
    requires cur < |m.nodes| && m.nodes[cur].value.Children? && leaf.value == Children([])
    ensures Edges(AppendedModel(m, cur, leaf))
  {
  }

  lemma AppendedParents(m: Model, cur: nat, leaf: Node)
    requires |m.nodes| == |m.paths| && Parents(m)
    requires cur < |m.nodes| && m.nodes[cur].value.Children?
    ensures Parents(AppendedModel(m, cur, leaf))
  {
    var r := AppendedModel(m, cur, leaf);
    forall i | 1 <= i < |r.nodes| ensures LinkedFrom(r.nodes, r.parents[i], i) {
      if i == |m.nodes| {
        assert r.nodes[cur].value.list[|m.nodes[cur].value.list|] == i;
      } else {
        assert LinkedFrom(m.nodes, m.parents[i], i);
      }
    }
  }

  lemma AppendedAccepts(m: Model, cur: nat, leaf: Node)
    requires Accepts(m)
    requires cur < |m.nodes| && m.nodes[cur].value.Children? && leaf.value == Children([])
    requires m.paths[cur] + [leaf.edge] !in m.paths
    ensures Accepts(AppendedModel(m, cur, leaf))
  {
    var r := AppendedModel(m, cur, leaf);
    var p := m.paths[cur] + [leaf.edge];
    assert p !in m.dict;
    assert forall k :: k in m.paths ==> k in r.paths;
  }

  lemma AppendKeepsTrie(m: Trie, target: seq<byte>, cur: nat, depth: nat, leaf: Node)
    requires Grown(m, target, cur) && depth < |target|
    requires cur < |m.nodes| && m.paths[cur] == target[..depth]
    requires NoEdge(m.nodes, cur, leaf.edge)
    requires leaf.edge == target[depth] && leaf.value == Children([])
    ensures Consistent(AppendedModel(m, cur, leaf))
    ensures Grown(AppendedModel(m, cur, leaf), target, |m.nodes|)
  {
    assert target[..depth + 1] == m.paths[cur] + [leaf.edge];
    NoOtherWay(m, cur, leaf.edge);
    AppendedEdges(m, cur, leaf);
    AppendedParents(m, cur, leaf);
    AppendedAccepts(m, cur, leaf);
  }

  lemma BeyondTarget(d: Dict, sequence: seq<byte>, p: seq<byte>)
    requires Insertable(d, sequence) && sequence < p
    ensures !LeadsTo(d, p)
  {
    forall k | k in d && p <= k ensures false {
      assert Comparable(k, sequence);
    }
  }

  /** The node a whole insertable sequence leads to never has children: the union is not clobbered. */
  lemma EndIsChildless(m: Trie, sequence: seq<byte>, cur: nat)
    requires Grown(m, sequence, cur) && Insertable(m.dict, sequence)
    requires cur < |m.nodes| && m.paths[cur] == sequence
    ensures m.nodes[cur].value.Acceptor? || m.nodes[cur].value.list == []
  {
    if m.nodes[cur].value.Children? && m.nodes[cur].value.list != [] {
      var c := m.nodes[cur].value.list[0];
      assert m.paths[c] == sequence + [m.nodes[c].edge];
      BeyondTarget(m.dict, sequence, m.paths[c]);
    }
  }

  function Stored(m: Model, r: Registration, cur: nat): Model
    requires cur < |m.nodes|
  {
    Model(m.nodes[cur := m.nodes[cur].(value := Acceptor(r.id))], m.paths, m.parents, Register(m.dict, r))
  }

  lemma StoredEdges(m: Model, r: Registration, cur: nat)
    requires Edges(m) && cur < |m.nodes|
    ensures Edges(Stored(m, r, cur))
  {
  }

  lemma StoredParents(m: Model, r: Registration, cur: nat)
    requires Parents(m) && cur < |m.nodes|
    requires m.nodes[cur].value.Acceptor? || m.nodes[cur].value.list == []
    ensures Parents(Stored(m, r, cur))
  {
    var s := Stored(m, r, cur);
    forall i | 1 <= i < |s.nodes| ensures LinkedFrom(s.nodes, s.parents[i], i) {
      assert LinkedFrom(m.nodes, m.parents[i], i);
    }
  }

  lemma StoredAccepts(m: Model, r: Registration, cur: nat)
    requires Distinct(m.paths) && Accepts(m)
    requires cur < |m.nodes| && m.paths[cur] == r.sequence
    requires r.sequence !in m.dict ==> m.nodes[cur].custom == r.custom
    ensures Accepts(Stored(m, r, cur))
  {
    assert forall i :: 0 <= i < |m.nodes| && i != cur ==> m.paths[i] != m.paths[cur];
    assert m.paths[cur] in m.paths;
  }

  lemma LeadsAfterRegister(paths: seq<seq<byte>>, d: Dict, r: Registration)
    requires forall i :: 1 <= i < |paths| ==> paths[i] <= r.sequence || LeadsTo(d, paths[i])
    ensures forall i :: 1 <= i < |paths| ==> LeadsTo(Register(d, r), paths[i])
  {
    forall i | 1 <= i < |paths| ensures LeadsTo(Register(d, r), paths[i]) {
      if paths[i] <= r.sequence {
        assert r.sequence in Register(d, r);
      } else {
        var k :| k in d && paths[i] <= k;
        assert k in Register(d, r);
      }
    }
  }

  /** Storing the acceptor at the node the whole sequence leads to. */
  lemma StoreKeepsTrie(m: Trie, r: Registration, cur: nat)
    requires Grown(m, r.sequence, cur) && Insertable(m.dict, r.sequence)
    requires cur < |m.nodes| && m.paths[cur] == r.sequence
    requires r.sequence !in m.dict ==> m.nodes[cur].custom == r.custom
    ensures Consistent(Stored(m, r, cur)) && Grown(Stored(m, r, cur), [], 0)
  {
    EndIsChildless(m, r.sequence, cur);
    RegisterKeepsPrefixFree(m.dict, r);
    StoredEdges(m, r, cur);
    StoredParents(m, r, cur);
    StoredAccepts(m, r, cur);
    LeadsAfterRegister(m.paths, m.dict, r);
  }

  /** dfa_insert after `i` bytes: at the node `cur`, which alone may still be a bare leaf. */
  datatype Position = Position(trie: Model, r: Registration, cur: nat, i: nat)

  ghost predicate Underway(w: Position) {
    && Consistent(w.trie) && Grown(w.trie, w.r.sequence, w.cur)
    && Insertable(w.trie.dict, w.r.sequence) && w.i <= |w.r.sequence|
    && w.cur < |w.trie.nodes| && w.trie.paths[w.cur] == w.r.sequence[..w.i]
    && (w.cur != 0 && w.r.sequence !in w.trie.dict && w.trie.nodes[w.cur].value == Children([]) ==>
          w.trie.nodes[w.cur].custom == w.r.custom)
  }

  type Walk = w: Position | Underway(w) witness Position(ROOT_ONLY, Registration([0], 0, false), 0, 0)

  lemma WalkStart(m: Tree, r: Registration) returns (w: Walk)
    requires Insertable(m.dict, r.sequence)
    ensures w == Position(m, r, 0, 0)
  {
    w := Position(m, r, 0, 0);
  }

  lemma WalkMeetsNoLeaf(w: Walk)
    requires w.i < |w.r.sequence|
    ensures w.trie.nodes[w.cur].value.Children?
  {
    var p := w.r.sequence[..w.i];
    assert Comparable(p, w.r.sequence) && p != w.r.sequence;
    assert p !in w.trie.dict;
  }

  lemma GrownMoves(m: Model, target: seq<byte>, cur: nat, c: nat)
    requires Grown(m, target, cur) && LinkedFrom(m.nodes, cur, c)
    ensures Grown(m, target, c)
  {
  }

  lemma WalkDown(w: Walk, c: nat) returns (v: Walk)
    requires w.i < |w.r.sequence| && LinkedFrom(w.trie.nodes, w.cur, c) && c < |w.trie.nodes|
    requires w.trie.nodes[c].edge == w.r.sequence[w.i]
    ensures v == Position(w.trie, w.r, c, w.i + 1)
  {
    EdgeExtendsPath(w.trie, w.cur, c);
    GrownMoves(w.trie, w.r.sequence, w.cur, c);
    TakeNext(w.r.sequence, w.i);
    assert |w.trie.paths[c]| == w.i + 1;
    v := Position(w.trie, w.r, c, w.i + 1);
  }

  lemma WalkGrow(w: Walk, leaf: Node) returns (v: Walk)
    requires w.i < |w.r.sequence| && NoEdge(w.trie.nodes, w.cur, w.r.sequence[w.i])
    requires leaf == Node(w.r.sequence[w.i], w.r.custom, Children([]))
    ensures w.r.sequence !in w.trie.dict
    ensures v == Position(v.trie, w.r, |w.trie.nodes|, w.i + 1)
    ensures v.trie.nodes == Appended(w.trie.nodes, w.cur, leaf) && v.trie.dict == w.trie.dict
  {
    var m, s := w.trie, w.r.sequence;
    NoOtherWay(m, w.cur, s[w.i]);
    TakeNext(s, w.i);
    if s in m.dict {
      SequencePrefixHasNode(m, s[..w.i + 1], s);
    }
    AppendKeepsTrie(m, s, w.cur, w.i, leaf);
    v := Position(AppendedModel(m, w.cur, leaf), w.r, |m.nodes|, w.i + 1);
  }

  lemma WalkEnd(w: Walk) returns (m: Tree)
    requires w.i == |w.r.sequence|
    ensures m == Stored(w.trie, w.r, w.cur)
  {
    assert w.r.sequence[..|w.r.sequence|] == w.r.sequence;
    EndIsChildless(w.trie, w.r.sequence, w.cur);
    StoreKeepsTrie(w.trie, w.r, w.cur);
    m := Stored(w.trie, w.r, w.cur);
  }

  /** What one terminfo table asks dfa_insert to register; absent capabilities are skipped. */
  function Entries(table: seq<Option<seq<byte>>>, custom: bool): seq<Registration> {
    if table == [] then []
    else
      var n := |table| - 1;
      Entries(table[..n], custom)
      + if table[n].Some? then [Registration(table[n].value, n, custom)] else []
  }

  /** Everything nrl_dfa_build registers, in its order. */
  function BuildTable(inputs: seq<Option<seq<byte>>>, xterm: bool, customs: seq<Option<seq<byte>>>): seq<Registration> {
    Entries(inputs, false)
    + (if xterm then [Registration([8], KEY_BACKSPACE, false)] else [])
    + Entries(customs, true)
  }

  lemma {:induction false} EntriesPrefix(table: seq<Option<seq<byte>>>, custom: bool, i: nat)
    requires i < |table|
    ensures Entries(table[..i + 1], custom)
         == Entries(table[..i], custom) + if table[i].Some? then [Registration(table[i].value, i, custom)] else []
    ensures Entries(table[..i + 1], custom) <= Entries(table, custom)
    decreases |table|
  {
    assert table[..i + 1][..i] == table[..i];
    if i + 1 == |table| {
      assert table[..i + 1] == table;
    } else {
      var front := table[..|table| - 1];
      EntriesPrefix(front, custom, i);
      assert front[..i + 1] == table[..i + 1];
    }
  }

  lemma {:induction false} EntriesAreTable(table: seq<Option<seq<byte>>>, custom: bool, j: nat)
    requires j < |Entries(table, custom)|
    ensures
      var r := Entries(table, custom)[j];
      r.custom == custom && r.id < |table| && table[r.id] == Some(r.sequence)
  {
    var n := |table| - 1;
    var front := Entries(table[..n], custom);
    if j < |front| {
      EntriesAreTable(table[..n], custom, j);
      assert Entries(table, custom)[j] == front[j];
    }
  }

  /** The custom keys come last, and each with the identifier of its place in their table. */
  lemma BuildTableAt(inputs: seq<Option<seq<byte>>>, xterm: bool, customs: seq<Option<seq<byte>>>, i: nat)
    requires i < |BuildTable(inputs, xterm, customs)|
    ensures
      var rs := BuildTable(inputs, xterm, customs);
      && (rs[i].custom <==> i >= |rs| - |Entries(customs, true)|)
      && (rs[i].custom ==> rs[i].id < |customs| && customs[rs[i].id] == Some(rs[i].sequence))
  {
    var rs, first := BuildTable(inputs, xterm, customs), Entries(inputs, false);
    var k := |rs| - |Entries(customs, true)|;
    if i < |first| {
      EntriesAreTable(inputs, false, i);
      assert rs[i] == first[i];
    } else if i >= k {
      EntriesAreTable(customs, true, i - k);
      assert rs[i] == Entries(customs, true)[i - k];
    }
  }

  /** A sequence that counts as custom was registered from the table of custom keys only. */
  lemma CustomIsFromTable(inputs: seq<Option<seq<byte>>>, xterm: bool, customs: seq<Option<seq<byte>>>, w: seq<byte>)
    ensures
      var d := RegisterAll(map[], BuildTable(inputs, xterm, customs));
      w in d && d[w].custom ==> d[w].id < |customs| && customs[d[w].id] == Some(w)
  {
    hide BuildTable, Entries, RegisterAll;
    var rs := BuildTable(inputs, xterm, customs);
    RegisterAllMeaning(map[], rs, w);
    var i, j := Dictionary.First(rs, w), Last(rs, w);
    if j >= 0 {
      assert i <= j;
      BuildTableAt(inputs, xterm, customs, i);
      BuildTableAt(inputs, xterm, customs, j);
    }
  }

  ghost predicate AllKnown(d: Dict, rs: seq<Registration>) {
    forall i :: 0 <= i < |rs| ==> rs[i].sequence in d
  }

  /** The next entry of a fitting table can be inserted where the earlier ones led. */
  lemma NextFits(d: Dict, table: seq<Registration>, sofar: seq<Registration>, r: Registration)
    requires TableFits(d, table) && sofar + [r] <= table
    ensures Insertable(RegisterAll(d, sofar), r.sequence)
    ensures RegisterAll(d, sofar + [r]) == Register(RegisterAll(d, sofar), r)
    ensures AllKnown(d, table) ==> r.sequence in RegisterAll(d, sofar)
  {
    var e := RegisterAll(d, sofar);
    assert table[|sofar|] == (sofar + [r])[|sofar|];
    assert sofar == table[..|sofar|];
    forall k | k in e && Comparable(k, r.sequence) ensures k == r.sequence {
      RegisterAllMeaning(d, sofar, k);
      if k !in d {
        var j := Last(sofar, k);
        assert sofar[j] == table[j];
      }
    }
    RegisterAllSnoc(d, sofar, r);
    RegisterAllMeaning(d, sofar, r.sequence);
  }

  /** The same table fits again, registers nothing new and changes nothing. */
  lemma RebuildIsStable(d: Dict, rs: seq<Registration>)
    requires TableFits(d, rs)
    ensures var e := RegisterAll(d, rs); TableFits(e, rs) && AllKnown(e, rs) && RegisterAll(e, rs) == e
  {
    var e := RegisterAll(d, rs);
    RegisterAgain(d, rs);
    forall i | 0 <= i < |rs| ensures Insertable(e, rs[i].sequence) && rs[i].sequence in e {
      RegisterAllMeaning(d, rs, rs[i].sequence);
      assert Last(rs, rs[i].sequence) >= 0;
      forall k | k in e && Comparable(k, rs[i].sequence) ensures k == rs[i].sequence {
        RegisterAllMeaning(d, rs, k);
      }
    }
  }

  /** What has been registered after `i` entries of a table, on top of `base`. */
  function Sofar(d: Dict, base: seq<Registration>, table: seq<Option<seq<byte>>>, custom: bool, i: nat): Dict
    requires i <= |table|
  {
    RegisterAll(d, base + Entries(table[..i], custom))
  }

  lemma TableStep(d: Dict, base: seq<Registration>, table: seq<Option<seq<byte>>>, custom: bool,
                  all: seq<Registration>, i: nat)
    requires TableFits(d, all) && base + Entries(table, custom) <= all && i < |table|
    ensures table[i].None? ==> Sofar(d, base, table, custom, i + 1) == Sofar(d, base, table, custom, i)
    ensures table[i].Some? ==>
      && Insertable(Sofar(d, base, table, custom, i), table[i].value)
      && (AllKnown(d, all) ==> table[i].value in Sofar(d, base, table, custom, i))
      && Sofar(d, base, table, custom, i + 1)
         == Register(Sofar(d, base, table, custom, i), Registration(table[i].value, i, custom))
  {
    EntriesPrefix(table, custom, i);
    var done := base + Entries(table[..i], custom);
    if table[i].Some? {
      var r := Registration(table[i].value, i, custom);
      assert base + Entries(table[..i + 1], custom) == done + [r];
      NextFits(d, all, done, r);
    } else {
      assert base + Entries(table[..i + 1], custom) == done;
    }
  }

  datatype Outcome = Fail | Accept(entry: Entry) | Descend(node: nat)

  class Automaton {
    var nodes: seq<Node>
    ghost var tree: Tree

    ghost predicate Valid()
      reads this
    {
      nodes == tree.nodes
    }

    /** The sequences registered so far. */
    ghost function Dict(): Dict
      reads this
      ensures PrefixFree(Dict())
    {
      tree.dict
    }

    constructor ()
      ensures Valid() && Dict() == map[] && |nodes| == 1
    {
      nodes := ROOT_ONLY.nodes;
      tree := ROOT_ONLY;
    }

    /** Walk down the sequence, growing child arrays where no edge matches. */
    method Insert(sequence: seq<byte>, id: nat, custom: bool)
      requires Valid() && Insertable(Dict(), sequence)
      modifies this
      ensures Valid()
      ensures Dict() == Register(old(Dict()), Registration(sequence, id, custom))
      ensures sequence in old(Dict()) ==> |nodes| == |old(nodes)|
    {
      ghost var r, d, size := Registration(sequence, id, custom), Dict(), |nodes|;
      ghost var w := WalkStart(tree, r);
      var current: nat := 0;
      var i := 0;
      while i < |sequence|
        invariant 0 <= i <= |sequence|
        invariant w == Position(w.trie, r, current, i) && nodes == w.trie.nodes && d == w.trie.dict
        invariant sequence in d ==> |nodes| == size
      {
        WalkMeetsNoLeaf(w);
        var child := Child(current, sequence[i], w.trie);
        if child.Some? {
          w := WalkDown(w, child.value);
          current := child.value;
        } else {
          var leaf := Node(sequence[i], custom, Children([]));
          w := WalkGrow(w, leaf);
          current, nodes := |nodes|, Appended(nodes, current, leaf);
        }
        i := i + 1;
      }
      tree := WalkEnd(w);
      nodes := nodes[current := nodes[current].(value := Acceptor(id))];
    }

    /** Scan the children of a tree node for an edge. */
    method Child(at: nat, edge: byte, ghost m: Trie) returns (child: Option<nat>)
      requires m.nodes == nodes && at < |nodes| && nodes[at].value.Children?
      ensures child.Some? ==> child.value < |nodes| && LinkedFrom(nodes, at, child.value)
      ensures child.Some? ==> nodes[child.value].edge == edge
      ensures child.None? ==> NoEdge(nodes, at, edge)
    {
      var list := nodes[at].value.list;
      var i := 0;
      while i < |list|
        invariant 0 <= i <= |list|
        invariant forall j :: 0 <= j < i ==> nodes[list[j]].edge != edge
      {
        if nodes[list[i]].edge == edge {
          return Some(list[i]);
        }
        i := i + 1;
      }
      return None;
    }

    /** A tree node standing for the input `p`, from which matching goes on. */
    ghost predicate Reached(at: nat, p: seq<byte>)
      reads this
    {
      at < |tree.nodes| && tree.nodes[at].value.Children? && tree.paths[at] == p
    }

    /** Where matching starts; children_count == 0 there means that nothing is registered. */
    method Start() returns (root: Option<nat>)
      requires Valid()
      ensures root.None? <==> Dict() == map[]
      ensures root.Some? ==> Reached(root.value, [])
    {
      EmptyRoot(tree);
      root := if ChildrenCount(nodes[0]) == 0 then None else Some(0);
    }

    /** One step of nrl_dfa_parse: no edge, a leaf with its acceptor, or another tree node. */
    method Step(at: nat, input: byte, ghost p: seq<byte>) returns (next: Outcome)
      requires Valid() && Reached(at, p)
      ensures next.Fail? <==> !LeadsTo(Dict(), p + [input])
      ensures next.Accept? <==> p + [input] in Dict()
      ensures next.Accept? ==> next.entry == Dict()[p + [input]]
      ensures next.Descend? ==> Reached(next.node, p + [input])
    {
      NodesArePrefixes(tree, p + [input]);
      var child := Child(at, input, tree);
      if child.None? {
        NoOtherWay(tree, at, input);
        assert p + [input] in tree.dict ==> LeadsTo(tree.dict, p + [input]);
        return Fail;
      }
      var c := child.value;
      EdgeExtendsPath(tree, at, c);
      assert tree.paths[c] in tree.paths;
      LeavesAreSequences(tree, c);
      if ChildrenCount(nodes[c]) == 0 {
        return Accept(Entry(nodes[c].custom, nodes[c].value.id));
      }
      return Descend(c);
    }

    /** The loop over one terminfo table: what `base` registered so far is extended by the table. */
    method InsertTable(table: seq<Option<seq<byte>>>, custom: bool,
                       ghost before: Dict, ghost base: seq<Registration>, ghost all: seq<Registration>)
      requires Valid() && TableFits(before, all)
      requires base + Entries(table, custom) <= all
      requires Dict() == RegisterAll(before, base)
      modifies this
      ensures Valid()
      ensures Dict() == RegisterAll(before, base + Entries(table, custom))
      ensures AllKnown(before, all) ==> |nodes| == |old(nodes)|
    {
      assert base + Entries(table[..0], custom) == base;
      var i := 0;
      while i < |table|
        invariant 0 <= i <= |table| && Valid()
        invariant Dict() == Sofar(before, base, table, custom, i)
        invariant AllKnown(before, all) ==> |nodes| == |old(nodes)|
      {
        TableStep(before, base, table, custom, all, i);
        if table[i].Some? {
          Insert(table[i].value, i, custom);
        }
        i := i + 1;
      }
      assert table[..i] == table;
    }

    /** nrl_dfa_build; nanorl() runs it again on every call. */
    method Build(inputs: seq<Option<seq<byte>>>, xterm: bool, customs: seq<Option<seq<byte>>>)
      requires Valid() && TableFits(Dict(), BuildTable(inputs, xterm, customs))
      modifies this
      ensures Valid()
      ensures Dict() == RegisterAll(old(Dict()), BuildTable(inputs, xterm, customs))
      ensures AllKnown(old(Dict()), BuildTable(inputs, xterm, customs)) ==> |nodes| == |old(nodes)|
    {
      ghost var all, before := BuildTable(inputs, xterm, customs), Dict();
      ghost var base := Entries(inputs, false);
      assert [] + base == base;
      InsertTable(inputs, false, before, [], all);
      if xterm {
        NextFits(before, all, base, Registration([8], KEY_BACKSPACE, false));
        Insert([8], KEY_BACKSPACE, false);
        base := base + [Registration([8], KEY_BACKSPACE, false)];
      }
      assert all == base + Entries(customs, true);
      InsertTable(customs, true, before, base, all);
    }
  }
}
