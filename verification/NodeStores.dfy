/** The node store: rows together with incrementally maintained child lists and cached flags. */
module NodeStores {
  import opened Basics
  import opened Operations
  import opened NodeRows
  import opened Tombstones

  datatype NodeState = NodeState(row: Row, children: seq<NodeId>, tombstone: bool)

  type Nodes = map<NodeId, NodeState>

  function RowsOf(nodes: Nodes): (m: Rows)
    ensures m.Keys == nodes.Keys
  {
    map n | n in nodes :: nodes[n].row
  }

  function TombsOf(nodes: Nodes): set<NodeId> {
    set n | n in nodes && nodes[n].tombstone
  }

  // ----- sibling order -----

  function SiblingKey(m: Rows, n: NodeId): Bytes {
    if n in m && m[n].key.Some? then m[n].key.value else []
  }

  /** Siblings are ordered by order key, then by id, as ORDER BY order_key, node. */
  predicate Before(ka: Bytes, a: NodeId, kb: Bytes, b: NodeId) {
    LexLess(ka, kb) || (ka == kb && a < b)
  }

  predicate SiblingLess(m: Rows, a: NodeId, b: NodeId) {
    Before(SiblingKey(m, a), a, SiblingKey(m, b), b)
  }

  lemma BeforeTransitive(ka: Bytes, a: NodeId, kb: Bytes, b: NodeId, kc: Bytes, c: NodeId)
    requires Before(ka, a, kb, b) && Before(kb, b, kc, c)
    ensures Before(ka, a, kc, c)
  {
    if LexLess(ka, kb) && LexLess(kb, kc) { LexTransitive(ka, kb, kc); }
  }

  lemma BeforeTotal(ka: Bytes, a: NodeId, kb: Bytes, b: NodeId)
    requires a != b
    ensures Before(ka, a, kb, b) <==> !Before(kb, b, ka, a)
  {
    LexTotal(ka, kb);
    LexIrreflexive(ka);
    if LexLess(ka, kb) && LexLess(kb, ka) { LexTransitive(ka, kb, ka); }
  }

  ghost predicate SortedSiblings(m: Rows, s: seq<NodeId>) {
    forall i, j :: 0 <= i < j < |s| ==> SiblingLess(m, s[i], s[j])
  }

  ghost function ChildrenOf(m: Rows, p: NodeId): set<NodeId> {
    set n | n in m && m[n].parent == Some(p)
  }

  ghost predicate IsChildList(m: Rows, p: NodeId, s: seq<NodeId>) {
    SortedSiblings(m, s) && forall n: NodeId :: n in s <==> n in ChildrenOf(m, p)
  }

  lemma SortedNoDuplicates(m: Rows, s: seq<NodeId>)
    requires SortedSiblings(m, s)
    ensures forall i, j :: 0 <= i < j < |s| ==> s[i] != s[j]
  {
    forall i, j | 0 <= i < j < |s| ensures s[i] != s[j] {
      assert SiblingLess(m, s[i], s[j]);
      LexIrreflexive(SiblingKey(m, s[i]));
    }
  }

  /** Sibling lists with the same members are the same list. */
  lemma {:induction false} SortedSiblingsUnique(m: Rows, s: seq<NodeId>, t: seq<NodeId>)
    requires SortedSiblings(m, s) && SortedSiblings(m, t) && forall n: NodeId :: n in s <==> n in t
    ensures s == t
  {
    if s != [] { assert s[0] in s; }
    if t != [] { assert t[0] in t; }
    if s != [] && t != [] {
      SortedNoDuplicates(m, s); SortedNoDuplicates(m, t);
      FirstSibling(m, s, t);
      forall n: NodeId ensures n in s[1..] <==> n in t[1..] {
        assert n in s[1..] <==> n in s && n != s[0];
        assert n in t[1..] <==> n in t && n != t[0];
      }
      SortedSiblingsUnique(m, s[1..], t[1..]);
      assert s == [s[0]] + s[1..] && t == [t[0]] + t[1..];
    }
  }

  lemma FirstSibling(m: Rows, s: seq<NodeId>, t: seq<NodeId>)
    requires SortedSiblings(m, s) && SortedSiblings(m, t) && s != [] && t != []
    requires forall n: NodeId :: n in s <==> n in t
    ensures s[0] == t[0]
  {
    assert s[0] in t && t[0] in s;
    if s[0] != t[0] {
      assert SiblingLess(m, s[0], t[0]) && SiblingLess(m, t[0], s[0]);
      BeforeTotal(SiblingKey(m, s[0]), s[0], SiblingKey(m, t[0]), t[0]);
    }
  }

  /** The maintained child list of a node is determined by the rows, and is what
      `SELECT ... ORDER BY order_key, node` returns. */
  lemma ChildListUnique(m: Rows, p: NodeId, s: seq<NodeId>, t: seq<NodeId>)
    requires IsChildList(m, p, s) && IsChildList(m, p, t)
    ensures s == t
  {
    SortedSiblingsUnique(m, s, t);
  }

  /** How a child list is ordered: by order key as bytes, and siblings with equal keys by id. */
  lemma ChildListOrder(m: Rows, p: NodeId, s: seq<NodeId>, i: nat, j: nat)
    requires IsChildList(m, p, s) && i < |s| && j < |s|
    ensures SiblingKey(m, s[i]) != SiblingKey(m, s[j]) ==>
      (i < j <==> LexLess(SiblingKey(m, s[i]), SiblingKey(m, s[j])))
    ensures SiblingKey(m, s[i]) == SiblingKey(m, s[j]) ==> (i < j <==> s[i] < s[j])
  {
    var a, b := SiblingKey(m, s[i]), SiblingKey(m, s[j]);
    LexIrreflexive(a);
    LexIrreflexive(b);
    LexTotal(a, b);
    if LexLess(a, b) && LexLess(b, a) { LexTransitive(a, b, a); }
    if i < j { assert SiblingLess(m, s[i], s[j]); }
    if j < i { assert SiblingLess(m, s[j], s[i]); }
  }

  // ----- subtrees -----

  ghost function Members(m: Rows, n: NodeId): set<NodeId> {
    set d | d in m && Under(m, d, n)
  }

  lemma {:induction false} EntersThroughChild(m: Rows, d: NodeId, n: NodeId, k: nat) returns (c: NodeId)
    requires ReachesIn(m, d, n, k) && d != n
    ensures Up(m, c) == Some(n) && Under(m, d, c)
    decreases k
  {
    var p := Up(m, d).value;
    if p == n {
      UnderSelf(m, d);
      return d;
    }
    c := EntersThroughChild(m, p, n, k - 1);
    UnderStep(m, d, c);
  }

  lemma ChildMembers(m: Rows, c: NodeId, n: NodeId)
    requires Forest(m) && Up(m, c) == Some(n) && n in m
    ensures Members(m, c) < Members(m, n)
  {
    UnderSelf(m, n);
    UnderStep(m, c, n);
    ParentDepth(m, c);
    if Under(m, n, c) { UnderGrounded(m, n, c); }
    forall d | d in Members(m, c) ensures d in Members(m, n) { UnderTrans(m, d, c, n); }
    assert n in Members(m, n) && n !in Members(m, c);
  }

  /** A subtree is its root and the subtrees of the root's children. */
  lemma SubtreeUnfolds(m: Rows, n: NodeId, s: seq<NodeId>, vv: Knowledge)
    requires Forest(m) && n != TRASH && n in m && (forall c: NodeId :: c in s <==> c in ChildrenOf(m, n))
    requires m[n].lastChange <= vv
    requires forall i | 0 <= i < |s| :: SubtreeKnowledge(m, s[i]) <= vv
    requires forall id | id in vv ::
      id in m[n].lastChange || exists i :: 0 <= i < |s| && id in SubtreeKnowledge(m, s[i])
    ensures vv == SubtreeKnowledge(m, n)
  {
    forall id | id in vv ensures id in SubtreeKnowledge(m, n) {
      if id in m[n].lastChange {
        UnderSelf(m, n);
      } else {
        var i :| 0 <= i < |s| && id in SubtreeKnowledge(m, s[i]);
        var d :| d in m && Under(m, d, s[i]) && id in m[d].lastChange;
        assert s[i] in ChildrenOf(m, n);
        UnderStep(m, s[i], n);
        UnderSelf(m, n);
        UnderTrans(m, d, s[i], n);
      }
    }
    forall id | id in SubtreeKnowledge(m, n) ensures id in vv {
      var d :| d in m && Under(m, d, n) && id in m[d].lastChange;
      if d != n {
        var k: nat :| ReachesIn(m, d, n, k);
        var c := EntersThroughChild(m, d, n, k);
        assert c in ChildrenOf(m, n);
        var i :| 0 <= i < |s| && s[i] == c;
        assert id in SubtreeKnowledge(m, s[i]);
      }
    }
  }

  lemma MissingHasNoSubtree(m: Rows, n: NodeId)
    requires Forest(m) && n !in m
    ensures SubtreeKnowledge(m, n) == {}
  {
    forall d | d in m ensures !Under(m, d, n) {
      if k: nat :| ReachesIn(m, d, n, k) {
        var c := EntersThroughChild(m, d, n, k);
        assert false;
      }
    }
  }

  // ----- list edits -----

  function Without(s: seq<NodeId>, n: NodeId): seq<NodeId> {
    if s == [] then []
    else Without(s[..|s| - 1], n) + (if s[|s| - 1] == n then [] else [s[|s| - 1]])
  }

  lemma {:induction false} WithoutIn(s: seq<NodeId>, n: NodeId, x: NodeId)
    ensures x in Without(s, n) <==> x in s && x != n
  {
    if s != [] {
      WithoutIn(s[..|s| - 1], n, x);
      assert s == s[..|s| - 1] + [s[|s| - 1]];
    }
  }

  lemma {:induction false} WithoutSorted(m: Rows, s: seq<NodeId>, n: NodeId)
    requires SortedSiblings(m, s)
    ensures SortedSiblings(m, Without(s, n))
  {
    if s != [] {
      var front, last := s[..|s| - 1], s[|s| - 1];
      WithoutSorted(m, front, n);
      var w := Without(front, n);
      forall i | 0 <= i < |w| ensures SiblingLess(m, w[i], last) {
        WithoutIn(front, n, w[i]);
        assert w[i] in front;
      }
    }
  }

  lemma InsertAtSorted(m: Rows, s: seq<NodeId>, i: nat, n: NodeId)
    requires SortedSiblings(m, s) && i <= |s|
    requires i > 0 ==> SiblingLess(m, s[i - 1], n)
    requires i < |s| ==> SiblingLess(m, n, s[i])
    ensures SortedSiblings(m, s[..i] + [n] + s[i..])
  {
    var t := s[..i] + [n] + s[i..];
    forall j | 0 <= j < i ensures SiblingLess(m, s[j], n) {
      if j < i - 1 { SiblingTransitive(m, s[j], s[i - 1], n); }
    }
    forall j | i <= j < |s| ensures SiblingLess(m, n, s[j]) {
      if i < j { SiblingTransitive(m, n, s[i], s[j]); }
    }
    forall j, k | 0 <= j < k < |t| ensures SiblingLess(m, t[j], t[k]) {
      assert t[j] == if j < i then s[j] else if j == i then n else s[j - 1];
      assert t[k] == if k < i then s[k] else if k == i then n else s[k - 1];
    }
  }

  lemma SiblingTransitive(m: Rows, a: NodeId, b: NodeId, c: NodeId)
    requires SiblingLess(m, a, b) && SiblingLess(m, b, c)
    ensures SiblingLess(m, a, c)
  {
    BeforeTransitive(SiblingKey(m, a), a, SiblingKey(m, b), b, SiblingKey(m, c), c);
  }

  // ----- agreement of lists and parents -----

  ghost predicate ListsAgree(nodes: Nodes) {
    forall p | p in nodes ::
      if p == TRASH then nodes[p].children == [] else IsChildList(RowsOf(nodes), p, nodes[p].children)
  }

  /** Stores with equal rows hold equal child lists, however they got there. */
  lemma SameRowsSameLists(a: Nodes, b: Nodes, p: NodeId)
    requires ListsAgree(a) && ListsAgree(b) && RowsOf(a) == RowsOf(b) && p in a
    ensures p in b && a[p].children == b[p].children
  {
    assert RowsOf(a).Keys == RowsOf(b).Keys;
    if p != TRASH { ChildListUnique(RowsOf(a), p, a[p].children, b[p].children); }
  }

  /** Rows that agree in parents and keys have the same child lists. */
  lemma SameChildList(m: Rows, m': Rows, p: NodeId, s: seq<NodeId>)
    requires IsChildList(m, p, s)
    requires forall n: NodeId :: ParentOf(m, n) == ParentOf(m', n) && SiblingKey(m, n) == SiblingKey(m', n)
    ensures IsChildList(m', p, s)
  {
    forall i, j | 0 <= i < j < |s| ensures SiblingLess(m', s[i], s[j]) {
      assert SiblingLess(m, s[i], s[j]);
    }
    forall n: NodeId ensures n in s <==> n in ChildrenOf(m', p) {
      assert n in ChildrenOf(m, p) <==> ParentOf(m, n) == Some(p);
      assert n in ChildrenOf(m', p) <==> ParentOf(m', n) == Some(p);
    }
  }

  /** Edits of columns other than parent and key keep the lists. */
  lemma ListsStillAgree(nodes: Nodes, nodes': Nodes)
    requires ListsAgree(nodes)
    requires forall n: NodeId :: ParentOf(RowsOf(nodes), n) == ParentOf(RowsOf(nodes'), n)
    requires forall n: NodeId :: SiblingKey(RowsOf(nodes), n) == SiblingKey(RowsOf(nodes'), n)
    requires forall p | p in nodes' :: nodes'[p].children == if p in nodes then nodes[p].children else []
    requires ParentsPresent(RowsOf(nodes)) && nodes.Keys <= nodes'.Keys
    ensures ListsAgree(nodes') && ParentsPresent(RowsOf(nodes'))
  {
    var m, m' := RowsOf(nodes), RowsOf(nodes');
    forall n | n in m' && m'[n].parent.Some? ensures m'[n].parent.value in m' {
      assert ParentOf(m, n) == ParentOf(m', n);
    }
    forall p | p in nodes' && p != TRASH ensures IsChildList(RowsOf(nodes'), p, nodes'[p].children) {
      if p in nodes {
        SameChildList(RowsOf(nodes), RowsOf(nodes'), p, nodes[p].children);
      } else {
        forall n: NodeId ensures n !in ChildrenOf(RowsOf(nodes'), p) {
          assert ParentOf(RowsOf(nodes), n) == ParentOf(RowsOf(nodes'), n);
        }
      }
    }
  }

  lemma UpdatedRows(nodes: Nodes, n: NodeId, s: NodeState)
    ensures RowsOf(nodes[n := s]) == RowsOf(nodes)[n := s.row]
    ensures n in nodes && nodes[n].tombstone == s.tombstone ==> TombsOf(nodes[n := s]) == TombsOf(nodes)
    ensures n !in nodes && !s.tombstone ==> TombsOf(nodes[n := s]) == TombsOf(nodes)
  {
  }

  // ----- the store -----

  class NodeStore {
    const dialect: Dialect
    var nodes: Nodes

    ghost function Rows(): Rows
      reads this
    {
      RowsOf(nodes)
    }

    ghost function Tombs(): set<NodeId>
      reads this
    {
      TombsOf(nodes)
    }

    ghost predicate Valid()
      reads this
    {
      ListsAgree(nodes) && ParentsPresent(Rows())
    }

    constructor (d: Dialect)
      ensures Valid() && dialect == d && Rows() == map[ROOT := ROOT_ROW] && Tombs() == {}
    {
      dialect := d;
      nodes := map[ROOT := NodeState(ROOT_ROW, [], false)];
    }

    /** A table without rows, as a new Postgres document has. */
    constructor Blank(d: Dialect)
      ensures Valid() && dialect == d && Rows() == map[] && Tombs() == {}
    {
      dialect := d;
      nodes := map[];
    }

    method Reset()
      modifies this
      ensures Valid() && Rows() == map[ROOT := ROOT_ROW] && Tombs() == {}
    {
      nodes := map[ROOT := NodeState(ROOT_ROW, [], false)];
    }

    method EnsureNode(n: NodeId)
      requires Valid()
      modifies this
      ensures Valid() && Rows() == Ensure(old(Rows()), n) && Tombs() == old(Tombs())
    {
      if n !in nodes {
        ghost var was := nodes;
        UpdatedRows(nodes, n, NodeState(BLANK, [], false));
        nodes := nodes[n := NodeState(BLANK, [], false)];
        ListsStillAgree(was, nodes);
      }
    }

    method Parent(n: NodeId) returns (p: Option<NodeId>)
      ensures p == ParentOf(Rows(), n)
    {
      p := if n in nodes then nodes[n].row.parent else None;
    }

    method Detach(n: NodeId)
      requires Valid()
      modifies this
      ensures Valid() && Rows() == NodeRows.Detach(dialect, old(Rows()), n) && Tombs() == old(Tombs())
    {
      if NeverLinked(dialect, n) || n !in nodes || nodes[n].row.parent.None? { return; }
      ghost var was := nodes;
      var p := nodes[n].row.parent.value;
      if p != TRASH && p in nodes {
        UpdatedRows(nodes, p, nodes[p].(children := Without(nodes[p].children, n)));
        nodes := nodes[p := nodes[p].(children := Without(nodes[p].children, n))];
      }
      assert RowsOf(nodes) == RowsOf(was);
      UpdatedRows(nodes, n, nodes[n].(row := nodes[n].row.(parent := None, key := None)));
      nodes := nodes[n := nodes[n].(row := nodes[n].row.(parent := None, key := None))];
      DetachedLists(was, nodes, n);
    }

    /** Where a sibling with this key and id belongs in a sorted child list. */
    method PlaceAmong(existing: seq<NodeId>, n: NodeId, key: Bytes) returns (idx: nat)
      ensures idx <= |existing|
      ensures forall j :: 0 <= j < idx ==> !Before(key, n, SiblingKey(Rows(), existing[j]), existing[j])
      ensures idx < |existing| ==> Before(key, n, SiblingKey(Rows(), existing[idx]), existing[idx])
    {
      for i := 0 to |existing|
        invariant forall j :: 0 <= j < i ==> !Before(key, n, SiblingKey(Rows(), existing[j]), existing[j])
      {
        var child := existing[i];
        var childKey := if child in nodes && nodes[child].row.key.Some? then nodes[child].row.key.value else [];
        if Before(key, n, childKey, child) { return i; }
      }
      return |existing|;
    }

    /** Attach a node that has no parent; its place among the siblings is found by a scan. */
    method Attach(n: NodeId, p: NodeId, key: Bytes)
      requires Valid() && (NeverLinked(dialect, n) || ((n != p || p == TRASH) && ParentOf(Rows(), n).None?))
      modifies this
      ensures Valid() && Rows() == NodeRows.Attach(dialect, old(Rows()), n, p, key) && Tombs() == old(Tombs())
    {
      if NeverLinked(dialect, n) { return; }
      EnsureNode(p);
      EnsureNode(n);
      var row := nodes[n].row.(parent := Some(p), key := StoredKey(dialect, p, key));
      if p == TRASH {
        LinkedTrash(nodes, n, row);
        nodes := nodes[n := nodes[n].(row := row)];
      } else {
        AttachLive(n, p, row);
      }
    }

    method AttachLive(n: NodeId, p: NodeId, row: Row)
      requires Valid() && n != p && n in nodes && p in nodes && p != TRASH && ParentOf(Rows(), n).None?
      requires row.parent == Some(p) && row.key.Some?
      modifies this
      ensures Valid() && Rows() == old(Rows())[n := row] && Tombs() == old(Tombs())
    {
      ghost var was := nodes;
      var linked := nodes[n].(row := row);
      nodes := nodes[n := linked];
      UpdatedRows(was, n, linked);
      var idx := PlaceAmong(nodes[p].children, n, row.key.value);
      AttachPlace(was, nodes, n, p, row, was[p].children, idx, row.key.value);
      var listed := nodes[p].(children := nodes[p].children[..idx] + [n] + nodes[p].children[idx..]);
      UpdatedRows(nodes, p, listed);
      nodes := nodes[p := listed];
      LinkedLive(was, n, p, row, idx);
    }

    method MergeLastChange(n: NodeId, k: Knowledge)
      requires Valid() && n in nodes
      modifies this
      ensures Valid() && Rows() == Touch(old(Rows()), n, k) && Tombs() == old(Tombs())
    {
      ghost var was := nodes;
      var s := nodes[n].(row := nodes[n].row.(lastChange := nodes[n].row.lastChange + k));
      UpdatedRows(nodes, n, s);
      nodes := nodes[n := s];
      ListsStillAgree(was, nodes);
    }

    method MergeDeletedAt(n: NodeId, k: Knowledge)
      requires Valid() && n in nodes
      modifies this
      ensures Valid() && Rows() == NodeRows.MergeDeletedAt(old(Rows()), n, k) && Tombs() == old(Tombs())
    {
      ghost var was := nodes;
      var prior := nodes[n].row.deletedAt;
      var s := nodes[n].(row := nodes[n].row.(deletedAt := Some((if prior.Some? then prior.value else {}) + k)));
      UpdatedRows(nodes, n, s);
      nodes := nodes[n := s];
      ListsStillAgree(was, nodes);
    }

    method SetTombstone(n: NodeId, flag: bool)
      requires Valid() && n in nodes
      modifies this
      ensures Valid() && Rows() == old(Rows())
      ensures Tombs() == if flag then old(Tombs()) + {n} else old(Tombs()) - {n}
    {
      ghost var was := nodes;
      nodes := nodes[n := nodes[n].(tombstone := flag)];
      assert RowsOf(nodes) == RowsOf(was);
      ListsStillAgree(was, nodes);
    }

    /** The recursive union of last_change over the maintained child lists is the knowledge of
        exactly the nodes whose parent walk meets n; TRASH's list is kept empty. */
    method SubtreeVersionVector(n: NodeId) returns (vv: Knowledge)
      requires Valid() && Forest(Rows())
      ensures vv == if n == TRASH then LastChange(Rows(), n) else SubtreeKnowledge(Rows(), n)
      decreases Members(Rows(), n)
    {
      if n !in nodes {
        MissingHasNoSubtree(Rows(), n);
        return {};
      }
      vv := nodes[n].row.lastChange;
      var children := nodes[n].children;
      for i := 0 to |children|
        invariant nodes[n].row.lastChange <= vv
        invariant i == 0 ==> vv == nodes[n].row.lastChange
        invariant forall j | 0 <= j < i :: SubtreeKnowledge(Rows(), children[j]) <= vv
        invariant forall id | id in vv ::
          id in nodes[n].row.lastChange || exists j :: 0 <= j < i && id in SubtreeKnowledge(Rows(), children[j])
      {
        assert children[i] in ChildrenOf(Rows(), n);
        ChildMembers(Rows(), children[i], n);
        var child := SubtreeVersionVector(children[i]);
        vv := vv + child;
      }
      if n != TRASH { SubtreeUnfolds(Rows(), n, children, vv); }
    }
  }

  // ----- lists after detach and attach -----

  lemma DetachedLists(was: Nodes, now: Nodes, n: NodeId)
    requires ListsAgree(was) && ParentsPresent(RowsOf(was)) && n in was && was[n].row.parent.Some?
    requires now.Keys == was.Keys
    requires RowsOf(now) == RowsOf(was)[n := was[n].row.(parent := None, key := None)]
    requires forall p | p in was ::
      (now[p].children ==
       if p != TRASH && was[n].row.parent == Some(p) then Without(was[p].children, n) else was[p].children)
    ensures ListsAgree(now) && ParentsPresent(RowsOf(now))
  {
    forall p | p in now && p != TRASH ensures IsChildList(RowsOf(now), p, now[p].children) {
      DetachedList(RowsOf(was), RowsOf(now), n, p, was[p].children);
      if was[n].row.parent != Some(p) { WithoutAbsent(was[p].children, n); }
    }
  }

  lemma DetachedList(m: Rows, m': Rows, n: NodeId, p: NodeId, s: seq<NodeId>)
    requires n in m && m' == m[n := m[n].(parent := None, key := None)] && IsChildList(m, p, s)
    ensures IsChildList(m', p, Without(s, n))
    ensures m[n].parent != Some(p) ==> n !in s
  {
    WithoutSorted(m, s, n);
    forall x: NodeId ensures x in Without(s, n) <==> x in ChildrenOf(m', p) { WithoutIn(s, n, x); }
    WithoutIn(s, n, n);
    KeysKept(m, m', Without(s, n), n);
  }

  lemma {:induction false} WithoutAbsent(s: seq<NodeId>, n: NodeId)
    requires n !in s
    ensures Without(s, n) == s
  {
    if s != [] {
      WithoutAbsent(s[..|s| - 1], n);
      assert s == s[..|s| - 1] + [s[|s| - 1]];
    }
  }

  lemma KeysKept(m: Rows, m': Rows, s: seq<NodeId>, n: NodeId)
    requires SortedSiblings(m, s) && n !in s && forall x: NodeId | x != n :: SiblingKey(m, x) == SiblingKey(m', x)
    ensures SortedSiblings(m', s)
  {
    forall i, j | 0 <= i < j < |s| ensures SiblingLess(m', s[i], s[j]) {
      assert SiblingLess(m, s[i], s[j]);
      assert s[i] != n && s[j] != n;
    }
  }

  /** The scan stops where the new sibling belongs. */
  lemma AttachPlace(was: Nodes, now: Nodes, n: NodeId, p: NodeId, row: Row, s: seq<NodeId>, i: nat, key: Bytes)
    requires ListsAgree(was) && n in was && p in was && p != TRASH && n != p && was[n].row.parent.None?
    requires s == was[p].children && i <= |s|
    requires RowsOf(now) == RowsOf(was)[n := row] && row.key == Some(key)
    requires forall j :: 0 <= j < i ==> !Before(key, n, SiblingKey(RowsOf(now), s[j]), s[j])
    requires i < |s| ==> Before(key, n, SiblingKey(RowsOf(now), s[i]), s[i])
    ensures SortedSiblings(RowsOf(now), s[..i] + [n] + s[i..])
  {
    var m, m' := RowsOf(was), RowsOf(now);
    assert n !in s by { assert n in s <==> n in ChildrenOf(m, p); }
    KeysKept(m, m', s, n);
    assert SiblingKey(m', n) == key;
    if i > 0 {
      assert s[i - 1] in s;
      BeforeTotal(key, n, SiblingKey(m', s[i - 1]), s[i - 1]);
    }
    InsertAtSorted(m', s, i, n);
  }

  lemma LinkedTrash(was: Nodes, n: NodeId, row: Row)
    requires ListsAgree(was) && ParentsPresent(RowsOf(was)) && n in was && TRASH in was && was[n].row.parent.None?
    requires row.parent == Some(TRASH)
    ensures
      var now := was[n := was[n].(row := row)];
      && ListsAgree(now) && ParentsPresent(RowsOf(now)) && RowsOf(now) == RowsOf(was)[n := row]
      && TombsOf(now) == TombsOf(was)
  {
    var now := was[n := was[n].(row := row)];
    UpdatedRows(was, n, was[n].(row := row));
    forall q | q in now && q != TRASH ensures IsChildList(RowsOf(now), q, now[q].children) {
      UnlinkedList(RowsOf(was), n, row, q, was[q].children);
    }
  }

  lemma LinkedLive(was: Nodes, n: NodeId, p: NodeId, row: Row, i: nat)
    requires ListsAgree(was) && ParentsPresent(RowsOf(was)) && n in was && p in was && was[n].row.parent.None?
    requires p != TRASH && n != p && row.parent == Some(p) && i <= |was[p].children|
    requires SortedSiblings(RowsOf(was)[n := row], was[p].children[..i] + [n] + was[p].children[i..])
    ensures
      var listed := was[p].(children := was[p].children[..i] + [n] + was[p].children[i..]);
      var now := was[n := was[n].(row := row)][p := listed];
      && ListsAgree(now) && ParentsPresent(RowsOf(now)) && RowsOf(now) == RowsOf(was)[n := row]
      && TombsOf(now) == TombsOf(was)
  {
    var s := was[p].children;
    var listed := was[p].(children := s[..i] + [n] + s[i..]);
    var mid := was[n := was[n].(row := row)];
    var now := mid[p := listed];
    UpdatedRows(was, n, was[n].(row := row));
    UpdatedRows(mid, p, listed);
    assert RowsOf(now) == RowsOf(was)[n := row];
    forall q | q in now && q != TRASH ensures IsChildList(RowsOf(now), q, now[q].children) {
      if q == p {
        LinkedList(RowsOf(was), n, row, p, s, i);
      } else {
        UnlinkedList(RowsOf(was), n, row, q, was[q].children);
      }
    }
  }

  lemma LinkedList(m: Rows, n: NodeId, row: Row, p: NodeId, s: seq<NodeId>, i: nat)
    requires IsChildList(m, p, s) && n in m && m[n].parent.None? && row.parent == Some(p) && i <= |s|
    requires SortedSiblings(m[n := row], s[..i] + [n] + s[i..])
    ensures IsChildList(m[n := row], p, s[..i] + [n] + s[i..])
  {
    assert s == s[..i] + s[i..];
    forall x: NodeId ensures x in s[..i] + [n] + s[i..] <==> x in ChildrenOf(m[n := row], p) {
      assert x in s[..i] + [n] + s[i..] <==> x == n || x in s;
      assert x in s <==> x in ChildrenOf(m, p);
    }
  }

  lemma UnlinkedList(m: Rows, n: NodeId, row: Row, q: NodeId, s: seq<NodeId>)
    requires IsChildList(m, q, s) && n in m && m[n].parent.None? && row.parent != Some(q)
    ensures IsChildList(m[n := row], q, s)
  {
    assert n !in s by { assert n in s <==> n in ChildrenOf(m, q); }
    KeysKept(m, m[n := row], s, n);
    forall x: NodeId ensures x in s <==> x in ChildrenOf(m[n := row], q) {
      assert x in s <==> x in ChildrenOf(m, q);
    }
  }
}
