/** Node rows, parent walks, and the operations of a node store on rows.

    A walk goes from a node to its parent and stops at ROOT and TRASH, as `introduces_cycle`
    and `has_cycle_from` do. */
module NodeRows {
  import opened Basics
  import opened Operations

  datatype Row = Row(parent: Option<NodeId>, key: Option<Bytes>,
                     lastChange: Knowledge, deletedAt: Option<Knowledge>)

  type Rows = map<NodeId, Row>

  const BLANK: Row := Row(None, None, {}, None)

  const ROOT_ROW: Row := Row(None, Some([]), {}, None)

  // ----- walks -----

  function ParentOf(m: Rows, n: NodeId): Option<NodeId> {
    if n in m then m[n].parent else None
  }

  /** Where a walk goes next. */
  function Up(m: Rows, n: NodeId): Option<NodeId> {
    if Reserved(n) then None else ParentOf(m, n)
  }

  ghost predicate DepthIs(m: Rows, n: NodeId, k: nat)
    decreases k
  {
    match Up(m, n)
    case None => k == 0
    case Some(p) => k > 0 && DepthIs(m, p, k - 1)
  }

  /** The walk from n ends. */
  ghost predicate Grounded(m: Rows, n: NodeId) {
    exists k: nat :: DepthIs(m, n, k)
  }

  ghost function Depth(m: Rows, n: NodeId): (k: nat)
    requires Grounded(m, n)
    ensures DepthIs(m, n, k)
  {
    var k: nat :| DepthIs(m, n, k); k
  }

  ghost predicate ReachesIn(m: Rows, n: NodeId, a: NodeId, k: nat)
    decreases k
  {
    || n == a
    || (k > 0 && Up(m, n).Some? && ReachesIn(m, Up(m, n).value, a, k - 1))
  }

  /** The walk from n passes through a, so n lies in the subtree of a. */
  ghost predicate Under(m: Rows, n: NodeId, a: NodeId) {
    exists k: nat :: ReachesIn(m, n, a, k)
  }

  lemma UnderSelf(m: Rows, n: NodeId)
    ensures Under(m, n, n)
  {
    assert ReachesIn(m, n, n, 0);
  }

  lemma UnderStep(m: Rows, n: NodeId, a: NodeId)
    ensures Under(m, n, a) <==> n == a || (Up(m, n).Some? && Under(m, Up(m, n).value, a))
  {
    if Under(m, n, a) {
      var k: nat :| ReachesIn(m, n, a, k);
      if n != a { assert ReachesIn(m, Up(m, n).value, a, k - 1); }
    }
    if n == a { UnderSelf(m, n); }
    if Up(m, n).Some? && Under(m, Up(m, n).value, a) {
      var k: nat :| ReachesIn(m, Up(m, n).value, a, k);
      assert ReachesIn(m, n, a, k + 1);
    }
  }

  lemma {:induction false} UnderTransIn(m: Rows, n: NodeId, a: NodeId, b: NodeId, k: nat)
    requires ReachesIn(m, n, a, k) && Under(m, a, b)
    ensures Under(m, n, b)
    decreases k
  {
    if n != a {
      UnderTransIn(m, Up(m, n).value, a, b, k - 1);
      UnderStep(m, n, b);
    }
  }

  lemma UnderTrans(m: Rows, n: NodeId, a: NodeId, b: NodeId)
    requires Under(m, n, a) && Under(m, a, b)
    ensures Under(m, n, b)
  {
    var k: nat :| ReachesIn(m, n, a, k);
    UnderTransIn(m, n, a, b, k);
  }

  lemma {:induction false} DepthUnique(m: Rows, n: NodeId, j: nat, k: nat)
    requires DepthIs(m, n, j) && DepthIs(m, n, k)
    ensures j == k
    decreases j
  {
    if Up(m, n).Some? { DepthUnique(m, Up(m, n).value, j - 1, k - 1); }
  }

  /** Every node met on an ending walk is closer to the end. */
  lemma {:induction false} DepthDrops(m: Rows, n: NodeId, a: NodeId, k: nat, j: nat)
    requires DepthIs(m, n, k) && ReachesIn(m, n, a, j)
    ensures exists i: nat :: i <= k && DepthIs(m, a, i) && (n != a ==> i < k)
    decreases k
  {
    if n != a {
      DepthDrops(m, Up(m, n).value, a, k - 1, j - 1);
    } else {
      assert k <= k && DepthIs(m, a, k);
    }
  }

  lemma UnderGrounded(m: Rows, n: NodeId, a: NodeId)
    requires Grounded(m, n) && Under(m, n, a)
    ensures Grounded(m, a) && Depth(m, a) <= Depth(m, n) && (n != a ==> Depth(m, a) < Depth(m, n))
  {
    var j: nat :| ReachesIn(m, n, a, j);
    DepthDrops(m, n, a, Depth(m, n), j);
    var i: nat :| i <= Depth(m, n) && DepthIs(m, a, i) && (n != a ==> i < Depth(m, n));
    DepthUnique(m, a, i, Depth(m, a));
  }

  lemma ParentDepth(m: Rows, n: NodeId)
    requires Grounded(m, n) && Up(m, n).Some?
    ensures Grounded(m, Up(m, n).value) && Depth(m, n) == Depth(m, Up(m, n).value) + 1
  {
    var k := Depth(m, n);
    assert DepthIs(m, Up(m, n).value, k - 1);
    DepthUnique(m, Up(m, n).value, k - 1, Depth(m, Up(m, n).value));
  }

  lemma UnderAntisymmetric(m: Rows, n: NodeId, a: NodeId)
    requires Grounded(m, n) && Under(m, n, a) && Under(m, a, n)
    ensures n == a
  {
    UnderGrounded(m, n, a);
    UnderGrounded(m, a, n);
  }

  lemma {:induction false} UnderComparableIn(m: Rows, n: NodeId, a: NodeId, b: NodeId, k: nat)
    requires ReachesIn(m, n, a, k) && Under(m, n, b)
    ensures Under(m, a, b) || Under(m, b, a)
    decreases k
  {
    if n != a {
      UnderStep(m, n, b);
      if n == b { assert ReachesIn(m, b, a, k); } else { UnderComparableIn(m, Up(m, n).value, a, b, k - 1); }
    }
  }

  /** Two nodes that one walk meets lie one under the other. */
  lemma UnderComparable(m: Rows, n: NodeId, a: NodeId, b: NodeId)
    requires Under(m, n, a) && Under(m, n, b)
    ensures Under(m, a, b) || Under(m, b, a)
  {
    var k: nat :| ReachesIn(m, n, a, k);
    UnderComparableIn(m, n, a, b, k);
  }

  // ----- maps with the same walks -----

  ghost predicate SameWalks(m: Rows, m': Rows) {
    forall n: NodeId :: Up(m, n) == Up(m', n)
  }

  lemma {:induction false} SameWalksDepth(m: Rows, m': Rows, n: NodeId, k: nat)
    requires SameWalks(m, m') && DepthIs(m, n, k)
    ensures DepthIs(m', n, k)
    decreases k
  {
    assert Up(m, n) == Up(m', n);
    if Up(m, n).Some? { SameWalksDepth(m, m', Up(m, n).value, k - 1); }
  }

  lemma {:induction false} SameWalksReaches(m: Rows, m': Rows, n: NodeId, a: NodeId, k: nat)
    requires SameWalks(m, m') && ReachesIn(m, n, a, k)
    ensures ReachesIn(m', n, a, k)
    decreases k
  {
    assert Up(m, n) == Up(m', n);
    if n != a { SameWalksReaches(m, m', Up(m, n).value, a, k - 1); }
  }

  lemma SameWalksUnder(m: Rows, m': Rows, n: NodeId, a: NodeId)
    requires SameWalks(m, m')
    ensures Under(m, n, a) <==> Under(m', n, a)
  {
    if Under(m, n, a) {
      var k: nat :| ReachesIn(m, n, a, k);
      SameWalksReaches(m, m', n, a, k);
    }
    if Under(m', n, a) {
      var k: nat :| ReachesIn(m', n, a, k);
      SameWalksReaches(m', m, n, a, k);
    }
  }

  lemma SameWalksGrounded(m: Rows, m': Rows, n: NodeId)
    requires SameWalks(m, m')
    ensures Grounded(m, n) <==> Grounded(m', n)
  {
    if Grounded(m, n) { SameWalksDepth(m, m', n, Depth(m, n)); }
    if Grounded(m', n) { SameWalksDepth(m', m, n, Depth(m', n)); }
  }

  // ----- maps that differ in the parent of one node -----

  /** Only the walk step of x may differ. */
  ghost predicate SameWalksBut(m: Rows, m': Rows, x: NodeId) {
    forall n: NodeId :: n != x ==> Up(m, n) == Up(m', n)
  }

  lemma {:induction false} ReachesAvoiding(m: Rows, m': Rows, x: NodeId, n: NodeId, a: NodeId, k: nat)
    requires SameWalksBut(m, m', x) && ReachesIn(m, n, a, k) && !Under(m, n, x)
    ensures ReachesIn(m', n, a, k)
    decreases k
  {
    UnderStep(m, n, x);
    if n != a { ReachesAvoiding(m, m', x, Up(m, n).value, a, k - 1); }
  }

  lemma {:induction false} ReachesUpTo(m: Rows, m': Rows, x: NodeId, n: NodeId, k: nat)
    requires SameWalksBut(m, m', x) && ReachesIn(m, n, x, k)
    ensures ReachesIn(m', n, x, k)
    decreases k
  {
    if n != x { ReachesUpTo(m, m', x, Up(m, n).value, k - 1); }
  }

  /** Re-parenting x does not change who lies under x. */
  lemma UnderMoved(m: Rows, m': Rows, x: NodeId, n: NodeId)
    requires SameWalksBut(m, m', x)
    ensures Under(m, n, x) <==> Under(m', n, x)
  {
    if Under(m, n, x) {
      var k: nat :| ReachesIn(m, n, x, k);
      ReachesUpTo(m, m', x, n, k);
    }
    if Under(m', n, x) {
      var k: nat :| ReachesIn(m', n, x, k);
      ReachesUpTo(m', m, x, n, k);
    }
  }

  /** Walks that do not meet x are unchanged. */
  lemma UnderUnmoved(m: Rows, m': Rows, x: NodeId, n: NodeId, a: NodeId)
    requires SameWalksBut(m, m', x) && !Under(m, n, x)
    ensures Under(m, n, a) <==> Under(m', n, a)
  {
    UnderMoved(m, m', x, n);
    if Under(m, n, a) {
      var k: nat :| ReachesIn(m, n, a, k);
      ReachesAvoiding(m, m', x, n, a, k);
    }
    if Under(m', n, a) {
      var k: nat :| ReachesIn(m', n, a, k);
      ReachesAvoiding(m', m, x, n, a, k);
    }
  }

  lemma {:induction false} DepthAvoiding(m: Rows, m': Rows, x: NodeId, n: NodeId, k: nat)
    requires SameWalksBut(m, m', x) && DepthIs(m, n, k) && !Under(m, n, x)
    ensures DepthIs(m', n, k)
    decreases k
  {
    UnderStep(m, n, x);
    if Up(m, n).Some? { DepthAvoiding(m, m', x, Up(m, n).value, k - 1); }
  }

  /** If the walk from x ends after the change, every walk does. */
  lemma {:induction false} GroundedAfterMove(m: Rows, m': Rows, x: NodeId, n: NodeId, k: nat)
    requires SameWalksBut(m, m', x) && DepthIs(m, n, k) && Grounded(m', x)
    ensures Grounded(m', n)
    decreases k
  {
    if n != x {
      if Up(m, n).None? {
        assert DepthIs(m', n, 0);
      } else {
        GroundedAfterMove(m, m', x, Up(m, n).value, k - 1);
        assert DepthIs(m', n, Depth(m', Up(m', n).value) + 1);
      }
    }
  }

  // ----- forests -----

  /** Every walk ends, whatever the rows of ROOT and TRASH say. */
  ghost predicate Acyclic(m: Rows) {
    forall n: NodeId :: Grounded(m, n)
  }

  ghost predicate ReservedAreTops(m: Rows) {
    forall n: NodeId | Reserved(n) && n in m :: m[n].parent.None? && m[n].deletedAt.None?
  }

  ghost predicate ParentsPresent(m: Rows) {
    forall n | n in m && m[n].parent.Some? :: m[n].parent.value in m
  }

  /** Only an attached node has an order key; a child of a live parent always has one. */
  ghost predicate KeysFollowParents(m: Rows) {
    forall n | n in m ::
      && (m[n].parent.None? && n != ROOT ==> m[n].key.None?)
      && (m[n].parent.Some? && m[n].parent.value != TRASH ==> m[n].key.Some?)
  }

  ghost predicate Forest(m: Rows) {
    Acyclic(m) && ReservedAreTops(m) && ParentsPresent(m) && KeysFollowParents(m)
  }

  lemma ForestIsAcyclic(m: Rows)
    requires Forest(m)
    ensures Acyclic(m)
  {
  }

  // ----- node-store operations on rows -----

  function Ensure(m: Rows, n: NodeId): Rows {
    if n in m then m else m[n := BLANK]
  }

  /** Postgres never links ROOT and stores no order key under TRASH. */
  datatype Dialect = Memory | Postgres

  predicate NeverLinked(d: Dialect, n: NodeId) {
    d.Postgres? && n == ROOT
  }

  function Detach(d: Dialect, m: Rows, n: NodeId): Rows {
    if !NeverLinked(d, n) && n in m && m[n].parent.Some? then m[n := m[n].(parent := None, key := None)] else m
  }

  function StoredKey(d: Dialect, parent: NodeId, key: Bytes): Option<Bytes> {
    if d.Postgres? && parent == TRASH then None else Some(key)
  }

  function Attach(d: Dialect, m: Rows, n: NodeId, p: NodeId, key: Bytes): Rows {
    if NeverLinked(d, n) then m
    else
      var m1 := Ensure(Ensure(m, p), n);
      m1[n := m1[n].(parent := Some(p), key := StoredKey(d, p, key))]
  }

  function Touch(m: Rows, n: NodeId, k: Knowledge): Rows {
    if n in m then m[n := m[n].(lastChange := m[n].lastChange + k)] else m
  }

  function MergeDeletedAt(m: Rows, n: NodeId, k: Knowledge): Rows {
    if n in m then
      m[n := m[n].(deletedAt := Some((if m[n].deletedAt.Some? then m[n].deletedAt.value else {}) + k))]
    else m
  }

  lemma EnsureForest(m: Rows, n: NodeId)
    ensures SameWalks(m, Ensure(m, n))
    ensures Acyclic(m) ==> Acyclic(Ensure(m, n))
    ensures Forest(m) ==> Forest(Ensure(m, n))
  {
    forall x: NodeId ensures Grounded(m, x) <==> Grounded(Ensure(m, n), x) {
      SameWalksGrounded(m, Ensure(m, n), x);
    }
  }

  lemma TouchForest(m: Rows, n: NodeId, k: Knowledge)
    ensures SameWalks(m, Touch(m, n, k))
    ensures Acyclic(m) ==> Acyclic(Touch(m, n, k))
    ensures Forest(m) ==> Forest(Touch(m, n, k))
  {
    forall x: NodeId ensures Grounded(m, x) <==> Grounded(Touch(m, n, k), x) {
      SameWalksGrounded(m, Touch(m, n, k), x);
    }
  }

  lemma MergeDeletedAtForest(m: Rows, n: NodeId, k: Knowledge)
    ensures SameWalks(m, MergeDeletedAt(m, n, k))
    ensures Acyclic(m) ==> Acyclic(MergeDeletedAt(m, n, k))
    ensures Forest(m) && !Reserved(n) ==> Forest(MergeDeletedAt(m, n, k))
  {
    forall x: NodeId ensures Grounded(m, x) <==> Grounded(MergeDeletedAt(m, n, k), x) {
      SameWalksGrounded(m, MergeDeletedAt(m, n, k), x);
    }
  }

  /** Detaching then attaching, as inserts and moves do. */
  function Relink(d: Dialect, m: Rows, n: NodeId, p: NodeId, key: Bytes): Rows {
    Attach(d, Detach(d, m, n), n, p, key)
  }

  lemma RelinkRow(d: Dialect, m: Rows, n: NodeId, p: NodeId, key: Bytes)
    requires n in m && p in m
    ensures Relink(d, m, n, p, key) ==
            if NeverLinked(d, n) then m else m[n := m[n].(parent := Some(p), key := StoredKey(d, p, key))]
    ensures SameWalksBut(m, Relink(d, m, n, p, key), n)
  {
  }

  /** Re-parenting keeps every walk ending when the new parent does not lie under the node. */
  lemma RelinkAcyclic(d: Dialect, m: Rows, n: NodeId, p: NodeId, key: Bytes)
    requires Acyclic(m) && n in m && p in m
    requires Reserved(n) || !Under(m, p, n)
    ensures Acyclic(Relink(d, m, n, p, key))
  {
    var m' := Relink(d, m, n, p, key);
    RelinkRow(d, m, n, p, key);
    if Reserved(n) {
      assert DepthIs(m', n, 0);
    } else {
      assert Grounded(m, p);
      DepthAvoiding(m, m', n, p, Depth(m, p));
      assert Grounded(m', p);
      assert DepthIs(m', n, Depth(m', p) + 1);
    }
    forall x: NodeId ensures Grounded(m', x) {
      assert Grounded(m, x);
      GroundedAfterMove(m, m', n, x, Depth(m, x));
    }
  }

  lemma RelinkForest(d: Dialect, m: Rows, n: NodeId, p: NodeId, key: Bytes)
    requires Forest(m) && n in m && p in m && !Reserved(n) && !Under(m, p, n)
    ensures Forest(Relink(d, m, n, p, key))
  {
    RelinkAcyclic(d, m, n, p, key);
    RelinkRow(d, m, n, p, key);
  }
}
