/** Subtree knowledge, defensive deletes, and why refreshing the upward closure of the touched
    nodes keeps every cached tombstone flag right. */
module Tombstones {
  import opened Basics
  import opened Operations
  import opened NodeRows
  import opened Semantics

  /** Everything last_change records in the subtree of n. */
  ghost function SubtreeKnowledge(m: Rows, n: NodeId): Knowledge {
    set d, id | d in m && Under(m, d, n) && id in m[d].lastChange :: id
  }

  ghost predicate IsTomb(m: Rows, n: NodeId) {
    n in m && m[n].deletedAt.Some? && SubtreeKnowledge(m, n) <= m[n].deletedAt.value
  }

  /** The flags a full recomputation yields. */
  ghost function AllTombs(m: Rows): set<NodeId> {
    set n | n in m && IsTomb(m, n)
  }

  // ----- the nodes an operation touches -----

  /** `affected_parents`: the parent before the operation and the parent it asks for. */
  function AffectedParents(before: Option<NodeId>, kind: Kind): set<NodeId> {
    OptionSet(before) + OptionSet(TargetParent(kind))
  }

  function Starts(m: Rows, op: Operation): set<NodeId> {
    AffectedParents(ParentOf(m, op.kind.node), op.kind) + {op.kind.node}
  }

  function LastChange(m: Rows, n: NodeId): Knowledge {
    if n in m then m[n].lastChange else {}
  }

  function DeletedAt(m: Rows, n: NodeId): Option<Knowledge> {
    if n in m then m[n].deletedAt else None
  }

  /** How far one operation reaches: only rows in s change, only x changes parent. */
  ghost predicate Local(m: Rows, m': Rows, x: NodeId, k: Knowledge, s: set<NodeId>) {
    && m.Keys <= m'.Keys <= m.Keys + s
    && (forall n | n in m && n !in s :: m'[n] == m[n])
    && (forall n | n in m' && n != x :: ParentOf(m', n) == ParentOf(m, n) && m'[n].key == BlankKey(m, n)
                                        && m'[n].deletedAt == DeletedAt(m, n))
    && (forall n | n in m' :: LastChange(m, n) <= m'[n].lastChange <= LastChange(m, n) + k)
    && (DeletedAt(m, x).Some? ==> DeletedAt(m', x).Some?)
  }

  function BlankKey(m: Rows, n: NodeId): Option<Bytes> {
    if n in m then m[n].key else None
  }

  lemma LocalTouch(m: Rows, m': Rows, x: NodeId, k: Knowledge, s: set<NodeId>, n: NodeId)
    requires Local(m, m', x, k, s) && n in s
    ensures Local(m, Touch(m', n, k), x, k, s)
    ensures DeletedAt(Touch(m', n, k), x) == DeletedAt(m', x)
  {
  }

  lemma LocalEnsure(m: Rows, m': Rows, x: NodeId, k: Knowledge, s: set<NodeId>, n: NodeId)
    requires Local(m, m', x, k, s) && n in s
    ensures Local(m, Ensure(m', n), x, k, s)
    ensures DeletedAt(Ensure(m', n), x) == DeletedAt(m', x)
  {
  }

  lemma LocalRelink(d: Dialect, m: Rows, m': Rows, x: NodeId, k: Knowledge, s: set<NodeId>, p: NodeId, key: Bytes)
    requires Local(m, m', x, k, s) && x in s && x in m' && p in m'
    ensures Local(m, Relink(d, m', x, p, key), x, k, s)
    ensures DeletedAt(Relink(d, m', x, p, key), x) == DeletedAt(m', x)
  {
    RelinkRow(d, m', x, p, key);
  }

  lemma InsertLocal(d: Dialect, m: Rows, m1: Rows, op: Operation, s: set<NodeId>)
    requires op.kind.Insert? && Local(m, m1, op.kind.node, OpKnowledge(op), s) && op.kind.node in m1
    requires {op.kind.node, op.kind.parent} <= s
    ensures Local(m, ApplyInsert(d, m1, op), op.kind.node, OpKnowledge(op), s)
    ensures op.kind.node in ApplyInsert(d, m1, op)
    ensures DeletedAt(ApplyInsert(d, m1, op), op.kind.node) == DeletedAt(m1, op.kind.node)
  {
    var Insert(p, x, key, _) := op.kind;
    var k := OpKnowledge(op);
    if !(p == x || IntroducesCycle(m1, x, p)) {
      LocalEnsure(m, m1, x, k, s, p);
      LocalEnsure(m, Ensure(m1, p), x, k, s, x);
      var m2 := Ensure(Ensure(m1, p), x);
      LocalRelink(d, m, m2, x, k, s, p, key);
      RelinkRow(d, m2, x, p, key);
      var m3 := Relink(d, m2, x, p, key);
      LocalTouch(m, m3, x, k, s, x);
      LocalTouch(m, Touch(m3, x, k), x, k, s, p);
    }
  }

  lemma MoveTouches(m: Rows, m': Rows, x: NodeId, k: Knowledge, s: set<NodeId>, prev: Option<NodeId>, p: NodeId)
    requires Local(m, m', x, k, s) && OptionSet(prev) <= s && {x, p} <= s
    ensures
      var m2 := Touch(m', x, k);
      var m3 := if prev.Some? && prev.value != TRASH then Touch(m2, prev.value, k) else m2;
      var m4 := if p != TRASH then Touch(m3, p, k) else m3;
      Local(m, m4, x, k, s) && DeletedAt(m4, x) == DeletedAt(m', x)
  {
    LocalTouch(m, m', x, k, s, x);
    var m2 := Touch(m', x, k);
    LocalTouch(m, m2, x, k, s, p);
    if prev.Some? {
      LocalTouch(m, m2, x, k, s, prev.value);
      LocalTouch(m, Touch(m2, prev.value, k), x, k, s, p);
    }
  }

  lemma MoveLocal(d: Dialect, m: Rows, m1: Rows, op: Operation, s: set<NodeId>)
    requires op.kind.Move? && Local(m, m1, op.kind.node, OpKnowledge(op), s) && op.kind.node in m1
    requires {op.kind.node, op.kind.newParent} + OptionSet(ParentOf(m1, op.kind.node)) <= s
    ensures Local(m, ApplyMove(d, m1, op), op.kind.node, OpKnowledge(op), s)
    ensures DeletedAt(ApplyMove(d, m1, op), op.kind.node) == DeletedAt(m1, op.kind.node)
  {
    var Move(x, p, key) := op.kind;
    var k := OpKnowledge(op);
    if x != ROOT {
      LocalEnsure(m, m1, x, k, s, p);
      var m2 := Ensure(Ensure(m1, x), p);
      if !(p != TRASH && (IntroducesCycle(m2, x, p) || x == p)) {
        LocalRelink(d, m, m2, x, k, s, p, key);
        MoveTouches(m, Relink(d, m2, x, p, key), x, k, s, ParentOf(m2, x), p);
      }
    }
  }

  lemma DeleteLocal(m: Rows, m1: Rows, op: Operation, s: set<NodeId>)
    requires Local(m, m1, op.kind.node, OpKnowledge(op), s) && op.kind.node in s && op.kind.node in m1
    ensures Local(m, ApplyDelete(m1, op), op.kind.node, OpKnowledge(op), s)
  {
  }

  lemma PayloadLocal(m: Rows, t: Tree, op: Operation, s: set<NodeId>, content: Option<Bytes>)
    requires Local(m, t.rows, op.kind.node, OpKnowledge(op), s) && op.kind.node in s && op.kind.node in t.rows
    ensures Local(m, ApplyPayload(t, op, op.kind.node, content).rows, op.kind.node, OpKnowledge(op), s)
    ensures DeletedAt(ApplyPayload(t, op, op.kind.node, content).rows, op.kind.node) == DeletedAt(t.rows, op.kind.node)
  {
    LocalTouch(m, t.rows, op.kind.node, OpKnowledge(op), s, op.kind.node);
  }

  lemma ApplyLocal(t: Tree, op: Operation)
    ensures Local(t.rows, ApplyForward(t, op).rows, op.kind.node, OpKnowledge(op), Starts(t.rows, op))
    ensures !op.kind.Delete? && !op.kind.Tombstone? ==>
              DeletedAt(ApplyForward(t, op).rows, op.kind.node) == DeletedAt(t.rows, op.kind.node)
  {
    var x, k, s := op.kind.node, OpKnowledge(op), Starts(t.rows, op);
    var m := Ensure(t.rows, x);
    assert Local(t.rows, m, x, k, s);
    match op.kind
    case Insert(_, _, _, payload) =>
      InsertLocal(t.dialect, t.rows, m, op, s);
      if payload.Some? { PayloadLocal(t.rows, t.(rows := ApplyInsert(t.dialect, m, op)), op, s, payload); }
    case Move(_, _, _) => MoveLocal(t.dialect, t.rows, m, op, s);
    case Delete(_) => DeleteLocal(t.rows, m, op, s);
    case Tombstone(_) => DeleteLocal(t.rows, m, op, s);
    case SetPayload(_, content) => PayloadLocal(t.rows, t.(rows := m), op, s, content);
  }

  // ----- who keeps their subtree -----

  lemma {:induction false} ReachesBefore(m: Rows, m': Rows, x: NodeId, d: NodeId, n: NodeId, k: nat)
    requires SameWalksBut(m, m', x) && ReachesIn(m, d, n, k) && !Under(m, x, n)
    ensures ReachesIn(m', d, n, k)
    decreases k
  {
    if d != n {
      if d == x { assert Under(m, x, n); }
      ReachesBefore(m, m', x, Up(m, d).value, n, k - 1);
    }
  }

  /** Subtrees that contain x neither before nor after have the same members. */
  lemma SameSubtree(m: Rows, m': Rows, x: NodeId, d: NodeId, n: NodeId)
    requires SameWalksBut(m, m', x) && !Under(m, x, n) && !Under(m', x, n)
    ensures Under(m, d, n) <==> Under(m', d, n)
  {
    if Under(m, d, n) {
      var k: nat :| ReachesIn(m, d, n, k);
      ReachesBefore(m, m', x, d, n, k);
    }
    if Under(m', d, n) {
      var k: nat :| ReachesIn(m', d, n, k);
      ReachesBefore(m', m, x, d, n, k);
    }
  }

  lemma LocalSameWalksBut(m: Rows, m': Rows, x: NodeId, k: Knowledge, s: set<NodeId>)
    requires Local(m, m', x, k, s)
    ensures SameWalksBut(m, m', x)
  {
  }

  /** An old ancestor of x is still an ancestor of x's old parent. */
  lemma OldAncestor(m: Rows, m': Rows, x: NodeId, n: NodeId)
    requires Acyclic(m) && SameWalksBut(m, m', x) && Under(m, x, n) && x != n
    ensures Up(m, x).Some? && Under(m', Up(m, x).value, n)
  {
    UnderStep(m, x, n);
    var q := Up(m, x).value;
    assert Grounded(m, x);
    ParentDepth(m, x);
    if Under(m, q, x) { UnderGrounded(m, q, x); }
    UnderUnmoved(m, m', x, q, n);
  }

  /** Outside the upward closure of the touched nodes nothing that decides a flag changes. */
  lemma OutsideClosure(m: Rows, m': Rows, x: NodeId, k: Knowledge, s: set<NodeId>, n: NodeId)
    requires Acyclic(m) && Local(m, m', x, k, s) && x in s && OptionSet(ParentOf(m, x)) <= s
    requires forall a | a in s :: !Under(m', a, n)
    requires n in m'
    ensures n in m && IsTomb(m, n) == IsTomb(m', n)
  {
    LocalSameWalksBut(m, m', x, k, s);
    UnderSelf(m', n);
    assert n !in s;
    if Under(m, x, n) { OldAncestor(m, m', x, n); }
    forall d: NodeId ensures Under(m, d, n) <==> Under(m', d, n) { SameSubtree(m, m', x, d, n); }
    SameKnowledge(m, m', n, n, s);
  }

  lemma SameKnowledge(m: Rows, m': Rows, n: NodeId, n': NodeId, s: set<NodeId>)
    requires forall d: NodeId :: Under(m, d, n) <==> Under(m', d, n')
    requires m.Keys <= m'.Keys <= m.Keys + s
    requires forall d | d in m && d !in s :: m'[d] == m[d]
    requires forall a | a in s :: !Under(m', a, n')
    ensures SubtreeKnowledge(m, n) == SubtreeKnowledge(m', n')
  {
    forall id ensures id in SubtreeKnowledge(m, n) <==> id in SubtreeKnowledge(m', n') {
      if id in SubtreeKnowledge(m, n) {
        var d :| d in m && Under(m, d, n) && id in m[d].lastChange;
        assert d !in s;
        assert d in m' && Under(m', d, n') && id in m'[d].lastChange;
      }
      if id in SubtreeKnowledge(m', n') {
        var d :| d in m' && Under(m', d, n') && id in m'[d].lastChange;
        assert d !in s;
        assert d in m && Under(m, d, n) && id in m[d].lastChange;
      }
    }
  }

  // ----- the refresh -----

  ghost predicate InClosure(m: Rows, starts: set<NodeId>, n: NodeId) {
    !Reserved(n) && exists s :: s in starts && Under(m, s, n)
  }

  /** `refresh_tombstones_upward`: recompute the flags of the upward closure, keep the others. */
  ghost function RefreshUp(m: Rows, tombs: set<NodeId>, starts: set<NodeId>): set<NodeId> {
    set n | n in m && (if InClosure(m, starts, n) && m[n].deletedAt.Some? then IsTomb(m, n) else n in tombs)
  }

  /** After any operation, refreshing the upward closure of the touched nodes recomputes every flag. */
  lemma RefreshSuffices(t: Tree, op: Operation)
    requires Forest(t.rows) && WellFormed(op)
    ensures RefreshUp(ApplyForward(t, op).rows, AllTombs(t.rows), Starts(t.rows, op))
         == AllTombs(ApplyForward(t, op).rows)
  {
    hide ApplyForward;
    var m, m', s := t.rows, ApplyForward(t, op).rows, Starts(t.rows, op);
    ApplyLocal(t, op);
    ApplyForest(t, op);
    forall n | n in m'
      ensures n in RefreshUp(m', AllTombs(m), s) <==> IsTomb(m', n)
    {
      if !InClosure(m', s, n) && !Reserved(n) {
        OutsideClosure(m, m', op.kind.node, OpKnowledge(op), s, n);
      }
    }
  }

  /** Refreshing right flags leaves them right. */
  lemma RefreshStable(m: Rows, starts: set<NodeId>)
    ensures RefreshUp(m, AllTombs(m), starts) == AllTombs(m)
  {
  }

  // ----- defensive delete -----

  /** A delete that knows the whole subtree hides the node at once. */
  lemma KnowingDeleteHides(t: Tree, op: Operation)
    requires Forest(t.rows) && (op.kind.Delete? || op.kind.Tombstone?) && !Reserved(op.kind.node)
    requires op.known.Some? && SubtreeKnowledge(t.rows, op.kind.node) <= op.known.value
    ensures IsTomb(ApplyForward(t, op).rows, op.kind.node)
  {
    var x := op.kind.node;
    var m, m' := t.rows, ApplyForward(t, op).rows;
    assert SameWalks(m, m');
    forall id | id in SubtreeKnowledge(m', x) ensures id in m'[x].deletedAt.value {
      var d :| d in m' && Under(m', d, x) && id in m'[d].lastChange;
      SameWalksUnder(m, m', d, x);
      assert d in m && id in m[d].lastChange;
      assert id in SubtreeKnowledge(m, x);
    }
  }

  /** The operation changed the tree: an insert or move was not refused, or a payload write won. */
  ghost predicate Accepted(t: Tree, op: Operation) {
    var m := Ensure(t.rows, op.kind.node);
    match op.kind
    case Insert(p, x, _, payload) =>
      !(p == x || IntroducesCycle(m, x, p)) ||
      (payload.Some? && PayloadWins(t.(rows := ApplyInsert(t.dialect, m, op)), x, op))
    case Move(x, p, _) =>
      x != ROOT && !(p != TRASH && (IntroducesCycle(Ensure(m, p), x, p) || x == p))
    case SetPayload(x, _) => PayloadWins(t, x, op)
    case _ => false
  }

  lemma AcceptedTouches(t: Tree, op: Operation)
    requires Accepted(t, op)
    ensures op.kind.node in ApplyForward(t, op).rows
    ensures OpKnowledge(op) <= ApplyForward(t, op).rows[op.kind.node].lastChange
  {
  }

  /** After the change, a subtree knows nothing but what it, x's subtree and the operation knew. */
  lemma KnowledgeWithin(m: Rows, m': Rows, x: NodeId, k: Knowledge, s: set<NodeId>, a: NodeId)
    requires Local(m, m', x, k, s)
    ensures SubtreeKnowledge(m', a) <= SubtreeKnowledge(m, a) + SubtreeKnowledge(m, x) + k
  {
    LocalSameWalksBut(m, m', x, k, s);
    forall id | id in SubtreeKnowledge(m', a) && id !in k
      ensures id in SubtreeKnowledge(m, a) + SubtreeKnowledge(m, x)
    {
      var d :| d in m' && Under(m', d, a) && id in m'[d].lastChange;
      assert d in m && id in m[d].lastChange;
      UnderMoved(m, m', x, d);
      if !Under(m, d, x) { UnderUnmoved(m, m', x, d, a); }
    }
  }

  /** And it knows all of that when x ends up in it. */
  lemma KnowledgeCovers(m: Rows, m': Rows, x: NodeId, k: Knowledge, s: set<NodeId>, a: NodeId)
    requires Local(m, m', x, k, s) && x in m' && k <= m'[x].lastChange && Under(m', x, a)
    ensures SubtreeKnowledge(m, a) + SubtreeKnowledge(m, x) + k <= SubtreeKnowledge(m', a)
  {
    LocalSameWalksBut(m, m', x, k, s);
    forall id | id in SubtreeKnowledge(m, a) + SubtreeKnowledge(m, x) ensures id in SubtreeKnowledge(m', a) {
      var d :| d in m && (Under(m, d, a) || Under(m, d, x)) && id in m[d].lastChange;
      UnderMoved(m, m', x, d);
      if Under(m, d, x) { UnderTrans(m', d, x, a); } else { UnderUnmoved(m, m', x, d, a); }
      assert d in m' && Under(m', d, a) && id in m'[d].lastChange;
    }
  }

  /** What an accepted operation adds to the knowledge of a subtree its node ends up in: the
      operation itself and all that the node's own subtree already recorded. */
  lemma AcceptedKnowledge(t: Tree, op: Operation, a: NodeId)
    requires Accepted(t, op) && Under(ApplyForward(t, op).rows, op.kind.node, a)
    ensures SubtreeKnowledge(ApplyForward(t, op).rows, a)
         == SubtreeKnowledge(t.rows, a) + SubtreeKnowledge(t.rows, op.kind.node) + OpKnowledge(op)
  {
    hide ApplyForward;
    ApplyLocal(t, op);
    AcceptedTouches(t, op);
    KnowledgeWithin(t.rows, ApplyForward(t, op).rows, op.kind.node, OpKnowledge(op), Starts(t.rows, op), a);
    KnowledgeCovers(t.rows, ApplyForward(t, op).rows, op.kind.node, OpKnowledge(op), Starts(t.rows, op), a);
  }

  /** Exactly when a node stays hidden after an accepted operation lands in its subtree. */
  lemma RevivalExactly(t: Tree, op: Operation, a: NodeId)
    requires Accepted(t, op) && a in t.rows
    requires Under(ApplyForward(t, op).rows, op.kind.node, a)
    ensures IsTomb(ApplyForward(t, op).rows, a) <==>
              && IsTomb(t.rows, a)
              && OpKnowledge(op) + SubtreeKnowledge(t.rows, op.kind.node) <= t.rows[a].deletedAt.value
  {
    hide ApplyForward;
    AcceptedKnowledge(t, op, a);
    ApplyLocal(t, op);
  }

  /** A change the delete did not know about brings back every deleted node above it that lacks it. */
  lemma UnknownChangeRevives(t: Tree, op: Operation, a: NodeId)
    requires Accepted(t, op) && op.id.counter > 0
    requires Under(ApplyForward(t, op).rows, op.kind.node, a)
    requires DeletedAt(t.rows, a).Some? ==> op.id !in DeletedAt(t.rows, a).value
    ensures !IsTomb(ApplyForward(t, op).rows, a)
  {
    hide ApplyForward;
    AcceptedKnowledge(t, op, a);
    ApplyLocal(t, op);
    assert op.id in OpKnowledge(op);
  }
}
