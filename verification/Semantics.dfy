/** What one operation does to the materialized tree (`apply_forward`), and folds of logs. */
module Semantics {
  import opened Basics
  import opened Operations
  import opened NodeRows

  datatype Payload = Payload(content: Option<Bytes>, writerLamport: nat, writer: OpId)

  datatype Tree = Tree(dialect: Dialect, rows: Rows, payloads: map<NodeId, Payload>)

  function WriterKey(p: Payload): OpKey {
    OpKey(p.writerLamport, p.writer.replica, p.writer.counter)
  }

  ghost predicate IntroducesCycle(m: Rows, node: NodeId, parent: NodeId) {
    !Reserved(parent) && Under(m, parent, node)
  }

  ghost function ApplyInsert(d: Dialect, m: Rows, op: Operation): Rows
    requires op.kind.Insert?
  {
    var Insert(parent, node, key, _) := op.kind;
    if parent == node || IntroducesCycle(m, node, parent) then m
    else
      var m1 := Relink(d, Ensure(Ensure(m, parent), node), node, parent, key);
      Touch(Touch(m1, node, OpKnowledge(op)), parent, OpKnowledge(op))
  }

  ghost function ApplyMove(d: Dialect, m: Rows, op: Operation): Rows
    requires op.kind.Move?
  {
    var Move(node, newParent, key) := op.kind;
    if node == ROOT then m
    else
      var m1 := Ensure(Ensure(m, node), newParent);
      if newParent != TRASH && (IntroducesCycle(m1, node, newParent) || node == newParent) then m1
      else
        var prev := ParentOf(m1, node);
        var m2 := Touch(Relink(d, m1, node, newParent, key), node, OpKnowledge(op));
        var m3 := if prev.Some? && prev.value != TRASH then Touch(m2, prev.value, OpKnowledge(op)) else m2;
        if newParent != TRASH then Touch(m3, newParent, OpKnowledge(op)) else m3
  }

  function ApplyDelete(m: Rows, op: Operation): Rows {
    var node := op.kind.node;
    if Reserved(node) then m else MergeDeletedAt(Ensure(m, node), node, OpKnowledge(op))
  }

  /** Last writer wins, by operation key. */
  predicate PayloadWins(t: Tree, node: NodeId, op: Operation) {
    node in t.payloads ==> KeyLess(WriterKey(t.payloads[node]), KeyOf(op))
  }

  function ApplyPayload(t: Tree, op: Operation, node: NodeId, content: Option<Bytes>): Tree {
    var m := Ensure(t.rows, node);
    if PayloadWins(t, node, op) then
      t.(rows := Touch(m, node, OpKnowledge(op)), payloads := t.payloads[node := Payload(content, op.lamport, op.id)])
    else t.(rows := m)
  }

  ghost function ApplyForward(t: Tree, op: Operation): Tree {
    var m := Ensure(t.rows, op.kind.node);
    match op.kind
    case Insert(_, node, _, payload) =>
      var t1 := t.(rows := ApplyInsert(t.dialect, m, op));
      if payload.Some? then ApplyPayload(t1, op, node, payload) else t1
    case Move(_, _, _) => t.(rows := ApplyMove(t.dialect, m, op))
    case Delete(_) => t.(rows := ApplyDelete(m, op))
    case Tombstone(_) => t.(rows := ApplyDelete(m, op))
    case SetPayload(node, content) => ApplyPayload(t.(rows := m), op, node, content)
  }

  /** The state of a store right after `reset`. */
  function EmptyTree(d: Dialect): Tree {
    Tree(d, map[ROOT := ROOT_ROW], map[])
  }

  ghost function Fold(t: Tree, ops: seq<Operation>): Tree {
    if ops == [] then t else ApplyForward(Fold(t, ops[..|ops| - 1]), ops[|ops| - 1])
  }

  lemma FoldStep(t: Tree, ops: seq<Operation>, op: Operation)
    ensures Fold(t, ops + [op]) == ApplyForward(Fold(t, ops), op)
  {
    assert (ops + [op])[..|ops|] == ops;
  }

  lemma {:induction false} FoldAppend(t: Tree, a: seq<Operation>, b: seq<Operation>)
    ensures Fold(t, a + b) == Fold(Fold(t, a), b)
  {
    hide ApplyForward;
    if b == [] {
      assert a + b == a;
    } else {
      var front, last := b[..|b| - 1], b[|b| - 1];
      FoldAppend(t, a, front);
      assert a + b == (a + front) + [last];
      FoldStep(t, a + front, last);
    }
  }

  lemma {:induction false} FoldDialect(t: Tree, ops: seq<Operation>)
    ensures Fold(t, ops).dialect == t.dialect
  {
    if ops != [] { FoldDialect(t, ops[..|ops| - 1]); }
  }

  // ----- every walk ends, for every operation -----

  lemma InsertAcyclic(d: Dialect, m: Rows, op: Operation)
    requires op.kind.Insert? && Acyclic(m)
    ensures Acyclic(ApplyInsert(d, m, op))
  {
    var Insert(parent, node, key, _) := op.kind;
    if !(parent == node || IntroducesCycle(m, node, parent)) {
      var m1 := Ensure(Ensure(m, parent), node);
      EnsureTwice(m, parent, node);
      SameWalksUnder(m, m1, parent, node);
      if Reserved(parent) { UnderStep(m, parent, node); }
      RelinkAcyclic(d, m1, node, parent, key);
      TouchTwice(Relink(d, m1, node, parent, key), node, parent, OpKnowledge(op));
    }
  }

  lemma MoveAcyclic(d: Dialect, m: Rows, op: Operation)
    requires op.kind.Move? && Acyclic(m)
    ensures Acyclic(ApplyMove(d, m, op))
  {
    var Move(node, newParent, key) := op.kind;
    var m1 := Ensure(Ensure(m, node), newParent);
    EnsureTwice(m, node, newParent);
    if node != ROOT && !(newParent != TRASH && (IntroducesCycle(m1, node, newParent) || node == newParent)) {
      if Reserved(newParent) { UnderStep(m1, newParent, node); }
      RelinkAcyclic(d, m1, node, newParent, key);
      var m2 := Relink(d, m1, node, newParent, key);
      TouchForest(m2, node, OpKnowledge(op));
      var m3 := Touch(m2, node, OpKnowledge(op));
      var prev := ParentOf(m1, node);
      if prev.Some? { TouchTwice(m3, prev.value, newParent, OpKnowledge(op)); }
      TouchForest(m3, newParent, OpKnowledge(op));
    }
  }

  lemma EnsureTwice(m: Rows, a: NodeId, b: NodeId)
    ensures SameWalks(m, Ensure(Ensure(m, a), b))
    ensures Acyclic(m) ==> Acyclic(Ensure(Ensure(m, a), b))
    ensures Forest(m) ==> Forest(Ensure(Ensure(m, a), b))
  {
    EnsureForest(m, a);
    EnsureForest(Ensure(m, a), b);
  }

  lemma TouchTwice(m: Rows, a: NodeId, b: NodeId, k: Knowledge)
    ensures SameWalks(m, Touch(Touch(m, a, k), b, k))
    ensures Acyclic(m) ==> Acyclic(Touch(m, a, k)) && Acyclic(Touch(Touch(m, a, k), b, k))
    ensures Forest(m) ==> Forest(Touch(m, a, k)) && Forest(Touch(Touch(m, a, k), b, k))
  {
    TouchForest(m, a, k);
    TouchForest(Touch(m, a, k), b, k);
  }

  lemma PayloadForest(t: Tree, op: Operation, node: NodeId, content: Option<Bytes>)
    ensures SameWalks(t.rows, ApplyPayload(t, op, node, content).rows)
    ensures Acyclic(t.rows) ==> Acyclic(ApplyPayload(t, op, node, content).rows)
    ensures Forest(t.rows) ==> Forest(ApplyPayload(t, op, node, content).rows)
  {
    EnsureForest(t.rows, node);
    TouchForest(Ensure(t.rows, node), node, OpKnowledge(op));
  }

  lemma ApplyAcyclic(t: Tree, op: Operation)
    requires Acyclic(t.rows)
    ensures Acyclic(ApplyForward(t, op).rows)
  {
    var m := Ensure(t.rows, op.kind.node);
    EnsureForest(t.rows, op.kind.node);
    match op.kind
    case Insert(_, node, _, payload) =>
      InsertAcyclic(t.dialect, m, op);
      PayloadForest(t.(rows := ApplyInsert(t.dialect, m, op)), op, node, payload);
    case Move(_, _, _) => MoveAcyclic(t.dialect, m, op);
    case Delete(node) => EnsureForest(m, node); MergeDeletedAtForest(Ensure(m, node), node, OpKnowledge(op));
    case Tombstone(node) => EnsureForest(m, node); MergeDeletedAtForest(Ensure(m, node), node, OpKnowledge(op));
    case SetPayload(node, content) => PayloadForest(t.(rows := m), op, node, content);
  }

  /** Whatever operations a log holds, every parent walk of its fold ends, so the walk of
      `introduces_cycle` terminates in every reachable state. */
  lemma {:induction false} FoldAcyclic(d: Dialect, ops: seq<Operation>)
    ensures Acyclic(Fold(EmptyTree(d), ops).rows)
  {
    if ops == [] {
      forall n: NodeId ensures Grounded(EmptyTree(d).rows, n) { assert DepthIs(EmptyTree(d).rows, n, 0); }
    } else {
      FoldAcyclic(d, ops[..|ops| - 1]);
      ApplyAcyclic(Fold(EmptyTree(d), ops[..|ops| - 1]), ops[|ops| - 1]);
    }
  }

  // ----- forests: exactly when an operation keeps one -----

  /** Nothing stops an insert of ROOT or TRASH, or a move of TRASH, under a parent outside the
      node's own subtree; a move of TRASH to itself skips even that test. */
  ghost predicate Breaks(d: Dialect, m: Rows, op: Operation) {
    match op.kind
    case Insert(p, n, _, _) => Reserved(n) && !NeverLinked(d, n) && !Under(m, p, n)
    case Move(n, p, _) => n == TRASH && (p == TRASH || !Under(m, p, n))
    case _ => false
  }

  /** An insert or move of an ordinary node, or one that changes no parent. */
  ghost predicate Harmless(d: Dialect, m: Rows, op: Operation)
    requires op.kind.Insert? || op.kind.Move?
  {
    !Reserved(op.kind.node) || NeverLinked(d, op.kind.node) ||
    (if op.kind.Insert? then op.kind.parent == op.kind.node || IntroducesCycle(m, op.kind.node, op.kind.parent)
     else op.kind.node == ROOT ||
          (op.kind.newParent != TRASH &&
           (IntroducesCycle(m, op.kind.node, op.kind.newParent) || op.kind.node == op.kind.newParent)))
  }

  lemma HarmlessExactly(d: Dialect, m: Rows, m': Rows, op: Operation)
    requires (op.kind.Insert? || op.kind.Move?) && SameWalks(m, m')
    ensures Harmless(d, m', op) <==> !Breaks(d, m, op)
  {
    var n, p := op.kind.node, if op.kind.Insert? then op.kind.parent else op.kind.newParent;
    UnderStep(m, p, n);
    SameWalksUnder(m, m', p, n);
  }

  lemma InsertForest(d: Dialect, m: Rows, op: Operation)
    requires op.kind.Insert? && Forest(m) && Harmless(d, m, op)
    ensures Forest(ApplyInsert(d, m, op))
  {
    var Insert(parent, node, key, _) := op.kind;
    if !(parent == node || IntroducesCycle(m, node, parent)) {
      var m1 := Ensure(Ensure(m, parent), node);
      EnsureTwice(m, parent, node);
      SameWalksUnder(m, m1, parent, node);
      if Reserved(parent) { UnderStep(m, parent, node); }
      if !NeverLinked(d, node) { RelinkForest(d, m1, node, parent, key); }
      TouchTwice(Relink(d, m1, node, parent, key), node, parent, OpKnowledge(op));
    }
  }

  lemma MoveForest(d: Dialect, m: Rows, op: Operation)
    requires op.kind.Move? && Forest(m) && Harmless(d, Ensure(Ensure(m, op.kind.node), op.kind.newParent), op)
    ensures Forest(ApplyMove(d, m, op))
  {
    var Move(node, newParent, key) := op.kind;
    var m1 := Ensure(Ensure(m, node), newParent);
    EnsureTwice(m, node, newParent);
    if node != ROOT && !(newParent != TRASH && (IntroducesCycle(m1, node, newParent) || node == newParent)) {
      if Reserved(newParent) { UnderStep(m1, newParent, node); }
      RelinkForest(d, m1, node, newParent, key);
      var m2 := Relink(d, m1, node, newParent, key);
      TouchForest(m2, node, OpKnowledge(op));
      var m3 := Touch(m2, node, OpKnowledge(op));
      var prev := ParentOf(m1, node);
      if prev.Some? { TouchTwice(m3, prev.value, newParent, OpKnowledge(op)); }
      TouchForest(m3, newParent, OpKnowledge(op));
    }
  }

  /** One operation that does not break the forest keeps it. */
  lemma ApplyForest(t: Tree, op: Operation)
    requires Forest(t.rows) && !Breaks(t.dialect, t.rows, op)
    ensures Forest(ApplyForward(t, op).rows)
  {
    var m := Ensure(t.rows, op.kind.node);
    EnsureForest(t.rows, op.kind.node);
    match op.kind
    case Insert(_, node, _, payload) =>
      HarmlessExactly(t.dialect, t.rows, m, op);
      InsertForest(t.dialect, m, op);
      PayloadForest(t.(rows := ApplyInsert(t.dialect, m, op)), op, node, payload);
    case Move(node, newParent, _) =>
      EnsureTwice(m, node, newParent);
      HarmlessExactly(t.dialect, t.rows, Ensure(Ensure(m, node), newParent), op);
      MoveForest(t.dialect, m, op);
    case Delete(node) =>
      EnsureForest(m, node);
      if !Reserved(node) { MergeDeletedAtForest(Ensure(m, node), node, OpKnowledge(op)); }
    case Tombstone(node) =>
      EnsureForest(m, node);
      if !Reserved(node) { MergeDeletedAtForest(Ensure(m, node), node, OpKnowledge(op)); }
    case SetPayload(node, content) => PayloadForest(t.(rows := m), op, node, content);
  }

  lemma InsertLinks(d: Dialect, m: Rows, op: Operation)
    requires op.kind.Insert? && !(op.kind.parent == op.kind.node || IntroducesCycle(m, op.kind.node, op.kind.parent))
    requires !NeverLinked(d, op.kind.node)
    ensures ParentOf(ApplyInsert(d, m, op), op.kind.node) == Some(op.kind.parent)
  {
    var Insert(p, n, key, _) := op.kind;
    RelinkRow(d, Ensure(Ensure(m, p), n), n, p, key);
  }

  ghost predicate MoveRefused(m: Rows, op: Operation)
    requires op.kind.Move?
  {
    var Move(n, p, _) := op.kind;
    n == ROOT || (p != TRASH && (IntroducesCycle(Ensure(Ensure(m, n), p), n, p) || n == p))
  }

  lemma MoveLinks(d: Dialect, m: Rows, op: Operation)
    requires op.kind.Move? && !MoveRefused(m, op)
    ensures ParentOf(ApplyMove(d, m, op), op.kind.node) == Some(op.kind.newParent)
  {
    hide IntroducesCycle;
    var Move(n, p, key) := op.kind;
    RelinkRow(d, Ensure(Ensure(m, n), p), n, p, key);
  }

  /** A breaking operation gives ROOT or TRASH a parent. */
  lemma BreakingLinks(t: Tree, op: Operation)
    requires Breaks(t.dialect, t.rows, op)
    ensures Reserved(op.kind.node) && ParentOf(ApplyForward(t, op).rows, op.kind.node).Some?
  {
    hide ApplyInsert, ApplyMove;
    var m := Ensure(t.rows, op.kind.node);
    EnsureForest(t.rows, op.kind.node);
    HarmlessBreaks(t, op);
    if op.kind.Insert? {
      InsertLinks(t.dialect, m, op);
    } else {
      MoveLinks(t.dialect, m, op);
    }
  }

  lemma HarmlessBreaks(t: Tree, op: Operation)
    requires Breaks(t.dialect, t.rows, op)
    ensures
      var m := Ensure(t.rows, op.kind.node);
      !Harmless(t.dialect, if op.kind.Insert? then m else Ensure(Ensure(m, op.kind.node), op.kind.newParent), op)
  {
    var m := Ensure(t.rows, op.kind.node);
    EnsureForest(t.rows, op.kind.node);
    if op.kind.Move? { EnsureTwice(m, op.kind.node, op.kind.newParent); }
    var m1 := if op.kind.Insert? then m else Ensure(Ensure(m, op.kind.node), op.kind.newParent);
    HarmlessExactly(t.dialect, t.rows, m1, op);
  }

  /** Exactly when an operation keeps the forest. */
  lemma ApplyForestExactly(t: Tree, op: Operation)
    requires Forest(t.rows)
    ensures Forest(ApplyForward(t, op).rows) <==> !Breaks(t.dialect, t.rows, op)
  {
    hide ApplyForward;
    if Breaks(t.dialect, t.rows, op) { BreakingLinks(t, op); } else { ApplyForest(t, op); }
  }

  /** A node that has a parent never loses it altogether. */
  lemma ParentsStay(t: Tree, op: Operation, n: NodeId)
    requires ParentOf(t.rows, n).Some?
    ensures ParentOf(ApplyForward(t, op).rows, n).Some?
  {
    hide ApplyInsert, ApplyMove;
    var m := Ensure(t.rows, op.kind.node);
    if op.kind.Insert? { InsertKeepsParents(t.dialect, m, op, n); }
    if op.kind.Move? { MoveKeepsParents(t.dialect, m, op, n); }
  }

  lemma InsertKeepsParents(d: Dialect, m: Rows, op: Operation, n: NodeId)
    requires op.kind.Insert? && ParentOf(m, n).Some?
    ensures ParentOf(ApplyInsert(d, m, op), n).Some?
  {
    hide IntroducesCycle;
    var Insert(p, x, key, _) := op.kind;
    RelinkRow(d, Ensure(Ensure(m, p), x), x, p, key);
  }

  lemma MoveKeepsParents(d: Dialect, m: Rows, op: Operation, n: NodeId)
    requires op.kind.Move? && ParentOf(m, n).Some?
    ensures ParentOf(ApplyMove(d, m, op), n).Some?
  {
    hide IntroducesCycle, Touch;
    var Move(x, p, key) := op.kind;
    var m1 := Ensure(Ensure(m, x), p);
    RelinkRow(d, m1, x, p, key);
    var m2 := Relink(d, m1, x, p, key);
    TouchParents(m2, x, OpKnowledge(op));
    var m3 := Touch(m2, x, OpKnowledge(op));
    TouchParents(m3, p, OpKnowledge(op));
    if ParentOf(m1, x).Some? {
      TouchParents(m3, ParentOf(m1, x).value, OpKnowledge(op));
      TouchParents(Touch(m3, ParentOf(m1, x).value, OpKnowledge(op)), p, OpKnowledge(op));
    }
  }

  lemma TouchParents(m: Rows, a: NodeId, k: Knowledge)
    ensures forall n: NodeId :: ParentOf(Touch(m, a, k), n) == ParentOf(m, n)
  {
  }

  ghost predicate BreaksAt(d: Dialect, ops: seq<Operation>, i: nat)
    requires i < |ops|
  {
    Breaks(d, Fold(EmptyTree(d), ops[..i]).rows, ops[i])
  }

  lemma {:induction false} FoldTops(d: Dialect, ops: seq<Operation>)
    ensures (forall i | 0 <= i < |ops| :: !BreaksAt(d, ops, i)) ==> Forest(Fold(EmptyTree(d), ops).rows)
    ensures (exists i :: 0 <= i < |ops| && BreaksAt(d, ops, i)) ==>
              exists n: NodeId :: Reserved(n) && ParentOf(Fold(EmptyTree(d), ops).rows, n).Some?
  {
    hide ApplyForward, Breaks, Forest;
    if ops == [] {
      EmptyForest(d);
    } else {
      var front, op := ops[..|ops| - 1], ops[|ops| - 1];
      var t := Fold(EmptyTree(d), front);
      FoldTops(d, front);
      FoldDialect(EmptyTree(d), front);
      forall i | 0 <= i < |front|
        ensures BreaksAt(d, ops, i) <==> BreaksAt(d, front, i)
      {
        assert ops[..i] == front[..i];
      }
      assert BreaksAt(d, ops, |front|) <==> Breaks(d, t.rows, op);
      if exists i :: 0 <= i < |front| && BreaksAt(d, front, i) {
        var n: NodeId :| Reserved(n) && ParentOf(t.rows, n).Some?;
        ParentsStay(t, op, n);
      } else if BreaksAt(d, ops, |front|) {
        BreakingLinks(t, op);
      } else {
        ApplyForest(t, op);
      }
    }
  }

  lemma EmptyForest(d: Dialect)
    ensures Forest(EmptyTree(d).rows)
  {
    FoldAcyclic(d, []);
  }

  /** Exactly which logs yield a forest: those none of whose operations breaks the tree it meets. */
  lemma FoldForestExactly(d: Dialect, ops: seq<Operation>)
    ensures Forest(Fold(EmptyTree(d), ops).rows) <==> forall i | 0 <= i < |ops| :: !BreaksAt(d, ops, i)
  {
    hide BreaksAt, Fold, Acyclic;
    FoldTops(d, ops);
  }

  lemma WellFormedNeverBreaks(d: Dialect, m: Rows, op: Operation)
    requires WellFormed(op)
    ensures !Breaks(d, m, op)
  {
  }

  lemma {:induction false} FoldForest(d: Dialect, ops: seq<Operation>)
    requires AllWellFormed(ops)
    ensures Forest(Fold(EmptyTree(d), ops).rows)
    ensures ROOT in Fold(EmptyTree(d), ops).rows
  {
    hide ApplyForward, Fold, Forest;
    forall i | 0 <= i < |ops| ensures !BreaksAt(d, ops, i) { assert ops[i] in ops; }
    FoldForestExactly(d, ops);
    FoldKeepsRoot(d, ops);
  }

  lemma {:induction false} FoldKeepsRoot(d: Dialect, ops: seq<Operation>)
    ensures ROOT in Fold(EmptyTree(d), ops).rows
  {
    hide ApplyForward;
    if ops != [] {
      FoldKeepsRoot(d, ops[..|ops| - 1]);
      ApplyKeepsNodes(Fold(EmptyTree(d), ops[..|ops| - 1]), ops[|ops| - 1]);
    }
  }

  // ----- which rows an operation leaves -----

  function TargetParent(kind: Kind): Option<NodeId> {
    match kind
    case Insert(p, _, _, _) => Some(p)
    case Move(_, p, _) => Some(p)
    case _ => None
  }

  function OptionSet<T>(o: Option<T>): set<T> {
    if o.Some? then {o.value} else {}
  }

  /** The rows an operation leaves behind: its node's, and its target parent's unless it moves ROOT. */
  function Created(op: Operation): set<NodeId> {
    {op.kind.node} + (if op.kind.Move? && op.kind.node == ROOT then {} else OptionSet(TargetParent(op.kind)))
  }

  lemma InsertKeys(d: Dialect, m: Rows, op: Operation)
    requires op.kind.Insert? && op.kind.node in m
    ensures ApplyInsert(d, m, op).Keys == m.Keys + {op.kind.parent}
  {
    var Insert(p, n, key, _) := op.kind;
    if p == n {
    } else if IntroducesCycle(m, n, p) {
      UnderStep(m, p, n);
    } else {
      var m1 := Ensure(Ensure(m, p), n);
      RelinkRow(d, m1, n, p, key);
      assert Relink(d, m1, n, p, key).Keys == m.Keys + {p};
    }
  }

  lemma MoveKeys(d: Dialect, m: Rows, op: Operation)
    requires op.kind.Move? && op.kind.node in m
    ensures ApplyMove(d, m, op).Keys == m.Keys + (if op.kind.node == ROOT then {} else {op.kind.newParent})
  {
    hide IntroducesCycle;
    var Move(n, p, key) := op.kind;
    if n != ROOT {
      var m1 := Ensure(Ensure(m, n), p);
      RelinkRow(d, m1, n, p, key);
      assert Relink(d, m1, n, p, key).Keys == m.Keys + {p};
    }
  }

  lemma ApplyKeys(t: Tree, op: Operation)
    ensures ApplyForward(t, op).rows.Keys == t.rows.Keys + Created(op)
  {
    hide ApplyInsert, ApplyMove;
    var m := Ensure(t.rows, op.kind.node);
    assert m.Keys == t.rows.Keys + {op.kind.node};
    if op.kind.Insert? { InsertKeys(t.dialect, m, op); }
    if op.kind.Move? { MoveKeys(t.dialect, m, op); }
  }

  /** No operation removes a node or a payload. */
  lemma ApplyKeepsNodes(t: Tree, op: Operation)
    ensures t.rows.Keys <= ApplyForward(t, op).rows.Keys
    ensures op.kind.node in ApplyForward(t, op).rows
    ensures t.payloads.Keys <= ApplyForward(t, op).payloads.Keys
    ensures ApplyForward(t, op).dialect == t.dialect
  {
    hide ApplyInsert, ApplyMove, ApplyDelete;
    ApplyKeys(t, op);
  }

  /** A move of TRASH to itself passes every guard and makes TRASH its own parent. */
  lemma MovingTrashBreaksTheForest(d: Dialect)
    ensures
      var a := Operation(OpId([1], 1), 1, None, Move(TRASH, TRASH, []));
      var m := Fold(EmptyTree(d), [a]).rows;
      BreaksAt(d, [a], 0) && ParentOf(m, TRASH) == Some(TRASH) && !Forest(m)
  {
    var a := Operation(OpId([1], 1), 1, None, Move(TRASH, TRASH, []));
    assert [a][..0] == [] && [] + [a] == [a];
    FoldStep(EmptyTree(d), [], a);
    MoveLinks(d, Ensure(EmptyTree(d).rows, TRASH), a);
  }

  /** In memory two inserts that name ROOT or its child leave ROOT and the node each other's
      parent, and the subtree recursion then never ends. */
  lemma InsertingRootBreaksTheForest()
    ensures
      var a := Operation(OpId([1], 1), 1, None, Insert(7, ROOT, [], None));
      var b := Operation(OpId([1], 2), 2, None, Insert(ROOT, 7, [], None));
      var m := Fold(EmptyTree(Memory), [a, b]).rows;
      Sorted([a, b]) && ParentOf(m, ROOT) == Some(7) && ParentOf(m, 7) == Some(ROOT) && !Forest(m)
  {
    var a := Operation(OpId([1], 1), 1, None, Insert(7, ROOT, [], None));
    var b := Operation(OpId([1], 2), 2, None, Insert(ROOT, 7, [], None));
    var t0 := EmptyTree(Memory);
    FoldStep(t0, [], a);
    FoldStep(t0, [a], b);
    assert [] + [a] == [a] && [a] + [b] == [a, b];
    var t1 := ApplyForward(t0, a);
    UnderStep(t0.rows, 7, ROOT);
    assert t1.rows[ROOT].parent == Some(7);
  }

  // ----- last writer wins -----

  predicate WritesPayload(op: Operation, node: NodeId) {
    op.kind.node == node && (op.kind.SetPayload? || (op.kind.Insert? && op.kind.payload.Some?))
  }

  function WrittenContent(op: Operation): Option<Bytes>
    requires WritesPayload(op, op.kind.node)
  {
    if op.kind.SetPayload? then op.kind.content else op.kind.payload
  }

  lemma ApplyPayloads(t: Tree, op: Operation)
    ensures
      var n := op.kind.node;
      ApplyForward(t, op).payloads ==
      if WritesPayload(op, n) && PayloadWins(t, n, op)
      then t.payloads[n := Payload(WrittenContent(op), op.lamport, op.id)] else t.payloads
  {
  }

  /** w writes the node's payload and no later operation of the log does. */
  ghost predicate IsLastWriter(ops: seq<Operation>, node: NodeId, w: Operation) {
    && w in ops && WritesPayload(w, node)
    && forall v | v in ops && WritesPayload(v, node) :: v == w || KeyLess(KeyOf(v), KeyOf(w))
  }

  lemma {:induction false} LastWriterExists(ops: seq<Operation>, node: NodeId) returns (w: Option<Operation>)
    requires Sorted(ops)
    ensures w.None? ==> forall v | v in ops :: !WritesPayload(v, node)
    ensures w.Some? ==> IsLastWriter(ops, node, w.value)
    ensures
      var t := Fold(EmptyTree(Memory), ops);
      var t' := Fold(EmptyTree(Postgres), ops);
      match w
      case None => node !in t.payloads && node !in t'.payloads
      case Some(x) =>
        var entry := Payload(WrittenContent(x), x.lamport, x.id);
        node in t.payloads && t.payloads[node] == entry && node in t'.payloads && t'.payloads[node] == entry
  {
    hide ApplyForward;
    if ops == [] { return None; }
    var front, op := ops[..|ops| - 1], ops[|ops| - 1];
    assert ops == front + [op];
    var u := LastWriterExists(front, node);
    ApplyPayloads(Fold(EmptyTree(Memory), front), op);
    ApplyPayloads(Fold(EmptyTree(Postgres), front), op);
    w := if WritesPayload(op, node) then Some(op) else u;
    if u.Some? {
      var j :| 0 <= j < |front| && front[j] == u.value;
      assert KeyLess(KeyOf(ops[j]), KeyOf(ops[|ops| - 1]));
    }
  }

  /** The payload entry is that of the writer with the largest key, in any dialect, whether or not
      the insert that carried it was refused as a cycle; without a writer there is no entry. */
  lemma LastWriterWins(d: Dialect, ops: seq<Operation>, node: NodeId)
    requires Sorted(ops)
    ensures node in Fold(EmptyTree(d), ops).payloads <==> exists w :: IsLastWriter(ops, node, w)
    ensures node in Fold(EmptyTree(d), ops).payloads <==> exists w :: w in ops && WritesPayload(w, node)
    ensures forall w | IsLastWriter(ops, node, w) ::
              && node in Fold(EmptyTree(d), ops).payloads
              && Fold(EmptyTree(d), ops).payloads[node] == Payload(WrittenContent(w), w.lamport, w.id)
  {
    var x := LastWriterExists(ops, node);
    assert d == Memory || d == Postgres;
    forall w | IsLastWriter(ops, node, w) ensures x == Some(w) {
      if x.Some? && x.value != w { KeyAsymmetric(KeyOf(x.value), KeyOf(w)); }
    }
  }

  /** Of two writes with the same lamport that nobody followed up, the one whose replica has the larger
      bytes wins, whatever the counters. */
  lemma TiedWrites(d: Dialect, ops: seq<Operation>, node: NodeId, a: Operation, b: Operation)
    requires Sorted(ops) && a in ops && b in ops && WritesPayload(a, node) && WritesPayload(b, node)
    requires a.lamport == b.lamport && LexLess(a.id.replica, b.id.replica)
    requires forall w | w in ops && WritesPayload(w, node) :: w.lamport < a.lamport || w == a || w == b
    ensures node in Fold(EmptyTree(d), ops).payloads
    ensures Fold(EmptyTree(d), ops).payloads[node] == Payload(WrittenContent(b), b.lamport, b.id)
  {
    hide Fold;
    KeyOrder(KeyOf(a), KeyOf(b));
    LexIrreflexive(a.id.replica);
    assert IsLastWriter(ops, node, b);
    LastWriterWins(d, ops, node);
  }
}
