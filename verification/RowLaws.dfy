/** What a log leaves in each column of a node's row, said without the functions that compute it. */
module RowLaws {
  import opened Basics
  import opened Operations
  import opened NodeRows
  import opened Semantics
  import opened Tombstones

  // ----- parent and order key -----

  /** The operation asks for a place for n. */
  predicate Places(op: Operation, n: NodeId) {
    (op.kind.Insert? || op.kind.Move?) && op.kind.node == n
  }

  lemma CycleExactly(m: Rows, m': Rows, n: NodeId, p: NodeId)
    requires SameWalks(m, m')
    ensures p == n || IntroducesCycle(m', n, p) <==> Under(m, p, n)
  {
    UnderStep(m, p, n);
    SameWalksUnder(m, m', p, n);
  }

  lemma InsertPlaces(t: Tree, op: Operation)
    requires op.kind.Insert? && WellFormed(op) && !Under(t.rows, op.kind.parent, op.kind.node)
    ensures
      var m' := ApplyForward(t, op).rows;
      && op.kind.node in m' && m'[op.kind.node].parent == Some(op.kind.parent)
      && m'[op.kind.node].key == StoredKey(t.dialect, op.kind.parent, op.kind.key)
  {
    var Insert(p, n, key, _) := op.kind;
    var m := Ensure(t.rows, n);
    CycleExactly(t.rows, m, n, p);
    hide IntroducesCycle;
    RelinkRow(t.dialect, Ensure(Ensure(m, p), n), n, p, key);
  }

  lemma MovePlaces(t: Tree, op: Operation)
    requires op.kind.Move? && WellFormed(op) && op.kind.node != ROOT && !Under(t.rows, op.kind.newParent, op.kind.node)
    ensures
      var m' := ApplyForward(t, op).rows;
      && op.kind.node in m' && m'[op.kind.node].parent == Some(op.kind.newParent)
      && m'[op.kind.node].key == StoredKey(t.dialect, op.kind.newParent, op.kind.key)
  {
    var Move(n, p, key) := op.kind;
    var m := Ensure(t.rows, n);
    var m1 := Ensure(Ensure(m, n), p);
    CycleExactly(t.rows, m1, n, p);
    hide IntroducesCycle;
    RelinkRow(t.dialect, m1, n, p, key);
  }

  lemma RefusedInsert(t: Tree, op: Operation)
    requires op.kind.Insert? && Under(t.rows, op.kind.parent, op.kind.node)
    ensures RowsKept(t, op)
  {
    CycleExactly(t.rows, Ensure(t.rows, op.kind.node), op.kind.node, op.kind.parent);
    hide IntroducesCycle;
  }

  lemma RefusedMove(t: Tree, op: Operation)
    requires op.kind.Move? && (op.kind.node == ROOT || Under(t.rows, op.kind.newParent, op.kind.node))
    requires op.kind.node == ROOT || op.kind.newParent != TRASH
    ensures RowsKept(t, op)
  {
    var Move(n, p, _) := op.kind;
    var m := Ensure(t.rows, n);
    CycleExactly(t.rows, Ensure(Ensure(m, n), p), n, p);
    hide IntroducesCycle;
  }

  /** No row that was there changes, but for the mark of a payload that an insert carries, and the
      node gets no parent. */
  ghost predicate RowsKept(t: Tree, op: Operation) {
    var m, m', n := t.rows, ApplyForward(t, op).rows, op.kind.node;
    && ParentOf(m', n) == ParentOf(m, n)
    && forall x | x in m ::
         && x in m' && m'[x] == m[x].(lastChange := m'[x].lastChange)
         && ((x == n && op.kind.Insert? && op.kind.payload.Some?) || m'[x] == m[x])
  }

  /** An insert or move of n takes effect exactly when the target does not lie under n (and n is not
      ROOT); a move to TRASH always does. Otherwise every row stays. */
  lemma PlacedExactly(t: Tree, op: Operation)
    requires Forest(t.rows) && WellFormed(op) && (op.kind.Insert? || op.kind.Move?)
    ensures
      var m, m', n, p := t.rows, ApplyForward(t, op).rows, op.kind.node, TargetParent(op.kind).value;
      && (n != ROOT && !Under(m, p, n) <==>
          ParentOf(m', n) == Some(p) && BlankKey(m', n) == StoredKey(t.dialect, p, op.kind.key))
      && (n != ROOT && p == TRASH ==> !Under(m, p, n))
      && (n == ROOT || Under(m, p, n) ==> RowsKept(t, op))
  {
    hide ApplyForward, RowsKept;
    var m, n, p := t.rows, op.kind.node, TargetParent(op.kind).value;
    if p == TRASH { UnderStep(m, TRASH, n); }
    if n != ROOT && !Under(m, p, n) {
      if op.kind.Insert? { InsertPlaces(t, op); } else { MovePlaces(t, op); }
    } else {
      if op.kind.Insert? { RefusedInsert(t, op); } else { RefusedMove(t, op); }
      KeptParent(t, op);
      if ParentOf(m, n) == Some(p) {
        assert Grounded(m, n);
        ParentDepth(m, n);
        UnderGrounded(m, p, n);
      }
    }
  }

  lemma KeptParent(t: Tree, op: Operation)
    requires RowsKept(t, op)
    ensures ParentOf(ApplyForward(t, op).rows, op.kind.node) == ParentOf(t.rows, op.kind.node)
  {
    hide ApplyForward;
  }

  /** The i-th operation of a log places n. */
  ghost predicate PlacesAt(d: Dialect, ops: seq<Operation>, n: NodeId, i: nat)
    requires i < |ops|
  {
    Places(ops[i], n) && n != ROOT && !Under(Fold(EmptyTree(d), ops[..i]).rows, TargetParent(ops[i].kind).value, n)
  }

  /** Parent and order key of n are those the operation asks for. */
  predicate PlacedBy(d: Dialect, m: Rows, op: Operation, n: NodeId) {
    && (op.kind.Insert? || op.kind.Move?) && ParentOf(m, n) == TargetParent(op.kind)
    && BlankKey(m, n) == StoredKey(d, TargetParent(op.kind).value, op.kind.key)
  }

  lemma PlaceStep(t: Tree, op: Operation, n: NodeId)
    requires Forest(t.rows) && WellFormed(op)
    ensures
      if Places(op, n) && n != ROOT && !Under(t.rows, TargetParent(op.kind).value, n)
      then PlacedBy(t.dialect, ApplyForward(t, op).rows, op, n)
      else ParentOf(ApplyForward(t, op).rows, n) == ParentOf(t.rows, n) &&
           BlankKey(ApplyForward(t, op).rows, n) == BlankKey(t.rows, n)
  {
    hide ApplyForward;
    ApplyLocal(t, op);
    ApplyKeepsNodes(t, op);
    if Places(op, n) {
      PlacedExactly(t, op);
      KeptKey(t, op);
    } else if op.kind.node == n {
      UnplacedRow(t, op);
    }
  }

  lemma KeptKey(t: Tree, op: Operation)
    ensures RowsKept(t, op) ==> BlankKey(ApplyForward(t, op).rows, op.kind.node) == BlankKey(t.rows, op.kind.node)
  {
    if RowsKept(t, op) && op.kind.node !in t.rows {
      ApplyKeepsNodes(t, op);
      KeyNeedsParent(t, op);
    }
  }

  /** A row that an operation makes without a parent has no key either. */
  lemma KeyNeedsParent(t: Tree, op: Operation)
    requires op.kind.node !in t.rows && ParentOf(ApplyForward(t, op).rows, op.kind.node) == None
    ensures BlankKey(ApplyForward(t, op).rows, op.kind.node) == None
  {
    hide IntroducesCycle;
    if op.kind.Insert? {
      RelinkRow(t.dialect, Ensure(Ensure(Ensure(t.rows, op.kind.node), op.kind.parent), op.kind.node),
                op.kind.node, op.kind.parent, op.kind.key);
    } else if op.kind.Move? {
      RelinkRow(t.dialect, Ensure(Ensure(Ensure(t.rows, op.kind.node), op.kind.node), op.kind.newParent),
                op.kind.node, op.kind.newParent, op.kind.key);
    }
  }

  lemma UnplacedRow(t: Tree, op: Operation)
    requires !op.kind.Insert? && !op.kind.Move?
    ensures
      var m', n := ApplyForward(t, op).rows, op.kind.node;
      ParentOf(m', n) == ParentOf(t.rows, n) && BlankKey(m', n) == BlankKey(t.rows, n)
  {
  }

  /** No operation after the i-th places n. */
  ghost predicate LastPlacer(d: Dialect, ops: seq<Operation>, n: NodeId, i: nat) {
    i < |ops| && PlacesAt(d, ops, n, i) && forall j | i < j < |ops| :: !PlacesAt(d, ops, n, j)
  }

  lemma {:induction false} PlacerOfLog(d: Dialect, ops: seq<Operation>, n: NodeId) returns (last: Option<nat>)
    requires AllWellFormed(ops)
    ensures last.None? ==> forall i | 0 <= i < |ops| :: !PlacesAt(d, ops, n, i)
    ensures last.None? ==> ParentOf(Fold(EmptyTree(d), ops).rows, n) == None
    ensures last.Some? ==> LastPlacer(d, ops, n, last.value)
    ensures last.Some? ==> PlacedBy(d, Fold(EmptyTree(d), ops).rows, ops[last.value], n)
  {
    hide ApplyForward, Forest, AllWellFormed, Under;
    if ops == [] { return None; }
    var front, op := ops[..|ops| - 1], ops[|ops| - 1];
    WellFormedFront(ops);
    var before := PlacerOfLog(d, front, n);
    FoldForest(d, front);
    FoldDialect(EmptyTree(d), front);
    PlaceStep(Fold(EmptyTree(d), front), op, n);
    forall i | 0 <= i < |front| ensures PlacesAt(d, ops, n, i) <==> PlacesAt(d, front, n, i) {
      assert ops[..i] == front[..i];
    }
    last := if PlacesAt(d, ops, n, |front|) then Some(|front|) else before;
  }

  lemma WellFormedFront(ops: seq<Operation>)
    requires AllWellFormed(ops) && ops != []
    ensures AllWellFormed(ops[..|ops| - 1]) && WellFormed(ops[|ops| - 1])
  {
  }

  /** After any well-formed log a node sits where the last operation that could place it put it, and
      nowhere if there is none. */
  lemma PlaceOfLog(d: Dialect, ops: seq<Operation>, n: NodeId)
    requires AllWellFormed(ops)
    ensures ParentOf(Fold(EmptyTree(d), ops).rows, n) == None <==> forall i | 0 <= i < |ops| :: !PlacesAt(d, ops, n, i)
    ensures forall i: nat | LastPlacer(d, ops, n, i) :: PlacedBy(d, Fold(EmptyTree(d), ops).rows, ops[i], n)
  {
    hide Fold, PlacesAt;
    var last := PlacerOfLog(d, ops, n);
    forall i: nat | LastPlacer(d, ops, n, i) ensures last == Some(i) { }
  }

  // ----- deletions -----

  predicate Deletes(op: Operation, n: NodeId) {
    (op.kind.Delete? || op.kind.Tombstone?) && op.kind.node == n
  }

  /** All that the deletes of n in a log knew, themselves included. */
  ghost function DeleteKnowledge(ops: seq<Operation>, n: NodeId): Knowledge {
    set op, id | op in ops && Deletes(op, n) && id in OpKnowledge(op) :: id
  }

  lemma DeleteStep(t: Tree, op: Operation, n: NodeId)
    ensures DeletedAt(ApplyForward(t, op).rows, n) ==
      if Deletes(op, n) && !Reserved(n)
      then Some((if DeletedAt(t.rows, n).Some? then DeletedAt(t.rows, n).value else {}) + OpKnowledge(op))
      else DeletedAt(t.rows, n)
  {
    ApplyLocal(t, op);
    hide ApplyInsert, ApplyMove, ApplyPayload;
  }

  ghost predicate SomeDelete(ops: seq<Operation>, n: NodeId) {
    exists op :: op in ops && Deletes(op, n)
  }

  lemma DeletesAppend(front: seq<Operation>, op: Operation, n: NodeId)
    ensures SomeDelete(front + [op], n) <==> SomeDelete(front, n) || Deletes(op, n)
    ensures DeleteKnowledge(front + [op], n) ==
            if Deletes(op, n) then DeleteKnowledge(front, n) + OpKnowledge(op) else DeleteKnowledge(front, n)
    ensures !SomeDelete(front, n) ==> DeleteKnowledge(front, n) == {}
  {
    var ops := front + [op];
    assert forall x :: x in ops <==> x in front || x == op;
    if Deletes(op, n) { assert op in ops; }
    if SomeDelete(front, n) {
      var x :| x in front && Deletes(x, n);
      assert x in ops;
    }
  }

  /** Deletions only accumulate: after any log a node's deleted_at is missing exactly when no delete
      names it, and otherwise is all that its deletes knew, in whatever order they came. */
  lemma {:induction false} DeletedAtOfLog(d: Dialect, ops: seq<Operation>, n: NodeId)
    ensures DeletedAt(Fold(EmptyTree(d), ops).rows, n) ==
      if !Reserved(n) && SomeDelete(ops, n) then Some(DeleteKnowledge(ops, n)) else None
  {
    hide ApplyForward, DeleteKnowledge, SomeDelete;
    if ops == [] {
      NoDelete(n);
    } else {
      var front, op := ops[..|ops| - 1], ops[|ops| - 1];
      assert ops == front + [op];
      DeletedAtOfLog(d, front, n);
      DeleteStep(Fold(EmptyTree(d), front), op, n);
      DeletesAppend(front, op, n);
    }
  }

  lemma NoDelete(n: NodeId)
    ensures !SomeDelete([], n)
  {
  }

  /** Deletes made without knowing of each other hide a node together: it is hidden exactly when one
      names it and all of them together cover its subtree. */
  lemma HiddenByLog(d: Dialect, ops: seq<Operation>, n: NodeId)
    requires !Reserved(n)
    ensures IsTomb(Fold(EmptyTree(d), ops).rows, n) <==>
      SomeDelete(ops, n) && SubtreeKnowledge(Fold(EmptyTree(d), ops).rows, n) <= DeleteKnowledge(ops, n)
  {
    hide Fold, SomeDelete, DeleteKnowledge;
    DeletedAtOfLog(d, ops, n);
  }

  /** Two replicas delete n, each knowing what the other does not: together they hide it. */
  lemma ConcurrentDeletesHide(d: Dialect, ops: seq<Operation>, n: NodeId, a: Operation, b: Operation)
    requires !Reserved(n) && a in ops && b in ops && Deletes(a, n) && Deletes(b, n)
    requires SubtreeKnowledge(Fold(EmptyTree(d), ops).rows, n) <= OpKnowledge(a) + OpKnowledge(b)
    ensures IsTomb(Fold(EmptyTree(d), ops).rows, n)
  {
    hide Fold;
    assert OpKnowledge(a) <= DeleteKnowledge(ops, n) && OpKnowledge(b) <= DeleteKnowledge(ops, n);
    HiddenByLog(d, ops, n);
  }

  // ----- marks -----

  /** The operation leaves its knowledge on n. */
  ghost predicate Marks(t: Tree, op: Operation, n: NodeId) {
    var m, x := t.rows, op.kind.node;
    match op.kind
    case Insert(p, _, _, payload) =>
      (!Under(m, p, x) && (n == x || n == p)) || (n == x && payload.Some? && PayloadWins(t, x, op))
    case Move(_, p, _) =>
      && x != ROOT && !Under(m, p, x)
      && (n == x || (n != TRASH && (n == p || Some(n) == ParentOf(m, x))))
    case SetPayload(_, _) => n == x && PayloadWins(t, x, op)
    case _ => false
  }

  lemma TouchMark(m: Rows, a: NodeId, k: Knowledge, n: NodeId)
    ensures LastChange(Touch(m, a, k), n) == LastChange(m, n) + (if n == a && n in m then k else {})
    ensures n in Touch(m, a, k) <==> n in m
  {
  }

  lemma InsertMarks(d: Dialect, m: Rows, op: Operation, n: NodeId)
    requires op.kind.Insert?
    ensures
      var Insert(p, x, _, _) := op.kind;
      LastChange(ApplyInsert(d, m, op), n) ==
      LastChange(m, n) + (if !Under(m, p, x) && (n == x || n == p) then OpKnowledge(op) else {})
  {
    var Insert(p, x, key, _) := op.kind;
    CycleExactly(m, m, x, p);
    hide IntroducesCycle, Touch;
    if !Under(m, p, x) {
      var m1 := Ensure(Ensure(m, p), x);
      RelinkRow(d, m1, x, p, key);
      var m2 := Relink(d, m1, x, p, key);
      TouchMark(m2, x, OpKnowledge(op), n);
      TouchMark(Touch(m2, x, OpKnowledge(op)), p, OpKnowledge(op), n);
    }
  }

  lemma MoveMarks(d: Dialect, m: Rows, op: Operation, n: NodeId)
    requires op.kind.Move? && Forest(m) && op.kind.node in m && op.kind.node != TRASH
    ensures
      var Move(x, p, _) := op.kind;
      LastChange(ApplyMove(d, m, op), n) == LastChange(m, n) +
      (if x != ROOT && !Under(m, p, x) && (n == x || (n != TRASH && (n == p || Some(n) == ParentOf(m, x))))
       then OpKnowledge(op) else {})
  {
    var Move(x, p, key) := op.kind;
    var m1 := Ensure(Ensure(m, x), p);
    CycleExactly(m, m1, x, p);
    if p == TRASH { UnderStep(m, TRASH, x); }
    hide IntroducesCycle, Touch;
    if x != ROOT && !Under(m, p, x) {
      RelinkRow(d, m1, x, p, key);
      var m2 := Relink(d, m1, x, p, key);
      TouchMark(m2, x, OpKnowledge(op), n);
      var m3 := Touch(m2, x, OpKnowledge(op));
      TouchMark(m3, p, OpKnowledge(op), n);
      var prev := ParentOf(m1, x);
      if prev.Some? {
        TouchMark(m3, prev.value, OpKnowledge(op), n);
        TouchMark(Touch(m3, prev.value, OpKnowledge(op)), p, OpKnowledge(op), n);
      }
    }
  }

  lemma MarkStep(t: Tree, op: Operation, n: NodeId)
    requires Forest(t.rows) && WellFormed(op)
    ensures LastChange(ApplyForward(t, op).rows, n) ==
            LastChange(t.rows, n) + (if Marks(t, op, n) then OpKnowledge(op) else {})
  {
    hide ApplyInsert, ApplyMove;
    var m := Ensure(t.rows, op.kind.node);
    EnsureForest(t.rows, op.kind.node);
    if op.kind.Insert? {
      InsertMarks(t.dialect, m, op, n);
      SameWalksUnder(t.rows, m, op.kind.parent, op.kind.node);
      ApplyKeepsNodes(t, op);
    }
    if op.kind.Move? {
      MoveMarks(t.dialect, m, op, n);
      SameWalksUnder(t.rows, m, op.kind.newParent, op.kind.node);
    }
  }

  ghost predicate MarksAt(d: Dialect, ops: seq<Operation>, n: NodeId, i: nat)
    requires i < |ops|
  {
    Marks(Fold(EmptyTree(d), ops[..i]), ops[i], n)
  }

  /** After any well-formed log a node's last_change is all that the operations knew which marked it:
      those that placed it, placed a node under it or moved one away, or won its payload. */
  lemma {:induction false} LastChangeOfLog(d: Dialect, ops: seq<Operation>, n: NodeId, id: OpId)
    requires AllWellFormed(ops)
    ensures id in LastChange(Fold(EmptyTree(d), ops).rows, n) <==>
      exists i :: 0 <= i < |ops| && MarksAt(d, ops, n, i) && id in OpKnowledge(ops[i])
  {
    hide ApplyForward, Marks;
    if ops != [] {
      var front, op := ops[..|ops| - 1], ops[|ops| - 1];
      var t := Fold(EmptyTree(d), front);
      LastChangeOfLog(d, front, n, id);
      FoldForest(d, front);
      MarkStep(t, op, n);
      forall i | 0 <= i < |front| ensures MarksAt(d, ops, n, i) <==> MarksAt(d, front, n, i) {
        assert ops[..i] == front[..i];
      }
      assert MarksAt(d, ops, n, |front|) <==> Marks(t, op, n);
      if id in LastChange(t.rows, n) {
        var i :| 0 <= i < |front| && MarksAt(d, front, n, i) && id in OpKnowledge(front[i]);
        assert MarksAt(d, ops, n, i) && id in OpKnowledge(ops[i]);
      }
      if i :| 0 <= i < |ops| && MarksAt(d, ops, n, i) && id in OpKnowledge(ops[i]) {
        if i < |front| { assert MarksAt(d, front, n, i) && id in OpKnowledge(front[i]); }
      }
    }
  }
}
