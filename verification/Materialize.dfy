/** Materialization of one operation: tree, cached tombstone flags and parent-op index, and the
    agreement of the incremental path with a rebuild of the whole log. */
module Materialize {
  import opened Basics
  import opened Operations
  import opened NodeRows
  import opened Semantics
  import opened Tombstones

  /** Parent-op index rows; their seq column is not modelled. */
  type Index = set<(NodeId, OpId)>

  datatype View = View(tree: Tree, tombs: set<NodeId>, index: Index)

  function EmptyView(d: Dialect): View {
    View(EmptyTree(d), {}, {})
  }

  // ----- index records -----

  /** The operation is recorded under its node's parent before it and under its target parent. */
  function OpRecords(before: Option<NodeId>, op: Operation): Index {
    set p | p in AffectedParents(before, op.kind) && p != TRASH :: (p, op.id)
  }

  /** A node that is asked to a new live parent brings its payload writer along. */
  function PayloadRecords(before: Option<NodeId>, after: Tree, op: Operation): Index {
    var target := TargetParent(op.kind);
    if target.Some? && target.value != TRASH && before != target && op.kind.node in after.payloads
    then {(target.value, after.payloads[op.kind.node].writer)} else {}
  }

  /** `apply_remote_with_materialization` for an in-order operation. */
  ghost function Step(v: View, op: Operation): View {
    var t := ApplyForward(v.tree, op);
    var before := ParentOf(v.tree.rows, op.kind.node);
    View(t,
         RefreshUp(t.rows, v.tombs, Starts(v.tree.rows, op)),
         v.index + OpRecords(before, op) + PayloadRecords(before, t, op))
  }

  ghost function Steps(v: View, ops: seq<Operation>): View {
    if ops == [] then v else Step(Steps(v, ops[..|ops| - 1]), ops[|ops| - 1])
  }

  lemma StepsStep(v: View, ops: seq<Operation>, op: Operation)
    ensures Steps(v, ops + [op]) == Step(Steps(v, ops), op)
  {
    assert (ops + [op])[..|ops|] == ops;
  }

  // ----- the incremental path keeps the flags right -----

  ghost predicate RightFlags(v: View) {
    v.tombs == AllTombs(v.tree.rows)
  }

  lemma StepRightFlags(v: View, op: Operation)
    requires Forest(v.tree.rows) && WellFormed(op) && RightFlags(v)
    ensures Forest(Step(v, op).tree.rows) && RightFlags(Step(v, op))
  {
    ApplyForest(v.tree, op);
    RefreshSuffices(v.tree, op);
  }

  /** After any in-order run from right flags, every flag equals the recomputed one. */
  lemma {:induction false} StepsRightFlags(v: View, ops: seq<Operation>)
    requires Forest(v.tree.rows) && AllWellFormed(ops) && RightFlags(v)
    ensures Forest(Steps(v, ops).tree.rows) && RightFlags(Steps(v, ops))
    ensures Steps(v, ops).tree == Fold(v.tree, ops)
  {
    if ops != [] {
      StepsRightFlags(v, ops[..|ops| - 1]);
      StepRightFlags(Steps(v, ops[..|ops| - 1]), ops[|ops| - 1]);
    }
  }

  lemma EmptyViewRight(d: Dialect)
    ensures Forest(EmptyView(d).tree.rows) && RightFlags(EmptyView(d))
  {
    FoldForest(d, []);
    assert AllTombs(EmptyTree(d).rows) == {};
  }

  // ----- the delta -----

  /** `direct_affected_nodes` */
  function DirectAffected(before: Option<NodeId>, kind: Kind): set<NodeId> {
    var parents := if kind.SetPayload? then {} else AffectedParents(before, kind);
    ({kind.node} + parents) - {TRASH}
  }

  function FlagChanges(before: set<NodeId>, after: set<NodeId>): set<NodeId> {
    (before - after) + (after - before)
  }

  ghost function Delta(v: View, op: Operation): set<NodeId> {
    DirectAffected(ParentOf(v.tree.rows, op.kind.node), op.kind) +
    (FlagChanges(v.tombs, Step(v, op).tombs) - {TRASH})
  }

  /** Something a reader of node n can see differs. */
  ghost predicate Changed(v: View, v': View, n: NodeId) {
    || ParentOf(v.tree.rows, n) != ParentOf(v'.tree.rows, n)
    || BlankKey(v.tree.rows, n) != BlankKey(v'.tree.rows, n)
    || (n in v.tree.payloads) != (n in v'.tree.payloads)
    || (n in v.tree.payloads && v.tree.payloads[n] != v'.tree.payloads[n])
    || (n in v.tombs) != (n in v'.tombs)
    || IsTomb(v.tree.rows, n) != IsTomb(v'.tree.rows, n)
  }

  /** The delta holds every live node whose parent, order key, payload or visibility changed. */
  lemma DeltaComplete(v: View, op: Operation, n: NodeId)
    requires Forest(v.tree.rows) && WellFormed(op) && RightFlags(v)
    requires n != TRASH && Changed(v, Step(v, op), n)
    ensures n in Delta(v, op)
  {
    hide ApplyForward;
    ApplyLocal(v.tree, op);
    ApplyPayloads(v.tree, op);
    StepRightFlags(v, op);
  }

  /** And nothing else: besides nodes whose flag flipped, a delta names the operation's node, and for
      other than payload writes the node's parent before and the target; never TRASH. */
  lemma DeltaExactly(v: View, op: Operation, n: NodeId)
    ensures n in Delta(v, op) <==>
      && n != TRASH
      && (|| n == op.kind.node
          || (!op.kind.SetPayload? &&
              (Some(n) == ParentOf(v.tree.rows, op.kind.node) || Some(n) == TargetParent(op.kind)))
          || (n in v.tombs) != (n in Step(v, op).tombs))
  {
    hide Step;
  }

  /** A payload write that flips no flag reports its own node only. */
  lemma QuietWriteDelta(v: View, op: Operation)
    requires op.kind.SetPayload? && op.kind.node != TRASH && Step(v, op).tombs == v.tombs
    ensures Delta(v, op) == {op.kind.node}
  {
    hide Step;
    forall n: NodeId ensures n in Delta(v, op) <==> n == op.kind.node { DeltaExactly(v, op, n); }
  }

  // ----- the index -----

  /** Every live node's payload writer can be found under its parent. */
  ghost predicate PayloadsFindable(t: Tree, index: Index) {
    forall n | n in t.payloads && ParentOf(t.rows, n).Some? && ParentOf(t.rows, n).value != TRASH ::
      (ParentOf(t.rows, n).value, t.payloads[n].writer) in index
  }

  lemma ParentAfter(t: Tree, op: Operation)
    ensures
      var after := ParentOf(ApplyForward(t, op).rows, op.kind.node);
      after == ParentOf(t.rows, op.kind.node) || after == TargetParent(op.kind)
  {
    hide IntroducesCycle;
    var m := Ensure(t.rows, op.kind.node);
    if op.kind.Insert? { InsertParentAfter(t.dialect, m, op); }
    if op.kind.Move? { MoveParentAfter(t.dialect, m, op); }
  }

  lemma InsertParentAfter(d: Dialect, m: Rows, op: Operation)
    requires op.kind.Insert? && op.kind.node in m
    ensures ParentOf(ApplyInsert(d, m, op), op.kind.node) in {ParentOf(m, op.kind.node), Some(op.kind.parent)}
  {
  }

  lemma MoveParentAfter(d: Dialect, m: Rows, op: Operation)
    requires op.kind.Move? && op.kind.node in m
    ensures ParentOf(ApplyMove(d, m, op), op.kind.node) in {ParentOf(m, op.kind.node), Some(op.kind.newParent)}
  {
  }

  lemma StepPayloadsFindable(v: View, op: Operation)
    requires PayloadsFindable(v.tree, v.index)
    ensures PayloadsFindable(Step(v, op).tree, Step(v, op).index)
  {
    hide ApplyForward;
    var v' := Step(v, op);
    var x := op.kind.node;
    ApplyLocal(v.tree, op);
    ApplyPayloads(v.tree, op);
    ParentAfter(v.tree, op);
    ApplyKeepsNodes(v.tree, op);
    forall n | n in v'.tree.payloads && ParentOf(v'.tree.rows, n).Some? && ParentOf(v'.tree.rows, n).value != TRASH
      ensures (ParentOf(v'.tree.rows, n).value, v'.tree.payloads[n].writer) in v'.index
    {
      var p := ParentOf(v'.tree.rows, n).value;
      if n == x {
        var before := ParentOf(v.tree.rows, x);
        if v'.tree.payloads[x].writer == op.id {
          assert p in AffectedParents(before, op.kind);
          assert (p, op.id) in OpRecords(before, op);
        } else if before != Some(p) {
          assert (p, v'.tree.payloads[x].writer) in PayloadRecords(before, v'.tree, op);
        }
      }
    }
  }

  /** The parent of the i-th operation's node when a run reaches that operation. */
  ghost function ParentBefore(start: Tree, ops: seq<Operation>, i: nat): Option<NodeId>
    requires i < |ops|
  {
    ParentOf(Fold(start, ops[..i]).rows, ops[i].kind.node)
  }

  /** The i-th operation is recorded under its node's parent at that moment and under its target. */
  ghost predicate RecordedAt(start: Tree, ops: seq<Operation>, index: Index, i: nat)
    requires i < |ops|
  {
    forall p: NodeId | p != TRASH && (Some(p) == ParentBefore(start, ops, i) || Some(p) == TargetParent(ops[i].kind)) ::
      (p, ops[i].id) in index
  }

  lemma RecordsRecorded(start: Tree, ops: seq<Operation>, index: Index, i: nat)
    requires i < |ops| && OpRecords(ParentBefore(start, ops, i), ops[i]) <= index
    ensures RecordedAt(start, ops, index, i)
  {
    var before := ParentBefore(start, ops, i);
    forall p: NodeId | p != TRASH && (Some(p) == before || Some(p) == TargetParent(ops[i].kind))
      ensures (p, ops[i].id) in index
    {
      assert p in AffectedParents(before, ops[i].kind);
      assert (p, ops[i].id) in OpRecords(before, ops[i]);
    }
  }

  lemma {:induction false} StepsTree(v: View, ops: seq<Operation>)
    ensures Steps(v, ops).tree == Fold(v.tree, ops)
  {
    if ops != [] { StepsTree(v, ops[..|ops| - 1]); }
  }

  lemma {:induction false} StepsRecords(v: View, ops: seq<Operation>, i: nat)
    requires i < |ops|
    ensures OpRecords(ParentBefore(v.tree, ops, i), ops[i]) <= Steps(v, ops).index
  {
    var front := ops[..|ops| - 1];
    if i < |front| {
      StepsRecords(v, front, i);
      assert ops[..i] == front[..i];
    } else {
      assert ops[..i] == front;
      StepsTree(v, front);
    }
  }

  lemma {:induction false} StepsPayloadsFindable(v: View, ops: seq<Operation>)
    requires PayloadsFindable(v.tree, v.index)
    ensures PayloadsFindable(Steps(v, ops).tree, Steps(v, ops).index)
  {
    if ops != [] {
      StepsPayloadsFindable(v, ops[..|ops| - 1]);
      StepPayloadsFindable(Steps(v, ops[..|ops| - 1]), ops[|ops| - 1]);
    }
  }

  /** The index of an in-order run: each operation is recorded under its node's previous parent and
      its target parent, and every live node's payload writer under its parent. */
  lemma StepsIndex(v: View, ops: seq<Operation>)
    requires PayloadsFindable(v.tree, v.index)
    ensures forall i | 0 <= i < |ops| :: RecordedAt(v.tree, ops, Steps(v, ops).index, i)
    ensures PayloadsFindable(Fold(v.tree, ops), Steps(v, ops).index)
  {
    StepsTree(v, ops);
    StepsPayloadsFindable(v, ops);
    forall i | 0 <= i < |ops| ensures RecordedAt(v.tree, ops, Steps(v, ops).index, i) {
      StepsRecords(v, ops, i);
      RecordsRecorded(v.tree, ops, Steps(v, ops).index, i);
    }
  }

  // ----- no row too many -----

  /** Row r stands for the i-th operation, under its node's parent at that moment or its target. */
  ghost predicate RecordedBy(start: Tree, ops: seq<Operation>, i: nat, r: (NodeId, OpId))
    requires i < |ops|
  {
    && r.0 != TRASH && r.1 == ops[i].id
    && (Some(r.0) == ParentBefore(start, ops, i) || Some(r.0) == TargetParent(ops[i].kind))
  }

  /** Row r stands for the payload writer that the i-th operation asks to a new live parent. */
  ghost predicate BroughtBy(start: Tree, ops: seq<Operation>, i: nat, r: (NodeId, OpId))
    requires i < |ops|
  {
    var t, n := Fold(start, ops[..i + 1]), ops[i].kind.node;
    && r.0 != TRASH && Some(r.0) == TargetParent(ops[i].kind) && ParentBefore(start, ops, i) != Some(r.0)
    && n in t.payloads && t.payloads[n].writer == r.1
  }

  lemma RecordsExactly(before: Option<NodeId>, op: Operation, r: (NodeId, OpId))
    ensures r in OpRecords(before, op) <==>
      r.0 != TRASH && r.1 == op.id && (Some(r.0) == before || Some(r.0) == TargetParent(op.kind))
  {
  }

  lemma {:induction false} StepsIndexHas(v: View, ops: seq<Operation>, r: (NodeId, OpId))
    ensures r in Steps(v, ops).index <==>
      r in v.index || exists i :: 0 <= i < |ops| && (RecordedBy(v.tree, ops, i, r) || BroughtBy(v.tree, ops, i, r))
  {
    hide ApplyForward, OpRecords;
    if ops != [] {
      var front, op := ops[..|ops| - 1], ops[|ops| - 1];
      StepsIndexHas(v, front, r);
      StepsTree(v, front);
      StepsTree(v, ops);
      forall i | 0 <= i < |front|
        ensures RecordedBy(v.tree, ops, i, r) <==> RecordedBy(v.tree, front, i, r)
        ensures BroughtBy(v.tree, ops, i, r) <==> BroughtBy(v.tree, front, i, r)
      {
        assert ops[..i] == front[..i] && ops[..i + 1] == front[..i + 1];
      }
      assert ops[..|front|] == front && ops[..|front| + 1] == ops;
      var before := ParentOf(Fold(v.tree, front).rows, op.kind.node);
      RecordsExactly(before, op, r);
      assert RecordedBy(v.tree, ops, |front|, r) <==> r in OpRecords(before, op);
      assert BroughtBy(v.tree, ops, |front|, r) <==> r in PayloadRecords(before, Fold(v.tree, ops), op);
    }
  }

  /** The index of an in-order run, row by row: what was there, each operation under its node's parent
      and its target, and each payload writer brought to a new parent; never under TRASH. */
  lemma StepsIndexExactly(v: View, ops: seq<Operation>)
    ensures forall r: (NodeId, OpId) :: r in Steps(v, ops).index <==>
      r in v.index || exists i :: 0 <= i < |ops| && (RecordedBy(v.tree, ops, i, r) || BroughtBy(v.tree, ops, i, r))
    ensures forall r | r in Steps(v, ops).index && r !in v.index :: r.0 != TRASH
  {
    hide Steps, Fold, ParentBefore;
    forall r: (NodeId, OpId) ensures r in Steps(v, ops).index <==>
      r in v.index || exists i :: 0 <= i < |ops| && (RecordedBy(v.tree, ops, i, r) || BroughtBy(v.tree, ops, i, r))
    {
      StepsIndexHas(v, ops, r);
    }
  }

  // ----- rebuild -----

  ghost function ReplayRecords(start: Tree, ops: seq<Operation>): Index {
    if ops == [] then {}
    else
      var front, op := ops[..|ops| - 1], ops[|ops| - 1];
      ReplayRecords(start, front) + OpRecords(ParentOf(Fold(start, front).rows, op.kind.node), op)
  }

  /** The payload rows a rebuild adds at its end. */
  function BackfillRecords(t: Tree): Index {
    set n | n in t.payloads && n in t.rows && !Reserved(n)
            && t.rows[n].parent.Some? && t.rows[n].parent.value != TRASH ::
      (t.rows[n].parent.value, t.payloads[n].writer)
  }

  /** `replay_from_storage_with_materialization`, given the log in canonical order. */
  ghost function Rebuild(d: Dialect, ops: seq<Operation>): View {
    var t := Fold(EmptyTree(d), ops);
    View(t, AllTombs(t.rows), ReplayRecords(EmptyTree(d), ops) + BackfillRecords(t))
  }

  lemma {:induction false} ReplayRecordsAt(start: Tree, ops: seq<Operation>, i: nat)
    requires i < |ops|
    ensures OpRecords(ParentBefore(start, ops, i), ops[i]) <= ReplayRecords(start, ops)
  {
    var front := ops[..|ops| - 1];
    if i < |front| {
      ReplayRecordsAt(start, front, i);
      assert ops[..i] == front[..i];
    } else {
      assert ops[..i] == front;
    }
  }

  /** The rebuilt index satisfies the same two clauses. */
  lemma RebuildIndex(d: Dialect, ops: seq<Operation>)
    requires AllWellFormed(ops)
    ensures forall i | 0 <= i < |ops| :: RecordedAt(EmptyTree(d), ops, Rebuild(d, ops).index, i)
    ensures PayloadsFindable(Rebuild(d, ops).tree, Rebuild(d, ops).index)
  {
    forall i | 0 <= i < |ops| ensures RecordedAt(EmptyTree(d), ops, Rebuild(d, ops).index, i) {
      ReplayRecordsAt(EmptyTree(d), ops, i);
      RecordsRecorded(EmptyTree(d), ops, Rebuild(d, ops).index, i);
    }
    FoldForest(d, ops);
    var t := Fold(EmptyTree(d), ops);
    forall n | n in t.payloads && ParentOf(t.rows, n).Some? && ParentOf(t.rows, n).value != TRASH
      ensures (ParentOf(t.rows, n).value, t.payloads[n].writer) in BackfillRecords(t)
    {
      assert n in t.rows && !Reserved(n);
    }
  }

  lemma {:induction false} ReplayRecordsHas(start: Tree, ops: seq<Operation>, r: (NodeId, OpId))
    ensures r in ReplayRecords(start, ops) <==> exists i :: 0 <= i < |ops| && RecordedBy(start, ops, i, r)
  {
    hide ApplyForward, OpRecords;
    if ops != [] {
      var front, op := ops[..|ops| - 1], ops[|ops| - 1];
      ReplayRecordsHas(start, front, r);
      forall i | 0 <= i < |front| ensures RecordedBy(start, ops, i, r) <==> RecordedBy(start, front, i, r) {
        assert ops[..i] == front[..i];
      }
      assert ops[..|front|] == front;
      var before := ParentOf(Fold(start, front).rows, op.kind.node);
      RecordsExactly(before, op, r);
      assert RecordedBy(start, ops, |front|, r) <==> r in OpRecords(before, op);
    }
  }

  /** The node n lies under the live parent r.0 and r.1 wrote its payload. */
  predicate HeldBy(t: Tree, n: NodeId, r: (NodeId, OpId)) {
    r.0 != TRASH && ParentOf(t.rows, n) == Some(r.0) && n in t.payloads && t.payloads[n].writer == r.1
  }

  /** The rebuilt index, row by row. */
  lemma RebuildIndexExactly(d: Dialect, ops: seq<Operation>, r: (NodeId, OpId))
    requires AllWellFormed(ops)
    ensures r in Rebuild(d, ops).index <==>
      || (exists i :: 0 <= i < |ops| && RecordedBy(EmptyTree(d), ops, i, r))
      || (exists n :: HeldBy(Fold(EmptyTree(d), ops), n, r))
  {
    hide RecordedBy, Fold;
    ReplayRecordsHas(EmptyTree(d), ops, r);
    FoldForest(d, ops);
    var t := Fold(EmptyTree(d), ops);
    if n :| HeldBy(t, n, r) {
      assert n in t.rows && !Reserved(n);
      assert r in BackfillRecords(t);
    }
    if r in BackfillRecords(t) {
      var n :| n in t.payloads && n in t.rows && !Reserved(n)
               && t.rows[n].parent.Some? && t.rows[n].parent.value != TRASH
               && r == (t.rows[n].parent.value, t.payloads[n].writer);
      assert HeldBy(t, n, r);
    }
  }

  lemma {:induction false} ReplayRecordsIncremental(v: View, ops: seq<Operation>)
    ensures Steps(v, ops).tree == Fold(v.tree, ops)
    ensures ReplayRecords(v.tree, ops) <= Steps(v, ops).index
  {
    if ops != [] { ReplayRecordsIncremental(v, ops[..|ops| - 1]); }
  }

  /** The incremental path and the rebuild agree on tree and flags, and the rebuilt index is
      contained in the incremental one. */
  lemma IncrementalAgreesWithRebuild(d: Dialect, ops: seq<Operation>)
    requires AllWellFormed(ops)
    ensures Steps(EmptyView(d), ops).tree == Rebuild(d, ops).tree
    ensures Steps(EmptyView(d), ops).tombs == Rebuild(d, ops).tombs
    ensures Rebuild(d, ops).index <= Steps(EmptyView(d), ops).index
  {
    EmptyViewRight(d);
    StepsRightFlags(EmptyView(d), ops);
    StepsIndex(EmptyView(d), ops);
    ReplayRecordsIncremental(EmptyView(d), ops);
    var t := Fold(EmptyTree(d), ops);
    forall r | r in BackfillRecords(t) ensures r in Steps(EmptyView(d), ops).index {
      var n :| n in t.payloads && n in t.rows && t.rows[n].parent.Some? && t.rows[n].parent.value != TRASH
               && r == (t.rows[n].parent.value, t.payloads[n].writer);
      assert ParentOf(t.rows, n).Some?;
    }
  }
}
