/** The Postgres document as an object: batch appends, rebuilds and local sessions over its tables. */
module PgDocuments {
  import opened Basics
  import opened Operations
  import opened NodeRows
  import opened Semantics
  import opened Tombstones
  import opened Materialize
  import opened NodeStores
  import opened Engine
  import opened Incremental
  import opened Patches
  import opened PgPipeline
  import R = Replicas

  /** The replica id of the engines that only materialize: "postgres". */
  const SERVER: Bytes := [112, 111, 115, 116, 103, 114, 101, 115]

  /** The index rows `finalize_local_materialization` writes for a plan. */
  function PlanRecords(hints: set<NodeId>, id: OpId, extra: Index): Index {
    (set p | p in hints && p != TRASH :: (p, id)) + (set r | r in extra && r.0 != TRASH)
  }

  function OptionSeq<T>(o: Option<T>): seq<T> {
    if o.Some? then [o.value] else []
  }

  /** A move away from the visible parent brings the payload writer to a live target. */
  function MoveExtra(before: Option<NodeId>, target: NodeId, payloads: map<NodeId, Payload>, node: NodeId): Index {
    if before != Some(target) && target != TRASH && node in payloads then {(target, payloads[node].writer)} else {}
  }

  // ----- when a plan writes what an in-order delivery would -----

  /** The visible parent hides the real one. */
  ghost predicate HintLost(m: Rows, node: NodeId) {
    IsTomb(m, node) && ParentOf(m, node).Some? && ParentOf(m, node).value != TRASH
  }

  /** All index rows an in-order delivery of op to t would write. */
  ghost function DeliveredRecords(t: Tree, op: Operation): Index {
    var before := ParentOf(t.rows, op.kind.node);
    OpRecords(before, op) + PayloadRecords(before, ApplyForward(t, op), op)
  }

  /** Deletes and payload writes: exactly when the node is not hidden under a live parent. */
  lemma PlainPlanCovers(t: Tree, op: Operation)
    requires op.kind.Delete? || op.kind.Tombstone? || op.kind.SetPayload?
    ensures
      var hints := OptionSet(VisibleParentOf(t.rows, op.kind.node));
      DeliveredRecords(t, op) <= PlanRecords(hints, op.id, {}) <==> !HintLost(t.rows, op.kind.node)
  {
    hide ApplyForward, IsTomb;
    var before, hints := ParentOf(t.rows, op.kind.node), OptionSet(VisibleParentOf(t.rows, op.kind.node));
    RecordsAre(before, op);
    if HintLost(t.rows, op.kind.node) { assert (before.value, op.id) in OpRecords(before, op); }
  }

  /** Moves: exactly when the node is not hidden under a live parent other than the target. */
  lemma MovePlanCovers(t: Tree, op: Operation)
    requires op.kind.Move?
    ensures
      var before := VisibleParentOf(t.rows, op.kind.node);
      var hints := {op.kind.newParent} + OptionSet(before);
      var extra := MoveExtra(before, op.kind.newParent, ApplyForward(t, op).payloads, op.kind.node);
      DeliveredRecords(t, op) <= PlanRecords(hints, op.id, extra)
      <==> !(HintLost(t.rows, op.kind.node) && ParentOf(t.rows, op.kind.node) != Some(op.kind.newParent))
  {
    hide ApplyForward, IsTomb;
    var node, p := op.kind.node, op.kind.newParent;
    var raw, before := ParentOf(t.rows, node), VisibleParentOf(t.rows, node);
    var extra := MoveExtra(before, p, ApplyForward(t, op).payloads, node);
    var plan := PlanRecords({p} + OptionSet(before), op.id, extra);
    RecordsAre(raw, op);
    ApplyPayloads(t, op);
    forall r | r in PayloadRecords(raw, ApplyForward(t, op), op) ensures r in plan { assert r in extra; }
    if HintLost(t.rows, node) && raw != Some(p) {
      assert (raw.value, op.id) in OpRecords(raw, op);
    }
  }

  /** Inserts: exactly when the node has no live parent but the target, and brings no payload there
      that another operation wrote. */
  lemma InsertPlanCovers(t: Tree, op: Operation)
    requires op.kind.Insert?
    ensures
      var raw, p, n := ParentOf(t.rows, op.kind.node), op.kind.parent, op.kind.node;
      DeliveredRecords(t, op) <= PlanRecords({p}, op.id, {}) <==>
      && (raw.None? || raw.value == TRASH || raw.value == p)
      && (p == TRASH || raw == Some(p) || n !in t.payloads || t.payloads[n].writer == op.id ||
          (op.kind.payload.Some? && PayloadWins(t, n, op)))
  {
    hide ApplyForward, KeyLess;
    var raw, p := ParentOf(t.rows, op.kind.node), op.kind.parent;
    RecordsAre(raw, op);
    ApplyPayloads(t, op);
    if raw.Some? && raw.value != TRASH { assert (raw.value, op.id) in OpRecords(raw, op); }
  }

  /** The index rows of the local plan for op. */
  ghost function PlanOf(t: Tree, op: Operation): Index {
    var before := VisibleParentOf(t.rows, op.kind.node);
    match op.kind
    case Insert(p, _, _, _) => PlanRecords({p}, op.id, {})
    case Move(n, p, _) => PlanRecords({p} + OptionSet(before), op.id, MoveExtra(before, p, t.payloads, n))
    case _ => PlanRecords(OptionSet(before), op.id, {})
  }

  /** The plan for op misses a row, by the tree the session starts from. */
  ghost predicate PlanGap(t: Tree, op: Operation) {
    var raw := ParentOf(t.rows, op.kind.node);
    match op.kind
    case Insert(p, n, _, payload) =>
      || (raw.Some? && raw.value != TRASH && raw.value != p)
      || (p != TRASH && raw != Some(p) && n in t.payloads && t.payloads[n].writer != op.id
          && !(payload.Some? && PayloadWins(t, n, op)))
    case Move(n, p, _) => HintLost(t.rows, n) && raw != Some(p)
    case _ => HintLost(t.rows, op.kind.node)
  }

  /** Exactly when a local plan writes all rows an in-order delivery would. */
  lemma PlanCoversExactly(t: Tree, op: Operation)
    ensures DeliveredRecords(t, op) <= PlanOf(t, op) <==> !PlanGap(t, op)
  {
    hide ApplyForward, PlanRecords, DeliveredRecords, VisibleParentOf, HintLost;
    match op.kind
    case Insert(_, _, _, _) => InsertPlanCovers(t, op);
    case Move(_, _, _) => ApplyPayloads(t, op); MovePlanCovers(t, op);
    case _ => PlainPlanCovers(t, op);
  }

  /** A plan writes no other rows: its own operation under the target or the visible parent, and for a
      move the payload writer under the target; never under TRASH. */
  lemma PlanRowsOnly(t: Tree, op: Operation, r: (NodeId, OpId))
    requires r in PlanOf(t, op)
    ensures r.0 != TRASH
    ensures
      || (r.1 == op.id && (Some(r.0) == TargetParent(op.kind) || Some(r.0) == VisibleParentOf(t.rows, op.kind.node)))
      || (op.kind.Move? && r.0 == op.kind.newParent
          && op.kind.node in t.payloads && r.1 == t.payloads[op.kind.node].writer)
  {
  }

  /** Local sessions write their plans, and no plan has a gap. */
  ghost predicate GapFreeStep(doc: Doc, step: PgStep) {
    step.LocalEdit? && step.io.Fine? ==>
      var clean := EnsureNext(doc);
      var op := SessionOp(clean.log, step.replica, step.kind, step.known);
      step.records == PlanOf(clean.view.tree, op) && !PlanGap(clean.view.tree, op)
  }

  ghost predicate GapFreeRun(doc: Doc, steps: seq<PgStep>) {
    steps == [] ||
    (GapFreeRun(doc, steps[..|steps| - 1]) && GapFreeStep(PgRun(doc, steps[..|steps| - 1]), steps[|steps| - 1]))
  }

  lemma GapFreeCovers(doc: Doc, step: PgStep)
    requires GapFreeStep(doc, step)
    ensures RecordsCover(doc, step)
  {
    hide ApplyForward, PlanOf, PlanGap, OpRecords, PayloadRecords, EnsureNext;
    if step.LocalEdit? && step.io.Fine? {
      var clean := EnsureNext(doc);
      PlanCoversExactly(clean.view.tree, SessionOp(clean.log, step.replica, step.kind, step.known));
    }
  }

  lemma {:induction false} GapFreeRunCovers(doc: Doc, steps: seq<PgStep>)
    requires GapFreeRun(doc, steps)
    ensures CoveringRun(doc, steps)
  {
    hide GapFreeStep, RecordsCover, PgRun;
    if steps != [] {
      GapFreeRunCovers(doc, steps[..|steps| - 1]);
      GapFreeCovers(PgRun(doc, steps[..|steps| - 1]), steps[|steps| - 1]);
    }
  }

  /** In every run of appends, rebuilds and local edits whose plans have no gap, the index of a clean
      document holds every row a rebuild would write, and every live payload is findable. */
  lemma GapFreeIndex(steps: seq<PgStep>)
    requires WellFormedRun(NEW_DOC, steps) && GapFreeRun(NEW_DOC, steps)
    ensures
      var doc := PgRun(NEW_DOC, steps);
      !doc.dirty ==>
        && Rebuild(Postgres, SortLog(doc.log)).index <= doc.view.index
        && PayloadsFindable(doc.view.tree, doc.view.index)
  {
    hide PgRun, WellFormedRun, Rebuild, PayloadsFindable;
    GapFreeRunCovers(NEW_DOC, steps);
    IndexCoversRebuild(steps);
  }

  lemma RecordsAre(before: Option<NodeId>, op: Operation)
    ensures forall r ::
      r in OpRecords(before, op) <==> r.1 == op.id && r.0 in AffectedParents(before, op.kind) && r.0 != TRASH
  {
  }

  /** The engine a session starts with. */
  function Session(doc: Doc, replica: Bytes): R.Replica {
    R.Replica(replica, doc.log, doc.view.tree, R.MaxLamport(doc.log), R.MaxCounter(doc.log, replica), None, 0, {})
  }

  lemma SessionReady(doc: Doc, replica: Bytes)
    requires DocInv(doc) && !doc.dirty
    ensures R.Ready(Session(doc, replica))
  {
    hide ApplyForward, Fold;
    R.MaxLamportBounds(doc.log);
    R.MaxCounterBounds(doc.log, replica);
    LogSorts(doc.log);
    var t := doc.view.tree;
    forall n | n in t.payloads ensures t.payloads[n].writerLamport <= R.MaxLamport(doc.log) {
      LastWriterWins(Postgres, SortLog(doc.log), n);
      var w :| IsLastWriter(SortLog(doc.log), n, w);
    }
  }

  /** The step of a local session that minted op and finished with this plan. */
  function Planned(replica: Bytes, op: Operation, hints: set<NodeId>, extra: Index): PgStep {
    LocalEdit(replica, op.kind, op.known, hints, PlanRecords(hints, op.id, extra), Fine)
  }

  /** The flags right after the engine committed op. */
  ghost function CommittedTombs(before: View, rows: Rows, op: Operation): set<NodeId> {
    RefreshUp(rows, before.tombs, Starts(before.tree.rows, op))
  }

  /** How many operations were new, and the nodes they affected. */
  datatype Appended = Appended(inserted: nat, affected: set<NodeId>)

  class PgDocument {
    const log: OpLog
    const nodes: NodeStore
    var payloads: map<NodeId, Payload>
    var index: Index
    var dirty: bool
    var head: OpKey
    var headSeq: nat

    ghost function State(): Doc
      reads this, log, nodes
    {
      Doc(log.ops, View(Semantics.Tree(nodes.dialect, nodes.Rows(), payloads), nodes.Tombs(), index),
          dirty, head, headSeq)
    }

    ghost predicate Valid()
      reads this, log, nodes
    {
      && log.Valid() && !log.noop && nodes.Valid() && nodes.dialect == Postgres && Forest(nodes.Rows())
      && DocInv(State())
    }

    constructor ()
      ensures Valid() && State() == NEW_DOC && fresh(log) && fresh(nodes)
    {
      log := new OpLog(false);
      nodes := new NodeStore.Blank(Postgres);
      payloads, index, dirty, head, headSeq := map[], {}, false, NO_HEAD, 0;
      new;
      NewDocInv();
    }

    /** `append_ops_in_tx` */
    method AppendOps(batch: seq<Operation>) returns (r: Result<Appended, BatchError>)
      requires Valid() && AllWellFormed(batch)
      modifies this, log, nodes
      ensures Valid() && State() == PgNext(old(State()), Append(batch, Fine))
      ensures r.Ok? <==> AllStorable(batch)
      ensures r.Err? ==> State() == old(State())
      ensures r.Ok? ==> r.value.inserted == |NewOps(old(log.ops), batch)|
      ensures r.Ok? && dirty ==> r.value.affected == {}
      ensures r.Ok? && !dirty ==>
        r.value.affected == Deltas(old(State()).view, SortLog(NewOps(old(log.ops), batch)))
    {
      hide ApplyForward, Steps, Clean, Forest, Deltas, Preloaded, SortLog, FirstOf, DistinctIds, AllWellFormed, KeyLess;
      ghost var doc := State();
      AppendInv(doc, batch, Fine);
      NewOpsFacts(log.ops, batch);
      var refs := BulkInsert(log, batch);
      if refs.Err? { return Err(refs.error); }
      var selected := SelectInsertedOps(batch, refs.value);
      assert selected == NewOps(doc.log, batch);
      if dirty { return Ok(Appended(|selected|, {})); }
      if selected == [] {
        DeltasNothing(doc.view);
        return Ok(Appended(0, {}));
      }
      var affected := MaterializeOpsInOrder(selected, doc);
      FastPathDeltas(doc, selected);
      r := Ok(Appended(|selected|, affected));
    }

    /** Placeholder rows for all nodes a batch refers to. */
    method PreloadForOps(ops: seq<Operation>)
      requires nodes.Valid()
      modifies nodes
      ensures nodes.Valid() && nodes.Tombs() == old(nodes.Tombs())
      ensures nodes.Rows() == Patched(old(nodes.Rows()), AllReferenced(ops), false)
    {
      hide Patched, Ensure;
      ghost var m := nodes.Rows();
      NothingReferenced(m, ops);
      for i := 0 to |ops|
        invariant nodes.Valid() && nodes.Tombs() == old(nodes.Tombs())
        invariant nodes.Rows() == Patched(m, AllReferenced(ops[..i]), false)
      {
        var kind := ops[i].kind;
        PreloadNext(m, ops, i);
        if kind.node != TRASH { nodes.EnsureNode(kind.node); }
        var target := TargetParent(kind);
        if target.Some? && target.value != TRASH { nodes.EnsureNode(target.value); }
      }
      assert ops[..|ops|] == ops;
    }

    /** Materialize the accepted operations, or mark the document dirty. */
    method MaterializeOpsInOrder(selected: seq<Operation>, ghost doc: Doc) returns (affected: set<NodeId>)
      requires log.Valid() && !log.noop && nodes.Valid() && nodes.dialect == Postgres && Forest(nodes.Rows())
      requires State() == doc.(log := doc.log + selected) && !doc.dirty && selected != []
      requires DistinctIds(selected) && AllWellFormed(selected)
      modifies this, nodes
      ensures nodes.Valid() && Forest(nodes.Rows())
      ensures
        var sorted := SortLog(selected);
        if sorted != [] && KeyLess(KeyOf(sorted[0]), doc.head)
        then State() == doc.(log := doc.log + selected, dirty := true, view := Preloaded(doc.view, selected))
             && affected == {}
        else State() == doc.(log := doc.log + selected, view := Steps(Preloaded(doc.view, selected), sorted),
                             head := HeadOf(sorted), headSeq := doc.headSeq + |sorted|)
             && affected == Deltas(Preloaded(doc.view, selected), sorted)
    {
      hide ApplyForward, Steps, Forest, Acyclic, Deltas, AllWellFormed, DistinctIds, KeyLess, SortLog, Patched;
      SortLogElems(selected);
      NothingIsWellFormed();
      if exists op :: op in selected && op.kind.SetPayload? {
        PatchForest(nodes.Rows(), AllReferenced(selected), false);
        PreloadForOps(selected);
      }
      assert State().view == Preloaded(doc.view, selected);
      ForestIsAcyclic(nodes.Rows());
      var nothing := new OpLog(true);
      var crdt := new TreeCrdt(SERVER, nothing, nodes, payloads);
      var r, rows := ApplyIncrementalOps(crdt, index, Cursor(dirty, head, headSeq), selected);
      if r.Err? {
        assert r.error.WhileDirty? || r.error.BeforeHead?;
        dirty := true;
        return {};
      }
      payloads, index := crdt.payloads, rows;
      head, headSeq := KeyOf(r.value.head.value), r.value.seqNo;
      affected := r.value.affected;
    }

    /** Clear the derived tables and replay the log into them. */
    method RebuildTables()
      requires log.Valid() && nodes.Valid() && nodes.dialect == Postgres && AllWellFormed(log.ops)
      modifies this, nodes
      ensures nodes.Valid() && Forest(nodes.Rows())
      ensures
        var sorted := SortLog(R.SinceZero(log.ops));
        State() == Doc(log.ops, Rebuild(Postgres, sorted), false, HeadOf(sorted), |sorted|)
    {
      hide ApplyForward, Fold, Rebuild, Forest, AllWellFormed, SortLog;
      EmptyViewRight(Postgres);
      nodes.Reset();
      var crdt := new TreeCrdt(SERVER, log, nodes, map[]);
      index := crdt.ReplayWithMaterialization();
      payloads := crdt.payloads;
      dirty := false;
      headSeq := crdt.opCount;
      head := if crdt.head.Some? then KeyOf(crdt.head.value) else NO_HEAD;
    }

    /** `ensure_materialized_in_tx`: a dirty document is rebuilt from its log. */
    method EnsureMaterialized()
      requires Valid()
      modifies this, nodes
      ensures Valid() && State() == EnsureNext(old(State())) && !dirty
    {
      hide Rebuild, Clean, Forest;
      EnsureInv(State());
      if dirty { RebuildTables(); }
    }

    // ----- local sessions -----

    /** `begin_local_core_op`: rebuild if needed, then an engine over the tables. */
    method BeginLocalOp(replica: Bytes) returns (crdt: TreeCrdt)
      requires Valid()
      modifies this, nodes
      ensures Valid() && State() == EnsureNext(old(State())) && !dirty && fresh(crdt)
      ensures crdt.log == log && crdt.nodes == nodes && crdt.Valid() && crdt.replica == replica
      ensures crdt.State() == Session(State(), replica) && R.Ready(crdt.State())
    {
      hide Clean, Forest, Acyclic, EnsureNext, Fold;
      EnsureMaterialized();
      SessionReady(State(), replica);
      ForestIsAcyclic(nodes.Rows());
      crdt := new TreeCrdt(replica, log, nodes, payloads);
    }

    /** `finish_local_core_op`: refresh the flags from the hinted parents, write the plan's index
        rows and move the head. */
    method FinishLocalOp(crdt: TreeCrdt, op: Operation, hints: seq<NodeId>, extra: Index, ghost doc: Doc)
      requires DocInv(doc) && WellFormed(op) && Storable(op.kind, op.known)
      requires log.Valid() && !log.noop && crdt.nodes == nodes && crdt.log == log && crdt.Valid()
      requires nodes.dialect == Postgres
      requires op == R.Minted(Session(EnsureNext(doc), op.id.replica), op.kind, op.known)
      requires crdt.State() == R.Commit(Session(EnsureNext(doc), op.id.replica), op.kind, op.known)
      requires State() == EnsureNext(doc).(log := log.ops, view := EnsureNext(doc).view.(
                            tree := State().view.tree, tombs := CommittedTombs(EnsureNext(doc).view, nodes.Rows(), op)))
      modifies this, nodes
      ensures Valid()
      ensures State() == PgNext(doc, Planned(op.id.replica, op, Elems(hints), extra))
      ensures !dirty && RightFlags(State().view) && nodes.Rows() == old(nodes.Rows())
      ensures payloads == crdt.payloads == old(crdt.payloads)
    {
      hide ApplyForward, Clean, Forest, Acyclic, RefreshUp, EnsureNext, PlanRecords, DistinctIds, AllWellFormed,
           SortLog, Fold, R.Commit, WellFormed;
      ghost var step := Planned(op.id.replica, op, Elems(hints), extra);
      SessionCommits(doc, op);
      LocalInv(doc, step);
      assert Elems(hints + [op.kind.node]) == Elems(hints) + {op.kind.node};
      var _ := crdt.RefreshTombstonesUpward(hints + [op.kind.node]);
      index := index + PlanRecords(Elems(hints), op.id, extra);
      payloads := crdt.payloads;
      head, headSeq := KeyOf(op), headSeq + 1;
      CleanFlags(State());
    }

    /** A local insert; when it fails the transaction is rolled back. */
    method LocalInsert(replica: Bytes, parent: NodeId, node: NodeId, after: Option<NodeId>, payload: Option<Bytes>,
                       samples: nat -> nat)
      returns (r: Result<Operation, LocalError>)
      requires Valid() && !Reserved(node)
      modifies this, log, nodes
      ensures Valid()
      ensures r.Err? ==> State() == old(State())
      ensures r.Ok? ==>
        State() == PgNext(old(State()), Planned(replica, r.value, {parent}, {})) && r.value.known == None
      ensures r.Ok? ==> r.value.kind.Insert? && r.value.kind == Insert(parent, node, r.value.kind.key, payload)
    {
      hide ApplyForward, Clean, Forest, RefreshUp, EnsureNext, PlanRecords, LocalNext, AllocationOutcome, Fold,
           PlacedAfter, PlacedAmong, IsTomb, DistinctIds, AllWellFormed, Acyclic, SortLog, DocInv, R.Commit, KeyChosen,
           VisibleParentOf, MoveExtra;
      ghost var doc := State();
      var saved := Save();
      var crdt := BeginLocalOp(replica);
      r := crdt.LocalInsertAfter(parent, node, after, payload, samples);
      if r.Err? {
        Rollback(saved);
      } else {
        assert Elems([parent]) == {parent};
        FinishLocalOp(crdt, r.value, [parent], {}, doc);
      }
    }

    method LocalMove(replica: Bytes, node: NodeId, newParent: NodeId, after: Option<NodeId>, samples: nat -> nat)
      returns (r: Result<Operation, LocalError>)
      requires Valid() && node != TRASH
      modifies this, log, nodes
      ensures Valid()
      ensures r.Err? ==> State() == old(State())
      ensures r.Ok? ==>
        var before := VisibleParentOf(EnsureNext(old(State())).view.tree.rows, node);
        var hints := {newParent} + OptionSet(before);
        var extra := MoveExtra(before, newParent, payloads, node);
        && State() == PgNext(old(State()), Planned(replica, r.value, hints, extra))
        && r.value.known == None
      ensures r.Ok? ==> r.value.kind.Move? && r.value.kind == Move(node, newParent, r.value.kind.key)
    {
      hide ApplyForward, Clean, Forest, RefreshUp, EnsureNext, PlanRecords, LocalNext, AllocationOutcome, Fold,
           PlacedAfter, PlacedAmong, IsTomb, DistinctIds, AllWellFormed, Acyclic, SortLog, DocInv, R.Commit, KeyChosen,
           VisibleParentOf, MoveExtra;
      ghost var doc := State();
      var saved := Save();
      var crdt := BeginLocalOp(replica);
      var before := crdt.VisibleParent(node);
      r := crdt.LocalMoveAfter(node, newParent, after, samples);
      if r.Err? {
        Rollback(saved);
      } else {
        var hints := [newParent] + OptionSeq(before);
        assert Elems(hints) == {newParent} + OptionSet(before);
        FinishLocalOp(crdt, r.value, hints, MoveExtra(before, newParent, crdt.payloads, node), doc);
      }
    }

    method LocalDelete(replica: Bytes, node: NodeId) returns (op: Operation)
      requires Valid()
      modifies this, log, nodes
      ensures Valid() && op.kind == Delete(node)
      ensures
        var hints := OptionSet(VisibleParentOf(EnsureNext(old(State())).view.tree.rows, node));
        State() == PgNext(old(State()), Planned(replica, op, hints, {}))
      ensures !Reserved(node) ==> node in nodes.Tombs()
    {
      hide ApplyForward, Clean, Forest, RefreshUp, EnsureNext, PlanRecords, LocalNext, AllocationOutcome, Fold,
           PlacedAfter;
      ghost var doc := State();
      var crdt := BeginLocalOp(replica);
      var before := crdt.VisibleParent(node);
      op := crdt.LocalDelete(node);
      assert Elems(OptionSeq(before)) == OptionSet(before);
      FinishLocalOp(crdt, op, OptionSeq(before), {}, doc);
    }

    method LocalPayload(replica: Bytes, node: NodeId, content: Option<Bytes>) returns (op: Operation)
      requires Valid()
      modifies this, log, nodes
      ensures Valid() && op.kind == SetPayload(node, content)
      ensures
        var hints := OptionSet(VisibleParentOf(EnsureNext(old(State())).view.tree.rows, node));
        State() == PgNext(old(State()), Planned(replica, op, hints, {})) && op.known == None
    {
      hide ApplyForward, Clean, Forest, RefreshUp, EnsureNext, PlanRecords, LocalNext, AllocationOutcome, Fold,
           PlacedAfter;
      ghost var doc := State();
      var crdt := BeginLocalOp(replica);
      var before := crdt.VisibleParent(node);
      op := crdt.LocalSetPayload(node, content);
      assert Elems(OptionSeq(before)) == OptionSet(before);
      FinishLocalOp(crdt, op, OptionSeq(before), {}, doc);
    }

    /** Everything a transaction can change. */
    ghost function Contents(): Saved
      reads this, log, nodes
    {
      Saved(log.ops, log.ids, nodes.nodes, payloads, index, dirty, head, headSeq)
    }

    /** BEGIN */
    method Save() returns (s: Saved)
      ensures s == Contents()
    {
      s := Saved(log.ops, log.ids, nodes.nodes, payloads, index, dirty, head, headSeq);
    }

    /** ROLLBACK */
    method Rollback(s: Saved)
      modifies this, log, nodes
      ensures Contents() == s
    {
      log.ops, log.ids := s.ops, s.ids;
      nodes.nodes := s.nodes;
      payloads, index, dirty, head, headSeq := s.payloads, s.index, s.dirty, s.head, s.headSeq;
    }
  }

  datatype Saved = Saved(ops: seq<Operation>, ids: set<OpId>, nodes: Nodes, payloads: map<NodeId, Payload>,
                         index: Index, dirty: bool, head: OpKey, headSeq: nat)

  /** What a session that minted and committed op holds. */
  lemma SessionCommits(doc: Doc, op: Operation)
    requires DocInv(doc) && op == R.Minted(Session(EnsureNext(doc), op.id.replica), op.kind, op.known)
    ensures op == SessionOp(EnsureNext(doc).log, op.id.replica, op.kind, op.known)
    ensures EnsureNext(doc).log == doc.log && !EnsureNext(doc).dirty
    ensures
      var r := R.Commit(Session(EnsureNext(doc), op.id.replica), op.kind, op.known);
      r.log == EnsureNext(doc).log + [op] && r.tree == ApplyForward(EnsureNext(doc).view.tree, op)
  {
    hide ApplyForward, Clean, EnsureNext;
    EnsureInv(doc);
    SessionReady(EnsureNext(doc), op.id.replica);
    R.MintedIsNewest(Session(EnsureNext(doc), op.id.replica), op.kind, op.known);
  }

  lemma CleanFlags(doc: Doc)
    requires DocInv(doc) && !doc.dirty
    ensures RightFlags(doc.view)
  {
  }

  lemma NothingReferenced(m: Rows, ops: seq<Operation>)
    ensures Patched(m, AllReferenced(ops[..0]), false) == m
  {
    PatchNothing(m, {});
  }

  lemma PreloadNext(m: Rows, ops: seq<Operation>, i: nat)
    requires i < |ops|
    ensures
      var kind, m0 := ops[i].kind, Patched(m, AllReferenced(ops[..i]), false);
      var m1 := if kind.node != TRASH then Ensure(m0, kind.node) else m0;
      var target := TargetParent(kind);
      Patched(m, AllReferenced(ops[..i + 1]), false) ==
      if target.Some? && target.value != TRASH then Ensure(m1, target.value) else m1
  {
    hide Patched, Ensure;
    var kind, s := ops[i].kind, AllReferenced(ops[..i]);
    assert ops[..i + 1][..i] == ops[..i];
    var s1 := if kind.node != TRASH then s + {kind.node} else s;
    var target := TargetParent(kind);
    var s2 := if target.Some? && target.value != TRASH then s1 + {target.value} else s1;
    assert AllReferenced(ops[..i + 1]) == s2;
    PatchOneMore(m, s, kind.node);
    if target.Some? { PatchOneMore(m, s1, target.value); }
  }

  lemma DeltasNothing(v: View)
    ensures Deltas(v, SortLog([])) == {}
  {
  }

  lemma NothingIsWellFormed()
    ensures AllWellFormed([])
  {
  }
}
