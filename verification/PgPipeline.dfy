/** The Postgres document as a clean/dirty state machine: while it is clean, its derived tables are
    those a rebuild of the whole log would produce. */
module PgPipeline {
  import opened Basics
  import opened Operations
  import opened NodeRows
  import opened Semantics
  import opened Tombstones
  import opened Materialize
  import opened Incremental
  import opened Patches
  import R = Replicas

  /** treecrdt_ops, treecrdt_nodes with treecrdt_payload, tombstone column, treecrdt_oprefs_children
      and treecrdt_meta of one document. */
  datatype Doc = Doc(log: seq<Operation>, view: View, dirty: bool, head: OpKey, headSeq: nat)

  const NO_HEAD: OpKey := OpKey(0, [], 0)

  /** A new document: no rows at all, not even ROOT's. */
  const NEW_DOC: Doc := Doc([], View(Tree(Postgres, map[], map[]), {}, {}), false, NO_HEAD, 0)

  function HeadOf(s: seq<Operation>): OpKey {
    if s == [] then NO_HEAD else KeyOf(s[|s| - 1])
  }

  // ----- steps -----

  /** Whether the SQL statements of a materialization went through, or stopped leaving these tables. */
  datatype Io = Fine | Broken(left: View)

  datatype PgStep =
    | Append(batch: seq<Operation>, io: Io)
    | EnsureMaterialized
    | LocalEdit(replica: Bytes, kind: Kind, known: Option<Knowledge>, hints: set<NodeId>, records: Index, io: Io)

  /** `append_ops_in_tx` for a batch the log table takes. */
  ghost function AppendNext(doc: Doc, batch: seq<Operation>, io: Io): Doc {
    var accepted := NewOps(doc.log, batch);
    var logged := doc.(log := doc.log + accepted);
    if doc.dirty || accepted == [] then logged
    else if io.Broken? then logged.(dirty := true, view := io.left)
    else
      var sorted := SortLog(accepted);
      var preloaded := Preloaded(doc.view, accepted);
      if sorted != [] && KeyLess(KeyOf(sorted[0]), doc.head) then logged.(dirty := true, view := preloaded)
      else logged.(view := Steps(preloaded, sorted), head := HeadOf(sorted), headSeq := doc.headSeq + |sorted|)
  }

  /** `ensure_materialized_in_tx` */
  ghost function EnsureNext(doc: Doc): Doc {
    if !doc.dirty then doc
    else
      var s := SortLog(R.SinceZero(doc.log));
      doc.(view := Rebuild(Postgres, s), dirty := false, head := HeadOf(s), headSeq := |s|)
  }

  /** The operation a local session mints: clock and counter come from the log. */
  function SessionOp(log: seq<Operation>, replica: Bytes, kind: Kind, known: Option<Knowledge>): Operation {
    Operation(OpId(replica, R.MaxCounter(log, replica) + 1), R.MaxLamport(log) + 1, known, kind)
  }

  /** `begin_local_core_op`, commit, `finish_local_core_op`. */
  ghost function LocalNext(doc: Doc, step: PgStep): Doc
    requires step.LocalEdit?
  {
    var clean := EnsureNext(doc);
    var op := SessionOp(clean.log, step.replica, step.kind, step.known);
    var t := ApplyForward(clean.view.tree, op);
    var committed := RefreshUp(t.rows, clean.view.tombs, Starts(clean.view.tree.rows, op));
    var finished := RefreshUp(t.rows, committed, step.hints + {op.kind.node});
    if step.io.Broken? then clean.(log := clean.log + [op], dirty := true, view := step.io.left)
    else clean.(log := clean.log + [op], view := View(t, finished, clean.view.index + step.records),
                head := KeyOf(op), headSeq := clean.headSeq + 1)
  }

  /** A step, and the rollback of one that the log table refuses. */
  ghost function PgNext(doc: Doc, step: PgStep): Doc {
    match step
    case Append(batch, io) => if AllStorable(batch) then AppendNext(doc, batch, io) else doc
    case EnsureMaterialized => EnsureNext(doc)
    case LocalEdit(_, kind, known, _, _, _) => if Storable(kind, known) then LocalNext(doc, step) else doc
  }

  /** The incremental path would take this batch. */
  predicate TakesFastPath(doc: Doc, batch: seq<Operation>) {
    var sorted := SortLog(NewOps(doc.log, batch));
    !doc.dirty && sorted != [] && !KeyLess(KeyOf(sorted[0]), doc.head)
  }

  ghost predicate WellFormedStep(doc: Doc, step: PgStep) {
    match step
    case Append(batch, _) => AllWellFormed(batch)
    case EnsureMaterialized => true
    case LocalEdit(replica, kind, known, _, _, _) => WellFormed(SessionOp(doc.log, replica, kind, known))
  }

  // ----- the invariant -----

  /** The tree of the document's log. */
  ghost function LogTree(doc: Doc): Tree {
    Fold(EmptyTree(Postgres), SortLog(doc.log))
  }

  /** Rows of the document that no operation of its log leaves. */
  ghost function Strays(doc: Doc): set<NodeId> {
    doc.view.tree.rows.Keys - {ROOT} - LogTree(doc).rows.Keys
  }

  ghost predicate RootTarget(log: seq<Operation>, n: NodeId) {
    exists op :: op in log && op.kind.Move? && op.kind.node == ROOT && op.kind.newParent == n
  }

  /** The tree is that of the log, up to ROOT's row (which a table filled incrementally may lack, or
      hold without its key) and blank stray rows of refused moves of ROOT; flags are right, the head
      is the largest key and head_seq the length of the log. */
  ghost predicate Clean(doc: Doc) {
    && doc.view.tree.dialect == Postgres && Forest(doc.view.tree.rows)
    && Padded(doc.view.tree, LogTree(doc))
    && (forall n | n in Strays(doc) :: RootTarget(doc.log, n))
    && RightFlags(doc.view)
    && doc.head == HeadOf(SortLog(doc.log)) && doc.headSeq == |doc.log|
  }

  /** The document's derived state is what a rebuild of its log would produce, but for ROOT's row
      and blank rows of s. */
  ghost predicate MatchesRebuildPlus(doc: Doc, s: set<NodeId>) {
    var rebuilt := Rebuild(Postgres, SortLog(doc.log));
    && PatchTree(doc.view.tree, {ROOT}, true) == PatchTree(rebuilt.tree, s + {ROOT}, true)
    && doc.view.tombs == rebuilt.tombs
    && doc.head == HeadOf(SortLog(doc.log)) && doc.headSeq == |doc.log|
  }

  ghost predicate MatchesRebuild(doc: Doc) {
    MatchesRebuildPlus(doc, {})
  }

  lemma CleanMatches(doc: Doc)
    requires DocInv(doc) && Clean(doc)
    ensures MatchesRebuildPlus(doc, Strays(doc))
    ensures MatchesRebuild(doc) <==> Strays(doc) == {}
  {
    hide Patched, Forest, AllTombs, Fold;
    var t, f := doc.view.tree, LogTree(doc);
    PaddedReads(t, f);
    PaddedKeys(t, f);
    LogSorts(doc.log);
    FoldForest(Postgres, SortLog(doc.log));
    PatchKnown(f.rows, Strays(doc), Strays(doc) + t.rows.Keys);
    PatchKnown(f.rows, t.rows.Keys, Strays(doc) + t.rows.Keys);
    assert {} + {ROOT} == {ROOT};
    PatchKeys(t.rows, {ROOT}, true);
    PatchKeys(f.rows, {ROOT}, true);
  }

  ghost predicate DocInv(doc: Doc) {
    DistinctIds(doc.log) && AllWellFormed(doc.log) && (!doc.dirty ==> Clean(doc))
  }

  lemma NewDocInv()
    ensures DocInv(NEW_DOC)
  {
    var m: Rows := map[];
    forall n: NodeId ensures Grounded(m, n) { assert DepthIs(m, n, 0); }
    assert AllTombs(m) == {};
    assert Patched(m, {ROOT}, true) == EmptyTree(Postgres).rows == Patched(EmptyTree(Postgres).rows, {ROOT}, true);
    assert {} + {ROOT} == {ROOT};
    PaddedBy(NEW_DOC.view.tree, EmptyTree(Postgres), {});
  }

  lemma LogSorts(log: seq<Operation>)
    requires DistinctIds(log) && AllWellFormed(log)
    ensures Sorted(SortLog(log)) && AllWellFormed(SortLog(log)) && |SortLog(log)| == |log| && R.SinceZero(log) == log
    ensures forall op :: op in SortLog(log) <==> op in log
  {
    R.SinceZeroAll(log);
    SortLogElems(log);
    SortLogSorted(log);
    forall op ensures op in SortLog(log) <==> op in log { assert op in Elems(log) <==> op in Elems(SortLog(log)); }
  }

  /** A rebuild makes any document clean, and leaves a dirty one without strays. */
  lemma EnsureInv(doc: Doc)
    requires DocInv(doc)
    ensures DocInv(EnsureNext(doc)) && Clean(EnsureNext(doc)) && !EnsureNext(doc).dirty
    ensures EnsureNext(doc).log == doc.log
    ensures doc.dirty ==> Strays(EnsureNext(doc)) == {}
  {
    hide Patched;
    if doc.dirty {
      LogSorts(doc.log);
      var s := SortLog(doc.log);
      FoldForest(Postgres, s);
      FoldDialect(EmptyTree(Postgres), s);
      PaddedSelf(Fold(EmptyTree(Postgres), s));
    }
  }

  lemma ConcatSorted(s: seq<Operation>, t: seq<Operation>)
    requires Sorted(s) && Sorted(t) && forall a, b | a in s && b in t :: KeyLess(KeyOf(a), KeyOf(b))
    ensures Sorted(s + t)
  {
    forall i, j | 0 <= i < j < |s + t| ensures KeyLess(KeyOf((s + t)[i]), KeyOf((s + t)[j])) {
      if i < |s| <= j {
        assert s[i] in s && t[j - |s|] in t;
      } else if i >= |s| {
        assert KeyLess(KeyOf(t[i - |s|]), KeyOf(t[j - |s|]));
      }
    }
  }

  /** Operations all newer than the log go behind it. */
  lemma SortLogBatch(log: seq<Operation>, batch: seq<Operation>)
    requires DistinctIds(log) && DistinctIds(batch) && DistinctIds(log + batch)
    requires forall a, b | a in log && b in batch :: KeyLess(KeyOf(a), KeyOf(b))
    ensures SortLog(log + batch) == SortLog(log) + SortLog(batch)
  {
    hide SortLog, Sorted, DistinctIds;
    var s, t := SortLog(log), SortLog(batch);
    SortLogElems(log); SortLogElems(batch); SortLogElems(log + batch);
    SortLogSorted(log); SortLogSorted(batch); SortLogSorted(log + batch);
    forall a, b | a in s && b in t ensures KeyLess(KeyOf(a), KeyOf(b)) {
      assert a in Elems(log) && b in Elems(batch);
    }
    ConcatSorted(s, t);
    assert Elems(s + t) == Elems(s) + Elems(t);
    assert Elems(log + batch) == Elems(log) + Elems(batch);
    SortedUnique(s + t, SortLog(log + batch));
  }

  lemma NewOpsFacts(log: seq<Operation>, batch: seq<Operation>)
    requires DistinctIds(log) && AllWellFormed(log) && AllWellFormed(batch)
    ensures
      var acc := NewOps(log, batch);
      && DistinctIds(acc) && AllWellFormed(acc) && DistinctIds(log + acc) && AllWellFormed(log + acc)
      && Ids(acc) == Ids(batch) - Ids(log)
  {
    var wanted := Ids(batch) - Ids(log);
    var acc := NewOps(log, batch);
    FirstOfDistinct(batch, wanted);
    FirstOfIds(batch, wanted);
    FirstOfElems(batch, wanted);
    forall op | op in acc ensures WellFormed(op) { assert op in Elems(batch); }
    forall i, j | 0 <= i < |log| && 0 <= j < |acc| ensures log[i].id != acc[j].id {
      assert log[i] in log && acc[j] in acc;
      assert acc[j].id in Ids(acc);
    }
    var all := log + acc;
    forall i, j | 0 <= i < j < |all| ensures all[i].id != all[j].id {
      if i >= |log| { assert acc[i - |log|].id != acc[j - |log|].id; }
    }
  }

  /** A batch whose oldest operation is not older than the head is newer than the whole log. */
  lemma NewerThanHead(log: seq<Operation>, acc: seq<Operation>)
    requires DistinctIds(log + acc) && AllWellFormed(log + acc) && DistinctIds(log) && DistinctIds(acc)
    requires AllWellFormed(log) && AllWellFormed(acc) && acc != []
    requires !KeyLess(KeyOf(SortLog(acc)[0]), HeadOf(SortLog(log)))
    ensures forall a, b | a in log && b in acc :: KeyLess(KeyOf(a), KeyOf(b))
  {
    hide SortLog, Sorted, DistinctIds, AllWellFormed;
    LogSorts(log); LogSorts(acc);
    var s, t := SortLog(log), SortLog(acc);
    if log != [] {
      var x, y := s[|s| - 1], t[0];
      assert x in s && y in t;
      DifferentKeys(log, acc, x, y);
      KeyTotal(KeyOf(x), KeyOf(y));
      forall a, b | a in log && b in acc ensures KeyLess(KeyOf(a), KeyOf(b)) { Across(s, t, a, b); }
    }
  }

  lemma Across(s: seq<Operation>, t: seq<Operation>, a: Operation, b: Operation)
    requires Sorted(s) && Sorted(t) && a in s && b in t && KeyLess(KeyOf(s[|s| - 1]), KeyOf(t[0]))
    ensures KeyLess(KeyOf(a), KeyOf(b))
  {
    var x, y := s[|s| - 1], t[0];
    if a != x { KeyTransitive(KeyOf(a), KeyOf(x), KeyOf(y)); }
    if b != y { KeyTransitive(KeyOf(a), KeyOf(y), KeyOf(b)); }
  }

  lemma DifferentKeys(log: seq<Operation>, acc: seq<Operation>, x: Operation, y: Operation)
    requires DistinctIds(log + acc) && x in log && y in acc
    ensures KeyOf(x) != KeyOf(y)
  {
    var i :| 0 <= i < |log| && log[i] == x;
    var j :| 0 <= j < |acc| && acc[j] == y;
    var all := log + acc;
    assert all[i] == x && all[|log| + j] == y;
    assert all[i].id != all[|log| + j].id;
  }

  /** The rows a batch preloads. */
  function Preloads(acc: seq<Operation>): set<NodeId> {
    if AnyPayload(acc) then AllReferenced(acc) else {}
  }

  lemma PreloadedIsPatch(v: View, acc: seq<Operation>)
    ensures Preloaded(v, acc) == PatchView(v, Preloads(acc))
  {
    PatchNothing(v.tree.rows, {});
  }

  /** Strays that a batch itself leaves on the incremental path. */
  ghost function NewStrays(m: Rows, acc: seq<Operation>): set<NodeId> {
    set n | n in Preloads(acc) && Stray(m, acc, n)
  }

  /** The document after the incremental path took a batch. */
  ghost function Advanced(doc: Doc, acc: seq<Operation>): Doc {
    doc.(log := doc.log + acc, view := Steps(Preloaded(doc.view, acc), SortLog(acc)),
         head := HeadOf(SortLog(acc)), headSeq := doc.headSeq + |SortLog(acc)|)
  }

  ghost predicate Advances(doc: Doc, acc: seq<Operation>) {
    && DocInv(doc) && !doc.dirty && acc != []
    && DistinctIds(acc) && AllWellFormed(acc) && DistinctIds(doc.log + acc) && AllWellFormed(doc.log + acc)
    && (SortLog(acc) != [] ==> !KeyLess(KeyOf(SortLog(acc)[0]), doc.head))
  }

  lemma AdvancedLog(doc: Doc, acc: seq<Operation>)
    requires Advances(doc, acc)
    ensures SortLog(doc.log + acc) == SortLog(doc.log) + SortLog(acc) && SortLog(acc) != []
    ensures LogTree(Advanced(doc, acc)) == Fold(LogTree(doc), SortLog(acc))
    ensures Advanced(doc, acc).view == PatchView(Steps(doc.view, SortLog(acc)), Preloads(acc))
  {
    hide ApplyForward, Step, Steps, Fold, SortLog, Sorted, Patched, Preloaded, Preloads, KeyLess;
    LogSorts(doc.log); LogSorts(acc);
    NewerThanHead(doc.log, acc);
    SortLogBatch(doc.log, acc);
    FoldAppend(EmptyTree(Postgres), SortLog(doc.log), SortLog(acc));
    PreloadedIsPatch(doc.view, acc);
    PatchSteps(doc.view, Preloads(acc), SortLog(acc));
  }

  /** On the incremental path the tree stays that of the log, padded. */
  lemma AdvancedPadded(doc: Doc, acc: seq<Operation>)
    requires Advances(doc, acc)
    ensures
      var next := Advanced(doc, acc);
      && next.view.tree.dialect == Postgres && Forest(next.view.tree.rows)
      && Padded(next.view.tree, LogTree(next)) && RightFlags(next.view)
  {
    hide ApplyForward, Step, Steps, Fold, SortLog, Sorted, Patched, Preloads, Padded, AllTombs, KeyLess;
    var t := SortLog(acc);
    AdvancedLog(doc, acc);
    LogSorts(doc.log); LogSorts(acc);
    FoldForest(Postgres, SortLog(doc.log));
    StepsRightFlags(doc.view, t);
    StepsTree(doc.view, t);
    FoldDialect(doc.view.tree, t);
    PaddedFold(doc.view.tree, LogTree(doc), t);
    PaddedPatch(Steps(doc.view, t).tree, Fold(LogTree(doc), t), Preloads(acc));
    PatchForest(Steps(doc.view, t).tree.rows, Preloads(acc), false);
    PatchTombs(Steps(doc.view, t).tree.rows, Preloads(acc), false);
  }

  /** What happens to the strays: those the batch mentions become proper rows, and refused moves of
      ROOT in a batch with a payload write leave new ones. */
  lemma AdvancedStrays(doc: Doc, acc: seq<Operation>)
    requires Advances(doc, acc)
    ensures Strays(Advanced(doc, acc)) == Strays(doc) - AllCreated(acc) + NewStrays(doc.view.tree.rows, acc)
  {
    hide ApplyForward, Step, Steps, Fold, SortLog, Sorted, Patched, Padded, Stray, Forest, KeyLess, DocInv;
    var t, x := SortLog(acc), Preloads(acc);
    AdvancedLog(doc, acc);
    LogSorts(acc);
    StepsTree(doc.view, t);
    FoldKeys(doc.view.tree, t);
    FoldKeys(LogTree(doc), t);
    PatchKeys(Steps(doc.view, t).tree.rows, x, false);
    CleanKeys(doc);
    var next := Advanced(doc, acc);
    forall n: NodeId
      ensures n in Strays(next) <==> n in Strays(doc) - AllCreated(acc) + NewStrays(doc.view.tree.rows, acc)
    {
      CreatedIn(acc, n);
      CreatedIn(t, n);
      ReferencedOrStray(doc.view.tree.rows, acc, n);
      if Stray(doc.view.tree.rows, acc, n) { StrayIsNotRoot(doc.view.tree.rows, acc, n); }
    }
  }

  lemma CleanKeys(doc: Doc)
    requires DocInv(doc) && !doc.dirty
    ensures LogTree(doc).rows.Keys <= doc.view.tree.rows.Keys + {ROOT}
  {
    hide Fold, Patched;
    PaddedKeys(doc.view.tree, LogTree(doc));
  }

  lemma StrayIsNotRoot(m: Rows, acc: seq<Operation>, n: NodeId)
    requires Stray(m, acc, n)
    ensures n != ROOT && RootTarget(acc, n)
  {
    var op :| op in acc && op.kind.Move? && op.kind.node == ROOT && op.kind.newParent == n;
    assert ROOT in Created(op);
  }

  /** The incremental path on a clean document gives the tables a rebuild would, plus strays. */
  lemma IncrementalClean(doc: Doc, acc: seq<Operation>)
    requires Advances(doc, acc)
    ensures Clean(Advanced(doc, acc))
  {
    hide ApplyForward, Step, Steps, Sorted, Fold, Patched, SortLog, Forest, Padded, Stray, Strays, RightFlags, KeyLess;
    AdvancedPadded(doc, acc);
    AdvancedStrays(doc, acc);
    AdvancedLog(doc, acc);
    LogSorts(acc);
    var next := Advanced(doc, acc);
    forall n | n in Strays(next) ensures RootTarget(next.log, n) {
      if n in Strays(doc) {
        var op :| op in doc.log && op.kind.Move? && op.kind.node == ROOT && op.kind.newParent == n;
        assert op in next.log;
      } else {
        StrayIsNotRoot(doc.view.tree.rows, acc, n);
        var op :| op in acc && op.kind.Move? && op.kind.node == ROOT && op.kind.newParent == n;
        assert op in next.log;
      }
    }
    HeadOfConcat(SortLog(doc.log), SortLog(acc));
  }

  lemma HeadOfConcat(s: seq<Operation>, t: seq<Operation>)
    requires t != []
    ensures HeadOf(s + t) == HeadOf(t)
  {
  }

  lemma AppendInv(doc: Doc, batch: seq<Operation>, io: Io)
    requires DocInv(doc) && AllWellFormed(batch)
    ensures DocInv(AppendNext(doc, batch, io))
  {
    hide Steps, Clean, Preloaded, SortLog, NewOps, DistinctIds, AllWellFormed, KeyLess, Sorted;
    NewOpsFacts(doc.log, batch);
    var acc := NewOps(doc.log, batch);
    LogSorts(acc);
    if TakesFastPath(doc, batch) && io.Fine? { IncrementalClean(doc, acc); }
    assert doc.log + [] == doc.log;
  }

  lemma {:induction false} PatchDeltas(v: View, s: set<NodeId>, ops: seq<Operation>)
    requires Forest(v.tree.rows) && RightFlags(v) && AllWellFormed(ops)
    ensures Deltas(PatchView(v, s), ops) == Deltas(v, ops)
  {
    hide Step, Delta, Patched;
    if ops != [] {
      var front := ops[..|ops| - 1];
      PatchDeltas(v, s, front);
      PatchSteps(v, s, front);
      StepsRightFlags(v, front);
      PatchStep(Steps(v, front), s, ops[|ops| - 1]);
    }
  }

  /** Preloaded rows never show up in a delta by themselves. */
  lemma FastPathDeltas(doc: Doc, acc: seq<Operation>)
    requires DocInv(doc) && !doc.dirty && DistinctIds(acc) && AllWellFormed(acc)
    ensures Deltas(Preloaded(doc.view, acc), SortLog(acc)) == Deltas(doc.view, SortLog(acc))
  {
    hide Steps, Deltas, PatchView;
    LogSorts(acc);
    if AnyPayload(acc) { PatchDeltas(doc.view, AllReferenced(acc), SortLog(acc)); }
  }

  /** After an append on the incremental path the document equals its rebuild exactly when the batch
      mentions every stray that was there and leaves none. */
  lemma AppendExactly(doc: Doc, batch: seq<Operation>)
    requires DocInv(doc) && AllWellFormed(batch) && TakesFastPath(doc, batch)
    ensures
      var next, acc := AppendNext(doc, batch, Fine), NewOps(doc.log, batch);
      && !next.dirty && Strays(next) == Strays(doc) - AllCreated(acc) + NewStrays(doc.view.tree.rows, acc)
      && (MatchesRebuild(next) <==> Strays(doc) <= AllCreated(acc) && !LeavesStray(doc.view.tree.rows, acc))
  {
    hide Steps, Clean, Preloaded, SortLog, NewOps, DistinctIds, AllWellFormed, KeyLess, Sorted, Strays, MatchesRebuild,
         Stray;
    NewOpsFacts(doc.log, batch);
    var acc := NewOps(doc.log, batch);
    LogSorts(acc);
    IncrementalClean(doc, acc);
    AdvancedStrays(doc, acc);
    AppendInv(doc, batch, Fine);
    CleanMatches(Advanced(doc, acc));
    NewStraysExactly(doc.view.tree.rows, acc);
  }

  lemma NewStraysExactly(m: Rows, acc: seq<Operation>)
    ensures NewStrays(m, acc) == {} <==> !LeavesStray(m, acc)
  {
    hide Stray;
    forall n ensures Stray(m, acc, n) ==> n in AllReferenced(acc) { ReferencedOrStray(m, acc, n); }
    if LeavesStray(m, acc) {
      var n :| Stray(m, acc, n);
      assert n in NewStrays(m, acc);
    }
  }

  const ROOT_MOVE: Operation := Operation(OpId([1], 1), 1, None, Move(ROOT, 7, []))
  const A_WRITE: Operation := Operation(OpId([1], 2), 2, None, SetPayload(8, None))

  lemma StrayBatch()
    ensures NewOps([], [ROOT_MOVE, A_WRITE]) == [ROOT_MOVE, A_WRITE] == SortLog([ROOT_MOVE, A_WRITE])
    ensures Stray(map[], [ROOT_MOVE, A_WRITE], 7) && AnyPayload([ROOT_MOVE, A_WRITE])
    ensures AllWellFormed([ROOT_MOVE, A_WRITE])
  {
    var a, b := ROOT_MOVE, A_WRITE;
    FirstOfAll([a, b], Ids([a, b]) - Ids([]));
    SortLogInOrder([], a);
    SortLogInOrder([a], b);
    assert [] + [a] == [a] && [a] + [b] == [a, b];
    assert a in [a, b] && b in [a, b];
  }

  /** A move of ROOT to a node nobody mentions, together with a payload write, leaves a row in a
      document that counts as clean; a rebuild would not have it. */
  lemma RootMoveStrays()
    ensures
      var next := AppendNext(NEW_DOC, [ROOT_MOVE, A_WRITE], Fine);
      AllWellFormed([ROOT_MOVE, A_WRITE]) && !next.dirty && 7 in Strays(next) && !MatchesRebuild(next)
  {
    hide Steps, Preloaded, DocInv, AppendNext, Strays, MatchesRebuild, NewOps, SortLog, Stray, AnyPayload;
    hide AllWellFormed;
    StrayBatch();
    ReferencedOrStray(map[], [ROOT_MOVE, A_WRITE], 7);
    NewDocInv();
    AppendExactly(NEW_DOC, [ROOT_MOVE, A_WRITE]);
  }

  lemma LocalInv(doc: Doc, step: PgStep)
    requires DocInv(doc) && step.LocalEdit? && WellFormedStep(doc, step)
    ensures DocInv(LocalNext(doc, step))
  {
    hide ApplyForward, Steps;
    EnsureInv(doc);
    var clean := EnsureNext(doc);
    var op := SessionOp(clean.log, step.replica, step.kind, step.known);
    SessionOpIsNewest(clean.log, step.replica, step.kind, step.known);
    R.DistinctAppend(clean.log, op);
    if step.io.Fine? { LocalClean(clean, op, step.hints, step.records); }
  }

  /** A session's operation is new and newer than the whole log. */
  lemma SessionOpIsNewest(log: seq<Operation>, replica: Bytes, kind: Kind, known: Option<Knowledge>)
    requires AllWellFormed(log)
    ensures SessionOp(log, replica, kind, known).id !in Ids(log)
    ensures forall a | a in log :: KeyLess(KeyOf(a), KeyOf(SessionOp(log, replica, kind, known)))
  {
    R.MaxLamportBounds(log);
    R.MaxCounterBounds(log, replica);
  }

  lemma LocalClean(doc: Doc, op: Operation, hints: set<NodeId>, records: Index)
    requires DocInv(doc) && Clean(doc) && WellFormed(op) && op.id !in Ids(doc.log)
    requires forall a | a in doc.log :: KeyLess(KeyOf(a), KeyOf(op))
    ensures
      var t := ApplyForward(doc.view.tree, op);
      var committed := RefreshUp(t.rows, doc.view.tombs, Starts(doc.view.tree.rows, op));
      var finished := RefreshUp(t.rows, committed, hints + {op.kind.node});
      Clean(doc.(log := doc.log + [op], view := View(t, finished, doc.view.index + records),
                 head := KeyOf(op), headSeq := doc.headSeq + 1))
  {
    hide ApplyForward, Fold, Patched, RefreshUp, AllTombs, SortLog, Sorted, Padded, Forest;
    var t := ApplyForward(doc.view.tree, op);
    LogSorts(doc.log);
    var s := SortLog(doc.log);
    if s != [] { assert s[|s| - 1] in s; }
    SortLogInOrder(doc.log, op);
    FoldStep(EmptyTree(Postgres), s, op);
    LocalPadded(doc, op);
    ApplyForest(doc.view.tree, op);
    ApplyKeepsNodes(doc.view.tree, op);
    RefreshSuffices(doc.view.tree, op);
    RefreshStable(t.rows, hints + {op.kind.node});
    ApplyKeys(doc.view.tree, op);
    ApplyKeys(LogTree(doc), op);
    assert (doc.view.tree.rows.Keys + Created(op)) - {ROOT} - (LogTree(doc).rows.Keys + Created(op)) <= Strays(doc);
    forall n | n in Strays(doc) ensures RootTarget(doc.log + [op], n) {
      var a :| a in doc.log && a.kind.Move? && a.kind.node == ROOT && a.kind.newParent == n;
      assert a in doc.log + [op];
    }
  }

  lemma LocalPadded(doc: Doc, op: Operation)
    requires DocInv(doc) && Clean(doc) && WellFormed(op)
    ensures Padded(ApplyForward(doc.view.tree, op), ApplyForward(LogTree(doc), op))
  {
    hide ApplyForward, Patched, SortLog, Padded, Forest;
    LogSorts(doc.log);
    FoldForest(Postgres, SortLog(doc.log));
    PaddedFold(doc.view.tree, LogTree(doc), [op]);
    FoldStep(doc.view.tree, [], op);
    FoldStep(LogTree(doc), [], op);
    assert [] + [op] == [op];
  }

  /** Every step keeps the invariant. */
  lemma PgNextInv(doc: Doc, step: PgStep)
    requires DocInv(doc) && WellFormedStep(doc, step)
    ensures DocInv(PgNext(doc, step))
  {
    hide ApplyForward, Steps, Clean;
    match step
    case Append(batch, io) => AppendInv(doc, batch, io);
    case EnsureMaterialized => EnsureInv(doc);
    case LocalEdit(_, _, _, _, _, _) => LocalInv(doc, step);
  }

  // ----- runs -----

  ghost function PgRun(doc: Doc, steps: seq<PgStep>): Doc {
    if steps == [] then doc else PgNext(PgRun(doc, steps[..|steps| - 1]), steps[|steps| - 1])
  }

  ghost predicate WellFormedRun(doc: Doc, steps: seq<PgStep>) {
    steps == [] ||
    (WellFormedRun(doc, steps[..|steps| - 1]) && WellFormedStep(PgRun(doc, steps[..|steps| - 1]), steps[|steps| - 1]))
  }

  /** In every reachable state of every run, including failed materializations, a document that is
      not dirty holds what a full rebuild of its log would produce, plus a blank row for each stray;
      every stray is the target of a move of ROOT, and without strays the two are equal. */
  lemma {:induction false} EveryRunIsConsistent(steps: seq<PgStep>)
    requires WellFormedRun(NEW_DOC, steps)
    ensures DocInv(PgRun(NEW_DOC, steps))
    ensures
      var doc := PgRun(NEW_DOC, steps);
      !doc.dirty ==>
        && MatchesRebuildPlus(doc, Strays(doc)) && (forall n | n in Strays(doc) :: RootTarget(doc.log, n))
        && (MatchesRebuild(doc) <==> Strays(doc) == {})
  {
    hide PgNext, MatchesRebuildPlus, MatchesRebuild, Strays, Padded, Forest, LogTree;
    if steps == [] {
      NewDocInv();
    } else {
      EveryRunIsConsistent(steps[..|steps| - 1]);
      PgNextInv(PgRun(NEW_DOC, steps[..|steps| - 1]), steps[|steps| - 1]);
    }
    if !PgRun(NEW_DOC, steps).dirty { CleanMatches(PgRun(NEW_DOC, steps)); }
  }

  /** Without moves of ROOT a document that is not dirty always equals its rebuild. */
  lemma RunWithoutRootMoves(steps: seq<PgStep>)
    requires WellFormedRun(NEW_DOC, steps)
    requires forall op | op in PgRun(NEW_DOC, steps).log :: op.kind.Move? ==> op.kind.node != ROOT
    ensures !PgRun(NEW_DOC, steps).dirty ==> MatchesRebuild(PgRun(NEW_DOC, steps))
  {
    hide PgRun, WellFormedRun, MatchesRebuildPlus, MatchesRebuild, Strays, DocInv;
    EveryRunIsConsistent(steps);
  }

  // ----- nothing is lost -----

  /** The operations a step brings: those of a batch the log table takes, or the one a session mints. */
  ghost function Brought(doc: Doc, step: PgStep): set<Operation> {
    match step
    case Append(batch, _) => if AllStorable(batch) then Elems(batch) else {}
    case EnsureMaterialized => {}
    case LocalEdit(replica, kind, known, _, _, _) =>
      if Storable(kind, known) then {SessionOp(doc.log, replica, kind, known)} else {}
  }

  ghost function PgOffered(doc: Doc, steps: seq<PgStep>): set<Operation> {
    if steps == [] then Elems(doc.log)
    else PgOffered(doc, steps[..|steps| - 1]) + Brought(PgRun(doc, steps[..|steps| - 1]), steps[|steps| - 1])
  }

  lemma SameIdSameOp(ops: seq<Operation>, op: Operation, all: set<Operation>)
    requires R.ConsistentIds(all) && Elems(ops) <= all && op in all && op.id in Ids(ops)
    ensures op in ops
  {
    var same :| same in ops && same.id == op.id;
    assert same in Elems(ops);
  }

  lemma NewOpsElems(log: seq<Operation>, batch: seq<Operation>)
    requires R.ConsistentIds(Elems(log) + Elems(batch))
    ensures Elems(log + NewOps(log, batch)) == Elems(log) + Elems(batch)
  {
    var acc := NewOps(log, batch);
    FirstOfElems(batch, Ids(batch) - Ids(log));
    FirstOfIds(batch, Ids(batch) - Ids(log));
    forall op ensures op in Elems(log + acc) <==> op in Elems(log) + Elems(batch) {
      assert op in log + acc <==> op in log || op in acc;
      if op in acc { assert op in Elems(acc); }
      if op in batch {
        assert op.id in Ids(batch);
        if op.id in Ids(log) {
          SameIdSameOp(log, op, Elems(log) + Elems(batch));
        } else {
          assert op.id in Ids(acc);
          SameIdSameOp(acc, op, Elems(log) + Elems(batch));
        }
      }
    }
  }

  /** Each step adds to the log exactly what it brings, dirty or clean, failing or not. */
  lemma PgNextLog(doc: Doc, step: PgStep)
    requires R.ConsistentIds(Elems(doc.log) + Brought(doc, step))
    ensures Elems(PgNext(doc, step).log) == Elems(doc.log) + Brought(doc, step)
  {
    hide ApplyForward, Steps, Rebuild, RefreshUp, Preloaded, SortLog, SessionOp, R.ConsistentIds, NewOps;
    match step
    case Append(batch, _) =>
      if AllStorable(batch) {
        NewOpsElems(doc.log, batch);
        assert NewOps(doc.log, batch) == [] ==> doc.log + NewOps(doc.log, batch) == doc.log;
      }
    case EnsureMaterialized =>
    case LocalEdit(replica, kind, known, _, _, _) =>
      if Storable(kind, known) { R.ElemsAppend(doc.log, SessionOp(doc.log, replica, kind, known)); }
  }

  /** The log of a document holds exactly the operations its run brought, each once. */
  lemma {:induction false} PgRunLog(doc: Doc, steps: seq<PgStep>)
    requires R.ConsistentIds(PgOffered(doc, steps))
    ensures Elems(PgRun(doc, steps).log) == PgOffered(doc, steps)
  {
    hide PgNext, Brought;
    if steps != [] {
      var front := steps[..|steps| - 1];
      assert PgOffered(doc, front) <= PgOffered(doc, steps);
      PgRunLog(doc, front);
      PgNextLog(PgRun(doc, front), steps[|steps| - 1]);
    }
  }

  /** Two documents that were brought the same operations, in whatever batches, order and sessions, and
      are both clean, agree on tree and flags up to ROOT's row and stray rows, and on head and length. */
  lemma DocumentsConverge(a: seq<PgStep>, b: seq<PgStep>)
    requires WellFormedRun(NEW_DOC, a) && WellFormedRun(NEW_DOC, b)
    requires PgOffered(NEW_DOC, a) == PgOffered(NEW_DOC, b) && R.ConsistentIds(PgOffered(NEW_DOC, a))
    requires !PgRun(NEW_DOC, a).dirty && !PgRun(NEW_DOC, b).dirty
    ensures
      var x, y := PgRun(NEW_DOC, a), PgRun(NEW_DOC, b);
      && x.view.tombs == y.view.tombs && x.view.tree.payloads == y.view.tree.payloads
      && x.head == y.head && x.headSeq == y.headSeq
      && PatchTree(x.view.tree, Strays(y) + {ROOT}, true) == PatchTree(y.view.tree, Strays(x) + {ROOT}, true)
  {
    hide PgRun, WellFormedRun, PgOffered, Rebuild, SortLog, Patched, MatchesRebuild;
    PgRunLog(NEW_DOC, a); PgRunLog(NEW_DOC, b);
    EveryRunIsConsistent(a); EveryRunIsConsistent(b);
    var x, y := PgRun(NEW_DOC, a), PgRun(NEW_DOC, b);
    SameOpsSameOrder(x.log, y.log);
    SortLogElems(x.log); SortLogElems(y.log);
    var f := Rebuild(Postgres, SortLog(x.log)).tree;
    PatchTwice(x.view.tree.rows, {ROOT}, Strays(y), true);
    PatchTwice(y.view.tree.rows, {ROOT}, Strays(x), true);
    PatchTwice(f.rows, Strays(x) + {ROOT}, Strays(y), true);
    PatchTwice(f.rows, Strays(y) + {ROOT}, Strays(x), true);
    assert {ROOT} + Strays(y) + {ROOT} == Strays(y) + {ROOT} && {ROOT} + Strays(x) + {ROOT} == Strays(x) + {ROOT};
    assert Strays(x) + {ROOT} + Strays(y) + {ROOT} == Strays(y) + {ROOT} + Strays(x) + {ROOT};
  }

  /** A batch with an operation older than the head only appends to the log, sets dirty and may
      leave preloaded rows; the next rebuild takes every operation in. */
  lemma LateBatchIsRepaired(doc: Doc, batch: seq<Operation>)
    requires DocInv(doc) && !doc.dirty && AllWellFormed(batch)
    requires exists b :: b in NewOps(doc.log, batch) && KeyLess(KeyOf(b), doc.head)
    ensures
      var late := AppendNext(doc, batch, Fine);
      && late == doc.(log := doc.log + NewOps(doc.log, batch), dirty := true,
                      view := Preloaded(doc.view, NewOps(doc.log, batch)))
      && !EnsureNext(late).dirty && MatchesRebuild(EnsureNext(late))
      && EnsureNext(late).view == Rebuild(Postgres, SortLog(late.log))
  {
    hide Steps, Clean, Rebuild, MatchesRebuild, SortLog, NewOps, Strays;
    var acc := NewOps(doc.log, batch);
    NewOpsFacts(doc.log, batch);
    LogSorts(acc);
    var b :| b in acc && KeyLess(KeyOf(b), doc.head);
    FirstBelow(SortLog(acc), b, doc.head);
    var late := AppendNext(doc, batch, Fine);
    AppendInv(doc, batch, Fine);
    EnsureInv(late);
    CleanMatches(EnsureNext(late));
    LogSorts(late.log);
  }

  lemma FirstBelow(s: seq<Operation>, b: Operation, head: OpKey)
    requires Sorted(s) && b in s && KeyLess(KeyOf(b), head)
    ensures s != [] && KeyLess(KeyOf(s[0]), head)
  {
    if b != s[0] { KeyTransitive(KeyOf(s[0]), KeyOf(b), head); }
  }

  // ----- the index -----

  /** While clean, everything a replay records is in the index, and every live payload is findable. */
  ghost predicate IndexInv(doc: Doc) {
    !doc.dirty ==>
      && ReplayRecords(EmptyTree(Postgres), SortLog(doc.log)) <= doc.view.index
      && PayloadsFindable(doc.view.tree, doc.view.index)
  }

  lemma {:induction false} ReplayRecordsAppend(start: Tree, a: seq<Operation>, b: seq<Operation>)
    ensures ReplayRecords(start, a + b) == ReplayRecords(start, a) + ReplayRecords(Fold(start, a), b)
  {
    hide ApplyForward;
    if b == [] {
      assert a + b == a;
    } else {
      var front := b[..|b| - 1];
      ReplayRecordsAppend(start, a, front);
      FoldAppend(start, a, front);
      assert (a + b)[..|a + b| - 1] == a + front;
    }
  }

  lemma {:induction false} ReplayRecordsPatch(t: Tree, s: set<NodeId>, k: bool, ops: seq<Operation>)
    requires (k ==> ROOT in s) && Forest(t.rows) && AllWellFormed(ops)
    ensures ReplayRecords(t, ops) == ReplayRecords(PatchTree(t, s, k), ops)
  {
    hide ApplyForward, Patched;
    if ops != [] {
      var front := ops[..|ops| - 1];
      ReplayRecordsPatch(t, s, k, front);
      PatchFold(t, s, k, front);
      PatchWalks(Fold(t, front).rows, s, k);
    }
  }

  lemma {:induction false} StepsIndexGrows(v: View, ops: seq<Operation>)
    ensures v.index <= Steps(v, ops).index
  {
    if ops != [] { StepsIndexGrows(v, ops[..|ops| - 1]); }
  }

  lemma AppendIndex(doc: Doc, batch: seq<Operation>, io: Io)
    requires DocInv(doc) && IndexInv(doc) && AllWellFormed(batch)
    ensures IndexInv(AppendNext(doc, batch, io))
  {
    hide Preloaded, ApplyForward, Steps, Clean, PayloadsFindable, SortLog, NewOps, ReplayRecords, Sorted, DistinctIds,
         AllWellFormed, KeyLess;
    NewOpsFacts(doc.log, batch);
    var acc := NewOps(doc.log, batch);
    LogSorts(acc);
    if TakesFastPath(doc, batch) && io.Fine? { IncrementalIndex(doc, acc); }
    assert doc.log + [] == doc.log;
  }

  lemma IncrementalIndex(doc: Doc, acc: seq<Operation>)
    requires Advances(doc, acc) && IndexInv(doc)
    ensures ReplayRecords(EmptyTree(Postgres), SortLog(doc.log + acc)) <= Advanced(doc, acc).view.index
    ensures PayloadsFindable(Advanced(doc, acc).view.tree, Advanced(doc, acc).view.index)
  {
    hide ApplyForward, Step, Steps, ReplayRecords, Fold, SortLog, Sorted, Patched, Preloads, KeyLess, Padded, AllTombs;
    var s, t := SortLog(doc.log), SortLog(acc);
    AdvancedLog(doc, acc);
    LogSorts(acc);
    ReplayRecordsAppend(EmptyTree(Postgres), s, t);
    SameRecords(doc, t);
    ReplayRecordsIncremental(doc.view, t);
    StepsIndexGrows(doc.view, t);
    StepsPayloadsFindable(doc.view, t);
    PatchWalks(Steps(doc.view, t).tree.rows, Preloads(acc), false);
  }

  lemma SameRecords(doc: Doc, ops: seq<Operation>)
    requires DocInv(doc) && !doc.dirty && AllWellFormed(ops)
    ensures ReplayRecords(doc.view.tree, ops) == ReplayRecords(LogTree(doc), ops)
  {
    hide ReplayRecords, Patched, SortLog, Forest;
    LogSorts(doc.log);
    FoldForest(Postgres, SortLog(doc.log));
    ReplayRecordsPatch(doc.view.tree, {ROOT}, true, ops);
    ReplayRecordsPatch(LogTree(doc), doc.view.tree.rows.Keys + {ROOT}, true, ops);
  }

  lemma EnsureIndex(doc: Doc)
    requires DocInv(doc) && IndexInv(doc)
    ensures IndexInv(EnsureNext(doc))
  {
    LogSorts(doc.log);
    RebuildIndex(Postgres, SortLog(doc.log));
  }

  /** The index rows of a local session include those an in-order delivery would write. */
  ghost predicate RecordsCover(doc: Doc, step: PgStep) {
    step.LocalEdit? && step.io.Fine? ==>
      var clean := EnsureNext(doc);
      var op := SessionOp(clean.log, step.replica, step.kind, step.known);
      var before := ParentOf(clean.view.tree.rows, op.kind.node);
      var needed := OpRecords(before, op) + PayloadRecords(before, ApplyForward(clean.view.tree, op), op);
      needed <= clean.view.index + step.records
  }

  lemma LocalIndex(doc: Doc, step: PgStep)
    requires DocInv(doc) && IndexInv(doc) && step.LocalEdit? && WellFormedStep(doc, step) && RecordsCover(doc, step)
    ensures IndexInv(LocalNext(doc, step))
  {
    hide ApplyForward, Clean, RefreshUp, ReplayRecords, Fold, SortLog, Sorted, Forest, OpRecords, PayloadRecords,
         PayloadsFindable;
    EnsureInv(doc);
    EnsureIndex(doc);
    var clean := EnsureNext(doc);
    var op := SessionOp(clean.log, step.replica, step.kind, step.known);
    SessionOpIsNewest(clean.log, step.replica, step.kind, step.known);
    if step.io.Fine? {
      LocalRecords(clean, op);
      StepPayloadsFindable(clean.view, op);
      FindableGrows(Step(clean.view, op).tree, Step(clean.view, op).index, LocalNext(doc, step).view.index);
    }
  }

  lemma FindableGrows(t: Tree, index: Index, more: Index)
    requires PayloadsFindable(t, index) && index <= more
    ensures PayloadsFindable(t, more)
  {
  }

  lemma LocalRecords(doc: Doc, op: Operation)
    requires DocInv(doc) && !doc.dirty && forall a | a in doc.log :: KeyLess(KeyOf(a), KeyOf(op))
    ensures ReplayRecords(EmptyTree(Postgres), SortLog(doc.log + [op])) ==
            ReplayRecords(EmptyTree(Postgres), SortLog(doc.log)) +
            OpRecords(ParentOf(doc.view.tree.rows, op.kind.node), op)
  {
    hide ApplyForward, Fold, SortLog, Sorted, Forest, Patched, AllTombs;
    LogSorts(doc.log);
    var s := SortLog(doc.log);
    if s != [] { assert s[|s| - 1] in s; }
    SortLogInOrder(doc.log, op);
    assert (s + [op])[..|s|] == s;
    PaddedReads(doc.view.tree, LogTree(doc));
  }

  lemma PgNextIndex(doc: Doc, step: PgStep)
    requires DocInv(doc) && IndexInv(doc) && WellFormedStep(doc, step) && RecordsCover(doc, step)
    ensures IndexInv(PgNext(doc, step))
  {
    hide AppendNext, EnsureNext, LocalNext, Clean, IndexInv;
    match step
    case Append(batch, io) => AppendIndex(doc, batch, io);
    case EnsureMaterialized => EnsureIndex(doc);
    case LocalEdit(_, _, _, _, _, _) => LocalIndex(doc, step);
  }

  ghost predicate CoveringRun(doc: Doc, steps: seq<PgStep>) {
    steps == [] ||
    (CoveringRun(doc, steps[..|steps| - 1]) && RecordsCover(PgRun(doc, steps[..|steps| - 1]), steps[|steps| - 1]))
  }

  lemma {:induction false} RunIndexInv(steps: seq<PgStep>)
    requires WellFormedRun(NEW_DOC, steps) && CoveringRun(NEW_DOC, steps)
    ensures IndexInv(PgRun(NEW_DOC, steps))
  {
    hide PgNext, DocInv, IndexInv, MatchesRebuild, MatchesRebuildPlus, Strays, RecordsCover;
    if steps == [] {
      NewDocIndex();
    } else {
      var front := steps[..|steps| - 1];
      RunIndexInv(front);
      EveryRunIsConsistent(front);
      PgNextIndex(PgRun(NEW_DOC, front), steps[|steps| - 1]);
    }
  }

  /** In every run of appends, rebuilds and local edits whose sessions write what an in-order delivery
      would, the index of a clean document holds every row a rebuild would write, and every live
      payload is findable. */
  lemma IndexCoversRebuild(steps: seq<PgStep>)
    requires WellFormedRun(NEW_DOC, steps) && CoveringRun(NEW_DOC, steps)
    ensures
      var doc := PgRun(NEW_DOC, steps);
      !doc.dirty ==>
        && Rebuild(Postgres, SortLog(doc.log)).index <= doc.view.index
        && PayloadsFindable(doc.view.tree, doc.view.index)
  {
    hide PgNext, DocInv, MatchesRebuild, MatchesRebuildPlus, Strays, Rebuild, PayloadsFindable, ReplayRecords,
         RecordsCover;
    EveryRunIsConsistent(steps);
    RunIndexInv(steps);
    if !PgRun(NEW_DOC, steps).dirty { CoversRebuild(PgRun(NEW_DOC, steps)); }
  }

  lemma NewDocIndex()
    ensures IndexInv(NEW_DOC)
  {
  }

  lemma CoversRebuild(doc: Doc)
    requires DocInv(doc) && IndexInv(doc) && !doc.dirty
    ensures Rebuild(Postgres, SortLog(doc.log)).index <= doc.view.index
  {
    var t := Rebuild(Postgres, SortLog(doc.log)).tree;
    PaddedReads(doc.view.tree, t);
    forall r | r in BackfillRecords(t) ensures r in doc.view.index {
      var n :| n in t.payloads && n in t.rows && t.rows[n].parent.Some? && t.rows[n].parent.value != TRASH
               && r == (t.rows[n].parent.value, t.payloads[n].writer);
      assert ParentOf(doc.view.tree.rows, n) == ParentOf(t.rows, n);
    }
  }
}
