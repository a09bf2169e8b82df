/** Appending a batch: which operations are new, and their incremental materialization. */
module Incremental {
  import opened Basics
  import opened Operations
  import opened NodeRows
  import opened Materialize
  import opened Engine
  import R = Replicas

  // ----- selecting the inserted operations -----

  /** The first operation of each wanted id, in batch order. */
  function FirstOf(ops: seq<Operation>, wanted: set<OpId>): seq<Operation> {
    if ops == [] then []
    else
      var front, op := ops[..|ops| - 1], ops[|ops| - 1];
      FirstOf(front, wanted) + (if op.id in wanted && op.id !in Ids(front) then [op] else [])
  }

  /** What an insert with ON CONFLICT DO NOTHING accepts from a batch. */
  function NewOps(log: seq<Operation>, batch: seq<Operation>): seq<Operation> {
    FirstOf(batch, Ids(batch) - Ids(log))
  }

  lemma IdsAppend(s: seq<Operation>, op: Operation)
    ensures Ids(s + [op]) == Ids(s) + {op.id}
  {
    assert forall x :: x in s + [op] <==> x in s || x == op;
  }

  lemma FirstOfStep(ops: seq<Operation>, op: Operation, wanted: set<OpId>)
    ensures FirstOf(ops + [op], wanted) ==
            FirstOf(ops, wanted) + (if op.id in wanted && op.id !in Ids(ops) then [op] else [])
  {
    assert (ops + [op])[..|ops|] == ops;
  }

  lemma {:induction false} FirstOfIds(ops: seq<Operation>, wanted: set<OpId>)
    ensures Ids(FirstOf(ops, wanted)) == Ids(ops) * wanted
  {
    if ops != [] {
      var front, op := ops[..|ops| - 1], ops[|ops| - 1];
      assert ops == front + [op];
      FirstOfIds(front, wanted);
      FirstOfStep(front, op, wanted);
      IdsAppend(front, op);
      IdsAppend(FirstOf(front, wanted), op);
      assert FirstOf(front, wanted) + [] == FirstOf(front, wanted);
    }
  }

  /** Operation i is the first of the batch with its id, and the id is wanted. */
  ghost predicate FirstAt(ops: seq<Operation>, wanted: set<OpId>, i: nat) {
    i < |ops| && ops[i].id in wanted && forall j | 0 <= j < i :: ops[j].id != ops[i].id
  }

  /** Exactly the first operation of each wanted id is selected, in batch order. */
  lemma {:induction false} FirstOfExactly(ops: seq<Operation>, wanted: set<OpId>) returns (at: seq<nat>)
    ensures |at| == |FirstOf(ops, wanted)|
    ensures forall k | 0 <= k < |at| :: FirstAt(ops, wanted, at[k]) && FirstOf(ops, wanted)[k] == ops[at[k]]
    ensures forall j, k | 0 <= j < k < |at| :: at[j] < at[k]
    ensures forall i: nat | FirstAt(ops, wanted, i) :: i in at
  {
    if ops == [] { return []; }
    var front, op := ops[..|ops| - 1], ops[|ops| - 1];
    at := FirstOfExactly(front, wanted);
    forall i: nat | i < |front| ensures FirstAt(ops, wanted, i) <==> FirstAt(front, wanted, i) { }
    assert op.id in Ids(front) <==> exists j :: 0 <= j < |front| && front[j].id == op.id by {
      if j :| 0 <= j < |front| && front[j].id == op.id { assert front[j] in front; }
    }
    if op.id in wanted && op.id !in Ids(front) {
      forall j | 0 <= j < |front| ensures ops[j].id != op.id { assert front[j] in front; }
      at := at + [|front|];
    }
  }

  lemma {:induction false} FirstOfElems(ops: seq<Operation>, wanted: set<OpId>)
    ensures Elems(FirstOf(ops, wanted)) <= Elems(ops)
  {
    if ops != [] {
      FirstOfElems(ops[..|ops| - 1], wanted);
      assert ops == ops[..|ops| - 1] + [ops[|ops| - 1]];
      forall x | x in FirstOf(ops, wanted) ensures x in ops {
        assert x in FirstOf(ops[..|ops| - 1], wanted) || x == ops[|ops| - 1];
        assert x in Elems(FirstOf(ops[..|ops| - 1], wanted)) || x == ops[|ops| - 1];
      }
    }
  }

  lemma {:induction false} FirstOfDistinct(ops: seq<Operation>, wanted: set<OpId>)
    ensures DistinctIds(FirstOf(ops, wanted))
  {
    if ops != [] {
      var front, op := ops[..|ops| - 1], ops[|ops| - 1];
      FirstOfDistinct(front, wanted);
      FirstOfIds(front, wanted);
      if op.id in wanted && op.id !in Ids(front) {
        R.DistinctAppend(FirstOf(front, wanted), op);
      }
    }
  }

  lemma DistinctLast(ops: seq<Operation>)
    requires DistinctIds(ops) && ops != []
    ensures ops[|ops| - 1].id !in Ids(ops[..|ops| - 1])
  {
    forall i | 0 <= i < |ops| - 1 ensures ops[i].id != ops[|ops| - 1].id { }
  }

  lemma {:induction false} DistinctCount(ops: seq<Operation>)
    ensures |Ids(ops)| <= |ops|
    ensures |Ids(ops)| == |ops| ==> DistinctIds(ops)
  {
    if ops != [] {
      var front, op := ops[..|ops| - 1], ops[|ops| - 1];
      assert ops == front + [op];
      DistinctCount(front);
      IdsAppend(front, op);
      if op.id !in Ids(front) && DistinctIds(front) { R.DistinctAppend(front, op); }
    }
  }

  lemma {:induction false} FirstOfAll(ops: seq<Operation>, wanted: set<OpId>)
    requires DistinctIds(ops) && Ids(ops) <= wanted
    ensures FirstOf(ops, wanted) == ops
  {
    if ops != [] {
      var front, op := ops[..|ops| - 1], ops[|ops| - 1];
      assert ops == front + [op];
      IdsAppend(front, op);
      FirstOfAll(front, wanted);
      DistinctLast(ops);
    }
  }

  ghost predicate NoDuplicates<T>(s: seq<T>) {
    forall i, j :: 0 <= i < j < |s| ==> s[i] != s[j]
  }

  lemma {:induction false} NoDuplicatesCount<T>(s: seq<T>)
    requires NoDuplicates(s)
    ensures |Elems(s)| == |s|
  {
    if s != [] {
      var front, x := s[..|s| - 1], s[|s| - 1];
      NoDuplicatesCount(front);
      assert s == front + [x];
      assert x !in front;
      assert Elems(s) == Elems(front) + {x};
    }
  }

  /** As many accepted ids as operations leaves no room for a duplicate in the batch. */
  lemma Pigeonhole(ops: seq<Operation>, refs: seq<OpId>)
    requires NoDuplicates(refs) && Elems(refs) <= Ids(ops) && |refs| == |ops|
    ensures DistinctIds(ops) && Ids(ops) == Elems(refs)
  {
    NoDuplicatesCount(refs);
    DistinctCount(ops);
    SubsetSize(Elems(refs), Ids(ops));
  }

  lemma SubsetSize<T>(a: set<T>, b: set<T>)
    requires a <= b
    ensures |a| <= |b| && (|a| == |b| ==> a == b)
  {
    var c := b - a;
    assert b == a + c;
    assert |b| == |a| + |c|;
  }

  method CountRefs(refs: seq<OpId>) returns (remaining: map<OpId, nat>)
    ensures remaining.Keys == Elems(refs) && forall id | id in remaining :: remaining[id] == multiset(refs)[id]
  {
    remaining := map[];
    for i := 0 to |refs|
      invariant remaining.Keys == Elems(refs[..i])
      invariant forall id | id in remaining :: remaining[id] == multiset(refs[..i])[id]
    {
      assert refs[..i + 1] == refs[..i] + [refs[i]];
      remaining := remaining[refs[i] := (if refs[i] in remaining then remaining[refs[i]] else 0) + 1];
    }
    assert refs[..|refs|] == refs;
  }

  lemma {:induction false} CountedOnce<T>(s: seq<T>, x: T)
    requires NoDuplicates(s) && x in s
    ensures multiset(s)[x] == 1
  {
    var front, last := s[..|s| - 1], s[|s| - 1];
    assert s == front + [last];
    if x in front { CountedOnce(front, x); }
  }

  /** Take an operation while its id has a remaining count. */
  method TakeRemaining(ops: seq<Operation>, counts: map<OpId, nat>) returns (selected: seq<Operation>)
    requires forall id | id in counts :: counts[id] == 1
    ensures selected == FirstOf(ops, counts.Keys)
  {
    var remaining := counts;
    selected := [];
    for i := 0 to |ops|
      invariant selected == FirstOf(ops[..i], counts.Keys)
      invariant remaining.Keys == counts.Keys
      invariant forall id | id in remaining :: remaining[id] == if id in Ids(ops[..i]) then 0 else 1
    {
      var op := ops[i];
      assert ops[..i + 1] == ops[..i] + [op];
      FirstOfStep(ops[..i], op, counts.Keys);
      IdsAppend(ops[..i], op);
      if op.id in remaining && remaining[op.id] != 0 {
        remaining := remaining[op.id := remaining[op.id] - 1];
        selected := selected + [op];
      }
    }
    assert ops[..|ops|] == ops;
  }

  /** `select_inserted_ops`, with op_ref injective: exactly one operation per accepted id, in batch
      order, whatever order the database returned the ids in. */
  method SelectInsertedOps(ops: seq<Operation>, refs: seq<OpId>) returns (selected: seq<Operation>)
    requires NoDuplicates(refs) && Elems(refs) <= Ids(ops)
    ensures selected == FirstOf(ops, Elems(refs))
    ensures DistinctIds(selected) && Ids(selected) == Elems(refs) && |selected| == |refs|
  {
    FirstOfDistinct(ops, Elems(refs));
    FirstOfIds(ops, Elems(refs));
    NoDuplicatesCount(refs);
    DistinctSize(FirstOf(ops, Elems(refs)));
    if refs == [] {
      assert Elems(refs) == {};
      FirstOfNone(ops);
      return [];
    }
    if |refs| == |ops| {
      Pigeonhole(ops, refs);
      FirstOfAll(ops, Elems(refs));
      return ops;
    }
    var counts := CountRefs(refs);
    forall id | id in counts ensures counts[id] == 1 { CountedOnce(refs, id); }
    selected := TakeRemaining(ops, counts);
  }

  lemma {:induction false} FirstOfNone(ops: seq<Operation>)
    ensures FirstOf(ops, {}) == []
  {
    if ops != [] { FirstOfNone(ops[..|ops| - 1]); }
  }

  lemma {:induction false} DistinctSize(ops: seq<Operation>)
    requires DistinctIds(ops)
    ensures |Ids(ops)| == |ops|
  {
    if ops != [] {
      var front, op := ops[..|ops| - 1], ops[|ops| - 1];
      assert ops == front + [op];
      DistinctSize(front);
      IdsAppend(front, op);
      DistinctLast(ops);
    }
  }

  /** A delete is stored only with the state it knew. */
  predicate Storable(kind: Kind, known: Option<Knowledge>) {
    kind.Delete? ==> known.Some?
  }

  predicate AllStorable(batch: seq<Operation>) {
    forall i :: 0 <= i < |batch| ==> Storable(batch[i].kind, batch[i].known)
  }

  /** The bulk insert; returns the accepted ids, or refuses the whole batch for one bad delete. */
  method BulkInsert(log: OpLog, batch: seq<Operation>) returns (r: Result<seq<OpId>, BatchError>)
    requires log.Valid() && !log.noop
    modifies log
    ensures log.Valid() && (r.Ok? <==> AllStorable(batch)) && (r.Err? ==> r == Err(NoKnownState))
    ensures r.Err? <==> exists op :: op in batch && op.kind.Delete? && op.known.None?
    ensures r.Err? ==> log.ops == old(log.ops) && log.ids == old(log.ids)
    ensures r.Ok? ==> log.ops == old(log.ops) + NewOps(old(log.ops), batch)
    ensures r.Ok? ==> NoDuplicates(r.value) && Elems(r.value) == Ids(batch) - Ids(old(log.ops))
  {
    for i := 0 to |batch|
      invariant forall j :: 0 <= j < i ==> Storable(batch[j].kind, batch[j].known)
    {
      if !Storable(batch[i].kind, batch[i].known) {
        assert batch[i] in batch;
        return Err(NoKnownState);
      }
    }
    var refs := InsertRows(log, batch);
    r := Ok(refs);
  }

  /** Row by row; a row whose id is there already is skipped. */
  method InsertRows(log: OpLog, batch: seq<Operation>) returns (refs: seq<OpId>)
    requires log.Valid() && !log.noop
    modifies log
    ensures log.Valid() && log.ops == old(log.ops) + NewOps(old(log.ops), batch)
    ensures NoDuplicates(refs) && Elems(refs) == Ids(batch) - Ids(old(log.ops))
  {
    hide FirstOf, Ids, DistinctIds, NoDuplicates, Elems;
    ghost var wanted := Ids(batch) - Ids(log.ops);
    BulkStart(batch, log.ops, wanted);
    ghost var start := log.ops;
    refs := [];
    for i := 0 to |batch|
      invariant log.Valid() && log.ops == start + FirstOf(batch[..i], wanted)
      invariant NoDuplicates(refs) && Elems(refs) == Ids(batch[..i]) * wanted
    {
      var op := batch[i];
      assert batch[..i + 1] == batch[..i] + [op];
      BulkStep(start, batch, i, wanted);
      var inserted := log.Apply(op);
      if inserted {
        AppendNew(refs, op.id);
        refs := refs + [op.id];
      }
    }
    assert batch[..|batch|] == batch;
  }

  lemma BulkStart(batch: seq<Operation>, start: seq<Operation>, wanted: set<OpId>)
    requires wanted == Ids(batch) - Ids(start)
    ensures start + FirstOf(batch[..0], wanted) == start && Ids(batch[..0]) == {} && batch[..|batch|] == batch
    ensures NoDuplicates<OpId>([]) && Elems<OpId>([]) == {}
    ensures Ids(batch) * wanted == wanted
  {
  }

  lemma BulkStep(start: seq<Operation>, batch: seq<Operation>, i: nat, wanted: set<OpId>)
    requires i < |batch| && wanted == Ids(batch) - Ids(start)
    ensures
      var done, op := batch[..i], batch[i];
      var isNew := op.id in wanted && op.id !in Ids(done);
      && (op.id !in Ids(start + FirstOf(done, wanted)) <==> isNew)
      && start + FirstOf(done + [op], wanted) ==
         (if isNew then start + FirstOf(done, wanted) + [op] else start + FirstOf(done, wanted))
      && Ids(done + [op]) * wanted == (if isNew then Ids(done) * wanted + {op.id} else Ids(done) * wanted)
  {
    var done, op := batch[..i], batch[i];
    assert op in batch;
    IdsAppend(done, op);
    FirstOfStep(done, op, wanted);
    FirstOfIds(done, wanted);
    IdsConcat(start, FirstOf(done, wanted));
    assert FirstOf(done, wanted) + [] == FirstOf(done, wanted);
  }

  lemma AppendNew<T>(s: seq<T>, x: T)
    requires NoDuplicates(s) && x !in Elems(s)
    ensures NoDuplicates(s + [x]) && Elems(s + [x]) == Elems(s) + {x}
  {
    forall i | 0 <= i < |s| ensures s[i] != x { assert s[i] in Elems(s); }
  }

  lemma IdsConcat(a: seq<Operation>, b: seq<Operation>)
    ensures Ids(a + b) == Ids(a) + Ids(b)
  {
    assert forall x :: x in a + b <==> x in a || x in b;
  }

  // ----- materializing a batch -----

  /** Metadata of the materialized state (`MaterializationCursor`). */
  datatype Cursor = Cursor(dirty: bool, head: OpKey, seqNo: nat)

  datatype BatchError = WhileDirty | BeforeHead | NoKnownState

  datatype BatchResult = BatchResult(head: Option<Operation>, seqNo: nat, affected: set<NodeId>)

  /** The union of the deltas along a run. */
  ghost function Deltas(v: View, ops: seq<Operation>): set<NodeId> {
    if ops == [] then {}
    else
      var front := ops[..|ops| - 1];
      Deltas(v, front) + Delta(Steps(v, front), ops[|ops| - 1])
  }

  lemma DeltasStep(v: View, ops: seq<Operation>, op: Operation)
    ensures Deltas(v, ops + [op]) == Deltas(v, ops) + Delta(Steps(v, ops), op)
  {
    assert (ops + [op])[..|ops|] == ops;
  }

  /** The deltas of a batch hold every live node that a reader sees changed by the whole batch. */
  lemma {:induction false} DeltasComplete(v: View, ops: seq<Operation>, n: NodeId)
    requires Forest(v.tree.rows) && AllWellFormed(ops) && RightFlags(v)
    requires n != TRASH && Changed(v, Steps(v, ops), n)
    ensures n in Deltas(v, ops)
  {
    hide Step, Delta;
    if ops != [] {
      var front, op := ops[..|ops| - 1], ops[|ops| - 1];
      StepsRightFlags(v, front);
      if Changed(v, Steps(v, front), n) {
        DeltasComplete(v, front, n);
      } else {
        DeltaComplete(Steps(v, front), op, n);
      }
    }
  }

  /** Sort the batch, refuse it when dirty or older than the head, else apply it in order. The
      strictly increasing keys keep the replay branch, which would wipe the store, out of reach. */
  method ApplyIncrementalOps(crdt: TreeCrdt, index: Index, meta: Cursor, ops: seq<Operation>)
    returns (r: Result<BatchResult, BatchError>, index': Index)
    requires crdt.Valid() && crdt.log.noop && crdt.head.None? && AllWellFormed(ops) && DistinctIds(ops)
    modifies crdt, crdt.nodes, crdt.log
    ensures crdt.Valid()
    ensures r != Err(NoKnownState)
    ensures r == Err(WhileDirty) <==> ops != [] && meta.dirty
    ensures r == Err(BeforeHead) <==> ops != [] && !meta.dirty && KeyLess(KeyOf(SortLog(ops)[0]), meta.head)
    ensures r.Ok? ==>
      var v := View(old(crdt.Tree()), old(crdt.nodes.Tombs()), index);
      && View(crdt.Tree(), crdt.nodes.Tombs(), index') == Steps(v, SortLog(ops))
      && (ops != [] ==> r.value == BatchResult(R.Last(SortLog(ops)), meta.seqNo + |ops|, Deltas(v, SortLog(ops))))
    ensures r.Err? ==>
      crdt.Tree() == old(crdt.Tree()) && crdt.nodes.Tombs() == old(crdt.nodes.Tombs()) && index' == index
  {
    hide Step, Delta, Semantics.ApplyForward, Forest, WellFormed, KeyLess, SortLog;
    SortLogElems(ops);
    if ops == [] { return Ok(BatchResult(None, meta.seqNo, {})), index; }
    if meta.dirty { return Err(WhileDirty), index; }
    var sorted := SortLog(ops);
    if KeyLess(KeyOf(sorted[0]), meta.head) { return Err(BeforeHead), index; }
    SortLogSorted(ops);
    forall op | op in sorted ensures WellFormed(op) { assert op in Elems(ops); }
    ghost var v := View(crdt.Tree(), crdt.nodes.Tombs(), index);
    var seqNo, affected := meta.seqNo, {};
    index' := index;
    for i := 0 to |sorted|
      invariant crdt.Valid() && crdt.log.noop
      invariant crdt.head == R.Last(sorted[..i])
      invariant View(crdt.Tree(), crdt.nodes.Tombs(), index') == Steps(v, sorted[..i])
      invariant seqNo == meta.seqNo + i && affected == Deltas(v, sorted[..i])
    {
      var op := sorted[i];
      assert sorted[..i + 1] == sorted[..i] + [op];
      StepsStep(v, sorted[..i], op);
      DeltasStep(v, sorted[..i], op);
      if i > 0 { assert KeyLess(KeyOf(sorted[i - 1]), KeyOf(sorted[i])); }
      seqNo := seqNo + 1;
      Semantics.WellFormedNeverBreaks(crdt.nodes.dialect, crdt.nodes.Rows(), op);
      var delta, next := crdt.ApplyRemoteWithMaterialization(op, index');
      index' := next;
      affected := affected + delta.value;
    }
    assert sorted[..|sorted|] == sorted;
    r := Ok(BatchResult(crdt.head, seqNo, affected));
  }
}
