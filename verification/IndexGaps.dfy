/** A run of three local edits after which the index of a clean document lacks a row. */
module IndexGaps {
  import opened Basics
  import opened Operations
  import opened NodeRows
  import opened Semantics
  import opened Tombstones
  import opened Materialize
  import opened Engine
  import opened Patches
  import opened PgPipeline
  import opened PgDocuments
  import R = Replicas

  const A: OpId := OpId([1], 1)
  const B: OpId := OpId([1], 2)
  const C: OpId := OpId([1], 3)

  /** Insert node 7 under ROOT, delete it, write its payload; hints and index rows are those of the
      local plans. */
  const INSERT: PgStep := LocalEdit([1], Insert(ROOT, 7, [0, 1], None), None, {ROOT}, PlanRecords({ROOT}, A, {}), Fine)
  const DELETE: PgStep := LocalEdit([1], Delete(7), Some({A}), {ROOT}, PlanRecords({ROOT}, B, {}), Fine)
  const WRITE: PgStep := LocalEdit([1], SetPayload(7, Some([9])), None, {TRASH}, PlanRecords({TRASH}, C, {}), Fine)

  const OP1: Operation := Operation(A, 1, None, INSERT.kind)
  const OP2: Operation := Operation(B, 2, Some({A}), DELETE.kind)
  const OP3: Operation := Operation(C, 3, None, WRITE.kind)

  /** Node 7 with what it has heard and what its delete knew. */
  function RowsWith(heard: Knowledge, deleted: Option<Knowledge>): Rows {
    map[ROOT := Row(None, None, {A}, None), 7 := Row(Some(ROOT), Some([0, 1]), heard, deleted)]
  }

  const TREE1: Tree := Tree(Postgres, RowsWith({A}, None), map[])
  const TREE2: Tree := Tree(Postgres, RowsWith({A}, Some({A, B})), map[])
  const TREE3: Tree := Tree(Postgres, RowsWith({A, C}, Some({A, B})), map[7 := Payload(Some([9]), 3, C)])

  lemma FirstTree()
    ensures ApplyForward(NEW_DOC.view.tree, OP1) == TREE1
  {
    assert OpKnowledge(OP1) == {A};
    var m' := ApplyForward(NEW_DOC.view.tree, OP1).rows;
    assert m'[7].lastChange == {A} && m'[ROOT].lastChange == {A};
    assert m' == RowsWith({A}, None);
  }

  lemma SecondTree()
    ensures ApplyForward(TREE1, OP2) == TREE2
  {
    assert OpKnowledge(OP2) == {A, B};
    var m' := ApplyForward(TREE1, OP2).rows;
    assert m'[7].deletedAt.value == {A, B};
    assert m' == RowsWith({A}, Some({A, B}));
  }

  lemma ThirdTree()
    ensures ApplyForward(TREE2, OP3) == TREE3
  {
    assert OpKnowledge(OP3) == {C};
    var m' := ApplyForward(TREE2, OP3).rows;
    assert m'[7].lastChange == {A, C};
    assert m' == RowsWith({A, C}, Some({A, B}));
  }

  /** Clock and counter of a session over the first operations. */
  lemma Minted()
    ensures SessionOp([], [1], INSERT.kind, None) == OP1
    ensures SessionOp([OP1], [1], DELETE.kind, Some({A})) == OP2
    ensures SessionOp([OP1, OP2], [1], WRITE.kind, None) == OP3
  {
    assert [OP1][..0] == [] && [OP1, OP2][..1] == [OP1];
    assert R.MaxLamport([OP1]) == 1 && R.MaxCounter([OP1], [1]) == 1;
    assert R.MaxLamport([OP1, OP2]) == 2 && R.MaxCounter([OP1, OP2], [1]) == 2;
  }

  lemma RunOfThree()
    ensures
      var doc := PgRun(NEW_DOC, [INSERT, DELETE, WRITE]);
      && WellFormedRun(NEW_DOC, [INSERT, DELETE, WRITE])
      && doc.log == [OP1, OP2, OP3] && doc.view.tree == TREE3 && !doc.dirty
      && doc.view.index == INSERT.records + DELETE.records + WRITE.records
  {
    hide ApplyForward, RefreshUp, PlanRecords, RowsWith, SessionOp;
    Minted();
    FirstTree(); SecondTree(); ThirdTree();
    var s1, s2, s3 := [INSERT], [INSERT, DELETE], [INSERT, DELETE, WRITE];
    assert s1[..0] == [] && s2[..1] == s1 && s3[..2] == s2;
    var d1, d2, d3 := PgRun(NEW_DOC, s1), PgRun(NEW_DOC, s2), PgRun(NEW_DOC, s3);
    assert PgRun(NEW_DOC, []) == NEW_DOC;
    assert d1 == LocalNext(NEW_DOC, INSERT);
    assert d1.log == [OP1] && d1.view.tree == TREE1 && !d1.dirty && d1.view.index == INSERT.records;
    assert d2 == LocalNext(d1, DELETE);
    assert d2.log == [OP1, OP2] && d2.view.tree == TREE2 && !d2.dirty;
    assert d3 == LocalNext(d2, WRITE);
    assert WellFormedRun(NEW_DOC, []) && WellFormedRun(NEW_DOC, s1) && WellFormedRun(NEW_DOC, s2);
  }

  /** The plans are those of local_delete and local_payload: known state and visible parent. */
  lemma PlansAreLocal()
    ensures SubtreeKnowledge(TREE1.rows, 7) == {A} && VisibleParentOf(TREE1.rows, 7) == Some(ROOT)
    ensures VisibleParentOf(TREE2.rows, 7) == Some(TRASH)
  {
    var m := TREE1.rows;
    UnderSelf(m, 7);
    assert 7 in m && A in m[7].lastChange;
    assert IsTomb(TREE2.rows, 7);
  }

  /** The node is visible again and its payload belongs under ROOT, but no row says so; a rebuild
      would have written it. */
  lemma LocalWriteIsNotFindable()
    ensures WellFormedRun(NEW_DOC, [INSERT, DELETE, WRITE])
    ensures
      var doc := PgRun(NEW_DOC, [INSERT, DELETE, WRITE]);
      && !doc.dirty && (ROOT, C) !in doc.view.index && !PayloadsFindable(doc.view.tree, doc.view.index)
      && (ROOT, C) in Rebuild(Postgres, SortLog(doc.log)).index
  {
    hide PgRun, WellFormedRun, MatchesRebuildPlus, MatchesRebuild, SortLog, Fold, Patched;
    RunOfThree();
    var steps := [INSERT, DELETE, WRITE];
    EveryRunIsConsistent(steps);
    var doc := PgRun(NEW_DOC, steps);
    var t := Rebuild(Postgres, SortLog(doc.log)).tree;
    PaddedReads(doc.view.tree, t);
    assert ParentOf(doc.view.tree.rows, 7) == Some(ROOT) && 7 in doc.view.tree.payloads;
    assert 7 in t.rows && t.rows[7].parent == Some(ROOT);
    assert (ROOT, C) in BackfillRecords(t);
  }
}
