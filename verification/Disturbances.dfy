/** Two short logs after which placing an existing node changes the visibility of a sibling. */
module Disturbances {
  import opened Basics
  import opened Operations
  import opened NodeRows
  import opened Semantics
  import opened Tombstones
  import opened NodeStores
  import opened Placement

  const A: OpId := OpId([1], 1)
  const B: OpId := OpId([1], 2)
  const D: OpId := OpId([1], 3)
  const E: OpId := OpId([2], 1)

  /** Node 7 under ROOT, node 8 under 7, then a delete of 7 that knows both inserts. */
  const FIRST: Operation := Operation(A, 1, None, Insert(ROOT, 7, [0, 1], None))
  const SECOND: Operation := Operation(B, 2, None, Insert(7, 8, [0, 1], None))
  const REMOVAL: Operation := Operation(D, 3, Some({A, B}), Delete(7))

  /** A payload write on 8 the delete did not know of. */
  const EDIT: Operation := Operation(E, 4, None, SetPayload(8, None))

  const MOVE: Operation := Operation(OpId([1], 4), 5, None, Move(8, ROOT, [0, 2]))
  const REINSERT: Operation := Operation(OpId([1], 4), 5, None, Insert(ROOT, 8, [0, 2], None))

  /** The rows of these logs: 8 with what it has heard. */
  function RowsWith(heard: Knowledge): Rows {
    map[ROOT := Row(None, Some([]), {A}, None),
        7 := Row(Some(ROOT), Some([0, 1]), {A, B}, Some({A, B, D})),
        8 := Row(Some(7), Some([0, 1]), heard, None)]
  }

  /** The rows before the second insert and before the delete. */
  const ONE: Rows := map[ROOT := Row(None, Some([]), {A}, None), 7 := Row(Some(ROOT), Some([0, 1]), {A}, None)]
  const TWO: Rows := ONE[7 := Row(Some(ROOT), Some([0, 1]), {A, B}, None)][8 := Row(Some(7), Some([0, 1]), {B}, None)]

  lemma FirstRows()
    ensures ApplyForward(EmptyTree(Memory), FIRST) == Tree(Memory, ONE, map[])
  {
    assert OpKnowledge(FIRST) == {A};
    var m' := ApplyForward(EmptyTree(Memory), FIRST).rows;
    assert m'[7].lastChange == {A} && m'[ROOT].lastChange == {A};
    assert m' == ONE;
  }

  lemma SecondRows()
    ensures ApplyForward(Tree(Memory, ONE, map[]), SECOND) == Tree(Memory, TWO, map[])
  {
    assert OpKnowledge(SECOND) == {B};
    var m := Ensure(ONE, 8);
    UnderStep(m, 7, 8);
    UnderStep(m, ROOT, 8);
    var m' := ApplyForward(Tree(Memory, ONE, map[]), SECOND).rows;
    assert m'[8].lastChange == {B} && m'[7].lastChange == {A, B};
    assert m' == TWO;
  }

  lemma RemovalRows()
    ensures ApplyForward(Tree(Memory, TWO, map[]), REMOVAL) == Tree(Memory, RowsWith({B}), map[])
  {
    assert OpKnowledge(REMOVAL) == {A, B, D};
    var m' := ApplyForward(Tree(Memory, TWO, map[]), REMOVAL).rows;
    assert m'[7].deletedAt.value == {A, B, D};
    assert m' == RowsWith({B});
  }

  lemma RemovedRows()
    ensures Fold(EmptyTree(Memory), [FIRST, SECOND, REMOVAL]) == Tree(Memory, RowsWith({B}), map[])
  {
    hide ApplyForward, RowsWith;
    var t0 := EmptyTree(Memory);
    FirstRows();
    SecondRows();
    RemovalRows();
    FoldStep(t0, [], FIRST);
    FoldStep(t0, [FIRST], SECOND);
    FoldStep(t0, [FIRST, SECOND], REMOVAL);
    assert [] + [FIRST] == [FIRST] && [FIRST] + [SECOND] == [FIRST, SECOND];
    assert [FIRST, SECOND] + [REMOVAL] == [FIRST, SECOND, REMOVAL];
  }

  lemma EditedRows()
    ensures Fold(EmptyTree(Memory), [FIRST, SECOND, REMOVAL, EDIT]).rows == RowsWith({B, E})
  {
    var t0 := EmptyTree(Memory);
    RemovedRows();
    FoldStep(t0, [FIRST, SECOND, REMOVAL], EDIT);
    assert [FIRST, SECOND, REMOVAL] + [EDIT] == [FIRST, SECOND, REMOVAL, EDIT];
    assert OpKnowledge(EDIT) == {E};
    var m' := ApplyForward(Tree(Memory, RowsWith({B}), map[]), EDIT).rows;
    assert m'[8].lastChange == {B, E};
    assert m' == RowsWith({B, E});
  }

  lemma Shape(heard: Knowledge)
    ensures
      var m := RowsWith(heard);
      && Forest(m) && Under(m, 8, 7) && !Under(m, 7, 8) && !Under(m, ROOT, 8) && !Under(m, ROOT, 7)
  {
    var m := RowsWith(heard);
    UnderStep(m, 8, 7);
    UnderSelf(m, 7);
    UnderStep(m, 7, 8);
    UnderStep(m, ROOT, 8);
    UnderStep(m, ROOT, 7);
    forall n: NodeId ensures Grounded(m, n) {
      assert DepthIs(m, ROOT, 0);
      if n == 7 { assert DepthIs(m, 7, 1); }
      if n == 8 {
        assert DepthIs(m, 7, 1);
        assert DepthIs(m, 8, 2);
      }
      if n != 7 && n != 8 { assert DepthIs(m, n, 0); }
    }
  }

  lemma TakesEffect(t: Tree, op: Operation, heard: Knowledge)
    requires t.rows == RowsWith(heard) && (op == MOVE || op == REINSERT)
    ensures Links(t, op) && 7 in ChildrenOf(t.rows, ROOT) && Unheard(t.rows, op)
  {
    Shape(heard);
    assert Ensure(t.rows, 8) == t.rows;
  }

  /** Moving 8 out of the hidden 7 brings 7 back, so the visible children of ROOT gain two nodes. */
  lemma MoveBringsSiblingBack()
    ensures
      var t := Fold(EmptyTree(Memory), [FIRST, SECOND, REMOVAL]);
      && Links(t, MOVE) && IsTomb(t.rows, 7) && !IsTomb(ApplyForward(t, MOVE).rows, 7) && !Undisturbed(t.rows, MOVE)
  {
    hide ApplyForward, Fold;
    RemovedRows();
    var t := Fold(EmptyTree(Memory), [FIRST, SECOND, REMOVAL]);
    Shape({B});
    TakesEffect(t, MOVE, {B});
    assert IsTomb(t.rows, 7);
    SiblingVisibility(t, MOVE, 7);
    MoveUndisturbed(t.rows, MOVE);
    assert MOVE.id in OpKnowledge(MOVE);
  }

  /** Re-inserting 8, whose edit alone kept the deleted 7 visible, hides 7. */
  lemma ReinsertHidesSibling()
    ensures
      var t := Fold(EmptyTree(Memory), [FIRST, SECOND, REMOVAL, EDIT]);
      && Links(t, REINSERT) && !IsTomb(t.rows, 7) && IsTomb(ApplyForward(t, REINSERT).rows, 7)
      && !Undisturbed(t.rows, REINSERT)
  {
    hide ApplyForward, Fold;
    EditedRows();
    var t := Fold(EmptyTree(Memory), [FIRST, SECOND, REMOVAL, EDIT]);
    var m := t.rows;
    Shape({B, E});
    TakesEffect(t, REINSERT, {B, E});
    assert E in SubtreeKnowledge(m, 7) by { assert 8 in m && E in m[8].lastChange; }
    UnderSelf(m, 8);
    assert HiddenWithout(m, 7, 8);
    SiblingVisibility(t, REINSERT, 7);
    InsertUndisturbed(m, REINSERT);
  }
}
