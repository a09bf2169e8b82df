/** The in-memory store and the Postgres store hold the same tree: they differ in the order keys of
    nodes under TRASH only, which Postgres does not keep. */
module Dialects {
  import opened Basics
  import opened Operations
  import opened NodeRows
  import opened Semantics
  import opened Tombstones
  import opened NodeStores
  import opened Placement
  import R = Replicas

  /** A row as Postgres keeps it. */
  function StripRow(r: Row): Row {
    if r.parent == Some(TRASH) then r.(key := None) else r
  }

  function Strip(m: Rows): Rows {
    map n | n in m :: StripRow(m[n])
  }

  function StripTree(t: Tree): Tree {
    Tree(Postgres, Strip(t.rows), t.payloads)
  }

  lemma StripWalks(m: Rows)
    ensures SameWalks(m, Strip(m)) && forall n: NodeId :: ParentOf(m, n) == ParentOf(Strip(m), n)
  {
  }

  lemma StripUpdate(m: Rows, n: NodeId, r: Row)
    ensures Strip(m[n := r]) == Strip(m)[n := StripRow(r)]
  {
  }

  lemma StripEnsure(m: Rows, n: NodeId)
    ensures Strip(Ensure(m, n)) == Ensure(Strip(m), n)
  {
    StripUpdate(m, n, BLANK);
  }

  lemma StripTouch(m: Rows, n: NodeId, k: Knowledge)
    ensures Strip(Touch(m, n, k)) == Touch(Strip(m), n, k)
  {
    if n in m { StripUpdate(m, n, m[n].(lastChange := m[n].lastChange + k)); }
  }

  lemma StripRelink(m: Rows, n: NodeId, p: NodeId, key: Bytes)
    requires n in m && p in m && n != ROOT
    ensures Strip(Relink(Memory, m, n, p, key)) == Relink(Postgres, Strip(m), n, p, key)
  {
    RelinkRow(Memory, m, n, p, key);
    RelinkRow(Postgres, Strip(m), n, p, key);
    StripUpdate(m, n, m[n].(parent := Some(p), key := Some(key)));
  }

  lemma StripCycle(m: Rows, n: NodeId, p: NodeId)
    ensures IntroducesCycle(m, n, p) <==> IntroducesCycle(Strip(m), n, p)
  {
    StripWalks(m);
    SameWalksUnder(m, Strip(m), p, n);
  }

  lemma StripInsert(m: Rows, op: Operation)
    requires op.kind.Insert? && op.kind.node != ROOT
    ensures Strip(ApplyInsert(Memory, m, op)) == ApplyInsert(Postgres, Strip(m), op)
  {
    hide Strip, IntroducesCycle, Touch;
    var Insert(p, n, key, _) := op.kind;
    StripCycle(m, n, p);
    if !(p == n || IntroducesCycle(m, n, p)) {
      StripEnsure(m, p);
      StripEnsure(Ensure(m, p), n);
      var m1 := Ensure(Ensure(m, p), n);
      StripRelink(m1, n, p, key);
      var m2 := Relink(Memory, m1, n, p, key);
      StripTouch(m2, n, OpKnowledge(op));
      StripTouch(Touch(m2, n, OpKnowledge(op)), p, OpKnowledge(op));
    }
  }

  lemma StripMove(m: Rows, op: Operation)
    requires op.kind.Move?
    ensures Strip(ApplyMove(Memory, m, op)) == ApplyMove(Postgres, Strip(m), op)
  {
    hide Strip, IntroducesCycle, Touch;
    var Move(n, p, key) := op.kind;
    if n != ROOT {
      StripEnsure(m, n);
      StripEnsure(Ensure(m, n), p);
      var m1 := Ensure(Ensure(m, n), p);
      StripCycle(m1, n, p);
      StripWalks(m1);
      if !(p != TRASH && (IntroducesCycle(m1, n, p) || n == p)) {
        StripRelink(m1, n, p, key);
        var m2 := Touch(Relink(Memory, m1, n, p, key), n, OpKnowledge(op));
        StripTouch(Relink(Memory, m1, n, p, key), n, OpKnowledge(op));
        StripTouch(m2, p, OpKnowledge(op));
        var prev := ParentOf(m1, n);
        if prev.Some? {
          StripTouch(m2, prev.value, OpKnowledge(op));
          StripTouch(Touch(m2, prev.value, OpKnowledge(op)), p, OpKnowledge(op));
        }
      }
    }
  }

  lemma StripDelete(m: Rows, op: Operation)
    ensures Strip(ApplyDelete(m, op)) == ApplyDelete(Strip(m), op)
  {
    var n := op.kind.node;
    StripEnsure(m, n);
    var m1 := Ensure(m, n);
    StripUpdate(m1, n, MergeDeletedAt(m1, n, OpKnowledge(op))[n]);
  }

  lemma StripPayload(t: Tree, op: Operation, n: NodeId, content: Option<Bytes>)
    ensures StripTree(ApplyPayload(t, op, n, content)) == ApplyPayload(StripTree(t), op, n, content)
  {
    hide Strip;
    StripEnsure(t.rows, n);
    StripTouch(Ensure(t.rows, n), n, OpKnowledge(op));
  }

  /** One operation does the same in both stores. */
  lemma StripApply(t: Tree, op: Operation)
    requires t.dialect == Memory && WellFormed(op)
    ensures StripTree(ApplyForward(t, op)) == ApplyForward(StripTree(t), op)
  {
    hide Strip, ApplyInsert, ApplyMove, ApplyDelete, ApplyPayload;
    var m := Ensure(t.rows, op.kind.node);
    StripEnsure(t.rows, op.kind.node);
    match op.kind
    case Insert(_, n, _, payload) =>
      StripInsert(m, op);
      StripPayload(t.(rows := ApplyInsert(Memory, m, op)), op, n, payload);
    case Move(_, _, _) => StripMove(m, op);
    case Delete(_) => StripDelete(m, op);
    case Tombstone(_) => StripDelete(m, op);
    case SetPayload(n, content) => StripPayload(t.(rows := m), op, n, content);
  }

  /** The same log yields the same tree in both stores, keys under TRASH aside. */
  lemma {:induction false} DialectsAgree(ops: seq<Operation>)
    requires AllWellFormed(ops)
    ensures Fold(EmptyTree(Postgres), ops) == StripTree(Fold(EmptyTree(Memory), ops))
  {
    hide ApplyForward;
    if ops != [] {
      var front := ops[..|ops| - 1];
      DialectsAgree(front);
      FoldDialect(EmptyTree(Memory), front);
      StripApply(Fold(EmptyTree(Memory), front), ops[|ops| - 1]);
    }
  }

  /** What a reader sees is the same: parents, visibility, child lists and visible lists of live nodes. */
  lemma StripReads(m: Rows, p: NodeId, s: seq<NodeId>)
    ensures ParentOf(Strip(m), p) == ParentOf(m, p) && LastChange(Strip(m), p) == LastChange(m, p)
    ensures DeletedAt(Strip(m), p) == DeletedAt(m, p) && (IsTomb(Strip(m), p) <==> IsTomb(m, p))
    ensures p != TRASH ==> (IsChildList(m, p, s) <==> IsChildList(Strip(m), p, s))
    ensures p != TRASH ==> (IsVisibleList(m, p, s) <==> IsVisibleList(Strip(m), p, s))
  {
    hide IsTomb;
    StripTombs(m, p);
    if p != TRASH {
      assert ChildrenOf(m, p) == ChildrenOf(Strip(m), p);
      forall n: NodeId ensures IsTomb(m, n) <==> IsTomb(Strip(m), n) { StripTombs(m, n); }
      if (forall n | n in s :: n in ChildrenOf(m, p)) { SameOrder(m, p, s); }
    }
  }

  lemma SameOrder(m: Rows, p: NodeId, s: seq<NodeId>)
    requires p != TRASH && forall n | n in s :: n in ChildrenOf(m, p)
    ensures SortedSiblings(m, s) <==> SortedSiblings(Strip(m), s)
  {
    forall i | 0 <= i < |s| ensures SiblingKey(m, s[i]) == SiblingKey(Strip(m), s[i]) { assert s[i] in s; }
    forall i, j | 0 <= i < j < |s| ensures SiblingLess(m, s[i], s[j]) <==> SiblingLess(Strip(m), s[i], s[j]) { }
  }

  lemma StripTombs(m: Rows, n: NodeId)
    ensures IsTomb(Strip(m), n) <==> IsTomb(m, n)
  {
    StripWalks(m);
    forall d: NodeId ensures Under(m, d, n) <==> Under(Strip(m), d, n) { SameWalksUnder(m, Strip(m), d, n); }
    forall id ensures id in SubtreeKnowledge(m, n) <==> id in SubtreeKnowledge(Strip(m), n) {
      if id in SubtreeKnowledge(m, n) {
        var d :| d in m && Under(m, d, n) && id in m[d].lastChange;
        assert d in Strip(m) && Under(Strip(m), d, n) && id in Strip(m)[d].lastChange;
      }
      if id in SubtreeKnowledge(Strip(m), n) {
        var d :| d in Strip(m) && Under(Strip(m), d, n) && id in Strip(m)[d].lastChange;
        assert d in m && Under(m, d, n) && id in m[d].lastChange;
      }
    }
  }

  /** An in-memory replica and a Postgres replica that were offered the same well-formed operations
      hold the same tree, keys under TRASH aside. */
  lemma DialectsConverge(a: R.Replica, ea: seq<R.Event>, b: R.Replica, eb: seq<R.Event>)
    requires R.Inv(a) && R.Inv(b) && a.tree.dialect == Memory && b.tree.dialect == Postgres
    requires R.AllowedRun(a, ea) && R.AllowedRun(b, eb)
    requires R.Offered(a, ea) == R.Offered(b, eb) && R.ConsistentIds(R.Offered(a, ea))
    requires forall op | op in R.Offered(a, ea) :: WellFormed(op)
    ensures R.Run(b, eb).tree == StripTree(R.Run(a, ea).tree)
  {
    hide R.Run, R.Offered, R.AllowedRun, StripTree, Fold;
    R.RunInv(a, ea); R.RunInv(b, eb);
    R.RunLog(a, ea); R.RunLog(b, eb);
    var x, y := R.Run(a, ea), R.Run(b, eb);
    SameOpsSameOrder(x.log, y.log);
    SortLogElems(x.log);
    var s := SortLog(x.log);
    forall op | op in s ensures WellFormed(op) { assert op in Elems(s); }
    DialectsAgree(s);
  }
}
