/** Placeholder rows. Rows without parent, order key or vectors influence no operation, so tables that
    differ in them only (and in the key of ROOT's row) stay that way. */
module Patches {
  import opened Basics
  import opened Operations
  import opened NodeRows
  import opened Semantics
  import opened Tombstones
  import opened Materialize

  /** Blank rows for the missing nodes of s; with `rootKey`, ROOT's row gets its empty key. */
  function Patched(m: Rows, s: set<NodeId>, rootKey: bool): Rows
    requires rootKey ==> ROOT in s
  {
    var u := m + map n | n in s && n !in m :: BLANK;
    if rootKey then u[ROOT := u[ROOT].(key := Some([]))] else u
  }

  function PatchTree(t: Tree, s: set<NodeId>, rootKey: bool): Tree
    requires rootKey ==> ROOT in s
  {
    t.(rows := Patched(t.rows, s, rootKey))
  }

  function PatchView(v: View, s: set<NodeId>): View {
    v.(tree := PatchTree(v.tree, s, false))
  }

  lemma PatchWalks(m: Rows, s: set<NodeId>, k: bool)
    requires k ==> ROOT in s
    ensures SameWalks(m, Patched(m, s, k)) && forall n: NodeId :: ParentOf(m, n) == ParentOf(Patched(m, s, k), n)
  {
  }

  lemma PatchForest(m: Rows, s: set<NodeId>, k: bool)
    requires (k ==> ROOT in s) && Forest(m)
    ensures Forest(Patched(m, s, k))
  {
    PatchWalks(m, s, k);
    forall n: NodeId ensures Grounded(Patched(m, s, k), n) {
      assert Grounded(m, n);
      SameWalksGrounded(m, Patched(m, s, k), n);
    }
  }

  lemma PatchEnsure(m: Rows, s: set<NodeId>, k: bool, n: NodeId)
    requires k ==> ROOT in s
    ensures Patched(Ensure(m, n), s, k) == Ensure(Patched(m, s, k), n)
  {
  }

  lemma PatchTouch(m: Rows, s: set<NodeId>, k: bool, n: NodeId, d: Knowledge)
    requires (k ==> ROOT in s) && n in m
    ensures Patched(Touch(m, n, d), s, k) == Touch(Patched(m, s, k), n, d)
  {
  }

  lemma PatchUpdate(m: Rows, s: set<NodeId>, k: bool, n: NodeId, r: Row)
    requires (k ==> ROOT in s) && n in m
    ensures n in Patched(m, s, k)
    ensures n != ROOT ==> Patched(m, s, k)[n] == m[n] && Patched(m[n := r], s, k) == Patched(m, s, k)[n := r]
  {
  }

  lemma PatchRelink(d: Dialect, m: Rows, s: set<NodeId>, k: bool, n: NodeId, p: NodeId, key: Bytes)
    requires (k ==> ROOT in s) && n in m && p in m && n != ROOT
    ensures Patched(Relink(d, m, n, p, key), s, k) == Relink(d, Patched(m, s, k), n, p, key)
  {
    hide Patched;
    RelinkRow(d, m, n, p, key);
    PatchUpdate(m, s, k, n, m[n].(parent := Some(p), key := StoredKey(d, p, key)));
    PatchUpdate(m, s, k, p, m[p]);
    RelinkRow(d, Patched(m, s, k), n, p, key);
  }

  lemma PatchCycle(m: Rows, s: set<NodeId>, k: bool, n: NodeId, p: NodeId)
    requires k ==> ROOT in s
    ensures IntroducesCycle(m, n, p) <==> IntroducesCycle(Patched(m, s, k), n, p)
  {
    PatchWalks(m, s, k);
    SameWalksUnder(m, Patched(m, s, k), p, n);
  }

  lemma PatchInsert(d: Dialect, m: Rows, s: set<NodeId>, k: bool, op: Operation)
    requires (k ==> ROOT in s) && op.kind.Insert? && op.kind.node != ROOT
    ensures Patched(ApplyInsert(d, m, op), s, k) == ApplyInsert(d, Patched(m, s, k), op)
  {
    hide Patched, IntroducesCycle;
    var Insert(p, n, key, _) := op.kind;
    PatchCycle(m, s, k, n, p);
    if !(p == n || IntroducesCycle(m, n, p)) {
      PatchEnsure(m, s, k, p);
      PatchEnsure(Ensure(m, p), s, k, n);
      var m1 := Ensure(Ensure(m, p), n);
      PatchRelink(d, m1, s, k, n, p, key);
      RelinkRow(d, m1, n, p, key);
      var m2 := Relink(d, m1, n, p, key);
      PatchTouch(m2, s, k, n, OpKnowledge(op));
      PatchTouch(Touch(m2, n, OpKnowledge(op)), s, k, p, OpKnowledge(op));
    }
  }

  lemma PatchMoveTouches(m: Rows, s: set<NodeId>, k: bool, n: NodeId, prev: Option<NodeId>, p: NodeId, d: Knowledge)
    requires (k ==> ROOT in s) && n in m && p in m && (prev.Some? ==> prev.value in m)
    ensures
      var m2 := Touch(m, n, d);
      var m3 := if prev.Some? && prev.value != TRASH then Touch(m2, prev.value, d) else m2;
      var m4 := if p != TRASH then Touch(m3, p, d) else m3;
      var q2 := Touch(Patched(m, s, k), n, d);
      var q3 := if prev.Some? && prev.value != TRASH then Touch(q2, prev.value, d) else q2;
      var q4 := if p != TRASH then Touch(q3, p, d) else q3;
      Patched(m4, s, k) == q4
  {
    hide Patched;
    PatchTouch(m, s, k, n, d);
    var m2 := Touch(m, n, d);
    PatchTouch(m2, s, k, p, d);
    if prev.Some? {
      PatchTouch(m2, s, k, prev.value, d);
      PatchTouch(Touch(m2, prev.value, d), s, k, p, d);
    }
  }

  lemma PatchMove(d: Dialect, m: Rows, s: set<NodeId>, k: bool, op: Operation)
    requires (k ==> ROOT in s) && op.kind.Move? && Forest(m)
    ensures Patched(ApplyMove(d, m, op), s, k) == ApplyMove(d, Patched(m, s, k), op)
  {
    hide Patched, IntroducesCycle;
    var Move(n, p, key) := op.kind;
    if n != ROOT {
      PatchEnsure(m, s, k, n);
      PatchEnsure(Ensure(m, n), s, k, p);
      EnsureTwice(m, n, p);
      var m1 := Ensure(Ensure(m, n), p);
      PatchCycle(m1, s, k, n, p);
      PatchWalks(m1, s, k);
      if !(p != TRASH && (IntroducesCycle(m1, n, p) || n == p)) {
        PatchRelink(d, m1, s, k, n, p, key);
        RelinkRow(d, m1, n, p, key);
        PatchMoveTouches(Relink(d, m1, n, p, key), s, k, n, ParentOf(m1, n), p, OpKnowledge(op));
      }
    }
  }

  lemma PatchDelete(m: Rows, s: set<NodeId>, k: bool, op: Operation)
    requires k ==> ROOT in s
    ensures Patched(ApplyDelete(m, op), s, k) == ApplyDelete(Patched(m, s, k), op)
  {
    hide Patched;
    var n := op.kind.node;
    PatchEnsure(m, s, k, n);
    var m1 := Ensure(m, n);
    PatchUpdate(m1, s, k, n, MergeDeletedAt(m1, n, OpKnowledge(op))[n]);
  }

  lemma PatchPayload(t: Tree, s: set<NodeId>, k: bool, op: Operation, n: NodeId, content: Option<Bytes>)
    requires k ==> ROOT in s
    ensures PatchTree(ApplyPayload(t, op, n, content), s, k) == ApplyPayload(PatchTree(t, s, k), op, n, content)
  {
    hide Patched;
    PatchEnsure(t.rows, s, k, n);
    PatchTouch(Ensure(t.rows, n), s, k, n, OpKnowledge(op));
  }

  /** Placeholder rows and ROOT's key influence nothing else. */
  lemma PatchApply(t: Tree, s: set<NodeId>, k: bool, op: Operation)
    requires (k ==> ROOT in s) && Forest(t.rows) && WellFormed(op)
    ensures PatchTree(ApplyForward(t, op), s, k) == ApplyForward(PatchTree(t, s, k), op)
  {
    hide Patched;
    var m := Ensure(t.rows, op.kind.node);
    PatchEnsure(t.rows, s, k, op.kind.node);
    EnsureForest(t.rows, op.kind.node);
    match op.kind
    case Insert(_, n, _, payload) =>
      PatchInsert(t.dialect, m, s, k, op);
      PatchPayload(t.(rows := ApplyInsert(t.dialect, m, op)), s, k, op, n, payload);
    case Move(_, _, _) => PatchMove(t.dialect, m, s, k, op);
    case Delete(_) => PatchDelete(m, s, k, op);
    case Tombstone(_) => PatchDelete(m, s, k, op);
    case SetPayload(n, content) => PatchPayload(t.(rows := m), s, k, op, n, content);
  }

  lemma {:induction false} PatchFold(t: Tree, s: set<NodeId>, k: bool, ops: seq<Operation>)
    requires (k ==> ROOT in s) && Forest(t.rows) && AllWellFormed(ops)
    ensures PatchTree(Fold(t, ops), s, k) == Fold(PatchTree(t, s, k), ops) && Forest(Fold(t, ops).rows)
  {
    hide ApplyForward, Patched;
    if ops != [] {
      var front, op := ops[..|ops| - 1], ops[|ops| - 1];
      PatchFold(t, s, k, front);
      PatchApply(Fold(t, front), s, k, op);
      ApplyForest(Fold(t, front), op);
    }
  }

  lemma PatchKnowledge(m: Rows, s: set<NodeId>, k: bool, n: NodeId)
    requires k ==> ROOT in s
    ensures SubtreeKnowledge(m, n) == SubtreeKnowledge(Patched(m, s, k), n)
  {
    var m' := Patched(m, s, k);
    PatchWalks(m, s, k);
    forall id ensures id in SubtreeKnowledge(m, n) <==> id in SubtreeKnowledge(m', n) {
      if id in SubtreeKnowledge(m, n) {
        var d :| d in m && Under(m, d, n) && id in m[d].lastChange;
        SameWalksUnder(m, m', d, n);
        assert d in m' && id in m'[d].lastChange;
      }
      if id in SubtreeKnowledge(m', n) {
        var d :| d in m' && Under(m', d, n) && id in m'[d].lastChange;
        SameWalksUnder(m, m', d, n);
        assert d in m && id in m[d].lastChange;
      }
    }
  }

  lemma PatchTombs(m: Rows, s: set<NodeId>, k: bool)
    requires k ==> ROOT in s
    ensures AllTombs(m) == AllTombs(Patched(m, s, k))
  {
    hide SubtreeKnowledge;
    forall n: NodeId ensures IsTomb(m, n) <==> IsTomb(Patched(m, s, k), n) { PatchKnowledge(m, s, k, n); }
  }

  // ----- materialization over placeholder rows -----

  lemma PatchStep(v: View, s: set<NodeId>, op: Operation)
    requires Forest(v.tree.rows) && RightFlags(v) && WellFormed(op)
    ensures Step(PatchView(v, s), op) == PatchView(Step(v, op), s)
    ensures Delta(PatchView(v, s), op) == Delta(v, op)
  {
    hide ApplyForward, RefreshUp, AllTombs, Patched, Forest;
    PatchApply(v.tree, s, false, op);
    PatchWalks(v.tree.rows, s, false);
    PatchForest(v.tree.rows, s, false);
    PatchTombs(v.tree.rows, s, false);
    StepRightFlags(v, op);
    StepRightFlags(PatchView(v, s), op);
    PatchTombs(Step(v, op).tree.rows, s, false);
  }

  lemma {:induction false} PatchSteps(v: View, s: set<NodeId>, ops: seq<Operation>)
    requires Forest(v.tree.rows) && RightFlags(v) && AllWellFormed(ops)
    ensures Steps(PatchView(v, s), ops) == PatchView(Steps(v, ops), s)
  {
    hide Step, Patched;
    if ops != [] {
      var front := ops[..|ops| - 1];
      PatchSteps(v, s, front);
      StepsRightFlags(v, front);
      PatchStep(Steps(v, front), s, ops[|ops| - 1]);
    }
  }

  // ----- which rows a run creates -----

  function AllCreated(ops: seq<Operation>): set<NodeId> {
    if ops == [] then {} else AllCreated(ops[..|ops| - 1]) + Created(ops[|ops| - 1])
  }

  /** The nodes of a folded tree are exactly those its operations leave rows for. */
  lemma {:induction false} FoldKeys(t: Tree, ops: seq<Operation>)
    ensures Fold(t, ops).rows.Keys == t.rows.Keys + AllCreated(ops)
  {
    hide ApplyForward, Created;
    if ops != [] {
      FoldKeys(t, ops[..|ops| - 1]);
      ApplyKeys(Fold(t, ops[..|ops| - 1]), ops[|ops| - 1]);
    }
  }

  lemma {:induction false} CreatedIn(ops: seq<Operation>, n: NodeId)
    ensures n in AllCreated(ops) <==> exists op :: op in ops && n in Created(op)
  {
    if ops != [] {
      CreatedIn(ops[..|ops| - 1], n);
      assert ops == ops[..|ops| - 1] + [ops[|ops| - 1]];
      assert ops[|ops| - 1] in ops;
    }
  }

  // ----- one tree with more placeholder rows than another -----

  /** t is f with some further blank rows, up to presence and key of ROOT's row. */
  ghost predicate Padded(t: Tree, f: Tree) {
    PatchTree(t, {ROOT}, true) == PatchTree(f, t.rows.Keys + {ROOT}, true)
  }

  /** One row of a patched table. */
  lemma PatchRow(m: Rows, s: set<NodeId>, k: bool, n: NodeId)
    requires k ==> ROOT in s
    ensures n in Patched(m, s, k) <==> n in m || n in s
    ensures
      var row := if n in m then m[n] else BLANK;
      n in Patched(m, s, k) ==> Patched(m, s, k)[n] == if k && n == ROOT then row.(key := Some([])) else row
  {
  }

  lemma PatchTwice(m: Rows, a: set<NodeId>, b: set<NodeId>, k: bool)
    requires k ==> ROOT in a
    ensures Patched(Patched(m, a, k), b + {ROOT}, true) == Patched(m, a + b + {ROOT}, true)
  {
    hide Patched;
    var x, y := Patched(Patched(m, a, k), b + {ROOT}, true), Patched(m, a + b + {ROOT}, true);
    forall n: NodeId ensures (n in x <==> n in y) && (n in x ==> x[n] == y[n]) {
      PatchRow(m, a, k, n);
      PatchRow(Patched(m, a, k), b + {ROOT}, true, n);
      PatchRow(m, a + b + {ROOT}, true, n);
    }
    assert x.Keys == y.Keys;
  }

  /** Only the missing nodes matter. */
  lemma PatchKnown(m: Rows, a: set<NodeId>, b: set<NodeId>)
    requires a <= b <= a + m.Keys + {ROOT}
    ensures Patched(m, a + {ROOT}, true) == Patched(m, b + {ROOT}, true)
  {
    hide Patched;
    var x, y := Patched(m, a + {ROOT}, true), Patched(m, b + {ROOT}, true);
    forall n: NodeId ensures (n in x <==> n in y) && (n in x ==> x[n] == y[n]) {
      PatchRow(m, a + {ROOT}, true, n);
      PatchRow(m, b + {ROOT}, true, n);
    }
    assert x.Keys == y.Keys;
  }

  lemma PatchKeys(m: Rows, s: set<NodeId>, k: bool)
    requires k ==> ROOT in s
    ensures Patched(m, s, k).Keys == m.Keys + s
  {
  }

  lemma PaddedKeys(t: Tree, f: Tree)
    requires Padded(t, f)
    ensures f.rows.Keys <= t.rows.Keys + {ROOT}
  {
    hide Patched;
    PatchKeys(t.rows, {ROOT}, true);
    PatchKeys(f.rows, t.rows.Keys + {ROOT}, true);
  }

  lemma PaddedBy(t: Tree, f: Tree, s: set<NodeId>)
    requires PatchTree(t, {ROOT}, true) == PatchTree(f, s + {ROOT}, true)
    ensures Padded(t, f)
  {
    hide Patched;
    PatchKeys(t.rows, {ROOT}, true);
    PatchKeys(f.rows, s + {ROOT}, true);
    var b := t.rows.Keys + s;
    PatchKnown(f.rows, s, b);
    PatchKnown(f.rows, t.rows.Keys, b);
  }

  lemma PaddedSelf(t: Tree)
    ensures Padded(t, t)
  {
    hide Patched;
    assert {} + {ROOT} == {ROOT};
    PaddedBy(t, t, {});
  }

  lemma PaddedFold(t: Tree, f: Tree, ops: seq<Operation>)
    requires Padded(t, f) && Forest(t.rows) && Forest(f.rows) && AllWellFormed(ops)
    ensures Padded(Fold(t, ops), Fold(f, ops))
  {
    hide Patched, Fold;
    PatchFold(t, {ROOT}, true, ops);
    PatchFold(f, t.rows.Keys + {ROOT}, true, ops);
    PaddedBy(Fold(t, ops), Fold(f, ops), t.rows.Keys);
  }

  lemma PaddedPatch(t: Tree, f: Tree, s: set<NodeId>)
    requires Padded(t, f)
    ensures Padded(PatchTree(t, s, false), f)
  {
    hide Patched;
    assert {} + {ROOT} == {ROOT};
    PatchTwice(t.rows, s, {}, false);
    PatchTwice(t.rows, {ROOT}, s, true);
    PatchTwice(f.rows, t.rows.Keys + {ROOT}, s, true);
    assert s + {} + {ROOT} == {ROOT} + s + {ROOT};
    assert t.rows.Keys + {ROOT} + s + {ROOT} == t.rows.Keys + s + {ROOT};
    PaddedBy(PatchTree(t, s, false), f, t.rows.Keys + s);
  }

  /** Padding shows neither in parents and payloads nor in visibility. */
  lemma PaddedReads(t: Tree, f: Tree)
    requires Padded(t, f)
    ensures AllTombs(t.rows) == AllTombs(f.rows) && t.payloads == f.payloads
    ensures forall n: NodeId :: ParentOf(t.rows, n) == ParentOf(f.rows, n)
  {
    hide Patched, AllTombs;
    PatchTombs(t.rows, {ROOT}, true);
    PatchTombs(f.rows, t.rows.Keys + {ROOT}, true);
    PatchWalks(t.rows, {ROOT}, true);
    PatchWalks(f.rows, t.rows.Keys + {ROOT}, true);
  }

  // ----- preloading -----

  /** What `preload_for_ops` collects from one operation. */
  function Referenced(op: Operation): set<NodeId> {
    ({op.kind.node} + OptionSet(TargetParent(op.kind))) - {TRASH}
  }

  function AllReferenced(ops: seq<Operation>): set<NodeId> {
    if ops == [] then {} else AllReferenced(ops[..|ops| - 1]) + Referenced(ops[|ops| - 1])
  }

  predicate AnyPayload(ops: seq<Operation>) {
    exists op :: op in ops && op.kind.SetPayload?
  }

  /** The tables a batch is applied to: with a payload operation in it, rows are preloaded. */
  function Preloaded(v: View, batch: seq<Operation>): View {
    if AnyPayload(batch) then PatchView(v, AllReferenced(batch)) else v
  }

  lemma {:induction false} ReferencedIn(ops: seq<Operation>, n: NodeId)
    ensures n in AllReferenced(ops) <==> exists op :: op in ops && n in Referenced(op)
  {
    if ops != [] {
      ReferencedIn(ops[..|ops| - 1], n);
      assert ops == ops[..|ops| - 1] + [ops[|ops| - 1]];
      assert ops[|ops| - 1] in ops;
    }
  }

  /** A move of ROOT, which is refused, still gets a row preloaded for the parent it asked for. */
  ghost predicate Stray(m: Rows, batch: seq<Operation>, n: NodeId) {
    && n != TRASH && n !in m
    && (exists op :: op in batch && op.kind.Move? && op.kind.node == ROOT && op.kind.newParent == n)
    && forall op | op in batch :: n !in Created(op)
  }

  ghost predicate LeavesStray(m: Rows, batch: seq<Operation>) {
    AnyPayload(batch) && exists n :: Stray(m, batch, n)
  }

  lemma ReferencedOrStray(m: Rows, batch: seq<Operation>, n: NodeId)
    ensures n in AllReferenced(batch) && n !in m && n !in AllCreated(batch) <==> Stray(m, batch, n)
  {
    ReferencedIn(batch, n);
    CreatedIn(batch, n);
    if n in AllReferenced(batch) && n !in m && n !in AllCreated(batch) {
      var op :| op in batch && n in Referenced(op);
      assert n !in Created(op);
    }
    if Stray(m, batch, n) {
      var op :| op in batch && op.kind.Move? && op.kind.node == ROOT && op.kind.newParent == n;
      assert n in Referenced(op);
    }
  }

  /** Preloading is invisible exactly when no refused move of ROOT names an otherwise unknown parent. */
  lemma PreloadInvisibleExactly(v: View, batch: seq<Operation>, sorted: seq<Operation>)
    requires Forest(v.tree.rows) && RightFlags(v) && AllWellFormed(sorted)
    requires (forall op :: op in batch <==> op in sorted)
    ensures Steps(Preloaded(v, batch), sorted) == Steps(v, sorted) <==> !LeavesStray(v.tree.rows, batch)
  {
    hide Step, Steps, Forest, Stray;
    if AnyPayload(batch) {
      var s := AllReferenced(batch);
      PatchSteps(v, s, sorted);
      StepsTree(v, sorted);
      FoldKeys(v.tree, sorted);
      var m, m' := v.tree.rows, Steps(v, sorted).tree.rows;
      forall n: NodeId ensures n in s && n !in m' <==> Stray(m, batch, n) {
        ReferencedOrStray(m, batch, n);
        CreatedIn(batch, n);
        CreatedIn(sorted, n);
      }
      PatchNothing(m', s);
    }
  }

  lemma PatchOneMore(m: Rows, s: set<NodeId>, n: NodeId)
    ensures Patched(m, s + {n}, false) == Ensure(Patched(m, s, false), n)
  {
  }

  lemma PatchNothing(m: Rows, s: set<NodeId>)
    ensures Patched(m, s, false) == m <==> forall n | n in s :: n in m
  {
    assert Patched(m, s, false).Keys == m.Keys + s;
  }
}
