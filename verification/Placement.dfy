/** Visible child lists, and where a local insert puts its node. */
module Placement {
  import opened Basics
  import opened Operations
  import opened NodeRows
  import opened Semantics
  import opened Tombstones
  import opened NodeStores
  import opened OrderKeys

  /** The children a reader sees, in sibling order. */
  ghost predicate IsVisibleList(m: Rows, p: NodeId, v: seq<NodeId>) {
    SortedSiblings(m, v) && forall n: NodeId :: n in v <==> n in ChildrenOf(m, p) && !IsTomb(m, n)
  }

  lemma VisibleListUnique(m: Rows, p: NodeId, v: seq<NodeId>, w: seq<NodeId>)
    requires IsVisibleList(m, p, v) && IsVisibleList(m, p, w)
    ensures v == w
  {
    SortedSiblingsUnique(m, v, w);
  }

  /** Visible siblings carry well-formed keys that increase strictly. */
  ghost predicate GoodKeys(m: Rows, v: seq<NodeId>) {
    && (forall i :: 0 <= i < |v| ==> WellFormedKey(SiblingKey(m, v[i])))
    && (forall i, j :: 0 <= i < j < |v| ==> LexLess(SiblingKey(m, v[i]), SiblingKey(m, v[j])))
  }

  function LeftBound(m: Rows, v: seq<NodeId>, i: nat): Option<Bytes>
    requires i <= |v|
  {
    if i > 0 then Some(SiblingKey(m, v[i - 1])) else None
  }

  function RightBound(m: Rows, v: seq<NodeId>, i: nat): Option<Bytes>
    requires i <= |v|
  {
    if i < |v| then Some(SiblingKey(m, v[i])) else None
  }

  function Inserted(v: seq<NodeId>, i: nat, n: NodeId): seq<NodeId>
    requires i <= |v|
  {
    v[..i] + [n] + v[i..]
  }

  /** Position i of v is directly after `after`, or first when there is none. */
  predicate DirectlyAfter(v: seq<NodeId>, after: Option<NodeId>, i: nat) {
    i <= |v| && match after case None => i == 0 case Some(a) => i > 0 && v[i - 1] == a
  }

  lemma NewNodeHasNoCycle(m: Rows, p: NodeId, n: NodeId)
    requires Forest(m) && n !in m && p != n
    ensures !Under(m, p, n)
  {
    if k: nat :| ReachesIn(m, p, n, k) {
      var c := EntersThroughChild(m, p, n, k);
      assert false;
    }
  }

  /** The rows after a new node was inserted. */
  lemma InsertedRows(t: Tree, op: Operation)
    requires Forest(t.rows) && op.kind.Insert? && op.kind.node !in t.rows && !Reserved(op.kind.node)
    requires op.kind.parent != op.kind.node && op.kind.parent != TRASH
    ensures
      var m' := ApplyForward(t, op).rows;
      && op.kind.node in m' && m'[op.kind.node].parent == Some(op.kind.parent)
      && m'[op.kind.node].key == Some(op.kind.key)
      && m'[op.kind.node].deletedAt.None?
  {
    var Insert(p, n, key, payload) := op.kind;
    var m := Ensure(t.rows, n);
    EnsureForest(t.rows, n);
    NewNodeHasNoCycle(t.rows, p, n);
    SameWalksUnder(t.rows, m, p, n);
    ApplyLocal(t, op);
    RelinkRow(t.dialect, Ensure(Ensure(m, p), n), n, p, key);
  }

  /** An insert changes the visibility of no sibling. */
  lemma SiblingsKeepVisibility(t: Tree, op: Operation, c: NodeId)
    requires Forest(t.rows) && WellFormed(op) && op.kind.Insert? && op.kind.node !in t.rows
    requires op.kind.parent != op.kind.node && op.kind.parent != TRASH && ParentOf(t.rows, c) == Some(op.kind.parent)
    ensures IsTomb(ApplyForward(t, op).rows, c) <==> IsTomb(t.rows, c)
  {
    hide ApplyForward;
    var Insert(p, n, _, _) := op.kind;
    var m, m' := t.rows, ApplyForward(t, op).rows;
    ApplyLocal(t, op);
    ApplyForest(t, op);
    InsertedRows(t, op);
    assert ParentOf(m', c) == Some(p);
    assert Grounded(m', c);
    ParentDepth(m', c);
    if Under(m', p, c) { UnderGrounded(m', p, c); }
    UnderStep(m', n, c);
    OutsideClosure(m, m', n, OpKnowledge(op), Starts(m, op), c);
  }

  /** The child set gains exactly the inserted node. */
  lemma InsertedChildren(t: Tree, op: Operation, c: NodeId)
    requires Forest(t.rows) && op.kind.Insert? && op.kind.node !in t.rows && !Reserved(op.kind.node)
    requires op.kind.parent != op.kind.node && op.kind.parent != TRASH
    ensures
      var m' := ApplyForward(t, op).rows;
      && (c in ChildrenOf(m', op.kind.parent) <==> c == op.kind.node || c in ChildrenOf(t.rows, op.kind.parent))
      && (c != op.kind.node ==> SiblingKey(m', c) == SiblingKey(t.rows, c))
  {
    hide ApplyForward;
    ApplyLocal(t, op);
    InsertedRows(t, op);
    var m, m' := t.rows, ApplyForward(t, op).rows;
    if c in m' && c != op.kind.node {
      assert ParentOf(m', c) == ParentOf(m, c) && m'[c].key == BlankKey(m, c);
    }
  }

  /** A new node whose key was allocated between its neighbours appears exactly there in the visible
      child list, whatever hidden siblings lie in between, and the visible keys stay well formed and
      strictly increasing, so the next insert finds the same situation. */
  lemma InsertPlacement(t: Tree, op: Operation, v: seq<NodeId>, i: nat)
    requires Forest(t.rows) && WellFormed(op) && op.kind.Insert? && op.kind.node !in t.rows
    requires op.kind.parent != op.kind.node && op.kind.parent != TRASH
    requires IsVisibleList(t.rows, op.kind.parent, v) && GoodKeys(t.rows, v) && i <= |v|
    requires WellFormedBound(LeftBound(t.rows, v, i)) && WellFormedBound(RightBound(t.rows, v, i))
    requires AllocatedFrom(LeftBound(t.rows, v, i), RightBound(t.rows, v, i), op.kind.key)
    ensures IsVisibleList(ApplyForward(t, op).rows, op.kind.parent, Inserted(v, i, op.kind.node))
    ensures GoodKeys(ApplyForward(t, op).rows, Inserted(v, i, op.kind.node))
  {
    hide ApplyForward, Forest, AllocatedFrom, LexLess, WellFormedKey;
    var p, n, key := op.kind.parent, op.kind.node, op.kind.key;
    var m, m' := t.rows, ApplyForward(t, op).rows;
    AllocatedIsBetween(LeftBound(m, v, i), RightBound(m, v, i), key);
    InsertedRows(t, op);
    forall c: NodeId
      ensures SiblingKey(m', c) == if c == n then key else SiblingKey(m, c)
    {
      InsertedChildren(t, op, c);
    }
    InsertedKeys(m, m', v, i, n, key);
    forall c: NodeId
      ensures c in Inserted(v, i, n) <==> c in ChildrenOf(m', p) && !IsTomb(m', c)
    {
      InsertedChildren(t, op, c);
      assert v == v[..i] + v[i..];
      assert c in Inserted(v, i, n) <==> c == n || c in v;
      if c in ChildrenOf(m, p) { SiblingsKeepVisibility(t, op, c); }
    }
  }

  // ----- nodes that are already there -----

  /** The engine refuses the operation as a cycle, or as a move of ROOT. */
  ghost predicate Refused(t: Tree, op: Operation) {
    match op.kind
    case Insert(p, n, _, _) => p == n || IntroducesCycle(Ensure(t.rows, n), n, p)
    case Move(n, _, _) => MoveRefused(Ensure(t.rows, n), op)
    case _ => false
  }

  /** An insert or move that takes effect and whose target is live. */
  ghost predicate Links(t: Tree, op: Operation) {
    && WellFormed(op) && (op.kind.Insert? || op.kind.Move?)
    && !Refused(t, op) && TargetParent(op.kind) != Some(TRASH)
  }

  /** It puts its node under the target with its key. */
  lemma LinkedRow(t: Tree, op: Operation)
    requires Links(t, op)
    ensures
      var m' := ApplyForward(t, op).rows;
      && op.kind.node in m' && m'[op.kind.node].parent == TargetParent(op.kind)
      && m'[op.kind.node].key == Some(op.kind.key)
  {
    hide IntroducesCycle;
    var n, key := op.kind.node, op.kind.key;
    var m := Ensure(t.rows, n);
    var p := TargetParent(op.kind).value;
    RelinkRow(t.dialect, Ensure(Ensure(m, p), n), n, p, key);
    RelinkRow(t.dialect, Ensure(Ensure(m, n), p), n, p, key);
  }

  /** The rest of the siblings, as far as order is concerned. */
  lemma LinkedChildren(t: Tree, op: Operation, c: NodeId)
    requires Links(t, op)
    ensures
      var m', p := ApplyForward(t, op).rows, TargetParent(op.kind).value;
      && (c in ChildrenOf(m', p) <==> c == op.kind.node || c in ChildrenOf(t.rows, p))
      && SiblingKey(m', c) == if c == op.kind.node then op.kind.key else SiblingKey(t.rows, c)
  {
    hide ApplyForward;
    ApplyLocal(t, op);
    LinkedRow(t, op);
    var m, m' := t.rows, ApplyForward(t, op).rows;
    if c in m' && c != op.kind.node {
      assert ParentOf(m', c) == ParentOf(m, c) && m'[c].key == BlankKey(m, c);
    }
  }

  // ----- which siblings the change hides or brings back -----

  /** What the subtree of c knows without the subtree of n. */
  ghost function KnowledgeOutside(m: Rows, c: NodeId, n: NodeId): Knowledge {
    set d, id | d in m && Under(m, d, c) && !Under(m, d, n) && id in m[d].lastChange :: id
  }

  /** Were the subtree of n elsewhere, c would be hidden. */
  ghost predicate HiddenWithout(m: Rows, c: NodeId, n: NodeId) {
    c in m && m[c].deletedAt.Some? && KnowledgeOutside(m, c, n) <= m[c].deletedAt.value
  }

  /** Whether a sibling c of the target is hidden after op, read off the tree before it. If op takes
      its node out of c, what the node's subtree knew is gone from c; a move leaves its own mark on
      the node's old parent, an insert does not. */
  ghost predicate HiddenAfter(m: Rows, op: Operation, c: NodeId) {
    if Under(m, op.kind.node, c)
    then HiddenWithout(m, c, op.kind.node) && (op.kind.Move? ==> OpKnowledge(op) <= m[c].deletedAt.value)
    else IsTomb(m, c)
  }

  /** Likewise for the node of op itself. */
  ghost predicate NodeHiddenAfter(m: Rows, op: Operation) {
    IsTomb(m, op.kind.node) && OpKnowledge(op) <= m[op.kind.node].deletedAt.value
  }

  /** The node will be visible and no other child of the target changes its visibility. */
  ghost predicate Undisturbed(m: Rows, op: Operation)
    requires TargetParent(op.kind).Some?
  {
    && !NodeHiddenAfter(m, op)
    && forall c: NodeId | c in ChildrenOf(m, TargetParent(op.kind).value) && c != op.kind.node ::
         HiddenAfter(m, op, c) <==> IsTomb(m, c)
  }

  lemma LinkWalks(t: Tree, op: Operation)
    requires Forest(t.rows) && Links(t, op)
    ensures
      var m' := ApplyForward(t, op).rows;
      && SameWalksBut(t.rows, m', op.kind.node) && Forest(m') && !Reserved(op.kind.node)
      && Up(m', op.kind.node) == TargetParent(op.kind)
  {
    hide ApplyForward;
    ApplyLocal(t, op);
    ApplyForest(t, op);
    LinkedRow(t, op);
    LocalSameWalksBut(t.rows, ApplyForward(t, op).rows, op.kind.node, OpKnowledge(op), Starts(t.rows, op));
  }

  lemma NotAboveParent(m: Rows, c: NodeId)
    requires Forest(m) && Up(m, c).Some?
    ensures !Under(m, Up(m, c).value, c)
  {
    assert Grounded(m, c);
    ParentDepth(m, c);
    if Under(m, Up(m, c).value, c) { UnderGrounded(m, Up(m, c).value, c); }
  }

  /** After the change the node and a sibling of it lie apart. */
  lemma SiblingsApart(t: Tree, op: Operation, c: NodeId)
    requires Forest(t.rows) && Links(t, op)
    requires c != op.kind.node && c in ChildrenOf(t.rows, TargetParent(op.kind).value)
    ensures
      var m' := ApplyForward(t, op).rows;
      && !Under(m', TargetParent(op.kind).value, c) && !Under(m', op.kind.node, c) && !Under(m', c, op.kind.node)
  {
    hide ApplyForward;
    LinkWalks(t, op);
    var m', n, p := ApplyForward(t, op).rows, op.kind.node, TargetParent(op.kind).value;
    assert Up(t.rows, c) == Some(p);
    assert Up(m', c) == Some(p);
    NotAboveParent(m', c);
    NotAboveParent(m', n);
    UnderStep(m', n, c);
    UnderStep(m', c, n);
  }

  /** A sibling keeps exactly the part of its subtree that does not lie under the node. */
  lemma SiblingMembers(t: Tree, op: Operation, c: NodeId, d: NodeId)
    requires Forest(t.rows) && Links(t, op)
    requires c != op.kind.node && c in ChildrenOf(t.rows, TargetParent(op.kind).value)
    ensures Under(ApplyForward(t, op).rows, d, c) <==> Under(t.rows, d, c) && !Under(t.rows, d, op.kind.node)
  {
    hide ApplyForward;
    var m, m', n := t.rows, ApplyForward(t, op).rows, op.kind.node;
    LinkWalks(t, op);
    SiblingsApart(t, op, c);
    UnderMoved(m, m', n, d);
    if Under(m', d, c) && Under(m', d, n) { UnderComparable(m', d, n, c); }
    if !Under(m, d, n) { UnderUnmoved(m, m', n, d, c); }
  }

  /** An insert touches its node and its target only. */
  lemma InsertRows(t: Tree, op: Operation, d: NodeId)
    requires op.kind.Insert? && d in t.rows && d != op.kind.node && d != op.kind.parent
    ensures d in ApplyForward(t, op).rows && ApplyForward(t, op).rows[d] == t.rows[d]
  {
    var x, k, s := op.kind.node, OpKnowledge(op), {op.kind.node, op.kind.parent};
    var m := Ensure(t.rows, x);
    assert Local(t.rows, m, x, k, s);
    InsertLocal(t.dialect, t.rows, m, op, s);
    if op.kind.payload.Some? {
      PayloadLocal(t.rows, t.(rows := ApplyInsert(t.dialect, m, op)), op, s, op.kind.payload);
    }
  }

  /** An accepted move leaves its mark on the node's old parent. */
  lemma MoveMarksOldParent(t: Tree, op: Operation)
    requires op.kind.Move? && Links(t, op) && ParentOf(t.rows, op.kind.node).Some? && Forest(t.rows)
    requires ParentOf(t.rows, op.kind.node).value != TRASH
    ensures
      var q, m' := ParentOf(t.rows, op.kind.node).value, ApplyForward(t, op).rows;
      q in m' && OpKnowledge(op) <= m'[q].lastChange
  {
    hide IntroducesCycle, Acyclic;
    var Move(n, p, key) := op.kind;
    var m1 := Ensure(Ensure(t.rows, n), p);
    RelinkRow(t.dialect, m1, n, p, key);
  }

  lemma OutsideAndMark(t: Tree, op: Operation, c: NodeId)
    requires Forest(t.rows) && Links(t, op) && Under(t.rows, op.kind.node, c)
    requires c != op.kind.node && c in ChildrenOf(t.rows, TargetParent(op.kind).value)
    ensures KnowledgeOutside(t.rows, c, op.kind.node) <= SubtreeKnowledge(ApplyForward(t, op).rows, c)
    ensures op.kind.Move? ==> OpKnowledge(op) <= SubtreeKnowledge(ApplyForward(t, op).rows, c)
  {
    hide ApplyForward, Links, Forest;
    var m, m', n := t.rows, ApplyForward(t, op).rows, op.kind.node;
    ApplyLocal(t, op);
    forall id | id in KnowledgeOutside(m, c, n) ensures id in SubtreeKnowledge(m', c) {
      var d :| d in m && Under(m, d, c) && !Under(m, d, n) && id in m[d].lastChange;
      SiblingMembers(t, op, c, d);
      assert d in m' && id in m'[d].lastChange;
    }
    if op.kind.Move? {
      OldParentInside(t, op, c);
      MoveMarksOldParent(t, op);
    }
  }

  /** The node's old parent stays in the sibling the node leaves. */
  lemma OldParentInside(t: Tree, op: Operation, c: NodeId)
    requires Forest(t.rows) && Links(t, op) && Under(t.rows, op.kind.node, c)
    requires c != op.kind.node && c in ChildrenOf(t.rows, TargetParent(op.kind).value)
    ensures
      var q := ParentOf(t.rows, op.kind.node);
      q.Some? && q.value != TRASH && Under(ApplyForward(t, op).rows, q.value, c)
  {
    hide ApplyForward;
    var m, n := t.rows, op.kind.node;
    LinkWalks(t, op);
    UnderStep(m, n, c);
    var q := Up(m, n).value;
    UnderStep(m, TRASH, c);
    NotAboveParent(m, n);
    SiblingMembers(t, op, c, q);
  }

  lemma KnowledgeAfter(t: Tree, op: Operation, c: NodeId)
    requires Forest(t.rows) && Links(t, op) && Under(t.rows, op.kind.node, c)
    requires c != op.kind.node && c in ChildrenOf(t.rows, TargetParent(op.kind).value)
    ensures SubtreeKnowledge(ApplyForward(t, op).rows, c) ==
            KnowledgeOutside(t.rows, c, op.kind.node) + (if op.kind.Move? then OpKnowledge(op) else {})
  {
    hide ApplyForward, Refused;
    var m, m', n, p := t.rows, ApplyForward(t, op).rows, op.kind.node, TargetParent(op.kind).value;
    ApplyLocal(t, op);
    OutsideAndMark(t, op, c);
    SiblingsApart(t, op, c);
    forall id | id in SubtreeKnowledge(m', c)
      ensures id in KnowledgeOutside(m, c, n) + (if op.kind.Move? then OpKnowledge(op) else {})
    {
      var d :| d in m' && Under(m', d, c) && id in m'[d].lastChange;
      SiblingMembers(t, op, c, d);
      assert d in m;
      if op.kind.Insert? { InsertRows(t, op, d); }
    }
  }

  /** Exactly which siblings of an inserted or moved node are hidden afterwards. */
  lemma SiblingVisibility(t: Tree, op: Operation, c: NodeId)
    requires Forest(t.rows) && Links(t, op)
    requires c != op.kind.node && c in ChildrenOf(t.rows, TargetParent(op.kind).value)
    ensures IsTomb(ApplyForward(t, op).rows, c) <==> HiddenAfter(t.rows, op, c)
  {
    hide ApplyForward, Links;
    var m, m', n := t.rows, ApplyForward(t, op).rows, op.kind.node;
    ApplyLocal(t, op);
    if Under(m, n, c) {
      KnowledgeAfter(t, op, c);
    } else {
      SiblingOutside(t, op, c);
    }
  }

  lemma SiblingOutside(t: Tree, op: Operation, c: NodeId)
    requires Forest(t.rows) && Links(t, op) && !Under(t.rows, op.kind.node, c)
    requires c != op.kind.node && c in ChildrenOf(t.rows, TargetParent(op.kind).value)
    ensures IsTomb(ApplyForward(t, op).rows, c) <==> IsTomb(t.rows, c)
  {
    hide ApplyForward;
    var m, m', n := t.rows, ApplyForward(t, op).rows, op.kind.node;
    ApplyLocal(t, op);
    LinkWalks(t, op);
    SiblingsApart(t, op, c);
    forall a | a in Starts(m, op) ensures !Under(m', a, c) {
      if Some(a) == ParentOf(m, n) {
        UnderStep(m, n, c);
        SiblingMembers(t, op, c, a);
      }
    }
    OutsideClosure(m, m', n, OpKnowledge(op), Starts(m, op), c);
  }

  lemma NodeVisibility(t: Tree, op: Operation)
    requires Links(t, op)
    ensures IsTomb(ApplyForward(t, op).rows, op.kind.node) <==> NodeHiddenAfter(t.rows, op)
  {
    hide ApplyForward, IntroducesCycle;
    ApplyLocal(t, op);
    LinksAccepted(t, op);
    UnderSelf(ApplyForward(t, op).rows, op.kind.node);
    if op.kind.node in t.rows { RevivalExactly(t, op, op.kind.node); }
  }

  lemma LinksAccepted(t: Tree, op: Operation)
    requires Links(t, op)
    ensures Accepted(t, op)
  {
    hide IntroducesCycle;
    var m := Ensure(t.rows, op.kind.node);
    assert Ensure(m, op.kind.node) == m;
  }

  /** An accepted insert or move of any node under a live parent: among the siblings that were
      visible the node takes exactly the position its key was allocated for. That is the whole
      visible child list exactly when, by the tree before the change, the node will be visible and
      no sibling is hidden or brought back. */
  lemma LinkPlacement(t: Tree, op: Operation, v: seq<NodeId>, i: nat)
    requires Forest(t.rows) && Links(t, op)
    requires GoodKeys(t.rows, v) && i <= |v| && op.kind.node !in v
    requires forall c: NodeId | c != op.kind.node ::
      c in v <==> c in ChildrenOf(t.rows, TargetParent(op.kind).value) && !IsTomb(t.rows, c)
    requires WellFormedBound(LeftBound(t.rows, v, i)) && WellFormedBound(RightBound(t.rows, v, i))
    requires AllocatedFrom(LeftBound(t.rows, v, i), RightBound(t.rows, v, i), op.kind.key)
    ensures
      var m', p, w := ApplyForward(t, op).rows, TargetParent(op.kind).value, Inserted(v, i, op.kind.node);
      && GoodKeys(m', w) && SortedSiblings(m', w) && (forall c | c in w :: c in ChildrenOf(m', p))
      && (IsVisibleList(m', p, w) <==> Undisturbed(t.rows, op))
  {
    hide ApplyForward, AllocatedFrom, LexLess, WellFormedKey, IsTomb, Refused, Forest;
    var p, n, key := TargetParent(op.kind).value, op.kind.node, op.kind.key;
    var m, m', w := t.rows, ApplyForward(t, op).rows, Inserted(v, i, n);
    AllocatedIsBetween(LeftBound(m, v, i), RightBound(m, v, i), key);
    forall c: NodeId ensures SiblingKey(m', c) == if c == n then key else SiblingKey(m, c) { LinkedChildren(t, op, c); }
    InsertedKeys(m, m', v, i, n, key);
    assert v == v[..i] + v[i..];
    forall c: NodeId ensures c in w <==> c == n || c in v { }
    forall c: NodeId ensures c in ChildrenOf(m', p) <==> c == n || c in ChildrenOf(m, p) { LinkedChildren(t, op, c); }
    NodeVisibility(t, op);
    forall c: NodeId | c in ChildrenOf(m, p) && c != n ensures IsTomb(m', c) <==> HiddenAfter(m, op, c) {
      SiblingVisibility(t, op, c);
    }
    VisibleExactly(m, m', op, v, w);
  }

  lemma VisibleExactly(m: Rows, m': Rows, op: Operation, v: seq<NodeId>, w: seq<NodeId>)
    requires TargetParent(op.kind).Some? && SortedSiblings(m', w) && op.kind.node !in v
    requires forall c: NodeId :: c in w <==> c == op.kind.node || c in v
    requires forall c: NodeId | c != op.kind.node ::
      c in v <==> c in ChildrenOf(m, TargetParent(op.kind).value) && !IsTomb(m, c)
    requires forall c: NodeId ::
      c in ChildrenOf(m', TargetParent(op.kind).value) <==>
      c == op.kind.node || c in ChildrenOf(m, TargetParent(op.kind).value)
    requires IsTomb(m', op.kind.node) <==> NodeHiddenAfter(m, op)
    requires forall c: NodeId | c in ChildrenOf(m, TargetParent(op.kind).value) && c != op.kind.node ::
      IsTomb(m', c) <==> HiddenAfter(m, op, c)
    ensures IsVisibleList(m', TargetParent(op.kind).value, w) <==> Undisturbed(m, op)
  {
    hide IsTomb, SortedSiblings, HiddenAfter, NodeHiddenAfter;
    var p, n := TargetParent(op.kind).value, op.kind.node;
    if IsVisibleList(m', p, w) {
      assert n in w;
      forall c: NodeId | c in ChildrenOf(m, p) && c != n ensures HiddenAfter(m, op, c) <==> IsTomb(m, c) {
        assert c in w <==> c in v;
      }
    }
    if Undisturbed(m, op) {
      forall c: NodeId ensures c in w <==> c in ChildrenOf(m', p) && !IsTomb(m', c) { }
    }
  }

  /** No delete has heard of op yet, as for an operation just minted. */
  ghost predicate Unheard(m: Rows, op: Operation) {
    op.id.counter > 0 && forall c | c in m && m[c].deletedAt.Some? :: op.id !in m[c].deletedAt.value
  }

  /** A move nobody knew of disturbs the list exactly when it takes its node out of a hidden sibling,
      which comes back. */
  lemma MoveUndisturbed(m: Rows, op: Operation)
    requires op.kind.Move? && Unheard(m, op)
    ensures Undisturbed(m, op) <==>
      forall c: NodeId | c in ChildrenOf(m, op.kind.newParent) && c != op.kind.node ::
        !(IsTomb(m, c) && Under(m, op.kind.node, c))
  {
    hide SubtreeKnowledge, KnowledgeOutside;
    assert op.id in OpKnowledge(op);
  }

  /** An insert nobody knew of disturbs the list exactly when its node held a deleted sibling visible,
      which is then hidden. */
  lemma InsertUndisturbed(m: Rows, op: Operation)
    requires op.kind.Insert? && Unheard(m, op)
    ensures Undisturbed(m, op) <==>
      forall c: NodeId | c in ChildrenOf(m, op.kind.parent) && c != op.kind.node ::
        !(!IsTomb(m, c) && Under(m, op.kind.node, c) && HiddenWithout(m, c, op.kind.node))
  {
    hide ApplyForward;
    assert op.id in OpKnowledge(op);
    forall c: NodeId | IsTomb(m, c) && Under(m, op.kind.node, c) ensures HiddenWithout(m, c, op.kind.node) {
      assert KnowledgeOutside(m, c, op.kind.node) <= SubtreeKnowledge(m, c);
    }
  }

  ghost predicate Increasing(ks: seq<Bytes>) {
    forall i, j :: 0 <= i < j < |ks| ==> LexLess(ks[i], ks[j])
  }

  function KeysOf(m: Rows, v: seq<NodeId>): seq<Bytes> {
    seq(|v|, i requires 0 <= i < |v| => SiblingKey(m, v[i]))
  }

  lemma IncreasingInserted(ks: seq<Bytes>, i: nat, key: Bytes)
    requires Increasing(ks) && i <= |ks|
    requires i > 0 ==> LexLess(ks[i - 1], key)
    requires i < |ks| ==> LexLess(key, ks[i])
    ensures Increasing(ks[..i] + [key] + ks[i..])
  {
    forall j | 0 <= j < i ensures LexLess(ks[j], key) {
      if j < i - 1 { LexTransitive(ks[j], ks[i - 1], key); }
    }
    forall j | i <= j < |ks| ensures LexLess(key, ks[j]) {
      if i < j { LexTransitive(key, ks[i], ks[j]); }
    }
    var t := ks[..i] + [key] + ks[i..];
    forall j, k | 0 <= j < k < |t| ensures LexLess(t[j], t[k]) {
      assert t[j] == if j < i then ks[j] else if j == i then key else ks[j - 1];
      assert t[k] == if k < i then ks[k] else if k == i then key else ks[k - 1];
    }
  }

  lemma InsertedKeys(m: Rows, m': Rows, v: seq<NodeId>, i: nat, n: NodeId, key: Bytes)
    requires GoodKeys(m, v) && i <= |v| && WellFormedKey(key) && n !in v
    requires forall c: NodeId :: SiblingKey(m', c) == if c == n then key else SiblingKey(m, c)
    requires i > 0 ==> LexLess(SiblingKey(m, v[i - 1]), key)
    requires i < |v| ==> LexLess(key, SiblingKey(m, v[i]))
    ensures GoodKeys(m', Inserted(v, i, n)) && SortedSiblings(m', Inserted(v, i, n))
  {
    hide LexLess, WellFormedKey;
    var w, ks := Inserted(v, i, n), KeysOf(m, v);
    IncreasingInserted(ks, i, key);
    var kw := ks[..i] + [key] + ks[i..];
    InsertedAt(v, i, n);
    InsertedAt(ks, i, key);
    forall j | 0 <= j < |w| ensures SiblingKey(m', w[j]) == kw[j] && WellFormedKey(kw[j]) {
      if j < i { assert v[j] in v; } else if j > i { assert v[j - 1] in v; }
    }
    forall j, k | 0 <= j < k < |w| ensures LexLess(SiblingKey(m', w[j]), SiblingKey(m', w[k])) {
      assert LexLess(kw[j], kw[k]);
    }
  }

  lemma InsertedAt<T>(v: seq<T>, i: nat, x: T)
    requires i <= |v|
    ensures
      var w := v[..i] + [x] + v[i..];
      |w| == |v| + 1 && forall j :: 0 <= j < |w| ==> w[j] == if j < i then v[j] else if j == i then x else v[j - 1]
  {
  }
}
