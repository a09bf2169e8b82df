/** The Tree CRDT engine (`TreeCrdt`) over a node store and an operation log. */
module Engine {
  import opened Basics
  import opened Operations
  import opened NodeRows
  import opened Semantics
  import opened Tombstones
  import opened Materialize
  import opened NodeStores
  import opened Placement
  import K = OrderKeys
  import R = Replicas

  /** `MemoryStorage`, or `NoopStorage` when `noop`: the latter accepts everything and keeps nothing. */
  class OpLog {
    const noop: bool
    var ops: seq<Operation>
    var ids: set<OpId>

    ghost predicate Valid()
      reads this
    {
      ids == Ids(ops) && DistinctIds(ops) && (noop ==> ops == [])
    }

    constructor (noop: bool)
      ensures Valid() && ops == [] && this.noop == noop
    {
      this.noop := noop;
      ops, ids := [], {};
    }

    method Apply(op: Operation) returns (inserted: bool)
      requires Valid()
      modifies this
      ensures Valid()
      ensures noop ==> inserted && ops == old(ops)
      ensures !noop ==> (inserted <==> op.id !in Ids(old(ops)))
      ensures !noop ==> ops == if inserted then old(ops) + [op] else old(ops)
    {
      if noop { return true; }
      if op.id in ids { return false; }
      R.DistinctAppend(ops, op);
      ids := ids + {op.id};
      ops := ops + [op];
      return true;
    }

    /** `scan_since(0)`: the operations with positive lamport in canonical order. */
    method Scan() returns (sorted: seq<Operation>)
      ensures sorted == SortLog(R.SinceZero(ops))
    {
      var loaded := [];
      for i := 0 to |ops|
        invariant loaded == R.SinceZero(ops[..i])
      {
        assert ops[..i + 1][..i] == ops[..i];
        if ops[i].lamport > 0 { loaded := loaded + [ops[i]]; }
      }
      assert ops[..|ops|] == ops;
      sorted := SortLog(loaded);
    }
  }

  /** The parents of `affected_parents`, as a list. */
  function AffectedParentList(before: Option<NodeId>, kind: Kind): (s: seq<NodeId>)
    ensures Elems(s) == AffectedParents(before, kind)
  {
    (if before.Some? then [before.value] else []) +
    (if TargetParent(kind).Some? then [TargetParent(kind).value] else [])
  }

  /** A node's place before an operation. */
  datatype Snapshot = Snapshot(parent: Option<NodeId>, key: Option<Bytes>)

  function SnapshotOf(m: Rows, n: NodeId): Snapshot {
    Snapshot(ParentOf(m, n), BlankKey(m, n))
  }

  /** What a delivery reports: the place before it and the nodes it touched directly. */
  datatype ApplyDelta = ApplyDelta(before: Snapshot, affected: set<NodeId>)

  // ----- refresh -----

  /** Flags after the nodes in `visited` were recomputed. */
  ghost function PartlyRefreshed(m: Rows, tombs: set<NodeId>, visited: set<NodeId>): set<NodeId> {
    set n | n in m && (if n in visited && m[n].deletedAt.Some? then IsTomb(m, n) else n in tombs)
  }

  ghost predicate Reached(m: Rows, starts: seq<NodeId>, n: NodeId) {
    exists s :: s in starts && Under(m, s, n)
  }

  ghost predicate Handled(visited: set<NodeId>, stack: seq<NodeId>, n: NodeId) {
    n in visited || n in stack || Reserved(n)
  }

  lemma {:induction false} ClosureVisited(m: Rows, visited: set<NodeId>, s: NodeId, n: NodeId, k: nat)
    requires ReachesIn(m, s, n, k) && !Reserved(n) && Handled(visited, [], s)
    requires forall v | v in visited && Up(m, v).Some? :: Handled(visited, [], Up(m, v).value)
    ensures n in visited
    decreases k
  {
    if s != n { ClosureVisited(m, visited, Up(m, s).value, n, k - 1); }
  }

  lemma RefreshComplete(m: Rows, tombs: set<NodeId>, starts: seq<NodeId>, visited: set<NodeId>)
    requires forall v | v in visited :: !Reserved(v) && Reached(m, starts, v)
    requires forall s | s in starts :: Handled(visited, [], s)
    requires forall v | v in visited && Up(m, v).Some? :: Handled(visited, [], Up(m, v).value)
    ensures PartlyRefreshed(m, tombs, visited) == RefreshUp(m, tombs, Elems(starts))
  {
    forall n: NodeId ensures n in visited <==> InClosure(m, Elems(starts), n) {
      if n in visited {
        var s :| s in starts && Under(m, s, n);
        assert s in Elems(starts);
      }
      if InClosure(m, Elems(starts), n) {
        var s :| s in Elems(starts) && Under(m, s, n);
        var k: nat :| ReachesIn(m, s, n, k);
        ClosureVisited(m, visited, s, n, k);
      }
    }
  }

  /** Cached subtree knowledge is right. */
  ghost predicate CacheRight(m: Rows, cache: map<NodeId, Knowledge>) {
    forall c | c in cache :: cache[c] == SubtreeKnowledge(m, c)
  }

  class TreeCrdt {
    const replica: Bytes
    const log: OpLog
    const nodes: NodeStore
    var payloads: map<NodeId, Payload>
    var lamport: nat
    var counter: nat
    var head: Option<Operation>
    var opCount: nat
    var seen: Knowledge

    ghost function Tree(): Semantics.Tree
      reads this, nodes
    {
      Semantics.Tree(nodes.dialect, nodes.Rows(), payloads)
    }

    ghost function State(): R.Replica
      reads this, nodes, log
    {
      R.Replica(replica, log.ops, Tree(), lamport, counter, head, opCount, seen)
    }

    /** What every operation keeps, well formed or not: lists agree with rows and walks end. */
    ghost predicate Usable()
      reads this, nodes, log
    {
      log.Valid() && nodes.Valid() && Acyclic(nodes.Rows())
    }

    /** What visibility needs besides. */
    ghost predicate Valid()
      reads this, nodes, log
    {
      Usable() && Forest(nodes.Rows()) && AllWellFormed(log.ops)
    }

    /** Over existing stores; counter and clock start from the log. */
    constructor (replica: Bytes, log: OpLog, nodes: NodeStore, payloads: map<NodeId, Payload>)
      requires log.Valid() && nodes.Valid() && Acyclic(nodes.Rows())
      ensures Usable() && (Forest(nodes.Rows()) && AllWellFormed(log.ops) ==> Valid())
      ensures this.log == log && this.nodes == nodes && this.replica == replica
      ensures State() == R.Replica(replica, log.ops, Semantics.Tree(nodes.dialect, nodes.Rows(), payloads),
                                   R.MaxLamport(log.ops), R.MaxCounter(log.ops, replica), None, 0, {})
    {
      this.replica := replica;
      this.log := log;
      this.nodes := nodes;
      this.payloads := payloads;
      lamport := R.MaxLamport(log.ops);
      counter := R.MaxCounter(log.ops, replica);
      head, opCount, seen := None, 0, {};
    }

    // ----- one operation -----

    /** The walk from the new parent; it ends in every reachable state. */
    method IntroducesCycle(node: NodeId, parent: NodeId) returns (cycle: bool)
      requires Acyclic(nodes.Rows())
      ensures cycle <==> Semantics.IntroducesCycle(nodes.Rows(), node, parent)
    {
      if parent == TRASH || parent == ROOT { return false; }
      ghost var m := nodes.Rows();
      var current := Some(parent);
      while current.Some?
        invariant Under(m, parent, node) <==> current.Some? && Under(m, current.value, node)
        decreases current.Some?, if current.Some? && Grounded(m, current.value) then Depth(m, current.value) else 0
      {
        var n := current.value;
        UnderStep(m, n, node);
        if n == node { return true; }
        if n == TRASH || n == ROOT { return false; }
        current := nodes.Parent(n);
        assert Grounded(m, n);
        if current.Some? { ParentDepth(m, n); }
      }
      return false;
    }

    method RelinkNode(node: NodeId, parent: NodeId, key: Bytes)
      requires nodes.Valid() && (node != parent || parent == TRASH) && node in nodes.nodes && parent in nodes.nodes
      modifies nodes
      ensures nodes.Valid() && nodes.Rows() == Relink(nodes.dialect, old(nodes.Rows()), node, parent, key)
      ensures nodes.Rows().Keys == old(nodes.Rows()).Keys && nodes.Tombs() == old(nodes.Tombs())
    {
      RelinkRow(nodes.dialect, nodes.Rows(), node, parent, key);
      nodes.Detach(node);
      nodes.Attach(node, parent, key);
    }

    method ApplyInsert(op: Operation)
      requires op.kind.Insert? && nodes.Valid() && Acyclic(nodes.Rows())
      modifies nodes
      ensures nodes.Valid() && nodes.Rows() == Semantics.ApplyInsert(nodes.dialect, old(nodes.Rows()), op)
      ensures Acyclic(nodes.Rows()) && nodes.Tombs() == old(nodes.Tombs())
    {
      InsertAcyclic(nodes.dialect, nodes.Rows(), op);
      var Insert(parent, node, key, _) := op.kind;
      if parent == node { return; }
      var cycle := IntroducesCycle(node, parent);
      if cycle { return; }
      nodes.EnsureNode(parent);
      nodes.EnsureNode(node);
      RelinkNode(node, parent, key);
      nodes.MergeLastChange(node, OpKnowledge(op));
      nodes.MergeLastChange(parent, OpKnowledge(op));
    }

    method ApplyMove(op: Operation)
      requires op.kind.Move? && nodes.Valid() && Acyclic(nodes.Rows())
      modifies nodes
      ensures nodes.Valid() && nodes.Rows() == Semantics.ApplyMove(nodes.dialect, old(nodes.Rows()), op)
      ensures Acyclic(nodes.Rows()) && nodes.Tombs() == old(nodes.Tombs())
    {
      hide Relink, Acyclic;
      MoveAcyclic(nodes.dialect, nodes.Rows(), op);
      var Move(node, newParent, key) := op.kind;
      if node == ROOT { return; }
      EnsureTwice(nodes.Rows(), node, newParent);
      nodes.EnsureNode(node);
      nodes.EnsureNode(newParent);
      if newParent != TRASH {
        var cycle := IntroducesCycle(node, newParent);
        if cycle || node == newParent { return; }
      }
      var prev := nodes.Parent(node);
      RelinkNode(node, newParent, key);
      nodes.MergeLastChange(node, OpKnowledge(op));
      if prev.Some? && prev.value != TRASH { nodes.MergeLastChange(prev.value, OpKnowledge(op)); }
      if newParent != TRASH { nodes.MergeLastChange(newParent, OpKnowledge(op)); }
    }

    method ApplyDelete(op: Operation)
      requires nodes.Valid()
      modifies nodes
      ensures nodes.Valid() && nodes.Rows() == Semantics.ApplyDelete(old(nodes.Rows()), op)
      ensures nodes.Tombs() == old(nodes.Tombs())
    {
      var node := op.kind.node;
      if node == ROOT || node == TRASH { return; }
      nodes.EnsureNode(node);
      nodes.MergeDeletedAt(node, OpKnowledge(op));
    }

    method ApplyPayload(op: Operation, node: NodeId, content: Option<Bytes>)
      requires nodes.Valid()
      modifies this`payloads, nodes
      ensures nodes.Valid() && Tree() == Semantics.ApplyPayload(old(Tree()), op, node, content)
      ensures nodes.Tombs() == old(nodes.Tombs())
    {
      nodes.EnsureNode(node);
      if node in payloads && !KeyLess(WriterKey(payloads[node]), KeyOf(op)) { return; }
      payloads := payloads[node := Payload(content, op.lamport, op.id)];
      nodes.MergeLastChange(node, OpKnowledge(op));
    }

    /** `apply_forward`; returns the node's parent and order key before the operation. */
    method ApplyForward(op: Operation) returns (before: Snapshot)
      requires nodes.Valid() && Acyclic(nodes.Rows())
      modifies this`payloads, nodes
      ensures nodes.Valid() && Acyclic(nodes.Rows())
      ensures Tree() == Semantics.ApplyForward(old(Tree()), op) && nodes.Tombs() == old(nodes.Tombs())
      ensures before == SnapshotOf(old(nodes.Rows()), op.kind.node)
      ensures old(Forest(nodes.Rows())) ==> (Forest(nodes.Rows()) <==> !Breaks(nodes.dialect, old(nodes.Rows()), op))
    {
      hide Acyclic;
      if Forest(nodes.Rows()) { ApplyForestExactly(Tree(), op); }
      ApplyAcyclic(Tree(), op);
      EnsureForest(nodes.Rows(), op.kind.node);
      nodes.EnsureNode(op.kind.node);
      before := Snapshot(nodes.nodes[op.kind.node].row.parent, nodes.nodes[op.kind.node].row.key);
      match op.kind
      case Insert(_, node, _, payload) =>
        ApplyInsert(op);
        if payload.Some? { ApplyPayload(op, node, payload); }
      case Move(_, _, _) => ApplyMove(op);
      case Delete(_) => ApplyDelete(op);
      case Tombstone(_) => ApplyDelete(op);
      case SetPayload(node, content) => ApplyPayload(op, node, content);
    }

    // ----- visibility -----

    method IsTombstoned(n: NodeId) returns (hidden: bool)
      requires nodes.Valid() && Forest(nodes.Rows())
      ensures hidden <==> IsTomb(nodes.Rows(), n)
    {
      if n !in nodes.nodes || nodes.nodes[n].row.deletedAt.None? { return false; }
      var subtree := nodes.SubtreeVersionVector(n);
      return subtree <= nodes.nodes[n].row.deletedAt.value;
    }

    /** Recompute one flag; nodes that were never deleted keep theirs. */
    method RefreshFlag(n: NodeId) returns (changed: bool)
      requires nodes.Valid() && Forest(nodes.Rows()) && n in nodes.nodes
      modifies nodes
      ensures nodes.Valid() && nodes.Rows() == old(nodes.Rows())
      ensures nodes.Tombs() == Reflagged(nodes.Rows(), old(nodes.Tombs()), n)
      ensures changed <==> nodes.Tombs() != old(nodes.Tombs())
    {
      if nodes.nodes[n].row.deletedAt.None? { return false; }
      var previous := nodes.nodes[n].tombstone;
      var tombstoned := IsTombstoned(n);
      if previous == tombstoned { return false; }
      nodes.SetTombstone(n, tombstoned);
      assert n in old(nodes.Tombs()) <==> n !in nodes.Tombs();
      return true;
    }

    /** Recompute the flags on the upward closure of `starts`; returns the nodes whose flag changed. */
    method RefreshTombstonesUpward(starts: seq<NodeId>) returns (changed: set<NodeId>)
      requires nodes.Valid() && Forest(nodes.Rows())
      modifies nodes
      ensures nodes.Valid() && nodes.Rows() == old(nodes.Rows())
      ensures nodes.Tombs() == RefreshUp(nodes.Rows(), old(nodes.Tombs()), Elems(starts))
      ensures changed == FlagChanges(old(nodes.Tombs()), nodes.Tombs())
    {
      ghost var m, tombs := nodes.Rows(), nodes.Tombs();
      ghost var all := m.Keys + Elems(starts);
      var stack, visited := starts, {};
      changed := {};
      SweepStarts(m, starts);
      assert nodes.Tombs() == PartlyRefreshed(m, tombs, {});
      while stack != []
        invariant nodes.Valid() && nodes.Rows() == m
        invariant Sweep(m, starts, visited, stack)
        invariant nodes.Tombs() == PartlyRefreshed(m, tombs, visited)
        invariant changed == FlagChanges(tombs, nodes.Tombs())
        decreases all - visited, |stack|
      {
        var n := stack[|stack| - 1];
        SweepPop(m, starts, visited, stack);
        stack := stack[..|stack| - 1];
        if n == ROOT || n == TRASH || n in visited { continue; }
        PartlyStep(m, tombs, visited, n);
        visited := visited + {n};
        if n !in nodes.nodes { continue; }
        var parent := nodes.nodes[n].row.parent;
        var flipped := RefreshFlag(n);
        if flipped { changed := changed + {n}; }
        if parent.Some? { stack := stack + [parent.value]; }
      }
      RefreshComplete(m, tombs, starts, visited);
    }

    /** Subtree knowledge with a memo. It reports a cycle when a node is met again below itself,
        which never happens in a forest: everything being visited lies strictly above n. */
    method SubtreeMemo(n: NodeId, cache: map<NodeId, Knowledge>, visiting: set<NodeId>)
      returns (r: Result<(Knowledge, map<NodeId, Knowledge>), LocalError>)
      requires nodes.Valid() && Forest(nodes.Rows()) && n in nodes.nodes && n != TRASH
      requires CacheRight(nodes.Rows(), cache)
      requires forall v | v in visiting :: v != n && Under(nodes.Rows(), n, v)
      ensures r.Ok? && r.value.0 == SubtreeKnowledge(nodes.Rows(), n) && CacheRight(nodes.Rows(), r.value.1)
      decreases Members(nodes.Rows(), n)
    {
      ghost var m := nodes.Rows();
      if n in cache { return Ok((cache[n], cache)); }
      if n in visiting { return Err(CycleDetected); }
      var vv, cache' := nodes.nodes[n].row.lastChange, cache;
      var children := nodes.nodes[n].children;
      for i := 0 to |children|
        invariant CacheRight(m, cache')
        invariant m[n].lastChange <= vv
        invariant forall j | 0 <= j < i :: SubtreeKnowledge(m, children[j]) <= vv
        invariant forall id | id in vv ::
          id in m[n].lastChange || exists j :: 0 <= j < i && id in SubtreeKnowledge(m, children[j])
      {
        var c := children[i];
        assert c in ChildrenOf(m, n);
        ChildMembers(m, c, n);
        VisitChild(m, n, c, visiting);
        var below := SubtreeMemo(c, cache', visiting + {n});
        vv, cache' := vv + below.value.0, below.value.1;
      }
      SubtreeUnfolds(m, n, children, vv);
      return Ok((vv, cache'[n := vv]));
    }

    /** The right flag of every deleted node, computed with one memo. */
    method DeletedFlags() returns (flags: map<NodeId, bool>)
      requires nodes.Valid() && Forest(nodes.Rows())
      ensures flags.Keys == DeletedNodes(nodes.Rows())
      ensures forall n | n in flags :: flags[n] <==> IsTomb(nodes.Rows(), n)
    {
      ghost var m := nodes.Rows();
      var todo := nodes.nodes.Keys;
      var cache: map<NodeId, Knowledge> := map[];
      flags := map[];
      while todo != {}
        invariant todo <= m.Keys && CacheRight(m, cache)
        invariant flags.Keys == DeletedNodes(m) - todo
        invariant forall n | n in flags :: flags[n] <==> IsTomb(m, n)
      {
        var n :| n in todo;
        todo := todo - {n};
        if n != ROOT && n != TRASH && nodes.nodes[n].row.deletedAt.Some? {
          var subtree := SubtreeMemo(n, cache, {});
          cache := subtree.value.1;
          flags := flags[n := subtree.value.0 <= nodes.nodes[n].row.deletedAt.value];
        }
      }
    }

    /** Recompute the flag of every deleted node; the others keep theirs. */
    method RefreshAllTombstones()
      requires nodes.Valid() && Forest(nodes.Rows())
      modifies nodes
      ensures nodes.Valid() && nodes.Rows() == old(nodes.Rows())
      ensures nodes.Tombs() == PartlyRefreshed(nodes.Rows(), old(nodes.Tombs()), nodes.Rows().Keys)
    {
      hide IsTomb, Forest;
      ghost var m, tombs := nodes.Rows(), nodes.Tombs();
      var flags := DeletedFlags();
      var left := flags.Keys;
      assert nodes.Tombs() == PartlyRefreshed(m, tombs, m.Keys - left);
      while left != {}
        invariant left <= flags.Keys
        invariant nodes.Valid() && nodes.Rows() == m
        invariant nodes.Tombs() == PartlyRefreshed(m, tombs, m.Keys - left)
      {
        var n :| n in left;
        PartlyStep(m, tombs, m.Keys - left, n);
        assert m.Keys - left + {n} == m.Keys - (left - {n});
        nodes.SetTombstone(n, flags[n]);
        left := left - {n};
      }
    }

    // ----- replay -----

    /** The part of a replay that visits the log; `records` gathers the index rows of each operation. */
    method ReplayLog(sorted: seq<Operation>) returns (records: Index)
      requires nodes.Valid()
      requires Tree() == EmptyTree(nodes.dialect) && nodes.Tombs() == {} && seen == {} && head == None && opCount == 0
      modifies this`payloads, this`lamport, this`seen, this`head, this`opCount, nodes
      ensures nodes.Valid() && Acyclic(nodes.Rows()) && nodes.Tombs() == {}
      ensures Tree() == Fold(EmptyTree(nodes.dialect), sorted)
      ensures head == R.Last(sorted) && opCount == |sorted| && seen == R.Observed(sorted)
      ensures lamport == R.Max(old(lamport), R.MaxLamport(sorted))
      ensures records == ReplayRecords(EmptyTree(nodes.dialect), sorted)
    {
      hide Semantics.ApplyForward, Fold, ReplayRecords, R.Observed, R.MaxLamport, Forest, Acyclic;
      FoldAcyclic(nodes.dialect, []);
      ghost var t0 := EmptyTree(nodes.dialect);
      records := {};
      ReplayNothing(t0, sorted);
      for i := 0 to |sorted|
        invariant nodes.Valid() && Acyclic(nodes.Rows()) && nodes.Tombs() == {}
        invariant Tree() == Fold(t0, sorted[..i]) && records == ReplayRecords(t0, sorted[..i])
        invariant head == R.Last(sorted[..i]) && opCount == i && seen == R.Observed(sorted[..i])
        invariant lamport == R.Max(old(lamport), R.MaxLamport(sorted[..i]))
      {
        var op := sorted[i];
        ReplayNext(t0, sorted, i);
        lamport := R.Max(lamport, op.lamport);
        seen := seen + OwnKnowledge(op);
        var before := ApplyForward(op);
        records := records + OpRecords(before.parent, op);
        opCount := opCount + 1;
        head := Some(op);
      }
      assert sorted[..|sorted|] == sorted;
    }

    method ReplayFromStorage() returns (records: Index)
      requires Usable()
      modifies this, nodes
      ensures Usable() && State() == R.Replay(old(State())) && nodes.Tombs() == {}
      ensures AllWellFormed(log.ops) ==> Valid()
      ensures records == ReplayRecords(EmptyTree(nodes.dialect), SortLog(R.SinceZero(log.ops)))
    {
      hide Semantics.ApplyForward;
      seen, payloads, head, opCount := {}, map[], None, 0;
      nodes.Reset();
      var sorted := log.Scan();
      records := ReplayLog(sorted);
      if AllWellFormed(log.ops) {
        ScanWellFormed(log.ops);
        FoldForest(nodes.dialect, sorted);
      }
      // `version_vector.get(&replica_id)`; see Replicas.LargestObserved.
      counter := R.Max(counter, R.MaxCounter(sorted, replica));
    }

    /** The index rows of payload writers under live parents. */
    method Backfill() returns (records: Index)
      requires Forest(nodes.Rows())
      ensures records == BackfillRecords(Tree())
    {
      var todo := nodes.nodes.Keys;
      records := {};
      while todo != {}
        invariant todo <= nodes.nodes.Keys
        invariant records == set n | n in payloads && n in nodes.Rows() && n !in todo && !Reserved(n)
                                     && nodes.Rows()[n].parent.Some? && nodes.Rows()[n].parent.value != TRASH ::
                               (nodes.Rows()[n].parent.value, payloads[n].writer)
      {
        var n :| n in todo;
        var row := nodes.nodes[n].row;
        if n != ROOT && n != TRASH && row.parent.Some? && row.parent.value != TRASH && n in payloads {
          records := records + {(row.parent.value, payloads[n].writer)};
        }
        todo := todo - {n};
      }
    }

    method ReplayWithMaterialization() returns (index: Index)
      requires Valid()
      modifies this, nodes
      ensures Valid() && State() == R.Replay(old(State()))
      ensures View(Tree(), nodes.Tombs(), index) == Rebuild(nodes.dialect, SortLog(R.SinceZero(log.ops)))
    {
      var records := ReplayFromStorage();
      RefreshAllTombstones();
      assert nodes.Tombs() == AllTombs(nodes.Rows());
      var backfill := Backfill();
      index := records + backfill;
    }

    // ----- deliveries -----

    predicate IsInOrder(op: Operation)
      reads this
    {
      head.None? || KeyLess(KeyOf(head.value), KeyOf(op))
    }

    method ApplyRemote(op: Operation)
      requires Usable() && !log.noop
      modifies this, nodes, log
      ensures Usable() && State() == R.Receive(old(State()), op, false)
      ensures old(Valid()) && WellFormed(op) ==> Valid()
    {
      hide Semantics.ApplyForward, R.Replay, Forest, Acyclic, Breaks, WellFormed;
      if WellFormed(op) { WellFormedNeverBreaks(nodes.dialect, nodes.Rows(), op); }
      lamport := R.Max(lamport, op.lamport);
      seen := seen + OwnKnowledge(op);
      var inserted := log.Apply(op);
      if !inserted { return; }
      if IsInOrder(op) {
        var _ := ApplyForward(op);
        opCount := opCount + 1;
        head := Some(op);
        return;
      }
      var _ := ReplayFromStorage();
    }

    /** Reports a delta when the operation was new and in order. Under a no-op log the replay branch
        would wipe the store, so the operation must be in order. */
    method ApplyRemoteWithDelta(op: Operation) returns (delta: Option<ApplyDelta>)
      requires Usable() && (log.noop ==> IsInOrder(op))
      modifies this, nodes, log
      ensures Usable() && (old(Valid()) && WellFormed(op) ==> Valid())
      ensures !log.noop ==> State() == R.Receive(old(State()), op, true)
      ensures !log.noop ==> (delta.Some? <==> op.id !in Ids(old(log.ops)) && old(IsInOrder(op)))
      ensures log.noop ==> delta.Some? && head == Some(op) && opCount == old(opCount) + 1
      ensures delta.Some? ==> Tree() == Semantics.ApplyForward(old(Tree()), op) && nodes.Tombs() == old(nodes.Tombs())
      ensures delta.Some? ==>
        var before := SnapshotOf(old(nodes.Rows()), op.kind.node);
        delta.value == ApplyDelta(before, DirectAffected(before.parent, op.kind))
    {
      hide Semantics.ApplyForward, R.Replay, Forest, Acyclic, Breaks, WellFormed, KeyLess, DirectAffected, AllWellFormed;
      if WellFormed(op) { WellFormedNeverBreaks(nodes.dialect, nodes.Rows(), op); }
      WellFormedAppend(log.ops, op);
      lamport := R.Max(lamport, op.lamport);
      seen := seen + OwnKnowledge(op);
      if op.id.replica == replica { counter := R.Max(counter, op.id.counter); }
      var inserted := log.Apply(op);
      if !inserted { return None; }
      if IsInOrder(op) {
        var before := ApplyForward(op);
        opCount := opCount + 1;
        head := Some(op);
        return Some(ApplyDelta(before, DirectAffected(before.parent, op.kind)));
      }
      var _ := ReplayFromStorage();
      return None;
    }

    /** Deliver an operation and maintain flags and index; the delta is None for duplicates and for
        out-of-order operations. */
    method ApplyRemoteWithMaterialization(op: Operation, index: Index)
      returns (delta: Option<set<NodeId>>, index': Index)
      requires Usable() && (log.noop ==> IsInOrder(op))
      requires IsInOrder(op) ==> Forest(nodes.Rows()) && !Breaks(nodes.dialect, nodes.Rows(), op)
      modifies this, nodes, log
      ensures Usable() && (delta.Some? ==> Forest(nodes.Rows())) && (old(Valid()) && WellFormed(op) ==> Valid())
      ensures !log.noop ==> State() == R.Receive(old(State()), op, true)
      ensures !log.noop ==> (delta.Some? <==> op.id !in Ids(old(log.ops)) && old(IsInOrder(op)))
      ensures log.noop ==> delta.Some? && head == Some(op) && opCount == old(opCount) + 1
      ensures delta.Some? ==>
        var v := View(old(Tree()), old(nodes.Tombs()), index);
        View(Tree(), nodes.Tombs(), index') == Step(v, op) && delta.value == Delta(v, op)
      ensures delta.None? ==> index' == index
    {
      hide Semantics.ApplyForward, Breaks, WellFormed;
      if IsInOrder(op) { ApplyForestExactly(Tree(), op); }
      var applied := ApplyRemoteWithDelta(op);
      if applied.None? { return None, index; }
      var before := applied.value.before.parent;
      index' := index + OpRecords(before, op);
      var target := TargetParent(op.kind);
      if target.Some? && target.value != TRASH && before != target && op.kind.node in payloads {
        index' := index' + {(target.value, payloads[op.kind.node].writer)};
      }
      var starts := AffectedParentList(before, op.kind) + [op.kind.node];
      assert Elems(starts) == Elems(AffectedParentList(before, op.kind)) + {op.kind.node};
      var changed := RefreshTombstonesUpward(starts);
      delta := Some(applied.value.affected + (changed - {TRASH}));
    }

    // ----- local edits -----

    /** Children of a parent that are not hidden, in sibling order. */
    method Children(parent: NodeId) returns (visible: seq<NodeId>)
      requires nodes.Valid() && Forest(nodes.Rows())
      ensures parent != TRASH ==> IsVisibleList(nodes.Rows(), parent, visible)
      ensures parent == TRASH ==> visible == []
    {
      visible := [];
      ghost var m := nodes.Rows();
      if parent !in nodes.nodes {
        assert forall n: NodeId :: n !in ChildrenOf(m, parent);
        return;
      }
      var children := nodes.nodes[parent].children;
      for i := 0 to |children|
        invariant parent != TRASH ==> SortedSiblings(m, visible)
        invariant i == 0 ==> visible == []
        invariant forall n: NodeId :: n in visible <==> n in children[..i] && !IsTomb(m, n)
      {
        assert children[..i + 1] == children[..i] + [children[i]];
        var hidden := IsTombstoned(children[i]);
        if !hidden {
          forall j | 0 <= j < |visible| && parent != TRASH ensures SiblingLess(m, visible[j], children[i]) {
            assert visible[j] in visible;
            var k :| 0 <= k < i && children[k] == visible[j];
          }
          visible := visible + [children[i]];
        }
      }
      assert children[..|children|] == children;
    }

    /** The parent a reader sees: TRASH for a hidden node, none for one that was moved to TRASH. */
    method VisibleParent(node: NodeId) returns (p: Option<NodeId>)
      requires nodes.Valid() && Forest(nodes.Rows())
      ensures p == VisibleParentOf(nodes.Rows(), node)
      ensures p == Some(TRASH) <==> IsTomb(nodes.Rows(), node)
      ensures p != Some(TRASH) ==>
        p == if ParentOf(nodes.Rows(), node) == Some(TRASH) then None else ParentOf(nodes.Rows(), node)
    {
      var hidden := IsTombstoned(node);
      if hidden { return Some(TRASH); }
      p := nodes.Parent(node);
      if p == Some(TRASH) { p := None; }
    }

    /** A key for `node` directly after `after` among the visible children of a live parent. */
    method AllocateChildKeyAfter(parent: NodeId, node: NodeId, after: Option<NodeId>, samples: nat -> nat)
      returns (r: Result<Bytes, LocalError>)
      requires nodes.Valid() && Forest(nodes.Rows())
      ensures parent == TRASH ==> r == Ok([])
      ensures parent != TRASH ==> forall v | IsVisibleList(nodes.Rows(), parent, v) ::
        AllocationOutcome(nodes.Rows(), Without(v, node), after, r)
    {
      if parent == TRASH { return Ok([]); }
      var visible := Children(parent);
      ghost var m := nodes.Rows();
      forall v | IsVisibleList(m, parent, v) ensures v == visible { VisibleListUnique(m, parent, v, visible); }
      var children := Without(visible, node);
      forall c | c in children ensures c in m && m[c].key.Some? { WithoutIn(visible, node, c); }
      r := KeyAmong(children, after, samples);
    }

    method KeyAmong(children: seq<NodeId>, after: Option<NodeId>, samples: nat -> nat)
      returns (r: Result<Bytes, LocalError>)
      requires forall c | c in children :: c in nodes.nodes && nodes.nodes[c].row.key.Some?
      ensures AllocationOutcome(nodes.Rows(), children, after, r)
    {
      var i := 0;
      if after.Some? {
        while i < |children| && children[i] != after.value
          invariant i <= |children| && forall j :: 0 <= j < i ==> children[j] != after.value
        {
          i := i + 1;
        }
        if i == |children| { return Err(NotAChild); }
        i := i + 1;
      }
      assert DirectlyAfter(children, after, i);
      if i > 0 { assert children[i - 1] in children; }
      if i < |children| { assert children[i] in children; }
      var left := if i > 0 then nodes.nodes[children[i - 1]].row.key else None;
      var right := if i < |children| then nodes.nodes[children[i]].row.key else None;
      ghost var m := nodes.Rows();
      assert left == LeftBound(m, children, i);
      assert right == RightBound(m, children, i);
      var a := K.AllocateBetween(left, right, samples);
      if !a.Allocated? {
        assert NoKeyAt(m, children, after, i);
        return Err(NoKey);
      }
      assert AllocatedAt(m, children, after, i, a.key);
      r := Ok(a.key);
    }

    /** Persist and apply a minted operation without an order check, then refresh the flags. */
    method CommitLocal(op: Operation)
      requires Valid() && WellFormed(op) && !log.noop && op.id.replica == replica
      modifies this, nodes, log
      ensures Valid() && lamport == old(lamport) && counter == old(counter)
      ensures State() ==
        (if op.id in Ids(old(log.ops)) then old(State()).(seen := old(seen) + OwnKnowledge(op))
         else R.Extend(old(State()).(seen := old(seen) + OwnKnowledge(op)), op))
      ensures nodes.Tombs() ==
        if op.id in Ids(old(log.ops)) then old(nodes.Tombs())
        else RefreshUp(nodes.Rows(), old(nodes.Tombs()), Starts(old(nodes.Rows()), op))
    {
      hide Semantics.ApplyForward;
      seen := seen + OwnKnowledge(op);
      var inserted := log.Apply(op);
      if !inserted { return; }
      var before := ApplyForward(op);
      var starts := AffectedParentList(before.parent, op.kind) + [op.kind.node];
      assert Elems(starts) == Elems(AffectedParentList(before.parent, op.kind)) + {op.kind.node};
      var _ := RefreshTombstonesUpward(starts);
      opCount := opCount + 1;
      head := Some(op);
    }

    /** Counter and clock move before anything can fail. */
    method Tick()
      modifies this`counter, this`lamport
      ensures State() == R.Next(old(State()), R.FailedEdit)
    {
      counter := counter + 1;
      lamport := lamport + 1;
    }

    /** Build the operation of a local edit after the tick, and commit it. */
    method CommitMinted(kind: Kind, known: Option<Knowledge>, ghost before: R.Replica) returns (op: Operation)
      requires Valid() && !log.noop && R.Ready(before) && State() == R.Next(before, R.FailedEdit)
      requires WellFormed(R.Minted(before, kind, known))
      modifies this, nodes, log
      ensures Valid() && op == R.Minted(before, kind, known) && State() == R.Commit(before, kind, known)
      ensures nodes.Tombs() == RefreshUp(nodes.Rows(), old(nodes.Tombs()), Starts(old(nodes.Rows()), op))
    {
      hide Semantics.ApplyForward;
      op := Operation(OpId(replica, counter), lamport, known, kind);
      R.MintedIsNewest(before, kind, known);
      CommitLocal(op);
    }

    /** Insert a node directly after `after` among the visible children of `parent`, or first. */
    method LocalInsertAfter(parent: NodeId, node: NodeId, after: Option<NodeId>, payload: Option<Bytes>,
                            samples: nat -> nat)
      returns (r: Result<Operation, LocalError>)
      requires Valid() && R.Ready(State()) && !Reserved(node) && !log.noop
      modifies this, nodes, log
      ensures Valid()
      ensures r.Err? ==> State() == R.Next(old(State()), R.FailedEdit) && nodes.Tombs() == old(nodes.Tombs())
      ensures r.Err? ==> parent != TRASH
      ensures parent != TRASH ==> forall v | IsVisibleList(old(nodes.Rows()), parent, v) ::
        AllocationOutcome(old(nodes.Rows()), Without(v, node), after, KeyChosen(r))
      ensures r.Ok? ==> r.value.kind.Insert? && r.value.kind == Insert(parent, node, r.value.kind.key, payload)
      ensures r.Ok? ==>
        State() == R.Commit(old(State()), r.value.kind, None) && r.value == R.Minted(old(State()), r.value.kind, None)
      ensures r.Ok? ==> nodes.Tombs() == RefreshUp(nodes.Rows(), old(nodes.Tombs()), Starts(old(nodes.Rows()), r.value))
      ensures r.Ok? && parent != TRASH && parent != node && old(node !in nodes.Rows()) ==>
        PlacedAfter(old(nodes.Rows()), nodes.Rows(), parent, node, after)
      ensures r.Ok? && parent != TRASH && !Refused(old(Tree()), r.value) ==>
        PlacedAmong(old(nodes.Rows()), nodes.Rows(), r.value, after)
    {
      hide Semantics.ApplyForward;
      ghost var s0, t0 := State(), Tree();
      Tick();
      var key := AllocateChildKeyAfter(parent, node, after, samples);
      if key.Err? { return Err(key.error); }
      var op := CommitMinted(Insert(parent, node, key.value, payload), None, s0);
      assert Tree() == Semantics.ApplyForward(t0, op);
      if parent != TRASH && parent != node && node !in t0.rows {
        OutcomePlaces(t0, op, after, key);
      }
      if parent != TRASH && !Refused(t0, op) { OutcomePlacesAmong(t0, op, after, key); }
      r := Ok(op);
    }

    method LocalMoveAfter(node: NodeId, newParent: NodeId, after: Option<NodeId>, samples: nat -> nat)
      returns (r: Result<Operation, LocalError>)
      requires Valid() && R.Ready(State()) && node != TRASH && !log.noop
      modifies this, nodes, log
      ensures Valid()
      ensures r.Err? ==> State() == R.Next(old(State()), R.FailedEdit) && nodes.Tombs() == old(nodes.Tombs())
      ensures r.Err? ==> newParent != TRASH
      ensures newParent != TRASH ==> forall v | IsVisibleList(old(nodes.Rows()), newParent, v) ::
        AllocationOutcome(old(nodes.Rows()), Without(v, node), after, KeyChosen(r))
      ensures r.Ok? ==> r.value.kind.Move? && r.value.kind == Move(node, newParent, r.value.kind.key)
      ensures r.Ok? ==>
        State() == R.Commit(old(State()), r.value.kind, None) && r.value == R.Minted(old(State()), r.value.kind, None)
      ensures r.Ok? ==> nodes.Tombs() == RefreshUp(nodes.Rows(), old(nodes.Tombs()), Starts(old(nodes.Rows()), r.value))
      ensures r.Ok? && newParent != TRASH && !Refused(old(Tree()), r.value) ==>
        PlacedAmong(old(nodes.Rows()), nodes.Rows(), r.value, after)
    {
      hide Semantics.ApplyForward;
      ghost var s0, t0 := State(), Tree();
      Tick();
      var key := AllocateChildKeyAfter(newParent, node, after, samples);
      if key.Err? { return Err(key.error); }
      var op := CommitMinted(Move(node, newParent, key.value), None, s0);
      assert Tree() == Semantics.ApplyForward(t0, op);
      if newParent != TRASH && !Refused(t0, op) { OutcomePlacesAmong(t0, op, after, key); }
      r := Ok(op);
    }

    /** A local delete carries everything known about the subtree, so the node is hidden at once. */
    method LocalDelete(node: NodeId) returns (op: Operation)
      requires Valid() && R.Ready(State()) && !log.noop
      modifies this, nodes, log
      ensures Valid() && op.kind == Delete(node)
      ensures State() == R.Commit(old(State()), op.kind, op.known) && op == R.Minted(old(State()), op.kind, op.known)
      ensures nodes.Tombs() == RefreshUp(nodes.Rows(), old(nodes.Tombs()), Starts(old(nodes.Rows()), op))
      ensures op.known.Some?
      ensures !Reserved(node) ==>
        op.known == Some(SubtreeKnowledge(old(nodes.Rows()), node)) && IsTomb(nodes.Rows(), node)
    {
      hide Semantics.ApplyForward;
      ghost var s0, t0 := State(), Tree();
      Tick();
      var known := nodes.SubtreeVersionVector(node);
      op := CommitMinted(Delete(node), Some(known), s0);
      assert Tree() == Semantics.ApplyForward(t0, op);
      if !Reserved(node) { KnowingDeleteHides(t0, op); }
    }

    method LocalSetPayload(node: NodeId, content: Option<Bytes>) returns (op: Operation)
      requires Valid() && R.Ready(State()) && !log.noop
      modifies this, nodes, log
      ensures Valid() && op.kind == SetPayload(node, content)
      ensures State() == R.Commit(old(State()), op.kind, None) && op == R.Minted(old(State()), op.kind, None)
      ensures nodes.Tombs() == RefreshUp(nodes.Rows(), old(nodes.Tombs()), Starts(old(nodes.Rows()), op))
      ensures node in payloads && payloads[node] == Payload(content, op.lamport, op.id)
    {
      hide Semantics.ApplyForward;
      ghost var s0, t0 := State(), Tree();
      Tick();
      op := CommitMinted(SetPayload(node, content), None, s0);
      assert Tree() == Semantics.ApplyForward(t0, op);
      ApplyPayloads(t0, op);
    }
  }

  ghost function VisibleParentOf(m: Rows, n: NodeId): Option<NodeId> {
    if IsTomb(m, n) then Some(TRASH)
    else if ParentOf(m, n) == Some(TRASH) then None else ParentOf(m, n)
  }

  /** Visible parents and visible lists agree: a reader finds n among the children of a live p exactly
      when p is n's visible parent. */
  lemma VisibleParentLists(m: Rows, p: NodeId, v: seq<NodeId>, n: NodeId)
    requires IsVisibleList(m, p, v) && p != TRASH
    ensures n in v <==> VisibleParentOf(m, n) == Some(p)
  {
    hide SortedSiblings, SubtreeKnowledge;
  }

  datatype LocalError = NotAChild | NoKey | CycleDetected

  /** The key of the minted operation, or the error. */
  function KeyChosen(r: Result<Operation, LocalError>): Result<Bytes, LocalError> {
    if r.Err? then Err(r.error)
    else match r.value.kind
      case Insert(_, _, key, _) => Ok(key)
      case Move(_, _, key) => Ok(key)
      case _ => Ok([])
  }

  /** What key allocation for position "after" among siblings v may answer. */
  ghost predicate AllocationOutcome(m: Rows, v: seq<NodeId>, after: Option<NodeId>, r: Result<Bytes, LocalError>) {
    && (r == Err(NotAChild) <==> after.Some? && after.value !in v)
    && (r.Ok? ==> exists i: nat :: AllocatedAt(m, v, after, i, r.value))
    && (r.Err? ==> r.error == NotAChild || r.error == NoKey)
    && (r == Err(NoKey) ==> exists i: nat :: NoKeyAt(m, v, after, i))
  }

  ghost predicate NoKeyAt(m: Rows, v: seq<NodeId>, after: Option<NodeId>, i: nat) {
    DirectlyAfter(v, after, i) && K.CannotAllocate(LeftBound(m, v, i), RightBound(m, v, i))
  }

  ghost predicate AllocatedAt(m: Rows, v: seq<NodeId>, after: Option<NodeId>, i: nat, key: Bytes) {
    && DirectlyAfter(v, after, i) && !K.CannotAllocate(LeftBound(m, v, i), RightBound(m, v, i))
    && (K.WellFormedBound(LeftBound(m, v, i)) && K.WellFormedBound(RightBound(m, v, i)) ==>
          K.AllocatedFrom(LeftBound(m, v, i), RightBound(m, v, i), key))
  }

  /** The node appears in the visible child list directly after `after`, the rest unchanged, and the
      visible keys stay well formed and increasing. */
  ghost predicate PlacedAfter(m: Rows, m': Rows, parent: NodeId, node: NodeId, after: Option<NodeId>) {
    forall v | IsVisibleList(m, parent, v) && GoodKeys(m, v) ::
      exists i: nat :: DirectlyAfter(v, after, i) && IsVisibleList(m', parent, Inserted(v, i, node))
                       && GoodKeys(m', Inserted(v, i, node))
  }

  lemma OutcomePlaces(t: Semantics.Tree, op: Operation, after: Option<NodeId>, r: Result<Bytes, LocalError>)
    requires Forest(t.rows) && WellFormed(op) && op.kind.Insert? && op.kind.node !in t.rows
    requires op.kind.parent != TRASH && op.kind.parent != op.kind.node && r == Ok(op.kind.key)
    requires forall v | IsVisibleList(t.rows, op.kind.parent, v) ::
      AllocationOutcome(t.rows, Without(v, op.kind.node), after, r)
    ensures PlacedAfter(t.rows, Semantics.ApplyForward(t, op).rows, op.kind.parent, op.kind.node, after)
  {
    hide Semantics.ApplyForward;
    var m, m', p, n := t.rows, Semantics.ApplyForward(t, op).rows, op.kind.parent, op.kind.node;
    forall v | IsVisibleList(m, p, v) && GoodKeys(m, v)
      ensures exists i: nat :: DirectlyAfter(v, after, i) && IsVisibleList(m', p, Inserted(v, i, n))
                               && GoodKeys(m', Inserted(v, i, n))
    {
      assert AllocationOutcome(m, Without(v, n), after, r);
      assert n !in v;
      WithoutAbsent(v, n);
      var i: nat :| AllocatedAt(m, v, after, i, op.kind.key);
      InsertPlacement(t, op, v, i);
    }
  }

  /** Among the siblings w that were visible the node sits directly after `after`, and that is the whole
      visible list exactly when the tree before the operation says so. */
  ghost predicate PlacedAt(m: Rows, m': Rows, op: Operation, after: Option<NodeId>, w: seq<NodeId>, i: nat) {
    && TargetParent(op.kind).Some? && DirectlyAfter(w, after, i)
    && var u, p := Inserted(w, i, op.kind.node), TargetParent(op.kind).value;
       && GoodKeys(m', u) && SortedSiblings(m', u) && (forall c | c in u :: c in ChildrenOf(m', p))
       && (IsVisibleList(m', p, u) <==> Undisturbed(m, op))
  }

  ghost predicate PlacedAmong(m: Rows, m': Rows, op: Operation, after: Option<NodeId>) {
    TargetParent(op.kind).Some? &&
    forall v | IsVisibleList(m, TargetParent(op.kind).value, v) && GoodKeys(m, Without(v, op.kind.node)) ::
      exists i: nat :: PlacedAt(m, m', op, after, Without(v, op.kind.node), i)
  }

  lemma OutcomePlacesAmong(t: Semantics.Tree, op: Operation, after: Option<NodeId>, r: Result<Bytes, LocalError>)
    requires Forest(t.rows) && Links(t, op) && r == Ok(op.kind.key)
    requires forall v | IsVisibleList(t.rows, TargetParent(op.kind).value, v) ::
      AllocationOutcome(t.rows, Without(v, op.kind.node), after, r)
    ensures PlacedAmong(t.rows, Semantics.ApplyForward(t, op).rows, op, after)
  {
    hide Semantics.ApplyForward, Refused, Undisturbed, GoodKeys, Forest;
    var m, m', p, n := t.rows, Semantics.ApplyForward(t, op).rows, TargetParent(op.kind).value, op.kind.node;
    forall v | IsVisibleList(m, p, v) && GoodKeys(m, Without(v, n))
      ensures exists i: nat :: PlacedAt(m, m', op, after, Without(v, n), i)
    {
      var w := Without(v, n);
      assert AllocationOutcome(m, w, after, r);
      var i: nat :| AllocatedAt(m, w, after, i, op.kind.key);
      forall c: NodeId ensures c in w <==> c in v && c != n { WithoutIn(v, n, c); }
      GoodBounds(m, w, i);
      LinkPlacement(t, op, w, i);
      assert PlacedAt(m, m', op, after, w, i);
    }
  }

  lemma GoodBounds(m: Rows, v: seq<NodeId>, i: nat)
    requires GoodKeys(m, v) && i <= |v|
    ensures K.WellFormedBound(LeftBound(m, v, i)) && K.WellFormedBound(RightBound(m, v, i))
  {
  }

  lemma VisitChild(m: Rows, n: NodeId, c: NodeId, visiting: set<NodeId>)
    requires Forest(m) && Up(m, c) == Some(n)
    requires forall v | v in visiting :: v != n && Under(m, n, v)
    ensures forall v | v in visiting + {n} :: v != c && Under(m, c, v)
  {
    UnderSelf(m, n);
    UnderStep(m, c, n);
    assert Grounded(m, c);
    ParentDepth(m, c);
    forall v | v in visiting + {n} ensures v != c && Under(m, c, v) {
      if v != n {
        UnderTrans(m, c, n, v);
        UnderGrounded(m, n, v);
      }
    }
  }

  lemma ReplayNothing(start: Semantics.Tree, ops: seq<Operation>)
    ensures Fold(start, ops[..0]) == start && ReplayRecords(start, ops[..0]) == {}
    ensures R.Observed(ops[..0]) == {} && R.MaxLamport(ops[..0]) == 0 && R.Last(ops[..0]) == None
  {
  }

  /** What one more operation of the log adds to each accumulator of a replay. */
  lemma ReplayNext(start: Semantics.Tree, ops: seq<Operation>, i: nat)
    requires i < |ops|
    ensures
      var done, now, op := ops[..i], ops[..i + 1], ops[i];
      && Fold(start, now) == Semantics.ApplyForward(Fold(start, done), op)
      && ReplayRecords(start, now) ==
         ReplayRecords(start, done) + OpRecords(ParentOf(Fold(start, done).rows, op.kind.node), op)
      && R.Observed(now) == R.Observed(done) + OwnKnowledge(op)
      && R.MaxLamport(now) == R.Max(R.MaxLamport(done), op.lamport) && R.Last(now) == Some(op)
  {
    hide Semantics.ApplyForward, R.Observed;
    assert ops[..i + 1] == ops[..i] + [ops[i]];
    assert ops[..i + 1][..i] == ops[..i];
    R.ObservedAppend(ops[..i], ops[i]);
  }

  lemma ScanWellFormed(log: seq<Operation>)
    requires AllWellFormed(log)
    ensures AllWellFormed(SortLog(R.SinceZero(log)))
  {
    R.SinceZeroAll(log);
    SortLogElems(log);
    forall op | op in SortLog(log) ensures WellFormed(op) { assert op in Elems(log); }
  }

  lemma WellFormedAppend(log: seq<Operation>, op: Operation)
    ensures AllWellFormed(log) && WellFormed(op) ==> AllWellFormed(log + [op])
  {
  }

  ghost function DeletedNodes(m: Rows): set<NodeId> {
    set n | n in m && m[n].deletedAt.Some?
  }

  /** The flags with that of n recomputed. */
  ghost function Reflagged(m: Rows, tombs: set<NodeId>, n: NodeId): set<NodeId> {
    if n !in m || m[n].deletedAt.None? then tombs
    else if IsTomb(m, n) then tombs + {n} else tombs - {n}
  }

  lemma PartlyStep(m: Rows, tombs: set<NodeId>, visited: set<NodeId>, n: NodeId)
    requires n !in visited
    ensures PartlyRefreshed(m, tombs, visited + {n}) == Reflagged(m, PartlyRefreshed(m, tombs, visited), n)
    ensures FlagChanges(tombs, PartlyRefreshed(m, tombs, visited + {n})) ==
            FlagChanges(tombs, PartlyRefreshed(m, tombs, visited)) +
            (if PartlyRefreshed(m, tombs, visited + {n}) != PartlyRefreshed(m, tombs, visited) then {n} else {})
  {
    var a, b := PartlyRefreshed(m, tombs, visited), PartlyRefreshed(m, tombs, visited + {n});
    assert forall x | x != n :: x in a <==> x in b;
    if a != b {
      assert n in a <==> n !in b;
      assert n in a <==> n in tombs;
    }
  }

  /** Progress of the upward sweep: what was visited is reached from a start, and whatever a start
      or a visited node leads to is visited, waiting, or reserved. */
  ghost predicate Sweep(m: Rows, starts: seq<NodeId>, visited: set<NodeId>, stack: seq<NodeId>) {
    && (forall v | v in visited :: !Reserved(v) && Reached(m, starts, v))
    && (forall n | n in stack :: Reached(m, starts, n) && n in m.Keys + Elems(starts))
    && (forall s | s in starts :: Handled(visited, stack, s))
    && (forall v | v in visited && Up(m, v).Some? :: Handled(visited, stack, Up(m, v).value))
  }

  lemma SweepStarts(m: Rows, starts: seq<NodeId>)
    ensures Sweep(m, starts, {}, starts)
  {
    forall s | s in starts ensures Reached(m, starts, s) { UnderSelf(m, s); }
  }

  lemma SweepPop(m: Rows, starts: seq<NodeId>, visited: set<NodeId>, stack: seq<NodeId>)
    requires Forest(m) && Sweep(m, starts, visited, stack) && stack != []
    ensures
      var n, rest := stack[|stack| - 1], stack[..|stack| - 1];
      && n in m.Keys + Elems(starts)
      && (Reserved(n) || n in visited ==> Sweep(m, starts, visited, rest))
      && (!Reserved(n) && n !in visited ==>
            Sweep(m, starts, visited + {n}, if ParentOf(m, n).Some? then rest + [ParentOf(m, n).value] else rest))
  {
    var n, rest := stack[|stack| - 1], stack[..|stack| - 1];
    assert stack == rest + [n];
    assert n in stack;
    if ParentOf(m, n).Some? { ReachedUp(m, starts, n); }
  }

  lemma ReachedUp(m: Rows, starts: seq<NodeId>, n: NodeId)
    requires Forest(m) && Reached(m, starts, n) && ParentOf(m, n).Some?
    ensures Reached(m, starts, ParentOf(m, n).value)
  {
    var s :| s in starts && Under(m, s, n);
    UnderSelf(m, ParentOf(m, n).value);
    UnderStep(m, n, ParentOf(m, n).value);
    UnderTrans(m, s, n, ParentOf(m, n).value);
  }

  // ----- convergence of engines -----

  /** Two engines at the end of runs that offered the same operations agree on the tree and on the
      maintained child list of every node. */
  lemma EnginesConverge(a: TreeCrdt, ra: R.Replica, ea: seq<R.Event>, b: TreeCrdt, rb: R.Replica, eb: seq<R.Event>)
    requires a.Usable() && b.Usable() && a.State() == R.Run(ra, ea) && b.State() == R.Run(rb, eb)
    requires R.Inv(ra) && R.Inv(rb) && ra.tree.dialect == rb.tree.dialect && R.AllowedRun(ra, ea)
    requires R.AllowedRun(rb, eb)
    requires R.Offered(ra, ea) == R.Offered(rb, eb) && R.ConsistentIds(R.Offered(ra, ea))
    ensures a.Tree() == b.Tree() && a.head == b.head && a.seen == b.seen
    ensures a.nodes.nodes.Keys == b.nodes.nodes.Keys
    ensures forall p | p in a.nodes.nodes :: a.nodes.nodes[p].children == b.nodes.nodes[p].children
  {
    hide R.Run, R.Offered, R.AllowedRun, R.Inv, Acyclic, R.ConsistentIds;
    R.Convergence(ra, ea, rb, eb);
    var m, n := a.nodes.nodes, b.nodes.nodes;
    assert RowsOf(m) == RowsOf(n);
    assert m.Keys == RowsOf(m).Keys && n.Keys == RowsOf(n).Keys;
    forall p | p in m ensures p in n && m[p].children == n[p].children { SameRowsSameLists(m, n, p); }
  }
}
