/** A replica as a state machine over deliveries and local edits, and convergence of its runs. */
module Replicas {
  import opened Basics
  import opened Operations
  import opened NodeRows
  import opened Semantics

  /** The fields of `TreeCrdt` other than the cached tombstone flags. `log` is in arrival order. */
  datatype Replica = Replica(
    id: Bytes, log: seq<Operation>, tree: Tree, lamport: nat, counter: nat,
    head: Option<Operation>, opCount: nat, seen: Knowledge)

  function Fresh(id: Bytes, d: Dialect): Replica {
    Replica(id, [], EmptyTree(d), 0, 0, None, 0, {})
  }

  function Max(a: nat, b: nat): nat {
    if a < b then b else a
  }

  predicate InOrder(head: Option<Operation>, op: Operation) {
    head.None? || KeyLess(KeyOf(head.value), KeyOf(op))
  }

  function Last(s: seq<Operation>): Option<Operation> {
    if s == [] then None else Some(s[|s| - 1])
  }

  /** `load_since(0)`: lamport 0 is never scanned. */
  function SinceZero(log: seq<Operation>): seq<Operation> {
    if log == [] then []
    else
      var front, op := SinceZero(log[..|log| - 1]), log[|log| - 1];
      if op.lamport > 0 then front + [op] else front
  }

  function MaxLamport(s: seq<Operation>): nat {
    if s == [] then 0 else Max(MaxLamport(s[..|s| - 1]), s[|s| - 1].lamport)
  }

  function MaxCounter(s: seq<Operation>, id: Bytes): nat {
    if s == [] then 0
    else
      var op := s[|s| - 1];
      Max(MaxCounter(s[..|s| - 1], id), if op.id.replica == id then op.id.counter else 0)
  }

  function Observed(s: seq<Operation>): Knowledge {
    set op | op in s && op.id.counter > 0 :: op.id
  }

  // ----- steps -----

  /** `replay_from_storage` */
  ghost function Replay(r: Replica): Replica {
    var s := SortLog(SinceZero(r.log));
    r.(tree := Fold(EmptyTree(r.tree.dialect), s), head := Last(s), opCount := |s|, seen := Observed(s),
       lamport := Max(r.lamport, MaxLamport(s)), counter := Max(r.counter, MaxCounter(s, r.id)))
  }

  /** An operation newer than the head is applied to the tree as it stands. */
  ghost function Extend(r: Replica, op: Operation): Replica {
    r.(log := r.log + [op], tree := ApplyForward(r.tree, op), head := Some(op), opCount := r.opCount + 1)
  }

  /** `apply_remote`, and with `raise` `apply_remote_with_delta`. */
  ghost function Receive(r: Replica, op: Operation, raise: bool): Replica {
    var r1 := Note(r, op, raise);
    if op.id in Ids(r.log) then r1
    else if InOrder(r.head, op) then Extend(r1, op)
    else Replay(r1.(log := r.log + [op]))
  }

  /** The operation a local edit mints. */
  function Minted(r: Replica, kind: Kind, known: Option<Knowledge>): Operation {
    Operation(OpId(r.id, r.counter + 1), r.lamport + 1, known, kind)
  }

  /** `commit_local`: no order check. */
  ghost function Commit(r: Replica, kind: Kind, known: Option<Knowledge>): Replica {
    var op := Minted(r, kind, known);
    var r1 := r.(lamport := r.lamport + 1, counter := r.counter + 1, seen := r.seen + OwnKnowledge(op));
    if op.id in Ids(r.log) then r1 else Extend(r1, op)
  }

  datatype Event =
    | Deliver(op: Operation)
    | DeliverWithDelta(op: Operation)
    | Edit(kind: Kind, known: Option<Knowledge>)
    | FailedEdit   // key allocation failed after counter and clock had moved
    | Reopen       // replay from storage

  ghost function Next(r: Replica, e: Event): Replica {
    match e
    case Deliver(op) => Receive(r, op, false)
    case DeliverWithDelta(op) => Receive(r, op, true)
    case Edit(kind, known) => Commit(r, kind, known)
    case FailedEdit => r.(lamport := r.lamport + 1, counter := r.counter + 1)
    case Reopen => Replay(r)
  }

  ghost function Run(r: Replica, events: seq<Event>): Replica {
    if events == [] then r else Next(Run(r, events[..|events| - 1]), events[|events| - 1])
  }

  /** An operation of our own replica may use the in-order path of `apply_remote`, which does not
      raise the counter, only when the counter already covers it. */
  ghost predicate Deliverable(r: Replica, op: Operation) {
    op.id.replica == r.id && op.id !in Ids(r.log) && InOrder(r.head, op) ==> op.id.counter <= r.counter
  }

  ghost predicate Allowed(r: Replica, e: Event) {
    match e
    case Deliver(op) => op.lamport > 0 && Deliverable(r, op)
    case DeliverWithDelta(op) => op.lamport > 0
    case _ => true
  }

  ghost predicate AllowedRun(r: Replica, events: seq<Event>) {
    events == [] ||
    (AllowedRun(r, events[..|events| - 1]) && Allowed(Run(r, events[..|events| - 1]), events[|events| - 1]))
  }

  // ----- the invariant -----

  ghost predicate CountersCovered(r: Replica) {
    forall op | op in r.log && op.id.replica == r.id :: op.id.counter <= r.counter
  }

  ghost predicate LamportsCovered(r: Replica) {
    forall op | op in r.log :: 0 < op.lamport <= r.lamport
  }

  /** The derived state is the fold of the log in canonical order. */
  ghost predicate Derived(r: Replica) {
    && DistinctIds(r.log)
    && r.tree == Fold(EmptyTree(r.tree.dialect), SortLog(r.log))
    && r.head == Last(SortLog(r.log))
    && r.opCount == |r.log|
  }

  ghost predicate Inv(r: Replica) {
    Derived(r) && LamportsCovered(r) && CountersCovered(r) && r.seen == Observed(r.log)
  }

  lemma {:induction false} SinceZeroAll(log: seq<Operation>)
    requires forall op | op in log :: op.lamport > 0
    ensures SinceZero(log) == log
  {
    if log != [] {
      SinceZeroAll(log[..|log| - 1]);
      assert log == log[..|log| - 1] + [log[|log| - 1]];
    }
  }

  /** Replay visits exactly the operations with a positive lamport. */
  lemma {:induction false} SinceZeroExactly(log: seq<Operation>, op: Operation)
    ensures op in SinceZero(log) <==> op in log && op.lamport > 0
  {
    if log != [] {
      SinceZeroExactly(log[..|log| - 1], op);
      assert log == log[..|log| - 1] + [log[|log| - 1]];
    }
  }

  lemma {:induction false} MaxLamportBounds(s: seq<Operation>)
    ensures forall op | op in s :: op.lamport <= MaxLamport(s)
  {
    if s != [] {
      MaxLamportBounds(s[..|s| - 1]);
      assert s == s[..|s| - 1] + [s[|s| - 1]];
    }
  }

  lemma {:induction false} MaxCounterBounds(s: seq<Operation>, id: Bytes)
    ensures forall op | op in s && op.id.replica == id :: op.id.counter <= MaxCounter(s, id)
  {
    if s != [] {
      MaxCounterBounds(s[..|s| - 1], id);
      assert s == s[..|s| - 1] + [s[|s| - 1]];
    }
  }

  /** `version_vector.get`: the largest counter observed for a replica is the largest in the log. */
  lemma {:induction false} LargestObserved(s: seq<Operation>, id: Bytes, m: nat)
    requires forall x | x in Observed(s) && x.replica == id :: x.counter <= m
    requires m > 0 ==> OpId(id, m) in Observed(s)
    ensures m == MaxCounter(s, id)
  {
    MaxCounterBounds(s, id);
    MaxCounterReached(s, id);
    if MaxCounter(s, id) > 0 { assert OpId(id, MaxCounter(s, id)) in Observed(s); }
  }

  lemma {:induction false} MaxCounterReached(s: seq<Operation>, id: Bytes)
    ensures MaxCounter(s, id) > 0 ==> exists op :: op in s && op.id == OpId(id, MaxCounter(s, id))
  {
    if s != [] {
      MaxCounterReached(s[..|s| - 1], id);
      assert s == s[..|s| - 1] + [s[|s| - 1]];
      assert s[|s| - 1] in s;
    }
  }

  lemma DistinctAppend(log: seq<Operation>, op: Operation)
    requires DistinctIds(log) && op.id !in Ids(log)
    ensures DistinctIds(log + [op])
  {
    forall i | 0 <= i < |log| ensures log[i].id != op.id { assert log[i] in log; }
  }

  lemma ObservedAppend(log: seq<Operation>, op: Operation)
    ensures Observed(log + [op]) == Observed(log) + OwnKnowledge(op)
  {
    assert forall x :: x in log + [op] <==> x in log || x == op;
  }

  lemma {:induction false} MaxLamportReached(s: seq<Operation>)
    ensures MaxLamport(s) > 0 ==> exists op :: op in s && op.lamport == MaxLamport(s)
  {
    if s != [] {
      MaxLamportReached(s[..|s| - 1]);
      assert s == s[..|s| - 1] + [s[|s| - 1]];
      assert s[|s| - 1] in s;
    }
  }

  /** Replaying a stored log establishes the invariant, whatever the derived state was. */
  lemma ReplayInv(r: Replica)
    requires DistinctIds(r.log) && forall op | op in r.log :: op.lamport > 0
    ensures Inv(Replay(r))
  {
    SinceZeroAll(r.log);
    SortLogElems(r.log);
    FoldDialect(EmptyTree(r.tree.dialect), SortLog(r.log));
    var s := SortLog(r.log);
    MaxLamportBounds(s);
    MaxCounterBounds(s, r.id);
    forall op ensures op in r.log <==> op in s { assert op in Elems(s) <==> op in Elems(r.log); }
  }

  lemma ExtendInv(r: Replica, op: Operation)
    requires Derived(r) && op.id !in Ids(r.log) && InOrder(r.head, op)
    ensures Derived(Extend(r, op))
  {
    DistinctAppend(r.log, op);
    SortLogInOrder(r.log, op);
    FoldStep(EmptyTree(r.tree.dialect), SortLog(r.log), op);
    FoldDialect(EmptyTree(r.tree.dialect), SortLog(r.log + [op]));
  }

  /** What a delivery or an edit records before the operation reaches the log. */
  ghost predicate Noted(r: Replica, op: Operation) {
    && Derived(r) && LamportsCovered(r) && CountersCovered(r) && r.seen == Observed(r.log) + OwnKnowledge(op)
    && 0 < op.lamport <= r.lamport
  }

  lemma ExtendNoted(r: Replica, op: Operation)
    requires Noted(r, op) && op.id !in Ids(r.log) && InOrder(r.head, op)
    requires op.id.replica == r.id ==> op.id.counter <= r.counter
    ensures Inv(Extend(r, op))
  {
    ExtendInv(r, op);
    ObservedAppend(r.log, op);
    var r' := Extend(r, op);
    assert r'.log == r.log + [op] && r'.seen == r.seen && r'.lamport == r.lamport && r'.counter == r.counter;
  }

  /** The replica after `clock.observe`, `version_vector.observe` and the counter update. */
  function Note(r: Replica, op: Operation, raise: bool): Replica {
    r.(lamport := Max(r.lamport, op.lamport), seen := r.seen + OwnKnowledge(op),
       counter := if raise && op.id.replica == r.id then Max(r.counter, op.id.counter) else r.counter)
  }

  lemma ReceiveInv(r: Replica, op: Operation, raise: bool)
    requires Inv(r) && op.lamport > 0 && (raise || Deliverable(r, op))
    ensures Inv(Receive(r, op, raise))
  {
    var r1 := Note(r, op, raise);
    assert Noted(r1, op);
    if op.id in Ids(r.log) {
      var same :| same in r.log && same.id == op.id;
      assert OwnKnowledge(op) <= Observed(r.log);
    } else if InOrder(r.head, op) {
      ExtendNoted(r1, op);
    } else {
      DistinctAppend(r.log, op);
      ReplayInv(r1.(log := r.log + [op]));
    }
  }

  /** What minting needs: clock and counter cover the log, and the clock covers every payload writer. */
  ghost predicate Ready(r: Replica) {
    && LamportsCovered(r) && CountersCovered(r)
    && forall n | n in r.tree.payloads :: r.tree.payloads[n].writerLamport <= r.lamport
  }

  lemma InvReady(r: Replica)
    requires Inv(r)
    ensures Ready(r)
  {
    var s := SortLog(r.log);
    SortLogElems(r.log);
    SortLogSorted(r.log);
    forall n | n in r.tree.payloads ensures r.tree.payloads[n].writerLamport <= r.lamport {
      LastWriterWins(r.tree.dialect, s, n);
      var w :| IsLastWriter(s, n, w);
      assert w in Elems(r.log);
    }
  }

  /** A minted operation's id is new and its key exceeds every logged key, so `commit_local` may
      apply it without an order check. */
  lemma MintedIsNewest(r: Replica, kind: Kind, known: Option<Knowledge>)
    requires LamportsCovered(r) && CountersCovered(r)
    ensures Minted(r, kind, known).id !in Ids(r.log)
    ensures forall op | op in r.log :: KeyLess(KeyOf(op), KeyOf(Minted(r, kind, known)))
    ensures Derived(r) ==> InOrder(r.head, Minted(r, kind, known))
  {
    SortLogElems(r.log);
    if Derived(r) && r.head.Some? { assert r.head.value in Elems(SortLog(r.log)); }
  }

  lemma CommitInv(r: Replica, kind: Kind, known: Option<Knowledge>)
    requires Inv(r)
    ensures Inv(Commit(r, kind, known))
    ensures Commit(r, kind, known).log == r.log + [Minted(r, kind, known)]
  {
    MintedIsNewest(r, kind, known);
    var op := Minted(r, kind, known);
    ExtendNoted(r.(lamport := r.lamport + 1, counter := r.counter + 1, seen := r.seen + OwnKnowledge(op)), op);
  }

  ghost predicate SameReplica(r: Replica, r': Replica) {
    r'.tree.dialect == r.tree.dialect && r'.id == r.id
  }

  lemma ReplayKeeps(r: Replica)
    ensures SameReplica(r, Replay(r))
  {
    FoldDialect(EmptyTree(r.tree.dialect), SortLog(SinceZero(r.log)));
  }

  lemma ExtendKeeps(r: Replica, op: Operation)
    ensures SameReplica(r, Extend(r, op))
  {
    ApplyKeepsNodes(r.tree, op);
  }

  lemma ReceiveKeeps(r: Replica, op: Operation, raise: bool)
    ensures SameReplica(r, Receive(r, op, raise))
  {
    var r1 := Note(r, op, raise);
    ReplayKeeps(r1.(log := r.log + [op]));
    ExtendKeeps(r1, op);
  }

  lemma NextKeeps(r: Replica, e: Event)
    ensures SameReplica(r, Next(r, e))
  {
    match e
    case Deliver(op) => ReceiveKeeps(r, op, false);
    case DeliverWithDelta(op) => ReceiveKeeps(r, op, true);
    case Edit(kind, known) =>
      var op := Minted(r, kind, known);
      ExtendKeeps(r.(lamport := r.lamport + 1, counter := r.counter + 1, seen := r.seen + OwnKnowledge(op)), op);
    case FailedEdit =>
    case Reopen => ReplayKeeps(r);
  }

  lemma NextInv(r: Replica, e: Event)
    requires Inv(r) && Allowed(r, e)
    ensures Inv(Next(r, e))
  {
    match e
    case Deliver(op) => ReceiveInv(r, op, false);
    case DeliverWithDelta(op) => ReceiveInv(r, op, true);
    case Edit(kind, known) => CommitInv(r, kind, known);
    case FailedEdit =>
    case Reopen => ReplayInv(r);
  }

  lemma {:induction false} RunInv(r: Replica, events: seq<Event>)
    requires Inv(r) && AllowedRun(r, events)
    ensures Inv(Run(r, events))
    ensures Run(r, events).tree.dialect == r.tree.dialect && Run(r, events).id == r.id
  {
    if events != [] {
      RunInv(r, events[..|events| - 1]);
      NextInv(Run(r, events[..|events| - 1]), events[|events| - 1]);
      NextKeeps(Run(r, events[..|events| - 1]), events[|events| - 1]);
    }
  }

  lemma FreshInv(id: Bytes, d: Dialect)
    ensures Inv(Fresh(id, d))
  {
  }

  /** Exactly when the in-order path of `apply_remote` keeps the counter above every own operation. */
  lemma DeliverKeepsCounters(r: Replica, op: Operation)
    requires Inv(r) && op.lamport > 0
    ensures CountersCovered(Receive(r, op, false)) <==> Deliverable(r, op)
  {
    if Deliverable(r, op) {
      ReceiveInv(r, op, false);
    } else {
      assert op in Receive(r, op, false).log;
    }
  }

  /** What goes wrong otherwise: the next local edit mints an id that is already taken, and is lost. */
  lemma UncoveredEditIsLost(r: Replica, op: Operation, kind: Kind)
    requires Inv(r) && !Deliverable(r, op) && op.id.counter == r.counter + 1
    ensures Commit(Receive(r, op, false), kind, None).log == Receive(r, op, false).log
    ensures Commit(Receive(r, op, false), kind, None).tree == Receive(r, op, false).tree
  {
    hide ApplyForward;
    assert op in Receive(r, op, false).log;
  }

  // ----- clocks -----

  function Edits(kinds: seq<Kind>): seq<Event> {
    if kinds == [] then [] else Edits(kinds[..|kinds| - 1]) + [Edit(kinds[|kinds| - 1], None)]
  }

  /** A replica numbers its own edits without gaps: counters and lamports 1, 2, 3, ... */
  lemma {:induction false} EditsAreContiguous(id: Bytes, d: Dialect, kinds: seq<Kind>)
    ensures
      var r := Run(Fresh(id, d), Edits(kinds));
      && r.id == id && r.counter == |kinds| && r.lamport == |kinds| && |r.log| == |kinds|
      && forall i | 0 <= i < |kinds| :: r.log[i] == Operation(OpId(id, i + 1), i + 1, None, kinds[i])
  {
    hide ApplyForward, EmptyTree, Commit;
    if kinds != [] {
      var front := kinds[..|kinds| - 1];
      EditsAreContiguous(id, d, front);
      var e := Edits(kinds);
      assert e[..|e| - 1] == Edits(front);
      CommitNumbers(Run(Fresh(id, d), Edits(front)), kinds[|kinds| - 1]);
    }
  }

  lemma CommitNumbers(r: Replica, kind: Kind)
    requires forall i | 0 <= i < |r.log| :: r.log[i].id.counter <= r.counter
    ensures
      var r' := Commit(r, kind, None);
      && r'.log == r.log + [Operation(OpId(r.id, r.counter + 1), r.lamport + 1, None, kind)]
      && r'.id == r.id && r'.counter == r.counter + 1 && r'.lamport == r.lamport + 1
  {
    hide ApplyForward;
    forall x | x in r.log ensures x.id != OpId(r.id, r.counter + 1) { var i :| 0 <= i < |r.log| && r.log[i] == x; }
  }

  /** Deliveries raise the clock to the largest lamport seen and the counter to the largest own one. */
  lemma {:induction false} DeliveriesRaise(r: Replica, ops: seq<Operation>)
    requires Inv(r) && forall op | op in ops :: op.lamport > 0
    ensures
      var r' := Run(r, Deliveries(ops));
      && r'.lamport == Max(r.lamport, MaxLamport(ops)) && r'.id == r.id
      && r'.counter == Max(r.counter, MaxCounter(ops, r.id))
  {
    hide ApplyForward, Inv;
    if ops != [] {
      var front, op := ops[..|ops| - 1], ops[|ops| - 1];
      assert ops == front + [op];
      DeliveriesRaise(r, front);
      DeliveriesOffer(r, front);
      var e := Deliveries(ops);
      assert e[..|e| - 1] == Deliveries(front);
      RunInv(r, Deliveries(front));
      ReceiveRaises(Run(r, Deliveries(front)), op);
    }
  }

  lemma ReceiveRaises(r: Replica, op: Operation)
    requires Inv(r) && op.lamport > 0
    ensures
      var r' := Receive(r, op, true);
      && r'.lamport == Max(r.lamport, op.lamport) && r'.id == r.id
      && r'.counter == Max(r.counter, if op.id.replica == r.id then op.id.counter else 0)
  {
    hide ApplyForward, Fold, MaxLamport, MaxCounter, SortLog, SinceZero, Observed;
    var r1 := Note(r, op, true).(log := r.log + [op]);
    assert LamportsCovered(r1) && CountersCovered(r1);
    CoveredMaxima(r1);
  }

  /** Clock and counter that cover a log need no raising by its replay. */
  lemma CoveredMaxima(r: Replica)
    requires LamportsCovered(r) && CountersCovered(r)
    ensures
      var s := SortLog(SinceZero(r.log));
      MaxLamport(s) <= r.lamport && MaxCounter(s, r.id) <= r.counter
  {
    SinceZeroAll(r.log);
    SortLogElems(r.log);
    var s := SortLog(r.log);
    MaxLamportReached(s);
    MaxCounterReached(s, r.id);
    forall x | x in s ensures x in r.log { assert x in Elems(r.log); }
  }

  // ----- convergence -----

  /** All operations a run delivers or mints. */
  ghost function Offered(r: Replica, events: seq<Event>): set<Operation> {
    if events == [] then Elems(r.log)
    else
      var front := events[..|events| - 1];
      Offered(r, front) +
      (match events[|events| - 1]
       case Deliver(op) => {op}
       case DeliverWithDelta(op) => {op}
       case Edit(kind, known) => {Minted(Run(r, front), kind, known)}
       case _ => {})
  }

  ghost predicate ConsistentIds(s: set<Operation>) {
    forall a, b | a in s && b in s && a.id == b.id :: a == b
  }

  lemma NextLog(r: Replica, e: Event, offered: set<Operation>)
    requires Inv(r) && Allowed(r, e) && Elems(r.log) == offered
    requires e.Deliver? || e.DeliverWithDelta? ==> ConsistentIds(offered + {e.op})
    ensures Elems(Next(r, e).log) == offered +
      (match e
       case Deliver(op) => {op}
       case DeliverWithDelta(op) => {op}
       case Edit(kind, known) => {Minted(r, kind, known)}
       case _ => {})
  {
    match e
    case Deliver(op) => ReceiveLog(r, op, false);
    case DeliverWithDelta(op) => ReceiveLog(r, op, true);
    case Edit(kind, known) => CommitInv(r, kind, known); ElemsAppend(r.log, Minted(r, kind, known));
    case _ =>
  }

  lemma ElemsAppend(s: seq<Operation>, op: Operation)
    ensures Elems(s + [op]) == Elems(s) + {op}
  {
  }

  lemma ReceiveLog(r: Replica, op: Operation, raise: bool)
    requires ConsistentIds(Elems(r.log) + {op})
    ensures Elems(Receive(r, op, raise).log) == Elems(r.log) + {op}
  {
    if op.id in Ids(r.log) {
      var same :| same in r.log && same.id == op.id;
      assert same in Elems(r.log) + {op} && op in Elems(r.log) + {op};
    } else {
      ElemsAppend(r.log, op);
    }
  }

  /** The log ends up holding exactly the operations offered. */
  lemma {:induction false} RunLog(r: Replica, events: seq<Event>)
    requires Inv(r) && AllowedRun(r, events) && ConsistentIds(Offered(r, events))
    ensures Elems(Run(r, events).log) == Offered(r, events)
  {
    if events != [] {
      var front, e := events[..|events| - 1], events[|events| - 1];
      assert Offered(r, front) <= Offered(r, events);
      RunLog(r, front);
      RunInv(r, front);
      if e.Deliver? || e.DeliverWithDelta? {
        assert Offered(r, front) + {e.op} <= Offered(r, events);
      }
      NextLog(Run(r, front), e, Offered(r, front));
    }
  }

  /** Strong convergence. Two replicas whose runs offer the same operations, in any order, with any
      duplicates and any split between delivered and locally minted ones, end with the same tree
      (parents, order keys, payloads, last changes, deletions), head and operation count; and that
      tree is the fold of the operations in key order. */
  lemma Convergence(r1: Replica, events1: seq<Event>, r2: Replica, events2: seq<Event>)
    requires Inv(r1) && Inv(r2) && r1.tree.dialect == r2.tree.dialect
    requires AllowedRun(r1, events1) && AllowedRun(r2, events2)
    requires Offered(r1, events1) == Offered(r2, events2) && ConsistentIds(Offered(r1, events1))
    ensures Run(r1, events1).tree == Run(r2, events2).tree
    ensures Run(r1, events1).head == Run(r2, events2).head
    ensures Run(r1, events1).opCount == Run(r2, events2).opCount
    ensures Run(r1, events1).seen == Run(r2, events2).seen
    ensures forall s | Sorted(s) && Elems(s) == Offered(r1, events1) ::
              Run(r1, events1).tree == Fold(EmptyTree(r1.tree.dialect), s)
  {
    RunInv(r1, events1); RunInv(r2, events2);
    RunLog(r1, events1); RunLog(r2, events2);
    var a, b := Run(r1, events1), Run(r2, events2);
    SameOpsSameOrder(a.log, b.log);
    SortLogElems(a.log); SortLogElems(b.log);
    forall op ensures op in a.log <==> op in b.log { assert op in Elems(a.log) <==> op in Elems(b.log); }
    SortLogSorted(a.log);
    forall s | Sorted(s) && Elems(s) == Offered(r1, events1)
      ensures a.tree == Fold(EmptyTree(r1.tree.dialect), s)
    {
      SortedUnique(s, SortLog(a.log));
    }
  }

  function Deliveries(ops: seq<Operation>): seq<Event> {
    if ops == [] then [] else Deliveries(ops[..|ops| - 1]) + [DeliverWithDelta(ops[|ops| - 1])]
  }

  lemma {:induction false} DeliveriesOffer(r: Replica, ops: seq<Operation>)
    requires forall op | op in ops :: op.lamport > 0
    ensures AllowedRun(r, Deliveries(ops)) && Offered(r, Deliveries(ops)) == Elems(r.log) + Elems(ops)
  {
    hide Run;
    if ops != [] {
      var front, op := ops[..|ops| - 1], ops[|ops| - 1];
      assert ops == front + [op];
      DeliveriesOffer(r, front);
      ElemsAppend(front, op);
      assert Deliveries(ops)[..|Deliveries(ops)| - 1] == Deliveries(front);
      assert AllowedRun(r, Deliveries(ops));
      assert Offered(r, Deliveries(ops)) == Offered(r, Deliveries(front)) + {op};
    }
  }

  /** The same deliveries in any order and with any repetitions leave a replica with the same tree. */
  lemma AnyDeliveryOrder(r: Replica, xs: seq<Operation>, ys: seq<Operation>)
    requires Inv(r) && Elems(xs) == Elems(ys) && ConsistentIds(Elems(r.log) + Elems(xs))
    requires forall op | op in Elems(xs) :: op.lamport > 0
    ensures Run(r, Deliveries(xs)).tree == Run(r, Deliveries(ys)).tree
  {
    hide Run, Inv;
    forall op | op in xs ensures op.lamport > 0 { assert op in Elems(xs); }
    forall op | op in ys ensures op.lamport > 0 { assert op in Elems(ys); }
    DeliveriesOffer(r, xs);
    DeliveriesOffer(r, ys);
    Convergence(r, Deliveries(xs), r, Deliveries(ys));
  }

  /** Last writer wins in every run: the payload of a node is that of the largest-key operation
      offered that writes it. */
  lemma PayloadOfRun(r: Replica, events: seq<Event>, node: NodeId, w: Operation)
    requires Inv(r) && AllowedRun(r, events) && ConsistentIds(Offered(r, events))
    requires w in Offered(r, events) && WritesPayload(w, node)
    requires forall v | v in Offered(r, events) && WritesPayload(v, node) :: v == w || KeyLess(KeyOf(v), KeyOf(w))
    ensures node in Run(r, events).tree.payloads
    ensures Run(r, events).tree.payloads[node] == Payload(WrittenContent(w), w.lamport, w.id)
  {
    RunInv(r, events);
    RunLog(r, events);
    var a := Run(r, events);
    var s := SortLog(a.log);
    SortLogElems(a.log);
    SortLogSorted(a.log);
    forall v ensures v in s <==> v in Offered(r, events) { assert v in Elems(s) <==> v in s; }
    LastWriterWins(a.tree.dialect, s, node);
    assert IsLastWriter(s, node, w);
  }
}
