/** Operations, their canonical order, and logs sorted by that order. */
module Operations {
  import opened Basics

  type NodeId = nat

  const ROOT: NodeId := 0
  const TRASH: NodeId := 0xFFFF_FFFF_FFFF_FFFF_FFFF_FFFF_FFFF_FFFF

  predicate Reserved(n: NodeId) {
    n == ROOT || n == TRASH
  }

  datatype OpId = OpId(replica: Bytes, counter: nat)

  /** What a gap-aware version vector denotes: the operation ids it has observed. */
  type Knowledge = set<OpId>

  datatype Kind =
    | Insert(parent: NodeId, node: NodeId, key: Bytes, payload: Option<Bytes>)
    | Move(node: NodeId, newParent: NodeId, key: Bytes)
    | Delete(node: NodeId)
    | Tombstone(node: NodeId)
    | SetPayload(node: NodeId, content: Option<Bytes>)

  datatype Operation = Operation(id: OpId, lamport: nat, known: Option<Knowledge>, kind: Kind)

  /** Counter 0 is never observed by a version vector. */
  function OwnKnowledge(op: Operation): Knowledge {
    if op.id.counter == 0 then {} else {op.id}
  }

  function OpKnowledge(op: Operation): Knowledge {
    OwnKnowledge(op) + (if op.known.Some? then op.known.value else {})
  }

  /** What an operation knows: itself, unless its counter is 0, and the state it carries. */
  lemma KnowledgeExactly(op: Operation, id: OpId)
    ensures id in OpKnowledge(op) <==> (id == op.id && id.counter > 0) || (op.known.Some? && id in op.known.value)
  {
  }

  /** Operations that are replayed (replay scans lamport > 0 only) and never link a reserved node,
      whatever tree they meet (a move of ROOT is refused by the engine itself). */
  predicate WellFormed(op: Operation) {
    && op.lamport > 0
    && (op.kind.Insert? ==> !Reserved(op.kind.node))
    && (op.kind.Move? ==> op.kind.node != TRASH)
  }

  // ----- canonical order -----

  datatype OpKey = OpKey(lamport: nat, replica: Bytes, counter: nat)

  function KeyOf(op: Operation): OpKey {
    OpKey(op.lamport, op.id.replica, op.id.counter)
  }

  predicate KeyLess(a: OpKey, b: OpKey) {
    || a.lamport < b.lamport
    || (a.lamport == b.lamport &&
        (LexLess(a.replica, b.replica) || (a.replica == b.replica && a.counter < b.counter)))
  }

  /** Lamports decide; among equal ones the replica bytes, whatever the counters; then the counters. */
  lemma KeyOrder(a: OpKey, b: OpKey)
    ensures a.lamport != b.lamport ==> (KeyLess(a, b) <==> a.lamport < b.lamport)
    ensures a.lamport == b.lamport && a.replica != b.replica ==> (KeyLess(a, b) <==> LexLess(a.replica, b.replica))
    ensures a.lamport == b.lamport && a.replica == b.replica ==> (KeyLess(a, b) <==> a.counter < b.counter)
  {
    LexIrreflexive(a.replica);
  }

  lemma KeyIrreflexive(a: OpKey)
    ensures !KeyLess(a, a)
  {
    LexIrreflexive(a.replica);
  }

  lemma KeyTransitive(a: OpKey, b: OpKey, c: OpKey)
    requires KeyLess(a, b) && KeyLess(b, c)
    ensures KeyLess(a, c)
  {
    if LexLess(a.replica, b.replica) && LexLess(b.replica, c.replica) {
      LexTransitive(a.replica, b.replica, c.replica);
    }
  }

  lemma KeyTotal(a: OpKey, b: OpKey)
    ensures KeyLess(a, b) || a == b || KeyLess(b, a)
  {
    LexTotal(a.replica, b.replica);
  }

  lemma KeyAsymmetric(a: OpKey, b: OpKey)
    requires KeyLess(a, b)
    ensures a != b && !KeyLess(b, a)
  {
    KeyIrreflexive(a);
    if KeyLess(b, a) { KeyTransitive(a, b, a); }
  }

  // ----- logs -----

  ghost predicate Sorted(s: seq<Operation>) {
    forall i, j :: 0 <= i < j < |s| ==> KeyLess(KeyOf(s[i]), KeyOf(s[j]))
  }

  ghost predicate DistinctIds(s: seq<Operation>) {
    forall i, j :: 0 <= i < j < |s| ==> s[i].id != s[j].id
  }

  function Elems<T>(s: seq<T>): set<T> {
    set x | x in s
  }

  function Ids(s: seq<Operation>): set<OpId> {
    set op | op in s :: op.id
  }

  ghost predicate AllWellFormed(s: seq<Operation>) {
    forall op | op in s :: WellFormed(op)
  }

  /** One operation placed into a sorted log. */
  function InsertSorted(s: seq<Operation>, op: Operation): seq<Operation> {
    if s == [] || !KeyLess(KeyOf(op), KeyOf(s[|s| - 1])) then s + [op]
    else InsertSorted(s[..|s| - 1], op) + [s[|s| - 1]]
  }

  /** The log in canonical order, as `scan_since` visits it. */
  function SortLog(log: seq<Operation>): seq<Operation> {
    if log == [] then [] else InsertSorted(SortLog(log[..|log| - 1]), log[|log| - 1])
  }

  lemma {:induction false} InsertSortedElems(s: seq<Operation>, op: Operation)
    ensures multiset(InsertSorted(s, op)) == multiset(s) + multiset{op}
    ensures |InsertSorted(s, op)| == |s| + 1
  {
    if s != [] && KeyLess(KeyOf(op), KeyOf(s[|s| - 1])) {
      InsertSortedElems(s[..|s| - 1], op);
      assert s == s[..|s| - 1] + [s[|s| - 1]];
    }
  }

  lemma MultisetElems<T>(s: seq<T>, t: seq<T>)
    requires multiset(s) == multiset(t)
    ensures Elems(s) == Elems(t) && |s| == |t|
  {
    forall x ensures x in s <==> x in t {
      assert x in s <==> x in multiset(s);
      assert x in t <==> x in multiset(t);
    }
    assert |multiset(s)| == |s| && |multiset(t)| == |t|;
  }

  lemma {:induction false} SortLogElems(log: seq<Operation>)
    ensures multiset(SortLog(log)) == multiset(log)
    ensures Elems(SortLog(log)) == Elems(log) && |SortLog(log)| == |log|
  {
    if log != [] {
      SortLogElems(log[..|log| - 1]);
      InsertSortedElems(SortLog(log[..|log| - 1]), log[|log| - 1]);
      assert log == log[..|log| - 1] + [log[|log| - 1]];
    }
    MultisetElems(SortLog(log), log);
  }

  lemma {:induction false} InsertSortedSorted(s: seq<Operation>, op: Operation)
    requires Sorted(s)
    requires forall x | x in s :: KeyOf(x) != KeyOf(op)
    ensures Sorted(InsertSorted(s, op))
  {
    if s != [] {
      var last := s[|s| - 1];
      KeyTotal(KeyOf(op), KeyOf(last));
      if KeyLess(KeyOf(op), KeyOf(last)) {
        var front := s[..|s| - 1];
        InsertSortedSorted(front, op);
        InsertSortedElems(front, op);
        var r := InsertSorted(front, op);
        forall i | 0 <= i < |r| ensures KeyLess(KeyOf(r[i]), KeyOf(last)) {
          assert r[i] in multiset(r);
          assert r[i] == op || r[i] in front;
        }
      } else {
        forall i | 0 <= i < |s| ensures KeyLess(KeyOf(s[i]), KeyOf(op)) {
          if i < |s| - 1 { KeyTransitive(KeyOf(s[i]), KeyOf(last), KeyOf(op)); }
        }
      }
    }
  }

  lemma {:induction false} SortLogSorted(log: seq<Operation>)
    requires DistinctIds(log)
    ensures Sorted(SortLog(log))
  {
    if log != [] {
      var front, op := log[..|log| - 1], log[|log| - 1];
      SortLogSorted(front);
      SortLogElems(front);
      forall x | x in SortLog(front) ensures KeyOf(x) != KeyOf(op) {
        assert x in Elems(front);
        var i :| 0 <= i < |front| && front[i] == x;
        assert log[i].id != log[|log| - 1].id;
      }
      InsertSortedSorted(SortLog(front), op);
    }
  }

  /** A sorted log is determined by the set of its operations. */
  lemma {:induction false} SortedUnique(s: seq<Operation>, t: seq<Operation>)
    requires Sorted(s) && Sorted(t) && Elems(s) == Elems(t)
    ensures s == t
  {
    if s != [] { assert s[0] in Elems(s); }
    if t != [] { assert t[0] in Elems(t); }
    if s != [] && t != [] {
      var x, y := s[|s| - 1], t[|t| - 1];
      LastIsLargest(s, y, t);
      LastIsLargest(t, x, s);
      if KeyLess(KeyOf(x), KeyOf(y)) { KeyAsymmetric(KeyOf(x), KeyOf(y)); }
      SameKeySameOp(s, x, y);
      DropLast(s); DropLast(t);
      SortedUnique(s[..|s| - 1], t[..|t| - 1]);
      assert s == s[..|s| - 1] + [x] && t == t[..|t| - 1] + [y];
    }
  }

  lemma LastIsLargest(s: seq<Operation>, y: Operation, t: seq<Operation>)
    requires Sorted(s) && s != [] && y in t && Elems(s) == Elems(t)
    ensures y in s && (y == s[|s| - 1] || KeyLess(KeyOf(y), KeyOf(s[|s| - 1])))
  {
    assert y in Elems(t);
  }

  lemma SameKeySameOp(s: seq<Operation>, x: Operation, y: Operation)
    requires Sorted(s) && x in s && y in s && KeyOf(x) == KeyOf(y)
    ensures x == y
  {
    KeyIrreflexive(KeyOf(x));
  }

  lemma DropLast(s: seq<Operation>)
    requires Sorted(s) && s != []
    ensures Sorted(s[..|s| - 1]) && Elems(s[..|s| - 1]) == Elems(s) - {s[|s| - 1]}
  {
    var last := s[|s| - 1];
    KeyIrreflexive(KeyOf(last));
    forall i | 0 <= i < |s| - 1 ensures s[i] != last { }
    assert s == s[..|s| - 1] + [last];
  }

  /** An operation newer than the head goes to the end of the sorted log. */
  lemma SortLogInOrder(log: seq<Operation>, op: Operation)
    requires SortLog(log) == [] || KeyLess(KeyOf(SortLog(log)[|SortLog(log)| - 1]), KeyOf(op))
    ensures SortLog(log + [op]) == SortLog(log) + [op]
  {
    assert (log + [op])[..|log|] == log;
    var s := SortLog(log);
    if s != [] { KeyAsymmetric(KeyOf(s[|s| - 1]), KeyOf(op)); }
  }

  /** Logs with equal sets of operations have the same canonical order. */
  lemma SameOpsSameOrder(a: seq<Operation>, b: seq<Operation>)
    requires DistinctIds(a) && DistinctIds(b) && Elems(a) == Elems(b)
    ensures SortLog(a) == SortLog(b)
  {
    SortLogSorted(a); SortLogSorted(b);
    SortLogElems(a); SortLogElems(b);
    SortedUnique(SortLog(a), SortLog(b));
  }
}
