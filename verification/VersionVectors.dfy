/** Gap-aware version vectors: interval representation against the finite sets it stands for. */
module VersionVectors {
  import opened Basics
  import opened Operations

  /** Inclusive. */
  datatype Range = Range(start: nat, end: nat)

  /** A frontier (1..=frontier observed) and inclusive ranges beyond it. */
  datatype Version = Version(frontier: nat, ranges: seq<Range>)

  const NOTHING: Version := Version(0, [])

  // ----- meaning -----

  predicate WellFormedRange(r: Range) {
    1 <= r.start <= r.end
  }

  /** A malformed range stands for nothing. */
  predicate InRange(r: Range, c: nat) {
    1 <= r.start <= c <= r.end
  }

  predicate InRanges(rs: seq<Range>, c: nat) {
    exists i :: 0 <= i < |rs| && InRange(rs[i], c)
  }

  predicate Has(v: Version, c: nat) {
    1 <= c <= v.frontier || InRanges(v.ranges, c)
  }

  function Max(a: nat, b: nat): nat {
    if a < b then b else a
  }

  function MaxEnd(rs: seq<Range>): nat {
    if rs == [] then 0 else if rs[0].end > MaxEnd(rs[1..]) then rs[0].end else MaxEnd(rs[1..])
  }

  function Bound(v: Version): nat {
    if v.frontier > MaxEnd(v.ranges) then v.frontier else MaxEnd(v.ranges)
  }

  function Counters(v: Version): set<nat> {
    set c: nat | c <= Bound(v) && Has(v, c)
  }

  lemma {:induction false} MaxEndBounds(rs: seq<Range>, i: nat)
    requires i < |rs|
    ensures rs[i].end <= MaxEnd(rs)
  {
    if i > 0 { MaxEndBounds(rs[1..], i - 1); }
  }

  lemma CountersHas(v: Version)
    ensures forall c: nat :: c in Counters(v) <==> Has(v, c)
  {
    forall c: nat | Has(v, c) ensures c <= Bound(v) {
      if InRanges(v.ranges, c) {
        var i :| 0 <= i < |v.ranges| && InRange(v.ranges[i], c);
        MaxEndBounds(v.ranges, i);
      }
    }
  }

  lemma InRangesCons(r: Range, rs: seq<Range>, c: nat)
    ensures InRanges([r] + rs, c) <==> InRange(r, c) || InRanges(rs, c)
  {
    var s := [r] + rs;
    if InRange(r, c) { assert InRange(s[0], c); }
    if InRanges(rs, c) {
      var i :| 0 <= i < |rs| && InRange(rs[i], c);
      assert InRange(s[i + 1], c);
    }
  }

  lemma InRangesConcat(a: seq<Range>, b: seq<Range>, c: nat)
    ensures InRanges(a + b, c) <==> InRanges(a, c) || InRanges(b, c)
  {
    if InRanges(a, c) {
      var i :| 0 <= i < |a| && InRange(a[i], c);
      assert InRange((a + b)[i], c);
    }
    if InRanges(b, c) {
      var i :| 0 <= i < |b| && InRange(b[i], c);
      assert InRange((a + b)[|a| + i], c);
    }
  }

  lemma NoRanges()
    ensures forall c: nat :: !InRanges([], c)
  {
  }

  lemma InRangesAppend(rs: seq<Range>, r: Range)
    ensures forall c: nat :: InRanges(rs + [r], c) <==> InRanges(rs, c) || InRange(r, c)
  {
    forall c: nat ensures InRanges(rs + [r], c) <==> InRanges(rs, c) || InRange(r, c) {
      InRangesConcat(rs, [r], c);
      InRangesCons(r, [], c);
    }
  }

  lemma InRangesPermuted(a: seq<Range>, b: seq<Range>, c: nat)
    requires multiset(a) == multiset(b) && InRanges(a, c)
    ensures InRanges(b, c)
  {
    var i :| 0 <= i < |a| && InRange(a[i], c);
    assert a[i] in multiset(a);
    assert a[i] in b;
  }

  // ----- canonical form -----

  /** Sorted, disjoint and never adjacent. */
  ghost predicate Maximal(rs: seq<Range>) {
    && (forall i :: 0 <= i < |rs| ==> WellFormedRange(rs[i]))
    && (forall i, j :: 0 <= i < j < |rs| ==> rs[i].end + 1 < rs[j].start)
  }

  ghost predicate Canonical(v: Version) {
    Maximal(v.ranges) && (v.ranges != [] ==> v.ranges[0].start > v.frontier + 1)
  }

  lemma {:induction false} MaximalUnique(rs: seq<Range>, ts: seq<Range>)
    requires Maximal(rs) && Maximal(ts)
    requires forall c: nat :: InRanges(rs, c) <==> InRanges(ts, c)
    ensures rs == ts
  {
    hide InRanges;
    NoRanges();
    if rs != [] { FirstStart(rs); }
    if ts != [] { FirstStart(ts); }
    if rs != [] && ts != [] {
      FirstRangeMinimal(rs, ts); FirstRangeMinimal(ts, rs);
      FirstRangeEnd(rs, ts); FirstRangeEnd(ts, rs);
      forall c: nat ensures InRanges(rs[1..], c) <==> InRanges(ts[1..], c) {
        TailRanges(rs, c); TailRanges(ts, c);
      }
      MaximalUnique(rs[1..], ts[1..]);
      assert rs == [rs[0]] + rs[1..] && ts == [ts[0]] + ts[1..];
    }
  }

  lemma FirstStart(rs: seq<Range>)
    requires Maximal(rs) && rs != []
    ensures InRanges(rs, rs[0].start)
  {
    assert InRange(rs[0], rs[0].start);
  }

  lemma FirstRangeMinimal(rs: seq<Range>, ts: seq<Range>)
    requires Maximal(rs) && Maximal(ts) && rs != [] && ts != []
    requires forall c: nat :: InRanges(rs, c) <==> InRanges(ts, c)
    ensures ts[0].start <= rs[0].start
  {
    assert InRange(rs[0], rs[0].start);
    assert InRanges(ts, rs[0].start);
    var i :| 0 <= i < |ts| && InRange(ts[i], rs[0].start);
    if i > 0 { assert ts[0].end + 1 < ts[i].start; }
  }

  lemma FirstRangeEnd(rs: seq<Range>, ts: seq<Range>)
    requires Maximal(rs) && Maximal(ts) && rs != [] && ts != [] && rs[0].start == ts[0].start
    requires forall c: nat :: InRanges(rs, c) <==> InRanges(ts, c)
    ensures ts[0].end <= rs[0].end
  {
    GapAfter(rs, 0);
    assert !InRange(ts[0], rs[0].end + 1);
  }

  lemma GapAfter(rs: seq<Range>, i: nat)
    requires Maximal(rs) && i < |rs|
    ensures !InRanges(rs, rs[i].end + 1)
  {
    forall j | 0 <= j < |rs| ensures !InRange(rs[j], rs[i].end + 1) {
      if j < i { assert rs[j].end + 1 < rs[i].start; }
      if j > i { assert rs[i].end + 1 < rs[j].start; }
    }
  }

  lemma TailRanges(rs: seq<Range>, c: nat)
    requires Maximal(rs) && rs != []
    ensures InRanges(rs[1..], c) <==> InRanges(rs, c) && c > rs[0].end
  {
    assert rs == [rs[0]] + rs[1..];
    InRangesCons(rs[0], rs[1..], c);
    if InRanges(rs[1..], c) {
      var i :| 0 <= i < |rs[1..]| && InRange(rs[1..][i], c);
      assert rs[1..][i] == rs[i + 1] && rs[0].end + 1 < rs[i + 1].start;
    }
  }

  lemma FrontierGap(v: Version)
    requires Canonical(v)
    ensures !Has(v, v.frontier + 1)
    ensures forall i | 0 <= i < |v.ranges| :: v.ranges[i].start > v.frontier + 1
  {
    forall i | 0 <= i < |v.ranges| ensures v.ranges[i].start > v.frontier + 1 {
      if i > 0 { assert v.ranges[0].end + 1 < v.ranges[i].start; }
    }
  }

  /** Canonical forms that stand for the same set are identical. */
  lemma CanonicalUnique(v: Version, w: Version)
    requires Canonical(v) && Canonical(w) && Counters(v) == Counters(w)
    ensures v == w
  {
    CountersHas(v); CountersHas(w);
    FrontierGap(v); FrontierGap(w);
    assert forall c: nat :: Has(v, c) <==> Has(w, c);
    assert !Has(w, v.frontier + 1) && !Has(v, w.frontier + 1);
    forall c: nat ensures InRanges(v.ranges, c) <==> InRanges(w.ranges, c) {
      assert Has(v, c) <==> Has(w, c);
    }
    MaximalUnique(v.ranges, w.ranges);
  }

  predicate WellFormedRanges(v: Version) {
    forall i :: 0 <= i < |v.ranges| ==> WellFormedRange(v.ranges[i])
  }

  // ----- union -----

  ghost predicate IsUnion(u: Version, a: Version, b: Version) {
    Canonical(u) && Counters(u) == Counters(a) + Counters(b)
  }

  lemma UnionCommutes(a: Version, b: Version, ab: Version, ba: Version)
    requires IsUnion(ab, a, b) && IsUnion(ba, b, a)
    ensures ab == ba
  {
    CanonicalUnique(ab, ba);
  }

  lemma UnionAssociates(a: Version, b: Version, c: Version, ab: Version, bc: Version, l: Version, r: Version)
    requires IsUnion(ab, a, b) && IsUnion(bc, b, c) && IsUnion(l, ab, c) && IsUnion(r, a, bc)
    ensures l == r
  {
    CanonicalUnique(l, r);
  }

  lemma UnionIdempotent(a: Version, aa: Version)
    requires Canonical(a) && IsUnion(aa, a, a)
    ensures aa == a
  {
    CanonicalUnique(aa, a);
  }

  ghost predicate StartsSorted(rs: seq<Range>) {
    forall i, j :: 0 <= i < j < |rs| ==> rs[i].start <= rs[j].start
  }

  function InsertByStart(rs: seq<Range>, r: Range): seq<Range> {
    if rs == [] || rs[|rs| - 1].start <= r.start then rs + [r]
    else InsertByStart(rs[..|rs| - 1], r) + [rs[|rs| - 1]]
  }

  /** Stable sort by range start, as `sort_by_key`. */
  function SortByStart(rs: seq<Range>): seq<Range> {
    if rs == [] then [] else InsertByStart(SortByStart(rs[..|rs| - 1]), rs[|rs| - 1])
  }

  lemma {:induction false} InsertByStartElems(rs: seq<Range>, r: Range)
    ensures multiset(InsertByStart(rs, r)) == multiset(rs) + multiset{r}
  {
    if rs != [] && rs[|rs| - 1].start > r.start {
      InsertByStartElems(rs[..|rs| - 1], r);
      assert rs == rs[..|rs| - 1] + [rs[|rs| - 1]];
    }
  }

  lemma {:induction false} InsertByStartSorts(rs: seq<Range>, r: Range)
    requires StartsSorted(rs)
    ensures StartsSorted(InsertByStart(rs, r))
  {
    if rs != [] && rs[|rs| - 1].start > r.start {
      var front, last := rs[..|rs| - 1], rs[|rs| - 1];
      InsertByStartSorts(front, r);
      InsertByStartElems(front, r);
      AppendSorted(InsertByStart(front, r), front, r, last);
    }
  }

  lemma AppendSorted(s: seq<Range>, front: seq<Range>, r: Range, last: Range)
    requires StartsSorted(s) && multiset(s) == multiset(front) + multiset{r} && r.start <= last.start
    requires forall x | x in front :: x.start <= last.start
    ensures StartsSorted(s + [last])
  {
    forall i | 0 <= i < |s| ensures s[i].start <= last.start {
      assert s[i] in multiset(s);
      assert s[i] == r || s[i] in front;
    }
  }

  lemma {:induction false} SortByStartSorts(rs: seq<Range>)
    ensures StartsSorted(SortByStart(rs)) && multiset(SortByStart(rs)) == multiset(rs)
  {
    hide InsertByStart, StartsSorted;
    if rs == [] {
      NothingSorted();
    } else {
      SortByStartSorts(rs[..|rs| - 1]);
      InsertByStartSorts(SortByStart(rs[..|rs| - 1]), rs[|rs| - 1]);
      InsertByStartElems(SortByStart(rs[..|rs| - 1]), rs[|rs| - 1]);
      assert rs == rs[..|rs| - 1] + [rs[|rs| - 1]];
    }
  }

  lemma NothingSorted()
    ensures StartsSorted([])
  {
  }

  /** The sweep of `union` over ranges sorted by start. */
  method MergeSorted(all: seq<Range>) returns (merged: seq<Range>)
    requires StartsSorted(all)
    ensures Maximal(merged)
    ensures forall c: nat :: InRanges(merged, c) <==> InRanges(all, c)
  {
    hide InRanges;
    merged := [];
    NoRanges();
    for n := 0 to |all|
      invariant Maximal(merged)
      invariant forall c: nat :: InRanges(merged, c) <==> InRanges(all[..n], c)
      invariant forall j :: n <= j < |all| && merged != [] ==> merged[|merged| - 1].start <= all[j].start
    {
      var r := all[n];
      ghost var was := merged;
      assert all[..n + 1] == all[..n] + [r];
      InRangesAppend(all[..n], r);
      if r.start == 0 || r.end == 0 || r.start > r.end {
        // skipped: stands for nothing
      } else if merged != [] && r.start <= merged[|merged| - 1].end + 1 {
        var last := merged[|merged| - 1];
        var end := if last.end > r.end then last.end else r.end;
        merged := merged[|merged| - 1 := Range(last.start, end)];
        ExtendLast(was, r);
      } else {
        merged := merged + [r];
        InRangesAppend(was, r);
        AppendMaximal(was, r);
      }
    }
    assert all[..|all|] == all;
  }

  lemma AppendMaximal(rs: seq<Range>, r: Range)
    requires Maximal(rs) && WellFormedRange(r) && (rs != [] ==> rs[|rs| - 1].end + 1 < r.start)
    ensures Maximal(rs + [r])
  {
    forall i | 0 <= i < |rs| ensures rs[i].end + 1 < r.start {
      if i < |rs| - 1 { assert rs[i].end + 1 < rs[|rs| - 1].start; }
    }
  }

  /** A range that meets or touches the last one only moves its end. */
  lemma ExtendLast(rs: seq<Range>, r: Range)
    requires Maximal(rs) && rs != [] && WellFormedRange(r)
    requires rs[|rs| - 1].start <= r.start <= rs[|rs| - 1].end + 1
    ensures
      var last := rs[|rs| - 1];
      var s := rs[|rs| - 1 := Range(last.start, if last.end > r.end then last.end else r.end)];
      Maximal(s) && forall c: nat :: InRanges(s, c) <==> InRanges(rs, c) || InRange(r, c)
  {
    var last := rs[|rs| - 1];
    var front := rs[..|rs| - 1];
    var x: Range := Range(last.start, if last.end > r.end then last.end else r.end);
    var s := rs[|rs| - 1 := x];
    assert s == front + [x] && rs == front + [last];
    forall c: nat ensures InRanges(s, c) <==> InRanges(rs, c) || InRange(r, c) {
      InRangesConcat(front, [x], c);
      InRangesConcat(front, [last], c);
      InRangesCons(x, [], c);
      InRangesCons(last, [], c);
    }
  }

  /** All ranges of two versions, sorted and swept. */
  method MergeBoth(v: Version, w: Version) returns (merged: seq<Range>)
    ensures Maximal(merged) && forall c: nat :: InRanges(merged, c) <==> Has(v, c) || Has(w, c)
  {
    var all := Gathered(v) + Gathered(w);
    SortByStartSorts(all);
    merged := MergeSorted(SortByStart(all));
    MergedHas(v, w, merged);
  }

  // ----- the mutable per-replica version -----

  class ReplicaVersion {
    var frontier: nat
    var ranges: seq<Range>

    ghost function State(): Version
      reads this
    {
      Version(frontier, ranges)
    }

    constructor (v: Version)
      ensures State() == v
    {
      frontier := v.frontier;
      ranges := v.ranges;
    }

    /** Move ranges that start right after the frontier into it. */
    method AbsorbFrontierRanges()
      requires Maximal(ranges) && (ranges != [] ==> ranges[0].start > frontier)
      modifies this
      ensures Canonical(State()) && Counters(State()) == old(Counters(State()))
    {
      ghost var v := State();
      while ranges != [] && ranges[0].start == frontier + 1
        invariant Maximal(ranges) && (ranges != [] ==> ranges[0].start > frontier)
        invariant forall c: nat :: Has(State(), c) <==> Has(v, c)
        decreases |ranges|
      {
        ghost var w := State();
        forall c: nat ensures Has(w, c) <==> 1 <= c <= w.ranges[0].end || InRanges(w.ranges[1..], c) {
          assert w.ranges == [w.ranges[0]] + w.ranges[1..];
          InRangesCons(w.ranges[0], w.ranges[1..], c);
        }
        frontier := ranges[0].end;
        ranges := ranges[1..];
      }
      CountersHas(v);
      CountersHas(State());
    }

    /** Join the range at idx with the next one when they meet or touch. */
    method MergeWithNext(idx: nat)
      requires idx < |ranges|
      modifies this
      ensures frontier == old(frontier)
      ensures ranges ==
        if idx + 1 < |old(ranges)| && old(ranges)[idx + 1].start <= old(ranges)[idx].end + 1
        then Joined(old(ranges), idx) else old(ranges)
    {
      if idx + 1 >= |ranges| { return; }
      var a, b := ranges[idx], ranges[idx + 1];
      if b.start <= a.end + 1 {
        ranges := ranges[idx := Range(a.start, if a.end > b.end then a.end else b.end)];
        ranges := ranges[..idx + 1] + ranges[idx + 2..];
      }
    }

    /** Insertion into the set. */
    method Observe(counter: nat)
      requires Canonical(State())
      modifies this
      ensures Canonical(State())
      ensures Counters(State()) == old(Counters(State())) + (if counter == 0 then {} else {counter})
    {
      if counter <= frontier {
        CountersHas(State());
        return;
      }
      if counter == frontier + 1 {
        AdvanceFrontier(State());
        frontier := counter;
        AbsorbFrontierRanges();
        return;
      }
      ObserveBeyond(counter);
    }

    /** A counter past the frontier's successor: grow, join or add a range. */
    method ObserveBeyond(counter: nat)
      requires Canonical(State()) && counter > frontier + 1
      modifies this
      ensures Canonical(State())
      ensures Counters(State()) == old(Counters(State())) + {counter}
    {
      hide Has, InRanges, Counters, Maximal, Joined;
      ghost var v := State();
      var idx := 0;
      while idx < |ranges| && ranges[idx].start < counter
        invariant 0 <= idx <= |ranges|
        invariant idx > 0 ==> ranges[idx - 1].start < counter
      {
        idx := idx + 1;
      }
      if idx > 0 {
        var prev := ranges[idx - 1];
        if prev.start <= counter <= prev.end {
          AlreadyObserved(v, idx - 1, counter);
          return;
        }
        if counter == prev.end + 1 {
          ranges := ranges[idx - 1 := Range(prev.start, counter)];
          GrowEnd(v.ranges, idx - 1, counter);
          MergeWithNext(idx - 1);
          assert ranges == GrownEnd(v.ranges, idx - 1, counter);
          RangesGained(v, State(), counter);
          return;
        }
      }
      if idx < |ranges| {
        var next := ranges[idx];
        RangeNotEmpty(v, idx);
        if counter + 1 == next.start {
          ranges := ranges[idx := Range(counter, next.end)];
          GrowStart(v.ranges, idx, counter);
          if idx > 0 { MergeWithNext(idx - 1); }
          RangesGained(v, State(), counter);
          return;
        }
        if next.start <= counter <= next.end {
          AlreadyObserved(v, idx, counter);
          return;
        }
      }
      ranges := ranges[..idx] + [Range(counter, counter)] + ranges[idx..];
      PointRange(v.ranges, idx, counter);
      RangesGained(v, State(), counter);
    }

    /** Set union of any two representations. The result is canonical even if both operands were
        malformed, except that an empty right operand leaves the left one as it was. */
    method Union(other: Version)
      modifies this
      ensures Counters(State()) == old(Counters(State())) + Counters(other)
      ensures Canonical(State()) <==> old(Canonical(State())) || other != NOTHING
      ensures Canonical(State()) ==> IsUnion(State(), old(State()), other)
    {
      ghost var v := State();
      if other.frontier == 0 && other.ranges == [] {
        NothingHas(other);
        return;
      }
      var merged := MergeBoth(Version(frontier, ranges), other);
      if merged != [] && merged[0].start == 1 {
        frontier := merged[0].end;
        ranges := merged[1..];
      } else {
        frontier := 0;
        ranges := merged;
      }
      SplitFrontier(merged);
      UnionMeaning(v, other, State());
      AbsorbFrontierRanges();
      // The source absorbs once more if the first range still starts at frontier + 1: it never does.
      assert !(ranges != [] && ranges[0].start == frontier + 1);
    }

    method ContainsRange(start: nat, end: nat) returns (r: bool)
      requires Canonical(State())
      ensures r <==> 1 <= start <= end && forall c: nat :: start <= c <= end ==> Has(State(), c)
    {
      FrontierGap(State());
      if start == 0 || end == 0 || start > end { return false; }
      if end <= frontier { return true; }
      if start <= frontier {
        assert !Has(State(), frontier + 1);
        return false;
      }
      for i := 0 to |ranges|
        invariant forall j :: 0 <= j < i ==> ranges[j].start <= start && !(ranges[j].end >= end)
      {
        var range := ranges[i];
        if range.start > start {
          NoSingleCover(State(), start, end, i);
          return false;
        }
        if range.start <= start && range.end >= end {
          forall c: nat | start <= c <= end ensures Has(State(), c) { assert InRange(ranges[i], c); }
          return true;
        }
      }
      NoSingleCover(State(), start, end, |ranges|);
      return false;
    }

    /** Superset test; it also answers no when the other side holds a malformed range. */
    method IsSupersetOf(other: Version) returns (r: bool)
      requires Canonical(State())
      ensures r <==> Counters(other) <= Counters(State()) && WellFormedRanges(other)
    {
      CountersHas(State());
      CountersHas(other);
      FrontierGap(State());
      if frontier < other.frontier {
        assert Has(other, frontier + 1);
        return false;
      }
      for i := 0 to |other.ranges|
        invariant forall j :: 0 <= j < i ==> WellFormedRange(other.ranges[j])
        invariant forall j, c: nat :: 0 <= j < i && InRange(other.ranges[j], c) ==> Has(State(), c)
      {
        var ok := ContainsRange(other.ranges[i].start, other.ranges[i].end);
        if !ok {
          if WellFormedRange(other.ranges[i]) {
            ghost var c: nat :| other.ranges[i].start <= c <= other.ranges[i].end && !Has(State(), c);
            assert InRange(other.ranges[i], c);
            assert c in Counters(other) && c !in Counters(State());
          }
          return false;
        }
      }
      return true;
    }

    /** The largest counter observed, 0 when there is none. */
    method MaxSeen() returns (m: nat)
      requires Canonical(State())
      ensures forall c: nat :: Has(State(), c) ==> c <= m
      ensures m > 0 ==> Has(State(), m)
    {
      FrontierGap(State());
      if ranges == [] { return frontier; }
      var end := ranges[|ranges| - 1].end;
      m := Max(end, frontier);
      assert InRange(ranges[|ranges| - 1], end);
      forall c: nat | Has(State(), c) ensures c <= m {
        if InRanges(ranges, c) {
          var i :| 0 <= i < |ranges| && InRange(ranges[i], c);
          if i < |ranges| - 1 { assert ranges[i].end + 1 < ranges[|ranges| - 1].start; }
        }
      }
    }
  }

  lemma NothingHas(v: Version)
    requires v.frontier == 0 && v.ranges == []
    ensures Counters(v) == {}
  {
    CountersHas(v);
  }

  lemma UnionMeaning(v: Version, w: Version, u: Version)
    requires forall c: nat :: Has(u, c) <==> Has(v, c) || Has(w, c)
    ensures Counters(u) == Counters(v) + Counters(w)
  {
    CountersHas(v); CountersHas(w); CountersHas(u);
  }

  /** All ranges of a version, the frontier as one of them. */
  function Gathered(v: Version): seq<Range> {
    (if v.frontier > 0 then [Range(1, v.frontier)] else []) + v.ranges
  }

  lemma GatheredHas(v: Version, c: nat)
    ensures InRanges(Gathered(v), c) <==> Has(v, c)
  {
    InRangesConcat(if v.frontier > 0 then [Range(1, v.frontier)] else [], v.ranges, c);
    if v.frontier > 0 { InRangesCons(Range(1, v.frontier), [], c); }
  }

  lemma MergedHas(v: Version, w: Version, merged: seq<Range>)
    requires forall c: nat :: InRanges(merged, c) <==> InRanges(SortByStart(Gathered(v) + Gathered(w)), c)
    ensures forall c: nat :: InRanges(merged, c) <==> Has(v, c) || Has(w, c)
  {
    var all := Gathered(v) + Gathered(w);
    SortByStartSorts(all);
    forall c: nat ensures InRanges(merged, c) <==> Has(v, c) || Has(w, c) {
      GatheredHas(v, c); GatheredHas(w, c);
      InRangesConcat(Gathered(v), Gathered(w), c);
      if InRanges(all, c) { InRangesPermuted(all, SortByStart(all), c); }
      if InRanges(SortByStart(all), c) { InRangesPermuted(SortByStart(all), all, c); }
    }
  }

  /** Taking a first range that starts at 1 as the frontier changes no membership. */
  lemma SplitFrontier(merged: seq<Range>)
    requires Maximal(merged)
    ensures
      var v := if merged != [] && merged[0].start == 1 then Version(merged[0].end, merged[1..]) else Version(0, merged);
      && Maximal(v.ranges) && (v.ranges != [] ==> v.ranges[0].start > v.frontier)
      && forall c: nat :: Has(v, c) <==> InRanges(merged, c)
  {
    if merged != [] && merged[0].start == 1 {
      forall c: nat ensures InRanges(merged, c) <==> InRange(merged[0], c) || InRanges(merged[1..], c) {
        assert merged == [merged[0]] + merged[1..];
        InRangesCons(merged[0], merged[1..], c);
      }
    }
  }

  // ----- steps of observe, union and contains_range -----

  function Joined(rs: seq<Range>, i: nat): seq<Range>
    requires i + 1 < |rs|
  {
    rs[..i] + [Range(rs[i].start, if rs[i].end > rs[i + 1].end then rs[i].end else rs[i + 1].end)] + rs[i + 2..]
  }

  lemma AdvanceFrontier(v: Version)
    requires Canonical(v)
    ensures Counters(v.(frontier := v.frontier + 1)) == Counters(v) + {v.frontier + 1}
  {
    CountersHas(v);
    CountersHas(v.(frontier := v.frontier + 1));
  }

  lemma AlreadyObserved(v: Version, i: nat, counter: nat)
    requires Canonical(v) && i < |v.ranges| && v.ranges[i].start <= counter <= v.ranges[i].end
    ensures Counters(v) + {counter} == Counters(v)
  {
    assert InRange(v.ranges[i], counter);
    CountersHas(v);
  }

  lemma RangeNotEmpty(v: Version, i: nat)
    requires Canonical(v) && i < |v.ranges|
    ensures v.ranges[i].start <= v.ranges[i].end
  {
  }

  /** Ranges that gained one counter beyond the frontier's successor stay canonical. */
  lemma RangesGained(v: Version, w: Version, counter: nat)
    requires Canonical(v) && counter > v.frontier + 1 && w.frontier == v.frontier && Maximal(w.ranges)
    requires forall c: nat :: InRanges(w.ranges, c) <==> InRanges(v.ranges, c) || c == counter
    ensures Canonical(w) && Counters(w) == Counters(v) + {counter}
  {
    CountersHas(v); CountersHas(w);
    FrontierGap(v);
    if w.ranges != [] {
      assert InRange(w.ranges[0], w.ranges[0].start);
      assert InRanges(w.ranges, w.ranges[0].start);
    }
  }

  /** Splitting a list of ranges at one of them. */
  lemma InRangesAround(rs: seq<Range>, i: nat, c: nat)
    requires i < |rs|
    ensures InRanges(rs, c) <==> InRanges(rs[..i], c) || InRange(rs[i], c) || InRanges(rs[i + 1..], c)
  {
    assert rs == rs[..i] + ([rs[i]] + rs[i + 1..]);
    InRangesConcat(rs[..i], [rs[i]] + rs[i + 1..], c);
    InRangesCons(rs[i], rs[i + 1..], c);
  }

  /** A range extended by the next counter, joined with a neighbour it now touches. */
  function GrownEnd(rs: seq<Range>, i: nat, counter: nat): seq<Range>
    requires i < |rs|
  {
    var s := rs[i := Range(rs[i].start, counter)];
    if i + 1 < |s| && s[i + 1].start <= s[i].end + 1 then Joined(s, i) else s
  }

  lemma GrowEnd(rs: seq<Range>, i: nat, counter: nat)
    requires Maximal(rs) && i < |rs| && counter == rs[i].end + 1
    ensures
      var t := GrownEnd(rs, i, counter);
      && Maximal(t)
      && forall c: nat :: InRanges(t, c) <==> InRanges(rs, c) || c == counter
  {
    var s := rs[i := Range(rs[i].start, counter)];
    if i + 1 < |s| && s[i + 1].start <= s[i].end + 1 {
      JoinTouching(rs, i, counter);
      assert Joined(s, i) == rs[..i] + [Range(rs[i].start, rs[i + 1].end)] + rs[i + 2..];
    } else {
      forall c: nat ensures InRanges(s, c) <==> InRanges(rs, c) || c == counter {
        InRangesAround(rs, i, c);
        InRangesAround(s, i, c);
        assert s[..i] == rs[..i] && s[i + 1..] == rs[i + 1..];
      }
    }
  }

  /** One missing counter between two ranges joins them. */
  lemma JoinTouching(rs: seq<Range>, i: nat, counter: nat)
    requires Maximal(rs) && i + 1 < |rs| && rs[i].end + 1 == counter && counter + 1 == rs[i + 1].start
    ensures
      var t := rs[..i] + [Range(rs[i].start, rs[i + 1].end)] + rs[i + 2..];
      && Maximal(t) && t[0].start == rs[0].start
      && forall c: nat :: InRanges(t, c) <==> InRanges(rs, c) || c == counter
  {
    var t := rs[..i] + [Range(rs[i].start, rs[i + 1].end)] + rs[i + 2..];
    forall c: nat ensures InRanges(t, c) <==> InRanges(rs, c) || c == counter {
      InRangesAround(t, i, c);
      assert t[..i] == rs[..i] && t[i + 1..] == rs[i + 2..];
      InRangesAround(rs, i, c);
      InRangesAround(rs[i + 1..], 0, c);
      assert rs[i + 1..][1..] == rs[i + 2..] && rs[i + 1..][..0] == [];
    }
  }

  /** Extending a range downwards; it cannot touch the previous one, which would have grown instead. */
  lemma GrowStart(rs: seq<Range>, i: nat, counter: nat)
    requires Maximal(rs) && i < |rs| && counter + 1 == rs[i].start && counter > 0
    requires i > 0 ==> rs[i - 1].end + 1 < counter
    ensures
      var s := rs[i := Range(counter, rs[i].end)];
      && Maximal(s) && (i > 0 ==> s[0].start == rs[0].start && !(s[i].start <= s[i - 1].end + 1))
      && forall c: nat :: InRanges(s, c) <==> InRanges(rs, c) || c == counter
  {
    var s := rs[i := Range(counter, rs[i].end)];
    forall c: nat ensures InRanges(s, c) <==> InRanges(rs, c) || c == counter {
      InRangesAround(rs, i, c);
      InRangesAround(s, i, c);
      assert s[..i] == rs[..i] && s[i + 1..] == rs[i + 1..];
    }
    forall j | 0 <= j < i ensures s[j].end + 1 < counter {
      if j < i - 1 { assert rs[j].end + 1 < rs[i - 1].start; }
    }
  }

  lemma PointMaximal(rs: seq<Range>, i: nat, counter: nat)
    requires Maximal(rs) && i <= |rs| && counter > 0
    requires i > 0 ==> rs[i - 1].end + 1 < counter
    requires i < |rs| ==> counter + 1 < rs[i].start
    ensures Maximal(rs[..i] + [Range(counter, counter)] + rs[i..])
  {
    forall j | 0 <= j < i ensures rs[j].end + 1 < counter {
      if j < i - 1 { assert rs[j].end + 1 < rs[i - 1].start; }
    }
    forall j | i <= j < |rs| ensures counter + 1 < rs[j].start {
      if i < j { assert rs[i].end + 1 < rs[j].start; }
    }
    var s := rs[..i] + [Range(counter, counter)] + rs[i..];
    forall j, k | 0 <= j < k < |s| ensures s[j].end + 1 < s[k].start {
      assert s[j] == if j < i then rs[j] else if j == i then Range(counter, counter) else rs[j - 1];
      assert s[k] == if k < i then rs[k] else if k == i then Range(counter, counter) else rs[k - 1];
    }
  }

  lemma PointRange(rs: seq<Range>, i: nat, counter: nat)
    requires Maximal(rs) && i <= |rs| && counter > 0
    requires i > 0 ==> rs[i - 1].end + 1 < counter
    requires i < |rs| ==> counter + 1 < rs[i].start
    ensures
      var s := rs[..i] + [Range(counter, counter)] + rs[i..];
      && Maximal(s) && forall c: nat :: InRanges(s, c) <==> InRanges(rs, c) || c == counter
  {
    PointMaximal(rs, i, counter);
    var s := rs[..i] + [Range(counter, counter)] + rs[i..];
    assert s[i] == Range(counter, counter);
    assert s[..i] == rs[..i];
    assert s[i + 1..] == rs[i..];
    assert rs == rs[..i] + rs[i..];
    forall c: nat ensures InRanges(s, c) <==> InRanges(rs, c) || c == counter {
      InRangesAround(s, i, c);
      InRangesConcat(rs[..i], rs[i..], c);
    }
  }

  /** If no single range covers an interval beyond the frontier, some counter of it is missing. */
  lemma NoSingleCover(v: Version, start: nat, end: nat, i: nat)
    requires Canonical(v) && v.frontier < start <= end && i <= |v.ranges|
    requires forall j :: 0 <= j < i ==> v.ranges[j].start <= start && v.ranges[j].end < end
    requires i < |v.ranges| ==> v.ranges[i].start > start
    ensures exists c: nat :: start <= c <= end && !Has(v, c)
  {
    var rs := v.ranges;
    if i > 0 && rs[i - 1].end >= start {
      GapAfter(rs, i - 1);
      assert !Has(v, rs[i - 1].end + 1);
    } else {
      forall j | 0 <= j < |rs| ensures !InRange(rs[j], start) {
        if j < i - 1 { assert rs[j].end + 1 < rs[i - 1].start; }
        if j > i { assert rs[i].end + 1 < rs[j].start; }
      }
      assert !Has(v, start);
    }
  }

  // ----- vectors over replicas -----

  type Entries = map<Bytes, Version>

  function Entry(e: Entries, replica: Bytes): Version {
    if replica in e then e[replica] else NOTHING
  }

  /** The operation ids a vector stands for. */
  function Known(e: Entries): Knowledge {
    set r, c | r in e && c in Counters(e[r]) :: OpId(r, c)
  }

  ghost predicate CanonicalEntries(e: Entries) {
    forall r | r in e :: Canonical(e[r])
  }

  lemma KnownEntry(e: Entries, id: OpId)
    ensures id in Known(e) <==> id.counter in Counters(Entry(e, id.replica))
  {
    NothingHas(NOTHING);
    if id.replica in e && id.counter in Counters(e[id.replica]) {
      assert OpId(id.replica, id.counter) == id;
    }
  }

  lemma EntryCanonical(e: Entries, r: Bytes)
    requires CanonicalEntries(e)
    ensures Canonical(Entry(e, r))
  {
  }

  class VersionVector {
    var entries: Entries

    ghost predicate Valid()
      reads this
    {
      CanonicalEntries(entries)
    }

    constructor ()
      ensures Valid() && Known(entries) == {}
    {
      entries := map[];
    }

    method Observe(replica: Bytes, counter: nat)
      requires Valid()
      modifies this
      ensures Valid()
      ensures Known(entries) == old(Known(entries)) + (if counter == 0 then {} else {OpId(replica, counter)})
    {
      ghost var e := entries;
      EntryCanonical(entries, replica);
      var entry := new ReplicaVersion(Entry(entries, replica));
      entry.Observe(counter);
      entries := entries[replica := Version(entry.frontier, entry.ranges)];
      forall id ensures id in Known(entries) <==> id in Known(e) || (counter != 0 && id == OpId(replica, counter)) {
        KnownEntry(entries, id);
        KnownEntry(e, id);
      }
    }

    /** Set union; the right operand may be malformed. */
    method Merge(other: Entries)
      requires Valid()
      modifies this
      ensures Valid() && Known(entries) == old(Known(entries)) + Known(other)
    {
      ghost var e := entries;
      var todo := other.Keys;
      while todo != {}
        invariant Valid() && todo <= other.Keys
        invariant forall r: Bytes :: Counters(Entry(entries, r)) ==
                    Counters(Entry(e, r)) + (if r in other.Keys - todo then Counters(other[r]) else {})
      {
        var replica :| replica in todo;
        EntryCanonical(entries, replica);
        var entry := new ReplicaVersion(Entry(entries, replica));
        entry.Union(other[replica]);
        entries := entries[replica := Version(entry.frontier, entry.ranges)];
        todo := todo - {replica};
      }
      forall id ensures id in Known(entries) <==> id in Known(e) || id in Known(other) {
        KnownEntry(entries, id);
        KnownEntry(e, id);
        KnownEntry(other, id);
        NothingHas(NOTHING);
      }
    }

    /** Superset test; it also answers no when the other side holds a malformed range. */
    method IsAwareOf(other: Entries) returns (aware: bool)
      requires Valid()
      ensures aware <==> Known(other) <= Known(entries) && forall r | r in other :: WellFormedRanges(other[r])
    {
      var todo := other.Keys;
      while todo != {}
        invariant todo <= other.Keys
        invariant forall r: Bytes ::
          r in other.Keys - todo ==> WellFormedRanges(other[r]) && Counters(other[r]) <= Counters(Entry(entries, r))
      {
        var replica :| replica in todo;
        EntryCanonical(entries, replica);
        var entry := new ReplicaVersion(Entry(entries, replica));
        var ok := entry.IsSupersetOf(other[replica]);
        if !ok {
          if WellFormedRanges(other[replica]) {
            ghost var c :| c in Counters(other[replica]) && c !in Counters(Entry(entries, replica));
            KnownEntry(other, OpId(replica, c));
            KnownEntry(entries, OpId(replica, c));
          }
          return false;
        }
        todo := todo - {replica};
      }
      forall id | id in Known(other) ensures id in Known(entries) {
        KnownEntry(other, id);
        KnownEntry(entries, id);
        NothingHas(NOTHING);
      }
      return true;
    }

    /** The end of the longest run 1, 2, ... of observed counters. */
    method Frontier(replica: Bytes) returns (f: nat)
      requires Valid()
      ensures forall c: nat :: 1 <= c <= f ==> OpId(replica, c) in Known(entries)
      ensures OpId(replica, f + 1) !in Known(entries)
    {
      EntryCanonical(entries, replica);
      f := Entry(entries, replica).frontier;
      FrontierGap(Entry(entries, replica));
      CountersHas(Entry(entries, replica));
      KnownEntry(entries, OpId(replica, f + 1));
      forall c: nat | 1 <= c <= f ensures OpId(replica, c) in Known(entries) { KnownEntry(entries, OpId(replica, c)); }
    }

    /** The largest counter observed for a replica, 0 when there is none. */
    method Get(replica: Bytes) returns (m: nat)
      requires Valid()
      ensures forall id | id in Known(entries) && id.replica == replica :: id.counter <= m
      ensures m > 0 ==> OpId(replica, m) in Known(entries)
    {
      EntryCanonical(entries, replica);
      var entry := new ReplicaVersion(Entry(entries, replica));
      m := entry.MaxSeen();
      assert entry.State() == Entry(entries, replica);
      assert forall c: nat :: Has(Entry(entries, replica), c) ==> c <= m;
      CountersHas(Entry(entries, replica));
      forall id | id in Known(entries) && id.replica == replica ensures id.counter <= m {
        KnownEntry(entries, id);
        assert Has(Entry(entries, replica), id.counter);
      }
      KnownEntry(entries, OpId(replica, m));
    }
  }

  /** Vectors that know the same operations hold the same entries, up to empty ones. */
  lemma VectorsUnique(e: Entries, f: Entries, replica: Bytes)
    requires CanonicalEntries(e) && CanonicalEntries(f) && Known(e) == Known(f)
    ensures Entry(e, replica) == Entry(f, replica)
  {
    forall c: nat ensures c in Counters(Entry(e, replica)) <==> c in Counters(Entry(f, replica)) {
      KnownEntry(e, OpId(replica, c));
      KnownEntry(f, OpId(replica, c));
    }
    EntryCanonical(e, replica);
    EntryCanonical(f, replica);
    CanonicalUnique(Entry(e, replica), Entry(f, replica));
  }
}
