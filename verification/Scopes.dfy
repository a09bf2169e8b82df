/** Subtree scopes: three-valued verdicts, the ancestor-walking evaluator, and capability checks. */
module Scopes {
  import opened Basics
  import opened Operations

  datatype Tri = Allow | Deny | Unknown

  function TriOr(a: Tri, b: Tri): Tri {
    if a == Allow || b == Allow then Allow else if a == Unknown || b == Unknown then Unknown else Deny
  }

  function TriAnd(a: Tri, b: Tri): Tri {
    if a == Deny || b == Deny then Deny else if a == Unknown || b == Unknown then Unknown else Allow
  }

  /** A JavaScript number, which is what decoded claims hold: infinities and NaN are among them. */
  datatype Number = NaN | NegInf | Fin(value: real) | PosInf

  /** The comparison `a < b`: false whenever NaN takes part. */
  predicate Less(a: Number, b: Number) {
    && !a.NaN? && !b.NaN? && a != b
    && (a.NegInf? || b.PosInf? || (a.Fin? && b.Fin? && a.value < b.value))
  }

  /** The comparison `a >= b`: false whenever NaN takes part. */
  predicate AtLeast(a: Number, b: Number) {
    !a.NaN? && !b.NaN? && !Less(a, b)
  }

  function Hops(k: nat): Number {
    Fin(k as real)
  }

  datatype Scope = Scope(root: NodeId, maxDepth: Option<Number>, exclude: set<NodeId>)

  /** The test at the scope root does not deny a walk of d hops; NaN denies none. */
  predicate WithinDepth(maxDepth: Option<Number>, d: nat) {
    maxDepth.Some? ==> !Less(maxDepth.value, Hops(d))
  }

  /** What the comparisons make of a depth bound: a finite one counts hops inclusively, infinity and NaN
      bound nothing, minus infinity everything. */
  lemma DepthExactly(maxDepth: Option<Number>, d: nat)
    ensures WithinDepth(maxDepth, d) <==>
      match maxDepth
      case None => true
      case Some(NaN) => true
      case Some(PosInf) => true
      case Some(NegInf) => false
      case Some(Fin(v)) => d as real <= v
    ensures maxDepth.Some? && AtLeast(Hops(d), maxDepth.value) <==>
      match maxDepth
      case Some(Fin(v)) => d as real >= v
      case Some(NegInf) => true
      case _ => false
  {
  }

  /** tree_nodes: no row, a NULL parent, or a parent. */
  type ParentTable = map<NodeId, Option<NodeId>>

  const MAX_HOPS: nat := 100_000

  // ----- the walk -----

  /** The node d parent steps above n; reserved nodes have no way up. */
  function Ancestor(parents: ParentTable, n: NodeId, d: nat): Option<NodeId>
    decreases d
  {
    if d == 0 then Some(n)
    else if Reserved(n) || n !in parents || parents[n].None? then None
    else Ancestor(parents, parents[n].value, d - 1)
  }

  /** The verdict of the walk when it stands at cur after k hops. */
  function VerdictFrom(parents: ParentTable, cur: NodeId, scope: Scope, k: nat): Tri
    decreases MAX_HOPS - k
  {
    if k >= MAX_HOPS then Unknown
    else if cur in scope.exclude then Deny
    else if cur == scope.root then
      if WithinDepth(scope.maxDepth, k) then Allow else Deny
    else if Reserved(cur) then Deny
    else if scope.maxDepth.Some? && AtLeast(Hops(k), scope.maxDepth.value) then Deny
    else if cur !in parents then Unknown
    else if parents[cur].None? then Deny
    else VerdictFrom(parents, parents[cur].value, scope, k + 1)
  }

  function Verdict(parents: ParentTable, node: NodeId, scope: Scope): Tri {
    VerdictFrom(parents, node, scope, 0)
  }

  /** The subtree scope evaluator. */
  method EvaluateScope(parents: ParentTable, node: NodeId, scope: Scope) returns (verdict: Tri)
    ensures verdict == Verdict(parents, node, scope)
  {
    var cur, distance := node, 0;
    for hops := 0 to MAX_HOPS
      invariant distance == hops
      invariant VerdictFrom(parents, cur, scope, hops) == Verdict(parents, node, scope)
    {
      if cur in scope.exclude { return Deny; }
      if cur == scope.root {
        if scope.maxDepth.Some? && Less(scope.maxDepth.value, Hops(distance)) { return Deny; }
        return Allow;
      }
      if cur == ROOT || cur == TRASH { return Deny; }
      if scope.maxDepth.Some? && AtLeast(Hops(distance), scope.maxDepth.value) { return Deny; }
      if cur !in parents { return Unknown; }
      if parents[cur].None? { return Deny; }
      cur, distance := parents[cur].value, distance + 1;
    }
    return Unknown;
  }

  /** The scope root lies d steps above n, within reach, and the path avoids every excluded node. */
  ghost predicate PathInScope(parents: ParentTable, n: NodeId, scope: Scope, k: nat, d: nat) {
    && k + d < MAX_HOPS && Ancestor(parents, n, d) == Some(scope.root)
    && WithinDepth(scope.maxDepth, k + d)
    && forall e: nat | e <= d :: Ancestor(parents, n, e).Some? ==> Ancestor(parents, n, e).value !in scope.exclude
  }

  ghost predicate InScope(parents: ParentTable, n: NodeId, scope: Scope) {
    exists d: nat :: PathInScope(parents, n, scope, 0, d)
  }

  lemma PathStep(parents: ParentTable, n: NodeId, scope: Scope, k: nat, d: nat)
    requires !Reserved(n) && n in parents && parents[n].Some? && n !in scope.exclude
    ensures PathInScope(parents, parents[n].value, scope, k + 1, d) <==> PathInScope(parents, n, scope, k, d + 1)
  {
    var p := parents[n].value;
    if PathInScope(parents, p, scope, k + 1, d) {
      forall e: nat | e <= d + 1 && Ancestor(parents, n, e).Some?
        ensures Ancestor(parents, n, e).value !in scope.exclude
      {
        if e > 0 { assert Ancestor(parents, n, e) == Ancestor(parents, p, e - 1); }
      }
    }
    if PathInScope(parents, n, scope, k, d + 1) {
      forall e: nat | e <= d && Ancestor(parents, p, e).Some? ensures Ancestor(parents, p, e).value !in scope.exclude {
        assert Ancestor(parents, n, e + 1) == Ancestor(parents, p, e);
      }
    }
  }

  lemma {:induction false} AllowedHasPath(parents: ParentTable, n: NodeId, scope: Scope, k: nat) returns (d: nat)
    requires VerdictFrom(parents, n, scope, k) == Allow
    ensures PathInScope(parents, n, scope, k, d)
    decreases MAX_HOPS - k
  {
    if n == scope.root { return 0; }
    var e := AllowedHasPath(parents, parents[n].value, scope, k + 1);
    PathStep(parents, n, scope, k, e);
    d := e + 1;
  }

  lemma {:induction false} PathIsAllowed(parents: ParentTable, n: NodeId, scope: Scope, k: nat, d: nat)
    requires PathInScope(parents, n, scope, k, d)
    ensures VerdictFrom(parents, n, scope, k) == Allow
    decreases d
  {
    assert Ancestor(parents, n, 0) == Some(n);
    if n != scope.root {
      PathStep(parents, n, scope, k, d - 1);
      PathIsAllowed(parents, parents[n].value, scope, k + 1, d - 1);
    }
  }

  /** The evaluator allows a node exactly when a path to the scope root stays within maxDepth and the
      hop bound and avoids every excluded node. */
  lemma AllowsExactly(parents: ParentTable, n: NodeId, scope: Scope)
    ensures Verdict(parents, n, scope) == Allow <==> InScope(parents, n, scope)
  {
    if Verdict(parents, n, scope) == Allow {
      var d := AllowedHasPath(parents, n, scope, 0);
    }
    if InScope(parents, n, scope) {
      var d: nat :| PathInScope(parents, n, scope, 0, d);
      PathIsAllowed(parents, n, scope, 0, d);
    }
  }

  /** All walks end within the hop bound. */
  ghost predicate Shallow(parents: ParentTable) {
    forall n: NodeId, d: nat :: Ancestor(parents, n, d).Some? ==> d < MAX_HOPS
  }

  /** Every row a walk from a present node needs is present. */
  ghost predicate Complete(parents: ParentTable) {
    forall n | n in parents && parents[n].Some? :: Reserved(parents[n].value) || parents[n].value in parents
  }

  lemma {:induction false} NeverUnknownFrom(parents: ParentTable, start: NodeId, n: NodeId, scope: Scope, k: nat)
    requires Shallow(parents) && Complete(parents) && (n in parents || Reserved(n))
    requires Ancestor(parents, start, k) == Some(n)
    ensures VerdictFrom(parents, n, scope, k) != Unknown
    decreases MAX_HOPS - k
  {
    assert k < MAX_HOPS;
    if !Reserved(n) && parents[n].Some? {
      AncestorAdd(parents, start, k, 1);
      assert Ancestor(parents, n, 1) == Some(parents[n].value);
      if k + 1 < MAX_HOPS { NeverUnknownFrom(parents, start, parents[n].value, scope, k + 1); }
    }
  }

  /** With complete local context within the bound the verdict is definite, so deny means outside. */
  lemma DeniesExactly(parents: ParentTable, n: NodeId, scope: Scope)
    requires Shallow(parents) && Complete(parents) && (n in parents || Reserved(n))
    ensures Verdict(parents, n, scope) == Deny <==> !InScope(parents, n, scope)
  {
    NeverUnknownFrom(parents, n, n, scope, 0);
    AllowsExactly(parents, n, scope);
  }

  // ----- missing context -----

  /** Nothing about x settles the walk that stands at it after e hops. */
  predicate Open(scope: Scope, x: NodeId, e: nat) {
    && x !in scope.exclude && x != scope.root && !Reserved(x)
    && !(scope.maxDepth.Some? && AtLeast(Hops(e), scope.maxDepth.value))
  }

  /** The walk of d more hops from n, which is k hops from its start, meets only open nodes. */
  ghost predicate OpenWalk(parents: ParentTable, n: NodeId, scope: Scope, k: nat, d: nat) {
    && Ancestor(parents, n, d).Some?
    && forall e: nat | e < d :: Ancestor(parents, n, e).Some? && Open(scope, Ancestor(parents, n, e).value, k + e)
  }

  /** The walk gets lost after d hops: the hop bound is used up, or an open node has no row. */
  ghost predicate LostAfter(parents: ParentTable, n: NodeId, scope: Scope, k: nat, d: nat) {
    && OpenWalk(parents, n, scope, k, d) && k + d <= MAX_HOPS
    && var x := Ancestor(parents, n, d).value;
       k + d == MAX_HOPS || (Open(scope, x, k + d) && x !in parents)
  }

  ghost predicate Lost(parents: ParentTable, n: NodeId, scope: Scope) {
    exists d: nat :: LostAfter(parents, n, scope, 0, d)
  }

  lemma LostStep(parents: ParentTable, n: NodeId, scope: Scope, k: nat, d: nat)
    requires !Reserved(n) && n in parents && parents[n].Some? && Open(scope, n, k)
    ensures LostAfter(parents, parents[n].value, scope, k + 1, d) <==> LostAfter(parents, n, scope, k, d + 1)
  {
    hide Open;
    var p := parents[n].value;
    forall e: nat ensures Ancestor(parents, n, e + 1) == Ancestor(parents, p, e) { }
    assert Ancestor(parents, n, 0) == Some(n);
    if LostAfter(parents, p, scope, k + 1, d) {
      forall e: nat | e < d + 1
        ensures Ancestor(parents, n, e).Some? && Open(scope, Ancestor(parents, n, e).value, k + e)
      {
        if e > 0 { assert Ancestor(parents, n, e) == Ancestor(parents, p, e - 1); }
      }
    }
    if LostAfter(parents, n, scope, k, d + 1) {
      forall e: nat | e < d
        ensures Ancestor(parents, p, e).Some? && Open(scope, Ancestor(parents, p, e).value, k + 1 + e)
      {
        assert Ancestor(parents, n, e + 1) == Ancestor(parents, p, e);
      }
    }
  }

  lemma {:induction false} UnknownIsLost(parents: ParentTable, n: NodeId, scope: Scope, k: nat) returns (d: nat)
    requires VerdictFrom(parents, n, scope, k) == Unknown && k <= MAX_HOPS
    ensures LostAfter(parents, n, scope, k, d)
    decreases MAX_HOPS - k
  {
    if k == MAX_HOPS || n !in parents { return 0; }
    var e := UnknownIsLost(parents, parents[n].value, scope, k + 1);
    LostStep(parents, n, scope, k, e);
    d := e + 1;
  }

  lemma {:induction false} LostIsUnknown(parents: ParentTable, n: NodeId, scope: Scope, k: nat, d: nat)
    requires LostAfter(parents, n, scope, k, d)
    ensures VerdictFrom(parents, n, scope, k) == Unknown
    decreases d
  {
    assert Ancestor(parents, n, 0) == Some(n);
    if d > 0 {
      AncestorDefined(parents, n, d, 1);
      LostStep(parents, n, scope, k, d - 1);
      LostIsUnknown(parents, parents[n].value, scope, k + 1, d - 1);
    }
  }

  lemma {:induction false} AncestorDefined(parents: ParentTable, n: NodeId, d: nat, e: nat)
    requires Ancestor(parents, n, d).Some? && e <= d
    ensures Ancestor(parents, n, e).Some?
    decreases e
  {
    if e > 0 { AncestorDefined(parents, parents[n].value, d - 1, e - 1); }
  }

  /** The three verdicts over any table: allow in scope; unknown exactly when the walk gets lost before
      anything settles it; deny otherwise. */
  lemma VerdictExactly(parents: ParentTable, n: NodeId, scope: Scope)
    ensures Verdict(parents, n, scope) == Allow <==> InScope(parents, n, scope)
    ensures Verdict(parents, n, scope) == Unknown <==> Lost(parents, n, scope)
    ensures Verdict(parents, n, scope) == Deny <==> !InScope(parents, n, scope) && !Lost(parents, n, scope)
  {
    hide VerdictFrom, PathInScope, LostAfter;
    AllowsExactly(parents, n, scope);
    if Verdict(parents, n, scope) == Unknown {
      var d := UnknownIsLost(parents, n, scope, 0);
    }
    if Lost(parents, n, scope) {
      var d: nat :| LostAfter(parents, n, scope, 0, d);
      LostIsUnknown(parents, n, scope, 0, d);
    }
    var v := Verdict(parents, n, scope);
    assert v == Allow || v == Deny || v == Unknown;
  }

  lemma {:induction false} AncestorAdd(parents: ParentTable, n: NodeId, a: nat, b: nat)
    requires Ancestor(parents, n, a).Some?
    ensures Ancestor(parents, n, a + b) == Ancestor(parents, Ancestor(parents, n, a).value, b)
    decreases a
  {
    if a > 0 { AncestorAdd(parents, parents[n].value, a - 1, b); }
  }

  /** Scopes compose: inside a scope whose root is inside another that is at least as permissive. */
  lemma ScopesCompose(parents: ParentTable, n: NodeId, inner: Scope, outer: Scope)
    requires Shallow(parents) && InScope(parents, n, inner) && InScope(parents, inner.root, outer)
    requires outer.maxDepth.None? && outer.exclude <= inner.exclude
    ensures InScope(parents, n, outer)
  {
    var a: nat :| PathInScope(parents, n, inner, 0, a);
    var b: nat :| PathInScope(parents, inner.root, outer, 0, b);
    AncestorAdd(parents, n, a, b);
    forall e: nat | e <= a + b && Ancestor(parents, n, e).Some?
      ensures Ancestor(parents, n, e).value !in outer.exclude
    {
      if e > a { AncestorAdd(parents, n, a, e - a); }
    }
    assert PathInScope(parents, n, outer, 0, a + b);
  }

  /** With the same root, more exclusions and a depth test that lets no further walk through, a
      scope only shrinks. */
  lemma ScopeShrinks(parents: ParentTable, n: NodeId, inner: Scope, outer: Scope)
    requires InScope(parents, n, inner) && inner.root == outer.root && outer.exclude <= inner.exclude
    requires forall d: nat | d < MAX_HOPS :: WithinDepth(inner.maxDepth, d) ==> WithinDepth(outer.maxDepth, d)
    ensures InScope(parents, n, outer)
  {
    var a: nat :| PathInScope(parents, n, inner, 0, a);
    assert PathInScope(parents, n, outer, 0, a);
  }

  // ----- a table with one long path -----

  /** Nodes base + 1 .. base + k above each other, the first one under root. */
  function PathTable(base: nat, root: NodeId, k: nat): ParentTable {
    map n: NodeId | base < n <= base + k :: NextOnPath(base, root, n)
  }

  function NextOnPath(base: nat, root: NodeId, n: NodeId): Option<NodeId> {
    if n <= base + 1 then Some(root) else Some(n - 1)
  }

  lemma {:induction false} PathAncestor(base: nat, root: NodeId, k: nat, i: nat, d: nat)
    requires TRASH <= base && root <= base && 1 <= i <= k
    ensures Ancestor(PathTable(base, root, k), base + i, d) ==
            if d < i then Some(base + i - d) else if d == i then Some(root) else None
    decreases d
  {
    var t := PathTable(base, root, k);
    if d > 0 {
      assert t[base + i] == Some(if i == 1 then root else base + i - 1);
      if i > 1 {
        PathAncestor(base, root, k, i - 1, d - 1);
      } else if d > 1 {
        assert root !in t;
      }
    }
  }

  lemma PathIsShallow(base: nat, root: NodeId, k: nat)
    requires TRASH <= base && root <= base && k < MAX_HOPS
    ensures Shallow(PathTable(base, root, k))
  {
    var t := PathTable(base, root, k);
    forall n: NodeId, d: nat | Ancestor(t, n, d).Some? ensures d < MAX_HOPS {
      if base < n <= base + k { PathAncestor(base, root, k, n - base, d); } else { assert n !in t; }
    }
  }

  /** The walk from the end of the path reaches the root after exactly k hops. */
  lemma PathScope(base: nat, k: nat, scope: Scope, d: nat)
    requires TRASH <= base && scope.root <= base && 1 <= k < MAX_HOPS
    requires forall x | x in scope.exclude :: x <= base
    ensures PathInScope(PathTable(base, scope.root, k), base + k, scope, 0, d)
       <==> d == k && scope.root !in scope.exclude && WithinDepth(scope.maxDepth, k)
  {
    hide PathTable, WithinDepth;
    var t, n := PathTable(base, scope.root, k), base + k;
    PathAncestor(base, scope.root, k, k, d);
    PathAncestor(base, scope.root, k, k, k);
    if d == k && scope.root !in scope.exclude {
      forall e: nat | e <= d && Ancestor(t, n, e).Some? ensures Ancestor(t, n, e).value !in scope.exclude {
        PathAncestor(base, scope.root, k, k, e);
      }
    }
  }

  lemma PathVerdict(base: nat, k: nat, scope: Scope)
    requires TRASH <= base && scope.root <= base && 1 <= k < MAX_HOPS
    requires forall x | x in scope.exclude :: x <= base
    ensures Verdict(PathTable(base, scope.root, k), base + k, scope) == Allow
       <==> scope.root !in scope.exclude && WithinDepth(scope.maxDepth, k)
  {
    hide PathTable, WithinDepth, Verdict, PathInScope;
    var t, n := PathTable(base, scope.root, k), base + k;
    AllowsExactly(t, n, scope);
    PathScope(base, k, scope, k);
    if InScope(t, n, scope) {
      var d: nat :| PathInScope(t, n, scope, 0, d);
      PathScope(base, k, scope, d);
    }
  }

  lemma {:induction false} BoundOf(s: set<NodeId>) returns (b: nat)
    ensures forall x | x in s :: x <= b
    decreases |s|
  {
    if s == {} { return 0; }
    var x :| x in s;
    var rest := BoundOf(s - {x});
    b := if rest < x then x else rest;
    forall y | y in s ensures y <= b { assert y == x || y in s - {x}; }
  }

  // ----- capabilities -----

  type Action = string

  function ExpandActions(actions: seq<Action>): set<Action> {
    var given := Elems(actions);
    given +
    (if "write_structure" in given || "write_payload" in given || "delete" in given || "tombstone" in given
     then {"read_structure"} else {}) +
    (if "write_payload" in given then {"read_payload"} else {})
  }

  /** Which actions a list grants: those it names; reading the structure with any right to change it;
      reading payloads with the right to write them. */
  lemma ExpandExactly(actions: seq<Action>, a: Action)
    ensures a in ExpandActions(actions) <==>
      || a in actions
      || (a == "read_structure" && ("write_structure" in actions || "write_payload" in actions
                                    || "delete" in actions || "tombstone" in actions))
      || (a == "read_payload" && "write_payload" in actions)
  {
  }

  /** The `res` claim; a scope that does not parse makes the check throw. */
  datatype Res = Res(docId: string, scope: Option<Scope>)

  /** A decoded capability; missing or ill-typed parts are None. */
  datatype Cap = Cap(res: Option<Res>, actions: Option<seq<Action>>)

  predicate IsDocWide(scope: Scope) {
    scope.root == ROOT && scope.maxDepth.None? && scope.exclude == {}
  }

  datatype ScopeError = BadScope

  /** A caller may have no evaluator. */
  type Evaluator = Option<(NodeId, Scope) -> Tri>

  function CapAllowsNode(cap: Cap, docId: string, node: NodeId, required: seq<Action>, evaluator: Evaluator)
    : Result<Tri, ScopeError>
  {
    if cap.res.None? || cap.actions.None? || cap.res.value.docId != docId then Ok(Deny)
    else if !(Elems(required) <= ExpandActions(cap.actions.value)) then Ok(Deny)
    else if cap.res.value.scope.None? then Err(BadScope)
    else
      var scope := cap.res.value.scope.value;
      if node == scope.root || IsDocWide(scope) then Ok(Allow)
      else if evaluator.None? then Ok(Unknown)
      else Ok(evaluator.value(node, scope))
  }

  /** The capability speaks about the document and grants the actions. */
  predicate Applies(cap: Cap, docId: string, required: seq<Action>) {
    && cap.res.Some? && cap.actions.Some? && cap.res.value.docId == docId
    && forall a | a in required :: a in ExpandActions(cap.actions.value)
  }

  /** Its scope takes the node in: it is the root, the whole document, or the evaluator allows it. */
  predicate TakesIn(scope: Scope, node: NodeId, evaluator: Evaluator) {
    || node == scope.root
    || (scope.root == ROOT && scope.maxDepth.None? && scope.exclude == {})
    || (evaluator.Some? && evaluator.value(node, scope) == Allow)
  }

  /** The verdict of one capability, case by case. */
  lemma CapAllowsExactly(cap: Cap, docId: string, node: NodeId, required: seq<Action>, evaluator: Evaluator)
    ensures
      var verdict := CapAllowsNode(cap, docId, node, required, evaluator);
      && (verdict.Err? <==> Applies(cap, docId, required) && cap.res.value.scope.None?)
      && (verdict == Ok(Allow) <==> Applies(cap, docId, required) && cap.res.value.scope.Some?
                                    && TakesIn(cap.res.value.scope.value, node, evaluator))
      && (verdict == Ok(Unknown) <==>
          && Applies(cap, docId, required) && cap.res.value.scope.Some?
          && !TakesIn(cap.res.value.scope.value, node, evaluator)
          && (evaluator.None? || evaluator.value(node, cap.res.value.scope.value) == Unknown))
  {
    hide ExpandActions;
    if cap.actions.Some? {
      assert Elems(required) <= ExpandActions(cap.actions.value) <==>
             forall a | a in required :: a in ExpandActions(cap.actions.value) by {
        assert forall a :: a in Elems(required) <==> a in required;
      }
    }
  }

  /** Best verdict over the capabilities, stopping at the first allow. */
  method CapsAllowNode(caps: seq<Cap>, docId: string, node: NodeId, required: seq<Action>, evaluator: Evaluator)
    returns (best: Result<Tri, ScopeError>)
    ensures best == Ok(Allow) <==> GrantedFirst(caps, docId, node, required, evaluator)
    ensures best == Ok(Deny) <==> AllDeny(caps, docId, node, required, evaluator)
    ensures best.Err? <==> ThrowsFirst(caps, docId, node, required, evaluator)
  {
    var tri := Deny;
    for i := 0 to |caps|
      invariant tri != Allow
      invariant forall j ::
        0 <= j < i ==> CapAllowsNode(caps[j], docId, node, required, evaluator) in {Ok(Deny), Ok(Unknown)}
      invariant tri == Deny <==> forall j :: 0 <= j < i ==>
        CapAllowsNode(caps[j], docId, node, required, evaluator) == Ok(Deny)
    {
      var verdict := CapAllowsNode(caps[i], docId, node, required, evaluator);
      if verdict.Err? {
        assert FirstThrow(caps, docId, node, required, evaluator, i);
        return Err(verdict.error);
      }
      tri := TriOr(tri, verdict.value);
      if tri == Allow {
        assert FirstAllow(caps, docId, node, required, evaluator, i);
        return Ok(Allow);
      }
    }
    return Ok(tri);
  }

  /** Capability i allows, and no earlier one allows or throws. */
  ghost predicate FirstAllow(caps: seq<Cap>, docId: string, node: NodeId, required: seq<Action>, evaluator: Evaluator,
                             i: int)
  {
    && 0 <= i < |caps| && CapAllowsNode(caps[i], docId, node, required, evaluator) == Ok(Allow)
    && forall j :: 0 <= j < i ==> CapAllowsNode(caps[j], docId, node, required, evaluator).Ok?
  }

  /** Capability i throws, and no earlier one allows or throws. */
  ghost predicate FirstThrow(caps: seq<Cap>, docId: string, node: NodeId, required: seq<Action>, evaluator: Evaluator,
                             i: int)
  {
    && 0 <= i < |caps| && CapAllowsNode(caps[i], docId, node, required, evaluator).Err?
    && forall j :: 0 <= j < i ==> CapAllowsNode(caps[j], docId, node, required, evaluator) in {Ok(Deny), Ok(Unknown)}
  }

  ghost predicate ThrowsFirst(caps: seq<Cap>, docId: string, node: NodeId, required: seq<Action>, evaluator: Evaluator)
  {
    exists i :: FirstThrow(caps, docId, node, required, evaluator, i)
  }

  ghost predicate AllDeny(caps: seq<Cap>, docId: string, node: NodeId, required: seq<Action>, evaluator: Evaluator) {
    forall i :: 0 <= i < |caps| ==> CapAllowsNode(caps[i], docId, node, required, evaluator) == Ok(Deny)
  }

  /** Some capability allows the node before any capability throws. */
  ghost predicate GrantedFirst(caps: seq<Cap>, docId: string, node: NodeId, required: seq<Action>, evaluator: Evaluator)
  {
    exists i :: FirstAllow(caps, docId, node, required, evaluator, i)
  }

  /** Some capability of the list allows the node. */
  ghost predicate CapsGrant(caps: seq<Cap>, docId: string, node: NodeId, required: seq<Action>, evaluator: Evaluator) {
    exists i :: 0 <= i < |caps| && CapAllowsNode(caps[i], docId, node, required, evaluator) == Ok(Allow)
  }

  /** A list that holds a capability allowing the node never answers deny or unknown: it allows, or
      an earlier capability makes the check throw, and exactly one of the two. */
  lemma GrantingAllowsOrThrows(caps: seq<Cap>, docId: string, node: NodeId, required: seq<Action>, evaluator: Evaluator)
    requires CapsGrant(caps, docId, node, required, evaluator)
    ensures !AllDeny(caps, docId, node, required, evaluator)
    ensures GrantedFirst(caps, docId, node, required, evaluator) <==>
            !ThrowsFirst(caps, docId, node, required, evaluator)
  {
    hide CapAllowsNode;
    var i := 0;
    while CapAllowsNode(caps[i], docId, node, required, evaluator) in {Ok(Deny), Ok(Unknown)}
      invariant 0 <= i < |caps|
      invariant forall j :: 0 <= j < i ==>
        CapAllowsNode(caps[j], docId, node, required, evaluator) in {Ok(Deny), Ok(Unknown)}
      decreases |caps| - i
    {
      var k :| 0 <= k < |caps| && CapAllowsNode(caps[k], docId, node, required, evaluator) == Ok(Allow);
      assert k != i && !(0 <= k < i);
      i := i + 1;
    }
    if CapAllowsNode(caps[i], docId, node, required, evaluator).Err? {
      assert FirstThrow(caps, docId, node, required, evaluator, i);
    } else {
      var verdict := CapAllowsNode(caps[i], docId, node, required, evaluator).value;
      assert verdict == Allow || verdict == Deny || verdict == Unknown;
      assert FirstAllow(caps, docId, node, required, evaluator, i);
    }
  }

  /** Every capability for the document has a scope that parses. */
  predicate WellScoped(caps: seq<Cap>, docId: string) {
    forall cap | cap in caps :: cap.res.Some? && cap.res.value.docId == docId ==> cap.res.value.scope.Some?
  }

  lemma WellScopedNeverThrows(caps: seq<Cap>, docId: string, node: NodeId, required: seq<Action>, evaluator: Evaluator)
    requires WellScoped(caps, docId)
    ensures !ThrowsFirst(caps, docId, node, required, evaluator)
  {
    forall i | 0 <= i < |caps|
      ensures !FirstThrow(caps, docId, node, required, evaluator, i)
    {
      assert caps[i] in caps;
    }
  }

  // ----- operations -----

  function RequiredActions(kind: Kind): seq<Action> {
    match kind
    case Insert(_, _, _, payload) => if payload.Some? then ["write_structure", "write_payload"] else ["write_structure"]
    case Move(_, _, _) => ["write_structure"]
    case Delete(_) => ["delete"]
    case Tombstone(_) => ["tombstone"]
    case SetPayload(_, _) => ["write_payload"]
  }

  /** The nodes an operation must be allowed on: an insert its parent, a move both ends. */
  function CheckedNodes(kind: Kind): seq<NodeId> {
    match kind
    case Insert(p, _, _, _) => [p]
    case Move(n, p, _) => [n, p]
    case _ => [kind.node]
  }

  /** Every node the operation must be allowed on is allowed. */
  ghost predicate OpGranted(caps: seq<Cap>, docId: string, kind: Kind, evaluator: Evaluator) {
    forall n | n in CheckedNodes(kind) :: GrantedFirst(caps, docId, n, RequiredActions(kind), evaluator)
  }

  ghost predicate OpThrows(caps: seq<Cap>, docId: string, kind: Kind, evaluator: Evaluator) {
    exists n :: n in CheckedNodes(kind) && ThrowsFirst(caps, docId, n, RequiredActions(kind), evaluator)
  }

  /** The conjunction over the required checks of the best verdict over the capabilities. */
  method CapsAllowOp(caps: seq<Cap>, docId: string, kind: Kind, evaluator: Evaluator)
    returns (overall: Result<Tri, ScopeError>)
    ensures overall == Ok(Allow) <==> OpGranted(caps, docId, kind, evaluator)
    ensures overall.Err? <==> OpThrows(caps, docId, kind, evaluator)
    ensures overall.Ok? ==> (overall.value == Deny <==>
      exists n :: n in CheckedNodes(kind) && AllDeny(caps, docId, n, RequiredActions(kind), evaluator))
  {
    hide GrantedFirst, ThrowsFirst, AllDeny;
    var nodes, actions := CheckedNodes(kind), RequiredActions(kind);
    var tri := Allow;
    for i := 0 to |nodes|
      invariant tri == Allow <==> forall j :: 0 <= j < i ==> GrantedFirst(caps, docId, nodes[j], actions, evaluator)
      invariant forall j :: 0 <= j < i ==> !ThrowsFirst(caps, docId, nodes[j], actions, evaluator)
      invariant tri == Deny <==> exists j :: 0 <= j < i && AllDeny(caps, docId, nodes[j], actions, evaluator)
    {
      var best := CapsAllowNode(caps, docId, nodes[i], actions, evaluator);
      if best.Err? {
        assert nodes[i] in CheckedNodes(kind);
        return Err(best.error);
      }
      tri := TriAnd(tri, best.value);
    }
    return Ok(tri);
  }

  /** Some capability for the document lists all these actions and takes the node in. */
  ghost predicate Licensed(caps: seq<Cap>, docId: string, node: NodeId, listed: set<Action>, evaluator: Evaluator) {
    exists cap :: cap in caps && LicensedBy(cap, docId, node, listed, evaluator)
  }

  ghost predicate LicensedBy(cap: Cap, docId: string, node: NodeId, listed: set<Action>, evaluator: Evaluator) {
    && cap.res.Some? && cap.actions.Some? && cap.res.value.docId == docId && cap.res.value.scope.Some?
    && TakesIn(cap.res.value.scope.value, node, evaluator)
    && forall a | a in listed :: a in cap.actions.value
  }

  lemma LicensedExactly(caps: seq<Cap>, docId: string, node: NodeId, required: seq<Action>, evaluator: Evaluator)
    requires forall a | a in required :: a in {"write_structure", "write_payload", "delete", "tombstone"}
    ensures CapsGrant(caps, docId, node, required, evaluator) <==>
      Licensed(caps, docId, node, Elems(required), evaluator)
  {
    hide CapAllowsNode, TakesIn, ExpandActions;
    forall cap | cap in caps
      ensures CapAllowsNode(cap, docId, node, required, evaluator) == Ok(Allow) <==>
              LicensedBy(cap, docId, node, Elems(required), evaluator)
    {
      CapAllowsExactly(cap, docId, node, required, evaluator);
      if cap.actions.Some? {
        forall a | a in required ensures a in ExpandActions(cap.actions.value) <==> a in cap.actions.value {
          ExpandExactly(cap.actions.value, a);
          WriteIsNotRead(a);
        }
        assert forall a :: a in Elems(required) <==> a in required;
      }
    }
    if CapsGrant(caps, docId, node, required, evaluator) {
      var i :| 0 <= i < |caps| && CapAllowsNode(caps[i], docId, node, required, evaluator) == Ok(Allow);
      assert caps[i] in caps;
    }
    if Licensed(caps, docId, node, Elems(required), evaluator) {
      var cap :| cap in caps && LicensedBy(cap, docId, node, Elems(required), evaluator);
      var i :| 0 <= i < |caps| && caps[i] == cap;
      assert CapAllowsNode(caps[i], docId, node, required, evaluator) == Ok(Allow);
    }
  }

  lemma WriteIsNotRead(a: Action)
    requires a in {"write_structure", "write_payload", "delete", "tombstone"}
    ensures a != "read_structure" && a != "read_payload"
  {
    assert a[0] != "r"[0];
  }

  /** Which actions on which nodes an operation needs listed, kind by kind; exactly that, when all
      scopes parse. */
  lemma OpNeeds(caps: seq<Cap>, docId: string, kind: Kind, evaluator: Evaluator)
    requires WellScoped(caps, docId)
    ensures OpGranted(caps, docId, kind, evaluator) <==>
      match kind
      case Insert(p, _, _, None) => Licensed(caps, docId, p, {"write_structure"}, evaluator)
      case Insert(p, _, _, Some(_)) => Licensed(caps, docId, p, {"write_structure", "write_payload"}, evaluator)
      case Move(n, p, _) =>
        && Licensed(caps, docId, n, {"write_structure"}, evaluator)
        && Licensed(caps, docId, p, {"write_structure"}, evaluator)
      case Delete(n) => Licensed(caps, docId, n, {"delete"}, evaluator)
      case Tombstone(n) => Licensed(caps, docId, n, {"tombstone"}, evaluator)
      case SetPayload(n, _) => Licensed(caps, docId, n, {"write_payload"}, evaluator)
  {
    hide Licensed, GrantedFirst, WellScoped;
    var required := RequiredActions(kind);
    forall n | n in CheckedNodes(kind)
      ensures GrantedFirst(caps, docId, n, required, evaluator) <==>
        Licensed(caps, docId, n, Elems(required), evaluator)
    {
      GrantedIsLicensed(caps, docId, n, required, evaluator);
    }
    assert Elems(["write_structure"]) == {"write_structure"};
    assert Elems(["write_structure", "write_payload"]) == {"write_structure", "write_payload"};
    assert Elems(["delete"]) == {"delete"} && Elems(["tombstone"]) == {"tombstone"};
    assert Elems(["write_payload"]) == {"write_payload"};
    if kind.Move? {
      assert kind.node in CheckedNodes(kind) && kind.newParent in CheckedNodes(kind);
    } else {
      assert CheckedNodes(kind)[0] in CheckedNodes(kind);
    }
  }

  lemma GrantedIsLicensed(caps: seq<Cap>, docId: string, node: NodeId, required: seq<Action>, evaluator: Evaluator)
    requires WellScoped(caps, docId)
    requires forall a | a in required :: a in {"write_structure", "write_payload", "delete", "tombstone"}
    ensures GrantedFirst(caps, docId, node, required, evaluator) <==>
            Licensed(caps, docId, node, Elems(required), evaluator)
  {
    hide CapAllowsNode, Licensed;
    LicensedExactly(caps, docId, node, required, evaluator);
    WellScopedNeverThrows(caps, docId, node, required, evaluator);
    if CapsGrant(caps, docId, node, required, evaluator) {
      GrantingAllowsOrThrows(caps, docId, node, required, evaluator);
    }
    if GrantedFirst(caps, docId, node, required, evaluator) {
      var i :| FirstAllow(caps, docId, node, required, evaluator, i);
      assert CapsGrant(caps, docId, node, required, evaluator);
    }
  }
}
