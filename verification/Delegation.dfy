/** Capability tokens and delegation chains. A delegated token is accepted only inside its proof, so
    whatever the check allows the leaf of a verified chain, it allows the issuer-signed token at its
    top too, unless a NaN along the chain slips through the comparison with a bound, or the check of
    the top token throws on a scope of that token that does not parse. */
module Delegation {
  import opened Basics
  import opened Operations
  import opened Scopes

  type Key = Bytes

  const MAX_DELEGATION_PROOF_CHAIN: nat := 8

  // ----- claims and grants -----

  datatype Audience = NoAudience | Audience(docs: seq<string>) | BadAudience

  /** Decoded CWT claims; `key` is cnf.pub, and `kidMatches` says cnf.kid is absent or derived from it. */
  datatype Claims = Claims(aud: Audience, exp: Option<Number>, nbf: Option<Number>, key: Option<Key>, kidMatches: bool,
                           caps: Option<seq<Cap>>)

  datatype Grant = Grant(key: Key, caps: seq<Cap>, exp: Option<Number>, nbf: Option<Number>)

  datatype AuthError =
    | NoIssuers | ChainTooDeep | ProofCycle | Revoked | NoProof | BadProof | BadSignature
    | BadClaims | WrongAudience | Expired | NotYetValid | BadKey | NoCaps
    | OutsideWindow | BadDelegatedCap | WrongDocument | OutsideScope | NotGranted

  /** `parseCapabilityGrantFromClaims` */
  function ParseGrant(claims: Option<Claims>, docId: string, now: Number): Result<Grant, AuthError> {
    if claims.None? then Err(BadClaims)
    else
      var c := claims.value;
      if c.aud.BadAudience? then Err(BadClaims)
      else if c.aud.Audience? && docId !in c.aud.docs then Err(WrongAudience)
      else if c.exp.Some? && Less(c.exp.value, now) then Err(Expired)
      else if c.nbf.Some? && Less(now, c.nbf.value) then Err(NotYetValid)
      else if c.key.None? || !c.kidMatches then Err(BadKey)
      else if c.caps.None? || c.caps.value == [] then Err(NoCaps)
      else Ok(Grant(c.key.value, c.caps.value, c.exp, c.nbf))
  }

  // ----- a delegated grant within its proof -----

  /** The window tests: nothing exceeds the proof's bounds as far as the comparisons can tell. */
  predicate WindowAccepted(proof: Grant, delegated: Grant) {
    && (proof.exp.Some? ==> delegated.exp.Some? && !Less(proof.exp.value, delegated.exp.value))
    && (proof.nbf.Some? ==> delegated.nbf.Some? && !Less(delegated.nbf.value, proof.nbf.value))
  }

  /** Whether a proof capability is the one a delegated capability is checked against. */
  predicate Eligible(docId: string, delegated: Cap, proof: Cap)
    requires delegated.actions.Some?
  {
    && proof.res.Some? && proof.actions.Some? && proof.actions.value != [] && proof.res.value.docId == docId
    && "grant" in ExpandActions(proof.actions.value)
    && ExpandActions(delegated.actions.value) <= ExpandActions(proof.actions.value)
  }

  /** The delegated scope against the scope of the eligible proof capability. */
  function ScopeWithin(proof: Scope, delegated: Scope, evaluator: Evaluator): Result<(), AuthError> {
    if IsDocWide(proof) then Ok(())
    else if delegated.root != proof.root && proof.maxDepth.Some? then Err(OutsideScope)
    else if delegated.root != proof.root && evaluator.None? then Err(OutsideScope)
    else if delegated.root != proof.root && evaluator.value(delegated.root, proof) != Allow then Err(OutsideScope)
    else if proof.maxDepth.Some? && delegated.maxDepth.None? then Err(OutsideScope)
    else if proof.maxDepth.Some? && Less(proof.maxDepth.value, delegated.maxDepth.value) then Err(OutsideScope)
    else if !(proof.exclude <= delegated.exclude) then Err(OutsideScope)
    else Ok(())
  }

  /** One delegated capability against the proof's: the first eligible one decides. */
  function CapWithin(docId: string, delegated: Cap, proofs: seq<Cap>, evaluator: Evaluator): Result<(), AuthError>
    requires delegated.res.Some? && delegated.actions.Some?
  {
    if proofs == [] then Err(NotGranted)
    else if !Eligible(docId, delegated, proofs[0]) then CapWithin(docId, delegated, proofs[1..], evaluator)
    else if proofs[0].res.value.scope.None? || delegated.res.value.scope.None? then Err(OutsideScope)
    else ScopeWithin(proofs[0].res.value.scope.value, delegated.res.value.scope.value, evaluator)
  }

  function CheckedCap(docId: string, delegated: Cap, proofs: seq<Cap>, evaluator: Evaluator): Result<(), AuthError> {
    if delegated.res.None? || delegated.actions.None? || delegated.actions.value == [] then Err(BadDelegatedCap)
    else if delegated.res.value.docId != docId then Err(WrongDocument)
    else CapWithin(docId, delegated, proofs, evaluator)
  }

  function CapsWithin(docId: string, delegated: seq<Cap>, proofs: seq<Cap>, evaluator: Evaluator): Result<(),
                      AuthError>
  {
    if delegated == [] then Ok(())
    else
      var first := CheckedCap(docId, delegated[0], proofs, evaluator);
      if first.Err? then first else CapsWithin(docId, delegated[1..], proofs, evaluator)
  }

  function GrantWithin(docId: string, proof: Grant, delegated: Grant, evaluator: Evaluator): Result<(), AuthError> {
    if !WindowAccepted(proof, delegated) then Err(OutsideWindow)
    else CapsWithin(docId, delegated.caps, proof.caps, evaluator)
  }

  /** `assertDelegatedGrantWithinProof`, with its loops and flags. */
  method AssertDelegatedGrantWithinProof(docId: string, proof: Grant, delegated: Grant, evaluator: Evaluator)
    returns (r: Result<(), AuthError>)
    ensures r == GrantWithin(docId, proof, delegated, evaluator)
  {
    hide ExpandActions, Less;
    if proof.exp.Some? && (delegated.exp.None? || Less(proof.exp.value, delegated.exp.value)) {
      return Err(OutsideWindow);
    }
    if proof.nbf.Some? && (delegated.nbf.None? || Less(delegated.nbf.value, proof.nbf.value)) {
      return Err(OutsideWindow);
    }
    for i := 0 to |delegated.caps|
      invariant CapsWithin(docId, delegated.caps, proof.caps, evaluator) ==
                CapsWithin(docId, delegated.caps[i..], proof.caps, evaluator)
    {
      var cap := delegated.caps[i];
      assert delegated.caps[i..][1..] == delegated.caps[i + 1..];
      if cap.res.None? || cap.actions.None? || cap.actions.value == [] { return Err(BadDelegatedCap); }
      if cap.res.value.docId != docId { return Err(WrongDocument); }
      var actions := ExpandActions(cap.actions.value);
      var matched := false;
      var j := 0;
      while j < |proof.caps| && !matched
        invariant 0 <= j <= |proof.caps|
        invariant CheckedCap(docId, cap, proof.caps, evaluator) ==
                  if matched then Ok(()) else CapWithin(docId, cap, proof.caps[j..], evaluator)
        decreases |proof.caps| - j, !matched
      {
        var proofCap := proof.caps[j];
        assert proof.caps[j..][1..] == proof.caps[j + 1..];
        j := j + 1;
        if proofCap.res.None? || proofCap.actions.None? || proofCap.actions.value == [] { continue; }
        if proofCap.res.value.docId != docId { continue; }
        var proofActions := ExpandActions(proofCap.actions.value);
        if "grant" !in proofActions || !(actions <= proofActions) { continue; }
        if proofCap.res.value.scope.None? || cap.res.value.scope.None? { return Err(OutsideScope); }
        var within := ScopeWithin(proofCap.res.value.scope.value, cap.res.value.scope.value, evaluator);
        if within.Err? { return within; }
        matched := true;
      }
      if !matched { return Err(NotGranted); }
    }
    return Ok(());
  }

  // ----- tokens -----

  /** A COSE_Sign1 token: its derived id, the key that signed it, its payload if that decodes, and
      the delegation proof of its unprotected header. */
  datatype Token = Token(id: string, signer: Key, claims: Option<Claims>, proof: ProofHeader)

  datatype ProofHeader = Missing | IllTyped | Tokens(tokens: seq<Token>)

  /** What stays the same along a verification. */
  datatype Context = Context(issuers: seq<Key>, docId: string, now: Number, evaluator: Evaluator, revoked: (string,
                             nat) -> bool)

  /** `parseAndVerifyCapabilityTokenDepth` */
  function Verify(token: Token, c: Context, depth: nat, seen: set<string>): Result<Grant, AuthError>
    decreases token
  {
    if c.issuers == [] then Err(NoIssuers)
    else if depth > MAX_DELEGATION_PROOF_CHAIN then Err(ChainTooDeep)
    else if token.id in seen then Err(ProofCycle)
    else if c.revoked(token.id, depth) then Err(Revoked)
    else if token.signer in c.issuers then ParseGrant(token.claims, c.docId, c.now)
    else
      match token.proof
      case Missing => Err(NoProof)
      case IllTyped => Err(BadProof)
      case Tokens(tokens) =>
        if |tokens| != 1 then Err(BadProof)
        else
          var proof := Verify(tokens[0], c, depth + 1, seen + {token.id});
          if proof.Err? then proof
          else if token.signer != proof.value.key then Err(BadSignature)
          else
            var grant := ParseGrant(token.claims, c.docId, c.now);
            if grant.Err? then grant
            else
              var within := GrantWithin(c.docId, proof.value, grant.value, c.evaluator);
              if within.Err? then Err(within.error) else grant
  }

  /** The chain of proofs from a token up to the first issuer-signed one. */
  function Chain(token: Token, issuers: seq<Key>): seq<Token>
    decreases token
  {
    if token.signer in issuers then [token]
    else if token.proof.Tokens? && |token.proof.tokens| == 1 then [token] + Chain(token.proof.tokens[0], issuers)
    else []
  }

  // ----- what an accepted window and scope are worth -----

  /** The time tests of a token. */
  predicate ValidAt(g: Grant, now: Number) {
    !(g.exp.Some? && Less(g.exp.value, now)) && !(g.nbf.Some? && Less(now, g.nbf.value))
  }

  ghost predicate WindowInside(proof: Grant, delegated: Grant) {
    forall now: Number :: ValidAt(delegated, now) ==> ValidAt(proof, now)
  }

  /** A NaN bound slips through the comparison with a proof's bound that some time violates. */
  predicate LosesWindow(proof: Grant, delegated: Grant) {
    || (delegated.exp == Some(NaN) && proof.exp.Some? && (proof.exp.value.NegInf? || proof.exp.value.Fin?))
    || (delegated.nbf == Some(NaN) && proof.nbf.Some? && (proof.nbf.value.Fin? || proof.nbf.value.PosInf?))
  }

  /** An accepted window lies inside the proof's exactly when no NaN stands against such a bound. */
  lemma WindowExactly(proof: Grant, delegated: Grant)
    requires WindowAccepted(proof, delegated)
    ensures WindowInside(proof, delegated) <==> !LosesWindow(proof, delegated)
  {
    if LosesWindow(proof, delegated) {
      if delegated.exp == Some(NaN) && proof.exp.Some? && (proof.exp.value.NegInf? || proof.exp.value.Fin?) {
        assert ValidAt(delegated, PosInf) && !ValidAt(proof, PosInf);
      } else {
        assert ValidAt(delegated, NegInf) && !ValidAt(proof, NegInf);
      }
    }
  }

  /** The evaluator over a fixed parent table. */
  function Over(parents: ParentTable): Evaluator {
    Some((n: NodeId, s: Scope) => Verdict(parents, n, s))
  }

  predicate ScopeAllows(parents: ParentTable, scope: Scope, n: NodeId) {
    n == scope.root || IsDocWide(scope) || Verdict(parents, n, scope) == Allow
  }

  /** Some depth below the hop bound is denied. */
  predicate Bites(maxDepth: Option<Number>) {
    maxDepth.Some? && (maxDepth.value.NegInf? || (maxDepth.value.Fin? && maxDepth.value.value < (MAX_HOPS - 1) as real))
  }

  /** A delegated depth of NaN slips through the comparison with a depth that bites. */
  predicate LiftsDepth(proof: Scope, delegated: Scope) {
    && delegated.maxDepth == Some(NaN) && Bites(proof.maxDepth)
    && delegated.root == proof.root && proof.exclude <= delegated.exclude && delegated.root !in delegated.exclude
  }

  lemma DepthKept(proof: Scope, delegated: Scope, d: nat)
    requires proof.maxDepth.Some? ==> delegated.maxDepth.Some? && !Less(proof.maxDepth.value, delegated.maxDepth.value)
    requires delegated.maxDepth == Some(NaN) ==> !Bites(proof.maxDepth)
    requires d < MAX_HOPS && WithinDepth(delegated.maxDepth, d)
    ensures WithinDepth(proof.maxDepth, d)
  {
  }

  /** An accepted scope that does not lift the depth allows no node the proof's does not. */
  lemma ScopeWithinAllows(parents: ParentTable, proof: Scope, delegated: Scope, n: NodeId)
    requires Shallow(parents) && ScopeWithin(proof, delegated, Over(parents)).Ok? && !LiftsDepth(proof, delegated)
    requires ScopeAllows(parents, delegated, n)
    ensures ScopeAllows(parents, proof, n)
  {
    AllowsExactly(parents, n, delegated);
    AllowsExactly(parents, n, proof);
    AllowsExactly(parents, delegated.root, proof);
    if IsDocWide(proof) {
    } else if delegated.root == proof.root {
      if n != proof.root {
        if delegated.root in delegated.exclude { RootExcluded(parents, n, delegated); }
        forall d: nat | d < MAX_HOPS && WithinDepth(delegated.maxDepth, d) ensures WithinDepth(proof.maxDepth, d) {
          DepthKept(proof, delegated, d);
        }
        ScopeShrinks(parents, n, delegated, proof);
      }
    } else {
      assert Verdict(parents, delegated.root, proof) == Allow;
      if n != delegated.root { ScopesCompose(parents, n, delegated, proof); }
    }
  }

  lemma RootExcluded(parents: ParentTable, n: NodeId, scope: Scope)
    requires scope.root in scope.exclude
    ensures !InScope(parents, n, scope)
  {
  }

  /** A depth that the proof denies and NaN lets through. */
  lemma DeniedDepth(maxDepth: Option<Number>) returns (k: nat)
    requires Bites(maxDepth)
    ensures 1 <= k < MAX_HOPS && !WithinDepth(maxDepth, k)
  {
    if maxDepth.value.NegInf? || maxDepth.value.value < 0.0 { return 1; }
    k := maxDepth.value.value.Floor + 1;
  }

  /** The escape: a table in which the delegated scope is accepted and allows a node too deep. */
  lemma LiftedEscapes(proof: Scope, delegated: Scope) returns (parents: ParentTable, n: NodeId)
    requires LiftsDepth(proof, delegated)
    ensures Shallow(parents) && ScopeWithin(proof, delegated, Over(parents)).Ok?
    ensures ScopeAllows(parents, delegated, n) && !ScopeAllows(parents, proof, n)
  {
    var k := DeniedDepth(proof.maxDepth);
    var b := BoundOf(delegated.exclude + {delegated.root, TRASH});
    parents, n := PathTable(b, delegated.root, k), b + k;
    PathIsShallow(b, delegated.root, k);
    PathVerdict(b, k, delegated);
    PathVerdict(b, k, proof);
  }

  /** Over all shallow parent tables: acceptance of a scope means that it allows no more than the
      proof's, exactly when it does not lift the depth. */
  lemma ScopeWithinExactly(proof: Scope, delegated: Scope)
    ensures !LiftsDepth(proof, delegated) <==>
      forall parents: ParentTable, n: NodeId ::
        Shallow(parents) && ScopeWithin(proof, delegated, Over(parents)).Ok? && ScopeAllows(parents, delegated, n) ==>
        ScopeAllows(parents, proof, n)
  {
    if LiftsDepth(proof, delegated) {
      var parents, n := LiftedEscapes(proof, delegated);
    } else {
      forall parents: ParentTable, n: NodeId |
        Shallow(parents) && ScopeWithin(proof, delegated, Over(parents)).Ok? && ScopeAllows(parents, delegated, n)
        ensures ScopeAllows(parents, proof, n)
      {
        ScopeWithinAllows(parents, proof, delegated, n);
      }
    }
  }

  // ----- what is accepted, exactly -----

  /** The claims address the document, or nobody in particular. */
  predicate Addresses(claims: Claims, docId: string) {
    claims.aud.NoAudience? || (claims.aud.Audience? && docId in claims.aud.docs)
  }

  /** Claims give a grant exactly when they decode, address the document, are valid now, carry a key
      with its id and at least one capability; and the grant holds just what they say. */
  lemma ParseExactly(claims: Option<Claims>, docId: string, now: Number)
    ensures ParseGrant(claims, docId, now).Ok? <==>
      && claims.Some? && Addresses(claims.value, docId)
      && claims.value.key.Some? && claims.value.kidMatches && claims.value.caps.Some? && claims.value.caps.value != []
      && ValidAt(Grant(claims.value.key.value, claims.value.caps.value, claims.value.exp, claims.value.nbf), now)
    ensures ParseGrant(claims, docId, now).Ok? ==>
      var g, c := ParseGrant(claims, docId, now).value, claims.value;
      c.key == Some(g.key) && c.caps == Some(g.caps) && c.exp == g.exp && c.nbf == g.nbf && ValidAt(g, now)
  {
  }

  /** A bound of the delegated token is there and not past the proof's, or one of the two is NaN. */
  predicate BoundKept(proof: Option<Number>, delegated: Option<Number>) {
    proof.Some? ==>
      delegated.Some? && (AtLeast(proof.value, delegated.value) || proof.value.NaN? || delegated.value.NaN?)
  }

  /** The same for the start of a window. */
  predicate StartKept(proof: Option<Number>, delegated: Option<Number>) {
    proof.Some? ==>
      delegated.Some? && (AtLeast(delegated.value, proof.value) || proof.value.NaN? || delegated.value.NaN?)
  }

  /** The proof capability may be passed on: it names the document and the grant action, and all that
      the delegated one asks for. */
  predicate MayPassOn(docId: string, proof: Cap, delegated: Cap) {
    && proof.res.Some? && proof.res.value.docId == docId && proof.actions.Some? && delegated.actions.Some?
    && "grant" in proof.actions.value
    && forall a | a in ExpandActions(delegated.actions.value) :: a in ExpandActions(proof.actions.value)
  }

  /** The delegated scope may be taken from the proof's. */
  predicate MayNarrow(proof: Scope, delegated: Scope, evaluator: Evaluator) {
    || (proof.root == ROOT && proof.maxDepth.None? && proof.exclude == {})
    || (&& BoundKept(proof.maxDepth, delegated.maxDepth)
        && (forall x | x in proof.exclude :: x in delegated.exclude)
        && (|| delegated.root == proof.root
            || (proof.maxDepth.None? && evaluator.Some? && evaluator.value(delegated.root, proof) == Allow)))
  }

  /** One delegated capability is covered by the first of the proof's that may be passed on. */
  ghost predicate CapAccepted(docId: string, delegated: Cap, proofs: seq<Cap>, evaluator: Evaluator) {
    && delegated.res.Some? && delegated.actions.Some? && delegated.actions.value != []
    && delegated.res.value.docId == docId
    && exists j: nat :: PassedOnBy(docId, delegated, proofs, evaluator, j)
  }

  ghost predicate PassedOnBy(docId: string, delegated: Cap, proofs: seq<Cap>, evaluator: Evaluator, j: nat)
    requires delegated.res.Some?
  {
    && j < |proofs| && MayPassOn(docId, proofs[j], delegated)
    && (forall k | 0 <= k < j :: !MayPassOn(docId, proofs[k], delegated))
    && proofs[j].res.value.scope.Some? && delegated.res.value.scope.Some?
    && MayNarrow(proofs[j].res.value.scope.value, delegated.res.value.scope.value, evaluator)
  }

  lemma EligibleExactly(docId: string, delegated: Cap, proof: Cap)
    requires delegated.actions.Some?
    ensures Eligible(docId, delegated, proof) <==> MayPassOn(docId, proof, delegated)
  {
    if proof.actions.Some? {
      ExpandExactly(proof.actions.value, "grant");
      assert "grant"[0] != "read_structure"[0] && "grant"[0] != "read_payload"[0];
    }
  }

  lemma ScopeWithinIffMayNarrow(proof: Scope, delegated: Scope, evaluator: Evaluator)
    ensures ScopeWithin(proof, delegated, evaluator).Ok? <==> MayNarrow(proof, delegated, evaluator)
  {
  }

  lemma {:induction false} CapWithinExactly(docId: string, delegated: Cap, proofs: seq<Cap>, evaluator: Evaluator)
    requires delegated.res.Some? && delegated.actions.Some?
    ensures CapWithin(docId, delegated, proofs, evaluator).Ok? <==>
            exists j: nat :: PassedOnBy(docId, delegated, proofs, evaluator, j)
  {
    hide MayNarrow, MayPassOn, ScopeWithin, Eligible;
    if proofs != [] {
      var rest := proofs[1..];
      EligibleExactly(docId, delegated, proofs[0]);
      if MayPassOn(docId, proofs[0], delegated) {
        FirstPassesOn(docId, delegated, proofs, evaluator);
      } else {
        CapWithinExactly(docId, delegated, rest, evaluator);
        if j: nat :| PassedOnBy(docId, delegated, rest, evaluator, j) {
          assert PassedOnBy(docId, delegated, proofs, evaluator, j + 1);
        }
        if j: nat :| PassedOnBy(docId, delegated, proofs, evaluator, j) {
          assert j > 0;
          assert PassedOnBy(docId, delegated, rest, evaluator, j - 1);
        }
      }
    }
  }

  lemma FirstPassesOn(docId: string, delegated: Cap, proofs: seq<Cap>, evaluator: Evaluator)
    requires delegated.res.Some? && delegated.actions.Some? && proofs != [] && MayPassOn(docId, proofs[0], delegated)
    ensures CapWithin(docId, delegated, proofs, evaluator).Ok? <==>
            exists j: nat :: PassedOnBy(docId, delegated, proofs, evaluator, j)
  {
    hide MayNarrow, ScopeWithin;
    EligibleExactly(docId, delegated, proofs[0]);
    var p := proofs[0].res.value.scope;
    if p.Some? && delegated.res.value.scope.Some? {
      ScopeWithinIffMayNarrow(p.value, delegated.res.value.scope.value, evaluator);
      if MayNarrow(p.value, delegated.res.value.scope.value, evaluator) {
        assert PassedOnBy(docId, delegated, proofs, evaluator, 0);
      }
    }
    if j: nat :| PassedOnBy(docId, delegated, proofs, evaluator, j) { assert j == 0; }
  }

  lemma {:induction false} CapsWithinExactly(docId: string, delegated: seq<Cap>, proofs: seq<Cap>, evaluator: Evaluator)
    ensures CapsWithin(docId, delegated, proofs, evaluator).Ok? <==>
            forall i | 0 <= i < |delegated| :: CapAccepted(docId, delegated[i], proofs, evaluator)
  {
    hide CapWithin, PassedOnBy;
    if delegated != [] {
      CapsWithinExactly(docId, delegated[1..], proofs, evaluator);
      var cap := delegated[0];
      if cap.res.Some? && cap.actions.Some? { CapWithinExactly(docId, cap, proofs, evaluator); }
      assert CheckedCap(docId, cap, proofs, evaluator).Ok? <==> CapAccepted(docId, cap, proofs, evaluator);
      forall i | 0 < i < |delegated| ensures delegated[i] == delegated[1..][i - 1] { }
    }
  }

  /** A delegated grant is accepted exactly when its bounds are kept and each of its capabilities is
      covered by the first of the proof's that may be passed on. */
  lemma GrantWithinExactly(docId: string, proof: Grant, delegated: Grant, evaluator: Evaluator)
    ensures GrantWithin(docId, proof, delegated, evaluator).Ok? <==>
      && BoundKept(proof.exp, delegated.exp)
      && StartKept(proof.nbf, delegated.nbf)
      && forall i | 0 <= i < |delegated.caps| :: CapAccepted(docId, delegated.caps[i], proof.caps, evaluator)
  {
    hide CapsWithin, CapAccepted;
    CapsWithinExactly(docId, delegated.caps, proof.caps, evaluator);
  }

  // ----- soundness of links and chains -----

  /** The proof capability that decides about a delegated one: the first eligible. */
  function Decider(docId: string, delegated: Cap, proofs: seq<Cap>): Option<Cap>
    requires delegated.actions.Some?
  {
    if proofs == [] then None
    else if Eligible(docId, delegated, proofs[0]) then Some(proofs[0]) else Decider(docId, delegated, proofs[1..])
  }

  /** The delegated capability lifts the depth of the one that decides about it. */
  predicate CapLifts(docId: string, delegated: Cap, proofs: seq<Cap>) {
    && delegated.res.Some? && delegated.actions.Some? && delegated.actions.value != []
    && delegated.res.value.docId == docId
    && var proof := Decider(docId, delegated, proofs);
       proof.Some? && proof.value.res.Some? && proof.value.res.value.scope.Some? && delegated.res.value.scope.Some?
       && LiftsDepth(proof.value.res.value.scope.value, delegated.res.value.scope.value)
  }

  /** No bound of the proof is lifted by a NaN of the delegated token. */
  predicate BoundsKept(docId: string, proof: Grant, delegated: Grant) {
    && !LosesWindow(proof, delegated)
    && forall i :: 0 <= i < |delegated.caps| ==> !CapLifts(docId, delegated.caps[i], proof.caps)
  }

  lemma {:induction false} DeciderDecides(docId: string, delegated: Cap, proofs: seq<Cap>, evaluator: Evaluator)
    requires delegated.res.Some? && delegated.actions.Some?
    ensures CapWithin(docId, delegated, proofs, evaluator) ==
      match Decider(docId, delegated, proofs)
      case None => Err(NotGranted)
      case Some(p) =>
        if p.res.None? || p.res.value.scope.None? || delegated.res.value.scope.None? then Err(OutsideScope)
        else ScopeWithin(p.res.value.scope.value, delegated.res.value.scope.value, evaluator)
    ensures match Decider(docId, delegated, proofs)
      case None => true
      case Some(p) => p in proofs && Eligible(docId, delegated, p)
  {
    if proofs != [] && !Eligible(docId, delegated, proofs[0]) {
      DeciderDecides(docId, delegated, proofs[1..], evaluator);
    }
  }

  /** What acceptance of one delegated capability should mean: its decider allows whatever it allows. */
  ghost predicate CapCovered(docId: string, delegated: Cap, proofs: seq<Cap>) {
    forall parents: ParentTable, n: NodeId, required: seq<Action> ::
      Shallow(parents) && CheckedCap(docId, delegated, proofs, Over(parents)).Ok?
      && CapAllowsNode(delegated, docId, n, required, Over(parents)) == Ok(Allow) ==>
      DeciderAllows(docId, delegated, proofs, n, required, Over(parents))
  }

  ghost predicate DeciderAllows(docId: string, delegated: Cap, proofs: seq<Cap>, n: NodeId, required: seq<Action>,
                                evaluator: Evaluator)
  {
    && delegated.actions.Some? && Decider(docId, delegated, proofs).Some?
    && CapAllowsNode(Decider(docId, delegated, proofs).value, docId, n, required, evaluator) == Ok(Allow)
  }

  lemma CapWithinCovers(docId: string, delegated: Cap, proofs: seq<Cap>, parents: ParentTable, n: NodeId,
                        required: seq<Action>)
    requires Shallow(parents) && CheckedCap(docId, delegated, proofs, Over(parents)).Ok?
    requires !CapLifts(docId, delegated, proofs)
    requires CapAllowsNode(delegated, docId, n, required, Over(parents)) == Ok(Allow)
    ensures DeciderAllows(docId, delegated, proofs, n, required, Over(parents))
    ensures CapsGrant(proofs, docId, n, required, Over(parents))
  {
    DeciderDecides(docId, delegated, proofs, Over(parents));
    var p := Decider(docId, delegated, proofs).value;
    ScopeWithinAllows(parents, p.res.value.scope.value, delegated.res.value.scope.value, n);
    var i :| 0 <= i < |proofs| && proofs[i] == p;
    assert CapAllowsNode(proofs[i], docId, n, required, Over(parents)) == Ok(Allow);
  }

  lemma CapLiftEscapes(docId: string, delegated: Cap, proofs: seq<Cap>)
    requires CapLifts(docId, delegated, proofs)
    ensures !CapCovered(docId, delegated, proofs)
  {
    var p := Decider(docId, delegated, proofs).value;
    var parents, n := LiftedEscapes(p.res.value.scope.value, delegated.res.value.scope.value);
    DeciderDecides(docId, delegated, proofs, Over(parents));
    assert CapAllowsNode(delegated, docId, n, [], Over(parents)) == Ok(Allow);
    assert !DeciderAllows(docId, delegated, proofs, n, [], Over(parents));
  }

  /** Exactly when an accepted link is worth what it should be: the window lies inside the proof's
      and, over all shallow parent tables, each capability is covered by the one that decided it. */
  lemma LinkExactly(docId: string, proof: Grant, delegated: Grant)
    requires WindowAccepted(proof, delegated)
    ensures BoundsKept(docId, proof, delegated) <==>
      && WindowInside(proof, delegated)
      && forall i :: 0 <= i < |delegated.caps| ==> CapCovered(docId, delegated.caps[i], proof.caps)
  {
    hide CapLifts, CapCovered, WindowInside, LosesWindow;
    WindowExactly(proof, delegated);
    forall i | 0 <= i < |delegated.caps|
      ensures CapCovered(docId, delegated.caps[i], proof.caps) <==> !CapLifts(docId, delegated.caps[i], proof.caps)
    {
      CoveredExactly(docId, delegated.caps[i], proof.caps);
    }
  }

  lemma CoveredExactly(docId: string, delegated: Cap, proofs: seq<Cap>)
    ensures CapCovered(docId, delegated, proofs) <==> !CapLifts(docId, delegated, proofs)
  {
    hide CapLifts, CheckedCap, DeciderAllows, CapAllowsNode;
    if CapLifts(docId, delegated, proofs) {
      CapLiftEscapes(docId, delegated, proofs);
    } else {
      forall parents: ParentTable, n: NodeId, required: seq<Action> |
        Shallow(parents) && CheckedCap(docId, delegated, proofs, Over(parents)).Ok?
        && CapAllowsNode(delegated, docId, n, required, Over(parents)) == Ok(Allow)
        ensures DeciderAllows(docId, delegated, proofs, n, required, Over(parents))
      {
        CapWithinCovers(docId, delegated, proofs, parents, n, required);
      }
    }
  }

  lemma {:induction false} CapsWithinAt(docId: string, delegated: seq<Cap>, proofs: seq<Cap>, evaluator: Evaluator,
                                        i: nat)
    requires CapsWithin(docId, delegated, proofs, evaluator).Ok? && i < |delegated|
    ensures CheckedCap(docId, delegated[i], proofs, evaluator).Ok?
  {
    if i > 0 { CapsWithinAt(docId, delegated[1..], proofs, evaluator, i - 1); }
  }

  /** Everything one grant allows, another allows too. */
  ghost predicate AllowsNoMore(docId: string, delegated: Grant, proof: Grant, evaluator: Evaluator) {
    forall n: NodeId, required: seq<Action> ::
      CapsGrant(delegated.caps, docId, n, required, evaluator) ==> CapsGrant(proof.caps, docId, n, required, evaluator)
  }

  /** What the capability check answers for the proof where it allows the delegated grant: for a node
      never deny or unknown, and allow exactly when it does not throw; the same for operations. */
  ghost predicate ChecksNoMore(docId: string, delegated: Grant, proof: Grant, evaluator: Evaluator) {
    && (forall n: NodeId, required: seq<Action> ::
          GrantedFirst(delegated.caps, docId, n, required, evaluator) ==>
            && !AllDeny(proof.caps, docId, n, required, evaluator)
            && (GrantedFirst(proof.caps, docId, n, required, evaluator) <==>
                !ThrowsFirst(proof.caps, docId, n, required, evaluator)))
    && (forall kind: Kind ::
          OpGranted(delegated.caps, docId, kind, evaluator) ==>
          (OpGranted(proof.caps, docId, kind, evaluator) <==> !OpThrows(proof.caps, docId, kind, evaluator)))
  }

  lemma AllowedNodeCheck(docId: string, delegated: Grant, proof: Grant, evaluator: Evaluator, n: NodeId,
                         required: seq<Action>)
    requires AllowsNoMore(docId, delegated, proof, evaluator)
    requires GrantedFirst(delegated.caps, docId, n, required, evaluator)
    ensures !AllDeny(proof.caps, docId, n, required, evaluator)
    ensures GrantedFirst(proof.caps, docId, n, required, evaluator) <==>
            !ThrowsFirst(proof.caps, docId, n, required, evaluator)
  {
    hide CapAllowsNode;
    var i :| FirstAllow(delegated.caps, docId, n, required, evaluator, i);
    assert CapsGrant(delegated.caps, docId, n, required, evaluator);
    GrantingAllowsOrThrows(proof.caps, docId, n, required, evaluator);
  }

  /** Allowing no more by some capability carries over to the verdicts of the checks. */
  lemma ChecksFollow(docId: string, delegated: Grant, proof: Grant, evaluator: Evaluator)
    requires AllowsNoMore(docId, delegated, proof, evaluator)
    ensures ChecksNoMore(docId, delegated, proof, evaluator)
  {
    hide GrantedFirst, ThrowsFirst, AllDeny, AllowsNoMore;
    forall n: NodeId, required: seq<Action> | GrantedFirst(delegated.caps, docId, n, required, evaluator)
      ensures !AllDeny(proof.caps, docId, n, required, evaluator)
      ensures GrantedFirst(proof.caps, docId, n, required, evaluator) <==>
              !ThrowsFirst(proof.caps, docId, n, required, evaluator)
    {
      AllowedNodeCheck(docId, delegated, proof, evaluator, n, required);
    }
    forall kind: Kind | OpGranted(delegated.caps, docId, kind, evaluator)
      ensures OpGranted(proof.caps, docId, kind, evaluator) <==> !OpThrows(proof.caps, docId, kind, evaluator)
    {
      forall n | n in CheckedNodes(kind)
        ensures GrantedFirst(proof.caps, docId, n, RequiredActions(kind), evaluator) <==>
                !ThrowsFirst(proof.caps, docId, n, RequiredActions(kind), evaluator)
      {
        AllowedNodeCheck(docId, delegated, proof, evaluator, n, RequiredActions(kind));
      }
    }
  }

  /** One link of a chain. */
  lemma LinkSound(docId: string, proof: Grant, delegated: Grant, parents: ParentTable)
    requires Shallow(parents) && GrantWithin(docId, proof, delegated, Over(parents)).Ok?
    requires BoundsKept(docId, proof, delegated)
    ensures AllowsNoMore(docId, delegated, proof, Over(parents)) && WindowInside(proof, delegated)
    ensures ChecksNoMore(docId, delegated, proof, Over(parents))
  {
    hide CapLifts, WindowInside, LosesWindow;
    WindowExactly(proof, delegated);
    forall n: NodeId, required: seq<Action> | CapsGrant(delegated.caps, docId, n, required, Over(parents))
      ensures CapsGrant(proof.caps, docId, n, required, Over(parents))
    {
      var i :| 0 <= i < |delegated.caps|
               && CapAllowsNode(delegated.caps[i], docId, n, required, Over(parents)) == Ok(Allow);
      CapsWithinAt(docId, delegated.caps, proof.caps, Over(parents), i);
      CapWithinCovers(docId, delegated.caps[i], proof.caps, parents, n, required);
    }
    ChecksFollow(docId, delegated, proof, Over(parents));
  }

  /** No link of the token's chain lets a NaN lift a bound. */
  ghost predicate ChainBoundsKept(token: Token, c: Context)
    decreases token
  {
    token.signer !in c.issuers && token.proof.Tokens? && |token.proof.tokens| == 1 ==>
      var next := token.proof.tokens[0];
      && ChainBoundsKept(next, c)
      && var proof, grant := ParseGrant(next.claims, c.docId, c.now), ParseGrant(token.claims, c.docId, c.now);
         (proof.Ok? && grant.Ok? ==> BoundsKept(c.docId, proof.value, grant.value))
  }

  /** The grant of a verified token is that of its claims. */
  lemma VerifiedGrant(token: Token, c: Context, depth: nat, seen: set<string>)
    requires Verify(token, c, depth, seen).Ok?
    ensures ParseGrant(token.claims, c.docId, c.now) == Verify(token, c, depth, seen)
  {
    hide GrantWithin, ParseGrant;
  }

  /** Soundness of verified chains: the chain is short, ends in an issuer-signed token, and if no NaN
      lifts a bound along it, then for a fixed parent table within the hop bound whatever the leaf
      allows some capability of that token allows, inside its time window; and where the checks of
      nodes and operations allow the leaf, they allow that token or throw on it. */
  lemma {:induction false} ChainSound(token: Token, c: Context, depth: nat, seen: set<string>, parents: ParentTable)
    requires Shallow(parents) && c.evaluator == Over(parents) && Verify(token, c, depth, seen).Ok?
    ensures
      var chain := Chain(token, c.issuers);
      && chain != [] && depth + |chain| <= MAX_DELEGATION_PROOF_CHAIN + 1
      && chain[|chain| - 1].signer in c.issuers
      && ParseGrant(chain[|chain| - 1].claims, c.docId, c.now).Ok?
      && var top := ParseGrant(chain[|chain| - 1].claims, c.docId, c.now).value;
         (ChainBoundsKept(token, c) ==>
            AllowsNoMore(c.docId, Verify(token, c, depth, seen).value, top, c.evaluator)
            && ChecksNoMore(c.docId, Verify(token, c, depth, seen).value, top, c.evaluator)
            && WindowInside(top, Verify(token, c, depth, seen).value))
    decreases token
  {
    hide CapsGrant, GrantWithin, ParseGrant, BoundsKept, ValidAt, ChecksNoMore;
    VerifiedGrant(token, c, depth, seen);
    if token.signer !in c.issuers {
      var next := token.proof.tokens[0];
      ChainSound(next, c, depth + 1, seen + {token.id}, parents);
      VerifiedGrant(next, c, depth + 1, seen + {token.id});
      var proof := Verify(next, c, depth + 1, seen + {token.id}).value;
      if ChainBoundsKept(token, c) { LinkSound(c.docId, proof, Verify(token, c, depth, seen).value, parents); }
      assert Chain(token, c.issuers) == [token] + Chain(next, c.issuers);
    }
    var chain := Chain(token, c.issuers);
    var top := ParseGrant(chain[|chain| - 1].claims, c.docId, c.now).value;
    if ChainBoundsKept(token, c) { ChecksFollow(c.docId, Verify(token, c, depth, seen).value, top, c.evaluator); }
  }

  predicate NoNaN(o: Option<Number>) {
    o != Some(NaN)
  }

  predicate ClaimsWithoutNaN(claims: Claims) {
    && NoNaN(claims.exp) && NoNaN(claims.nbf)
    && (claims.caps.Some? ==> forall cap | cap in claims.caps.value ::
          cap.res.Some? && cap.res.value.scope.Some? ==> NoNaN(cap.res.value.scope.value.maxDepth))
  }

  /** Tokens that carry no NaN keep every bound. */
  lemma {:induction false} WithoutNaN(token: Token, c: Context)
    requires forall t | t in Chain(token, c.issuers) :: t.claims.Some? ==> ClaimsWithoutNaN(t.claims.value)
    ensures ChainBoundsKept(token, c)
    decreases token
  {
    hide Decider;
    if token.signer !in c.issuers && token.proof.Tokens? && |token.proof.tokens| == 1 {
      var next := token.proof.tokens[0];
      var rest := Chain(next, c.issuers);
      assert Chain(token, c.issuers) == [token] + rest;
      assert token in Chain(token, c.issuers);
      forall t | t in rest ensures t in Chain(token, c.issuers) { }
      WithoutNaN(next, c);
    }
  }

  // ----- the failing input -----

  /** A capability for the children of node 5, and what its holder makes of it. */
  const NARROW: Cap := Cap(Some(Res("doc", Some(Scope(5, Some(Fin(1.0)), {})))), Some(["grant", "read_structure"]))
  const WIDE: Cap := Cap(Some(Res("doc", Some(Scope(5, Some(NaN), {})))), Some(["read_structure"]))

  /** The proof ends at time 100; the delegated token says NaN there too. */
  const PROOF: Grant := Grant([2], [NARROW], Some(Fin(100.0)), None)
  const LEAF: Grant := Grant([3], [WIDE], Some(NaN), None)

  function ClaimsOf(g: Grant): Claims {
    Claims(NoAudience, g.exp, g.nbf, Some(g.key), true, Some(g.caps))
  }

  const GRANDCHILD: ParentTable := map[6 := Some(5), 7 := Some(6)]

  lemma WideIsAccepted()
    ensures CapsWithin("doc", [WIDE], [NARROW], Over(GRANDCHILD)).Ok? && CapLifts("doc", WIDE, [NARROW])
  {
    assert Eligible("doc", WIDE, NARROW) by {
      var given := ["grant", "read_structure"];
      assert given[0] in given && given[1] in given;
    }
    assert CheckedCap("doc", WIDE, [NARROW], Over(GRANDCHILD)).Ok?;
  }

  lemma WideReachesDeeper()
    ensures CapsGrant([WIDE], "doc", 7, ["read_structure"], Over(GRANDCHILD))
    ensures !CapsGrant([NARROW], "doc", 7, ["read_structure"], Over(GRANDCHILD))
  {
    var wide, narrow := WIDE.res.value.scope.value, NARROW.res.value.scope.value;
    assert VerdictFrom(GRANDCHILD, 5, wide, 2) == Allow;
    assert VerdictFrom(GRANDCHILD, 6, wide, 1) == Allow;
    assert VerdictFrom(GRANDCHILD, 6, narrow, 1) == Deny;
    assert CapAllowsNode([WIDE][0], "doc", 7, ["read_structure"], Over(GRANDCHILD)) == Ok(Allow);
  }

  /** The delegated token is verified, reads a grandchild the proof denies, and outlives the proof. */
  lemma NaNEscapes(revoked: (string, nat) -> bool)
    requires !revoked("leaf", 0) && !revoked("proof", 1)
    ensures
      var proof := Token("proof", [1], Some(ClaimsOf(PROOF)), Missing);
      var leaf := Token("leaf", [2], Some(ClaimsOf(LEAF)), Tokens([proof]));
      var c := Context([[1]], "doc", Fin(50.0), Over(GRANDCHILD), revoked);
      Verify(leaf, c, 0, {}) == Ok(LEAF) && Verify(proof, c, 1, {"leaf"}) == Ok(PROOF)
    ensures CapsGrant(LEAF.caps, "doc", 7, ["read_structure"], Over(GRANDCHILD))
    ensures !CapsGrant(PROOF.caps, "doc", 7, ["read_structure"], Over(GRANDCHILD))
    ensures ValidAt(LEAF, Fin(101.0)) && !ValidAt(PROOF, Fin(101.0))
    ensures LosesWindow(PROOF, LEAF) && CapLifts("doc", WIDE, [NARROW])
  {
    hide CapsWithin, CapsGrant, CapLifts;
    WideIsAccepted();
    WideReachesDeeper();
    var c := Context([[1]], "doc", Fin(50.0), Over(GRANDCHILD), revoked);
    assert c.issuers[0] == [1];
    assert [2] !in c.issuers by { assert [1][0] != [2][0]; }
    assert "proof" != "leaf" by { assert |"proof"| != |"leaf"|; }
  }

  /** A proof whose first capability has no scope that parses, and what its holder delegates. */
  const BROKEN: Cap := Cap(Some(Res("doc", None)), Some(["read_structure"]))
  const SOUND: Cap := Cap(Some(Res("doc", Some(Scope(5, None, {})))), Some(["grant", "read_structure"]))
  const PART: Cap := Cap(Some(Res("doc", Some(Scope(5, None, {})))), Some(["read_structure"]))
  const MIXED: Grant := Grant([2], [BROKEN, SOUND], None, None)
  const PARTIAL: Grant := Grant([3], [PART], None, None)

  lemma PartIsAccepted(evaluator: Evaluator)
    ensures CapsWithin("doc", [PART], [BROKEN, SOUND], evaluator).Ok? && !CapLifts("doc", PART, [BROKEN, SOUND])
  {
    var given := ["grant", "read_structure"];
    assert given[0] in given && given[1] in given;
    assert !Eligible("doc", PART, BROKEN) by { assert |"grant"| != |"read_structure"|; }
    assert Eligible("doc", PART, SOUND);
    assert [BROKEN, SOUND][1..] == [SOUND];
    assert CapWithin("doc", PART, [SOUND], evaluator).Ok?;
    assert CheckedCap("doc", PART, [BROKEN, SOUND], evaluator).Ok?;
  }

  /** No NaN anywhere, the delegated token is verified and may read node 5, and the check of its proof
      throws for the same node. */
  lemma ThrowingProof(revoked: (string, nat) -> bool, parents: ParentTable)
    requires !revoked("leaf", 0) && !revoked("proof", 1)
    ensures
      var proof := Token("proof", [1], Some(ClaimsOf(MIXED)), Missing);
      var leaf := Token("leaf", [2], Some(ClaimsOf(PARTIAL)), Tokens([proof]));
      var c := Context([[1]], "doc", Fin(50.0), Over(parents), revoked);
      Verify(leaf, c, 0, {}) == Ok(PARTIAL) && Verify(proof, c, 1, {"leaf"}) == Ok(MIXED)
    ensures BoundsKept("doc", MIXED, PARTIAL)
    ensures GrantedFirst(PARTIAL.caps, "doc", 5, ["read_structure"], Over(parents))
    ensures ThrowsFirst(MIXED.caps, "doc", 5, ["read_structure"], Over(parents))
  {
    hide CapsWithin, CapLifts, GrantedFirst, ThrowsFirst;
    PartIsAccepted(Over(parents));
    var c := Context([[1]], "doc", Fin(50.0), Over(parents), revoked);
    assert c.issuers[0] == [1];
    assert [2] !in c.issuers by { assert [1][0] != [2][0]; }
    assert "proof" != "leaf" by { assert |"proof"| != |"leaf"|; }
    PartReadsMixedThrows(Over(parents));
  }

  lemma PartReadsMixedThrows(evaluator: Evaluator)
    ensures GrantedFirst([PART], "doc", 5, ["read_structure"], evaluator)
    ensures ThrowsFirst([BROKEN, SOUND], "doc", 5, ["read_structure"], evaluator)
  {
    assert FirstAllow([PART], "doc", 5, ["read_structure"], evaluator, 0);
    assert FirstThrow([BROKEN, SOUND], "doc", 5, ["read_structure"], evaluator, 0);
  }

  // ----- verification, exactly -----

  /** One token is signed by the subject of the next, and its grant lies within the next one's. */
  ghost predicate LinkHolds(token: Token, next: Token, c: Context) {
    var grant, proof := ParseGrant(token.claims, c.docId, c.now), ParseGrant(next.claims, c.docId, c.now);
    && grant.Ok? && proof.Ok? && token.signer == proof.value.key
    && GrantWithin(c.docId, proof.value, grant.value, c.evaluator).Ok?
  }

  ghost predicate TokenHolds(token: Token, c: Context, depth: nat, seen: set<string>) {
    token.id !in seen && !c.revoked(token.id, depth) && ParseGrant(token.claims, c.docId, c.now).Ok?
  }

  /** What makes a chain of proofs good: not too long, no id met before or twice, none revoked, all
      claims give grants, all links hold, and an issuer signed the last token. */
  ghost predicate GoodChain(chain: seq<Token>, c: Context, depth: nat, seen: set<string>) {
    && chain != [] && depth + |chain| <= MAX_DELEGATION_PROOF_CHAIN + 1 && chain[|chain| - 1].signer in c.issuers
    && (forall i | 0 <= i < |chain| :: TokenHolds(chain[i], c, depth + i, seen))
    && (forall i, j | 0 <= i < j < |chain| :: chain[i].id != chain[j].id)
    && (forall i | 0 <= i < |chain| - 1 :: LinkHolds(chain[i], chain[i + 1], c))
  }

  lemma GoodChainRest(token: Token, rest: seq<Token>, c: Context, depth: nat, seen: set<string>)
    requires rest != [] && GoodChain([token] + rest, c, depth, seen)
    ensures GoodChain(rest, c, depth + 1, seen + {token.id}) && TokenHolds(token, c, depth, seen)
    ensures LinkHolds(token, rest[0], c)
  {
    hide LinkHolds, ParseGrant;
    var chain := [token] + rest;
    assert chain[0] == token && chain[1] == rest[0];
    assert LinkHolds(chain[0], chain[0 + 1], c) && TokenHolds(chain[0], c, depth + 0, seen);
    forall i | 0 <= i < |rest| ensures TokenHolds(rest[i], c, depth + 1 + i, seen + {token.id}) {
      assert chain[i + 1] == rest[i] && TokenHolds(chain[i + 1], c, depth + (i + 1), seen);
      assert chain[0].id != chain[i + 1].id;
    }
    forall i, j | 0 <= i < j < |rest| ensures rest[i].id != rest[j].id { assert chain[i + 1].id != chain[j + 1].id; }
    forall i | 0 <= i < |rest| - 1 ensures LinkHolds(rest[i], rest[i + 1], c) {
      assert LinkHolds(chain[i + 1], chain[i + 1 + 1], c);
    }
  }

  lemma GoodChainCons(token: Token, rest: seq<Token>, c: Context, depth: nat, seen: set<string>)
    requires rest != [] && GoodChain(rest, c, depth + 1, seen + {token.id}) && TokenHolds(token, c, depth, seen)
    requires LinkHolds(token, rest[0], c)
    ensures GoodChain([token] + rest, c, depth, seen)
  {
    hide LinkHolds, ParseGrant;
    var chain := [token] + rest;
    forall i | 0 <= i < |chain| ensures TokenHolds(chain[i], c, depth + i, seen) {
      if i > 0 { assert chain[i] == rest[i - 1] && TokenHolds(rest[i - 1], c, depth + 1 + (i - 1), seen + {token.id}); }
    }
    forall i, j | 0 <= i < j < |chain| ensures chain[i].id != chain[j].id {
      assert chain[j] == rest[j - 1] && TokenHolds(rest[j - 1], c, depth + 1 + (j - 1), seen + {token.id});
      if i > 0 { assert rest[i - 1].id != rest[j - 1].id; }
    }
    forall i | 0 <= i < |chain| - 1 ensures LinkHolds(chain[i], chain[i + 1], c) {
      if i > 0 { assert chain[i] == rest[i - 1] && LinkHolds(rest[i - 1], rest[i - 1 + 1], c); }
    }
  }

  /** A token is verified exactly when there are issuers and its chain of proofs is good; the grant is
      that of its own claims. */
  lemma {:induction false} VerifyExactly(token: Token, c: Context, depth: nat, seen: set<string>)
    ensures Verify(token, c, depth, seen).Ok? <==> c.issuers != [] && GoodChain(Chain(token, c.issuers), c, depth, seen)
    ensures Verify(token, c, depth, seen).Ok? ==>
      Verify(token, c, depth, seen) == ParseGrant(token.claims, c.docId, c.now)
    decreases token
  {
    hide ParseGrant, GrantWithin;
    if token.signer in c.issuers {
      assert Chain(token, c.issuers) == [token];
    } else if token.proof.Tokens? && |token.proof.tokens| == 1 {
      var next := token.proof.tokens[0];
      var rest := Chain(next, c.issuers);
      VerifyExactly(next, c, depth + 1, seen + {token.id});
      assert Chain(token, c.issuers) == [token] + rest;
      if rest == [] {
        assert [token] + rest == [token];
      } else {
        ChainHead(next, c.issuers);
        ChainStep(token, rest, c, depth, seen);
      }
    }
  }

  lemma ChainStep(token: Token, rest: seq<Token>, c: Context, depth: nat, seen: set<string>)
    requires rest != []
    ensures GoodChain([token] + rest, c, depth, seen) <==>
      && GoodChain(rest, c, depth + 1, seen + {token.id}) && TokenHolds(token, c, depth, seen)
      && LinkHolds(token, rest[0], c)
  {
    hide GoodChain, TokenHolds, LinkHolds;
    if GoodChain([token] + rest, c, depth, seen) { GoodChainRest(token, rest, c, depth, seen); }
    var holds := TokenHolds(token, c, depth, seen) && LinkHolds(token, rest[0], c);
    if holds && GoodChain(rest, c, depth + 1, seen + {token.id}) { GoodChainCons(token, rest, c, depth, seen); }
  }

  lemma ChainHead(token: Token, issuers: seq<Key>)
    ensures Chain(token, issuers) != [] ==> Chain(token, issuers)[0] == token
  {
  }

  /** Every token of a verified chain addresses the document, is valid now, and carries a key with its
      id and at least one capability. */
  lemma VerifiedTokens(token: Token, c: Context, depth: nat, seen: set<string>, i: nat)
    requires Verify(token, c, depth, seen).Ok? && i < |Chain(token, c.issuers)|
    ensures
      var claims := Chain(token, c.issuers)[i].claims;
      && claims.Some? && Addresses(claims.value, c.docId) && claims.value.key.Some? && claims.value.kidMatches
      && claims.value.caps.Some? && claims.value.caps.value != []
      && ValidAt(Grant(claims.value.key.value, claims.value.caps.value, claims.value.exp, claims.value.nbf), c.now)
  {
    hide ParseGrant, GrantWithin, Verify;
    VerifyExactly(token, c, depth, seen);
    ParseExactly(Chain(token, c.issuers)[i].claims, c.docId, c.now);
  }

  /** An issuer's token that is not revoked is verified exactly when its claims are good. */
  lemma IssuedTokenExactly(token: Token, c: Context)
    requires token.signer in c.issuers && !c.revoked(token.id, 0)
    ensures Verify(token, c, 0, {}).Ok? <==> ParseGrant(token.claims, c.docId, c.now).Ok?
  {
    hide ParseGrant;
  }

  /** Every token of a verified chain is new, not revoked, and signed by an issuer or by the subject
      of the next token. */
  lemma {:induction false} ChainLinks(token: Token, c: Context, depth: nat, seen: set<string>, i: nat)
    requires Verify(token, c, depth, seen).Ok? && i < |Chain(token, c.issuers)|
    ensures
      var chain := Chain(token, c.issuers);
      && chain[i].id !in seen && (forall j :: 0 <= j < i ==> chain[j].id != chain[i].id)
      && !c.revoked(chain[i].id, depth + i)
      && chain[i].claims.Some?
      && (i + 1 < |chain| ==> chain[i + 1].claims.Some? && chain[i + 1].claims.value.key == Some(chain[i].signer))
      && (i + 1 == |chain| ==> chain[i].signer in c.issuers)
    decreases token
  {
    hide GrantWithin;
    if token.signer !in c.issuers {
      var next := token.proof.tokens[0];
      var rest := Chain(next, c.issuers);
      assert Chain(token, c.issuers) == [token] + rest;
      VerifiedKey(next, c, depth + 1, seen + {token.id});
      if i > 0 { ChainLinks(next, c, depth + 1, seen + {token.id}, i - 1); }
    }
  }

  lemma VerifiedKey(token: Token, c: Context, depth: nat, seen: set<string>)
    requires Verify(token, c, depth, seen).Ok?
    ensures token.claims.Some? && token.claims.value.key == Some(Verify(token, c, depth, seen).value.key)
    ensures Chain(token, c.issuers) != [] && Chain(token, c.issuers)[0] == token
  {
    hide GrantWithin;
  }
}
