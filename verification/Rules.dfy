/**
 The startup rules read off the nodes of a condition: kinds, names, positions
 and the branches of the outer || and &&, as the documentation states them.
 `AcceptedExactly` ties them to the check.
 */
module Rules {
  import opened Wrappers
  import opened Cel
  import opened Navigation
  import opened Config
  import opened Condition
  import opened Branches
  import opened Anchoring

  // ----- variables -----

  /** The identifier `name`, with or without the dot of a root-scoped
      reference. */
  predicate Names(e: Expr, name: string) {
    e.kind == Ident(name) || e.kind == Ident("." + name)
  }

  predicate IsVariable(name: string) {
    name == "caller" || name == "request"
  }

  lemma IdentNames(e: Expr, name: string)
    requires IsVariable(name)
    ensures IsIdent(e, name) <==> Names(e, name)
  {
    assert name[0] != '.';
    assert e.kind.Ident? && Dotted(e.kind.name) ==> e.kind.name == "." + e.kind.name[1..];
    assert ("." + name)[1..] == name;
  }

  /** Some node at or below `e` is the identifier `name`. */
  ghost predicate Within(e: Expr, name: string) {
    exists p :: IsPath(e, p) && Names(At(e, p), name)
  }

  lemma {:induction false} ReferencesWithin(e: Expr, name: string)
    requires IsVariable(name)
    ensures References(e, name) <==> Within(e, name)
  {
    IdentNames(e, name);
    if Within(e, name) {
      var p :| IsPath(e, p) && Names(At(e, p), name);
      if p != [] {
        assert Names(At(e.kids[p[0]], p[1..]), name);
        ReferencesWithin(e.kids[p[0]], name);
      }
    }
    if References(e, name) {
      if IsIdent(e, name) {
        assert At(e, []) == e;
      } else {
        var i :| 0 <= i < |e.kids| && References(e.kids[i], name);
        ReferencesWithin(e.kids[i], name);
        var q :| IsPath(e.kids[i], q) && Names(At(e.kids[i], q), name);
        Below(e, i, q);
      }
    }
  }

  // ----- nodes that are refused wherever they occur -----

  /** A comprehension that binds a policy variable. */
  predicate Rebinds(n: Expr) {
    n.kind.Comprehension? &&
    (IsVariable(n.kind.iterVar) || IsVariable(n.kind.iterVar2) || IsVariable(n.kind.accuVar))
  }

  predicate StringTest(n: Expr) {
    n.kind == Call(StartsWith) || n.kind == Call(EndsWith) || n.kind == Call(Contains) || n.kind == Call(Matches)
  }

  predicate Ordering(n: Expr) {
    n.kind == Call(Less) || n.kind == Call(LessEq) || n.kind == Call(Greater) || n.kind == Call(GreaterEq)
  }

  ghost predicate OrdersVariable(n: Expr) {
    Ordering(n) && exists i :: 0 <= i < |n.kids| && (Within(n.kids[i], "caller") || Within(n.kids[i], "request"))
  }

  ghost predicate Refused(n: Expr) {
    Rebinds(n) || StringTest(n) || OrdersVariable(n)
  }

  ghost predicate NothingRefused(e: Expr) {
    forall p :: IsPath(e, p) ==> !Refused(At(e, p))
  }

  lemma RefusedNode(n: Expr)
    ensures Refused(n) <==> Shadows(n) || ForbiddenFunction(n) || OrdersVariables(n)
  {
    forall i | 0 <= i < |n.kids|
      ensures References(n.kids[i], VAR_CALLER) <==> Within(n.kids[i], "caller")
      ensures References(n.kids[i], VAR_REQUEST) <==> Within(n.kids[i], "request")
    {
      ReferencesWithin(n.kids[i], "caller");
      ReferencesWithin(n.kids[i], "request");
    }
    if n.kind.Comprehension? {
      var vs := [n.kind.iterVar, n.kind.iterVar2, n.kind.accuVar];
      assert vs[0] in vs && vs[1] in vs && vs[2] in vs;
      assert forall v :: IsVariable(v) <==> v in [VAR_CALLER, VAR_REQUEST];
    }
  }

  /** The first two rules hold exactly when no node is refused. */
  lemma RefusedNodesExactly(e: Expr)
    ensures NoShadowing(e) && NoForbiddenCalls(e) <==> NothingRefused(e)
  {
    if NoShadowing(e) && NoForbiddenCalls(e) {
      ObedientRefusesNothing(e);
    }
    if NothingRefused(e) {
      NothingRefusedIsObedient(e);
    }
  }

  lemma ObedientRefusesNothing(e: Expr)
    requires NoShadowing(e) && NoForbiddenCalls(e)
    ensures NothingRefused(e)
  {
    forall p | IsPath(e, p) ensures !Refused(At(e, p)) {
      RefusedNode(At(e, p));
    }
  }

  lemma NothingRefusedIsObedient(e: Expr)
    requires NothingRefused(e)
    ensures NoShadowing(e) && NoForbiddenCalls(e)
  {
    forall p | IsPath(e, p)
      ensures !Shadows(At(e, p)) && !ForbiddenFunction(At(e, p)) && !OrdersVariables(At(e, p))
    {
      RefusedNode(At(e, p));
    }
  }

  /** A condition is rejected, for every issuer, when it calls one of the four
      string functions anywhere, binds a policy variable, or orders anything
      that reads one. */
  lemma RefusedNodeIsRejected(e: Expr, p: Path, iss: Issuer)
    requires IsPath(e, p)
    ensures StringTest(At(e, p)) ==> !Accepted(e, iss)
    ensures Rebinds(At(e, p)) ==> !Accepted(e, iss)
    ensures forall i, q :: Ordering(At(e, p)) && 0 <= i < |At(e, p).kids| && IsPath(At(e, p).kids[i], q)
              && (Names(At(At(e, p).kids[i], q), "caller") || Names(At(At(e, p).kids[i], q), "request"))
              ==> !Accepted(e, iss)
  {
    RefusedNodesExactly(e);
    assert Accepted(e, iss) ==> Obeys(Shadowing, e, iss) && Obeys(Calls, e, iss);
    assert Accepted(e, iss) ==> !Refused(At(e, p));
    forall i, q | Ordering(At(e, p)) && 0 <= i < |At(e, p).kids| && IsPath(At(e, p).kids[i], q)
                  && (Names(At(At(e, p).kids[i], q), "caller") || Names(At(At(e, p).kids[i], q), "request"))
      ensures Refused(At(e, p))
    {
      assert Within(At(e, p).kids[i], "caller") || Within(At(e, p).kids[i], "request");
    }
  }

  // ----- reads -----

  /** caller.claim or caller["claim"]. */
  predicate ClaimRead(e: Expr, claim: string) {
    || (e.kind == Select(claim, false) && |e.kids| == 1 && Names(e.kids[0], "caller"))
    || (e.kind == Call(Index) && |e.kids| == 2 && Names(e.kids[0], "caller")
        && e.kids[1].kind == Literal(StrV(claim)))
  }

  lemma ClaimReadExactly(e: Expr, claim: string)
    ensures CallerClaim(e) == Some(claim) <==> ClaimRead(e, claim)
  {
    if e.kids != [] {
      IdentNames(e.kids[0], "caller");
    }
  }

  ghost predicate SomeClaimRead(e: Expr) {
    exists claim :: ClaimRead(e, claim)
  }

  lemma SomeClaimReadExactly(e: Expr)
    ensures CallerClaim(e).Some? <==> SomeClaimRead(e)
  {
    if CallerClaim(e).Some? {
      ClaimReadExactly(e, CallerClaim(e).value);
    }
    if SomeClaimRead(e) {
      var claim :| ClaimRead(e, claim);
      ClaimReadExactly(e, claim);
    }
  }

  /** request.resource or its alias request.resources. */
  predicate ResourceRead(e: Expr) {
    && (e.kind == Select("resource", false) || e.kind == Select("resources", false))
    && |e.kids| == 1 && Names(e.kids[0], "request")
  }

  lemma ResourceReadExactly(e: Expr)
    ensures IsResourceRef(e) <==> ResourceRead(e)
  {
    if e.kids != [] {
      IdentNames(e.kids[0], "request");
    }
  }

  predicate TextNode(e: Expr) {
    e.kind.Literal? && e.kind.value.StrV?
  }

  /** The parent of the caller identifier at `p` reads a declared claim. */
  ghost predicate ReadsDeclared(e: Expr, p: Path, claims: seq<string>)
    requires IsPath(e, p)
  {
    p != [] && (ParentOf(e, p); exists claim :: claim in claims && ClaimRead(At(e, ParentPath(p)), claim))
  }

  lemma CallerRuleExactly(e: Expr, p: Path, claims: seq<string>)
    requires IsPath(e, p)
    ensures ReadClaim(e, p).Some? && ReadClaim(e, p).value in claims <==> ReadsDeclared(e, p, claims)
  {
    if p != [] {
      ParentOf(e, p);
      var parent := At(e, ParentPath(p));
      if ReadClaim(e, p).Some? {
        ClaimReadExactly(parent, ReadClaim(e, p).value);
      }
      forall claim | ClaimRead(parent, claim) ensures CallerClaim(parent) == Some(claim) {
        ClaimReadExactly(parent, claim);
      }
    }
  }

  /** Child `i` of `cmp` is compared with a string literal by ==, or is tested
      for membership in a list of string literals. */
  predicate LiteralTest(cmp: Expr, i: nat) {
    && |cmp.kids| == 2
    && (|| (cmp.kind == Call(Eq) && i == 0 && TextNode(cmp.kids[1]))
        || (cmp.kind == Call(Eq) && i == 1 && TextNode(cmp.kids[0]))
        || (cmp.kind == Call(In) && i == 0 && cmp.kids[1].kind == List
            && forall k :: 0 <= k < |cmp.kids[1].kids| ==> TextNode(cmp.kids[1].kids[k])))
  }

  /** The request identifier at `p` is read as the resource, in a literal test. */
  ghost predicate InLiteralTest(e: Expr, p: Path)
    requires IsPath(e, p)
  {
    |p| >= 2 &&
    (ParentOf(e, p);
     var q := ParentPath(p);
     ParentOf(e, q);
     ResourceRead(At(e, q)) && LiteralTest(At(e, ParentPath(q)), q[|q| - 1]))
  }

  lemma RequestRuleExactly(e: Expr, p: Path)
    requires IsPath(e, p)
    ensures ComparedToLiteral(e, p) <==> InLiteralTest(e, p)
  {
    if |p| >= 2 {
      ParentOf(e, p);
      ParentOf(e, ParentPath(p));
      ResourceReadExactly(At(e, ParentPath(p)));
    }
  }

  // ----- comparisons -----

  /** The resource compared with something that does not read request. */
  ghost predicate TestsResource(ref: Expr, other: Expr) {
    ResourceRead(ref) && !Within(other, "request")
  }

  ghost predicate PartNode(e: Expr) {
    TextNode(e) || SomeClaimRead(e)
  }

  /** A chain of + over string literals and claims that starts in one of the
      three documented ways. */
  ghost predicate AnchoredChain(e: Expr) {
    var ops := Spine(e);
    && (forall i :: 0 <= i < |ops| ==> PartNode(ops[i]))
    && |ops| >= 2
    && (|| (ops[0].kind == Literal(StrV("repo:")) && ClaimRead(ops[1], "repository"))
        || (ops[0].kind == Literal(StrV("repo:")) && ClaimRead(ops[1], "repository_owner") && |ops| >= 3
            && TextNode(ops[2]) && "/" <= ops[2].kind.value.s)
        || (ops[0].kind == Literal(StrV("org:")) && ClaimRead(ops[1], "repository_owner") && |ops| == 2))
  }

  lemma AnchoredChainExactly(e: Expr)
    ensures CallerAnchored(e) <==> AnchoredChain(e)
  {
    AnchoredIffDocumented(e);
    var ops := Spine(e);
    forall i | 0 <= i < |ops| ensures IsPart(ops[i]) <==> PartNode(ops[i]) {
      SomeClaimReadExactly(ops[i]);
    }
    if |ops| >= 2 {
      ClaimReadExactly(ops[1], "repository");
      ClaimReadExactly(ops[1], "repository_owner");
    }
  }

  /** An identity claim of the preset compared with something that does not
      read caller, or the resource compared with a chain anchored to the caller
      or with a list of such chains. */
  ghost predicate TestsCaller(iss: Issuer, ref: Expr, other: Expr) {
    || (iss.preset == "github" && (exists c :: ClaimRead(ref, c) && NamesRun(c)) && !Within(other, "caller"))
    || (ResourceRead(ref)
        && if other.kind == List then forall i :: 0 <= i < |other.kids| ==> AnchoredChain(other.kids[i])
           else AnchoredChain(other))
  }

  lemma BoundsResourceExactly(ref: Expr, other: Expr)
    ensures BoundsResource(ref, other) <==> TestsResource(ref, other)
  {
    ResourceReadExactly(ref);
    ReferencesWithin(other, "request");
  }

  lemma BoundsIdentityExactly(iss: Issuer, ref: Expr, other: Expr)
    ensures BoundsIdentity(IdentityClaims(iss), ref, other) <==> TestsCaller(iss, ref, other)
  {
    ResourceReadExactly(ref);
    SomeClaimReadExactly(ref);
    ReferencesWithin(other, "caller");
    AnchoredChainExactly(other);
    forall i | 0 <= i < |other.kids| ensures CallerAnchored(other.kids[i]) <==> AnchoredChain(other.kids[i]) {
      AnchoredChainExactly(other.kids[i]);
    }
    ClaimOrResource(ref);
    if CallerClaim(ref).Some? {
      var claim := CallerClaim(ref).value;
      IdentityClaimsAreDocumented(claim);
      forall c ensures ClaimRead(ref, c) <==> c == claim {
        ClaimReadExactly(ref, c);
      }
    }
  }

  lemma ClaimOrResource(e: Expr)
    ensures !(SomeClaimRead(e) && ResourceRead(e))
  {
    assert "caller"[0] != "request"[0];
    if e.kids != [] {
      assert e.kids[0].kind == Ident(".caller") ==> e.kids[0].kind.name[1] == 'c';
      assert e.kids[0].kind == Ident(".request") ==> e.kids[0].kind.name[1] == 'r';
    }
  }

  // ----- the whole check -----

  ghost predicate IsTest(leaf: Expr) {
    |leaf.kids| == 2 && (leaf.kind == Call(Eq) || leaf.kind == Call(In))
  }

  ghost predicate ResourceTest(leaf: Expr) {
    && IsTest(leaf)
    && (TestsResource(leaf.kids[0], leaf.kids[1]) || TestsResource(leaf.kids[1], leaf.kids[0]))
  }

  ghost predicate CallerTest(iss: Issuer, leaf: Expr) {
    && IsTest(leaf)
    && (TestsCaller(iss, leaf.kids[0], leaf.kids[1]) || TestsCaller(iss, leaf.kids[1], leaf.kids[0]))
  }

  ghost predicate HasResourceTest(c: seq<Expr>) {
    exists i :: 0 <= i < |c| && ResourceTest(c[i])
  }

  ghost predicate HasCallerTest(iss: Issuer, c: seq<Expr>) {
    exists i :: 0 <= i < |c| && CallerTest(iss, c[i])
  }

  /** Every branch, that is, every clause of the disjunctive normal form,
      tests the resource. */
  ghost predicate BranchesTestResource(e: Expr) {
    forall c :: c in Clauses(e) ==> HasResourceTest(c)
  }

  ghost predicate BranchesTestCaller(e: Expr, iss: Issuer) {
    forall c :: c in Clauses(e) ==> HasCallerTest(iss, c)
  }

  lemma ResourceLeafExactly(leaf: Expr)
    ensures AcceptedComparison(leaf, BoundsResource) <==> ResourceTest(leaf)
  {
    if |leaf.kids| == 2 {
      BoundsResourceExactly(leaf.kids[0], leaf.kids[1]);
      BoundsResourceExactly(leaf.kids[1], leaf.kids[0]);
    }
  }

  lemma BoundsCallerExactly(iss: Issuer, ref: Expr, other: Expr)
    ensures BoundsCaller(IdentityClaims(iss))(ref, other) <==> TestsCaller(iss, ref, other)
  {
    BoundsIdentityExactly(iss, ref, other);
  }

  lemma AcceptedPair(leaf: Expr, bound: Bound)
    ensures AcceptedComparison(leaf, bound) <==>
            IsTest(leaf) && (bound(leaf.kids[0], leaf.kids[1]) || bound(leaf.kids[1], leaf.kids[0]))
  {
  }

  lemma CallerLeafExactly(leaf: Expr, iss: Issuer)
    ensures AcceptedComparison(leaf, BoundsCaller(IdentityClaims(iss))) <==> CallerTest(iss, leaf)
  {
    AcceptedPair(leaf, BoundsCaller(IdentityClaims(iss)));
    if |leaf.kids| == 2 {
      BoundsCallerExactly(iss, leaf.kids[0], leaf.kids[1]);
      BoundsCallerExactly(iss, leaf.kids[1], leaf.kids[0]);
    }
  }

  lemma ResourceClauseExactly(c: seq<Expr>)
    ensures HasAccepted(c, BoundsResource) <==> HasResourceTest(c)
  {
    forall i | 0 <= i < |c| ensures AcceptedComparison(c[i], BoundsResource) <==> ResourceTest(c[i]) {
      ResourceLeafExactly(c[i]);
    }
  }

  lemma CallerClauseExactly(c: seq<Expr>, iss: Issuer)
    ensures HasAccepted(c, BoundsCaller(IdentityClaims(iss))) <==> HasCallerTest(iss, c)
  {
    var bound := BoundsCaller(IdentityClaims(iss));
    forall i | 0 <= i < |c| ensures AcceptedComparison(c[i], bound) <==> CallerTest(iss, c[i]) {
      CallerLeafExactly(c[i], iss);
    }
  }

  lemma ResourceRuleExactly(e: Expr)
    ensures Constrains(e, BoundsResource) <==> BranchesTestResource(e)
  {
    ConstrainsIsEveryBranch(e, BoundsResource);
    forall c | c in Clauses(e) ensures HasAccepted(c, BoundsResource) <==> HasResourceTest(c) {
      ResourceClauseExactly(c);
    }
  }

  lemma CallerTestRuleExactly(e: Expr, iss: Issuer)
    ensures Constrains(e, BoundsCaller(IdentityClaims(iss))) <==> BranchesTestCaller(e, iss)
  {
    var bound := BoundsCaller(IdentityClaims(iss));
    ConstrainsIsEveryBranch(e, bound);
    forall c | c in Clauses(e) ensures HasAccepted(c, bound) <==> HasCallerTest(iss, c) {
      CallerClauseExactly(c, iss);
    }
  }

  ghost predicate CallerReadsAreDeclared(e: Expr, claims: seq<string>) {
    forall p :: IsPath(e, p) && Names(At(e, p), "caller") ==> ReadsDeclared(e, p, claims)
  }

  ghost predicate RequestReadsAreLiteralTests(e: Expr) {
    forall p :: IsPath(e, p) && Names(At(e, p), "request") ==> InLiteralTest(e, p)
  }

  lemma CallerReadsExactly(e: Expr, claims: seq<string>)
    ensures CallerReadsDeclared(e, claims) <==> CallerReadsAreDeclared(e, claims)
  {
    forall p | IsPath(e, p)
      ensures IsIdent(At(e, p), VAR_CALLER) <==> Names(At(e, p), "caller")
      ensures ReadClaim(e, p).Some? && ReadClaim(e, p).value in claims <==> ReadsDeclared(e, p, claims)
    {
      IdentNames(At(e, p), "caller");
      CallerRuleExactly(e, p, claims);
    }
  }

  lemma RequestReadsExactly(e: Expr)
    ensures RequestComparedToLiterals(e) <==> RequestReadsAreLiteralTests(e)
  {
    forall p | IsPath(e, p)
      ensures IsIdent(At(e, p), VAR_REQUEST) <==> Names(At(e, p), "request")
      ensures ComparedToLiteral(e, p) <==> InLiteralTest(e, p)
    {
      IdentNames(At(e, p), "request");
      RequestRuleExactly(e, p);
    }
  }

  /** The startup check accepts exactly the conditions that follow the
      documented rules. */
  lemma AcceptedExactly(e: Expr, iss: Issuer)
    ensures Accepted(e, iss) <==>
              && NothingRefused(e)
              && CallerReadsAreDeclared(e, iss.claims)
              && (iss.preset != "github" ==> RequestReadsAreLiteralTests(e))
              && BranchesTestResource(e)
              && (|iss.require| == 0 ==> BranchesTestCaller(e, iss))
  {
    AcceptedIsEveryRule(e, iss);
    RefusedNodesExactly(e);
    CallerReadsExactly(e, iss.claims);
    RequestReadsExactly(e);
    ResourceRuleExactly(e);
    CallerTestRuleExactly(e, iss);
  }

  lemma AcceptedIsEveryRule(e: Expr, iss: Issuer)
    ensures Accepted(e, iss) <==>
              && NoShadowing(e) && NoForbiddenCalls(e) && CallerReadsDeclared(e, iss.claims)
              && (iss.preset != "github" ==> RequestComparedToLiterals(e))
              && Constrains(e, BoundsResource)
              && (|iss.require| == 0 ==> Constrains(e, BoundsCaller(IdentityClaims(iss))))
  {
    if Accepted(e, iss) {
      assert Obeys(Shadowing, e, iss) && Obeys(Calls, e, iss) && Obeys(CallerReads, e, iss);
      assert Obeys(RequestReads, e, iss) && Obeys(BoundResource, e, iss) && Obeys(BoundCaller, e, iss);
    }
  }
}
