/**
 What acceptance of a condition guarantees about its evaluation, for every
 caller and every resource.
 */
module Guarantees {
  import opened Cel
  import opened Config
  import opened Condition
  import opened Discipline
  import opened Refinement
  import opened Branches

  const TOP: Locals := map[]

  ghost predicate SameClaims(a: map<string, string>, b: map<string, string>, claims: seq<string>) {
    forall c :: c in claims ==> (c in a <==> c in b) && (c in a ==> a[c] == b[c])
  }

  ghost predicate Extends(a: map<string, string>, b: map<string, string>) {
    forall c :: c in a ==> c in b && b[c] == a[c]
  }

  // ----- which reads a tree makes -----

  lemma VariablesDiffer()
    ensures VAR_CALLER != VAR_REQUEST
  {
    assert |VAR_CALLER| != |VAR_REQUEST|;
  }

  lemma {:induction false} UnreferencedAgree(a: Root, b: Root, e: Expr)
    requires a.caller == b.caller || !References(e, VAR_CALLER)
    requires a.resource == b.resource || !References(e, VAR_REQUEST)
    ensures Agree(a, b, e)
  {
    forall i | 0 <= i < |e.kids| ensures Agree(a, b, e.kids[i]) {
      UnreferencedAgree(a, b, e.kids[i]);
    }
    if CallerClaim(e).Some? {
      assert References(e.kids[0], VAR_CALLER);
    } else if LiteralComparison(e) {
      var r := RefOperand(e);
      assert References(r.kids[0], VAR_REQUEST);
      assert References(r, VAR_REQUEST);
    }
  }

  lemma {:induction false} CallerOkAgree(a: Root, b: Root, e: Expr, claims: seq<string>)
    requires CallerOk(e, claims) && a.resource == b.resource
    requires SameClaims(a.caller, b.caller, claims) || Extends(a.caller, b.caller)
    ensures Agree(a, b, e)
  {
    if CallerClaim(e).None? {
      forall i | 0 <= i < |e.kids| ensures Agree(a, b, e.kids[i]) {
        CallerOkAgree(a, b, e.kids[i], claims);
      }
    }
  }

  lemma {:induction false} RequestOkAgree(a: Root, b: Root, e: Expr)
    requires RequestOk(e) && a.caller == b.caller
    requires !Mentions(e, a.resource) && !Mentions(e, b.resource)
    ensures Agree(a, b, e)
  {
    if CallerClaim(e).None? && !LiteralComparison(e) {
      forall i | 0 <= i < |e.kids| ensures Agree(a, b, e.kids[i]) {
        RequestOkAgree(a, b, e.kids[i]);
      }
    }
  }

  lemma AgreeBothWays(h: Host, a: Root, b: Root, loc: Locals, e: Expr)
    requires WellFormed(e) && Agree(a, b, e) && Agree(b, a, e)
    ensures Eval(h, a, loc, e) == Eval(h, b, loc, e)
  {
    EvalRefines(h, a, b, loc, loc, e);
    EvalRefines(h, b, a, loc, loc, e);
  }

  // ----- noninterference -----

  /** An expression that does not reference a variable evaluates the same under
      every value of it, at any comprehension depth. */
  lemma UnreferencedIsIrrelevant(h: Host, a: Root, b: Root, loc: Locals, e: Expr)
    requires WellFormed(e)
    requires a.caller == b.caller || !References(e, VAR_CALLER)
    requires a.resource == b.resource || !References(e, VAR_REQUEST)
    ensures Eval(h, a, loc, e) == Eval(h, b, loc, e)
  {
    UnreferencedAgree(a, b, e);
    UnreferencedAgree(b, a, e);
    AgreeBothWays(h, a, b, loc, e);
  }

  /** An accepted condition sees nothing of the caller but declared claims. */
  lemma OnlyDeclaredClaimsMatter(h: Host, e: Expr, iss: Issuer, a: Root, b: Root)
    requires WellFormed(e) && Accepted(e, iss)
    requires a.resource == b.resource && SameClaims(a.caller, b.caller, iss.claims)
    ensures Eval(h, a, TOP, e) == Eval(h, b, TOP, e)
  {
    assert Obeys(CallerReads, e, iss);
    CallerOkFromReads(e, iss.claims);
    CallerOkAgree(a, b, e, iss.claims);
    CallerOkAgree(b, a, e, iss.claims);
    AgreeBothWays(h, a, b, TOP, e);
  }

  // ----- missing claims -----

  /** Adding claims to the token keeps every result that did not need them. */
  lemma MoreClaimsKeepTheResult(h: Host, e: Expr, iss: Issuer, a: Root, b: Root)
    requires WellFormed(e) && Accepted(e, iss)
    requires a.resource == b.resource && Extends(a.caller, b.caller)
    ensures Eval(h, a, TOP, e) != Err ==> Eval(h, b, TOP, e) == Eval(h, a, TOP, e)
  {
    assert Obeys(CallerReads, e, iss);
    CallerOkFromReads(e, iss.claims);
    CallerOkAgree(a, b, e, iss.claims);
    EvalRefines(h, a, b, TOP, TOP, e);
  }

  /** A missing claim never makes a condition true that would be false, or an
      error, for some value of the claim. */
  lemma MissingClaimNeverGrants(h: Host, e: Expr, iss: Issuer, g: Root, claim: string, value: string)
    requires WellFormed(e) && Accepted(e, iss)
    requires claim !in g.caller && Eval(h, g, TOP, e) == TRUE
    ensures Eval(h, g.(caller := g.caller[claim := value]), TOP, e) == TRUE
  {
    MoreClaimsKeepTheResult(h, e, iss, g, g.(caller := g.caller[claim := value]));
  }

  /** !has(caller.claim), the read that the rules exclude. */
  function LacksClaim(claim: string): Expr {
    Expr(Call(Not), [Expr(Select(claim, true), [Expr(Ident(VAR_CALLER), [])])])
  }

  /** The rule on caller reads is needed for this: without it, a condition can
      be true only because a claim is missing. */
  lemma PresenceTestGrantsOnAbsence(h: Host, claim: string, value: string, claims: seq<string>)
    ensures !CallerReadsDeclared(LacksClaim(claim), claims)
    ensures Eval(h, Root(map[], "org:acme"), TOP, LacksClaim(claim)) == TRUE
    ensures Eval(h, Root(map[claim := value], "org:acme"), TOP, LacksClaim(claim)) == FALSE
  {
    var e := LacksClaim(claim);
    assert !CallerOk(e.kids[0].kids[0], claims);
    assert !CallerOk(e.kids[0], claims);
    if CallerReadsDeclared(e, claims) {
      CallerOkFromReads(e, claims);
    }
    PresenceTestValue(h, Root(map[], "org:acme"), claim);
    PresenceTestValue(h, Root(map[claim := value], "org:acme"), claim);
  }

  lemma PresenceTestValue(h: Host, g: Root, claim: string)
    ensures Eval(h, g, TOP, LacksClaim(claim)) == Bool(claim !in g.caller)
  {
    var e := LacksClaim(claim);
    var v := CallerValue(g.caller);
    assert EvalAll(h, g, TOP, e.kids[0].kids) == [Ok(v)];
    assert Values([Ok(v)]) == [v];
    assert StrV(claim) in v.entries <==> claim in g.caller;
    var has := Bool(claim in g.caller);
    assert Eval(h, g, TOP, e.kids[0]) == has;
    assert EvalAll(h, g, TOP, e.kids) == [has];
    assert Values([has]) == [has.v];
  }

  // ----- the resource -----

  lemma ComparisonOperands(h: Host, g: Root, leaf: Expr) returns (x: Value, y: Value)
    requires IsCall(leaf, Eq, 2) || IsCall(leaf, In, 2)
    requires Eval(h, g, TOP, leaf) == TRUE
    ensures Eval(h, g, TOP, leaf.kids[0]) == Ok(x) && Eval(h, g, TOP, leaf.kids[1]) == Ok(y)
    ensures leaf.kind == Call(Eq) ==> x == y
    ensures leaf.kind == Call(In) ==> InValue(x, y) == TRUE
  {
    var rs := EvalAll(h, g, TOP, leaf.kids);
    assert Err !in rs;
    assert rs[0] in rs && rs[1] in rs;
    x, y := rs[0].v, rs[1].v;
    OperandsDecide(h, g, TOP, leaf, x, y);
  }

  /** The resource that a value denotes: itself, or its one-element list. */
  function Named(v: Value): set<string> {
    match v
    case StrV(s) => {s}
    case ListV(vs) => if |vs| == 1 && vs[0].StrV? then {vs[0].s} else {}
    case _ => {}
  }

  /** The resources that a comparison with `v` can single out. */
  function Targets(v: Value): set<string> {
    Named(v) + match v
               case ListV(vs) => (set x, s | x in vs && s in Named(x) :: s)
               case MapV(m) => (set x, s | x in m && s in Named(x) :: s)
               case _ => {}
  }

  /** The resources named by the operands that do not read request, which by
      `UnreferencedIsIrrelevant` are fixed before any resource is known. */
  function Reach(h: Host, caller: map<string, string>, e: Expr): set<string> {
    if IsJunction(e) then set i, s | 0 <= i < |e.kids| && s in Reach(h, caller, e.kids[i]) :: s
    else set i, s | 0 <= i < |e.kids| && s in OperandReach(h, caller, e.kids[i]) :: s
  }

  function OperandReach(h: Host, caller: map<string, string>, operand: Expr): set<string> {
    var r := Eval(h, Root(caller, ""), TOP, operand);
    if References(operand, VAR_REQUEST) || r == Err then {} else Targets(r.v)
  }

  lemma {:induction false} LeafReach(h: Host, caller: map<string, string>, e: Expr, leaf: Expr, s: string)
    requires IsLeafOf(e, leaf) && s in Reach(h, caller, leaf)
    ensures s in Reach(h, caller, e)
  {
    if IsJunction(e) {
      var i :| 0 <= i < |e.kids| && IsLeafOf(e.kids[i], leaf);
      LeafReach(h, caller, e.kids[i], leaf, s);
    }
  }

  lemma EqualOrMemberIsTarget(r: string, rv: Value, v: Value)
    requires rv == StrV(r) || rv == ListV([StrV(r)])
    requires rv == v || InValue(rv, v) == TRUE || InValue(v, rv) == TRUE
    ensures r in Targets(v)
  {
    assert r in Named(rv);
    if InValue(v, rv) == TRUE {
      assert v == StrV(r);
    }
  }

  lemma TrueRefIsTarget(h: Host, g: Root, leaf: Expr, i: nat)
    requires WellFormed(leaf) && (IsCall(leaf, Eq, 2) || IsCall(leaf, In, 2)) && i < 2
    requires BoundsResource(leaf.kids[i], leaf.kids[1 - i])
    requires Eval(h, g, TOP, leaf) == TRUE
    ensures g.resource in OperandReach(h, g.caller, leaf.kids[1 - i])
  {
    var x, y := ComparisonOperands(h, g, leaf);
    ResourceValue(h, g, TOP, leaf.kids[i]);
    UnreferencedIsIrrelevant(h, g, Root(g.caller, ""), TOP, leaf.kids[1 - i]);
    EqualOrMemberIsTarget(g.resource, if i == 0 then x else y, if i == 0 then y else x);
  }

  /** For a given caller, an accepted condition is true only for resources of a
      finite set that is determined without looking at the request. */
  lemma TrueOnlyWithinReach(h: Host, e: Expr, iss: Issuer, g: Root)
    requires WellFormed(e) && Accepted(e, iss)
    requires Eval(h, g, TOP, e) == TRUE
    ensures g.resource in Reach(h, g.caller, e)
  {
    assert Obeys(BoundResource, e, iss);
    var leaf := TrueComparison(h, g, TOP, e, BoundsResource);
    LeafInherits(e, leaf);
    var i := if BoundsResource(leaf.kids[0], leaf.kids[1]) then 0 else 1;
    TrueRefIsTarget(h, g, leaf, i);
    LeafReach(h, g.caller, e, leaf, g.resource);
  }

  lemma RefAloneIsNotOk(ref: Expr)
    requires IsResourceRef(ref)
    ensures !RequestOk(ref)
  {
    VariablesDiffer();
    assert !RequestOk(ref.kids[0]);
  }

  lemma BoundLeafIsLiteral(leaf: Expr)
    requires RequestOk(leaf) && AcceptedComparison(leaf, BoundsResource)
    ensures LiteralComparison(leaf)
  {
    var i := if BoundsResource(leaf.kids[0], leaf.kids[1]) then 0 else 1;
    RefAloneIsNotOk(leaf.kids[i]);
  }

  /** Without a preset, a condition is true only for a resource that it spells
      out as a string literal... */
  lemma NonPresetNamesItsResources(h: Host, e: Expr, iss: Issuer, g: Root)
    requires WellFormed(e) && Accepted(e, iss) && !iss.IsPreset()
    requires Eval(h, g, TOP, e) == TRUE
    ensures Mentions(e, g.resource)
  {
    assert Obeys(BoundResource, e, iss) && Obeys(RequestReads, e, iss);
    RequestOkFromComparisons(e);
    var leaf := TrueComparison(h, g, TOP, e, BoundsResource);
    LeafInherits(e, leaf);
    BoundLeafIsLiteral(leaf);
    if !Mentions(leaf, g.resource) {
      LiteralComparisonMisses(h, g, TOP, leaf);
    }
    MentionedByLeaf(e, leaf, g.resource);
  }

  lemma {:induction false} MentionedByLeaf(e: Expr, leaf: Expr, s: string)
    requires IsLeafOf(e, leaf) && Mentions(leaf, s)
    ensures Mentions(e, s)
  {
    if IsJunction(e) {
      var i :| 0 <= i < |e.kids| && IsLeafOf(e.kids[i], leaf);
      MentionedByLeaf(e.kids[i], leaf, s);
    }
  }

  /** ...and cannot tell two resources apart that it does not spell out. */
  lemma NonPresetCannotTellOthersApart(h: Host, e: Expr, iss: Issuer, a: Root, b: Root)
    requires WellFormed(e) && Accepted(e, iss) && !iss.IsPreset()
    requires a.caller == b.caller && !Mentions(e, a.resource) && !Mentions(e, b.resource)
    ensures Eval(h, a, TOP, e) == Eval(h, b, TOP, e)
    ensures Eval(h, a, TOP, e) != TRUE
  {
    assert Obeys(RequestReads, e, iss);
    RequestOkFromComparisons(e);
    RequestOkAgree(a, b, e);
    RequestOkAgree(b, a, e);
    AgreeBothWays(h, a, b, TOP, e);
    if Eval(h, a, TOP, e) == TRUE {
      NonPresetNamesItsResources(h, e, iss, a);
    }
  }
}
