/**
 The startup check of a policy condition: which conditions are accepted for an
 issuer. The check looks only at the tree; what acceptance guarantees about
 evaluation is proved in `Guarantees`.
 */
module Condition {
  import opened Wrappers
  import opened Cel
  import opened Navigation
  import opened Config

  // ----- shapes of single nodes -----

  predicate IsIdent(e: Expr, name: string) {
    e.kind.Ident? && TrimDot(e.kind.name) == name
  }

  predicate IsCall(e: Expr, fn: Fn, arity: nat) {
    e.kind == Call(fn) && |e.kids| == arity
  }

  predicate IsRequestField(e: Expr, field: string) {
    e.kind.Select? && |e.kids| == 1 && e.kind.field == field && IsIdent(e.kids[0], VAR_REQUEST)
  }

  /** A read of request.resource or of its deprecated alias request.resources. */
  predicate IsResourceRef(e: Expr) {
    (IsRequestField(e, "resource") || IsRequestField(e, "resources")) && !e.kind.testOnly
  }

  function StringLiteral(e: Expr): Option<string> {
    if e.kind.Literal? && e.kind.value.StrV? then Some(e.kind.value.s) else None
  }

  predicate IsStringLiteral(e: Expr) {
    StringLiteral(e).Some?
  }

  /** The claim that caller.claim or caller["claim"] reads. */
  function CallerClaim(e: Expr): Option<string> {
    if e.kind.Select? && |e.kids| == 1 then
      if !e.kind.testOnly && IsIdent(e.kids[0], VAR_CALLER) then Some(e.kind.field) else None
    else if IsCall(e, Index, 2) && IsIdent(e.kids[0], VAR_CALLER) then StringLiteral(e.kids[1])
    else None
  }

  predicate References(e: Expr, name: string) {
    IsIdent(e, name) || exists i :: 0 <= i < |e.kids| && References(e.kids[i], name)
  }

  predicate StringLiteralList(e: Expr) {
    e.kind == List && forall i :: 0 <= i < |e.kids| ==> IsStringLiteral(e.kids[i])
  }

  // ----- caller-anchored resources -----

  /** The operands of a left-nested chain of +, left to right. */
  function Spine(e: Expr): (ops: seq<Expr>)
    ensures |ops| >= 1
  {
    if IsCall(e, Add, 2) then Spine(e.kids[0]) + [e.kids[1]] else [e]
  }

  predicate IsPart(e: Expr) {
    CallerClaim(e).Some? || IsStringLiteral(e)
  }

  function LiteralAt(ops: seq<Expr>, i: nat): string {
    if i < |ops| && StringLiteral(ops[i]).Some? then StringLiteral(ops[i]).value else ""
  }

  function ClaimAt(ops: seq<Expr>, i: nat): string {
    if i < |ops| && CallerClaim(ops[i]).Some? then CallerClaim(ops[i]).value else ""
  }

  predicate AnchoredOps(ops: seq<Expr>) {
    && (forall i :: 0 <= i < |ops| ==> IsPart(ops[i]))
    && (if LiteralAt(ops, 0) == "repo:" && ClaimAt(ops, 1) == "repository" then true
        else if LiteralAt(ops, 0) == "repo:" && ClaimAt(ops, 1) == "repository_owner" then "/" <= LiteralAt(ops, 2)
        else if LiteralAt(ops, 0) == "org:" && ClaimAt(ops, 1) == "repository_owner" then |ops| == 2
        else false)
  }

  predicate CallerAnchored(e: Expr) {
    AnchoredOps(Spine(e))
  }

  function Reversed<T>(s: seq<T>): seq<T> {
    if s == [] then [] else Reversed(s[1..]) + [s[0]]
  }

  lemma ReversedAppend<T>(s: seq<T>, x: T)
    ensures Reversed(s + [x]) == [x] + Reversed(s)
  {
    if s != [] {
      assert (s + [x])[1..] == s[1..] + [x];
    }
  }

  method Reverse<T>(s: seq<T>) returns (r: seq<T>)
    ensures r == Reversed(s)
  {
    r := [];
    for i := 0 to |s|
      invariant Reversed(s[..i]) == r
    {
      assert s[..i + 1] == s[..i] + [s[i]];
      ReversedAppend(s[..i], s[i]);
      r := [s[i]] + r;
    }
    assert s[..|s|] == s;
  }

  /** The walk down the chain that collects its operands right to left. */
  method Operands(condition: Expr) returns (ops: seq<Expr>)
    ensures ops == Spine(condition)
  {
    var e := condition;
    ops := [];
    while IsCall(e, Add, 2)
      invariant Spine(condition) == Spine(e) + Reversed(ops)
      decreases e
    {
      ReversedAppend(ops, e.kids[1]);
      ops := ops + [e.kids[1]];
      e := e.kids[0];
    }
    ReversedAppend(ops, e);
    ops := Reverse(ops + [e]);
  }

  method CheckCallerAnchored(e: Expr) returns (ok: bool)
    ensures ok == CallerAnchored(e)
  {
    var ops := Operands(e);
    for i := 0 to |ops|
      invariant forall k :: 0 <= k < i ==> IsPart(ops[k])
    {
      if CallerClaim(ops[i]).None? && !IsStringLiteral(ops[i]) {
        return false;
      }
    }
    var literal, claim := LiteralAt(ops, 0), ClaimAt(ops, 1);
    if literal == "repo:" && claim == "repository" {
      return true;
    } else if literal == "repo:" && claim == "repository_owner" {
      return "/" <= LiteralAt(ops, 2);
    } else if literal == "org:" && claim == "repository_owner" {
      return |ops| == 2;
    }
    return false;
  }

  // ----- constraining comparisons -----

  type Bound = (Expr, Expr) -> bool

  predicate AcceptedComparison(e: Expr, bound: Bound) {
    (IsCall(e, Eq, 2) || IsCall(e, In, 2)) && (bound(e.kids[0], e.kids[1]) || bound(e.kids[1], e.kids[0]))
  }

  /** Every || operand must constrain, one && operand suffices. */
  predicate Constrains(e: Expr, bound: Bound) {
    if e.kind == Call(Or) then forall i :: 0 <= i < |e.kids| ==> Constrains(e.kids[i], bound)
    else if e.kind == Call(And) then exists i :: 0 <= i < |e.kids| && Constrains(e.kids[i], bound)
    else AcceptedComparison(e, bound)
  }

  predicate BoundsResource(ref: Expr, other: Expr) {
    IsResourceRef(ref) && !References(other, VAR_REQUEST)
  }

  predicate BoundsIdentity(identity: seq<string>, ref: Expr, other: Expr) {
    if CallerClaim(ref).Some? then CallerClaim(ref).value in identity && !References(other, VAR_CALLER)
    else if !IsResourceRef(ref) then false
    else if other.kind == List then forall i :: 0 <= i < |other.kids| ==> CallerAnchored(other.kids[i])
    else CallerAnchored(other)
  }

  function BoundsCaller(identity: seq<string>): Bound {
    (ref, other) => BoundsIdentity(identity, ref, other)
  }

  /** Only the GitHub preset has claims that pin the caller. */
  function IdentityClaims(iss: Issuer): seq<string> {
    if iss.IsPreset() then GitHubIdentityClaims() else []
  }

  // ----- the check -----

  predicate Shadows(e: Expr) {
    e.kind.Comprehension? &&
    exists v :: v in [e.kind.iterVar, e.kind.iterVar2, e.kind.accuVar] && v in [VAR_CALLER, VAR_REQUEST]
  }

  predicate ForbiddenFunction(e: Expr) {
    e.kind.Call? && e.kind.fn in {StartsWith, EndsWith, Contains, Matches}
  }

  predicate OrdersVariables(e: Expr) {
    && e.kind.Call? && e.kind.fn in {Less, LessEq, Greater, GreaterEq}
    && exists i :: 0 <= i < |e.kids| && (References(e.kids[i], VAR_CALLER) || References(e.kids[i], VAR_REQUEST))
  }

  function ReadClaim(root: Expr, p: Path): Option<string>
    requires IsPath(root, p)
  {
    if p == [] then None else ParentOf(root, p); CallerClaim(At(root, ParentPath(p)))
  }

  /** The request identifier at `p` is read as the resource in an == with a
      string literal, or on the left of an in with a list of them. */
  predicate ComparedToLiteral(root: Expr, p: Path)
    requires IsPath(root, p)
  {
    |p| >= 2 &&
    (ParentOf(root, p);
     var selPath := ParentPath(p);
     ParentOf(root, selPath);
     var cmp := At(root, ParentPath(selPath));
     && IsResourceRef(At(root, selPath))
     && |cmp.kids| == 2
     && (if cmp.kind == Call(Eq) then
           IsStringLiteral(if selPath[|selPath| - 1] == 0 then cmp.kids[1] else cmp.kids[0])
         else if cmp.kind == Call(In) then selPath[|selPath| - 1] == 0 && StringLiteralList(cmp.kids[1])
         else false))
  }

  ghost predicate NoShadowing(root: Expr) {
    forall p :: IsPath(root, p) ==> !Shadows(At(root, p))
  }

  ghost predicate NoForbiddenCalls(root: Expr) {
    forall p :: IsPath(root, p) ==> !ForbiddenFunction(At(root, p)) && !OrdersVariables(At(root, p))
  }

  ghost predicate CallerReadsDeclared(root: Expr, claims: seq<string>) {
    forall p :: IsPath(root, p) && IsIdent(At(root, p), VAR_CALLER) ==>
      ReadClaim(root, p).Some? && ReadClaim(root, p).value in claims
  }

  ghost predicate RequestComparedToLiterals(root: Expr) {
    forall p :: IsPath(root, p) && IsIdent(At(root, p), VAR_REQUEST) ==> ComparedToLiteral(root, p)
  }

  /** The rules in the order in which they are applied. */
  datatype Rule = Shadowing | Calls | CallerReads | RequestReads | BoundResource | BoundCaller

  ghost predicate Obeys(rule: Rule, root: Expr, iss: Issuer) {
    match rule
    case Shadowing => NoShadowing(root)
    case Calls => NoForbiddenCalls(root)
    case CallerReads => CallerReadsDeclared(root, iss.claims)
    case RequestReads => !iss.IsPreset() ==> RequestComparedToLiterals(root)
    case BoundResource => Constrains(root, BoundsResource)
    case BoundCaller => |iss.require| == 0 ==> Constrains(root, BoundsCaller(IdentityClaims(iss)))
  }

  ghost predicate Accepted(root: Expr, iss: Issuer) {
    forall rule :: Obeys(rule, root, iss)
  }

  function Order(rule: Rule): nat {
    match rule
    case Shadowing => 0
    case Calls => 1
    case CallerReads => 2
    case RequestReads => 3
    case BoundResource => 4
    case BoundCaller => 5
  }

  datatype Rejection =
    | ShadowedVariable | FunctionNotAllowed | OrderingNotAllowed | CallerAccess | UndeclaredClaim(claim: string)
    | ResourceNotLiteral | ResourceUnconstrained | CallerUnconstrained

  function BrokenRule(r: Rejection): Rule {
    match r
    case ShadowedVariable => Shadowing
    case FunctionNotAllowed => Calls
    case OrderingNotAllowed => Calls
    case CallerAccess => CallerReads
    case UndeclaredClaim(_) => CallerReads
    case ResourceNotLiteral => RequestReads
    case ResourceUnconstrained => BoundResource
    case CallerUnconstrained => BoundCaller
  }

  lemma NodesCover(root: Expr)
    ensures forall p :: p in Descendants(root) <==> IsPath(root, p)
  {
    forall p: Path ensures p in Descendants(root) <==> IsPath(root, p) {
      DescendantsAreThePaths(root, p);
    }
  }

  /** Some node of the condition is one that the rejection speaks of. */
  ghost predicate HasCulprit(r: Rejection, root: Expr) {
    exists p :: IsPath(root, p) && IsCulprit(r, root, p)
  }

  ghost predicate IsCulprit(r: Rejection, root: Expr, p: Path)
    requires IsPath(root, p)
  {
    match r
    case ShadowedVariable => Shadows(At(root, p))
    case FunctionNotAllowed => ForbiddenFunction(At(root, p))
    case OrderingNotAllowed => OrdersVariables(At(root, p))
    case CallerAccess => IsIdent(At(root, p), VAR_CALLER) && ReadClaim(root, p).None?
    case UndeclaredClaim(claim) => IsIdent(At(root, p), VAR_CALLER) && ReadClaim(root, p) == Some(claim)
    case ResourceNotLiteral => IsIdent(At(root, p), VAR_REQUEST) && !ComparedToLiteral(root, p)
    case _ => true
  }

  method CheckShadowing(root: Expr) returns (r: Option<Rejection>)
    ensures r.None? <==> NoShadowing(root)
    ensures r.Some? ==> r.value == ShadowedVariable && HasCulprit(r.value, root)
  {
    var nodes := Descendants(root);
    NodesCover(root);
    for i := 0 to |nodes|
      invariant forall k :: 0 <= k < i ==> !Shadows(At(root, nodes[k]))
    {
      assert nodes[i] in nodes;
      if Shadows(At(root, nodes[i])) {
        assert IsCulprit(ShadowedVariable, root, nodes[i]);
        return Some(ShadowedVariable);
      }
    }
    return None;
  }

  method CheckCalls(root: Expr) returns (r: Option<Rejection>)
    ensures r.None? <==> NoForbiddenCalls(root)
    ensures r.Some? ==> r.value in {FunctionNotAllowed, OrderingNotAllowed} && HasCulprit(r.value, root)
  {
    var nodes := Descendants(root);
    NodesCover(root);
    for i := 0 to |nodes|
      invariant forall k :: 0 <= k < i ==>
        !ForbiddenFunction(At(root, nodes[k])) && !OrdersVariables(At(root, nodes[k]))
    {
      assert nodes[i] in nodes;
      if ForbiddenFunction(At(root, nodes[i])) {
        assert IsCulprit(FunctionNotAllowed, root, nodes[i]);
        return Some(FunctionNotAllowed);
      }
      if OrdersVariables(At(root, nodes[i])) {
        assert IsCulprit(OrderingNotAllowed, root, nodes[i]);
        return Some(OrderingNotAllowed);
      }
    }
    return None;
  }

  method CheckCallerReads(root: Expr, claims: seq<string>) returns (r: Option<Rejection>)
    ensures r.None? <==> CallerReadsDeclared(root, claims)
    ensures r.Some? ==> r.value == CallerAccess || (r.value.UndeclaredClaim? && r.value.claim !in claims)
    ensures r.Some? ==> HasCulprit(r.value, root)
  {
    var nodes := Descendants(root);
    NodesCover(root);
    for i := 0 to |nodes|
      invariant forall k :: 0 <= k < i && IsIdent(At(root, nodes[k]), VAR_CALLER) ==>
        ReadClaim(root, nodes[k]).Some? && ReadClaim(root, nodes[k]).value in claims
    {
      assert nodes[i] in nodes;
      if IsIdent(At(root, nodes[i]), VAR_CALLER) {
        var claim := ReadClaim(root, nodes[i]);
        if claim.None? {
          assert IsCulprit(CallerAccess, root, nodes[i]);
          return Some(CallerAccess);
        }
        if claim.value !in claims {
          assert IsCulprit(UndeclaredClaim(claim.value), root, nodes[i]);
          return Some(UndeclaredClaim(claim.value));
        }
      }
    }
    return None;
  }

  method CheckRequestReads(root: Expr) returns (r: Option<Rejection>)
    ensures r.None? <==> RequestComparedToLiterals(root)
    ensures r.Some? ==> r.value == ResourceNotLiteral && HasCulprit(r.value, root)
  {
    var nodes := Descendants(root);
    NodesCover(root);
    for i := 0 to |nodes|
      invariant forall k :: 0 <= k < i && IsIdent(At(root, nodes[k]), VAR_REQUEST) ==> ComparedToLiteral(root, nodes[k])
    {
      assert nodes[i] in nodes;
      if IsIdent(At(root, nodes[i]), VAR_REQUEST) && !ComparedToLiteral(root, nodes[i]) {
        assert IsCulprit(ResourceNotLiteral, root, nodes[i]);
        return Some(ResourceNotLiteral);
      }
    }
    return None;
  }

  /** Accepts exactly the conditions that obey every rule, and otherwise
      reports the first rule that is broken. */
  method CheckCondition(root: Expr, iss: Issuer) returns (r: Option<Rejection>)
    ensures r.Some? ==> !Obeys(BrokenRule(r.value), root, iss)
    ensures r.None? <==> Accepted(root, iss)
    ensures r.Some? ==> forall rule :: Order(rule) < Order(BrokenRule(r.value)) ==> Obeys(rule, root, iss)
    ensures r.Some? && r.value.UndeclaredClaim? ==> r.value.claim !in iss.claims
    ensures r.Some? ==> HasCulprit(r.value, root)
  {
    r := CheckShadowing(root);
    if r.Some? { return; }
    r := CheckCalls(root);
    if r.Some? { return; }
    r := CheckCallerReads(root, iss.claims);
    if r.Some? { return; }
    if !iss.IsPreset() {
      r := CheckRequestReads(root);
      if r.Some? { return; }
    }
    assert IsCulprit(ResourceUnconstrained, root, []) && IsCulprit(CallerUnconstrained, root, []);
    if !Constrains(root, BoundsResource) { return Some(ResourceUnconstrained); }
    if |iss.require| == 0 && !Constrains(root, BoundsCaller(IdentityClaims(iss))) { return Some(CallerUnconstrained); }
    return None;
  }
}
