/**
 What a condition that constrains the caller says about the caller: an identity
 claim is pinned to a value that no claim influences, or the resource is built
 from the caller's own repository or owner.
 */
module Anchoring {
  import opened Wrappers
  import opened Cel
  import opened Config
  import opened Condition
  import opened Discipline
  import opened Refinement
  import opened Branches
  import opened Guarantees

  // ----- chains of + -----

  function PartText(caller: map<string, string>, part: Expr): Option<string> {
    if IsStringLiteral(part) then StringLiteral(part)
    else if CallerClaim(part).Some? && CallerClaim(part).value in caller then Some(caller[CallerClaim(part).value])
    else None
  }

  /** The texts of the parts, joined left to right. */
  function Joined(caller: map<string, string>, ops: seq<Expr>): Option<string> {
    if ops == [] then Some("")
    else
      var front := Joined(caller, ops[..|ops| - 1]);
      var last := PartText(caller, ops[|ops| - 1]);
      if front.Some? && last.Some? then Some(front.value + last.value) else None
  }

  function TextRes(t: Option<string>): Res {
    if t.Some? then Ok(StrV(t.value)) else Err
  }

  lemma PartValue(h: Host, g: Root, part: Expr)
    requires IsPart(part)
    ensures Eval(h, g, TOP, part) == TextRes(PartText(g.caller, part))
  {
    if !IsStringLiteral(part) {
      ClaimValue(h, g, TOP, part);
    }
  }

  /** A chain of string literals and claims evaluates to the concatenation of
      its operands in source order, or to an error if a claim is absent. */
  lemma {:induction false} ChainValue(h: Host, g: Root, e: Expr)
    requires forall i :: 0 <= i < |Spine(e)| ==> IsPart(Spine(e)[i])
    ensures Eval(h, g, TOP, e) == TextRes(Joined(g.caller, Spine(e)))
  {
    var ops := Spine(e);
    assert IsPart(ops[|ops| - 1]);
    PartValue(h, g, ops[|ops| - 1]);
    if IsCall(e, Add, 2) {
      assert ops[..|ops| - 1] == Spine(e.kids[0]);
      assert forall i :: 0 <= i < |Spine(e.kids[0])| ==> Spine(e.kids[0])[i] == ops[i];
      ChainValue(h, g, e.kids[0]);
      SumValue(h, g, e);
    } else {
      assert ops[..0] == [] && Joined(g.caller, ops[..0]) == Some("");
      assert forall t: string :: "" + t == t;
    }
  }

  lemma SumValue(h: Host, g: Root, e: Expr)
    requires IsCall(e, Add, 2)
    ensures var l, r := Eval(h, g, TOP, e.kids[0]), Eval(h, g, TOP, e.kids[1]);
            && (l == Err || r == Err ==> Eval(h, g, TOP, e) == Err)
            && (l.Ok? && r.Ok? && l.v.StrV? && r.v.StrV? ==> Eval(h, g, TOP, e) == Ok(StrV(l.v.s + r.v.s)))
  {
    var rs := EvalAll(h, g, TOP, e.kids);
    assert rs == [Eval(h, g, TOP, e.kids[0]), Eval(h, g, TOP, e.kids[1])];
    if Err !in rs {
      assert Values(rs) == [rs[0].v, rs[1].v];
    }
  }

  lemma {:induction false} JoinedPrefix(caller: map<string, string>, ops: seq<Expr>, k: nat)
    requires k <= |ops| && Joined(caller, ops).Some?
    ensures Joined(caller, ops[..k]).Some?
    ensures Joined(caller, ops[..k]).value <= Joined(caller, ops).value
  {
    if k == |ops| {
      assert ops[..k] == ops;
    } else {
      JoinedPrefix(caller, ops[..|ops| - 1], k);
      assert ops[..|ops| - 1][..k] == ops[..k];
    }
  }

  // ----- the documented forms -----

  predicate ReadsClaim(e: Expr, claim: string) {
    CallerClaim(e) == Some(claim)
  }

  predicate IsText(e: Expr, text: string) {
    StringLiteral(e) == Some(text)
  }

  /** The three documented ways to start a caller-anchored resource. */
  predicate DocumentedForm(ops: seq<Expr>) {
    && (forall i :: 0 <= i < |ops| ==> IsPart(ops[i]))
    && (|| (|ops| >= 2 && IsText(ops[0], "repo:") && ReadsClaim(ops[1], "repository"))
        || (|ops| >= 3 && IsText(ops[0], "repo:") && ReadsClaim(ops[1], "repository_owner")
            && IsStringLiteral(ops[2]) && "/" <= StringLiteral(ops[2]).value)
        || (|ops| == 2 && IsText(ops[0], "org:") && ReadsClaim(ops[1], "repository_owner")))
  }

  /** The chains recognised as caller-anchored are exactly the documented ones,
      although the check reads an absent operand as an empty text. */
  lemma AnchoredIffDocumented(e: Expr)
    ensures CallerAnchored(e) <==> DocumentedForm(Spine(e))
  {
    assert |"repository"| != |"repository_owner"| && |"repo:"| != |"org:"|;
  }

  // ----- anchored text -----

  /** `s` names a resource of the caller's own repository name or owner. */
  predicate AnchoredText(caller: map<string, string>, s: string) {
    || ("repository" in caller && "repo:" + caller["repository"] <= s)
    || ("repository_owner" in caller && "repo:" + caller["repository_owner"] + "/" <= s)
    || ("repository_owner" in caller && s == "org:" + caller["repository_owner"])
  }

  lemma TwoParts(caller: map<string, string>, ops: seq<Expr>)
    requires |ops| >= 2 && Joined(caller, ops).Some?
    requires IsStringLiteral(ops[0]) && CallerClaim(ops[1]).Some?
    ensures CallerClaim(ops[1]).value in caller
    ensures Joined(caller, ops[..2]) == Some(StringLiteral(ops[0]).value + caller[CallerClaim(ops[1]).value])
    ensures Joined(caller, ops[..2]).value <= Joined(caller, ops).value
  {
    JoinedPrefix(caller, ops, 2);
    var two := ops[..2];
    assert two[..1] == [ops[0]] && [ops[0]][..0] == [];
    assert Joined(caller, []) == Some("");
    assert Joined(caller, [ops[0]]) == Some(StringLiteral(ops[0]).value) by {
      assert "" + StringLiteral(ops[0]).value == StringLiteral(ops[0]).value;
    }
  }

  /** Whatever an accepted chain goes on with, its owner is the caller's. */
  lemma AnchoredChainText(h: Host, g: Root, e: Expr)
    requires CallerAnchored(e)
    ensures Eval(h, g, TOP, e) != Err ==> Eval(h, g, TOP, e).v.StrV? && AnchoredText(g.caller, Eval(h, g, TOP, e).v.s)
  {
    ChainValue(h, g, e);
    var ops := Spine(e);
    assert IsPart(ops[0]);
    if Joined(g.caller, ops).Some? {
      assert LiteralAt(ops, 0) != "" && ClaimAt(ops, 1) != "";
      TwoParts(g.caller, ops);
      if ClaimAt(ops, 1) == "repository_owner" {
        if LiteralAt(ops, 0) == "repo:" {
          ThirdPart(g.caller, ops);
        } else {
          assert ops[..2] == ops;
        }
      }
    }
  }

  lemma ThirdPart(caller: map<string, string>, ops: seq<Expr>)
    requires Joined(caller, ops).Some? && "/" <= LiteralAt(ops, 2)
    requires |ops| >= 2 && Joined(caller, ops[..2]).Some?
    ensures Joined(caller, ops[..2]).value + "/" <= Joined(caller, ops).value
  {
    assert LiteralAt(ops, 2)[0] == '/';
    assert |ops| >= 3;
    JoinedPrefix(caller, ops, 3);
    assert ops[..3][..2] == ops[..2];
    var slash := LiteralAt(ops, 2);
    assert slash == "/" + slash[1..];
  }

  // ----- comparisons -----

  /** Claim `claim` of the caller equals, or is a member of, the value of
      `operand`, and that value is the same for every other caller. */
  ghost predicate PinnedTo(h: Host, g: Root, claim: string, operand: Expr) {
    && claim in g.caller
    && var r := Eval(h, g, TOP, operand);
    && r != Err
    && (r.v == StrV(g.caller[claim]) || InValue(StrV(g.caller[claim]), r.v) == TRUE)
    && forall other: map<string, string> :: Eval(h, g.(caller := other), TOP, operand) == r
  }

  /** `leaf` compares `ref` with `operand`, by == or in, in either order. */
  predicate Compares(leaf: Expr, ref: Expr, operand: Expr) {
    leaf.kind in {Call(Eq), Call(In)} && (leaf.kids == [ref, operand] || leaf.kids == [operand, ref])
  }

  /** The comparison `leaf`, which the condition `e` reaches through && and ||
      alone, is true and pins an identity claim, read by `ref`, to the value of
      `operand`. */
  ghost predicate Pins(h: Host, g: Root, e: Expr, identity: seq<string>, leaf: Expr, ref: Expr, operand: Expr) {
    && IsLeafOf(e, leaf) && Compares(leaf, ref, operand)
    && Eval(h, g, TOP, leaf) == TRUE
    && CallerClaim(ref).Some? && CallerClaim(ref).value in identity
    && !References(operand, VAR_CALLER)
    && PinnedTo(h, g, CallerClaim(ref).value, operand)
  }

  /** The condition `e` owes its truth to a comparison that pins the caller. */
  ghost predicate CallerPinned(h: Host, g: Root, e: Expr, identity: seq<string>) {
    exists leaf, ref, operand :: Pins(h, g, e, identity, leaf, ref, operand)
  }

  /** A true comparison has operands of equal value, or one within the other. */
  lemma ComparedValues(h: Host, g: Root, leaf: Expr, ref: Expr, operand: Expr) returns (x: Value, y: Value)
    requires Compares(leaf, ref, operand) && Eval(h, g, TOP, leaf) == TRUE
    ensures Eval(h, g, TOP, ref) == Ok(x) && Eval(h, g, TOP, operand) == Ok(y)
    ensures x == y || InValue(x, y) == TRUE || InValue(y, x) == TRUE
    ensures leaf.kind == Call(Eq) ==> x == y
  {
    var v, w := ComparisonOperands(h, g, leaf);
    x, y := if leaf.kids == [ref, operand] then v else w, if leaf.kids == [ref, operand] then w else v;
  }

  lemma ClaimComparisonPins(h: Host, g: Root, leaf: Expr, ref: Expr, operand: Expr)
    requires WellFormed(operand) && Compares(leaf, ref, operand)
    requires CallerClaim(ref).Some? && !References(operand, VAR_CALLER)
    requires Eval(h, g, TOP, leaf) == TRUE
    ensures PinnedTo(h, g, CallerClaim(ref).value, operand)
  {
    var x, y := ComparedValues(h, g, leaf, ref, operand);
    ClaimValue(h, g, TOP, ref);
    SameForEveryCaller(h, g, operand);
  }

  lemma SameForEveryCaller(h: Host, g: Root, operand: Expr)
    requires WellFormed(operand) && !References(operand, VAR_CALLER)
    ensures forall other: map<string, string> :: Eval(h, g.(caller := other), TOP, operand) == Eval(h, g, TOP, operand)
  {
    forall other: map<string, string> ensures Eval(h, g.(caller := other), TOP, operand) == Eval(h, g, TOP, operand) {
      UnreferencedIsIrrelevant(h, g, g.(caller := other), TOP, operand);
    }
  }

  predicate AnchoredOperand(e: Expr) {
    if e.kind == List then forall i :: 0 <= i < |e.kids| ==> CallerAnchored(e.kids[i]) else CallerAnchored(e)
  }

  predicate AnchoredValue(caller: map<string, string>, v: Value) {
    match v
    case StrV(s) => AnchoredText(caller, s)
    case ListV(vs) => forall i :: 0 <= i < |vs| ==> vs[i].StrV? && AnchoredText(caller, vs[i].s)
    case _ => false
  }

  lemma AnchoredOperandValue(h: Host, g: Root, e: Expr)
    requires AnchoredOperand(e)
    ensures Eval(h, g, TOP, e) != Err ==> AnchoredValue(g.caller, Eval(h, g, TOP, e).v)
  {
    if e.kind == List {
      var rs := EvalAll(h, g, TOP, e.kids);
      if Err !in rs {
        forall i | 0 <= i < |rs| ensures Values(rs)[i].StrV? && AnchoredText(g.caller, Values(rs)[i].s) {
          assert rs[i] in rs;
          AnchoredChainText(h, g, e.kids[i]);
        }
      }
    } else {
      AnchoredChainText(h, g, e);
    }
  }

  lemma EqualOrMemberIsAnchored(caller: map<string, string>, r: string, rv: Value, v: Value)
    requires rv == StrV(r) || rv == ListV([StrV(r)])
    requires rv == v || InValue(rv, v) == TRUE || InValue(v, rv) == TRUE
    requires AnchoredValue(caller, v)
    ensures AnchoredText(caller, r)
  {
    if rv == v {
      assert rv.ListV? ==> rv.elems[0] == StrV(r);
    } else if InValue(rv, v) == TRUE {
      var i :| 0 <= i < |v.elems| && v.elems[i] == rv;
    } else {
      assert v == StrV(r);
    }
  }

  lemma ResourceComparisonAnchors(h: Host, g: Root, leaf: Expr, ref: Expr, operand: Expr)
    requires Compares(leaf, ref, operand) && IsResourceRef(ref) && AnchoredOperand(operand)
    requires Eval(h, g, TOP, leaf) == TRUE
    ensures AnchoredText(g.caller, g.resource)
  {
    var x, y := ComparedValues(h, g, leaf, ref, operand);
    ResourceValue(h, g, TOP, ref);
    AnchoredOperandValue(h, g, operand);
    EqualOrMemberIsAnchored(g.caller, g.resource, x, y);
  }

  /** Without require, an accepted condition that is true has pinned the caller
      by one of its own comparisons, or is about a resource anchored to the
      caller. */
  lemma CallerIsPinnedOrAnchored(h: Host, e: Expr, iss: Issuer, g: Root)
    requires WellFormed(e) && Accepted(e, iss) && |iss.require| == 0
    requires Eval(h, g, TOP, e) == TRUE
    ensures CallerPinned(h, g, e, IdentityClaims(iss)) || AnchoredText(g.caller, g.resource)
  {
    var identity := IdentityClaims(iss);
    assert Obeys(BoundCaller, e, iss);
    var leaf := TrueComparison(h, g, TOP, e, BoundsCaller(identity));
    LeafInherits(e, leaf);
    var ref, operand := BoundSides(identity, leaf);
    TrueLeafPinsOrAnchors(h, g, e, identity, leaf, ref, operand);
  }

  lemma BoundSides(identity: seq<string>, leaf: Expr) returns (ref: Expr, operand: Expr)
    requires WellFormed(leaf) && AcceptedComparison(leaf, BoundsCaller(identity))
    ensures Compares(leaf, ref, operand) && WellFormed(operand) && BoundsIdentity(identity, ref, operand)
  {
    var a, b := leaf.kids[0], leaf.kids[1];
    assert leaf.kids == [a, b];
    ref, operand := if BoundsIdentity(identity, a, b) then a else b, if BoundsIdentity(identity, a, b) then b else a;
  }

  lemma TrueLeafPinsOrAnchors(h: Host, g: Root, e: Expr, identity: seq<string>, leaf: Expr, ref: Expr, operand: Expr)
    requires IsLeafOf(e, leaf) && Compares(leaf, ref, operand) && WellFormed(operand)
    requires BoundsIdentity(identity, ref, operand)
    requires Eval(h, g, TOP, leaf) == TRUE
    ensures CallerPinned(h, g, e, identity) || AnchoredText(g.caller, g.resource)
  {
    if CallerClaim(ref).Some? {
      ClaimComparisonPins(h, g, leaf, ref, operand);
      assert Pins(h, g, e, identity, leaf, ref, operand);
    } else {
      ResourceComparisonAnchors(h, g, leaf, ref, operand);
    }
  }

  // ----- what a pin is worth -----

  /** Two callers for whom the same pinning == holds, for the same resource or
      with an operand that does not read the request, agree on the claim. */
  lemma PinnedCallersAgree(h: Host, a: Root, b: Root, e: Expr, identity: seq<string>, leaf: Expr, ref: Expr,
                           operand: Expr)
    requires WellFormed(e) && Pins(h, a, e, identity, leaf, ref, operand) && leaf.kind == Call(Eq)
    requires Eval(h, b, TOP, leaf) == TRUE
    requires a.resource == b.resource || !References(operand, VAR_REQUEST)
    ensures var c := CallerClaim(ref).value; c in a.caller && c in b.caller && a.caller[c] == b.caller[c]
  {
    LeafInherits(e, leaf);
    OperandInherits(leaf, ref, operand);
    EqualClaim(h, a, leaf, ref, operand);
    EqualClaim(h, b, leaf, ref, operand);
    UnreferencedIsIrrelevant(h, a, b, TOP, operand);
  }

  lemma OperandInherits(leaf: Expr, ref: Expr, operand: Expr)
    requires WellFormed(leaf) && Compares(leaf, ref, operand)
    ensures WellFormed(operand)
  {
    assert operand == leaf.kids[0] || operand == leaf.kids[1];
  }

  lemma EqualClaim(h: Host, g: Root, leaf: Expr, ref: Expr, operand: Expr)
    requires Compares(leaf, ref, operand) && leaf.kind == Call(Eq) && CallerClaim(ref).Some?
    requires Eval(h, g, TOP, leaf) == TRUE
    ensures var c := CallerClaim(ref).value; c in g.caller && Eval(h, g, TOP, operand) == Ok(StrV(g.caller[c]))
  {
    var x, y := ComparedValues(h, g, leaf, ref, operand);
    ClaimValue(h, g, TOP, ref);
  }

  /** The values to which a condition can pin a claim: computed from the
      condition and the resource, without a caller. */
  function CallerReach(h: Host, resource: string, e: Expr, claim: string): set<string> {
    if IsJunction(e) then set i, s | 0 <= i < |e.kids| && s in CallerReach(h, resource, e.kids[i], claim) :: s
    else PinnableAt(h, resource, e, claim)
  }

  function PinnableAt(h: Host, resource: string, leaf: Expr, claim: string): set<string> {
    if |leaf.kids| != 2 then {}
    else
      PinnableBy(h, resource, leaf.kids[0], leaf.kids[1], claim) +
      PinnableBy(h, resource, leaf.kids[1], leaf.kids[0], claim)
  }

  function PinnableBy(h: Host, resource: string, ref: Expr, operand: Expr, claim: string): set<string> {
    var r := Eval(h, Root(map[], resource), TOP, operand);
    if CallerClaim(ref) != Some(claim) || References(operand, VAR_CALLER) || r == Err then {} else Targets(r.v)
  }

  lemma {:induction false} LeafCallerReach(h: Host, resource: string, e: Expr, leaf: Expr, claim: string, s: string)
    requires IsLeafOf(e, leaf) && !IsJunction(leaf) && s in PinnableAt(h, resource, leaf, claim)
    ensures s in CallerReach(h, resource, e, claim)
  {
    if IsJunction(e) {
      var i :| 0 <= i < |e.kids| && IsLeafOf(e.kids[i], leaf);
      LeafCallerReach(h, resource, e.kids[i], leaf, claim, s);
    }
  }

  /** For a given resource, an accepted condition that is true without require,
      and whose resource is not anchored to the caller, has a caller with one of
      finitely many identity values that the condition fixes. */
  lemma CallerWithinReach(h: Host, e: Expr, iss: Issuer, g: Root) returns (claim: string)
    requires WellFormed(e) && Accepted(e, iss) && |iss.require| == 0
    requires Eval(h, g, TOP, e) == TRUE && !AnchoredText(g.caller, g.resource)
    ensures claim in IdentityClaims(iss) && claim in g.caller
    ensures g.caller[claim] in CallerReach(h, g.resource, e, claim)
  {
    CallerIsPinnedOrAnchored(h, e, iss, g);
    claim := PinIsWithinReach(h, e, IdentityClaims(iss), g);
  }

  lemma PinIsWithinReach(h: Host, e: Expr, identity: seq<string>, g: Root) returns (claim: string)
    requires CallerPinned(h, g, e, identity)
    ensures claim in identity && claim in g.caller
    ensures g.caller[claim] in CallerReach(h, g.resource, e, claim)
  {
    var leaf, ref, operand :| Pins(h, g, e, identity, leaf, ref, operand);
    claim := CallerClaim(ref).value;
    PinReaches(h, g, e, identity, leaf, ref, operand);
  }

  lemma PinReaches(h: Host, g: Root, e: Expr, identity: seq<string>, leaf: Expr, ref: Expr, operand: Expr)
    requires Pins(h, g, e, identity, leaf, ref, operand)
    ensures var claim := CallerClaim(ref).value; g.caller[claim] in CallerReach(h, g.resource, e, claim)
  {
    var claim := CallerClaim(ref).value;
    PinnedIsPinnable(h, g, ref, operand);
    PinnableSide(h, g.resource, leaf, ref, operand, claim, g.caller[claim]);
    LeafCallerReach(h, g.resource, e, leaf, claim, g.caller[claim]);
  }

  lemma PinnableSide(h: Host, resource: string, leaf: Expr, ref: Expr, operand: Expr, claim: string, s: string)
    requires Compares(leaf, ref, operand) && s in PinnableBy(h, resource, ref, operand, claim)
    ensures s in PinnableAt(h, resource, leaf, claim)
  {
  }

  lemma PinnedIsPinnable(h: Host, g: Root, ref: Expr, operand: Expr)
    requires CallerClaim(ref).Some? && !References(operand, VAR_CALLER)
    requires PinnedTo(h, g, CallerClaim(ref).value, operand)
    ensures var claim := CallerClaim(ref).value; g.caller[claim] in PinnableBy(h, g.resource, ref, operand, claim)
  {
    var none: map<string, string> := map[];
    assert g.(caller := none) == Root(none, g.resource);
    var r := Eval(h, g.(caller := none), TOP, operand);
    var s := g.caller[CallerClaim(ref).value];
    assert s in Named(StrV(s));
    assert s in Targets(r.v);
  }
}
