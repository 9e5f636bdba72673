/**
 The `||` branches of a condition, made explicit: the disjunctive normal form
 of its outer && / || structure, and what `Constrains` means in terms of it.
 */
module Branches {
  import opened Cel
  import opened Condition
  import opened Discipline

  predicate IsJunction(e: Expr) {
    e.kind in {Call(Or), Call(And)}
  }

  /** Each clause is the sequence of leaves that one way through the ||s
      requires to be true together. */
  ghost function Clauses(e: Expr): set<seq<Expr>>
    decreases e, 1
  {
    if e.kind == Call(Or) then ClausesOfAny(e.kids)
    else if e.kind == Call(And) then ClausesOfAll(e.kids)
    else {[e]}
  }

  ghost function ClausesOfAny(es: seq<Expr>): set<seq<Expr>>
    decreases es, 0
  {
    if es == [] then {} else Clauses(es[0]) + ClausesOfAny(es[1..])
  }

  ghost function ClausesOfAll(es: seq<Expr>): set<seq<Expr>>
    decreases es, 0
  {
    if es == [] then {[]}
    else set c, d | c in Clauses(es[0]) && d in ClausesOfAll(es[1..]) :: c + d
  }

  ghost predicate HasAccepted(c: seq<Expr>, bound: Bound) {
    exists i :: 0 <= i < |c| && AcceptedComparison(c[i], bound)
  }

  ghost predicate EveryClause(cs: set<seq<Expr>>, bound: Bound) {
    forall c :: c in cs ==> HasAccepted(c, bound)
  }

  /** A condition constrains exactly when every clause contains an accepted
      comparison. */
  lemma {:induction false} ConstrainsIsEveryBranch(e: Expr, bound: Bound)
    ensures Constrains(e, bound) <==> EveryClause(Clauses(e), bound)
    decreases e, 1
  {
    if e.kind == Call(Or) {
      AnyConstrains(e.kids, bound);
    } else if e.kind == Call(And) {
      AllConstrains(e.kids, bound);
    } else {
      assert [e] in Clauses(e) && [e][0] == e;
    }
  }

  lemma {:induction false} AnyConstrains(es: seq<Expr>, bound: Bound)
    ensures (forall i :: 0 <= i < |es| ==> Constrains(es[i], bound)) <==> EveryClause(ClausesOfAny(es), bound)
    decreases es, 0
  {
    if es != [] {
      ConstrainsIsEveryBranch(es[0], bound);
      AnyConstrains(es[1..], bound);
      assert EveryClause(ClausesOfAny(es), bound) <==>
             EveryClause(Clauses(es[0]), bound) && EveryClause(ClausesOfAny(es[1..]), bound);
      assert forall i :: 1 <= i < |es| ==> es[i] == es[1..][i - 1];
    }
  }

  lemma {:induction false} AllConstrains(es: seq<Expr>, bound: Bound)
    ensures (exists i :: 0 <= i < |es| && Constrains(es[i], bound)) <==> EveryClause(ClausesOfAll(es), bound)
    decreases es, 0
  {
    if es == [] {
      assert [] in ClausesOfAll(es);
    } else {
      ConstrainsIsEveryBranch(es[0], bound);
      AllConstrains(es[1..], bound);
      ProductClause(es, bound);
      assert forall i :: 1 <= i < |es| ==> es[i] == es[1..][i - 1];
      assert forall i :: 0 <= i < |es| - 1 ==> es[1..][i] == es[i + 1];
    }
  }

  /** A product of clauses has an accepted comparison everywhere iff one of the
      factors does. */
  lemma ProductClause(es: seq<Expr>, bound: Bound)
    requires es != []
    ensures EveryClause(ClausesOfAll(es), bound) <==>
            EveryClause(Clauses(es[0]), bound) || EveryClause(ClausesOfAll(es[1..]), bound)
  {
    var cs, ds := Clauses(es[0]), ClausesOfAll(es[1..]);
    if !EveryClause(cs, bound) && !EveryClause(ds, bound) {
      var c :| c in cs && !HasAccepted(c, bound);
      var d :| d in ds && !HasAccepted(d, bound);
      assert c + d in ClausesOfAll(es);
      assert !HasAccepted(c + d, bound);
    } else {
      forall p | p in ClausesOfAll(es) ensures HasAccepted(p, bound) {
        var c, d :| c in cs && d in ds && p == c + d;
        if HasAccepted(c, bound) {
          var i :| 0 <= i < |c| && AcceptedComparison(c[i], bound);
          assert p[i] == c[i];
        } else {
          var i :| 0 <= i < |d| && AcceptedComparison(d[i], bound);
          assert p[|c| + i] == d[i];
        }
      }
    }
  }

  // ----- evaluation -----

  ghost predicate AllTrue(h: Host, g: Root, loc: Locals, c: seq<Expr>) {
    forall i :: 0 <= i < |c| ==> Eval(h, g, loc, c[i]) == TRUE
  }

  ghost predicate SomeClauseTrue(h: Host, g: Root, loc: Locals, cs: set<seq<Expr>>) {
    exists c :: c in cs && AllTrue(h, g, loc, c)
  }

  lemma JunctionTrue(h: Host, g: Root, loc: Locals, e: Expr)
    requires IsJunction(e)
    ensures e.kind == Call(Or) ==>
      (Eval(h, g, loc, e) == TRUE <==> exists i :: 0 <= i < |e.kids| && Eval(h, g, loc, e.kids[i]) == TRUE)
    ensures e.kind == Call(And) ==>
      (Eval(h, g, loc, e) == TRUE <==> forall i :: 0 <= i < |e.kids| ==> Eval(h, g, loc, e.kids[i]) == TRUE)
  {
    var rs := EvalAll(h, g, loc, e.kids);
    if e.kind == Call(Or) {
      assert Eval(h, g, loc, e) == TRUE <==> TRUE in rs;
    } else {
      if forall i :: 0 <= i < |e.kids| ==> Eval(h, g, loc, e.kids[i]) == TRUE {
        assert forall r :: r in rs ==> r == TRUE;
      }
      if Eval(h, g, loc, e) == TRUE {
        forall i | 0 <= i < |e.kids| ensures Eval(h, g, loc, e.kids[i]) == TRUE {
          assert rs[i] in rs;
        }
      }
    }
  }

  /** A condition is true exactly when some clause has all its leaves true,
      however errors are spread over the other clauses. */
  lemma {:induction false} TrueIsSomeBranch(h: Host, g: Root, loc: Locals, e: Expr)
    ensures Eval(h, g, loc, e) == TRUE <==> SomeClauseTrue(h, g, loc, Clauses(e))
    decreases e, 1
  {
    if IsJunction(e) {
      JunctionTrue(h, g, loc, e);
      if e.kind == Call(Or) {
        AnyTrue(h, g, loc, e.kids);
      } else {
        AllTrueTogether(h, g, loc, e.kids);
      }
    } else {
      assert [e] in Clauses(e) && [e][0] == e;
    }
  }

  lemma {:induction false} AnyTrue(h: Host, g: Root, loc: Locals, es: seq<Expr>)
    ensures (exists i :: 0 <= i < |es| && Eval(h, g, loc, es[i]) == TRUE) <==>
            SomeClauseTrue(h, g, loc, ClausesOfAny(es))
    decreases es, 0
  {
    if es != [] {
      TrueIsSomeBranch(h, g, loc, es[0]);
      AnyTrue(h, g, loc, es[1..]);
      assert forall i :: 1 <= i < |es| ==> es[i] == es[1..][i - 1];
      assert forall i :: 0 <= i < |es| - 1 ==> es[1..][i] == es[i + 1];
    }
  }

  lemma {:induction false} AllTrueTogether(h: Host, g: Root, loc: Locals, es: seq<Expr>)
    ensures (forall i :: 0 <= i < |es| ==> Eval(h, g, loc, es[i]) == TRUE) <==>
            SomeClauseTrue(h, g, loc, ClausesOfAll(es))
    decreases es, 0
  {
    if es == [] {
      assert [] in ClausesOfAll(es) && AllTrue(h, g, loc, []);
    } else {
      TrueIsSomeBranch(h, g, loc, es[0]);
      AllTrueTogether(h, g, loc, es[1..]);
      ProductTrue(h, g, loc, es);
      assert forall i :: 1 <= i < |es| ==> es[i] == es[1..][i - 1];
      assert forall i :: 0 <= i < |es| - 1 ==> es[1..][i] == es[i + 1];
    }
  }

  lemma ProductTrue(h: Host, g: Root, loc: Locals, es: seq<Expr>)
    requires es != []
    ensures SomeClauseTrue(h, g, loc, ClausesOfAll(es)) <==>
            SomeClauseTrue(h, g, loc, Clauses(es[0])) && SomeClauseTrue(h, g, loc, ClausesOfAll(es[1..]))
  {
    var cs, ds := Clauses(es[0]), ClausesOfAll(es[1..]);
    if SomeClauseTrue(h, g, loc, cs) && SomeClauseTrue(h, g, loc, ds) {
      var c :| c in cs && AllTrue(h, g, loc, c);
      var d :| d in ds && AllTrue(h, g, loc, d);
      assert c + d in ClausesOfAll(es);
      assert AllTrue(h, g, loc, c + d);
    }
    if SomeClauseTrue(h, g, loc, ClausesOfAll(es)) {
      var p :| p in ClausesOfAll(es) && AllTrue(h, g, loc, p);
      var c, d :| c in cs && d in ds && p == c + d;
      forall i | 0 <= i < |c| ensures Eval(h, g, loc, c[i]) == TRUE { assert p[i] == c[i]; }
      forall i | 0 <= i < |d| ensures Eval(h, g, loc, d[i]) == TRUE { assert p[|c| + i] == d[i]; }
      assert AllTrue(h, g, loc, c) && AllTrue(h, g, loc, d);
    }
  }

  // ----- what a leaf inherits -----

  /** `leaf` is reached from `e` through && and || alone. */
  predicate IsLeafOf(e: Expr, leaf: Expr) {
    if IsJunction(e) then exists i :: 0 <= i < |e.kids| && IsLeafOf(e.kids[i], leaf) else leaf == e
  }

  lemma {:induction false} ClauseLeaves(e: Expr, c: seq<Expr>, k: nat)
    requires c in Clauses(e) && k < |c|
    ensures IsLeafOf(e, c[k])
    decreases e, 1
  {
    if IsJunction(e) {
      var i: nat;
      if e.kind == Call(Or) {
        i := AnyLeaf(e.kids, c, k);
      } else {
        i := AllLeaf(e.kids, c, k);
      }
      assert IsLeafOf(e.kids[i], c[k]);
    }
  }

  lemma {:induction false} AnyLeaf(es: seq<Expr>, c: seq<Expr>, k: nat) returns (i: nat)
    requires c in ClausesOfAny(es) && k < |c|
    ensures i < |es| && IsLeafOf(es[i], c[k])
    decreases es, 0
  {
    if c in Clauses(es[0]) {
      ClauseLeaves(es[0], c, k);
      i := 0;
    } else {
      var j := AnyLeaf(es[1..], c, k);
      i := j + 1;
    }
  }

  lemma {:induction false} AllLeaf(es: seq<Expr>, c: seq<Expr>, k: nat) returns (i: nat)
    requires c in ClausesOfAll(es) && k < |c|
    ensures i < |es| && IsLeafOf(es[i], c[k])
    decreases es, 0
  {
    var a, b :| a in Clauses(es[0]) && b in ClausesOfAll(es[1..]) && c == a + b;
    if k < |a| {
      ClauseLeaves(es[0], a, k);
      i := 0;
    } else {
      var j := AllLeaf(es[1..], b, k - |a|);
      i := j + 1;
    }
  }

  /** A true condition that constrains owes its truth to an accepted
      comparison that is itself true. */
  lemma TrueComparison(h: Host, g: Root, loc: Locals, e: Expr, bound: Bound) returns (leaf: Expr)
    requires Constrains(e, bound) && Eval(h, g, loc, e) == TRUE
    ensures IsLeafOf(e, leaf) && AcceptedComparison(leaf, bound) && Eval(h, g, loc, leaf) == TRUE
  {
    ConstrainsIsEveryBranch(e, bound);
    TrueIsSomeBranch(h, g, loc, e);
    var c :| c in Clauses(e) && AllTrue(h, g, loc, c);
    var k :| 0 <= k < |c| && AcceptedComparison(c[k], bound);
    ClauseLeaves(e, c, k);
    leaf := c[k];
  }

  lemma {:induction false} LeafInherits(e: Expr, leaf: Expr)
    requires WellFormed(e) && IsLeafOf(e, leaf)
    ensures WellFormed(leaf)
    ensures RequestOk(e) ==> RequestOk(leaf)
  {
    if IsJunction(e) {
      var i :| 0 <= i < |e.kids| && IsLeafOf(e.kids[i], leaf);
      LeafInherits(e.kids[i], leaf);
    }
  }
}
