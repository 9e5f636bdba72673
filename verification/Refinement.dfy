/**
 How the value of a condition depends on the two policy variables: one
 induction over the tree, in which a result may only be refined, that is, an
 error may become a value but a value never changes.
 */
module Refinement {
  import opened Cel
  import opened Condition
  import opened Discipline

  ghost predicate Refines(a: Res, b: Res) {
    a == Err || a == b
  }

  ghost predicate AllRefine(rs: seq<Res>, ts: seq<Res>) {
    |rs| == |ts| && forall i :: 0 <= i < |rs| ==> Refines(rs[i], ts[i])
  }

  ghost predicate LocalsRefine(a: Locals, b: Locals) {
    a.Keys == b.Keys && forall x :: x in a ==> Refines(a[x], b[x])
  }

  // ----- operators -----

  /** Error absorption is monotone: resolving an error never changes a result
      that `||` or `&&` has already decided. */
  lemma LogicRefines(rs: seq<Res>, ts: seq<Res>)
    requires AllRefine(rs, ts)
    ensures Refines(OrRes(rs), OrRes(ts)) && Refines(AndRes(rs), AndRes(ts))
  {
    forall r | r in rs ensures r == Err || r in ts {
      var i :| 0 <= i < |rs| && rs[i] == r;
      assert Refines(rs[i], ts[i]);
    }
    forall t | t in ts ensures t in rs || Err in rs {
      var i :| 0 <= i < |ts| && ts[i] == t;
      assert Refines(rs[i], ts[i]);
    }
  }

  lemma ApplyRefines(h: Host, kind: Kind, rs: seq<Res>, ts: seq<Res>)
    requires AllRefine(rs, ts) && kind != Call(NotStrictlyFalse)
    ensures Refines(Apply(h, kind, rs), Apply(h, kind, ts))
  {
    LogicRefines(rs, ts);
    if kind == Call(Cond) && |rs| == 3 {
      assert Refines(rs[0], ts[0]) && Refines(rs[1], ts[1]) && Refines(rs[2], ts[2]);
    } else if Err !in rs {
      forall i | 0 <= i < |rs| ensures rs[i] == ts[i] {
        assert rs[i] in rs;
        assert Refines(rs[i], ts[i]);
      }
      assert rs == ts;
    }
  }

  // ----- comprehensions -----

  /** The loop of the comprehension `e` without its loop condition. */
  function FullFold(h: Host, g: Root, loc: Locals, e: Expr, items: seq<Value>, acc: Res): Res
    requires e.kind.Comprehension? && |e.kids| == 5
  {
    if items == [] then acc
    else FullFold(h, g, loc, e, items[1..], Eval(h, g, Round(loc, e, items[0], acc), e.kids[3]))
  }

  lemma AccuValue(h: Host, g: Root, loc: Locals, e: Expr)
    requires IsAccu(e) && ACCU in loc
    ensures Eval(h, g, loc, e) == loc[ACCU]
  {
    assert ACCU[0] == '@';
  }

  lemma AbsorbingStep(h: Host, g: Root, loc: Locals, e: Expr)
    requires ACCU in loc
    ensures AccumulatesWith(e, Or) && loc[ACCU] == TRUE ==> Eval(h, g, loc, e) == TRUE
    ensures AccumulatesWith(e, And) && loc[ACCU] == FALSE ==> Eval(h, g, loc, e) == FALSE
  {
    if AccumulatesWith(e, Or) || AccumulatesWith(e, And) {
      AccuValue(h, g, loc, e.kids[0]);
      assert EvalAll(h, g, loc, e.kids)[0] in EvalAll(h, g, loc, e.kids);
    }
  }

  /** A loop condition that is false means an accumulator that no later round
      can change. */
  lemma StopMeansAbsorbed(h: Host, g: Root, loc: Locals, e: Expr)
    requires IsMacroLoop(e) && ACCU in loc
    requires Eval(h, g, loc, e.kids[2]) == FALSE
    ensures || (AccumulatesWith(e.kids[3], Or) && loc[ACCU] == TRUE)
            || (AccumulatesWith(e.kids[3], And) && loc[ACCU] == FALSE)
  {
    var cond := e.kids[2];
    if WhileTrue(cond) {
      AccuValue(h, g, loc, cond.kids[0]);
    } else if WhileFalse(cond) {
      AccuValue(h, g, loc, cond.kids[0].kids[0]);
      var r := EvalAll(h, g, loc, cond.kids[0].kids);
      assert r == [loc[ACCU]];
      assert Eval(h, g, loc, cond.kids[0]) == FALSE;
      assert r[0] in r;
    }
  }

  lemma {:induction false} AbsorbedStays(h: Host, g: Root, loc: Locals, e: Expr, items: seq<Value>, acc: Res)
    requires IsMacroLoop(e)
    requires (AccumulatesWith(e.kids[3], Or) && acc == TRUE) || (AccumulatesWith(e.kids[3], And) && acc == FALSE)
    ensures FullFold(h, g, loc, e, items, acc) == acc
  {
    if items != [] {
      AbsorbingStep(h, g, Round(loc, e, items[0], acc), e.kids[3]);
      AbsorbedStays(h, g, loc, e, items[1..], acc);
    }
  }

  /** Stopping early is invisible: the macro loops compute what they would
      compute if they always ran over every element. */
  lemma {:induction false} EarlyExitIsInvisible(h: Host, g: Root, loc: Locals, e: Expr, items: seq<Value>, acc: Res)
    requires IsMacroLoop(e)
    ensures Fold(h, g, loc, e, items, acc) == FullFold(h, g, loc, e, items, acc)
    decreases |items|
  {
    if items != [] {
      var scope := Round(loc, e, items[0], acc);
      if Eval(h, g, scope, e.kids[2]) == FALSE {
        StopMeansAbsorbed(h, g, scope, e);
        AbsorbedStays(h, g, loc, e, items, acc);
      } else {
        EarlyExitIsInvisible(h, g, loc, e, items[1..], Eval(h, g, scope, e.kids[3]));
      }
    }
  }

  // ----- reads of the policy variables -----

  predicate Mentions(e: Expr, s: string) {
    e == Expr(Literal(StrV(s)), e.kids) || exists i :: 0 <= i < |e.kids| && Mentions(e.kids[i], s)
  }

  /** Wherever `e` reads a policy variable, going from `a` to `b` either keeps
      what is read or, for a claim, adds it; a comparison of the resource with
      literals may also miss all of them on both sides. */
  ghost predicate Agree(a: Root, b: Root, e: Expr) {
    if CallerClaim(e).Some? then
      var c := CallerClaim(e).value;
      c in a.caller ==> c in b.caller && b.caller[c] == a.caller[c]
    else if LiteralComparison(e) then
      a.resource == b.resource || (!Mentions(e, a.resource) && !Mentions(e, b.resource))
    else
      && (IsIdent(e, VAR_CALLER) ==> a.caller == b.caller)
      && (IsIdent(e, VAR_REQUEST) ==> a.resource == b.resource)
      && forall i :: 0 <= i < |e.kids| ==> Agree(a, b, e.kids[i])
  }

  predicate IsLocal(loc: Locals, e: Expr) {
    e.kind.Ident? && !Dotted(e.kind.name) && e.kind.name in loc
  }

  lemma CallerEntry(caller: map<string, string>, c: string)
    ensures EntryAt(CallerValue(caller).entries, StrV(c)) == if c in caller then Ok(StrV(caller[c])) else Err
  {
    assert StrV(c) in CallerValue(caller).entries <==> c in caller;
  }

  /** A read of a claim is the claim's value, and an error when it is absent. */
  lemma ClaimValue(h: Host, g: Root, loc: Locals, e: Expr)
    requires CallerClaim(e).Some? && !IsLocal(loc, e.kids[0])
    ensures var c := CallerClaim(e).value;
            Eval(h, g, loc, e) == if c in g.caller then Ok(StrV(g.caller[c])) else Err
  {
    var v := CallerValue(g.caller);
    CallerEntry(g.caller, CallerClaim(e).value);
    var rs := EvalAll(h, g, loc, e.kids);
    assert rs[0] == Ok(v);
    if e.kind.Select? {
      assert rs == [Ok(v)];
      assert Values(rs) == [v];
    } else {
      assert rs == [Ok(v), Ok(StrV(CallerClaim(e).value))];
      assert Values(rs) == [v, StrV(CallerClaim(e).value)];
    }
  }

  lemma ResourceValue(h: Host, g: Root, loc: Locals, e: Expr)
    requires IsResourceRef(e) && !IsLocal(loc, e.kids[0])
    ensures Eval(h, g, loc, e) == Ok(if e.kind.field == "resource" then StrV(g.resource) else ListV([StrV(g.resource)]))
  {
    var rs := EvalAll(h, g, loc, e.kids);
    assert VAR_CALLER != VAR_REQUEST by { assert |VAR_CALLER| != |VAR_REQUEST|; }
    assert rs == [Ok(RequestV(g.resource))];
    assert Err !in rs;
    assert Values(rs) == [RequestV(g.resource)];
    assert "resource" != "resources" by { assert |"resource"| != |"resources"|; }
  }

  lemma LiteralValue(h: Host, g: Root, loc: Locals, e: Expr)
    requires IsStringLiteral(e)
    ensures Eval(h, g, loc, e) == Ok(StrV(StringLiteral(e).value))
  {
  }

  function LiteralsOf(es: seq<Expr>): (vs: seq<Value>)
    requires forall i :: 0 <= i < |es| ==> IsStringLiteral(es[i])
    ensures |vs| == |es|
    ensures forall i :: 0 <= i < |es| ==> IsStringLiteral(es[i]) && vs[i] == StrV(StringLiteral(es[i]).value)
  {
    if es == [] then [] else assert IsStringLiteral(es[0]); [StrV(StringLiteral(es[0]).value)] + LiteralsOf(es[1..])
  }

  lemma LiteralListValue(h: Host, g: Root, loc: Locals, e: Expr)
    requires StringLiteralList(e)
    ensures Eval(h, g, loc, e) == Ok(ListV(LiteralsOf(e.kids)))
  {
    var rs := EvalAll(h, g, loc, e.kids);
    assert Err !in rs;
    assert Values(rs) == LiteralsOf(e.kids);
  }

  lemma OperandsDecide(h: Host, g: Root, loc: Locals, e: Expr, x: Value, y: Value)
    requires |e.kids| == 2 && e.kind in {Call(Eq), Call(In)}
    requires Eval(h, g, loc, e.kids[0]) == Ok(x) && Eval(h, g, loc, e.kids[1]) == Ok(y)
    ensures Eval(h, g, loc, e) == if e.kind == Call(Eq) then Bool(x == y) else InValue(x, y)
  {
    var rs := EvalAll(h, g, loc, e.kids);
    assert rs == [Ok(x), Ok(y)];
    assert Err !in rs;
    assert Values(rs) == [x, y];
  }

  /** The operand of a literal comparison that reads the resource. */
  function RefOperand(e: Expr): Expr
    requires LiteralComparison(e)
  {
    if IsResourceRef(e.kids[0]) then e.kids[0] else e.kids[1]
  }

  lemma LiteralComparisonMisses(h: Host, g: Root, loc: Locals, e: Expr)
    requires LiteralComparison(e) && !IsLocal(loc, RefOperand(e).kids[0]) && !Mentions(e, g.resource)
    ensures Eval(h, g, loc, e) == FALSE
  {
    var r := RefOperand(e);
    ResourceValue(h, g, loc, r);
    var v := Eval(h, g, loc, r).v;
    assert !Mentions(e.kids[0], g.resource) && !Mentions(e.kids[1], g.resource);
    if e.kind == Call(In) {
      LiteralListValue(h, g, loc, e.kids[1]);
      var lits := LiteralsOf(e.kids[1].kids);
      assert v !in lits by {
        if v in lits {
          var i :| 0 <= i < |lits| && lits[i] == v;
          assert Mentions(e.kids[1].kids[i], g.resource);
        }
      }
      OperandsDecide(h, g, loc, e, v, ListV(lits));
    } else if r == e.kids[0] {
      LiteralValue(h, g, loc, e.kids[1]);
      OperandsDecide(h, g, loc, e, v, StrV(StringLiteral(e.kids[1]).value));
    } else {
      LiteralValue(h, g, loc, e.kids[0]);
      OperandsDecide(h, g, loc, e, StrV(StringLiteral(e.kids[0]).value), v);
    }
  }

  lemma RefRefines(h: Host, a: Root, b: Root, la: Locals, lb: Locals, e: Expr)
    requires IsResourceRef(e) && LocalsRefine(la, lb)
    requires IsLocal(la, e.kids[0]) || a.resource == b.resource
    ensures Refines(Eval(h, a, la, e), Eval(h, b, lb, e))
  {
    if IsLocal(la, e.kids[0]) {
      ApplyRefines(h, e.kind, EvalAll(h, a, la, e.kids), EvalAll(h, b, lb, e.kids));
    } else {
      ResourceValue(h, a, la, e);
      ResourceValue(h, b, lb, e);
    }
  }

  lemma OtherOperandRefines(h: Host, a: Root, b: Root, la: Locals, lb: Locals, e: Expr)
    requires IsStringLiteral(e) || StringLiteralList(e)
    ensures Eval(h, a, la, e) == Eval(h, b, lb, e)
  {
    if StringLiteralList(e) {
      LiteralListValue(h, a, la, e);
      LiteralListValue(h, b, lb, e);
    }
  }

  lemma BinaryRefines(h: Host, a: Root, b: Root, la: Locals, lb: Locals, e: Expr)
    requires |e.kids| == 2 && e.kind in {Call(Eq), Call(In)}
    requires Refines(Eval(h, a, la, e.kids[0]), Eval(h, b, lb, e.kids[0]))
    requires Refines(Eval(h, a, la, e.kids[1]), Eval(h, b, lb, e.kids[1]))
    ensures Refines(Eval(h, a, la, e), Eval(h, b, lb, e))
  {
    ApplyRefines(h, e.kind, EvalAll(h, a, la, e.kids), EvalAll(h, b, lb, e.kids));
  }

  lemma LiteralComparisonRefines(h: Host, a: Root, b: Root, la: Locals, lb: Locals, e: Expr)
    requires LiteralComparison(e) && Agree(a, b, e) && LocalsRefine(la, lb)
    ensures Refines(Eval(h, a, la, e), Eval(h, b, lb, e))
  {
    var r := RefOperand(e);
    assert CallerClaim(e).None?;
    if IsLocal(la, r.kids[0]) || a.resource == b.resource {
      RefRefines(h, a, b, la, lb, r);
      OtherOperandRefines(h, a, b, la, lb, if r == e.kids[0] then e.kids[1] else e.kids[0]);
      BinaryRefines(h, a, b, la, lb, e);
    } else {
      LiteralComparisonMisses(h, a, la, e);
      LiteralComparisonMisses(h, b, lb, e);
    }
  }

  // ----- the induction -----

  /** If two requests agree on everything that `e` reads, then `e` evaluates to
      the same result, except that errors may resolve. */
  lemma {:induction false} EvalRefines(h: Host, a: Root, b: Root, la: Locals, lb: Locals, e: Expr)
    requires WellFormed(e) && Agree(a, b, e) && LocalsRefine(la, lb)
    ensures Refines(Eval(h, a, la, e), Eval(h, b, lb, e))
    decreases e, 3, 0
  {
    if CallerClaim(e).Some? {
      if IsLocal(la, e.kids[0]) {
        ApplyRefines(h, e.kind, EvalAll(h, a, la, e.kids), EvalAll(h, b, lb, e.kids));
      } else {
        ClaimValue(h, a, la, e);
        ClaimValue(h, b, lb, e);
      }
    } else if LiteralComparison(e) {
      LiteralComparisonRefines(h, a, b, la, lb, e);
    } else if e.kind.Comprehension? {
      ComprehensionRefines(h, a, b, la, lb, e);
    } else if e.kind.Ident? || e.kind.Literal? {
    } else {
      forall i | 0 <= i < |e.kids| ensures Refines(Eval(h, a, la, e.kids[i]), Eval(h, b, lb, e.kids[i])) {
        EvalRefines(h, a, b, la, lb, e.kids[i]);
      }
      ApplyRefines(h, e.kind, EvalAll(h, a, la, e.kids), EvalAll(h, b, lb, e.kids));
    }
  }

  lemma {:induction false} ComprehensionRefines(h: Host, a: Root, b: Root, la: Locals, lb: Locals, e: Expr)
    requires WellFormed(e) && Agree(a, b, e) && LocalsRefine(la, lb) && e.kind.Comprehension?
    ensures Refines(Eval(h, a, la, e), Eval(h, b, lb, e))
    decreases e, 2, 0
  {
    EvalRefines(h, a, b, la, lb, e.kids[0]);
    var range := Eval(h, a, la, e.kids[0]);
    if range != Err && Iterands(h, range.v) != NotIterable {
      var fa, fb := FoldRefines(h, a, b, la, lb, e, Iterands(h, range.v).vs);
      EvalRefines(h, a, b, la[ACCU := fa], lb[ACCU := fb], e.kids[4]);
    }
  }

  lemma {:induction false} FoldRefines(h: Host, a: Root, b: Root, la: Locals, lb: Locals, e: Expr, items: seq<Value>)
    returns (fa: Res, fb: Res)
    requires WellFormed(e) && Agree(a, b, e) && LocalsRefine(la, lb) && e.kind.Comprehension?
    ensures fa == Fold(h, a, la, e, items, Eval(h, a, la, e.kids[1]))
    ensures fb == Fold(h, b, lb, e, items, Eval(h, b, lb, e.kids[1]))
    ensures Refines(fa, fb)
    decreases e, 1, 0
  {
    EvalRefines(h, a, b, la, lb, e.kids[1]);
    var ia, ib := Eval(h, a, la, e.kids[1]), Eval(h, b, lb, e.kids[1]);
    EarlyExitIsInvisible(h, a, la, e, items, ia);
    EarlyExitIsInvisible(h, b, lb, e, items, ib);
    LoopRefines(h, a, b, la, lb, e, items, ia, ib);
    fa, fb := Fold(h, a, la, e, items, ia), Fold(h, b, lb, e, items, ib);
  }

  lemma {:induction false} LoopRefines(h: Host, a: Root, b: Root, la: Locals, lb: Locals, e: Expr,
                                       items: seq<Value>, ia: Res, ib: Res)
    requires WellFormed(e) && Agree(a, b, e) && LocalsRefine(la, lb) && e.kind.Comprehension?
    requires Refines(ia, ib)
    ensures Refines(FullFold(h, a, la, e, items, ia), FullFold(h, b, lb, e, items, ib))
    decreases e, 0, |items|
  {
    if items != [] {
      var sa, sb := Round(la, e, items[0], ia), Round(lb, e, items[0], ib);
      EvalRefines(h, a, b, sa, sb, e.kids[3]);
      LoopRefines(h, a, b, la, lb, e, items[1..], Eval(h, a, sa, e.kids[3]), Eval(h, b, sb, e.kids[3]));
    }
  }
}
