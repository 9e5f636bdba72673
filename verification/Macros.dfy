/**
 What the expanded `exists` and `all` mean: the error-absorbing || and && of
 their predicate over the elements, which is how CEL defines them.
 */
module Macros {
  import opened Cel
  import opened Discipline
  import opened Refinement

  // ----- scopes -----

  /** `name` occurs in `e` outside every comprehension that binds it. */
  predicate Free(e: Expr, name: string) {
    match e.kind
    case Ident(n) => n == name && !Dotted(n)
    case Comprehension(x, _, a) =>
      |e.kids| == 5 &&
      (|| Free(e.kids[0], name) || Free(e.kids[1], name)
       || (name != x && name != a && (Free(e.kids[2], name) || Free(e.kids[3], name)))
       || (name != a && Free(e.kids[4], name)))
    case _ => exists i :: 0 <= i < |e.kids| && Free(e.kids[i], name)
  }

  ghost predicate AgreeExcept(la: Locals, lb: Locals, name: string) {
    forall k :: k != name ==> (k in la <==> k in lb) && (k in la ==> la[k] == lb[k])
  }

  lemma Rebound(la: Locals, lb: Locals, name: string, r: Res)
    requires AgreeExcept(la, lb, name)
    ensures la[name := r] == lb[name := r]
  {
    assert la[name := r].Keys == lb[name := r].Keys;
  }

  /** A variable that is not free in an expression does not influence it. */
  lemma {:induction false} UnusedLocalIsIrrelevant(h: Host, g: Root, la: Locals, lb: Locals, e: Expr, name: string)
    requires AgreeExcept(la, lb, name) && !Free(e, name)
    ensures Eval(h, g, la, e) == Eval(h, g, lb, e)
    decreases e, 2, 0
  {
    match e.kind
    case Ident(_) =>
    case Literal(_) =>
    case Comprehension(_, _, a) =>
      if |e.kids| == 5 {
        UnusedLocalIsIrrelevant(h, g, la, lb, e.kids[0], name);
        UnusedLocalIsIrrelevant(h, g, la, lb, e.kids[1], name);
        var range := Eval(h, g, la, e.kids[0]);
        if range != Err && Iterands(h, range.v) != NotIterable {
          var items, init := Iterands(h, range.v).vs, Eval(h, g, la, e.kids[1]);
          UnusedInLoop(h, g, la, lb, e, items, init, name);
          var acc := Fold(h, g, la, e, items, init);
          if name == a {
            Rebound(la, lb, name, acc);
          } else {
            UnusedLocalIsIrrelevant(h, g, la[a := acc], lb[a := acc], e.kids[4], name);
          }
        }
      }
    case _ =>
      forall i | 0 <= i < |e.kids| ensures Eval(h, g, la, e.kids[i]) == Eval(h, g, lb, e.kids[i]) {
        UnusedLocalIsIrrelevant(h, g, la, lb, e.kids[i], name);
      }
      assert EvalAll(h, g, la, e.kids) == EvalAll(h, g, lb, e.kids);
  }

  lemma {:induction false} UnusedInLoop(h: Host, g: Root, la: Locals, lb: Locals, e: Expr, items: seq<Value>, acc: Res,
                                        name: string)
    requires AgreeExcept(la, lb, name) && !Free(e, name) && e.kind.Comprehension? && |e.kids| == 5
    ensures Fold(h, g, la, e, items, acc) == Fold(h, g, lb, e, items, acc)
    decreases e, 1, |items|
  {
    if items != [] {
      var sa, sb := Round(la, e, items[0], acc), Round(lb, e, items[0], acc);
      if name == e.kind.iterVar || name == e.kind.accuVar {
        RoundsMeet(la, lb, e, items[0], acc, name);
      } else {
        UnusedLocalIsIrrelevant(h, g, sa, sb, e.kids[2], name);
        UnusedLocalIsIrrelevant(h, g, sa, sb, e.kids[3], name);
      }
      UnusedInLoop(h, g, la, lb, e, items[1..], Eval(h, g, sa, e.kids[3]), name);
    }
  }

  lemma RoundsMeet(la: Locals, lb: Locals, e: Expr, item: Value, acc: Res, name: string)
    requires AgreeExcept(la, lb, name) && e.kind.Comprehension? && name in {e.kind.iterVar, e.kind.accuVar}
    ensures Round(la, e, item, acc) == Round(lb, e, item, acc)
  {
    assert Round(la, e, item, acc).Keys == Round(lb, e, item, acc).Keys;
  }

  // ----- exists and all -----

  /** The predicate's results, element by element. */
  function Results(h: Host, g: Root, loc: Locals, x: string, p: Expr, items: seq<Value>): (rs: seq<Res>)
    ensures |rs| == |items|
  {
    if items == [] then []
    else Results(h, g, loc, x, p, items[..|items| - 1]) + [Eval(h, g, loc[x := Ok(items[|items| - 1])], p)]
  }

  lemma OrAppend(rs: seq<Res>, r: Res)
    ensures OrRes([OrRes(rs), r]) == OrRes(rs + [r])
  {
    var both := [OrRes(rs), r];
    assert both[0] in both && both[1] in both;
    assert forall t :: t in both <==> t == OrRes(rs) || t == r;
    assert r in rs + [r] && forall t :: t in rs + [r] <==> t in rs || t == r;
  }

  lemma AndAppend(rs: seq<Res>, r: Res)
    ensures AndRes([AndRes(rs), r]) == AndRes(rs + [r])
  {
    var both := [AndRes(rs), r];
    assert both[0] in both && both[1] in both;
    assert forall t :: t in both <==> t == AndRes(rs) || t == r;
    assert r in rs + [r] && forall t :: t in rs + [r] <==> t in rs || t == r;
  }

  /** One round of `exists` or `all` combines accumulator and predicate. */
  lemma RoundValue(h: Host, g: Root, loc: Locals, e: Expr, fn: Fn, x: string, p: Expr, item: Value, acc: Res)
    requires fn == Or || fn == And
    requires e.kind.Comprehension? && e.kind.iterVar == x && e.kind.accuVar == ACCU && x != ACCU && |e.kids| == 5
    requires e.kids[3] == App(fn, [Accu(), p]) && !Free(p, ACCU)
    ensures var v := Eval(h, g, loc[x := Ok(item)], p);
            Eval(h, g, Round(loc, e, item, acc), e.kids[3]) == if fn == Or then OrRes([acc, v]) else AndRes([acc, v])
  {
    var scope := Round(loc, e, item, acc);
    AccuValue(h, g, scope, Accu());
    UnusedLocalIsIrrelevant(h, g, scope, loc[x := Ok(item)], p, ACCU);
    assert EvalAll(h, g, scope, e.kids[3].kids) == [acc, Eval(h, g, loc[x := Ok(item)], p)];
  }

  lemma {:induction false} LoopCombines(h: Host, g: Root, loc: Locals, e: Expr, fn: Fn, x: string, p: Expr,
                                        items: seq<Value>, done: nat)
    requires fn == Or || fn == And
    requires e.kind.Comprehension? && e.kind.iterVar == x && e.kind.accuVar == ACCU && x != ACCU && |e.kids| == 5
    requires e.kids[3] == App(fn, [Accu(), p]) && !Free(p, ACCU) && done <= |items|
    ensures FullFold(h, g, loc, e, items[done..], Combined(fn, Results(h, g, loc, x, p, items[..done]))) ==
            Combined(fn, Results(h, g, loc, x, p, items))
    decreases |items| - done
  {
    if done == |items| {
      assert items[..done] == items;
    } else {
      var rs := Results(h, g, loc, x, p, items[..done]);
      var v := Eval(h, g, loc[x := Ok(items[done])], p);
      RoundValue(h, g, loc, e, fn, x, p, items[done], Combined(fn, rs));
      OrAppend(rs, v);
      AndAppend(rs, v);
      assert items[..done + 1][..done] == items[..done];
      assert items[done..][1..] == items[done + 1..];
      LoopCombines(h, g, loc, e, fn, x, p, items, done + 1);
    }
  }

  function Combined(fn: Fn, rs: seq<Res>): Res {
    if fn == Or then OrRes(rs) else AndRes(rs)
  }

  /** What a comprehension over `v` visits: the elements of a list, or the keys
      of a map in the host's order. */
  predicate Visits(h: Host, v: Value, items: seq<Value>) {
    v == ListV(items) || (v.MapV? && items == h.order(v.entries))
  }

  lemma ExistsIsDisjunction(h: Host, g: Root, loc: Locals, range: Expr, x: string, p: Expr, items: seq<Value>)
    requires Eval(h, g, loc, range).Ok? && Visits(h, Eval(h, g, loc, range).v, items)
    requires x != ACCU && !Free(p, ACCU)
    ensures Eval(h, g, loc, ExistsMacro(range, x, p)) == OrRes(Results(h, g, loc, x, p, items))
  {
    var e := ExistsMacro(range, x, p);
    LoopCombines(h, g, loc, e, Or, x, p, items, 0);
    MacroValue(h, g, loc, e, items, FALSE);
  }

  lemma AllIsConjunction(h: Host, g: Root, loc: Locals, range: Expr, x: string, p: Expr, items: seq<Value>)
    requires Eval(h, g, loc, range).Ok? && Visits(h, Eval(h, g, loc, range).v, items)
    requires x != ACCU && !Free(p, ACCU)
    ensures Eval(h, g, loc, AllMacro(range, x, p)) == AndRes(Results(h, g, loc, x, p, items))
  {
    var e := AllMacro(range, x, p);
    LoopCombines(h, g, loc, e, And, x, p, items, 0);
    MacroValue(h, g, loc, e, items, TRUE);
  }

  lemma MacroValue(h: Host, g: Root, loc: Locals, e: Expr, items: seq<Value>, init: Res)
    requires IsMacroLoop(e) && IsAccu(e.kids[4])
    requires Eval(h, g, loc, e.kids[0]).Ok? && Visits(h, Eval(h, g, loc, e.kids[0]).v, items)
    requires Eval(h, g, loc, e.kids[1]) == init
    ensures Eval(h, g, loc, e) == FullFold(h, g, loc, e, items, init)
  {
    EarlyExitIsInvisible(h, g, loc, e, items, init);
    AccuValue(h, g, loc[ACCU := Fold(h, g, loc, e, items, init)], e.kids[4]);
  }

  // ----- map, filter and exists_one -----

  /** A loop whose every round goes from `states[k]` to `states[k + 1]`. */
  lemma {:induction false} LoopFollows(h: Host, g: Root, loc: Locals, e: Expr, items: seq<Value>, states: seq<Res>,
                                       done: nat)
    requires e.kind.Comprehension? && |e.kids| == 5 && |states| == |items| + 1 && done <= |items|
    requires forall k :: 0 <= k < |items| ==>
               Eval(h, g, Round(loc, e, items[k], states[k]), e.kids[3]) == states[k + 1]
    ensures FullFold(h, g, loc, e, items[done..], states[done]) == states[|items|]
    decreases |items| - done
  {
    if done < |items| {
      assert items[done..][0] == items[done] && items[done..][1..] == items[done + 1..];
      LoopFollows(h, g, loc, e, items, states, done + 1);
    }
  }

  lemma ResultsStep(h: Host, g: Root, loc: Locals, x: string, p: Expr, items: seq<Value>, k: nat)
    requires k < |items|
    ensures Results(h, g, loc, x, p, items[..k + 1]) ==
            Results(h, g, loc, x, p, items[..k]) + [Eval(h, g, loc[x := Ok(items[k])], p)]
  {
    assert items[..k + 1][..k] == items[..k];
  }

  /** What a round sees: the accumulator, and the body's value for the element. */
  lemma RoundSees(h: Host, g: Root, loc: Locals, e: Expr, x: string, p: Expr, item: Value, acc: Res)
    requires e.kind.Comprehension? && e.kind.iterVar == x && e.kind.accuVar == ACCU && x != ACCU && !Free(p, ACCU)
    ensures var scope := Round(loc, e, item, acc);
            && Eval(h, g, scope, Accu()) == acc
            && Eval(h, g, scope, p) == Eval(h, g, loc[x := Ok(item)], p)
            && (!Dotted(x) ==> Eval(h, g, scope, Expr(Ident(x), [])) == Ok(item))
  {
    var scope := Round(loc, e, item, acc);
    AccuValue(h, g, scope, Accu());
    UnusedLocalIsIrrelevant(h, g, scope, loc[x := Ok(item)], p, ACCU);
  }

  /** The results as a list, if none is an error. */
  function Listed(rs: seq<Res>): Res {
    if Err in rs then Err else Ok(ListV(Values(rs)))
  }

  /** A strict function of two operands. */
  lemma StrictPair(h: Host, g: Root, loc: Locals, e: Expr, fn: Fn, x: Res, y: Res)
    requires e.kind == Call(fn) && |e.kids| == 2 && fn !in {Or, And, Cond, NotStrictlyFalse}
    requires x == Eval(h, g, loc, e.kids[0]) && y == Eval(h, g, loc, e.kids[1])
    ensures Eval(h, g, loc, e) == if x == Err || y == Err then Err else StrictValue(h, Call(fn), [x.v, y.v])
  {
    var rs := EvalAll(h, g, loc, e.kids);
    assert rs == [x, y];
    if x == Err || y == Err {
      assert rs[0] in rs && rs[1] in rs;
    } else {
      assert Err !in rs;
      assert Values(rs) == [x.v, y.v];
    }
  }

  lemma PairValue(h: Host, g: Root, loc: Locals, fn: Fn, a: Expr, b: Expr)
    requires fn !in {Or, And, Cond, NotStrictlyFalse}
    ensures var x, y := Eval(h, g, loc, a), Eval(h, g, loc, b);
            Eval(h, g, loc, App(fn, [a, b])) ==
            if x == Err || y == Err then Err else StrictValue(h, Call(fn), [x.v, y.v])
  {
    StrictPair(h, g, loc, App(fn, [a, b]), fn, Eval(h, g, loc, a), Eval(h, g, loc, b));
  }

  lemma SingleElement(h: Host, g: Root, loc: Locals, item: Expr)
    ensures Eval(h, g, loc, Expr(List, [item])) ==
            if Eval(h, g, loc, item) == Err then Err else Ok(ListV([Eval(h, g, loc, item).v]))
  {
    var r := Eval(h, g, loc, item);
    var rs := EvalAll(h, g, loc, [item]);
    assert rs == [r];
    if r == Err {
      assert rs[0] in rs;
    } else {
      assert Err !in rs;
      assert Values(rs) == [r.v];
    }
  }

  lemma AddLists(h: Host, g: Root, loc: Locals, a: Expr, b: Expr, l: Res, r: Res)
    requires l == Eval(h, g, loc, a) && r == Eval(h, g, loc, b)
    ensures l == Err || r == Err ==> Eval(h, g, loc, App(Add, [a, b])) == Err
    ensures l.Ok? && l.v.ListV? && r.Ok? && r.v.ListV? ==>
              Eval(h, g, loc, App(Add, [a, b])) == Ok(ListV(l.v.elems + r.v.elems))
  {
    PairValue(h, g, loc, Add, a, b);
  }

  lemma AppendElement(h: Host, g: Root, loc: Locals, list: Expr, item: Expr)
    ensures var l, r := Eval(h, g, loc, list), Eval(h, g, loc, item);
            && (l == Err || r == Err ==> Eval(h, g, loc, App(Add, [list, Expr(List, [item])])) == Err)
            && (l.Ok? && l.v.ListV? && r.Ok? ==>
                  Eval(h, g, loc, App(Add, [list, Expr(List, [item])])) == Ok(ListV(l.v.elems + [r.v])))
  {
    var r := Eval(h, g, loc, item);
    SingleElement(h, g, loc, item);
    AddLists(h, g, loc, list, Expr(List, [item]), Eval(h, g, loc, list), if r == Err then Err else Ok(ListV([r.v])));
  }

  lemma ListedStep(rs: seq<Res>, r: Res)
    ensures Listed(rs + [r]) == if Listed(rs) == Err || r == Err then Err else Ok(ListV(Listed(rs).v.elems + [r.v]))
  {
    assert forall t :: t in rs + [r] <==> t in rs || t == r;
    if Err !in rs + [r] {
      assert Values(rs + [r]) == Values(rs) + [r.v];
    }
  }

  /** map yields the list of the body's values, or an error if one is. */
  lemma MapIsPointwise(h: Host, g: Root, loc: Locals, range: Expr, x: string, t: Expr, items: seq<Value>)
    requires Eval(h, g, loc, range).Ok? && Visits(h, Eval(h, g, loc, range).v, items)
    requires x != ACCU && !Free(t, ACCU)
    ensures Eval(h, g, loc, MapMacro(range, x, t)) == Listed(Results(h, g, loc, x, t, items))
  {
    var e := MapMacro(range, x, t);
    var states := seq(|items| + 1, k requires 0 <= k <= |items| => Listed(Results(h, g, loc, x, t, items[..k])));
    forall k | 0 <= k < |items|
      ensures Eval(h, g, Round(loc, e, items[k], states[k]), e.kids[3]) == states[k + 1]
    {
      RoundSees(h, g, loc, e, x, t, items[k], states[k]);
      AppendElement(h, g, Round(loc, e, items[k], states[k]), Accu(), t);
      ResultsStep(h, g, loc, x, t, items, k);
      ListedStep(Results(h, g, loc, x, t, items[..k]), Eval(h, g, loc[x := Ok(items[k])], t));
    }
    LoopFollows(h, g, loc, e, items, states, 0);
    assert items[0..] == items && items[..|items|] == items && items[..0] == [];
    EmptyList(h, g, loc);
    MacroValue(h, g, loc, e, items, Ok(ListV([])));
  }

  lemma EmptyList(h: Host, g: Root, loc: Locals)
    ensures Eval(h, g, loc, Expr(List, [])) == Ok(ListV([])) && Listed([]) == Ok(ListV([]))
  {
    assert EvalAll(h, g, loc, []) == [];
  }

  /** The elements whose predicate is true, in order; an error if some result
      is neither true nor false. */
  function Kept(rs: seq<Res>, items: seq<Value>): (r: Res)
    requires |rs| == |items|
    ensures r == Err || r.v.ListV?
    ensures r == Err <==> exists i :: 0 <= i < |rs| && rs[i] != TRUE && rs[i] != FALSE
    ensures r.Ok? ==> forall v :: v in r.v.elems <==> exists i :: 0 <= i < |rs| && rs[i] == TRUE && items[i] == v
    ensures r.Ok? ==> |r.v.elems| == Trues(rs)
  {
    if rs == [] then Ok(ListV([]))
    else
      var n := |rs| - 1;
      var front := Kept(rs[..n], items[..n]);
      if front == Err || (rs[n] != TRUE && rs[n] != FALSE) then Err
      else if rs[n] == TRUE then Ok(ListV(front.v.elems + [items[n]]))
      else front
  }

  function Trues(rs: seq<Res>): nat {
    if rs == [] then 0 else Trues(rs[..|rs| - 1]) + if rs[|rs| - 1] == TRUE then 1 else 0
  }

  lemma CondValue(h: Host, g: Root, loc: Locals, test: Expr, yes: Expr, no: Expr)
    ensures Eval(h, g, loc, App(Cond, [test, yes, no])) ==
            var t := Eval(h, g, loc, test);
            if t == TRUE then Eval(h, g, loc, yes) else if t == FALSE then Eval(h, g, loc, no) else Err
  {
    assert EvalAll(h, g, loc, [test, yes, no]) ==
           [Eval(h, g, loc, test), Eval(h, g, loc, yes), Eval(h, g, loc, no)];
  }

  lemma FilterStep(h: Host, g: Root, loc: Locals, range: Expr, x: string, p: Expr, items: seq<Value>, k: nat)
    requires k < |items| && x != ACCU && !Dotted(x) && !Free(p, ACCU)
    ensures var e := FilterMacro(range, x, p);
            Eval(h, g, Round(loc, e, items[k], Kept(Results(h, g, loc, x, p, items[..k]), items[..k])), e.kids[3]) ==
            Kept(Results(h, g, loc, x, p, items[..k + 1]), items[..k + 1])
  {
    var e := FilterMacro(range, x, p);
    var rs := Results(h, g, loc, x, p, items[..k]);
    var acc := Kept(rs, items[..k]);
    var scope := Round(loc, e, items[k], acc);
    RoundSees(h, g, loc, e, x, p, items[k], acc);
    AppendElement(h, g, scope, Accu(), Expr(Ident(x), []));
    CondValue(h, g, scope, p, App(Add, [Accu(), Expr(List, [Expr(Ident(x), [])])]), Accu());
    ResultsStep(h, g, loc, x, p, items, k);
    assert items[..k + 1][..k] == items[..k];
    var r := Eval(h, g, loc[x := Ok(items[k])], p);
    assert (rs + [r])[..k] == rs;
  }

  lemma FilterKeepsTrue(h: Host, g: Root, loc: Locals, range: Expr, x: string, p: Expr, items: seq<Value>)
    requires Eval(h, g, loc, range).Ok? && Visits(h, Eval(h, g, loc, range).v, items)
    requires x != ACCU && !Dotted(x) && !Free(p, ACCU)
    ensures Eval(h, g, loc, FilterMacro(range, x, p)) == Kept(Results(h, g, loc, x, p, items), items)
  {
    var e := FilterMacro(range, x, p);
    var states := seq(|items| + 1, k requires 0 <= k <= |items| =>
                      Kept(Results(h, g, loc, x, p, items[..k]), items[..k]));
    forall k | 0 <= k < |items|
      ensures Eval(h, g, Round(loc, e, items[k], states[k]), e.kids[3]) == states[k + 1]
    {
      FilterStep(h, g, loc, range, x, p, items, k);
    }
    LoopFollows(h, g, loc, e, items, states, 0);
    assert items[0..] == items && items[..|items|] == items && items[..0] == [];
    EmptyList(h, g, loc);
    MacroValue(h, g, loc, e, items, Ok(ListV([])));
  }

  /** The number of true results; an error if some result is neither true nor
      false. */
  function Tally(rs: seq<Res>): Res {
    if forall r :: r in rs ==> r == TRUE || r == FALSE then Ok(NumV(Trues(rs) as real)) else Err
  }

  /** The host adds numbers. */
  ghost predicate AddsNumbers(h: Host) {
    forall a, b :: h.strict(Call(Add), [NumV(a), NumV(b)]) == Ok(NumV(a + b))
  }

  lemma AddOne(h: Host, g: Root, loc: Locals, acc: Res)
    requires AddsNumbers(h) && ACCU in loc && loc[ACCU] == acc && (acc == Err || acc.v.NumV?)
    ensures Eval(h, g, loc, App(Add, [Accu(), Lit(NumV(1.0))])) == if acc == Err then Err else Ok(NumV(acc.v.n + 1.0))
  {
    AccuValue(h, g, loc, Accu());
    PairValue(h, g, loc, Add, Accu(), Lit(NumV(1.0)));
    if acc.Ok? {
      assert h.strict(Call(Add), [NumV(acc.v.n), NumV(1.0)]) == Ok(NumV(acc.v.n + 1.0));
    }
  }

  lemma TallyGrows(rs: seq<Res>, r: Res)
    ensures Tally(rs + [r]) == if r == TRUE && Tally(rs).Ok? then Ok(NumV(Tally(rs).v.n + 1.0))
                               else if r == FALSE then Tally(rs) else Err
  {
    var all := rs + [r];
    assert all[..|rs|] == rs && all[|rs|] == r;
    assert r in all && forall t :: t in all <==> t in rs || t == r;
    assert Trues(all) == Trues(rs) + if r == TRUE then 1 else 0;
  }

  lemma TallyStep(h: Host, g: Root, loc: Locals, range: Expr, x: string, p: Expr, items: seq<Value>, k: nat)
    requires AddsNumbers(h) && k < |items| && x != ACCU && !Free(p, ACCU)
    ensures var e := ExistsOneMacro(range, x, p);
            Eval(h, g, Round(loc, e, items[k], Tally(Results(h, g, loc, x, p, items[..k]))), e.kids[3]) ==
            Tally(Results(h, g, loc, x, p, items[..k + 1]))
  {
    var e := ExistsOneMacro(range, x, p);
    var rs := Results(h, g, loc, x, p, items[..k]);
    var scope := Round(loc, e, items[k], Tally(rs));
    RoundSees(h, g, loc, e, x, p, items[k], Tally(rs));
    AddOne(h, g, scope, Tally(rs));
    CondValue(h, g, scope, p, App(Add, [Accu(), Lit(NumV(1.0))]), Accu());
    ResultsStep(h, g, loc, x, p, items, k);
    TallyGrows(rs, Eval(h, g, loc[x := Ok(items[k])], p));
  }

  /** exists_one is true when exactly one result is, and an error if some result
      is neither true nor false. */
  lemma ExistsOneCounts(h: Host, g: Root, loc: Locals, range: Expr, x: string, p: Expr, items: seq<Value>)
    requires AddsNumbers(h) && Eval(h, g, loc, range).Ok? && Visits(h, Eval(h, g, loc, range).v, items)
    requires x != ACCU && !Free(p, ACCU)
    ensures var rs := Results(h, g, loc, x, p, items);
            Eval(h, g, loc, ExistsOneMacro(range, x, p)) ==
            if forall r :: r in rs ==> r == TRUE || r == FALSE then Bool(Trues(rs) == 1) else Err
  {
    var e := ExistsOneMacro(range, x, p);
    var acc := Tally(Results(h, g, loc, x, p, items));
    TallyLoop(h, g, loc, range, x, p, items);
    CountResult(h, g, loc[ACCU := acc]);
    CountingValue(h, g, loc, e, items, Ok(NumV(0.0)));
  }

  lemma CountingValue(h: Host, g: Root, loc: Locals, e: Expr, items: seq<Value>, init: Res)
    requires IsMacroLoop(e) && Eval(h, g, loc, e.kids[1]) == init
    requires Eval(h, g, loc, e.kids[0]).Ok? && Visits(h, Eval(h, g, loc, e.kids[0]).v, items)
    ensures Eval(h, g, loc, e) == Eval(h, g, loc[ACCU := FullFold(h, g, loc, e, items, init)], e.kids[4])
  {
    EarlyExitIsInvisible(h, g, loc, e, items, init);
  }

  lemma TallyLoop(h: Host, g: Root, loc: Locals, range: Expr, x: string, p: Expr, items: seq<Value>)
    requires AddsNumbers(h) && x != ACCU && !Free(p, ACCU)
    ensures FullFold(h, g, loc, ExistsOneMacro(range, x, p), items, Ok(NumV(0.0))) ==
            Tally(Results(h, g, loc, x, p, items))
  {
    var e := ExistsOneMacro(range, x, p);
    var states := seq(|items| + 1, k requires 0 <= k <= |items| => Tally(Results(h, g, loc, x, p, items[..k])));
    forall k | 0 <= k < |items|
      ensures Eval(h, g, Round(loc, e, items[k], states[k]), e.kids[3]) == states[k + 1]
    {
      TallyStep(h, g, loc, range, x, p, items, k);
    }
    LoopFollows(h, g, loc, e, items, states, 0);
    assert items[0..] == items && items[..|items|] == items && items[..0] == [];
    assert Tally([]) == Ok(NumV(0.0));
  }

  lemma CountResult(h: Host, g: Root, loc: Locals)
    requires ACCU in loc
    ensures var acc := loc[ACCU];
            Eval(h, g, loc, App(Eq, [Accu(), Lit(NumV(1.0))])) == if acc == Err then Err else Bool(acc.v == NumV(1.0))
  {
    AccuValue(h, g, loc, Accu());
    PairValue(h, g, loc, Eq, Accu(), Lit(NumV(1.0)));
  }
}
