/**
 Laws of the expression language that conditions are written in, relating its
 operators to one another. They hold for every host.
 */
module Laws {
  import opened Cel
  import opened Condition
  import opened Discipline
  import opened Refinement
  import opened Macros

  // ----- booleans -----

  predicate BoolOrErr(r: Res) {
    r == TRUE || r == FALSE || r == Err
  }

  function Negated(r: Res): Res {
    if r == TRUE then FALSE else if r == FALSE then TRUE else Err
  }

  lemma NotValue(h: Host, g: Root, loc: Locals, a: Expr)
    ensures Eval(h, g, loc, App(Not, [a])) == Negated(Eval(h, g, loc, a))
  {
    var r := Eval(h, g, loc, a);
    var rs := EvalAll(h, g, loc, [a]);
    assert rs == [r];
    if r == Err {
      assert rs[0] in rs;
    } else {
      assert Err !in rs;
      assert Values(rs) == [r.v];
    }
  }

  lemma JunctionValue(h: Host, g: Root, loc: Locals, e: Expr)
    requires IsCall(e, Or, 2) || IsCall(e, And, 2)
    ensures var rs := [Eval(h, g, loc, e.kids[0]), Eval(h, g, loc, e.kids[1])];
            Eval(h, g, loc, e) == if e.kind == Call(Or) then OrRes(rs) else AndRes(rs)
  {
    assert EvalAll(h, g, loc, e.kids) == [Eval(h, g, loc, e.kids[0]), Eval(h, g, loc, e.kids[1])];
  }

  lemma OrValue(h: Host, g: Root, loc: Locals, a: Expr, b: Expr)
    ensures Eval(h, g, loc, App(Or, [a, b])) == OrRes([Eval(h, g, loc, a), Eval(h, g, loc, b)])
  {
    JunctionValue(h, g, loc, App(Or, [a, b]));
  }

  lemma AndValue(h: Host, g: Root, loc: Locals, a: Expr, b: Expr)
    ensures Eval(h, g, loc, App(And, [a, b])) == AndRes([Eval(h, g, loc, a), Eval(h, g, loc, b)])
  {
    JunctionValue(h, g, loc, App(And, [a, b]));
  }

  lemma PairTable(x: Res, y: Res)
    ensures OrRes([x, y]) == if x == TRUE || y == TRUE then TRUE else if x == FALSE && y == FALSE then FALSE else Err
    ensures AndRes([x, y]) == if x == FALSE || y == FALSE then FALSE else if x == TRUE && y == TRUE then TRUE else Err
  {
    var rs := [x, y];
    assert rs[0] in rs && rs[1] in rs && forall r :: r in rs <==> r == x || r == y;
  }

  /** !(a && b) is !a || !b, errors included. */
  lemma DeMorgan(h: Host, g: Root, loc: Locals, a: Expr, b: Expr)
    ensures Eval(h, g, loc, App(Not, [App(And, [a, b])])) ==
            Eval(h, g, loc, App(Or, [App(Not, [a]), App(Not, [b])]))
  {
    var x, y := Eval(h, g, loc, a), Eval(h, g, loc, b);
    NotValue(h, g, loc, a);
    NotValue(h, g, loc, b);
    AndValue(h, g, loc, a, b);
    NotValue(h, g, loc, App(And, [a, b]));
    OrValue(h, g, loc, App(Not, [a]), App(Not, [b]));
    PairTable(x, y);
    PairTable(Negated(x), Negated(y));
  }

  /** a != b is !(a == b), errors included. */
  lemma DifferentIsNotEqual(h: Host, g: Root, loc: Locals, a: Expr, b: Expr)
    ensures Eval(h, g, loc, App(Ne, [a, b])) == Eval(h, g, loc, App(Not, [App(Eq, [a, b])]))
  {
    PairValue(h, g, loc, Eq, a, b);
    PairValue(h, g, loc, Ne, a, b);
    NotValue(h, g, loc, App(Eq, [a, b]));
  }

  /** t ? a : b is t && a || !t && b for bools a and b. */
  lemma ChoiceIsJunction(h: Host, g: Root, loc: Locals, t: Expr, a: Expr, b: Expr)
    requires Eval(h, g, loc, t) in {TRUE, FALSE}
    requires Eval(h, g, loc, a) in {TRUE, FALSE} && Eval(h, g, loc, b) in {TRUE, FALSE}
    ensures Eval(h, g, loc, App(Cond, [t, a, b])) ==
            Eval(h, g, loc, App(Or, [App(And, [t, a]), App(And, [App(Not, [t]), b])]))
  {
    var x, y, z := Eval(h, g, loc, t), Eval(h, g, loc, a), Eval(h, g, loc, b);
    CondValue(h, g, loc, t, a, b);
    NotValue(h, g, loc, t);
    AndValue(h, g, loc, t, a);
    AndValue(h, g, loc, App(Not, [t]), b);
    OrValue(h, g, loc, App(And, [t, a]), App(And, [App(Not, [t]), b]));
    PairTable(x, y);
    PairTable(Negated(x), z);
    PairTable(AndRes([x, y]), AndRes([Negated(x), z]));
  }

  // ----- lists -----

  /** The elements of a list literal, when none is an error. */
  lemma ListValue(h: Host, g: Root, loc: Locals, es: seq<Expr>) returns (vs: seq<Value>)
    requires forall i :: 0 <= i < |es| ==> Eval(h, g, loc, es[i]).Ok?
    ensures Eval(h, g, loc, Expr(List, es)) == Ok(ListV(vs)) && |vs| == |es|
    ensures forall i :: 0 <= i < |es| ==> Eval(h, g, loc, es[i]) == Ok(vs[i])
  {
    var rs := EvalAll(h, g, loc, es);
    assert Err !in rs;
    vs := Values(rs);
  }

  /** x in [e, ...] is x == e || ... */
  lemma MembershipIsSomeEquality(h: Host, g: Root, loc: Locals, x: Expr, es: seq<Expr>)
    requires Eval(h, g, loc, x).Ok? && forall i :: 0 <= i < |es| ==> Eval(h, g, loc, es[i]).Ok?
    ensures Eval(h, g, loc, App(In, [x, Expr(List, es)])) ==
            Bool(exists i :: 0 <= i < |es| && Eval(h, g, loc, App(Eq, [x, es[i]])) == TRUE)
  {
    var vs := ListValue(h, g, loc, es);
    MembershipValue(h, g, loc, x, Expr(List, es), vs);
    forall i | 0 <= i < |es|
      ensures Eval(h, g, loc, App(Eq, [x, es[i]])) == Bool(Eval(h, g, loc, x).v == vs[i])
    {
      EqualityValue(h, g, loc, x, es[i]);
    }
  }

  lemma EqualityValue(h: Host, g: Root, loc: Locals, a: Expr, b: Expr)
    requires Eval(h, g, loc, a).Ok? && Eval(h, g, loc, b).Ok?
    ensures Eval(h, g, loc, App(Eq, [a, b])) == Bool(Eval(h, g, loc, a).v == Eval(h, g, loc, b).v)
  {
    OperandsDecide(h, g, loc, App(Eq, [a, b]), Eval(h, g, loc, a).v, Eval(h, g, loc, b).v);
  }

  lemma MembershipValue(h: Host, g: Root, loc: Locals, x: Expr, list: Expr, vs: seq<Value>)
    requires Eval(h, g, loc, x).Ok? && Eval(h, g, loc, list) == Ok(ListV(vs))
    ensures Eval(h, g, loc, App(In, [x, list])) == Bool(Eval(h, g, loc, x).v in vs)
  {
    OperandsDecide(h, g, loc, App(In, [x, list]), Eval(h, g, loc, x).v, ListV(vs));
  }

  lemma ElementAt(h: Host, g: Root, loc: Locals, e: Expr, vs: seq<Value>, k: nat)
    requires IsCall(e, Index, 2)
    requires Eval(h, g, loc, e.kids[0]) == Ok(ListV(vs)) && Eval(h, g, loc, e.kids[1]) == Ok(NumV(k as real))
    ensures Eval(h, g, loc, e) == if k < |vs| then Ok(vs[k]) else Err
  {
    StrictPair(h, g, loc, e, Index, Ok(ListV(vs)), Ok(NumV(k as real)));
    assert (k as real).Floor == k;
  }

  lemma IndexValueAt(h: Host, g: Root, loc: Locals, list: Expr, vs: seq<Value>, index: Expr, k: nat)
    requires Eval(h, g, loc, list) == Ok(ListV(vs)) && Eval(h, g, loc, index) == Ok(NumV(k as real))
    ensures Eval(h, g, loc, App(Index, [list, index])) == if k < |vs| then Ok(vs[k]) else Err
  {
    ElementAt(h, g, loc, App(Index, [list, index]), vs, k);
  }

  /** [e, ...][k] is the element k, and an error beyond the end. */
  lemma IndexOfLiteral(h: Host, g: Root, loc: Locals, es: seq<Expr>, k: nat)
    requires forall i :: 0 <= i < |es| ==> Eval(h, g, loc, es[i]).Ok?
    ensures Eval(h, g, loc, App(Index, [Expr(List, es), Lit(NumV(k as real))])) ==
            if k < |es| then Eval(h, g, loc, es[k]) else Err
  {
    var vs := ListValue(h, g, loc, es);
    IndexValueAt(h, g, loc, Expr(List, es), vs, Lit(NumV(k as real)), k);
  }

  /** The elements of a + b are those of a, then those of b: i indexes a, and
      j is i plus the length of a. */
  lemma IndexOfSum(h: Host, g: Root, loc: Locals, a: Expr, b: Expr, vs: seq<Value>, ws: seq<Value>, i: Expr, j: Expr,
                   k: nat)
    requires Eval(h, g, loc, a) == Ok(ListV(vs)) && Eval(h, g, loc, b) == Ok(ListV(ws))
    requires Eval(h, g, loc, i) == Ok(NumV(k as real)) && Eval(h, g, loc, j) == Ok(NumV((|vs| + k) as real))
    ensures k < |vs| ==>
      Eval(h, g, loc, App(Index, [App(Add, [a, b]), i])) == Eval(h, g, loc, App(Index, [a, i]))
    ensures Eval(h, g, loc, App(Index, [App(Add, [a, b]), j])) == Eval(h, g, loc, App(Index, [b, i]))
  {
    AddLists(h, g, loc, a, b, Ok(ListV(vs)), Ok(ListV(ws)));
    if k < |vs| {
      IndexInFront(h, g, loc, a, App(Add, [a, b]), vs, ws, i, k);
    }
    IndexInBack(h, g, loc, b, App(Add, [a, b]), vs, ws, i, j, k);
  }

  lemma IndexInFront(h: Host, g: Root, loc: Locals, a: Expr, joined: Expr, vs: seq<Value>, ws: seq<Value>, i: Expr,
                     k: nat)
    requires Eval(h, g, loc, a) == Ok(ListV(vs)) && Eval(h, g, loc, joined) == Ok(ListV(vs + ws)) && k < |vs|
    requires Eval(h, g, loc, i) == Ok(NumV(k as real))
    ensures Eval(h, g, loc, App(Index, [joined, i])) == Eval(h, g, loc, App(Index, [a, i]))
  {
    ElementAt(h, g, loc, App(Index, [a, i]), vs, k);
    ElementAt(h, g, loc, App(Index, [joined, i]), vs + ws, k);
  }

  lemma IndexInBack(h: Host, g: Root, loc: Locals, b: Expr, joined: Expr, vs: seq<Value>, ws: seq<Value>, i: Expr,
                    j: Expr, k: nat)
    requires Eval(h, g, loc, b) == Ok(ListV(ws)) && Eval(h, g, loc, joined) == Ok(ListV(vs + ws))
    requires Eval(h, g, loc, i) == Ok(NumV(k as real)) && Eval(h, g, loc, j) == Ok(NumV((|vs| + k) as real))
    ensures Eval(h, g, loc, App(Index, [joined, j])) == Eval(h, g, loc, App(Index, [b, i]))
  {
    var position, all := |vs| + k, vs + ws;
    assert position < |all| <==> k < |ws|;
    assert k < |ws| ==> all[position] == ws[k];
    IndexValueAt(h, g, loc, b, ws, i, k);
    IndexValueAt(h, g, loc, joined, all, j, position);
  }

  // ----- maps -----

  lemma FieldValue(h: Host, g: Root, loc: Locals, m: Expr, field: string, testOnly: bool)
    ensures Eval(h, g, loc, Expr(Select(field, testOnly), [m])) ==
            if Eval(h, g, loc, m) == Err then Err else SelectValue(h, Eval(h, g, loc, m).v, field, testOnly)
  {
    var r := Eval(h, g, loc, m);
    var rs := EvalAll(h, g, loc, [m]);
    assert rs == [r];
    if r == Err {
      assert rs[0] in rs;
    } else {
      assert Err !in rs;
      assert Values(rs) == [r.v];
    }
  }

  /** m.f is m["f"], and has(m.f) is "f" in m. */
  lemma FieldIsIndex(h: Host, g: Root, loc: Locals, m: Expr, field: string)
    requires Eval(h, g, loc, m).Ok? && Eval(h, g, loc, m).v.MapV?
    ensures Eval(h, g, loc, Expr(Select(field, false), [m])) ==
            Eval(h, g, loc, App(Index, [m, Lit(StrV(field))]))
    ensures Eval(h, g, loc, Expr(Select(field, true), [m])) ==
            Eval(h, g, loc, App(In, [Lit(StrV(field)), m]))
  {
    FieldValue(h, g, loc, m, field, false);
    FieldValue(h, g, loc, m, field, true);
    PairValue(h, g, loc, Index, m, Lit(StrV(field)));
    PairValue(h, g, loc, In, Lit(StrV(field)), m);
  }

  /** The keys and values of a map literal, in turn. */
  predicate DistinctKeys(vs: seq<Value>) {
    |vs| % 2 == 0 && forall i, j :: 0 <= i < j < |vs| / 2 ==> vs[2 * i] != vs[2 * j]
  }

  lemma {:induction false} MapEntries(vs: seq<Value>, i: nat)
    requires DistinctKeys(vs) && i < |vs| / 2
    ensures MapValue(vs).Ok? && MapValue(vs).v.MapV?
    ensures EntryAt(MapValue(vs).v.entries, vs[2 * i]) == Ok(vs[2 * i + 1])
  {
    var n := |vs| - 2;
    assert DistinctKeys(vs[..n]);
    MapKeys(vs[..n]);
    MapKeys(vs);
    if 2 * i < n {
      MapEntries(vs[..n], i);
    }
  }

  lemma {:induction false} MapKeys(vs: seq<Value>)
    requires DistinctKeys(vs)
    ensures MapValue(vs).Ok? && MapValue(vs).v.MapV?
    ensures forall k :: k in MapValue(vs).v.entries <==> exists i :: 0 <= i < |vs| / 2 && vs[2 * i] == k
  {
    if vs != [] {
      var n := |vs| - 2;
      assert DistinctKeys(vs[..n]);
      MapKeys(vs[..n]);
      assert forall i :: 0 <= i < n / 2 ==> vs[..n][2 * i] == vs[2 * i];
      assert n / 2 < |vs| / 2 && vs[2 * (n / 2)] == vs[n];
    }
  }

  /** {k: v, ...}[k] is v when the keys differ. */
  lemma LookupInLiteral(h: Host, g: Root, loc: Locals, kids: seq<Expr>, vs: seq<Value>, key: Expr, i: nat)
    requires |vs| == |kids| && DistinctKeys(vs) && i < |vs| / 2
    requires forall k :: 0 <= k < |kids| ==> Eval(h, g, loc, kids[k]) == Ok(vs[k])
    requires Eval(h, g, loc, key) == Ok(vs[2 * i])
    ensures Eval(h, g, loc, App(Index, [Expr(Map, kids), key])) == Ok(vs[2 * i + 1])
  {
    MapEntries(vs, i);
    MapLiteralValue(h, g, loc, Expr(Map, kids), vs);
    IndexOfMap(h, g, loc, Expr(Map, kids), key, MapValue(vs).v.entries, vs[2 * i]);
  }

  lemma OperandValues(h: Host, g: Root, loc: Locals, es: seq<Expr>, vs: seq<Value>)
    requires |vs| == |es| && forall k :: 0 <= k < |es| ==> Eval(h, g, loc, es[k]) == Ok(vs[k])
    ensures Err !in EvalAll(h, g, loc, es) && Values(EvalAll(h, g, loc, es)) == vs
  {
    var rs := EvalAll(h, g, loc, es);
    forall r | r in rs ensures r != Err {
      var k :| 0 <= k < |rs| && rs[k] == r;
    }
  }

  lemma MapLiteralValue(h: Host, g: Root, loc: Locals, e: Expr, vs: seq<Value>)
    requires e.kind == Map && |vs| == |e.kids|
    requires forall k :: 0 <= k < |e.kids| ==> Eval(h, g, loc, e.kids[k]) == Ok(vs[k])
    ensures Eval(h, g, loc, e) == MapValue(vs)
  {
    var rs := EvalAll(h, g, loc, e.kids);
    OperandValues(h, g, loc, e.kids, vs);
    ApplyMap(h, rs, vs);
    NodeApplies(h, g, loc, e, rs);
  }

  lemma ApplyMap(h: Host, rs: seq<Res>, vs: seq<Value>)
    requires Err !in rs && Values(rs) == vs
    ensures Apply(h, Map, rs) == MapValue(vs)
  {
  }

  lemma NodeApplies(h: Host, g: Root, loc: Locals, e: Expr, rs: seq<Res>)
    requires e.kind == Map && rs == EvalAll(h, g, loc, e.kids)
    ensures Eval(h, g, loc, e) == Apply(h, Map, rs)
  {
  }

  lemma IndexOfMap(h: Host, g: Root, loc: Locals, m: Expr, key: Expr, entries: map<Value, Value>, k: Value)
    requires Eval(h, g, loc, m) == Ok(MapV(entries)) && Eval(h, g, loc, key) == Ok(k)
    ensures Eval(h, g, loc, App(Index, [m, key])) == EntryAt(entries, k)
  {
    PairValue(h, g, loc, Index, m, key);
  }

  // ----- the request -----

  /** request.resources is [request.resource], and has(request.resource) says
      that it is not empty. */
  lemma AliasIsSingleton(h: Host, g: Root, loc: Locals, request: Expr)
    requires Eval(h, g, loc, request) == Ok(RequestV(g.resource))
    ensures var resource := Expr(Select("resource", false), [request]);
            && Eval(h, g, loc, Expr(Select("resources", false), [request])) == Eval(h, g, loc, Expr(List, [resource]))
            && Eval(h, g, loc, Expr(Select("resource", true), [request])) ==
               Eval(h, g, loc, App(Ne, [resource, Lit(StrV(""))]))
  {
    var resource := Expr(Select("resource", false), [request]);
    assert |"resource"| != |"resources"|;
    FieldValue(h, g, loc, request, "resource", false);
    FieldValue(h, g, loc, request, "resource", true);
    FieldValue(h, g, loc, request, "resources", false);
    SingleElement(h, g, loc, resource);
    PairValue(h, g, loc, Ne, resource, Lit(StrV("")));
  }
}
