/**
 The subset of CEL that policy conditions are written in, as the checked and
 macro-expanded tree that the broker inspects and evaluates.

 Every node has a kind and an ordered list of children, which is the view that
 cel-go's NavigableExpr gives of its own nodes. Evaluation is untyped: what the
 CEL type checker would reject evaluates to an error or to `false` here, so a
 statement about every tree covers every tree the type checker accepts.
 */
module Cel {

  /** int, uint and double are one kind compared on the number line; bytes,
      null, types, timestamps and durations are `OtherV`. */
  datatype Value =
    | BoolV(b: bool)
    | NumV(n: real)
    | StrV(s: string)
    | ListV(elems: seq<Value>)
    | MapV(entries: map<Value, Value>)
    | RequestV(resource: string)
    | OtherV(typeName: string, data: string)

  /** The result of an evaluation. Error texts carry no meaning here. */
  datatype Res = Ok(v: Value) | Err

  const TRUE := Ok(BoolV(true))
  const FALSE := Ok(BoolV(false))

  datatype Fn =
    | Or | And | Not | Eq | Ne | In | Cond | Index | Add | NotStrictlyFalse
    | Less | LessEq | Greater | GreaterEq
    | StartsWith | EndsWith | Contains | Matches
    | Other(name: string)

  datatype Kind =
    | Ident(name: string)
    | Literal(value: Value)
    | Select(field: string, testOnly: bool)
    | Call(fn: Fn)
    | List
    | Map
    | Struct(typeName: string, fields: seq<string>)
    | Comprehension(iterVar: string, iterVar2: string, accuVar: string)

  /** A comprehension's children are range, initial accumulator, loop
      condition, loop step and result; a map's are key, value, key, value... */
  datatype Expr = Expr(kind: Kind, kids: seq<Expr>)

  /** Everything CEL leaves to its host: the strict functions that are not
      interpreted below, the root identifiers other than the two policy
      variables (type names), and the order in which a map is iterated. All
      results hold for every choice of these. */
  datatype Host = Host(
    strict: (Kind, seq<Value>) -> Res,
    root: string -> Res,
    order: map<Value, Value> -> seq<Value>)

  /** The two policy variables: the caller's claims and the one resource. */
  datatype Root = Root(caller: map<string, string>, resource: string)

  /** Comprehension variables in scope. An accumulator may hold an error. */
  type Locals = map<string, Res>

  const VAR_CALLER := "caller"
  const VAR_REQUEST := "request"

  // ----- identifiers -----

  predicate Dotted(name: string) {
    |name| > 0 && name[0] == '.'
  }

  function TrimDot(name: string): string {
    if Dotted(name) then name[1..] else name
  }

  function CallerValue(caller: map<string, string>): Value {
    MapV(map c | c in caller :: StrV(c) := StrV(caller[c]))
  }

  function RootValue(h: Host, g: Root, name: string): Res {
    if name == VAR_CALLER then Ok(CallerValue(g.caller))
    else if name == VAR_REQUEST then Ok(RequestV(g.resource))
    else h.root(name)
  }

  /** A leading dot skips the comprehension variables. */
  function Lookup(h: Host, g: Root, loc: Locals, name: string): Res {
    if !Dotted(name) && name in loc then loc[name] else RootValue(h, g, TrimDot(name))
  }

  // ----- operators -----

  /** `||` is true as soon as one operand is, whatever the others do. */
  function OrRes(rs: seq<Res>): Res {
    if TRUE in rs then TRUE
    else if forall r :: r in rs ==> r == FALSE then FALSE
    else Err
  }

  function AndRes(rs: seq<Res>): Res {
    if FALSE in rs then FALSE
    else if forall r :: r in rs ==> r == TRUE then TRUE
    else Err
  }

  function CondRes(rs: seq<Res>): Res {
    if |rs| != 3 then Err
    else if rs[0] == TRUE then rs[1]
    else if rs[0] == FALSE then rs[2]
    else Err
  }

  function Bool(b: bool): Res {
    Ok(BoolV(b))
  }

  function EntryAt(m: map<Value, Value>, key: Value): Res {
    if key in m then Ok(m[key]) else Err
  }

  function SelectValue(h: Host, v: Value, field: string, testOnly: bool): Res {
    match v
    case MapV(m) => if testOnly then Bool(StrV(field) in m) else EntryAt(m, StrV(field))
    case RequestV(r) =>
      if field == "resource" then (if testOnly then Bool(r != "") else Ok(StrV(r)))
      else if field == "resources" then (if testOnly then Bool(true) else Ok(ListV([StrV(r)])))
      else Err
    case OtherV(_, _) => h.strict(Select(field, testOnly), [v])
    case _ => Err
  }

  function IndexValue(h: Host, v: Value, i: Value): Res {
    match v
    case MapV(m) => EntryAt(m, i)
    case ListV(s) =>
      if i.NumV? && i.n.Floor as real == i.n && 0 <= i.n.Floor < |s| then Ok(s[i.n.Floor]) else Err
    case OtherV(_, _) => h.strict(Call(Index), [v, i])
    case _ => Err
  }

  /** Membership is defined for lists and map keys; in particular, `in` with a
      string on the right is an error. */
  function InValue(x: Value, container: Value): Res {
    match container
    case ListV(s) => Bool(x in s)
    case MapV(m) => Bool(x in m)
    case _ => Err
  }

  function AddValue(h: Host, a: Value, b: Value): Res {
    match (a, b)
    case (StrV(s), StrV(t)) => Ok(StrV(s + t))
    case (ListV(s), ListV(t)) => Ok(ListV(s + t))
    case _ => h.strict(Call(Add), [a, b])
  }

  /** A map literal with a repeated key is an error. */
  function MapValue(vs: seq<Value>): Res {
    if |vs| == 0 then Ok(MapV(map[]))
    else if |vs| == 1 then Err
    else
      var m := MapValue(vs[..|vs| - 2]);
      if m == Err || !m.v.MapV? || vs[|vs| - 2] in m.v.entries then Err
      else Ok(MapV(m.v.entries[vs[|vs| - 2] := vs[|vs| - 1]]))
  }

  function StrictValue(h: Host, kind: Kind, vs: seq<Value>): Res {
    match kind
    case Select(f, t) => if |vs| == 1 then SelectValue(h, vs[0], f, t) else Err
    case List => Ok(ListV(vs))
    case Map => MapValue(vs)
    case Call(fn) =>
      if fn == Not && |vs| == 1 then (if vs[0].BoolV? then Bool(!vs[0].b) else Err)
      else if fn == Eq && |vs| == 2 then Bool(vs[0] == vs[1])
      else if fn == Ne && |vs| == 2 then Bool(vs[0] != vs[1])
      else if fn == In && |vs| == 2 then InValue(vs[0], vs[1])
      else if fn == Index && |vs| == 2 then IndexValue(h, vs[0], vs[1])
      else if fn == Add && |vs| == 2 then AddValue(h, vs[0], vs[1])
      else h.strict(kind, vs)
    case _ => h.strict(kind, vs)
  }

  function Values(rs: seq<Res>): (vs: seq<Value>)
    requires Err !in rs
    ensures |vs| == |rs|
    ensures forall i :: 0 <= i < |rs| ==> rs[i] == Ok(vs[i])
  {
    if rs == [] then [] else assert rs[0] in rs; [rs[0].v] + Values(rs[1..])
  }

  /** What a node other than an identifier, a literal or a comprehension makes
      of the results of its children. */
  function Apply(h: Host, kind: Kind, rs: seq<Res>): Res {
    if kind == Call(Or) then OrRes(rs)
    else if kind == Call(And) then AndRes(rs)
    else if kind == Call(Cond) then CondRes(rs)
    else if kind == Call(NotStrictlyFalse) then Bool(!(|rs| == 1 && rs[0] == FALSE))
    else if Err in rs then Err
    else StrictValue(h, kind, Values(rs))
  }

  // ----- evaluation -----

  datatype Items = Items(vs: seq<Value>) | NotIterable

  function Iterands(h: Host, v: Value): Items {
    match v
    case ListV(s) => Items(s)
    case MapV(m) => Items(h.order(m))
    case _ => NotIterable
  }

  function Eval(h: Host, g: Root, loc: Locals, e: Expr): Res
    decreases e, 2, 0
  {
    match e.kind
    case Ident(name) => Lookup(h, g, loc, name)
    case Literal(v) => Ok(v)
    case Comprehension(_, _, accu) =>
      if |e.kids| != 5 then Err
      else
        var range := Eval(h, g, loc, e.kids[0]);
        if range == Err || Iterands(h, range.v) == NotIterable then Err
        else
          var acc := Fold(h, g, loc, e, Iterands(h, range.v).vs, Eval(h, g, loc, e.kids[1]));
          Eval(h, g, loc[accu := acc], e.kids[4])
    case _ => Apply(h, e.kind, EvalAll(h, g, loc, e.kids))
  }

  function EvalAll(h: Host, g: Root, loc: Locals, es: seq<Expr>): (rs: seq<Res>)
    ensures |rs| == |es|
    ensures forall i :: 0 <= i < |es| ==> rs[i] == Eval(h, g, loc, es[i])
    decreases es, 0, 0
  {
    if es == [] then [] else [Eval(h, g, loc, es[0])] + EvalAll(h, g, loc, es[1..])
  }

  /** The scope of one round of the comprehension `e`. */
  function Round(loc: Locals, e: Expr, item: Value, acc: Res): Locals
    requires e.kind.Comprehension?
  {
    loc[e.kind.iterVar := Ok(item)][e.kind.accuVar := acc]
  }

  /** The loop of the comprehension `e`: it stops when the loop condition is
      false, and goes on when the condition is an error. */
  function Fold(h: Host, g: Root, loc: Locals, e: Expr, items: seq<Value>, acc: Res): Res
    requires e.kind.Comprehension? && |e.kids| == 5
    decreases e, 1, |items|
  {
    if items == [] then acc
    else
      var scope := Round(loc, e, items[0], acc);
      if Eval(h, g, scope, e.kids[2]) == FALSE then acc
      else Fold(h, g, loc, e, items[1..], Eval(h, g, scope, e.kids[3]))
  }
}
