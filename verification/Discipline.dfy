/**
 The rules of `Condition` that look at a variable's parent or grandparent,
 restated by recursion over the tree, which is the form the evaluation proofs
 follow. Each restatement is proved equivalent to the rule.
 */
module Discipline {
  import opened Cel
  import opened Navigation
  import opened Condition

  const ACCU := "@result"

  predicate IsAccu(e: Expr) {
    e == Expr(Ident(ACCU), [])
  }

  /** `@not_strictly_false(@result)`, the loop condition of `all`. */
  predicate WhileTrue(e: Expr) {
    IsCall(e, NotStrictlyFalse, 1) && IsAccu(e.kids[0])
  }

  /** `@not_strictly_false(!@result)`, the loop condition of `exists`. */
  predicate WhileFalse(e: Expr) {
    IsCall(e, NotStrictlyFalse, 1) && IsCall(e.kids[0], Not, 1) && IsAccu(e.kids[0].kids[0])
  }

  predicate AccumulatesWith(e: Expr, fn: Fn) {
    IsCall(e, fn, 2) && IsAccu(e.kids[0])
  }

  /** The loops that the standard macros expand to: `all` and `exists` stop
      early, `exists_one`, `map` and `filter` never do. */
  predicate IsMacroLoop(e: Expr) {
    && e.kind.Comprehension? && |e.kids| == 5
    && e.kind.accuVar == ACCU && e.kind.iterVar != ACCU
    && (|| e.kids[2] == Expr(Literal(BoolV(true)), [])
        || (WhileTrue(e.kids[2]) && AccumulatesWith(e.kids[3], And))
        || (WhileFalse(e.kids[2]) && AccumulatesWith(e.kids[3], Or)))
  }

  /** A tree that CEL's parser and macros can produce: identifiers and literals
      are leaves, and both comprehensions and `@not_strictly_false` come only
      from the standard macros. */
  predicate WellFormed(e: Expr) {
    if e.kind.Ident? || e.kind.Literal? then e.kids == []
    else if e.kind.Comprehension? then
      IsMacroLoop(e) && forall i :: 0 <= i < 5 && i != 2 ==> WellFormed(e.kids[i])
    else
      e.kind != Call(NotStrictlyFalse) && forall i :: 0 <= i < |e.kids| ==> WellFormed(e.kids[i])
  }

  // ----- caller -----

  predicate CallerOk(e: Expr, claims: seq<string>) {
    if CallerClaim(e).Some? then CallerClaim(e).value in claims
    else !IsIdent(e, VAR_CALLER) && forall i :: 0 <= i < |e.kids| ==> CallerOk(e.kids[i], claims)
  }

  lemma {:induction false} CallerOkFromReads(e: Expr, claims: seq<string>)
    requires CallerReadsDeclared(e, claims)
    ensures CallerOk(e, claims)
  {
    assert At(e, []) == e;
    if CallerClaim(e).Some? {
      Below(e, 0, []);
      assert IsIdent(At(e, [0] + []), VAR_CALLER);
    } else {
      forall i | 0 <= i < |e.kids| ensures CallerOk(e.kids[i], claims) {
        forall p | IsPath(e.kids[i], p) && IsIdent(At(e.kids[i], p), VAR_CALLER)
          ensures ReadClaim(e.kids[i], p).Some? && ReadClaim(e.kids[i], p).value in claims
        {
          ReadClaimBelow(e, i, p);
        }
        CallerOkFromReads(e.kids[i], claims);
      }
    }
  }

  lemma ReadClaimBelow(e: Expr, i: nat, p: Path)
    requires i < |e.kids| && IsPath(e.kids[i], p)
    ensures IsPath(e, [i] + p) && At(e, [i] + p) == At(e.kids[i], p)
    ensures ReadClaim(e, [i] + p) == if p == [] then CallerClaim(e) else ReadClaim(e.kids[i], p)
  {
    Below(e, i, p);
    if p != [] {
      ParentOf(e.kids[i], p);
      Below(e, i, ParentPath(p));
    } else {
      assert [i] + p == [i] && ParentPath([i]) == [];
    }
  }

  lemma {:induction false} ReadsFromCallerOk(e: Expr, claims: seq<string>, p: Path)
    requires CallerOk(e, claims) && LeavesOnly(e)
    requires IsPath(e, p) && IsIdent(At(e, p), VAR_CALLER)
    ensures ReadClaim(e, p).Some? && ReadClaim(e, p).value in claims
    decreases p
  {
    if p != [] {
      assert [p[0]] + p[1..] == p;
      ReadClaimBelow(e, p[0], p[1..]);
      if CallerClaim(e).Some? {
        assert p[1..] == [];
      } else if p[1..] != [] {
        ReadsFromCallerOk(e.kids[p[0]], claims, p[1..]);
      }
    }
  }

  // ----- the standard macros -----

  function Accu(): Expr {
    Expr(Ident(ACCU), [])
  }

  function Lit(v: Value): Expr {
    Expr(Literal(v), [])
  }

  function App(fn: Fn, args: seq<Expr>): Expr {
    Expr(Call(fn), args)
  }

  function Loop(x: string, range: Expr, init: Expr, cond: Expr, step: Expr, result: Expr): Expr {
    Expr(Comprehension(x, "", ACCU), [range, init, cond, step, result])
  }

  function AllMacro(range: Expr, x: string, p: Expr): Expr {
    Loop(x, range, Lit(BoolV(true)), App(NotStrictlyFalse, [Accu()]), App(And, [Accu(), p]), Accu())
  }

  function ExistsMacro(range: Expr, x: string, p: Expr): Expr {
    Loop(x, range, Lit(BoolV(false)), App(NotStrictlyFalse, [App(Not, [Accu()])]), App(Or, [Accu(), p]), Accu())
  }

  function ExistsOneMacro(range: Expr, x: string, p: Expr): Expr {
    var one := Lit(NumV(1.0));
    Loop(x, range, Lit(NumV(0.0)), Lit(BoolV(true)), App(Cond, [p, App(Add, [Accu(), one]), Accu()]),
         App(Eq, [Accu(), one]))
  }

  function MapMacro(range: Expr, x: string, t: Expr): Expr {
    Loop(x, range, Expr(List, []), Lit(BoolV(true)), App(Add, [Accu(), Expr(List, [t])]), Accu())
  }

  function FilterMacro(range: Expr, x: string, p: Expr): Expr {
    Loop(x, range, Expr(List, []), Lit(BoolV(true)),
         App(Cond, [p, App(Add, [Accu(), Expr(List, [Expr(Ident(x), [])])]), Accu()]), Accu())
  }

  lemma LoopWellFormed(x: string, range: Expr, init: Expr, cond: Expr, step: Expr, result: Expr)
    requires x != ACCU && WellFormed(range) && WellFormed(init) && WellFormed(step) && WellFormed(result)
    requires || cond == Lit(BoolV(true))
             || (WhileTrue(cond) && AccumulatesWith(step, And))
             || (WhileFalse(cond) && AccumulatesWith(step, Or))
    ensures WellFormed(Loop(x, range, init, cond, step, result))
  {
  }

  /** Trees built with the standard macros are well formed. */
  lemma MacrosAreWellFormed(range: Expr, x: string, p: Expr)
    requires WellFormed(range) && WellFormed(p) && x != ACCU
    ensures WellFormed(AllMacro(range, x, p)) && WellFormed(ExistsMacro(range, x, p))
    ensures WellFormed(ExistsOneMacro(range, x, p))
    ensures WellFormed(MapMacro(range, x, p)) && WellFormed(FilterMacro(range, x, p))
  {
    StoppingMacros(range, x, p);
    CountingMacro(range, x, p);
    CollectingMacros(range, x, p);
  }

  lemma StoppingMacros(range: Expr, x: string, p: Expr)
    requires WellFormed(range) && WellFormed(p) && x != ACCU
    ensures WellFormed(AllMacro(range, x, p)) && WellFormed(ExistsMacro(range, x, p))
  {
    AppWellFormed(And, [Accu(), p]);
    AppWellFormed(Or, [Accu(), p]);
    LoopWellFormed(x, range, Lit(BoolV(true)), App(NotStrictlyFalse, [Accu()]), App(And, [Accu(), p]), Accu());
    LoopWellFormed(x, range, Lit(BoolV(false)), App(NotStrictlyFalse, [App(Not, [Accu()])]), App(Or, [Accu(), p]),
                   Accu());
  }

  lemma CountingMacro(range: Expr, x: string, p: Expr)
    requires WellFormed(range) && WellFormed(p) && x != ACCU
    ensures WellFormed(ExistsOneMacro(range, x, p))
  {
    var one := Lit(NumV(1.0));
    AppWellFormed(Add, [Accu(), one]);
    AppWellFormed(Cond, [p, App(Add, [Accu(), one]), Accu()]);
    AppWellFormed(Eq, [Accu(), one]);
    LoopWellFormed(x, range, Lit(NumV(0.0)), Lit(BoolV(true)), App(Cond, [p, App(Add, [Accu(), one]), Accu()]),
                   App(Eq, [Accu(), one]));
  }

  lemma CollectingMacros(range: Expr, x: string, p: Expr)
    requires WellFormed(range) && WellFormed(p) && x != ACCU
    ensures WellFormed(MapMacro(range, x, p)) && WellFormed(FilterMacro(range, x, p))
  {
    var item := Expr(Ident(x), []);
    Appended(p);
    Appended(item);
    AppWellFormed(Cond, [p, App(Add, [Accu(), Expr(List, [item])]), Accu()]);
    LoopWellFormed(x, range, Expr(List, []), Lit(BoolV(true)), App(Add, [Accu(), Expr(List, [p])]), Accu());
    LoopWellFormed(x, range, Expr(List, []), Lit(BoolV(true)),
                   App(Cond, [p, App(Add, [Accu(), Expr(List, [item])]), Accu()]), Accu());
  }

  lemma Appended(t: Expr)
    requires WellFormed(t)
    ensures WellFormed(App(Add, [Accu(), Expr(List, [t])]))
  {
    assert WellFormed(Expr(List, [t]));
    AppWellFormed(Add, [Accu(), Expr(List, [t])]);
  }

  lemma AppWellFormed(fn: Fn, args: seq<Expr>)
    requires fn != NotStrictlyFalse && forall i :: 0 <= i < |args| ==> WellFormed(args[i])
    ensures WellFormed(App(fn, args))
  {
  }

  /** Any other node is well formed when its children are. */
  lemma NodeWellFormed(kind: Kind, kids: seq<Expr>)
    requires !kind.Ident? && !kind.Literal? && !kind.Comprehension? && kind != Call(NotStrictlyFalse)
    ensures WellFormed(Expr(kind, kids)) <==> forall i :: 0 <= i < |kids| ==> WellFormed(kids[i])
  {
  }

  /** Identifiers and literals have no children. */
  predicate LeavesOnly(e: Expr) {
    (e.kind.Ident? || e.kind.Literal? ==> e.kids == []) && forall i :: 0 <= i < |e.kids| ==> LeavesOnly(e.kids[i])
  }

  lemma {:induction false} WellFormedLeaves(e: Expr)
    requires WellFormed(e)
    ensures LeavesOnly(e)
  {
    forall i | 0 <= i < |e.kids| ensures LeavesOnly(e.kids[i]) {
      if WellFormed(e.kids[i]) {
        WellFormedLeaves(e.kids[i]);
      }
    }
  }

  /** Every caller identifier has a parent that reads a declared claim, iff the
      recursive check says so. */
  lemma CallerRuleIsStructural(e: Expr, claims: seq<string>)
    requires WellFormed(e)
    ensures CallerReadsDeclared(e, claims) <==> CallerOk(e, claims)
  {
    if CallerReadsDeclared(e, claims) {
      CallerOkFromReads(e, claims);
    }
    if CallerOk(e, claims) {
      WellFormedLeaves(e);
      forall p | IsPath(e, p) && IsIdent(At(e, p), VAR_CALLER)
        ensures ReadClaim(e, p).Some? && ReadClaim(e, p).value in claims
      {
        ReadsFromCallerOk(e, claims, p);
      }
    }
  }

  // ----- request -----

  /** request.resource == "literal" in either order, or request.resource in
      a list of literals. */
  predicate LiteralComparison(e: Expr) {
    || (IsCall(e, Eq, 2) && IsResourceRef(e.kids[0]) && IsStringLiteral(e.kids[1]))
    || (IsCall(e, Eq, 2) && IsStringLiteral(e.kids[0]) && IsResourceRef(e.kids[1]))
    || (IsCall(e, In, 2) && IsResourceRef(e.kids[0]) && StringLiteralList(e.kids[1]))
  }

  predicate RequestOk(e: Expr) {
    LiteralComparison(e) ||
    (!IsIdent(e, VAR_REQUEST) && forall i :: 0 <= i < |e.kids| ==> RequestOk(e.kids[i]))
  }

  lemma ComparedBelow(e: Expr, i: nat, p: Path)
    requires i < |e.kids| && IsPath(e.kids[i], p)
    ensures IsPath(e, [i] + p) && At(e, [i] + p) == At(e.kids[i], p)
    ensures |p| >= 2 ==> ComparedToLiteral(e, [i] + p) == ComparedToLiteral(e.kids[i], p)
    ensures |p| == 1 && ComparedToLiteral(e, [i] + p) ==> LiteralComparison(e)
    ensures p == [] ==> !ComparedToLiteral(e, [i] + p)
  {
    Below(e, i, p);
    if p != [] {
      ParentOf(e.kids[i], p);
      Below(e, i, ParentPath(p));
      if |p| >= 2 {
        ParentOf(e.kids[i], ParentPath(p));
        Below(e, i, ParentPath(ParentPath(p)));
      } else {
        assert ParentPath(p) == [] && ParentPath([i] + p) == [i] && ParentPath([i]) == [];
      }
    }
  }

  lemma {:induction false} RequestOkFromComparisons(e: Expr)
    requires RequestComparedToLiterals(e)
    ensures RequestOk(e)
  {
    assert At(e, []) == e;
    if !LiteralComparison(e) {
      forall i | 0 <= i < |e.kids| ensures RequestOk(e.kids[i]) {
        forall p | IsPath(e.kids[i], p) && IsIdent(At(e.kids[i], p), VAR_REQUEST)
          ensures ComparedToLiteral(e.kids[i], p)
        {
          ComparedBelow(e, i, p);
        }
        RequestOkFromComparisons(e.kids[i]);
      }
    }
  }

  lemma {:induction false} ComparisonsFromRequestOk(e: Expr, p: Path)
    requires RequestOk(e) && LeavesOnly(e)
    requires IsPath(e, p) && IsIdent(At(e, p), VAR_REQUEST)
    ensures ComparedToLiteral(e, p)
    decreases p
  {
    assert p != [];
    assert [p[0]] + p[1..] == p;
    var kid, q := e.kids[p[0]], p[1..];
    ComparedBelow(e, p[0], q);
    if LiteralComparison(e) {
      assert q != [];
      assert [q[0]] + q[1..] == q;
      Below(kid, q[0], q[1..]);
      assert LeavesOnly(kid) && LeavesOnly(kid.kids[q[0]]);
      assert q == [q[0]];
      assert ParentPath(p) == [p[0]] && ParentPath([p[0]]) == [];
      assert At(e, [p[0]]) == kid;
    } else {
      ComparisonsFromRequestOk(kid, q);
    }
  }

  lemma RequestRuleIsStructural(e: Expr)
    requires WellFormed(e)
    ensures RequestComparedToLiterals(e) <==> RequestOk(e)
  {
    if RequestComparedToLiterals(e) {
      RequestOkFromComparisons(e);
    }
    if RequestOk(e) {
      WellFormedLeaves(e);
      forall p | IsPath(e, p) && IsIdent(At(e, p), VAR_REQUEST) ensures ComparedToLiteral(e, p) {
        ComparisonsFromRequestOk(e, p);
      }
    }
  }
}
