/**
 The policy engine: compiles the configured policies once and decides each
 request by evaluating every policy of the caller's issuer once per distinct
 resource.
 */
module Engine {
  import opened Wrappers
  import opened Text
  import opened Perm
  import opened Cel
  import opened Config
  import opened Condition

  datatype CompiledPolicy = CompiledPolicy(name: string, condition: Expr, grant: Permissions)

  datatype Engine = Engine(policies: map<string, seq<CompiledPolicy>>, maxRepositories: int)
  {
    /** An issuer without policies has none. */
    function PoliciesOf(issuer: string): seq<CompiledPolicy> {
      if issuer in policies then policies[issuer] else []
    }
  }

  /** What evaluation depends on besides the request: the permission catalog,
      CEL's host, and which evaluations exceed the cost limit. */
  datatype Runtime = Runtime(cat: Catalog, host: Host, costExceeded: (Expr, Root) -> bool)

  datatype EngineError = UnknownIssuer(policy: string) | Rejected(policy: string, why: Rejection)

  // ----- construction -----

  function Compiled(p: Policy): CompiledPolicy {
    CompiledPolicy(p.name, p.condition, p.grant)
  }

  /** The policies of one issuer, in configuration order. */
  function Selected(policies: seq<Policy>, issuer: string): seq<CompiledPolicy> {
    if policies == [] then []
    else
      var front, last := policies[..|policies| - 1], policies[|policies| - 1];
      Selected(front, issuer) + (if last.issuer == issuer then [Compiled(last)] else [])
  }

  ghost predicate Admissible(issuers: seq<Issuer>, p: Policy) {
    var iss := IssuerNamed(issuers, p.issuer);
    iss.Some? && Accepted(p.condition, iss.value)
  }

  ghost predicate Holds(e: Engine, policies: seq<Policy>) {
    forall issuer :: e.PoliciesOf(issuer) == Selected(policies, issuer)
  }

  function Extended(e: Engine, p: Policy): Engine {
    e.(policies := e.policies[p.issuer := e.PoliciesOf(p.issuer) + [Compiled(p)]])
  }

  lemma HoldsStep(e: Engine, policies: seq<Policy>, p: Policy)
    requires Holds(e, policies)
    ensures Holds(Extended(e, p), policies + [p])
  {
    assert (policies + [p])[..|policies|] == policies;
  }

  method CheckPolicy(issuers: seq<Issuer>, p: Policy) returns (error: Option<EngineError>)
    ensures error.None? <==> Admissible(issuers, p)
  {
    var iss := IssuerNamed(issuers, p.issuer);
    if iss.None? {
      return Some(UnknownIssuer(p.name));
    }
    var why := CheckCondition(p.condition, iss.value);
    if why.Some? {
      return Some(Rejected(p.name, why.value));
    }
    return None;
  }

  /** Succeeds exactly when every policy names a configured issuer that accepts
      its condition. */
  method New(cfg: Configuration) returns (r: Result<Engine, EngineError>)
    ensures r.Success? <==> forall p :: p in cfg.policies ==> Admissible(cfg.issuers, p)
    ensures r.Success? ==> Holds(r.value, cfg.policies) && r.value.maxRepositories == cfg.maxRepositories
  {
    var e := Engine(map[], cfg.maxRepositories);
    for i := 0 to |cfg.policies|
      invariant forall p :: p in cfg.policies[..i] ==> Admissible(cfg.issuers, p)
      invariant Holds(e, cfg.policies[..i]) && e.maxRepositories == cfg.maxRepositories
    {
      var p := cfg.policies[i];
      var error := CheckPolicy(cfg.issuers, p);
      if error.Some? {
        assert p in cfg.policies;
        return Failure(error.value);
      }
      assert cfg.policies[..i + 1] == cfg.policies[..i] + [p];
      HoldsStep(e, cfg.policies[..i], p);
      e := Extended(e, p);
    }
    assert cfg.policies[..|cfg.policies|] == cfg.policies;
    return Success(e);
  }

  lemma {:induction false} SelectedExactly(policies: seq<Policy>, issuer: string, c: CompiledPolicy)
    ensures c in Selected(policies, issuer) <==> exists p :: p in policies && p.issuer == issuer && Compiled(p) == c
  {
    if policies != [] {
      var front, last := policies[..|policies| - 1], policies[|policies| - 1];
      SelectedExactly(front, issuer, c);
      assert policies == front + [last];
      if c in Selected(policies, issuer) {
        assert last.issuer == issuer && Compiled(last) == c ==> last in policies;
      }
    }
  }

  // ----- one policy, one resource -----

  datatype Verdict = Grants | Denies | Skips

  /** A condition matches when it evaluates to true; an error, a value that is
      not a bool and an exceeded cost limit all skip the policy. */
  function Judge(rt: Runtime, p: CompiledPolicy, g: Root): (v: Verdict)
    ensures v == Grants <==> !rt.costExceeded(p.condition, g) && Eval(rt.host, g, map[], p.condition) == TRUE
    ensures v == Denies <==> !rt.costExceeded(p.condition, g) && Eval(rt.host, g, map[], p.condition) == FALSE
  {
    if rt.costExceeded(p.condition, g) then Skips
    else
      match Eval(rt.host, g, map[], p.condition)
      case Ok(BoolV(b)) => if b then Grants else Denies
      case _ => Skips
  }

  // ----- one resource -----

  function GrantOf(rt: Runtime, ps: seq<CompiledPolicy>, g: Root): Permissions {
    if ps == [] then map[]
    else
      var front, last := ps[..|ps| - 1], ps[|ps| - 1];
      var prior := GrantOf(rt, front, g);
      if Judge(rt, last, g) == Grants then Join(prior, Normalized(rt.cat, last.grant)) else prior
  }

  function NamesAt(rt: Runtime, ps: seq<CompiledPolicy>, g: Root, v: Verdict): set<string> {
    set p | p in ps && Judge(rt, p, g) == v :: p.name
  }

  ghost predicate Covered(rt: Runtime, ps: seq<CompiledPolicy>, g: Root, required: Permissions) {
    (exists p :: p in ps && Judge(rt, p, g) == Grants) && Covers(rt.cat, required, GrantOf(rt, ps, g))
  }

  /** What the loop over the policies has established for those in `ps`. */
  ghost predicate Evaluated(rt: Runtime, ps: seq<CompiledPolicy>, g: Root, grant: Permissions, some: bool,
                            matched: set<string>, skipped: set<string>)
  {
    && grant == GrantOf(rt, ps, g)
    && (some <==> exists p :: p in ps && Judge(rt, p, g) == Grants)
    && matched == NamesAt(rt, ps, g, Grants) && skipped == NamesAt(rt, ps, g, Skips)
  }

  lemma EvaluatedStep(rt: Runtime, ps: seq<CompiledPolicy>, p: CompiledPolicy, g: Root, grant: Permissions, some: bool,
                      matched: set<string>, skipped: set<string>)
    requires Evaluated(rt, ps, g, grant, some, matched, skipped)
    ensures var v := Judge(rt, p, g);
            Evaluated(rt, ps + [p], g, if v == Grants then Join(grant, Normalized(rt.cat, p.grant)) else grant,
                      some || v == Grants, if v == Grants then matched + {p.name} else matched,
                      if v == Skips then skipped + {p.name} else skipped)
  {
    assert (ps + [p])[..|ps|] == ps;
    NamesStep(rt, ps, p, g);
    assert p in ps + [p] && forall q :: q in ps + [p] <==> q in ps || q == p;
  }

  method EvaluatePolicies(rt: Runtime, ps: seq<CompiledPolicy>, g: Root)
    returns (grant: Permissions, some: bool, matched: set<string>, skipped: set<string>)
    ensures Evaluated(rt, ps, g, grant, some, matched, skipped)
  {
    grant, some, matched, skipped := map[], false, {}, {};
    for i := 0 to |ps|
      invariant Evaluated(rt, ps[..i], g, grant, some, matched, skipped)
    {
      var p := ps[i];
      assert ps[..i + 1] == ps[..i] + [p];
      EvaluatedStep(rt, ps[..i], p, g, grant, some, matched, skipped);
      var verdict := Judge(rt, p, g);
      if verdict == Skips {
        skipped := skipped + {p.name};
        continue;
      }
      if verdict == Grants {
        some := true;
        matched := matched + {p.name};
        grant := MergePermissions(rt.cat, grant, p.grant);
      }
    }
    assert ps[..|ps|] == ps;
  }

  method EvaluateResource(rt: Runtime, ps: seq<CompiledPolicy>, g: Root, required: Permissions)
    returns (grant: Permissions, covered: bool, matched: set<string>, skipped: set<string>)
    ensures grant == GrantOf(rt, ps, g)
    ensures covered == Covered(rt, ps, g, required)
    ensures matched == NamesAt(rt, ps, g, Grants) && skipped == NamesAt(rt, ps, g, Skips)
  {
    var some;
    grant, some, matched, skipped := EvaluatePolicies(rt, ps, g);
    var enough := CoversPermissions(rt.cat, required, grant);
    covered := some && enough;
  }

  lemma NamesStep(rt: Runtime, ps: seq<CompiledPolicy>, p: CompiledPolicy, g: Root)
    ensures forall v :: NamesAt(rt, ps + [p], g, v) ==
                        NamesAt(rt, ps, g, v) + if Judge(rt, p, g) == v then {p.name} else {}
  {
    forall v
      ensures NamesAt(rt, ps + [p], g, v) == NamesAt(rt, ps, g, v) + if Judge(rt, p, g) == v then {p.name} else {}
    {
      forall n | n in NamesAt(rt, ps + [p], g, v)
        ensures n in NamesAt(rt, ps, g, v) + if Judge(rt, p, g) == v then {p.name} else {}
      {
        var q :| q in ps + [p] && Judge(rt, q, g) == v && q.name == n;
        assert q in ps || q == p;
      }
      assert forall q :: q in ps ==> q in ps + [p];
      assert p in ps + [p];
    }
  }

  // ----- a request -----

  datatype Decision = Decision(
    allowed: bool,
    matched: seq<string>,
    skipped: seq<string>,
    grants: map<string, Permissions>,
    uncovered: seq<string>)

  function Names(rt: Runtime, ps: seq<CompiledPolicy>, caller: map<string, string>, resources: set<string>, v: Verdict)
    : set<string>
  {
    set r, n | r in resources && n in NamesAt(rt, ps, Root(caller, r), v) :: n
  }

  ghost function Uncovered(rt: Runtime, ps: seq<CompiledPolicy>, caller: map<string, string>, resources: set<string>,
                           required: Permissions): set<string>
  {
    set r | r in resources && !Covered(rt, ps, Root(caller, r), required)
  }

  /** The one decision for a set of resources; see `DecisionIsUnique`. */
  ghost predicate IsDecision(rt: Runtime, ps: seq<CompiledPolicy>, caller: map<string, string>, resources: set<string>,
                             required: Permissions, d: Decision)
  {
    && d.grants.Keys == resources
    && (forall r :: r in resources ==> d.grants[r] == GrantOf(rt, ps, Root(caller, r)))
    && IsSortedSet(d.matched, Names(rt, ps, caller, resources, Grants))
    && IsSortedSet(d.skipped, Names(rt, ps, caller, resources, Skips))
    && IsSortedSet(d.uncovered, Uncovered(rt, ps, caller, resources, required))
    && d.allowed == (resources != {} && Uncovered(rt, ps, caller, resources, required) == {})
  }

  function ToSet(s: seq<string>): set<string> {
    set x | x in s
  }

  /** What the loop over the resources has established for those in `done`. */
  ghost predicate Progress(rt: Runtime, ps: seq<CompiledPolicy>, caller: map<string, string>, required: Permissions,
                           done: set<string>, grants: map<string, Permissions>, matched: set<string>,
                           skipped: set<string>, uncovered: seq<string>)
  {
    && grants.Keys == done
    && (forall r :: r in done ==> grants[r] == GrantOf(rt, ps, Root(caller, r)))
    && matched == Names(rt, ps, caller, done, Grants)
    && skipped == Names(rt, ps, caller, done, Skips)
    && Distinct(uncovered) && ToSet(uncovered) == Uncovered(rt, ps, caller, done, required)
  }

  method EvaluateEach(rt: Runtime, ps: seq<CompiledPolicy>, caller: map<string, string>, resources: seq<string>,
                      required: Permissions)
    returns (grants: map<string, Permissions>, matched: set<string>, skipped: set<string>, uncovered: seq<string>)
    ensures Progress(rt, ps, caller, required, ToSet(resources), grants, matched, skipped, uncovered)
  {
    grants, matched, skipped, uncovered := map[], {}, {}, [];
    ghost var done: set<string> := {};
    for i := 0 to |resources|
      invariant done == ToSet(resources[..i])
      invariant Progress(rt, ps, caller, required, done, grants, matched, skipped, uncovered)
    {
      var r := resources[i];
      PrefixSet(resources, i);
      if r in grants { continue; }
      var grant, covered, ms, ss := EvaluateResource(rt, ps, Root(caller, r), required);
      ProgressStep(rt, ps, caller, required, done, grants, matched, skipped, uncovered, r);
      if !covered {
        uncovered := uncovered + [r];
      }
      matched, skipped := matched + ms, skipped + ss;
      grants := grants[r := grant];
      done := done + {r};
    }
    assert resources[..|resources|] == resources;
  }

  /** An oversized list, duplicates included, is rejected before anything is
      evaluated. */
  method Evaluate(rt: Runtime, e: Engine, issuer: string, caller: map<string, string>, resources: seq<string>,
                  required: Permissions) returns (r: Option<Decision>)
    ensures r.None? <==> |resources| > e.maxRepositories
    ensures r.Some? ==> IsDecision(rt, e.PoliciesOf(issuer), caller, ToSet(resources), required, r.value)
  {
    if |resources| > e.maxRepositories {
      return None;
    }
    var ps := e.PoliciesOf(issuer);
    var grants, matched, skipped, uncovered := EvaluateEach(rt, ps, caller, resources, required);
    var us := Sort(uncovered);
    var ms := SortedSet(matched);
    var ss := SortedSet(skipped);
    EmptySorted(us, ToSet(uncovered));
    assert |grants| > 0 <==> grants.Keys != {};
    return Some(Decision(|grants| > 0 && |us| == 0, ms, ss, grants, us));
  }

  lemma PrefixSet(s: seq<string>, i: nat)
    requires i < |s|
    ensures ToSet(s[..i + 1]) == ToSet(s[..i]) + {s[i]}
  {
    assert s[..i + 1] == s[..i] + [s[i]];
  }

  lemma EmptySorted(s: seq<string>, elements: set<string>)
    requires IsSortedSet(s, elements)
    ensures s == [] <==> elements == {}
  {
    SomeElement(s);
  }

  lemma ProgressStep(rt: Runtime, ps: seq<CompiledPolicy>, caller: map<string, string>, required: Permissions,
                     done: set<string>, grants: map<string, Permissions>, matched: set<string>, skipped: set<string>,
                     uncovered: seq<string>, r: string)
    requires Progress(rt, ps, caller, required, done, grants, matched, skipped, uncovered) && r !in done
    ensures var g := Root(caller, r);
            Progress(rt, ps, caller, required, done + {r}, grants[r := GrantOf(rt, ps, g)],
                     matched + NamesAt(rt, ps, g, Grants), skipped + NamesAt(rt, ps, g, Skips),
                     if Covered(rt, ps, g, required) then uncovered else uncovered + [r])
  {
    ResourceStep(rt, ps, caller, done, r, required);
    AppendDistinct(uncovered, r, Uncovered(rt, ps, caller, done, required));
  }

  lemma AppendDistinct(s: seq<string>, x: string, elements: set<string>)
    requires Distinct(s) && ToSet(s) == elements && x !in elements
    ensures Distinct(s + [x]) && ToSet(s + [x]) == elements + {x}
  {
    assert forall i :: 0 <= i < |s| ==> s[i] in ToSet(s);
  }

  lemma ResourceStep(rt: Runtime, ps: seq<CompiledPolicy>, caller: map<string, string>, resources: set<string>,
                     r: string, required: Permissions)
    ensures forall v :: Names(rt, ps, caller, resources + {r}, v) ==
                        Names(rt, ps, caller, resources, v) + NamesAt(rt, ps, Root(caller, r), v)
    ensures Uncovered(rt, ps, caller, resources + {r}, required) ==
            Uncovered(rt, ps, caller, resources, required) +
            if Covered(rt, ps, Root(caller, r), required) then {} else {r}
  {
  }

  // ----- what a decision is worth -----

  /** The grant of a resource is the least upper bound of the normalized grants
      of the policies that match it. */
  lemma {:induction false} GrantIsLeastUpperBound(rt: Runtime, ps: seq<CompiledPolicy>, g: Root)
    ensures IsNormal(rt.cat, GrantOf(rt, ps, g))
    ensures forall p :: p in ps && Judge(rt, p, g) == Grants ==> Leq(Normalized(rt.cat, p.grant), GrantOf(rt, ps, g))
    ensures forall upper :: IsBound(rt, ps, g, upper) ==> Leq(GrantOf(rt, ps, g), upper)
  {
    if ps != [] {
      var front, last := ps[..|ps| - 1], ps[|ps| - 1];
      var prior := GrantOf(rt, front, g);
      GrantIsLeastUpperBound(rt, front, g);
      assert ps == front + [last];
      JoinIsLeast(rt.cat, prior, Normalized(rt.cat, last.grant));
      forall p | p in ps && Judge(rt, p, g) == Grants ensures Leq(Normalized(rt.cat, p.grant), GrantOf(rt, ps, g)) {
        if p in front {
          LeqTransitive(Normalized(rt.cat, p.grant), prior, GrantOf(rt, ps, g));
        } else {
          assert p == last;
        }
      }
      forall upper | IsBound(rt, ps, g, upper) ensures Leq(GrantOf(rt, ps, g), upper) {
        assert last in ps;
        assert IsBound(rt, front, g, upper);
      }
    }
  }

  ghost predicate IsBound(rt: Runtime, ps: seq<CompiledPolicy>, g: Root, upper: Permissions) {
    forall p :: p in ps && Judge(rt, p, g) == Grants ==> Leq(Normalized(rt.cat, p.grant), upper)
  }

  /** Only which policies there are matters, not their order or repetitions. */
  lemma GrantIgnoresOrder(rt: Runtime, ps: seq<CompiledPolicy>, qs: seq<CompiledPolicy>, g: Root)
    requires SameElements(ps, qs)
    ensures GrantOf(rt, ps, g) == GrantOf(rt, qs, g)
  {
    GrantIsLeastUpperBound(rt, ps, g);
    GrantIsLeastUpperBound(rt, qs, g);
    assert IsBound(rt, ps, g, GrantOf(rt, qs, g));
    assert IsBound(rt, qs, g, GrantOf(rt, ps, g));
    LeqAntisymmetric(rt.cat, GrantOf(rt, ps, g), GrantOf(rt, qs, g));
  }

  /** The whole decision, its lists included, depends only on the set of the
      issuer's policies and the set of requested resources. */
  lemma DecisionIsUnique(rt: Runtime, ps: seq<CompiledPolicy>, qs: seq<CompiledPolicy>, caller: map<string, string>,
                         resources: set<string>, required: Permissions, d: Decision, c: Decision)
    requires SameElements(ps, qs)
    requires IsDecision(rt, ps, caller, resources, required, d)
    requires IsDecision(rt, qs, caller, resources, required, c)
    ensures d == c
  {
    forall r | r in resources ensures GrantOf(rt, ps, Root(caller, r)) == GrantOf(rt, qs, Root(caller, r)) {
      GrantIgnoresOrder(rt, ps, qs, Root(caller, r));
    }
    assert d.grants == c.grants;
    forall r, v ensures NamesAt(rt, ps, Root(caller, r), v) == NamesAt(rt, qs, Root(caller, r), v) {
    }
    forall v ensures Names(rt, ps, caller, resources, v) == Names(rt, qs, caller, resources, v) {
    }
    assert Uncovered(rt, ps, caller, resources, required) == Uncovered(rt, qs, caller, resources, required);
    SortedSetIsUnique(d.matched, c.matched, Names(rt, ps, caller, resources, Grants));
    SortedSetIsUnique(d.skipped, c.skipped, Names(rt, ps, caller, resources, Skips));
    SortedSetIsUnique(d.uncovered, c.uncovered, Uncovered(rt, ps, caller, resources, required));
  }

  /** Policies of other issuers cannot influence a decision, nor can the order
      of this issuer's. */
  lemma OtherIssuersAreIrrelevant(rt: Runtime, a: Engine, b: Engine, ps: seq<Policy>, qs: seq<Policy>, issuer: string,
                                  caller: map<string, string>, resources: set<string>, required: Permissions,
                                  d: Decision, c: Decision)
    requires Holds(a, ps) && Holds(b, qs)
    requires forall p: Policy :: p.issuer == issuer ==> (p in ps <==> p in qs)
    requires IsDecision(rt, a.PoliciesOf(issuer), caller, resources, required, d)
    requires IsDecision(rt, b.PoliciesOf(issuer), caller, resources, required, c)
    ensures d == c
  {
    forall p ensures p in Selected(ps, issuer) <==> p in Selected(qs, issuer) {
      SelectedExactly(ps, issuer, p);
      SelectedExactly(qs, issuer, p);
    }
    DecisionIsUnique(rt, a.PoliciesOf(issuer), b.PoliciesOf(issuer), caller, resources, required, d, c);
  }

  /** A request is decided resource by resource: it is allowed exactly when it
      is not empty and every resource is allowed on its own, with the same
      grant as on its own. */
  lemma DecisionIsPerResource(rt: Runtime, ps: seq<CompiledPolicy>, caller: map<string, string>, resources: set<string>,
                              required: Permissions, d: Decision, alone: map<string, Decision>)
    requires IsDecision(rt, ps, caller, resources, required, d)
    requires alone.Keys == resources
    requires forall r :: r in resources ==> IsDecision(rt, ps, caller, {r}, required, alone[r])
    ensures d.allowed <==> resources != {} && forall r :: r in resources ==> alone[r].allowed
    ensures forall r :: r in resources ==> r in alone[r].grants && d.grants[r] == alone[r].grants[r]
  {
    forall r | r in resources
      ensures alone[r].allowed <==> Covered(rt, ps, Root(caller, r), required)
      ensures r in alone[r].grants && alone[r].grants[r] == d.grants[r]
    {
      AloneIsCovered(rt, ps, caller, r, required, alone[r]);
    }
    AllowedIffAllCovered(rt, ps, caller, resources, required);
  }

  lemma AloneIsCovered(rt: Runtime, ps: seq<CompiledPolicy>, caller: map<string, string>, r: string,
                       required: Permissions, d: Decision)
    requires IsDecision(rt, ps, caller, {r}, required, d)
    ensures d.allowed <==> Covered(rt, ps, Root(caller, r), required)
    ensures r in d.grants && d.grants[r] == GrantOf(rt, ps, Root(caller, r))
  {
    AllowedIffAllCovered(rt, ps, caller, {r}, required);
    assert r in {r};
  }

  lemma AllowedIffAllCovered(rt: Runtime, ps: seq<CompiledPolicy>, caller: map<string, string>, resources: set<string>,
                             required: Permissions)
    ensures Uncovered(rt, ps, caller, resources, required) == {} <==>
            forall r :: r in resources ==> Covered(rt, ps, Root(caller, r), required)
  {
    var u := Uncovered(rt, ps, caller, resources, required);
    if u == {} {
      forall r | r in resources ensures Covered(rt, ps, Root(caller, r), required) {
        assert r !in u;
      }
    }
  }

  /** No grant exceeds the aggregate of all configured grants. */
  lemma GrantWithinAggregate(rt: Runtime, e: Engine, cfg: Configuration, issuer: string, g: Root)
    requires Holds(e, cfg.policies)
    ensures Leq(GrantOf(rt, e.PoliciesOf(issuer), g), JoinedGrants(rt.cat, cfg.policies))
  {
    var ps, agg := e.PoliciesOf(issuer), JoinedGrants(rt.cat, cfg.policies);
    GrantIsLeastUpperBound(rt, ps, g);
    JoinedGrantsBound(rt.cat, cfg.policies);
    forall c | c in ps ensures Leq(Normalized(rt.cat, c.grant), agg) {
      SelectedExactly(cfg.policies, issuer, c);
    }
    assert IsBound(rt, ps, g, agg);
  }

  // ----- a decision in terms of the configuration -----

  /** A configured policy of the issuer that says yes to this request. */
  ghost predicate SaysYes(rt: Runtime, policies: seq<Policy>, issuer: string, g: Root, p: Policy) {
    && p in policies && p.issuer == issuer
    && !rt.costExceeded(p.condition, g) && Eval(rt.host, g, map[], p.condition) == TRUE
  }

  /** A policy that says neither yes nor no: too costly, an error, or a value
      that is not a bool. */
  ghost predicate SaysNothing(rt: Runtime, policies: seq<Policy>, issuer: string, g: Root, p: Policy) {
    && p in policies && p.issuer == issuer
    && (rt.costExceeded(p.condition, g) || forall b :: Eval(rt.host, g, map[], p.condition) != Bool(b))
  }

  lemma MatchesExactly(rt: Runtime, policies: seq<Policy>, issuer: string, g: Root, p: Policy)
    requires p in policies && p.issuer == issuer
    ensures Compiled(p) in Selected(policies, issuer)
    ensures Compiled(p).name == p.name && Compiled(p).grant == p.grant
    ensures Judge(rt, Compiled(p), g) == Grants <==> SaysYes(rt, policies, issuer, g, p)
    ensures Judge(rt, Compiled(p), g) == Skips <==> SaysNothing(rt, policies, issuer, g, p)
  {
    SelectedExactly(policies, issuer, Compiled(p));
    assert Eval(rt.host, g, map[], p.condition) != TRUE && Eval(rt.host, g, map[], p.condition) != FALSE ==>
      forall b :: Eval(rt.host, g, map[], p.condition) != Bool(b);
    if forall b :: Eval(rt.host, g, map[], p.condition) != Bool(b) {
      assert Eval(rt.host, g, map[], p.condition) != Bool(true);
      assert Eval(rt.host, g, map[], p.condition) != Bool(false);
    }
  }

  lemma MatchSource(rt: Runtime, policies: seq<Policy>, issuer: string, g: Root, c: CompiledPolicy) returns (p: Policy)
    requires c in Selected(policies, issuer)
    ensures p in policies && p.issuer == issuer && Compiled(p) == c && c.name == p.name && c.grant == p.grant
    ensures Judge(rt, c, g) == Grants <==> SaysYes(rt, policies, issuer, g, p)
    ensures Judge(rt, c, g) == Skips <==> SaysNothing(rt, policies, issuer, g, p)
  {
    SelectedExactly(policies, issuer, c);
    p :| p in policies && p.issuer == issuer && Compiled(p) == c;
    MatchesExactly(rt, policies, issuer, g, p);
  }

  /** A policy that says yes lists `k` at `level`. */
  ghost predicate GrantsLevel(rt: Runtime, policies: seq<Policy>, issuer: string, g: Root, k: string, level: string) {
    exists p :: SaysYes(rt, policies, issuer, g, p) && k in p.grant && p.grant[k] == level
  }

  /** Each level of a grant comes from a policy that matches. */
  lemma {:induction false} GrantHasSource(rt: Runtime, ps: seq<CompiledPolicy>, g: Root, k: string)
    returns (c: CompiledPolicy)
    requires k in GrantOf(rt, ps, g)
    ensures c in ps && Judge(rt, c, g) == Grants && k in c.grant && c.grant[k] == GrantOf(rt, ps, g)[k]
  {
    var front, last := ps[..|ps| - 1], ps[|ps| - 1];
    var prior := GrantOf(rt, front, g);
    if k in prior && GrantOf(rt, ps, g)[k] == prior[k] {
      c := GrantHasSource(rt, front, g, k);
      assert ps == front + [last];
    } else {
      c := last;
    }
  }

  /** The grant of a resource holds a key of the catalog exactly when some
      policy that says yes lists it at a valid level, and then at the highest
      of these levels. */
  lemma GrantExactly(rt: Runtime, e: Engine, policies: seq<Policy>, issuer: string, g: Root, k: string)
    requires Holds(e, policies)
    ensures var grant := GrantOf(rt, e.PoliciesOf(issuer), g);
            && (k in grant <==>
                  k in rt.cat && exists level :: GrantsLevel(rt, policies, issuer, g, k, level) && IsLevel(level))
            && (k in grant ==> IsLevel(grant[k]) && GrantsLevel(rt, policies, issuer, g, k, grant[k]))
            && (k in grant ==>
                  forall level :: GrantsLevel(rt, policies, issuer, g, k, level) && IsLevel(level) ==>
                    AtLeast(grant[k], level))
  {
    var ps := e.PoliciesOf(issuer);
    GrantIsLeastUpperBound(rt, ps, g);
    if k in GrantOf(rt, ps, g) {
      var c := GrantHasSource(rt, ps, g, k);
      var p := MatchSource(rt, policies, issuer, g, c);
      LevelsExactly(GrantOf(rt, ps, g)[k], "read");
      assert GrantsLevel(rt, policies, issuer, g, k, GrantOf(rt, ps, g)[k]);
    }
    forall level | k in rt.cat && GrantsLevel(rt, policies, issuer, g, k, level) && IsLevel(level)
      ensures k in GrantOf(rt, ps, g) && AtLeast(GrantOf(rt, ps, g)[k], level)
    {
      var p :| SaysYes(rt, policies, issuer, g, p) && k in p.grant && p.grant[k] == level;
      GrantReaches(rt, policies, issuer, g, p, k);
    }
  }

  lemma GrantReaches(rt: Runtime, policies: seq<Policy>, issuer: string, g: Root, p: Policy, k: string)
    requires SaysYes(rt, policies, issuer, g, p) && k in rt.cat && k in p.grant && IsLevel(p.grant[k])
    ensures var grant := GrantOf(rt, Selected(policies, issuer), g); k in grant && AtLeast(grant[k], p.grant[k])
  {
    var ps := Selected(policies, issuer);
    MatchesExactly(rt, policies, issuer, g, p);
    GrantIsLeastUpperBound(rt, ps, g);
    LevelsExactly(p.grant[k], p.grant[k]);
    assert k in Normalized(rt.cat, p.grant);
    LevelsExactly(GrantOf(rt, ps, g)[k], p.grant[k]);
  }

  /** The catalog knows `k`, and some policy that says yes grants it at a level
      at least as high as `need`. */
  ghost predicate KeyAllowed(rt: Runtime, policies: seq<Policy>, issuer: string, g: Root, k: string, need: string) {
    k in rt.cat && exists level :: GrantsLevel(rt, policies, issuer, g, k, level) && AtLeast(level, need)
  }

  /** What a resource needs to be allowed: some policy that says yes, and for
      every required permission, which the catalog must know, one that says yes
      and grants it at a level at least as high. */
  ghost predicate Allows(rt: Runtime, policies: seq<Policy>, issuer: string, g: Root, required: Permissions) {
    && (exists p :: SaysYes(rt, policies, issuer, g, p))
    && forall k :: k in required ==>
         KeyAllowed(rt, policies, issuer, g, k, required[k])
  }

  lemma CoveredExactly(rt: Runtime, e: Engine, policies: seq<Policy>, issuer: string, g: Root, required: Permissions)
    requires Holds(e, policies)
    ensures Covered(rt, e.PoliciesOf(issuer), g, required) <==> Allows(rt, policies, issuer, g, required)
  {
    var ps := e.PoliciesOf(issuer);
    SomeMatchExactly(rt, policies, issuer, g);
    GrantIsLeastUpperBound(rt, ps, g);
    NormalIsFixed(rt.cat, GrantOf(rt, ps, g));
    forall k | k in required ensures KeyCovered(rt, ps, g, k, required[k]) <==>
                                     KeyAllowed(rt, policies, issuer, g, k, required[k])
    {
      KeyCoveredExactly(rt, e, policies, issuer, g, k, required[k]);
    }
    assert Covers(rt.cat, required, GrantOf(rt, ps, g)) <==>
           forall k :: k in required ==> KeyCovered(rt, ps, g, k, required[k]);
    assert (forall k :: k in required ==> KeyAllowed(rt, policies, issuer, g, k, required[k])) <==>
           forall k :: k in required ==> KeyCovered(rt, ps, g, k, required[k]);
  }

  lemma SomeMatchExactly(rt: Runtime, policies: seq<Policy>, issuer: string, g: Root)
    ensures (exists c :: c in Selected(policies, issuer) && Judge(rt, c, g) == Grants) <==>
            exists p :: SaysYes(rt, policies, issuer, g, p)
  {
    forall c | c in Selected(policies, issuer) && Judge(rt, c, g) == Grants
      ensures exists p :: SaysYes(rt, policies, issuer, g, p)
    {
      var p := MatchSource(rt, policies, issuer, g, c);
    }
    forall p | SaysYes(rt, policies, issuer, g, p)
      ensures Compiled(p) in Selected(policies, issuer) && Judge(rt, Compiled(p), g) == Grants
    {
      MatchesExactly(rt, policies, issuer, g, p);
    }
  }

  ghost predicate KeyCovered(rt: Runtime, ps: seq<CompiledPolicy>, g: Root, k: string, need: string) {
    && ValidKey(rt.cat, k) && ValidLevel(need)
    && k in GrantOf(rt, ps, g) && LevelOrd(need) <= LevelOrd(GrantOf(rt, ps, g)[k])
  }

  lemma KeyCoveredExactly(rt: Runtime, e: Engine, policies: seq<Policy>, issuer: string, g: Root, k: string,
                          need: string)
    requires Holds(e, policies)
    ensures KeyCovered(rt, e.PoliciesOf(issuer), g, k, need) <==> KeyAllowed(rt, policies, issuer, g, k, need)
  {
    var grant := GrantOf(rt, e.PoliciesOf(issuer), g);
    GrantExactly(rt, e, policies, issuer, g, k);
    LevelsExactly(need, need);
    if KeyCovered(rt, e.PoliciesOf(issuer), g, k, need) {
      LevelsExactly(grant[k], need);
    }
    if KeyAllowed(rt, policies, issuer, g, k, need) {
      var level :| GrantsLevel(rt, policies, issuer, g, k, level) && AtLeast(level, need);
      LevelsExactly(grant[k], need);
    }
  }

  /** A request is allowed exactly when it names a resource and every resource
      is allowed by the configured policies. */
  lemma AllowedExactly(rt: Runtime, e: Engine, policies: seq<Policy>, issuer: string, caller: map<string, string>,
                       resources: set<string>, required: Permissions, d: Decision)
    requires Holds(e, policies) && IsDecision(rt, e.PoliciesOf(issuer), caller, resources, required, d)
    ensures d.allowed <==>
              && resources != {}
              && forall r :: r in resources ==> Allows(rt, policies, issuer, Root(caller, r), required)
    ensures forall r :: r in d.uncovered <==>
              r in resources && !Allows(rt, policies, issuer, Root(caller, r), required)
  {
    forall r ensures Covered(rt, e.PoliciesOf(issuer), Root(caller, r), required) <==>
                     Allows(rt, policies, issuer, Root(caller, r), required)
    {
      CoveredExactly(rt, e, policies, issuer, Root(caller, r), required);
    }
    AllowedIffAllCovered(rt, e.PoliciesOf(issuer), caller, resources, required);
  }

  /** The names reported as matched are those of the policies that say yes to
      some resource, and as skipped those that say nothing to some resource. */
  lemma ReportedExactly(rt: Runtime, e: Engine, policies: seq<Policy>, issuer: string, caller: map<string, string>,
                        resources: set<string>, required: Permissions, d: Decision, name: string)
    requires Holds(e, policies) && IsDecision(rt, e.PoliciesOf(issuer), caller, resources, required, d)
    ensures name in d.matched <==>
              exists r, p :: r in resources && SaysYes(rt, policies, issuer, Root(caller, r), p) && p.name == name
    ensures name in d.skipped <==>
              exists r, p :: r in resources && SaysNothing(rt, policies, issuer, Root(caller, r), p) && p.name == name
  {
    var ps := e.PoliciesOf(issuer);
    forall r | r in resources
      ensures name in NamesAt(rt, ps, Root(caller, r), Grants) <==>
                exists p :: SaysYes(rt, policies, issuer, Root(caller, r), p) && p.name == name
      ensures name in NamesAt(rt, ps, Root(caller, r), Skips) <==>
                exists p :: SaysNothing(rt, policies, issuer, Root(caller, r), p) && p.name == name
    {
      NamesAtExactly(rt, policies, issuer, Root(caller, r), name);
    }
  }

  lemma NamesAtExactly(rt: Runtime, policies: seq<Policy>, issuer: string, g: Root, name: string)
    ensures name in NamesAt(rt, Selected(policies, issuer), g, Grants) <==>
              exists p :: SaysYes(rt, policies, issuer, g, p) && p.name == name
    ensures name in NamesAt(rt, Selected(policies, issuer), g, Skips) <==>
              exists p :: SaysNothing(rt, policies, issuer, g, p) && p.name == name
  {
    var ps := Selected(policies, issuer);
    forall c | c in ps && c.name == name
      ensures Judge(rt, c, g) == Grants ==> exists p :: SaysYes(rt, policies, issuer, g, p) && p.name == name
      ensures Judge(rt, c, g) == Skips ==> exists p :: SaysNothing(rt, policies, issuer, g, p) && p.name == name
    {
      var p := MatchSource(rt, policies, issuer, g, c);
    }
    forall p | p in policies && p.issuer == issuer && p.name == name
      ensures Compiled(p) in ps && Compiled(p).name == name
      ensures Judge(rt, Compiled(p), g) == Grants <==> SaysYes(rt, policies, issuer, g, p)
      ensures Judge(rt, Compiled(p), g) == Skips <==> SaysNothing(rt, policies, issuer, g, p)
    {
      MatchesExactly(rt, policies, issuer, g, p);
    }
  }
}
