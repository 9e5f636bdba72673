/** The parts of the configuration that authorization depends on. */
module Config {
  import opened Wrappers
  import opened Cel
  import opened Perm

  datatype Issuer = Issuer(
    name: string,
    preset: string,
    url: string,
    audience: string,
    claims: seq<string>,
    require: map<string, seq<string>>,
    maxTokenLifetimeSeconds: int)
  {
    predicate IsPreset() {
      preset == GITHUB_PRESET
    }
  }

  /** A policy, its condition already parsed and type-checked. */
  datatype Policy = Policy(name: string, issuer: string, condition: Expr, grant: Permissions)

  datatype Configuration = Configuration(
    issuers: seq<Issuer>,
    clockSkewSeconds: int,
    maxRepositories: int,
    policies: seq<Policy>)

  const GITHUB_PRESET := "github"
  const MAX_TOKEN_LIFETIME := 86400
  const MAX_CLOCK_SKEW := 300

  datatype PresetClaim = PresetClaim(name: string, identity: bool)

  /** The claims of the GitHub preset, and whether each names the repository,
      owner, workflow file or enterprise of the run. */
  const GITHUB_CLAIMS: seq<PresetClaim> := [
    PresetClaim("repository", true),
    PresetClaim("repository_id", true),
    PresetClaim("repository_owner", true),
    PresetClaim("repository_owner_id", true),
    PresetClaim("job_workflow_ref", false),
    PresetClaim("workflow_ref", true),
    PresetClaim("workflow_sha", false),
    PresetClaim("job_workflow_sha", false),
    PresetClaim("sha", false),
    PresetClaim("ref", false),
    PresetClaim("ref_type", false),
    PresetClaim("ref_protected", false),
    PresetClaim("environment", false),
    PresetClaim("environment_node_id", false),
    PresetClaim("repository_visibility", false),
    PresetClaim("runner_environment", false),
    PresetClaim("enterprise", true),
    PresetClaim("enterprise_id", true),
    PresetClaim("issuer_scope", false),
    PresetClaim("event_name", false),
    PresetClaim("sub", false)
  ]

  function NamesOf(table: seq<PresetClaim>, identityOnly: bool): seq<string> {
    if table == [] then []
    else (if identityOnly && !table[0].identity then [] else [table[0].name]) + NamesOf(table[1..], identityOnly)
  }

  function GitHubClaims(): seq<string> {
    NamesOf(GITHUB_CLAIMS, false)
  }

  function GitHubIdentityClaims(): seq<string> {
    NamesOf(GITHUB_CLAIMS, true)
  }

  lemma {:induction false} NamedInTable(table: seq<PresetClaim>, identityOnly: bool, name: string)
    ensures name in NamesOf(table, identityOnly) <==>
            exists i :: 0 <= i < |table| && table[i].name == name && (identityOnly ==> table[i].identity)
  {
    if table != [] {
      NamedInTable(table[1..], identityOnly, name);
      assert forall i :: 1 <= i < |table| ==> table[i] == table[1..][i - 1];
    }
  }

  /** The claims that the documentation lists as naming the repository, owner,
      workflow file or enterprise of the run. */
  predicate NamesRun(claim: string) {
    || claim == "repository" || claim == "repository_id" || claim == "repository_owner"
    || claim == "repository_owner_id" || claim == "workflow_ref" || claim == "enterprise" || claim == "enterprise_id"
  }

  lemma IdentityEntries(i: nat)
    requires i < |GITHUB_CLAIMS|
    ensures GITHUB_CLAIMS[i].identity <==> i in {0, 1, 2, 3, 5, 16, 17}
    ensures GITHUB_CLAIMS[i].identity ==> NamesRun(GITHUB_CLAIMS[i].name)
  {
  }

  lemma IdentityEntryOf(claim: string) returns (i: nat)
    requires NamesRun(claim)
    ensures i < |GITHUB_CLAIMS| && GITHUB_CLAIMS[i].identity && GITHUB_CLAIMS[i].name == claim
  {
    i := if claim == "repository" then 0 else if claim == "repository_id" then 1
         else if claim == "repository_owner" then 2 else if claim == "repository_owner_id" then 3
         else if claim == "workflow_ref" then 5 else if claim == "enterprise" then 16 else 17;
  }

  /** The identity claims are the documented ones. */
  lemma IdentityClaimsAreDocumented(claim: string)
    ensures claim in GitHubIdentityClaims() <==> NamesRun(claim)
  {
    NamedInTable(GITHUB_CLAIMS, true, claim);
    if claim in GitHubIdentityClaims() {
      var i :| 0 <= i < |GITHUB_CLAIMS| && GITHUB_CLAIMS[i].name == claim && GITHUB_CLAIMS[i].identity;
      IdentityEntries(i);
    }
    if NamesRun(claim) {
      var i := IdentityEntryOf(claim);
    }
  }

  /** The other claims of the preset, which only narrow a policy. */
  predicate NarrowsRun(claim: string) {
    || claim == "job_workflow_ref" || claim == "workflow_sha" || claim == "job_workflow_sha" || claim == "sha"
    || claim == "ref" || claim == "ref_type" || claim == "ref_protected" || claim == "environment"
    || claim == "environment_node_id" || claim == "repository_visibility" || claim == "runner_environment"
    || claim == "issuer_scope" || claim == "event_name" || claim == "sub"
  }

  lemma OtherEntries(i: nat)
    requires i < |GITHUB_CLAIMS| && !GITHUB_CLAIMS[i].identity
    ensures NarrowsRun(GITHUB_CLAIMS[i].name)
  {
  }

  lemma OtherEntryOf(claim: string) returns (i: nat)
    requires NarrowsRun(claim)
    ensures i < |GITHUB_CLAIMS| && GITHUB_CLAIMS[i].name == claim
  {
    i := if claim == "job_workflow_ref" then 4 else if claim == "workflow_sha" then 6
         else if claim == "job_workflow_sha" then 7 else if claim == "sha" then 8 else if claim == "ref" then 9
         else if claim == "ref_type" then 10 else if claim == "ref_protected" then 11
         else if claim == "environment" then 12 else if claim == "environment_node_id" then 13
         else if claim == "repository_visibility" then 14 else if claim == "runner_environment" then 15
         else if claim == "issuer_scope" then 18 else if claim == "event_name" then 19 else 20;
  }

  /** The preset declares the documented claims and no others. */
  lemma PresetClaimsAreDocumented(claim: string)
    ensures claim in GitHubClaims() <==> NamesRun(claim) || NarrowsRun(claim)
  {
    NamedInTable(GITHUB_CLAIMS, false, claim);
    if claim in GitHubClaims() {
      var i :| 0 <= i < |GITHUB_CLAIMS| && GITHUB_CLAIMS[i].name == claim;
      if GITHUB_CLAIMS[i].identity {
        IdentityEntries(i);
      } else {
        OtherEntries(i);
      }
    }
    if NamesRun(claim) {
      var i := IdentityEntryOf(claim);
    }
    if NarrowsRun(claim) {
      var i := OtherEntryOf(claim);
    }
  }

  const REGISTERED_CLAIMS := {"iss", "aud", "exp", "iat", "nbf"}

  predicate ValidClaimName(name: string) {
    name != "" && (forall c :: c in name ==> ' ' < c <= '~') && name !in REGISTERED_CLAIMS
  }

  /** The issuer rules that do not concern URLs, names or algorithms. */
  predicate ValidIssuer(iss: Issuer) {
    && (if iss.IsPreset() then iss.claims == GitHubClaims()
        else iss.preset == "" && iss.claims != [] && |iss.require| != 0)
    && iss.audience != ""
    && 1 <= iss.maxTokenLifetimeSeconds <= MAX_TOKEN_LIFETIME
    && (forall c :: c in iss.claims ==> ValidClaimName(c))
    && (forall i, j :: 0 <= i < j < |iss.claims| ==> iss.claims[i] != iss.claims[j])
    && (forall c :: c in iss.require ==> ValidClaimName(c) && iss.require[c] != [] && "" !in iss.require[c])
  }

  /** The rules of a configuration that authorization relies on. */
  predicate ValidConfiguration(cat: Catalog, cfg: Configuration) {
    && cfg.issuers != []
    && (forall i :: 0 <= i < |cfg.issuers| ==> ValidIssuer(cfg.issuers[i]))
    && (forall i, j :: 0 <= i < j < |cfg.issuers| ==>
          cfg.issuers[i].name != cfg.issuers[j].name && cfg.issuers[i].url != cfg.issuers[j].url)
    && 0 <= cfg.clockSkewSeconds <= MAX_CLOCK_SKEW
    && (forall i, j :: 0 <= i < j < |cfg.policies| ==> cfg.policies[i].name != cfg.policies[j].name)
    && (forall p :: p in cfg.policies ==> forall k :: k in p.grant ==> ValidKeyLevel(cat, k, p.grant[k]))
  }

  /** The issuer configured under a name. */
  function IssuerNamed(issuers: seq<Issuer>, name: string): Option<Issuer> {
    if issuers == [] then None
    else if issuers[|issuers| - 1].name == name then Some(issuers[|issuers| - 1])
    else IssuerNamed(issuers[..|issuers| - 1], name)
  }

  // ----- aggregate permissions -----

  /** The join of the normalized grants of all policies. */
  function JoinedGrants(cat: Catalog, policies: seq<Policy>): Permissions {
    if policies == [] then map[]
    else Join(JoinedGrants(cat, policies[..|policies| - 1]), Normalized(cat, policies[|policies| - 1].grant))
  }

  ghost predicate BoundsGrants(cat: Catalog, policies: seq<Policy>, upper: Permissions) {
    forall p :: p in policies ==> Leq(Normalized(cat, p.grant), upper)
  }

  /** The aggregate is the least upper bound of the normalized grants. */
  lemma {:induction false} JoinedGrantsBound(cat: Catalog, policies: seq<Policy>)
    ensures IsNormal(cat, JoinedGrants(cat, policies))
    ensures forall p :: p in policies ==> Leq(Normalized(cat, p.grant), JoinedGrants(cat, policies))
    ensures forall upper :: BoundsGrants(cat, policies, upper) ==> Leq(JoinedGrants(cat, policies), upper)
  {
    if policies != [] {
      var front, last := policies[..|policies| - 1], policies[|policies| - 1];
      JoinedGrantsBound(cat, front);
      JoinIsLeast(cat, JoinedGrants(cat, front), Normalized(cat, last.grant));
      forall p | p in policies ensures Leq(Normalized(cat, p.grant), JoinedGrants(cat, policies)) {
        if p in front {
          LeqTransitive(Normalized(cat, p.grant), JoinedGrants(cat, front), JoinedGrants(cat, policies));
        } else {
          assert p == last;
        }
      }
      forall upper | BoundsGrants(cat, policies, upper) ensures Leq(JoinedGrants(cat, policies), upper) {
        assert last in policies;
        assert BoundsGrants(cat, front, upper);
      }
    }
  }

  /** Some policy lists `k` at `level`. */
  ghost predicate ListsLevel(policies: seq<Policy>, k: string, level: string) {
    exists p :: p in policies && k in p.grant && p.grant[k] == level
  }

  /** The aggregate holds a key of the catalog exactly when some policy lists it
      at a valid level, and then at the highest of these levels. */
  lemma AggregateExactly(cat: Catalog, policies: seq<Policy>, k: string)
    ensures var agg := JoinedGrants(cat, policies);
            && (k in agg <==> k in cat && exists level :: ListsLevel(policies, k, level) && IsLevel(level))
            && (k in agg ==> IsLevel(agg[k]) && ListsLevel(policies, k, agg[k]))
            && (k in agg ==>
                  forall level :: ListsLevel(policies, k, level) && IsLevel(level) ==> AtLeast(agg[k], level))
  {
    var agg := JoinedGrants(cat, policies);
    JoinedGrantsBound(cat, policies);
    if k in agg {
      var p := AggregateHasSource(cat, policies, k);
      LevelsExactly(agg[k], agg[k]);
      assert ListsLevel(policies, k, agg[k]);
    }
    forall level | k in cat && ListsLevel(policies, k, level) && IsLevel(level)
      ensures k in agg && AtLeast(agg[k], level)
    {
      var p :| p in policies && k in p.grant && p.grant[k] == level;
      LevelsExactly(level, level);
      assert k in Normalized(cat, p.grant);
      LevelsExactly(agg[k], level);
    }
  }

  lemma {:induction false} AggregateHasSource(cat: Catalog, policies: seq<Policy>, k: string) returns (p: Policy)
    requires k in JoinedGrants(cat, policies)
    ensures p in policies && k in p.grant && p.grant[k] == JoinedGrants(cat, policies)[k]
  {
    var front, last := policies[..|policies| - 1], policies[|policies| - 1];
    var prior := JoinedGrants(cat, front);
    if k in prior && JoinedGrants(cat, policies)[k] == prior[k] {
      p := AggregateHasSource(cat, front, k);
      assert policies == front + [last];
    } else {
      p := last;
    }
  }

  /** The highest level per key over all policies. It overrides an entry only
      with a strictly higher level, where merging also overrides an equal one,
      and computes the same join. */
  method AggregateGrantPermissions(cat: Catalog, policies: seq<Policy>) returns (agg: Permissions)
    ensures agg == JoinedGrants(cat, policies)
  {
    agg := map[];
    for i := 0 to |policies|
      invariant agg == JoinedGrants(cat, policies[..i])
    {
      assert policies[..i + 1][..i] == policies[..i];
      agg := AggregateOne(cat, agg, policies[i].grant);
    }
    assert policies[..|policies|] == policies;
  }

  method AggregateOne(cat: Catalog, start: Permissions, grant: Permissions) returns (agg: Permissions)
    ensures agg == Join(start, Normalized(cat, grant))
  {
    agg := start;
    ghost var n := Normalized(cat, grant);
    var todo := grant.Keys;
    while todo != {}
      invariant todo <= grant.Keys
      invariant Merging(start, n, todo, agg)
      decreases |todo|
    {
      var k :| k in todo;
      todo := todo - {k};
      if !ValidKey(cat, k) || !ValidLevel(grant[k]) { continue; }
      MergeStep(start, n, todo + {k}, agg, k);
      assert todo + {k} - {k} == todo;
      agg := Overridden(agg, k, grant[k]);
    }
    MergeDone(start, n, agg);
  }

  method Overridden(start: Permissions, k: string, level: string) returns (agg: Permissions)
    requires ValidLevel(level)
    ensures agg == start[k := JoinAt(start, k, level)]
  {
    agg := start;
    if k !in start || LevelOrd(level) > LevelOrd(start[k]) {
      agg := start[k := level];
    } else if LevelOrd(level) == LevelOrd(start[k]) {
      LevelOrdInjective(level, start[k]);
    }
  }
}
