/**
 What it takes for a token to be requested: the results of the modules
 combined over a whole exchange, for every configuration that started up.
 */
module EndToEnd {
  import opened Wrappers
  import opened Text
  import opened Perm
  import opened Cel
  import opened Config
  import opened Condition
  import opened Discipline
  import opened Refinement
  import opened Guarantees
  import opened Anchoring
  import opened Resource
  import opened Engine
  import opened Auth
  import opened Scope
  import opened GithubApp
  import opened Server

  /** A broker that has started: a valid configuration whose conditions came
      out of the CEL parser and were all accepted. */
  ghost predicate Started(rt: Runtime, cfg: Configuration, e: Engine) {
    && WellFormedCatalog(rt.cat) && ValidConfiguration(rt.cat, cfg)
    && (forall p :: p in cfg.policies ==> WellFormed(p.condition) && Admissible(cfg.issuers, p))
    && Holds(e, cfg.policies) && e.maxRepositories == cfg.maxRepositories
  }

  // ----- issuers -----

  lemma {:induction false} IssuerAtIsConfigured(issuers: seq<Issuer>, url: Json)
    ensures IssuerAt(issuers, url).Some? ==> IssuerAt(issuers, url).value in issuers
  {
    if issuers != [] && JStr(issuers[0].url) != url {
      IssuerAtIsConfigured(issuers[1..], url);
    }
  }

  lemma {:induction false} NamedIsTheOne(issuers: seq<Issuer>, iss: Issuer)
    requires iss in issuers
    requires forall i, j :: 0 <= i < j < |issuers| ==> issuers[i].name != issuers[j].name
    ensures IssuerNamed(issuers, iss.name) == Some(iss)
  {
    var k :| 0 <= k < |issuers| && issuers[k] == iss;
    if k < |issuers| - 1 {
      assert issuers[..|issuers| - 1][k] == iss;
      NamedIsTheOne(issuers[..|issuers| - 1], iss);
    }
  }

  /** The policies that decide are those of the issuer that verified the token. */
  lemma RoutedIsNamed(cfg: Configuration, cat: Catalog, claims: Claims)
    requires ValidConfiguration(cat, cfg) && Routed(cfg, claims).Some?
    ensures var iss := Routed(cfg, claims).value; iss in cfg.issuers && IssuerNamed(cfg.issuers, iss.name) == Some(iss)
  {
    IssuerAtIsConfigured(cfg.issuers, claims["iss"]);
    NamedIsTheOne(cfg.issuers, Routed(cfg, claims).value);
  }

  lemma {:induction false} OneIssuerPerUrl(issuers: seq<Issuer>, iss: Issuer)
    requires iss in issuers
    requires forall i, j :: 0 <= i < j < |issuers| ==> issuers[i].url != issuers[j].url
    ensures IssuerAt(issuers, JStr(iss.url)) == Some(iss)
  {
    var k :| 0 <= k < |issuers| && issuers[k] == iss;
    if k > 0 {
      assert issuers[1..][k - 1] == iss;
      OneIssuerPerUrl(issuers[1..], iss);
    }
  }

  lemma {:induction false} NoIssuerAt(issuers: seq<Issuer>, url: Json)
    ensures IssuerAt(issuers, url).None? <==> forall iss :: iss in issuers ==> url != JStr(iss.url)
  {
    if issuers != [] {
      NoIssuerAt(issuers[1..], url);
      assert issuers == [issuers[0]] + issuers[1..];
    }
  }

  /** Every configured issuer is consulted for the tokens that name its URL,
      and for no others. */
  lemma EveryIssuerIsRouted(cat: Catalog, cfg: Configuration, claims: Claims, iss: Issuer)
    requires ValidConfiguration(cat, cfg) && iss in cfg.issuers
    ensures Routed(cfg, claims) == Some(iss) <==> "iss" in claims && claims["iss"] == JStr(iss.url)
  {
    OneIssuerPerUrl(cfg.issuers, iss);
    if "iss" in claims {
      IssuerAtHasUrl(cfg.issuers, claims["iss"]);
    }
  }

  lemma {:induction false} IssuerAtHasUrl(issuers: seq<Issuer>, url: Json)
    ensures IssuerAt(issuers, url).Some? ==> url == JStr(IssuerAt(issuers, url).value.url)
  {
    if issuers != [] && JStr(issuers[0].url) != url {
      IssuerAtHasUrl(issuers[1..], url);
    }
  }

  /** A token that names a configured issuer's URL is refused as invalid
      exactly when it is not acceptable to that issuer, and a request that is
      sent for it carries that issuer's identity. */
  lemma IssuerDecides(rt: Runtime, cfg: Configuration, e: Engine, gh: GitHub, now: int, claims: Claims,
                      targets: seq<string>, scope: string, out: Outcome, iss: Issuer)
    requires ValidConfiguration(rt.cat, cfg) && IsOutcome(rt, cfg, e, gh, now, claims, targets, scope, out)
    requires iss in cfg.issuers && "iss" in claims && claims["iss"] == JStr(iss.url)
    ensures out.InvalidSubjectToken? <==> !Acceptable(iss, cfg.clockSkewSeconds, now, claims)
    ensures out.Posted? ==> Carries(iss, claims, out.identity)
  {
    AuthenticExactly(rt, cfg, now, claims, iss);
    if out.Posted? {
      PostedWasAuthentic(rt, cfg, e, gh, now, claims, targets, scope, out);
      IdentityCarriesTheToken(iss, cfg.clockSkewSeconds, now, claims);
    }
  }

  lemma AuthenticExactly(rt: Runtime, cfg: Configuration, now: int, claims: Claims, iss: Issuer)
    requires ValidConfiguration(rt.cat, cfg) && iss in cfg.issuers && "iss" in claims && claims["iss"] == JStr(iss.url)
    ensures Routed(cfg, claims) == Some(iss)
    ensures Authentic(cfg, now, claims) <==> Acceptable(iss, cfg.clockSkewSeconds, now, claims)
  {
    EveryIssuerIsRouted(rt.cat, cfg, claims, iss);
    AdmitsExactly(iss, cfg.clockSkewSeconds, now, claims);
  }

  /** A token that names no configured issuer's URL is refused as invalid. */
  lemma UnknownIssuerIsRefused(rt: Runtime, cfg: Configuration, e: Engine, gh: GitHub, now: int, claims: Claims,
                               targets: seq<string>, scope: string, out: Outcome)
    requires IsOutcome(rt, cfg, e, gh, now, claims, targets, scope, out)
    requires forall iss :: iss in cfg.issuers ==> !("iss" in claims && claims["iss"] == JStr(iss.url))
    ensures out.InvalidSubjectToken?
  {
    if "iss" in claims {
      NoIssuerAt(cfg.issuers, claims["iss"]);
    }
  }

  // ----- permissions -----

  lemma {:induction false} RawAmong(rs: seq<Resource>, i: nat)
    requires i < |rs|
    ensures rs[i].raw in ToSet(Raws(rs))
  {
    assert Raws(rs)[i] == rs[i].raw;
  }

  lemma AllowedMeansCovered(rt: Runtime, e: Engine, id: Identity, rs: seq<Resource>, perms: Permissions, d: Decision,
                            i: nat)
    requires Decides(rt, e, id, rs, perms, d) && d.allowed && i < |rs|
    ensures Covered(rt, e.PoliciesOf(id.issuer), Root(id.claims, rs[i].raw), perms)
    ensures rs[i].raw in d.grants
    ensures d.grants[rs[i].raw] == GrantOf(rt, e.PoliciesOf(id.issuer), Root(id.claims, rs[i].raw))
  {
    RawAmong(rs, i);
    var ps, all := e.PoliciesOf(id.issuer), ToSet(Raws(rs));
    assert rs[i].raw !in Uncovered(rt, ps, id.claims, all, perms);
  }

  /** The permissions sent are exactly those requested, and they exceed neither
      the grant of any requested resource, nor the aggregate of all grants, nor
      the permissions of the installation. */
  lemma LeastPrivilege(rt: Runtime, cfg: Configuration, e: Engine, gh: GitHub, id: Identity, rs: seq<Resource>,
                       perms: Permissions, out: Outcome, i: nat)
    requires Holds(e, cfg.policies) && i < |rs|
    requires Normalized(rt.cat, perms) == perms
    requires Concludes(rt, e, gh, id, rs, perms, out) && out.Posted?
    ensures out.post.request.permissions == perms && perms != map[]
    ensures rs[i].raw in out.decision.grants && Leq(perms, out.decision.grants[rs[i].raw])
    ensures Leq(perms, JoinedGrants(rt.cat, cfg.policies))
    ensures var inst := Resolve(gh, rs[0].kind, rs[0].owner);
            && inst.Some? && out.post.installation == inst.value.id
            && Leq(perms, Normalized(rt.cat, inst.value.permissions))
  {
    AllowedMeansCovered(rt, e, id, rs, perms, out.decision, i);
    var g := Root(id.claims, rs[i].raw);
    var grant := GrantOf(rt, e.PoliciesOf(id.issuer), g);
    GrantIsLeastUpperBound(rt, e.PoliciesOf(id.issuer), g);
    NormalIsFixed(rt.cat, grant);
    GrantWithinAggregate(rt, e, cfg, id.issuer, g);
    LeqTransitive(perms, grant, JoinedGrants(rt.cat, cfg.policies));
  }

  /** If the startup check found the aggregate of all grants covered by the
      App's manifest, every request that is sent is covered by it too. */
  lemma WithinAppManifest(rt: Runtime, cfg: Configuration, e: Engine, gh: GitHub, id: Identity, rs: seq<Resource>,
                          perms: Permissions, out: Outcome, manifest: Permissions)
    requires Holds(e, cfg.policies) && rs != [] && Normalized(rt.cat, perms) == perms
    requires Concludes(rt, e, gh, id, rs, perms, out) && out.Posted?
    requires var agg := JoinedGrants(rt.cat, cfg.policies);
             agg == map[] || Leq(Normalized(rt.cat, agg), Normalized(rt.cat, manifest))
    ensures Leq(out.post.request.permissions, Normalized(rt.cat, manifest))
  {
    LeastPrivilege(rt, cfg, e, gh, id, rs, perms, out, 0);
    JoinedGrantsBound(rt.cat, cfg.policies);
    CoveredThrough(rt.cat, perms, JoinedGrants(rt.cat, cfg.policies), Normalized(rt.cat, manifest));
  }

  lemma CoveredThrough(cat: Catalog, a: Permissions, b: Permissions, c: Permissions)
    requires Leq(a, b) && IsNormal(cat, b) && (b == map[] || Leq(Normalized(cat, b), c))
    ensures Leq(a, c)
  {
    NormalIsFixed(cat, b);
  }

  // ----- ownership -----

  /** The claims of a caller are those of a repository `owner`/`name`. */
  predicate ClaimsOf(caller: map<string, string>, owner: string, name: string) {
    && '/' !in owner
    && ("repository" in caller ==> caller["repository"] == owner + ['/'] + name)
    && ("repository_owner" in caller ==> caller["repository_owner"] == owner)
  }

  /** A repository resource whose text goes on with an owner and a slash has
      that owner. */
  lemma RepoTextOwner(r: Resource, owner: string, tail: string)
    requires IsCanonical(r) && '/' !in owner
    requires r.raw == "repo:" + owner + ['/'] + tail
    ensures r.kind == Repo && r.owner == owner
  {
    var rest := owner + ['/'] + tail;
    assert r.raw == Prefix(Repo) + [':'] + rest;
    SameSplit(r, Repo, rest);
    OwnerCharacters(r.owner);
    FirstSplit(owner, '/', tail);
    FirstSplit(r.owner, '/', r.name);
  }

  lemma SameSplit(r: Resource, kind: ResourceKind, rest: string)
    requires IsCanonical(r) && r.raw == Prefix(kind) + [':'] + rest
    ensures r.kind == kind && rest == if kind == Repo then Shorthand(r) else r.owner
  {
    PrefixSplits(kind, rest);
    PrefixSplits(r.kind, if r.kind == Repo then Shorthand(r) else r.owner);
  }

  lemma RepoPrefixOwner(r: Resource, owner: string, head: string)
    requires IsCanonical(r) && '/' !in owner && head <= r.raw
    requires "repo:" + owner + ['/'] <= head
    ensures r.kind == Repo && r.owner == owner
  {
    var start := "repo:" + owner + ['/'];
    assert r.raw == start + r.raw[|start|..];
    RepoTextOwner(r, owner, r.raw[|start|..]);
  }

  /** The owner of a caller-anchored resource is the caller's own. */
  lemma AnchoredOwnerIsOwn(r: Resource, caller: map<string, string>, owner: string, name: string)
    requires IsCanonical(r) && AnchoredText(caller, r.raw) && ClaimsOf(caller, owner, name)
    ensures r.owner == owner && (r.kind == Repo || r.kind == Org)
  {
    if "repository" in caller && "repo:" + caller["repository"] <= r.raw {
      RepoPrefixOwner(r, owner, "repo:" + caller["repository"]);
    } else if "repository_owner" in caller && "repo:" + caller["repository_owner"] + "/" <= r.raw {
      RepoPrefixOwner(r, owner, "repo:" + caller["repository_owner"] + "/");
    } else {
      assert r.raw == Prefix(Org) + [':'] + owner;
      SameSplit(r, Org, owner);
    }
  }

  // ----- justification -----

  /** A policy of the caller's own issuer says yes to this very resource, and
      says so about this caller. */
  ghost predicate Justifies(rt: Runtime, iss: Issuer, claims: Claims, p: Policy, r: Resource) {
    var g := Root(Exposed(iss.claims, claims), r.raw);
    && p.issuer == iss.name
    && Eval(rt.host, g, TOP, p.condition) == TRUE
    && r.raw in Reach(rt.host, g.caller, p.condition)
    && (!iss.IsPreset() ==> Mentions(p.condition, r.raw))
    && (if |iss.require| == 0 then
          CallerPinned(rt.host, g, p.condition, IdentityClaims(iss)) || AnchoredText(g.caller, r.raw)
        else forall c :: c in iss.require ==> RequirementMet(claims, c, iss.require[c]))
  }

  lemma ConfiguredAs(cfg: Configuration, e: Engine, issuer: string, c: CompiledPolicy) returns (p: Policy)
    requires Holds(e, cfg.policies) && c in e.PoliciesOf(issuer)
    ensures p in cfg.policies && p.issuer == issuer && Compiled(p) == c
  {
    SelectedExactly(cfg.policies, issuer, c);
    p :| p in cfg.policies && p.issuer == issuer && Compiled(p) == c;
  }

  lemma GrantingPolicy(rt: Runtime, cfg: Configuration, e: Engine, issuer: string, g: Root, perms: Permissions)
    returns (p: Policy)
    requires Holds(e, cfg.policies) && Covered(rt, e.PoliciesOf(issuer), g, perms)
    ensures p in cfg.policies && p.issuer == issuer && Eval(rt.host, g, TOP, p.condition) == TRUE
  {
    var c :| c in e.PoliciesOf(issuer) && Judge(rt, c, g) == Grants;
    p := ConfiguredAs(cfg, e, issuer, c);
  }

  lemma TruePolicyJustifies(rt: Runtime, iss: Issuer, skewSeconds: int, now: int, claims: Claims, p: Policy,
                            r: Resource)
    requires WellFormed(p.condition) && Accepted(p.condition, iss) && p.issuer == iss.name
    requires Admits(iss, skewSeconds, now, claims)
    requires Eval(rt.host, Root(Exposed(iss.claims, claims), r.raw), TOP, p.condition) == TRUE
    ensures Justifies(rt, iss, claims, p, r)
  {
    var g := Root(Exposed(iss.claims, claims), r.raw);
    TrueOnlyWithinReach(rt.host, p.condition, iss, g);
    if !iss.IsPreset() {
      NonPresetNamesItsResources(rt.host, p.condition, iss, g);
    }
    if |iss.require| == 0 {
      CallerIsPinnedOrAnchored(rt.host, p.condition, iss, g);
    }
  }

  lemma RoutedPolicyIsAccepted(rt: Runtime, cfg: Configuration, e: Engine, claims: Claims, p: Policy)
    requires Started(rt, cfg, e) && Routed(cfg, claims).Some?
    requires p in cfg.policies && p.issuer == Routed(cfg, claims).value.name
    ensures WellFormed(p.condition) && Accepted(p.condition, Routed(cfg, claims).value)
  {
    RoutedIsNamed(cfg, rt.cat, claims);
    assert Admissible(cfg.issuers, p);
  }

  lemma PostedNeedsPolicy(rt: Runtime, cfg: Configuration, e: Engine, gh: GitHub, id: Identity, rs: seq<Resource>,
                          perms: Permissions, out: Outcome, i: nat) returns (p: Policy)
    requires Holds(e, cfg.policies) && i < |rs|
    requires Concludes(rt, e, gh, id, rs, perms, out) && out.Posted?
    ensures p in cfg.policies && p.issuer == id.issuer
    ensures Eval(rt.host, Root(id.claims, rs[i].raw), TOP, p.condition) == TRUE
  {
    AllowedMeansCovered(rt, e, id, rs, perms, out.decision, i);
    p := GrantingPolicy(rt, cfg, e, id.issuer, Root(id.claims, rs[i].raw), perms);
  }

  /** Every resource of every request that is sent is justified by a policy. */
  lemma EveryResourceIsJustified(rt: Runtime, cfg: Configuration, e: Engine, gh: GitHub, now: int, claims: Claims,
                                 rs: seq<Resource>, perms: Permissions, out: Outcome, i: nat) returns (p: Policy)
    requires Started(rt, cfg, e) && Authentic(cfg, now, claims) && i < |rs|
    requires Concludes(rt, e, gh, IdentityOf(Routed(cfg, claims).value, claims), rs, perms, out) && out.Posted?
    ensures p in cfg.policies && Justifies(rt, Routed(cfg, claims).value, claims, p, rs[i])
  {
    var iss := Routed(cfg, claims).value;
    p := PostedNeedsPolicy(rt, cfg, e, gh, IdentityOf(iss, claims), rs, perms, out, i);
    RoutedPolicyIsAccepted(rt, cfg, e, claims, p);
    TruePolicyJustifies(rt, iss, cfg.clockSkewSeconds, now, claims, p, rs[i]);
  }

  /** Without require, a caller from `owner`/`name` gets a token for another
      owner's resource only through a policy that pins one of the caller's
      identity claims by a comparison of its own condition, to one of the
      finitely many values that the condition fixes for that resource. */
  lemma ForeignOwnerNeedsPinnedCaller(rt: Runtime, cfg: Configuration, e: Engine, gh: GitHub, now: int, claims: Claims,
                                      targets: seq<string>, rs: seq<Resource>, perms: Permissions, out: Outcome, i: nat,
                                      owner: string, name: string) returns (p: Policy, claim: string)
    requires Started(rt, cfg, e) && Authentic(cfg, now, claims) && i < |rs| && Parses(targets, rs)
    requires Concludes(rt, e, gh, IdentityOf(Routed(cfg, claims).value, claims), rs, perms, out) && out.Posted?
    requires |Routed(cfg, claims).value.require| == 0
    requires ClaimsOf(out.identity.claims, owner, name) && rs[i].owner != owner
    ensures p in cfg.policies && Justifies(rt, Routed(cfg, claims).value, claims, p, rs[i])
    ensures CallerPinned(rt.host, Root(out.identity.claims, rs[i].raw), p.condition, GitHubIdentityClaims())
    ensures claim in GitHubIdentityClaims() && claim in out.identity.claims
    ensures out.identity.claims[claim] in CallerReach(rt.host, rs[i].raw, p.condition, claim)
  {
    p := EveryResourceIsJustified(rt, cfg, e, gh, now, claims, rs, perms, out, i);
    ParseAcceptsExactly(targets[i], rs[i]);
    if AnchoredText(out.identity.claims, rs[i].raw) {
      AnchoredOwnerIsOwn(rs[i], out.identity.claims, owner, name);
    }
    PinnedMeansPreset(rt.host, Root(out.identity.claims, rs[i].raw), p.condition, Routed(cfg, claims).value);
    claim := PinIsWithinReach(rt.host, p.condition, GitHubIdentityClaims(), Root(out.identity.claims, rs[i].raw));
  }

  lemma PinnedMeansPreset(h: Host, g: Root, e: Expr, iss: Issuer)
    requires CallerPinned(h, g, e, IdentityClaims(iss))
    ensures iss.IsPreset()
  {
    var leaf, ref, operand :| Pins(h, g, e, IdentityClaims(iss), leaf, ref, operand);
  }

  // ----- the whole exchange -----

  /** The repositories of a token request: those of the resources, in order, or
      none for an organization or enterprise. */
  ghost predicate NamesExactly(rs: seq<Resource>, repositories: seq<string>)
    requires rs != []
  {
    && |repositories| == (if rs[0].kind == Repo then |rs| else 0)
    && forall k :: 0 <= k < |repositories| ==> repositories[k] == rs[k].name
  }

  /** The permissions sent are within the grant of resource `i`, the aggregate
      of all grants, and the permissions of the owner's installation. */
  ghost predicate WithinBounds(rt: Runtime, cfg: Configuration, gh: GitHub, out: Outcome, i: nat)
    requires out.Posted? && i < |out.resources|
  {
    var rs, perms := out.resources, out.post.request.permissions;
    && rs[i].raw in out.decision.grants && Leq(perms, out.decision.grants[rs[i].raw])
    && Leq(perms, JoinedGrants(rt.cat, cfg.policies))
    && PostsTo(rt.cat, gh, rs[0].owner, rs, out.post)
  }

  lemma PostedWasAuthentic(rt: Runtime, cfg: Configuration, e: Engine, gh: GitHub, now: int, claims: Claims,
                           targets: seq<string>, scope: string, out: Outcome)
    requires IsOutcome(rt, cfg, e, gh, now, claims, targets, scope, out) && out.Posted?
    ensures Authentic(cfg, now, claims) && out.identity == IdentityOf(Routed(cfg, claims).value, claims)
    ensures Parses(targets, out.resources) && Consistent(out.resources) && Decoded(rt.cat, scope).Some?
    ensures Concludes(rt, e, gh, out.identity, out.resources, Decoded(rt.cat, scope).value, out)
  {
  }

  lemma PostedAsAsked(rt: Runtime, cfg: Configuration, e: Engine, gh: GitHub, id: Identity, rs: seq<Resource>,
                      perms: Permissions, out: Outcome, i: nat)
    requires Holds(e, cfg.policies) && i < |rs| && Normalized(rt.cat, perms) == perms
    requires Concludes(rt, e, gh, id, rs, perms, out) && out.Posted?
    ensures out.resources == rs && out.post.request.permissions == perms && perms != map[]
    ensures NamesExactly(rs, out.post.request.repositories) && WithinBounds(rt, cfg, gh, out, i)
  {
    RequestPostsTo(rt.cat, gh, rs[0].owner, rs, perms, out.post);
    LeastPrivilege(rt, cfg, e, gh, id, rs, perms, out, i);
  }

  /** What a request that is sent implies, in terms of the token's claims, the
      requested resources and the requested scope: exactly that scope, exactly
      those repositories, within the three bounds, and with a policy behind
      every resource. */
  lemma TokenRequestIsJustified(rt: Runtime, cfg: Configuration, e: Engine, gh: GitHub, now: int, claims: Claims,
                                targets: seq<string>, scope: string, out: Outcome, i: nat) returns (p: Policy)
    requires Started(rt, cfg, e) && IsOutcome(rt, cfg, e, gh, now, claims, targets, scope, out)
    requires out.Posted? && i < |targets|
    ensures Authentic(cfg, now, claims) && out.identity == IdentityOf(Routed(cfg, claims).value, claims)
    ensures Parses(targets, out.resources) && Consistent(out.resources)
    ensures Decoded(rt.cat, scope) == Some(out.post.request.permissions) && out.post.request.permissions != map[]
    ensures NamesExactly(out.resources, out.post.request.repositories)
    ensures WithinBounds(rt, cfg, gh, out, i)
    ensures p in cfg.policies && Justifies(rt, Routed(cfg, claims).value, claims, p, out.resources[i])
  {
    PostedWasAuthentic(rt, cfg, e, gh, now, claims, targets, scope, out);
    var perms := Decoded(rt.cat, scope).value;
    DecodedScopeIsNormal(rt.cat, scope);
    PostedAsAsked(rt, cfg, e, gh, out.identity, out.resources, perms, out, i);
    p := EveryResourceIsJustified(rt, cfg, e, gh, now, claims, out.resources, perms, out, i);
  }

  /** The lookups that are not made for the owner's kind change nothing. */
  lemma OtherLookupsChangeNothing(rt: Runtime, e: Engine, a: GitHub, b: GitHub, id: Identity, rs: seq<Resource>,
                                  perms: Permissions, out: Outcome)
    requires rs != [] && SameLookups(a, b, rs[0].kind, rs[0].owner)
    ensures Concludes(rt, e, a, id, rs, perms, out) <==> Concludes(rt, e, b, id, rs, perms, out)
  {
    assert Resolve(a, rs[0].kind, rs[0].owner) == Resolve(b, rs[0].kind, rs[0].owner);
    match out
    case MintRefused(error) =>
      assert Refuses(rt.cat, a, rs, perms, error) <==> Refuses(rt.cat, b, rs, perms, error);
    case Posted(_, _, _, _, post) =>
      assert IsRequestFor(rt.cat, a, rs[0].owner, rs, perms, post) <==>
             IsRequestFor(rt.cat, b, rs[0].owner, rs, perms, post);
    case _ =>
  }

  /** What a request deserves to be sent for: a configured issuer accepts the
      token, the targets and the scope are well formed, the issuer's policies
      allow every target, and the owner's installation covers the scope. */
  ghost predicate Deserves(rt: Runtime, cfg: Configuration, gh: GitHub, now: int, claims: Claims,
                           targets: seq<string>, scope: string, iss: Issuer, id: Identity, rs: seq<Resource>,
                           perms: Permissions, inst: Installation)
  {
    && iss in cfg.issuers && Acceptable(iss, cfg.clockSkewSeconds, now, claims) && Carries(iss, claims, id)
    && Parses(targets, rs) && Consistent(rs) && |rs| <= cfg.maxRepositories
    && Decoded(rt.cat, scope) == Some(perms)
    && (forall i :: 0 <= i < |rs| ==> Allows(rt, cfg.policies, iss.name, Root(id.claims, rs[i].raw), perms))
    && Installed(gh, rs[0].kind, rs[0].owner, inst) && Leq(perms, Normalized(rt.cat, inst.permissions))
  }

  lemma DecidedExactly(rt: Runtime, cfg: Configuration, e: Engine, id: Identity, rs: seq<Resource>,
                       perms: Permissions, d: Decision)
    requires Holds(e, cfg.policies) && rs != [] && Decides(rt, e, id, rs, perms, d)
    ensures d.allowed <==>
            forall i :: 0 <= i < |rs| ==> Allows(rt, cfg.policies, id.issuer, Root(id.claims, rs[i].raw), perms)
  {
    var all := ToSet(Raws(rs));
    AllowedExactly(rt, e, cfg.policies, id.issuer, id.claims, all, perms, d);
    RawAmong(rs, 0);
    forall i | 0 <= i < |rs| ensures rs[i].raw in all {
      RawAmong(rs, i);
    }
    forall r | r in all ensures exists i :: 0 <= i < |rs| && rs[i].raw == r {
      var i :| 0 <= i < |Raws(rs)| && Raws(rs)[i] == r;
      assert rs[i].raw == r;
    }
  }

  lemma SentIsDeserved(rt: Runtime, cfg: Configuration, e: Engine, gh: GitHub, now: int, claims: Claims,
                       targets: seq<string>, scope: string, out: Outcome) returns (iss: Issuer, inst: Installation)
    requires Started(rt, cfg, e) && IsOutcome(rt, cfg, e, gh, now, claims, targets, scope, out) && out.Posted?
    ensures Deserves(rt, cfg, gh, now, claims, targets, scope, iss, out.identity, out.resources,
                     out.post.request.permissions, inst)
    ensures out.post.installation == inst.id
  {
    PostedWasAuthentic(rt, cfg, e, gh, now, claims, targets, scope, out);
    RoutedIsNamed(cfg, rt.cat, claims);
    iss := Routed(cfg, claims).value;
    AdmitsExactly(iss, cfg.clockSkewSeconds, now, claims);
    IdentityCarriesTheToken(iss, cfg.clockSkewSeconds, now, claims);
    DecodedScopeIsNormal(rt.cat, scope);
    var perms := Decoded(rt.cat, scope).value;
    PostedAsAsked(rt, cfg, e, gh, out.identity, out.resources, perms, out, 0);
    DecidedExactly(rt, cfg, e, out.identity, out.resources, perms, out.decision);
    inst :| Installed(gh, out.resources[0].kind, out.resources[0].owner, inst) && out.post.installation == inst.id
            && Leq(perms, Normalized(rt.cat, inst.permissions));
  }

  lemma DeservedIsSent(rt: Runtime, cfg: Configuration, e: Engine, gh: GitHub, now: int, claims: Claims,
                       targets: seq<string>, scope: string, out: Outcome, iss: Issuer, id: Identity,
                       rs: seq<Resource>, perms: Permissions, inst: Installation)
    requires Started(rt, cfg, e) && IsOutcome(rt, cfg, e, gh, now, claims, targets, scope, out)
    requires Deserves(rt, cfg, gh, now, claims, targets, scope, iss, id, rs, perms, inst)
    ensures out.Posted? && out.identity == id && out.resources == rs && out.post.request.permissions == perms
    ensures out.post.installation == inst.id
  {
    DeservingIsAuthentic(rt, cfg, now, claims, iss, id);
    OutcomeOf(rt, cfg, e, gh, now, claims, targets, scope, out, rs);
    DecodedScopeIsNormal(rt.cat, scope);
    ResolveExactly(gh, rs[0].kind, rs[0].owner, inst);
    AllowedIsSent(rt, cfg, e, gh, id, rs, perms, out, inst);
  }

  lemma DeservingIsAuthentic(rt: Runtime, cfg: Configuration, now: int, claims: Claims, iss: Issuer, id: Identity)
    requires ValidConfiguration(rt.cat, cfg) && iss in cfg.issuers
    requires Acceptable(iss, cfg.clockSkewSeconds, now, claims) && Carries(iss, claims, id)
    ensures Authentic(cfg, now, claims) && Routed(cfg, claims) == Some(iss) && id == IdentityOf(iss, claims)
  {
    AuthenticExactly(rt, cfg, now, claims, iss);
    IdentityCarriesTheToken(iss, cfg.clockSkewSeconds, now, claims);
    CarriedIdentityIsUnique(iss, claims, id, IdentityOf(iss, claims));
  }

  lemma OutcomeOf(rt: Runtime, cfg: Configuration, e: Engine, gh: GitHub, now: int, claims: Claims,
                  targets: seq<string>, scope: string, out: Outcome, rs: seq<Resource>)
    requires IsOutcome(rt, cfg, e, gh, now, claims, targets, scope, out) && Authentic(cfg, now, claims)
    requires Parses(targets, rs) && Consistent(rs) && Decoded(rt.cat, scope).Some?
    ensures Concludes(rt, e, gh, IdentityOf(Routed(cfg, claims).value, claims), rs, Decoded(rt.cat, scope).value, out)
  {
    OnlyParse(targets, rs);
  }

  lemma AllowedIsSent(rt: Runtime, cfg: Configuration, e: Engine, gh: GitHub, id: Identity, rs: seq<Resource>,
                      perms: Permissions, out: Outcome, inst: Installation)
    requires Holds(e, cfg.policies) && rs != [] && |rs| <= e.maxRepositories && Normalized(rt.cat, perms) == perms
    requires Concludes(rt, e, gh, id, rs, perms, out)
    requires forall i :: 0 <= i < |rs| ==> Allows(rt, cfg.policies, id.issuer, Root(id.claims, rs[i].raw), perms)
    requires Resolve(gh, rs[0].kind, rs[0].owner) == Some(inst) && Leq(perms, Normalized(rt.cat, inst.permissions))
    ensures out.Posted? && out.identity == id && out.resources == rs && out.post.request.permissions == perms
    ensures out.post.installation == inst.id
  {
    if out.ForbiddenByPolicy? {
      DecidedExactly(rt, cfg, e, id, rs, perms, out.decision);
    }
  }

  /** A token is requested exactly when the request deserves it, and then for
      what it deserves. */
  lemma SentExactlyWhenDeserved(rt: Runtime, cfg: Configuration, e: Engine, gh: GitHub, now: int, claims: Claims,
                                targets: seq<string>, scope: string, out: Outcome)
    requires Started(rt, cfg, e) && IsOutcome(rt, cfg, e, gh, now, claims, targets, scope, out)
    ensures out.Posted? <==>
            exists iss, id, rs, perms, inst ::
              Deserves(rt, cfg, gh, now, claims, targets, scope, iss, id, rs, perms, inst)
    ensures forall iss, id, rs, perms, inst ::
              Deserves(rt, cfg, gh, now, claims, targets, scope, iss, id, rs, perms, inst) ==>
              && out.Posted? && out.identity == id && out.resources == rs
              && out.post.installation == inst.id && out.post.request.permissions == perms
  {
    if out.Posted? {
      var iss, inst := SentIsDeserved(rt, cfg, e, gh, now, claims, targets, scope, out);
    }
    forall iss, id, rs, perms, inst | Deserves(rt, cfg, gh, now, claims, targets, scope, iss, id, rs, perms, inst)
      ensures out.Posted? && out.identity == id && out.resources == rs
      ensures out.post.installation == inst.id && out.post.request.permissions == perms
    {
      DeservedIsSent(rt, cfg, e, gh, now, claims, targets, scope, out, iss, id, rs, perms, inst);
    }
  }

  // ----- added claims -----

  lemma InForceIsAccepted(rt: Runtime, cfg: Configuration, e: Engine, iss: Issuer, p: CompiledPolicy)
    requires Started(rt, cfg, e) && iss in cfg.issuers && p in e.PoliciesOf(iss.name)
    ensures WellFormed(p.condition) && Accepted(p.condition, iss)
  {
    var q := ConfiguredAs(cfg, e, iss.name, p);
    NamedIsTheOne(cfg.issuers, iss);
    assert Admissible(cfg.issuers, q);
  }

  /** A policy that grants also grants when claims are added, unless the longer
      evaluation runs into the cost limit. */
  lemma MatchSurvivesClaims(rt: Runtime, iss: Issuer, p: CompiledPolicy, a: Root, b: Root)
    requires WellFormed(p.condition) && Accepted(p.condition, iss)
    requires a.resource == b.resource && Extends(a.caller, b.caller)
    ensures Judge(rt, p, a) == Grants ==> Judge(rt, p, b) == Grants || rt.costExceeded(p.condition, b)
  {
    MoreClaimsKeepTheResult(rt.host, p.condition, iss, a, b);
  }

  ghost predicate WithinCost(rt: Runtime, ps: seq<CompiledPolicy>, g: Root) {
    forall p :: p in ps ==> !rt.costExceeded(p.condition, g)
  }

  /** A missing claim gains nothing: away from the cost limit, adding claims
      keeps a resource covered and can only raise its grant. */
  lemma GrantGrowsWithClaims(rt: Runtime, cfg: Configuration, e: Engine, iss: Issuer, a: Root, b: Root,
                             required: Permissions)
    requires Started(rt, cfg, e) && iss in cfg.issuers
    requires a.resource == b.resource && Extends(a.caller, b.caller) && WithinCost(rt, e.PoliciesOf(iss.name), b)
    ensures Leq(GrantOf(rt, e.PoliciesOf(iss.name), a), GrantOf(rt, e.PoliciesOf(iss.name), b))
    ensures Covered(rt, e.PoliciesOf(iss.name), a, required) ==> Covered(rt, e.PoliciesOf(iss.name), b, required)
  {
    var ps := e.PoliciesOf(iss.name);
    forall p | p in ps && Judge(rt, p, a) == Grants ensures Judge(rt, p, b) == Grants {
      InForceIsAccepted(rt, cfg, e, iss, p);
      MatchSurvivesClaims(rt, iss, p, a, b);
    }
    MoreMatchesGrantMore(rt, ps, a, b, required);
  }

  lemma MoreMatchesGrantMore(rt: Runtime, ps: seq<CompiledPolicy>, a: Root, b: Root, required: Permissions)
    requires forall p :: p in ps && Judge(rt, p, a) == Grants ==> Judge(rt, p, b) == Grants
    ensures Leq(GrantOf(rt, ps, a), GrantOf(rt, ps, b))
    ensures Covered(rt, ps, a, required) ==> Covered(rt, ps, b, required)
  {
    var ga, gb := GrantOf(rt, ps, a), GrantOf(rt, ps, b);
    GrantIsLeastUpperBound(rt, ps, a);
    GrantIsLeastUpperBound(rt, ps, b);
    assert IsBound(rt, ps, a, gb);
    NormalIsFixed(rt.cat, ga);
    NormalIsFixed(rt.cat, gb);
    if Leq(required, ga) {
      LeqTransitive(required, ga, gb);
    }
  }

  lemma EveryGrantGrows(rt: Runtime, cfg: Configuration, e: Engine, iss: Issuer, a: map<string, string>,
                        b: map<string, string>, resources: set<string>, required: Permissions)
    requires Started(rt, cfg, e) && iss in cfg.issuers && Extends(a, b)
    requires forall r :: r in resources ==> WithinCost(rt, e.PoliciesOf(iss.name), Root(b, r))
    ensures var ps := e.PoliciesOf(iss.name);
            forall r :: r in resources ==>
              && Leq(GrantOf(rt, ps, Root(a, r)), GrantOf(rt, ps, Root(b, r)))
              && (Covered(rt, ps, Root(a, r), required) ==> Covered(rt, ps, Root(b, r), required))
  {
    var ps := e.PoliciesOf(iss.name);
    forall r | r in resources
      ensures Leq(GrantOf(rt, ps, Root(a, r)), GrantOf(rt, ps, Root(b, r)))
      ensures Covered(rt, ps, Root(a, r), required) ==> Covered(rt, ps, Root(b, r), required)
    {
      GrantGrowsWithClaims(rt, cfg, e, iss, Root(a, r), Root(b, r), required);
    }
  }

  /** The decision-level form: a request that is allowed stays allowed when
      claims are added to the token, and no resource's grant shrinks. */
  lemma MissingClaimGainsNothing(rt: Runtime, cfg: Configuration, e: Engine, iss: Issuer, a: map<string, string>,
                                 b: map<string, string>, resources: set<string>, required: Permissions,
                                 d: Decision, c: Decision)
    requires Started(rt, cfg, e) && iss in cfg.issuers && Extends(a, b)
    requires forall r :: r in resources ==> WithinCost(rt, e.PoliciesOf(iss.name), Root(b, r))
    requires IsDecision(rt, e.PoliciesOf(iss.name), a, resources, required, d)
    requires IsDecision(rt, e.PoliciesOf(iss.name), b, resources, required, c)
    ensures d.allowed ==> c.allowed
    ensures forall r :: r in resources ==> r in d.grants && r in c.grants && Leq(d.grants[r], c.grants[r])
  {
    var ps := e.PoliciesOf(iss.name);
    EveryGrantGrows(rt, cfg, e, iss, a, b, resources, required);
    AllowedIffAllCovered(rt, ps, a, resources, required);
    AllowedIffAllCovered(rt, ps, b, resources, required);
  }

  // ----- determinism -----

  lemma DecisionBehind(rt: Runtime, e: Engine, gh: GitHub, id: Identity, rs: seq<Resource>, perms: Permissions,
                       out: Outcome) returns (d: Decision)
    requires rs != [] && |rs| <= e.maxRepositories && Concludes(rt, e, gh, id, rs, perms, out)
    ensures Decides(rt, e, id, rs, perms, d)
    ensures d.allowed <==> !out.ForbiddenByPolicy?
    ensures out.Posted? || out.ForbiddenByPolicy? ==> d == out.decision
  {
    if out.ForbiddenByPolicy? || out.Posted? {
      d := out.decision;
    } else {
      d :| Decides(rt, e, id, rs, perms, d) && d.allowed;
    }
  }

  lemma RequestIsUnique(cat: Catalog, gh: GitHub, owner: string, rs: seq<Resource>, perms: Permissions, p: Post,
                        q: Post)
    requires rs != []
    requires IsRequestFor(cat, gh, owner, rs, perms, p) && IsRequestFor(cat, gh, owner, rs, perms, q)
    ensures p == q
  {
    assert p.request.repositories == q.request.repositories;
  }

  /** Given the decision, what remains is the answer of the installation. */
  lemma OutcomeFromDecision(rt: Runtime, e: Engine, gh: GitHub, id: Identity, rs: seq<Resource>, perms: Permissions,
                            out: Outcome, d: Decision)
    requires rs != [] && |rs| <= e.maxRepositories
    requires Concludes(rt, e, gh, id, rs, perms, out) && Decides(rt, e, id, rs, perms, d)
    ensures !d.allowed ==> out == ForbiddenByPolicy(d)
    ensures d.allowed ==>
      || (out.MintRefused? && Refuses(rt.cat, gh, rs, perms, out.error))
      || (out.Posted? && out == Posted(id, rs, perms, d, out.post)
          && IsRequestFor(rt.cat, gh, rs[0].owner, rs, perms, out.post))
  {
    var ps := e.PoliciesOf(id.issuer);
    var c := DecisionBehind(rt, e, gh, id, rs, perms, out);
    DecisionIsUnique(rt, ps, ps, id.claims, ToSet(Raws(rs)), perms, c, d);
  }

  lemma RefusalIsUnique(cat: Catalog, gh: GitHub, rs: seq<Resource>, perms: Permissions, error: MintError)
    requires rs != [] && Normalized(cat, perms) == perms && Refuses(cat, gh, rs, perms, error)
    ensures forall other :: Refuses(cat, gh, rs, perms, other) ==> other == error
    ensures forall post :: !IsRequestFor(cat, gh, rs[0].owner, rs, perms, post)
  {
  }

  /** An exchange has one outcome. Two brokers that agree on the policies of the
      caller's issuer, in whatever order they list them and whatever policies
      they have for other issuers, come to the same outcome, down to the
      decision's lists. */
  lemma OutcomeIsUnique(rt: Runtime, a: Engine, b: Engine, gh: GitHub, id: Identity, rs: seq<Resource>,
                        perms: Permissions, x: Outcome, y: Outcome)
    requires rs != [] && a.maxRepositories == b.maxRepositories && Normalized(rt.cat, perms) == perms
    requires SameElements(a.PoliciesOf(id.issuer), b.PoliciesOf(id.issuer))
    requires Concludes(rt, a, gh, id, rs, perms, x) && Concludes(rt, b, gh, id, rs, perms, y)
    ensures x == y
  {
    if |rs| <= a.maxRepositories {
      var c := DecisionBehind(rt, a, gh, id, rs, perms, x);
      var d := DecisionBehind(rt, b, gh, id, rs, perms, y);
      DecisionIsUnique(rt, a.PoliciesOf(id.issuer), b.PoliciesOf(id.issuer), id.claims, ToSet(Raws(rs)), perms, c, d);
      OutcomeFromDecision(rt, a, gh, id, rs, perms, x, c);
      OutcomeFromDecision(rt, b, gh, id, rs, perms, y, d);
      if x.MintRefused? {
        RefusalIsUnique(rt.cat, gh, rs, perms, x.error);
      } else if y.MintRefused? {
        RefusalIsUnique(rt.cat, gh, rs, perms, y.error);
      } else if x.Posted? {
        RequestIsUnique(rt.cat, gh, rs[0].owner, rs, perms, x.post, y.post);
      }
    }
  }

  /** Claims that are not registered, declared or required, and are neither sub
      nor jti, change nothing about an exchange. */
  lemma OtherClaimsChangeNothing(rt: Runtime, cfg: Configuration, e: Engine, gh: GitHub, now: int, a: Claims, b: Claims,
                                 rs: seq<Resource>, perms: Permissions, out: Outcome)
    requires rs != [] && Routed(cfg, a).Some?
    requires forall name :: Consulted(Routed(cfg, a).value, name) ==> SameOn(a, b, name)
    ensures Authentic(cfg, now, a) <==> Authentic(cfg, now, b)
    ensures Authentic(cfg, now, a) ==>
      (Concludes(rt, e, gh, IdentityOf(Routed(cfg, a).value, a), rs, perms, out) <==>
       Concludes(rt, e, gh, IdentityOf(Routed(cfg, b).value, b), rs, perms, out))
  {
    var iss := Routed(cfg, a).value;
    assert Consulted(iss, "iss");
    OtherClaimsAreIrrelevant(iss, cfg.clockSkewSeconds, now, a, b);
  }
}
