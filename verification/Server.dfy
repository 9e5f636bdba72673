/**
 The token exchange, from verified claims to the request that is sent to GitHub.
 */
module Server {
  import opened Wrappers
  import opened Perm
  import opened Config
  import opened Resource
  import opened Engine
  import opened Auth
  import opened Scope
  import opened GithubApp

  datatype Outcome =
    | InvalidSubjectToken
    | InvalidTarget(why: ResourceError)
    | InvalidScope
    | TooManyResources
    | ForbiddenByPolicy(decision: Decision)
    | MintRefused(error: MintError)
    | Posted(identity: Identity, resources: seq<Resource>, permissions: Permissions, decision: Decision, post: Post)

  /** The one issuer configured for a URL. */
  function IssuerAt(issuers: seq<Issuer>, url: Json): Option<Issuer> {
    if issuers == [] then None
    else if JStr(issuers[0].url) == url then Some(issuers[0])
    else IssuerAt(issuers[1..], url)
  }

  function Routed(cfg: Configuration, claims: Claims): Option<Issuer> {
    if "iss" in claims then IssuerAt(cfg.issuers, claims["iss"]) else None
  }

  ghost predicate Authentic(cfg: Configuration, now: int, claims: Claims) {
    var iss := Routed(cfg, claims);
    iss.Some? && Admits(iss.value, cfg.clockSkewSeconds, now, claims)
  }

  function Raws(rs: seq<Resource>): (raws: seq<string>)
    ensures |raws| == |rs| && forall i :: 0 <= i < |rs| ==> raws[i] == rs[i].raw
  {
    if rs == [] then [] else [rs[0].raw] + Raws(rs[1..])
  }

  ghost predicate Requestable(targets: seq<string>) {
    exists rs :: Parses(targets, rs) && Consistent(rs)
  }

  /** The decision of the caller's policies on these resources. */
  ghost predicate Decides(rt: Runtime, e: Engine, id: Identity, rs: seq<Resource>, perms: Permissions, d: Decision) {
    IsDecision(rt, e.PoliciesOf(id.issuer), id.claims, ToSet(Raws(rs)), perms, d)
  }

  ghost predicate Refuses(cat: Catalog, gh: GitHub, rs: seq<Resource>, perms: Permissions, error: MintError)
    requires rs != []
  {
    var inst := Resolve(gh, rs[0].kind, rs[0].owner);
    match error
    case NoInstallation => inst.None?
    case InsufficientScope(gaps) =>
      && inst.Some? && !Leq(perms, Normalized(cat, inst.value.permissions))
      && gaps == GapsOf(perms, Normalized(cat, inst.value.permissions))
    case _ => false
  }

  /** From an authenticated, well-formed request to its outcome. */
  ghost predicate Concludes(rt: Runtime, e: Engine, gh: GitHub, id: Identity, rs: seq<Resource>, perms: Permissions,
                            out: Outcome)
    requires rs != []
  {
    match out
    case TooManyResources => |rs| > e.maxRepositories
    case ForbiddenByPolicy(d) => |rs| <= e.maxRepositories && Decides(rt, e, id, rs, perms, d) && !d.allowed
    case MintRefused(error) =>
      && |rs| <= e.maxRepositories && (exists d :: Decides(rt, e, id, rs, perms, d) && d.allowed)
      && Refuses(rt.cat, gh, rs, perms, error)
    case Posted(id', rs', perms', d, post) =>
      && id' == id && rs' == rs && perms' == perms
      && |rs| <= e.maxRepositories && Decides(rt, e, id, rs, perms, d) && d.allowed
      && IsRequestFor(rt.cat, gh, rs[0].owner, rs, perms, post)
    case _ => false
  }

  method Decide(rt: Runtime, e: Engine, id: Identity, rs: seq<Resource>, perms: Permissions)
    returns (d: Option<Decision>)
    ensures d.None? <==> |rs| > e.maxRepositories
    ensures d.Some? ==> Decides(rt, e, id, rs, perms, d.value)
  {
    var raws := RawStrings(rs);
    assert raws == Raws(rs);
    d := Evaluate(rt, e, id.issuer, id.claims, raws, perms);
  }

  method MintNormal(cat: Catalog, gh: GitHub, rs: seq<Resource>, perms: Permissions)
    returns (r: Result<Post, MintError>)
    requires rs != [] && Normalized(cat, perms) == perms && perms != map[]
    ensures r.Success? ==> IsRequestFor(cat, gh, rs[0].owner, rs, perms, r.value)
    ensures r.Failure? ==> Refuses(cat, gh, rs, perms, r.error)
  {
    r := Mint(cat, gh, rs[0].owner, rs, perms);
  }

  method Exchange(rt: Runtime, e: Engine, gh: GitHub, id: Identity, rs: seq<Resource>, perms: Permissions)
    returns (out: Outcome)
    requires rs != [] && Normalized(rt.cat, perms) == perms && perms != map[]
    ensures Concludes(rt, e, gh, id, rs, perms, out)
  {
    var decision := Decide(rt, e, id, rs, perms);
    if decision.None? {
      return TooManyResources;
    }
    if !decision.value.allowed {
      return ForbiddenByPolicy(decision.value);
    }
    var post := MintNormal(rt.cat, gh, rs, perms);
    if post.Failure? {
      return MintRefused(post.error);
    }
    return Posted(id, rs, perms, decision.value, post.value);
  }

  method Authenticate(cfg: Configuration, now: int, claims: Claims) returns (id: Option<Identity>)
    ensures id.Some? <==> Authentic(cfg, now, claims)
    ensures id.Some? ==> id.value == IdentityOf(Routed(cfg, claims).value, claims)
  {
    var iss := Routed(cfg, claims);
    if iss.None? {
      return None;
    }
    var r := Identify(iss.value, cfg.clockSkewSeconds, now, claims);
    return if r.Success? then Some(r.value) else None;
  }

  /** What the arguments of an exchange determine about its outcome. Minting is
      never refused for an empty scope or for lack of resources. */
  ghost predicate IsOutcome(rt: Runtime, cfg: Configuration, e: Engine, gh: GitHub, now: int, claims: Claims,
                            targets: seq<string>, scope: string, out: Outcome)
  {
    if !Authentic(cfg, now, claims) then out.InvalidSubjectToken?
    else if !Requestable(targets) then out.InvalidTarget?
    else if Decoded(rt.cat, scope).None? then out.InvalidScope?
    else
      exists rs ::
        && Parses(targets, rs) && Consistent(rs)
        && Concludes(rt, e, gh, IdentityOf(Routed(cfg, claims).value, claims), rs, Decoded(rt.cat, scope).value, out)
  }

  /** The checks in order; each outcome says exactly how far the request came. */
  method HandleToken(rt: Runtime, cfg: Configuration, e: Engine, gh: GitHub, now: int, claims: Claims,
                     targets: seq<string>, scope: string) returns (out: Outcome)
    requires WellFormedCatalog(rt.cat)
    ensures IsOutcome(rt, cfg, e, gh, now, claims, targets, scope, out)
  {
    var id := Authenticate(cfg, now, claims);
    if id.None? {
      return InvalidSubjectToken;
    }
    var parsed := ParseAll(targets);
    if parsed.Failure? {
      return InvalidTarget(parsed.error);
    }
    var perms := DecodeScope(rt.cat, scope);
    if perms.None? {
      return InvalidScope;
    }
    DecodedScopeIsNormal(rt.cat, scope);
    out := Exchange(rt, e, gh, id.value, parsed.value, perms.value);
  }
}
