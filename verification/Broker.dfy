/**
 A broker that starts, and an exchange that ends with a token request: the
 hypotheses of the results about whole exchanges can all be met.
 */
module Broker {
  import opened Wrappers
  import opened Perm
  import opened Cel
  import opened Config
  import opened Condition
  import opened Discipline
  import opened Resource
  import opened Engine
  import opened Auth
  import opened Scope
  import opened GithubApp
  import opened Server
  import opened EndToEnd
  import opened Examples

  /** request.resource == text */
  function ResourceIs(text: string): Expr {
    App(Eq, [RequestResource(), Lit(StrV(text))])
  }

  /** Accepted for every issuer that has requirements. */
  lemma ResourceIsAccepted(text: string, iss: Issuer)
    requires |iss.require| != 0
    ensures WellFormed(ResourceIs(text)) && Accepted(ResourceIs(text), iss)
  {
    var e := ResourceIs(text);
    assert CallerOk(e.kids[1], iss.claims) && WellFormed(e.kids[1]) && Plain(e.kids[1]);
    ResourceEqReads(e.kids[1], iss.claims);
    PlainBreaksNoCallRule(e);
    RequestResourceReads(iss.claims);
    assert LiteralComparison(e);
    RequestRuleIsStructural(e);
    assert !References(e.kids[1], VAR_REQUEST);
    assert BoundsResource(e.kids[0], e.kids[1]);
  }

  /** An issuer without preset that asks for one subject. */
  function SubjectIssuer(name: string, url: string, audience: string, subject: string): Issuer {
    Issuer(name, "", url, audience, ["sub"], map["sub" := [subject]], 3600)
  }

  lemma SubjectIssuerIsValid(name: string, url: string, audience: string, subject: string)
    requires audience != "" && subject != ""
    ensures ValidIssuer(SubjectIssuer(name, url, audience, subject))
  {
    assert "sub" !in REGISTERED_CLAIMS by {
      assert "sub"[0] == 's' && "iss"[0] == 'i' && "aud"[0] == 'a' && "exp"[0] == 'e' && "iat"[0] == 'i' &&
             "nbf"[0] == 'n';
    }
    assert forall c :: c in "sub" ==> ' ' < c <= '~';
    assert |GITHUB_PRESET| != 0;
  }

  /** Two issuers, and a policy of the second for one resource. */
  function TwoIssuers(x: Issuer, y: Issuer, resource: string, grant: Permissions): Configuration {
    Configuration([x, y], 60, 10, [Policy("p", y.name, ResourceIs(resource), grant)])
  }

  lemma TwoIssuersAreValid(cat: Catalog, x: Issuer, y: Issuer, resource: string, grant: Permissions)
    requires ValidIssuer(x) && ValidIssuer(y) && x.name != y.name && x.url != y.url && AllSupported(cat, grant)
    ensures ValidConfiguration(cat, TwoIssuers(x, y, resource, grant))
  {
  }

  lemma OnePolicyHolds(p: Policy, maxRepositories: int) returns (e: Engine)
    ensures Holds(e, [p]) && e.maxRepositories == maxRepositories
  {
    var empty := Engine(map[], maxRepositories);
    HoldsStep(empty, [], p);
    e := Extended(empty, p);
    assert [] + [p] == [p];
  }

  /** The broker starts. */
  lemma BrokerStarts(rt: Runtime, x: Issuer, y: Issuer, resource: string, grant: Permissions) returns (e: Engine)
    requires WellFormedCatalog(rt.cat) && AllSupported(rt.cat, grant)
    requires ValidIssuer(x) && ValidIssuer(y) && x.name != y.name && x.url != y.url && |y.require| != 0
    ensures Started(rt, TwoIssuers(x, y, resource, grant), e)
  {
    var cfg := TwoIssuers(x, y, resource, grant);
    TwoIssuersAreValid(rt.cat, x, y, resource, grant);
    ResourceIsAccepted(resource, y);
    NamedIsTheOne(cfg.issuers, y);
    assert forall p :: p in cfg.policies ==> p == cfg.policies[0];
    e := OnePolicyHolds(cfg.policies[0], cfg.maxRepositories);
  }

  /** A token of issuer `y` for `subject`, issued at second `t`. */
  function TokenOf(y: Issuer, subject: string, t: nat): Claims {
    map["iss" := JStr(y.url), "aud" := JStr(y.audience), "sub" := JStr(subject),
        "iat" := JNum(t as real), "exp" := JNum((t + 3600) as real)]
  }

  lemma ClaimNamesDiffer()
    ensures "iss" != "aud" && "iss" != "sub" && "iss" != "iat" && "iss" != "exp" && "aud" != "sub" && "aud" != "iat"
    ensures "aud" != "exp" && "sub" != "iat" && "sub" != "exp" && "iat" != "exp"
    ensures "nbf" !in ["iss", "aud", "sub", "iat", "exp"] && "jti" !in ["iss", "aud", "sub", "iat", "exp"]
  {
    assert "iss"[1] == 's' && "aud"[0] == 'a' && "sub"[0] == 's' && "iat"[1] == 'a' && "exp"[0] == 'e';
    assert "iss"[0] == 'i' && "iat"[0] == 'i' && "nbf"[0] == 'n' && "jti"[0] == 'j';
  }

  lemma TokenClaims(y: Issuer, subject: string, t: nat)
    ensures var claims := TokenOf(y, subject, t);
            && claims.Keys == {"iss", "aud", "sub", "iat", "exp"}
            && claims["iss"] == JStr(y.url) && claims["aud"] == JStr(y.audience) && claims["sub"] == JStr(subject)
            && claims["iat"] == JNum(t as real) && claims["exp"] == JNum((t + 3600) as real)
            && "nbf" !in claims && "jti" !in claims
  {
    ClaimNamesDiffer();
  }

  lemma TokenIsAcceptable(name: string, url: string, audience: string, subject: string, t: nat)
    requires subject != "" && Utf8Len(subject) <= 1024 && t <= 0x10_0000_0000_0000
    ensures var y := SubjectIssuer(name, url, audience, subject);
            Acceptable(y, 60, t * 1_000_000_000, TokenOf(y, subject, t))
  {
    var y := SubjectIssuer(name, url, audience, subject);
    var claims := TokenOf(y, subject, t);
    TokenClaims(y, subject, t);
    assert ReadsAs(claims["sub"], subject);
    assert DateIs(claims, "iat", t) && DateIs(claims, "exp", t + 3600);
    assert subject in y.require["sub"];
  }

  /** A caller of issuer `y` gets a token for the one organization that the
      policy names, although `y` is not the first issuer. */
  lemma ExchangeHappens(rt: Runtime, cfg: Configuration, e: Engine, gh: GitHub, x: Issuer, name: string, url: string,
                        audience: string, subject: string, t: nat, owner: string, grant: Permissions, scope: string,
                        inst: Installation, out: Outcome)
    requires cfg == TwoIssuers(x, SubjectIssuer(name, url, audience, subject), "org:" + owner, grant)
    requires Started(rt, cfg, e) && forall c, g :: !rt.costExceeded(c, g)
    requires subject != "" && Utf8Len(subject) <= 1024 && t <= 0x10_0000_0000_0000
    requires OwnerText(owner) && gh.org(owner) == Some(inst) && Leq(grant, Normalized(rt.cat, inst.permissions))
    requires Decoded(rt.cat, scope) == Some(grant) && AllSupported(rt.cat, grant)
    requires var y := SubjectIssuer(name, url, audience, subject);
             IsOutcome(rt, cfg, e, gh, t * 1_000_000_000, TokenOf(y, subject, t), ["org:" + owner], scope, out)
    ensures out.Posted? && out.post == Post(inst.id, TokenRequest([], grant))
  {
    var y := SubjectIssuer(name, url, audience, subject);
    var claims := TokenOf(y, subject, t);
    TokenIsAcceptable(name, url, audience, subject, t);
    TwoIssuersParts(cfg, x, y, "org:" + owner, grant);
    forall caller ensures Allows(rt, cfg.policies, y.name, Root(caller, "org:" + owner), grant) {
      PolicyAllows(rt, cfg, y, caller, "org:" + owner, grant);
    }
    OrganizationIsSent(rt, cfg, e, gh, t * 1_000_000_000, claims, y, owner, grant, scope, inst, out);
  }

  lemma TwoIssuersParts(cfg: Configuration, x: Issuer, y: Issuer, resource: string, grant: Permissions)
    requires cfg == TwoIssuers(x, y, resource, grant)
    ensures y in cfg.issuers && cfg.clockSkewSeconds == 60 && cfg.maxRepositories == 10
    ensures cfg.policies == [Policy("p", y.name, ResourceIs(resource), grant)]
  {
    assert cfg.issuers[1] == y;
  }

  lemma OrganizationIsSent(rt: Runtime, cfg: Configuration, e: Engine, gh: GitHub, now: int, claims: Claims, y: Issuer,
                           owner: string, grant: Permissions, scope: string, inst: Installation, out: Outcome)
    requires Started(rt, cfg, e) && y in cfg.issuers && Acceptable(y, cfg.clockSkewSeconds, now, claims)
    requires OwnerText(owner) && gh.org(owner) == Some(inst) && Leq(grant, Normalized(rt.cat, inst.permissions))
    requires Decoded(rt.cat, scope) == Some(grant) && cfg.maxRepositories >= 1
    requires forall caller :: Allows(rt, cfg.policies, y.name, Root(caller, "org:" + owner), grant)
    requires IsOutcome(rt, cfg, e, gh, now, claims, ["org:" + owner], scope, out)
    ensures out.Posted? && out.post == Post(inst.id, TokenRequest([], grant))
  {
    var targets, r := ["org:" + owner], Resource(Org, owner, "", "org:" + owner);
    AdmitsExactly(y, cfg.clockSkewSeconds, now, claims);
    IdentityCarriesTheToken(y, cfg.clockSkewSeconds, now, claims);
    var id := IdentityOf(y, claims);
    OrganizationDeserves(rt, cfg, gh, now, claims, y, id, owner, grant, scope, inst);
    DeservedIsSent(rt, cfg, e, gh, now, claims, targets, scope, out, y, id, [r], grant, inst);
    NothingNamed(rt, cfg, e, gh, now, claims, targets, scope, out);
  }

  lemma OrganizationDeserves(rt: Runtime, cfg: Configuration, gh: GitHub, now: int, claims: Claims, y: Issuer,
                             id: Identity, owner: string, grant: Permissions, scope: string, inst: Installation)
    requires y in cfg.issuers && Acceptable(y, cfg.clockSkewSeconds, now, claims) && Carries(y, claims, id)
    requires OwnerText(owner) && gh.org(owner) == Some(inst) && Leq(grant, Normalized(rt.cat, inst.permissions))
    requires Decoded(rt.cat, scope) == Some(grant) && cfg.maxRepositories >= 1
    requires Allows(rt, cfg.policies, y.name, Root(id.claims, "org:" + owner), grant)
    ensures var r := Resource(Org, owner, "", "org:" + owner);
            Deserves(rt, cfg, gh, now, claims, ["org:" + owner], scope, y, id, [r], grant, inst)
  {
    ParseSpelledOut("org:" + owner, Resource(Org, owner, "", "org:" + owner));
  }

  lemma NothingNamed(rt: Runtime, cfg: Configuration, e: Engine, gh: GitHub, now: int, claims: Claims,
                     targets: seq<string>, scope: string, out: Outcome)
    requires Started(rt, cfg, e) && IsOutcome(rt, cfg, e, gh, now, claims, targets, scope, out)
    requires out.Posted? && |targets| > 0 && out.resources != [] && out.resources[0].kind != Repo
    ensures out.post.request.repositories == []
  {
    var p := TokenRequestIsJustified(rt, cfg, e, gh, now, claims, targets, scope, out, 0);
  }

  lemma PolicyAllows(rt: Runtime, cfg: Configuration, y: Issuer, caller: map<string, string>, resource: string,
                     grant: Permissions)
    requires WellFormedCatalog(rt.cat) && AllSupported(rt.cat, grant) && forall c, g :: !rt.costExceeded(c, g)
    requires |cfg.policies| == 1 && cfg.policies[0] == Policy("p", y.name, ResourceIs(resource), grant)
    ensures Allows(rt, cfg.policies, y.name, Root(caller, resource), grant)
  {
    var p, g := cfg.policies[0], Root(caller, resource);
    ReplacementValue(rt.host, g, resource);
    assert SaysYes(rt, cfg.policies, y.name, g, p);
    forall k | k in grant ensures KeyAllowed(rt, cfg.policies, y.name, g, k, grant[k]) {
      assert GrantsLevel(rt, cfg.policies, y.name, g, k, grant[k]);
      LevelsExactly(grant[k], grant[k]);
    }
  }
}
