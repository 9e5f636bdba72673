/**
 From verified token claims to the caller's identity: the registered claims,
 the time window, and which claims policies get to see.
 */
module Auth {
  import opened Wrappers
  import opened Config

  // ----- time -----

  /** Times and durations are in nanoseconds. A duration is an int64; a time is
      kept as seconds and nanoseconds and does not wrap in the range of valid
      dates. */
  const SECOND := 1_000_000_000
  const MAX_DURATION := 0x7FFF_FFFF_FFFF_FFFF
  const MIN_DURATION := -0x8000_0000_0000_0000
  const MAX_UNIX_SECONDS := 0x20_0000_0000_0000

  function Wrap64(x: int): int {
    (x + 0x8000_0000_0000_0000) % 0x1_0000_0000_0000_0000 - 0x8000_0000_0000_0000
  }

  function Seconds(n: int): int {
    Wrap64(Wrap64(n) * SECOND)
  }

  /** The difference of two times: computed with wrap-around, checked by adding
      it back, and replaced by an extreme duration when that fails. */
  function Sub(t: int, u: int): int {
    var d := Wrap64(t - u);
    if u + d == t then d else if t < u then MIN_DURATION else MAX_DURATION
  }

  lemma SubSaturates(t: int, u: int)
    ensures Sub(t, u) == if t - u < MIN_DURATION then MIN_DURATION
                         else if t - u > MAX_DURATION then MAX_DURATION
                         else t - u
  {
  }

  lemma SecondsExact(n: int)
    requires -MAX_TOKEN_LIFETIME <= n <= MAX_TOKEN_LIFETIME
    ensures Seconds(n) == n * SECOND
  {
  }

  // ----- claims -----

  datatype Json = JNull | JBool(b: bool) | JNum(n: real) | JStr(s: string) | JArr(elems: seq<Json>) | JObj(text: string)

  type Claims = map<string, Json>

  const MAX_CLAIM_BYTES := 1024

  function Utf8Len(s: string): nat {
    if s == "" then 0
    else
      (if s[0] as int < 0x80 then 1 else if s[0] as int < 0x800 then 2 else if s[0] as int < 0x10000 then 3 else 4)
      + Utf8Len(s[1..])
  }

  datatype ClaimRead = Absent | Text(s: string) | Unusable

  /** A claim that is present must be a string within the limit or a boolean. */
  function StringClaim(claims: Claims, name: string): ClaimRead {
    if name !in claims then Absent
    else
      match claims[name]
      case JStr(s) => if Utf8Len(s) > MAX_CLAIM_BYTES then Unusable else Text(s)
      case JBool(b) => Text(if b then "true" else "false")
      case _ => Unusable
  }

  /** A NumericDate, truncated to whole seconds. */
  function NumericDate(claims: Claims, name: string): Option<int> {
    if name in claims && claims[name].JNum? && 0.0 <= claims[name].n <= MAX_UNIX_SECONDS as real then
      Some(claims[name].n.Floor * SECOND)
    else None
  }

  datatype Identity = Identity(
    issuer: string,
    issuerUrl: string,
    subject: string,
    tokenId: string,
    issuedAt: int,
    expiry: int,
    claims: map<string, string>)

  datatype AuthError =
    | IssuerMismatch | AudienceMismatch | InvalidDate(name: string)
    | LifetimeTooLong | Expired | IssuedInFuture | NotYetValid
    | UnusableClaim(name: string) | SubjectMissing | RequirementNotMet(name: string)

  // ----- what is accepted -----

  predicate AudienceIs(claims: Claims, audience: string) {
    "aud" in claims && (claims["aud"] == JStr(audience) || claims["aud"] == JArr([JStr(audience)]))
  }

  /** The window checks as the machine computes them. */
  predicate WithinWindow(iss: Issuer, skewSeconds: int, now: int, exp: int, iat: int) {
    && 0 <= Sub(exp, iat) <= Seconds(iss.maxTokenLifetimeSeconds)
    && now <= exp + Seconds(skewSeconds)
    && now >= iat + Wrap64(-Seconds(skewSeconds))
  }

  predicate NotBeforeReached(claims: Claims, skewSeconds: int, now: int) {
    "nbf" in claims ==>
      NumericDate(claims, "nbf").Some? && now >= NumericDate(claims, "nbf").value + Wrap64(-Seconds(skewSeconds))
  }

  predicate TimesAccepted(iss: Issuer, skewSeconds: int, now: int, claims: Claims) {
    var exp, iat := NumericDate(claims, "exp"), NumericDate(claims, "iat");
    && exp.Some? && iat.Some?
    && WithinWindow(iss, skewSeconds, now, exp.value, iat.value)
    && NotBeforeReached(claims, skewSeconds, now)
  }

  ghost predicate RequirementMet(claims: Claims, name: string, allowed: seq<string>) {
    StringClaim(claims, name).Text? && StringClaim(claims, name).s in allowed
  }

  ghost predicate Admits(iss: Issuer, skewSeconds: int, now: int, claims: Claims) {
    && "iss" in claims && claims["iss"] == JStr(iss.url)
    && AudienceIs(claims, iss.audience)
    && TimesAccepted(iss, skewSeconds, now, claims)
    && StringClaim(claims, "sub").Text? && StringClaim(claims, "sub").s != ""
    && !StringClaim(claims, "jti").Unusable?
    && (forall c :: c in iss.claims ==> !StringClaim(claims, c).Unusable?)
    && (forall c :: c in iss.require ==> RequirementMet(claims, c, iss.require[c]))
  }

  /** The declared claims that the token carries, as text. */
  function Exposed(declared: seq<string>, claims: Claims): map<string, string> {
    map c | c in declared && StringClaim(claims, c).Text? :: StringClaim(claims, c).s
  }

  method ExposeClaims(declared: seq<string>, claims: Claims) returns (r: Result<map<string, string>, AuthError>)
    ensures r.Success? <==> forall c :: c in declared ==> !StringClaim(claims, c).Unusable?
    ensures r.Success? ==> r.value == Exposed(declared, claims)
    ensures r.Failure? ==> r.error.UnusableClaim? && StringClaim(claims, r.error.name).Unusable?
  {
    var exposed: map<string, string> := map[];
    for i := 0 to |declared|
      invariant forall c :: c in declared[..i] ==> !StringClaim(claims, c).Unusable?
      invariant exposed == Exposed(declared[..i], claims)
    {
      assert declared[..i + 1] == declared[..i] + [declared[i]];
      match StringClaim(claims, declared[i])
      case Unusable =>
        assert declared[i] in declared;
        return Failure(UnusableClaim(declared[i]));
      case Text(s) => exposed := exposed[declared[i] := s];
      case Absent =>
    }
    assert declared[..|declared|] == declared;
    return Success(exposed);
  }

  /** The requirements, in any order. */
  method CheckRequirements(require: map<string, seq<string>>, claims: Claims) returns (error: Option<AuthError>)
    ensures error.None? <==> forall c :: c in require ==> RequirementMet(claims, c, require[c])
    ensures error.Some? ==>
              || (error.value.UnusableClaim? && StringClaim(claims, error.value.name).Unusable?)
              || (error.value.RequirementNotMet? && error.value.name in require
                  && !StringClaim(claims, error.value.name).Unusable?
                  && !RequirementMet(claims, error.value.name, require[error.value.name]))
  {
    var todo := require.Keys;
    while todo != {}
      invariant todo <= require.Keys
      invariant forall c :: c in require && c !in todo ==> RequirementMet(claims, c, require[c])
      decreases |todo|
    {
      var c :| c in todo;
      var read := StringClaim(claims, c);
      if read.Unusable? {
        return Some(UnusableClaim(c));
      }
      if !read.Text? || read.s !in require[c] {
        return Some(RequirementNotMet(c));
      }
      todo := todo - {c};
    }
    return None;
  }

  /** What each error about dates says. */
  ghost predicate TimeError(iss: Issuer, skewSeconds: int, now: int, claims: Claims, error: AuthError) {
    var exp, iat, nbf := NumericDate(claims, "exp"), NumericDate(claims, "iat"), NumericDate(claims, "nbf");
    match error
    case InvalidDate(name) => name in {"exp", "iat", "nbf"} && NumericDate(claims, name).None?
    case LifetimeTooLong =>
      exp.Some? && iat.Some? && !(0 <= Sub(exp.value, iat.value) <= Seconds(iss.maxTokenLifetimeSeconds))
    case Expired => exp.Some? && now > exp.value + Seconds(skewSeconds)
    case IssuedInFuture => iat.Some? && now < iat.value + Wrap64(-Seconds(skewSeconds))
    case NotYetValid => nbf.Some? && now < nbf.value + Wrap64(-Seconds(skewSeconds))
    case _ => false
  }

  method CheckTimes(iss: Issuer, skewSeconds: int, now: int, claims: Claims) returns (error: Option<AuthError>)
    ensures error.None? <==> TimesAccepted(iss, skewSeconds, now, claims)
    ensures error.Some? ==> TimeError(iss, skewSeconds, now, claims, error.value)
  {
    var exp, iat := NumericDate(claims, "exp"), NumericDate(claims, "iat");
    if exp.None? { return Some(InvalidDate("exp")); }
    if iat.None? { return Some(InvalidDate("iat")); }
    var lifetime := Sub(exp.value, iat.value);
    if lifetime < 0 || lifetime > Seconds(iss.maxTokenLifetimeSeconds) { return Some(LifetimeTooLong); }
    if now > exp.value + Seconds(skewSeconds) { return Some(Expired); }
    if now < iat.value + Wrap64(-Seconds(skewSeconds)) { return Some(IssuedInFuture); }
    if "nbf" in claims {
      var nbf := NumericDate(claims, "nbf");
      if nbf.None? { return Some(InvalidDate("nbf")); }
      if now < nbf.value + Wrap64(-Seconds(skewSeconds)) { return Some(NotYetValid); }
    }
    return None;
  }

  function IdentityOf(iss: Issuer, claims: Claims): Identity
    requires StringClaim(claims, "sub").Text?
    requires NumericDate(claims, "exp").Some? && NumericDate(claims, "iat").Some?
  {
    var jti := StringClaim(claims, "jti");
    Identity(iss.name, iss.url, StringClaim(claims, "sub").s, if jti.Text? then jti.s else "",
             NumericDate(claims, "iat").value, NumericDate(claims, "exp").value, Exposed(iss.claims, claims))
  }

  /** Each refusal is for its stated reason. */
  ghost predicate Explains(iss: Issuer, skewSeconds: int, now: int, claims: Claims, error: AuthError) {
    match error
    case IssuerMismatch => !("iss" in claims && claims["iss"] == JStr(iss.url))
    case AudienceMismatch =>
      !("aud" in claims && (claims["aud"] == JStr(iss.audience) || claims["aud"] == JArr([JStr(iss.audience)])))
    case UnusableClaim(name) => name in claims && !Readable(claims[name])
    case SubjectMissing => "sub" !in claims || ReadsAs(claims["sub"], "")
    case RequirementNotMet(name) =>
      && name in iss.require && (name in claims ==> Readable(claims[name]))
      && !RequirementMet(claims, name, iss.require[name])
    case _ => TimeError(iss, skewSeconds, now, claims, error)
  }

  method Identify(iss: Issuer, skewSeconds: int, now: int, claims: Claims) returns (r: Result<Identity, AuthError>)
    ensures r.Success? <==> Admits(iss, skewSeconds, now, claims)
    ensures r.Success? ==> r.value == IdentityOf(iss, claims) && Carries(iss, claims, r.value)
    ensures r.Failure? ==> Explains(iss, skewSeconds, now, claims, r.error)
  {
    if "iss" !in claims || claims["iss"] != JStr(iss.url) { return Failure(IssuerMismatch); }
    if !AudienceIs(claims, iss.audience) { return Failure(AudienceMismatch); }
    var error := CheckTimes(iss, skewSeconds, now, claims);
    if error.Some? { return Failure(error.value); }
    var sub := StringClaim(claims, "sub");
    ReadExactly(claims, "sub", "");
    if sub.Unusable? { return Failure(UnusableClaim("sub")); }
    if !sub.Text? || sub.s == "" { return Failure(SubjectMissing); }
    var jti := StringClaim(claims, "jti");
    ReadExactly(claims, "jti", "");
    if jti.Unusable? { return Failure(UnusableClaim("jti")); }
    var exposed := ExposeClaims(iss.claims, claims);
    if exposed.Failure? {
      ReadExactly(claims, exposed.error.name, "");
      return Failure(exposed.error);
    }
    error := CheckRequirements(iss.require, claims);
    if error.Some? {
      ReadExactly(claims, error.value.name, "");
      return Failure(error.value);
    }
    IdentityCarriesTheToken(iss, skewSeconds, now, claims);
    return Success(IdentityOf(iss, claims));
  }

  // ----- the time window -----

  /** Within the configured limits, saturation and wrap-around never show: the
      machine checks are the inequalities on the dates themselves, and the
      skew cannot stretch a token's life beyond its own bounds. */
  lemma WindowIsExact(iss: Issuer, skewSeconds: int, now: int, exp: int, iat: int)
    requires 1 <= iss.maxTokenLifetimeSeconds <= MAX_TOKEN_LIFETIME && 0 <= skewSeconds <= MAX_CLOCK_SKEW
    requires 0 <= exp <= MAX_UNIX_SECONDS * SECOND && 0 <= iat <= MAX_UNIX_SECONDS * SECOND
    ensures var life, skew := iss.maxTokenLifetimeSeconds * SECOND, skewSeconds * SECOND;
            && (WithinWindow(iss, skewSeconds, now, exp, iat) <==>
                iat <= exp <= iat + life && iat - skew <= now <= exp + skew)
            && (WithinWindow(iss, skewSeconds, now, exp, iat) ==> iat - skew <= now <= iat + life + skew)
  {
    SecondsExact(iss.maxTokenLifetimeSeconds);
    SecondsExact(skewSeconds);
    SubSaturates(exp, iat);
  }

  /** So the dates of a token are accepted exactly when they satisfy the
      inequalities, whichever valid dates they are. */
  lemma TimesAreExact(iss: Issuer, skewSeconds: int, now: int, claims: Claims)
    requires 1 <= iss.maxTokenLifetimeSeconds <= MAX_TOKEN_LIFETIME && 0 <= skewSeconds <= MAX_CLOCK_SKEW
    ensures var exp, iat, nbf := NumericDate(claims, "exp"), NumericDate(claims, "iat"), NumericDate(claims, "nbf");
            var life, skew := iss.maxTokenLifetimeSeconds * SECOND, skewSeconds * SECOND;
            TimesAccepted(iss, skewSeconds, now, claims) <==>
              && exp.Some? && iat.Some? && ("nbf" in claims ==> nbf.Some? && nbf.value - skew <= now)
              && iat.value <= exp.value <= iat.value + life && iat.value - skew <= now <= exp.value + skew
  {
    SecondsExact(skewSeconds);
    var exp, iat := NumericDate(claims, "exp"), NumericDate(claims, "iat");
    if exp.Some? && iat.Some? {
      WindowIsExact(iss, skewSeconds, now, exp.value, iat.value);
    }
  }

  /** Two dates far enough apart make the difference saturate, and the token is
      still rejected. */
  lemma SaturatedLifetimeIsRejected(iss: Issuer, skewSeconds: int, now: int, exp: int, iat: int)
    requires 1 <= iss.maxTokenLifetimeSeconds <= MAX_TOKEN_LIFETIME
    requires exp - iat > MAX_DURATION || exp - iat < MIN_DURATION
    ensures Sub(exp, iat) != exp - iat && !WithinWindow(iss, skewSeconds, now, exp, iat)
  {
    SecondsExact(iss.maxTokenLifetimeSeconds);
    SubSaturates(exp, iat);
  }

  // ----- noninterference -----

  ghost predicate SameOn(a: Claims, b: Claims, name: string) {
    (name in a <==> name in b) && (name in a ==> a[name] == b[name])
  }

  /** The claims that the broker itself looks at. */
  ghost predicate Consulted(iss: Issuer, name: string) {
    name in REGISTERED_CLAIMS || name in {"sub", "jti"} || name in iss.claims || name in iss.require
  }

  /** Any other claim changes neither whether a token is accepted nor anything
      that policies see. */
  lemma OtherClaimsAreIrrelevant(iss: Issuer, skewSeconds: int, now: int, a: Claims, b: Claims)
    requires forall name :: Consulted(iss, name) ==> SameOn(a, b, name)
    ensures Admits(iss, skewSeconds, now, a) <==> Admits(iss, skewSeconds, now, b)
    ensures Admits(iss, skewSeconds, now, a) ==> IdentityOf(iss, a) == IdentityOf(iss, b)
  {
    assert forall name :: Consulted(iss, name) ==> StringClaim(a, name) == StringClaim(b, name);
    assert forall name :: Consulted(iss, name) ==> NumericDate(a, name) == NumericDate(b, name);
    assert Consulted(iss, "iss") && Consulted(iss, "aud") && Consulted(iss, "exp") && Consulted(iss, "iat");
    assert Consulted(iss, "nbf") && Consulted(iss, "sub") && Consulted(iss, "jti");
    assert forall c :: c in iss.claims ==> Consulted(iss, c);
    assert forall c :: c in iss.require ==> Consulted(iss, c);
    assert Exposed(iss.claims, a) == Exposed(iss.claims, b);
  }

  /** Policies see exactly the declared claims that the token carries, and
      never a registered one. */
  lemma ExposedExactly(iss: Issuer, skewSeconds: int, now: int, claims: Claims)
    requires (forall c :: c in iss.claims ==> ValidClaimName(c)) && Admits(iss, skewSeconds, now, claims)
    ensures forall c :: c in Exposed(iss.claims, claims) <==> c in iss.claims && c in claims
    ensures Exposed(iss.claims, claims).Keys !! REGISTERED_CLAIMS
  {
    forall c | c in iss.claims && c in claims ensures StringClaim(claims, c).Text? {
      assert !StringClaim(claims, c).Unusable?;
    }
  }

  // ----- acceptance in terms of the token -----

  /** Lengths are those of UTF-8 (section 3 of RFC 3629). */
  lemma {:induction false} Utf8LenExactly(a: string, b: string, c: char)
    ensures Utf8Len(a + b) == Utf8Len(a) + Utf8Len(b)
    ensures Utf8Len([c]) == 1 <==> c <= '\U{7F}'
    ensures Utf8Len([c]) <= 2 <==> c <= '\U{7FF}'
    ensures Utf8Len([c]) <= 3 <==> c <= '\U{FFFF}'
    ensures 1 <= Utf8Len([c]) <= 4
  {
    assert [c][1..] == "" && Utf8Len("") == 0;
    if a == "" {
      assert a + b == b;
    } else {
      assert (a + b)[1..] == a[1..] + b;
      Utf8LenExactly(a[1..], b, c);
    }
  }

  /** The text of a claim: a string of at most 1024 bytes as it is, and the
      JSON words for the booleans. Nothing else is a text. */
  ghost predicate ReadsAs(j: Json, s: string) {
    || (j == JStr(s) && Utf8Len(s) <= 1024)
    || (j == JBool(true) && s == "true")
    || (j == JBool(false) && s == "false")
  }

  ghost predicate Readable(j: Json) {
    exists s :: ReadsAs(j, s)
  }

  lemma ReadExactly(claims: Claims, name: string, s: string)
    ensures StringClaim(claims, name) == Text(s) <==> name in claims && ReadsAs(claims[name], s)
    ensures StringClaim(claims, name).Text? <==> name in claims && Readable(claims[name])
    ensures StringClaim(claims, name).Unusable? <==> name in claims && !Readable(claims[name])
  {
    if StringClaim(claims, name).Text? {
      assert ReadsAs(claims[name], StringClaim(claims, name).s);
    }
    if name in claims && claims[name].JStr? {
      assert Readable(claims[name]) ==> ReadsAs(claims[name], claims[name].s);
    }
  }

  /** A NumericDate from 0 to 2^53 that falls into second `t`. */
  ghost predicate DateIs(claims: Claims, name: string, t: int) {
    && name in claims && claims[name].JNum? && 0.0 <= claims[name].n <= 9007199254740992.0
    && t as real <= claims[name].n < (t + 1) as real
  }

  lemma DateExactly(claims: Claims, name: string, t: int)
    ensures NumericDate(claims, name) == Some(t * 1_000_000_000) <==> DateIs(claims, name, t)
    ensures NumericDate(claims, name).Some? ==> DateIs(claims, name, NumericDate(claims, name).value / 1_000_000_000)
    ensures NumericDate(claims, name).Some? ==> NumericDate(claims, name).value % 1_000_000_000 == 0
  {
    if NumericDate(claims, name).Some? {
      assert claims[name].n.Floor as real <= claims[name].n < (claims[name].n.Floor + 1) as real;
    }
  }

  /** The dates are in order, the token is no older than the issuer allows, and
      now is within its life, give or take the skew. Dates count seconds, now
      counts nanoseconds. */
  ghost predicate InTime(iss: Issuer, skew: int, now: int, claims: Claims) {
    && (exists exp, iat ::
          && DateIs(claims, "exp", exp) && DateIs(claims, "iat", iat)
          && iat <= exp <= iat + iss.maxTokenLifetimeSeconds
          && (iat - skew) * 1_000_000_000 <= now <= (exp + skew) * 1_000_000_000)
    && ("nbf" in claims ==> exists nbf :: DateIs(claims, "nbf", nbf) && (nbf - skew) * 1_000_000_000 <= now)
  }

  /** What a token must carry to be accepted. */
  ghost predicate Acceptable(iss: Issuer, skew: int, now: int, claims: Claims) {
    && "iss" in claims && claims["iss"] == JStr(iss.url)
    && "aud" in claims && (claims["aud"] == JStr(iss.audience) || claims["aud"] == JArr([JStr(iss.audience)]))
    && InTime(iss, skew, now, claims)
    && "sub" in claims && (exists s :: ReadsAs(claims["sub"], s) && s != "")
    && ("jti" in claims ==> Readable(claims["jti"]))
    && (forall c :: c in iss.claims && c in claims ==> Readable(claims[c]))
    && (forall c :: c in iss.require ==> c in claims && exists s :: ReadsAs(claims[c], s) && s in iss.require[c])
  }

  lemma InTimeExactly(iss: Issuer, skew: int, now: int, claims: Claims)
    requires 1 <= iss.maxTokenLifetimeSeconds <= 86400 && 0 <= skew <= 300
    ensures TimesAccepted(iss, skew, now, claims) <==> InTime(iss, skew, now, claims)
  {
    TimesAreExact(iss, skew, now, claims);
    if TimesAccepted(iss, skew, now, claims) {
      DateExactly(claims, "exp", 0);
      DateExactly(claims, "iat", 0);
      DateExactly(claims, "nbf", 0);
    }
    forall name, t | DateIs(claims, name, t) ensures NumericDate(claims, name) == Some(t * 1_000_000_000) {
      DateExactly(claims, name, t);
    }
  }

  lemma RequirementExactly(claims: Claims, name: string, allowed: seq<string>)
    ensures RequirementMet(claims, name, allowed) <==>
            name in claims && exists s :: ReadsAs(claims[name], s) && s in allowed
  {
    forall s ensures StringClaim(claims, name) == Text(s) <==> name in claims && ReadsAs(claims[name], s) {
      ReadExactly(claims, name, s);
    }
  }

  lemma SubjectExactly(claims: Claims)
    ensures StringClaim(claims, "sub").Text? && StringClaim(claims, "sub").s != "" <==>
            "sub" in claims && exists s :: ReadsAs(claims["sub"], s) && s != ""
  {
    forall s ensures StringClaim(claims, "sub") == Text(s) <==> "sub" in claims && ReadsAs(claims["sub"], s) {
      ReadExactly(claims, "sub", s);
    }
  }

  /** Identification accepts exactly the tokens that carry what it asks for. */
  lemma AdmitsExactly(iss: Issuer, skew: int, now: int, claims: Claims)
    requires 1 <= iss.maxTokenLifetimeSeconds <= 86400 && 0 <= skew <= 300
    ensures Admits(iss, skew, now, claims) <==> Acceptable(iss, skew, now, claims)
  {
    InTimeExactly(iss, skew, now, claims);
    SubjectExactly(claims);
    forall c ensures StringClaim(claims, c).Unusable? <==> c in claims && !Readable(claims[c]) {
      ReadExactly(claims, c, "");
    }
    forall c | c in iss.require
      ensures RequirementMet(claims, c, iss.require[c]) <==>
              c in claims && exists s :: ReadsAs(claims[c], s) && s in iss.require[c]
    {
      RequirementExactly(claims, c, iss.require[c]);
    }
  }

  /** The identity is the issuer's, with the token's own subject, id and dates,
      and with the texts of exactly the declared claims that the token has. */
  ghost predicate Carries(iss: Issuer, claims: Claims, id: Identity) {
    && id.issuer == iss.name && id.issuerUrl == iss.url
    && "sub" in claims && ReadsAs(claims["sub"], id.subject)
    && (if "jti" in claims then ReadsAs(claims["jti"], id.tokenId) else id.tokenId == "")
    && (exists t :: DateIs(claims, "iat", t) && id.issuedAt == t * 1_000_000_000)
    && (exists t :: DateIs(claims, "exp", t) && id.expiry == t * 1_000_000_000)
    && (forall c :: c in id.claims <==> c in iss.claims && c in claims)
    && (forall c :: c in id.claims && c in claims ==> ReadsAs(claims[c], id.claims[c]))
  }

  lemma IdentityCarriesTheToken(iss: Issuer, skew: int, now: int, claims: Claims)
    requires Admits(iss, skew, now, claims)
    ensures Carries(iss, claims, IdentityOf(iss, claims))
  {
    var id := IdentityOf(iss, claims);
    ReadExactly(claims, "sub", id.subject);
    ReadExactly(claims, "jti", id.tokenId);
    DateExactly(claims, "iat", 0);
    DateExactly(claims, "exp", 0);
    forall c | c in iss.claims
      ensures c in id.claims <==> c in claims
      ensures c in id.claims ==> ReadsAs(claims[c], id.claims[c])
    {
      ReadExactly(claims, c, if c in id.claims then id.claims[c] else "");
    }
  }

  /** A token and an issuer determine the identity. */
  lemma CarriedIdentityIsUnique(iss: Issuer, claims: Claims, a: Identity, b: Identity)
    requires Carries(iss, claims, a) && Carries(iss, claims, b)
    ensures a == b
  {
    assert a.claims.Keys == b.claims.Keys;
    forall name, t, u | DateIs(claims, name, t) && DateIs(claims, name, u) ensures t == u {
      DateExactly(claims, name, t);
      DateExactly(claims, name, u);
    }
  }
}
