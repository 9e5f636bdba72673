/**
 Concrete conditions, followed through the startup check and evaluation.
 */
module Examples {
  import opened Wrappers
  import opened Cel
  import opened Navigation
  import opened Config
  import opened Condition
  import opened Discipline
  import opened Refinement
  import opened Branches
  import opened Guarantees
  import opened Anchoring
  import opened Resource
  import opened Macros

  /** No comprehension, string function or ordering anywhere. */
  predicate Plain(e: Expr) {
    && !e.kind.Comprehension?
    && (e.kind.Call? ==> e.kind.fn in {Or, And, Eq, In, Add, Cond})
    && forall i :: 0 <= i < |e.kids| ==> Plain(e.kids[i])
  }

  lemma {:induction false} PlainEverywhere(e: Expr, p: Path)
    requires Plain(e) && IsPath(e, p)
    ensures Plain(At(e, p))
  {
    if p != [] {
      PlainEverywhere(e.kids[p[0]], p[1..]);
    }
  }

  lemma PlainBreaksNoCallRule(e: Expr)
    requires Plain(e)
    ensures NoShadowing(e) && NoForbiddenCalls(e)
  {
    forall p | IsPath(e, p) ensures !Shadows(At(e, p)) && !ForbiddenFunction(At(e, p)) && !OrdersVariables(At(e, p)) {
      PlainEverywhere(e, p);
    }
  }

  function RequestResource(): Expr {
    Expr(Select("resource", false), [Expr(Ident(VAR_REQUEST), [])])
  }

  function CallerDot(claim: string): Expr {
    Expr(Select(claim, false), [Expr(Ident(VAR_CALLER), [])])
  }

  function OwnRepositoryText(): Expr {
    App(Add, [Lit(StrV("repo:")), CallerDot("repository")])
  }

  function OwnRepository(): Expr {
    App(Eq, [RequestResource(), OwnRepositoryText()])
  }

  lemma CallerDotReads(claim: string)
    ensures CallerClaim(CallerDot(claim)) == Some(claim) && !References(CallerDot(claim), VAR_REQUEST)
    ensures WellFormed(CallerDot(claim))
  {
    assert VAR_CALLER[0] == 'c';
    VariablesDiffer();
  }

  lemma RequestResourceReads(claims: seq<string>)
    ensures IsResourceRef(RequestResource()) && CallerClaim(RequestResource()).None?
    ensures WellFormed(RequestResource()) && CallerOk(RequestResource(), claims)
  {
    assert VAR_REQUEST[0] == 'r';
    VariablesDiffer();
    assert CallerOk(RequestResource().kids[0], claims);
  }

  lemma OwnRepositoryTextReads(claims: seq<string>)
    requires "repository" in claims
    ensures WellFormed(OwnRepositoryText()) && CallerOk(OwnRepositoryText(), claims)
    ensures !References(OwnRepositoryText(), VAR_REQUEST)
  {
    var e := OwnRepositoryText();
    CallerDotReads("repository");
    AppWellFormed(Add, e.kids);
    assert !References(e.kids[0], VAR_REQUEST) && !References(e.kids[1], VAR_REQUEST);
    assert CallerOk(e.kids[0], claims) && CallerOk(e.kids[1], claims);
  }

  lemma OwnRepositoryTextIsAnchored()
    ensures CallerAnchored(OwnRepositoryText())
  {
    var e := OwnRepositoryText();
    CallerDotReads("repository");
    assert Spine(e.kids[0]) == [e.kids[0]];
    assert Spine(e) == [e.kids[0], e.kids[1]];
    AnchoredIffDocumented(e);
  }

  lemma OwnRepositoryBounds(identity: seq<string>)
    ensures Constrains(OwnRepository(), BoundsResource) && Constrains(OwnRepository(), BoundsCaller(identity))
  {
    var e := OwnRepository();
    RequestResourceReads([]);
    OwnRepositoryTextReads(["repository"]);
    OwnRepositoryTextIsAnchored();
    assert BoundsResource(e.kids[0], e.kids[1]);
    assert BoundsIdentity(identity, e.kids[0], e.kids[1]);
  }

  lemma OwnRepositoryReads(claims: seq<string>)
    requires "repository" in claims
    ensures WellFormed(OwnRepository()) && CallerReadsDeclared(OwnRepository(), claims)
  {
    var e := OwnRepository();
    RequestResourceReads(claims);
    OwnRepositoryTextReads(claims);
    AppWellFormed(Eq, e.kids);
    CallerRuleIsStructural(e, claims);
  }

  lemma OwnRepositoryIsPlain()
    ensures Plain(OwnRepository())
  {
    assert Plain(CallerDot("repository"));
    assert Plain(RequestResource());
    assert Plain(OwnRepositoryText());
  }

  /** The condition is accepted for the GitHub preset, with or without
      require... */
  lemma OwnRepositoryIsAccepted(iss: Issuer)
    requires iss.IsPreset() && "repository" in iss.claims
    ensures WellFormed(OwnRepository()) && Accepted(OwnRepository(), iss)
  {
    OwnRepositoryIsPlain();
    PlainBreaksNoCallRule(OwnRepository());
    OwnRepositoryReads(iss.claims);
    OwnRepositoryBounds(IdentityClaims(iss));
  }

  lemma OwnRepositoryTextValue(h: Host, g: Root)
    ensures Eval(h, g, TOP, OwnRepositoryText()) ==
            if "repository" in g.caller then Ok(StrV("repo:" + g.caller["repository"])) else Err
  {
    var e := OwnRepositoryText();
    CallerDotReads("repository");
    ClaimValue(h, g, TOP, e.kids[1]);
    SumValue(h, g, e);
  }

  lemma EqValue(h: Host, g: Root, e: Expr, x: Res, y: Res)
    requires IsCall(e, Eq, 2) && x == Eval(h, g, TOP, e.kids[0]) && y == Eval(h, g, TOP, e.kids[1])
    ensures Eval(h, g, TOP, e) == if x == Err || y == Err then Err else Bool(x.v == y.v)
  {
    var rs := EvalAll(h, g, TOP, e.kids);
    assert rs == [x, y];
    if Err !in rs {
      OperandsDecide(h, g, TOP, e, x.v, y.v);
    }
  }

  /** ...and it is true exactly for the caller's own repository. */
  lemma OwnRepositoryValue(h: Host, g: Root)
    ensures Eval(h, g, TOP, OwnRepository()) ==
            if "repository" in g.caller then Bool(g.resource == "repo:" + g.caller["repository"]) else Err
  {
    RequestResourceReads([]);
    ResourceValue(h, g, TOP, RequestResource());
    OwnRepositoryTextValue(h, g);
    EqValue(h, g, OwnRepository(), Eval(h, g, TOP, RequestResource()), Eval(h, g, TOP, OwnRepositoryText()));
  }

  // ----- the sibling repository -----

  /** request.resource == "repo:" + caller.repository + suffix */
  function Sibling(suffix: string): Expr {
    App(Eq, [RequestResource(), SiblingText(suffix)])
  }

  function SiblingText(suffix: string): Expr {
    App(Add, [OwnRepositoryText(), Lit(StrV(suffix))])
  }

  lemma SiblingTextReads(suffix: string, claims: seq<string>)
    requires "repository" in claims
    ensures WellFormed(SiblingText(suffix)) && CallerOk(SiblingText(suffix), claims) && Plain(SiblingText(suffix))
    ensures !References(SiblingText(suffix), VAR_REQUEST)
  {
    var e := SiblingText(suffix);
    OwnRepositoryTextReads(claims);
    assert Plain(CallerDot("repository"));
    assert Plain(OwnRepositoryText()) && Plain(e.kids[1]);
    AppWellFormed(Add, e.kids);
    assert CallerOk(e.kids[1], claims) && !References(e.kids[1], VAR_REQUEST);
  }

  lemma SiblingTextIsAnchored(suffix: string)
    ensures CallerAnchored(SiblingText(suffix))
  {
    var e := SiblingText(suffix);
    var own := OwnRepositoryText();
    CallerDotReads("repository");
    assert Spine(own.kids[0]) == [own.kids[0]];
    assert Spine(own) == [own.kids[0], own.kids[1]];
    assert Spine(e) == [own.kids[0], own.kids[1], e.kids[1]];
    AnchoredIffDocumented(e);
  }

  lemma SiblingIsAccepted(suffix: string, iss: Issuer)
    requires iss.IsPreset() && "repository" in iss.claims
    ensures WellFormed(Sibling(suffix)) && Accepted(Sibling(suffix), iss)
  {
    var e := Sibling(suffix);
    RequestResourceReads(iss.claims);
    SiblingTextReads(suffix, iss.claims);
    SiblingTextIsAnchored(suffix);
    ResourceEqIsAccepted(SiblingText(suffix), iss);
  }

  /** request.resource == text is accepted for the preset when the text is
      caller-anchored, well formed and reads declared claims only. */
  lemma ResourceEqIsAccepted(text: Expr, iss: Issuer)
    requires iss.IsPreset() && WellFormed(text) && CallerOk(text, iss.claims) && Plain(text)
    requires !References(text, VAR_REQUEST) && CallerAnchored(text)
    ensures var e := App(Eq, [RequestResource(), text]); WellFormed(e) && Accepted(e, iss)
  {
    var e := App(Eq, [RequestResource(), text]);
    ResourceEqReads(text, iss.claims);
    PlainBreaksNoCallRule(e);
    ResourceEqBounds(text, IdentityClaims(iss));
  }

  lemma ResourceEqReads(text: Expr, claims: seq<string>)
    requires WellFormed(text) && CallerOk(text, claims) && Plain(text)
    ensures var e := App(Eq, [RequestResource(), text]); WellFormed(e) && CallerReadsDeclared(e, claims) && Plain(e)
  {
    var e := App(Eq, [RequestResource(), text]);
    RequestResourceReads(claims);
    assert Plain(RequestResource().kids[0]) && Plain(RequestResource());
    AppWellFormed(Eq, e.kids);
    CallerRuleIsStructural(e, claims);
  }

  lemma ResourceEqBounds(text: Expr, identity: seq<string>)
    requires !References(text, VAR_REQUEST) && CallerAnchored(text)
    ensures var e := App(Eq, [RequestResource(), text]);
            Constrains(e, BoundsResource) && Constrains(e, BoundsCaller(identity))
  {
    var e := App(Eq, [RequestResource(), text]);
    RequestResourceReads([]);
    ListIsNotAnchored(text);
    assert BoundsResource(e.kids[0], e.kids[1]);
    assert BoundsIdentity(identity, e.kids[0], e.kids[1]);
  }

  lemma ListIsNotAnchored(text: Expr)
    ensures text.kind == List ==> !CallerAnchored(text)
  {
    if text.kind == List {
      assert Spine(text) == [text];
    }
  }

  /** The documented sibling condition is true exactly for the caller's own
      repository name with the suffix. */
  lemma SiblingValue(h: Host, g: Root, suffix: string)
    ensures Eval(h, g, TOP, Sibling(suffix)) ==
            if "repository" in g.caller then Bool(g.resource == "repo:" + g.caller["repository"] + suffix) else Err
  {
    RequestResourceReads([]);
    ResourceValue(h, g, TOP, RequestResource());
    SiblingTextValue(h, g, suffix);
    EqValue(h, g, Sibling(suffix), Eval(h, g, TOP, RequestResource()), Eval(h, g, TOP, SiblingText(suffix)));
  }

  lemma SiblingTextValue(h: Host, g: Root, suffix: string)
    ensures Eval(h, g, TOP, SiblingText(suffix)) ==
            if "repository" in g.caller then Ok(StrV("repo:" + g.caller["repository"] + suffix)) else Err
  {
    OwnRepositoryTextValue(h, g);
    SumValue(h, g, SiblingText(suffix));
  }

  /** The finite set that bounds the condition is exactly that one text. */
  lemma SiblingReach(h: Host, caller: map<string, string>, suffix: string)
    requires "repository" in caller
    ensures Reach(h, caller, Sibling(suffix)) == {"repo:" + caller["repository"] + suffix}
  {
    var e := Sibling(suffix);
    var text := "repo:" + caller["repository"] + suffix;
    PairReach(h, caller, e);
    RequestReachesNothing(h, caller);
    SiblingTextReads(suffix, ["repository"]);
    SiblingTextValue(h, Root(caller, ""), suffix);
    assert OperandReach(h, caller, SiblingText(suffix)) == {text};
  }

  lemma PairReach(h: Host, caller: map<string, string>, e: Expr)
    requires !IsJunction(e) && |e.kids| == 2
    ensures Reach(h, caller, e) == OperandReach(h, caller, e.kids[0]) + OperandReach(h, caller, e.kids[1])
  {
  }

  lemma RequestReachesNothing(h: Host, caller: map<string, string>)
    ensures OperandReach(h, caller, RequestResource()) == {}
  {
    RequestResourceReads([]);
    assert References(RequestResource().kids[0], VAR_REQUEST);
  }

  // ----- comparisons of a claim with the request -----

  /** caller.repository == request.resource */
  function ClaimIsResource(): Expr {
    App(Eq, [CallerDot("repository"), RequestResource()])
  }

  lemma ClaimIsResourceBounds(identity: seq<string>)
    requires "repository" in identity
    ensures Constrains(ClaimIsResource(), BoundsResource) && Constrains(ClaimIsResource(), BoundsCaller(identity))
  {
    var e := ClaimIsResource();
    RequestResourceReads([]);
    CallerDotReads("repository");
    VariablesDiffer();
    assert !References(RequestResource().kids[0], VAR_CALLER);
    assert !References(RequestResource(), VAR_CALLER);
    assert BoundsResource(e.kids[1], e.kids[0]);
    assert BoundsIdentity(identity, e.kids[0], e.kids[1]);
  }

  lemma ClaimIsResourceReads(claims: seq<string>)
    requires "repository" in claims
    ensures WellFormed(ClaimIsResource()) && CallerReadsDeclared(ClaimIsResource(), claims) && Plain(ClaimIsResource())
  {
    var e := ClaimIsResource();
    CallerDotReads("repository");
    RequestResourceReads(claims);
    assert Plain(e.kids[0]) && Plain(e.kids[1]);
    AppWellFormed(Eq, e.kids);
    assert CallerOk(e.kids[0], claims);
    CallerRuleIsStructural(e, claims);
  }

  lemma ClaimIsResourceValue(h: Host, g: Root)
    requires "repository" in g.caller
    ensures Eval(h, g, TOP, ClaimIsResource()) == Bool(g.caller["repository"] == g.resource)
  {
    CallerDotReads("repository");
    RequestResourceReads([]);
    ClaimValue(h, g, TOP, CallerDot("repository"));
    ResourceValue(h, g, TOP, RequestResource());
    EqValue(h, g, ClaimIsResource(), Ok(StrV(g.caller["repository"])), Ok(StrV(g.resource)));
  }

  /** Comparing the claim with the resource itself meets both constraint rules,
      and is never true: a canonical resource has a colon before its first
      slash, and the owner in a repository claim has none. */
  lemma ClaimIsNeverResource(h: Host, iss: Issuer, r: Resource, caller: map<string, string>, owner: string,
                             name: string)
    requires iss.IsPreset() && "repository" in iss.claims
    requires IsCanonical(r) && ValidOwner(owner)
    requires "repository" in caller && caller["repository"] == owner + ['/'] + name
    ensures WellFormed(ClaimIsResource()) && Accepted(ClaimIsResource(), iss)
    ensures Eval(h, Root(caller, r.raw), TOP, ClaimIsResource()) == FALSE
  {
    ClaimIsResourceReads(iss.claims);
    PlainBreaksNoCallRule(ClaimIsResource());
    RepositoryIsIdentity();
    ClaimIsResourceBounds(IdentityClaims(iss));
    ClaimIsResourceValue(h, Root(caller, r.raw));
    NoRepositoryIsCanonical(r, owner, name);
  }

  lemma NoRepositoryIsCanonical(r: Resource, owner: string, name: string)
    requires IsCanonical(r) && ValidOwner(owner)
    ensures owner + ['/'] + name != r.raw
  {
    var text, prefix := owner + ['/'] + name, Prefix(r.kind);
    OwnerCharacters(owner);
    PrefixHasNoSlash(r.kind);
    assert r.raw[|prefix|] == ':' && text[|owner|] == '/';
    if |owner| < |prefix| {
      assert r.raw[|owner|] == prefix[|owner|] && prefix[|owner|] in prefix;
    } else if |prefix| < |owner| {
      assert text[|prefix|] == owner[|prefix|] && owner[|prefix|] in owner;
    }
  }

  lemma PrefixHasNoSlash(kind: ResourceKind)
    ensures '/' !in Prefix(kind)
  {
  }

  lemma RepositoryIsIdentity()
    ensures "repository" in GitHubIdentityClaims()
  {
    assert GITHUB_CLAIMS[0] == PresetClaim("repository", true);
    assert GitHubIdentityClaims() == ["repository"] + NamesOf(GITHUB_CLAIMS[1..], true);
  }

  // ----- a pinned value that follows the resource -----

  /** request.resource == r ? x : y */
  function Choice(r: string, x: string, y: string): Expr {
    App(Cond, [App(Eq, [RequestResource(), Lit(StrV(r))]), Lit(StrV(x)), Lit(StrV(y))])
  }

  /** caller.repository == (request.resource == r ? x : y) && request.resource in [r, q] */
  function PerResource(r: string, q: string, x: string, y: string): Expr {
    App(And, [App(Eq, [CallerDot("repository"), Choice(r, x, y)]), ResourceAmong(r, q)])
  }

  function ResourceAmong(r: string, q: string): Expr {
    App(In, [RequestResource(), Expr(List, [Lit(StrV(r)), Lit(StrV(q))])])
  }

  lemma ChoiceReads(r: string, x: string, y: string, claims: seq<string>)
    ensures WellFormed(Choice(r, x, y)) && CallerOk(Choice(r, x, y), claims) && Plain(Choice(r, x, y))
    ensures !References(Choice(r, x, y), VAR_CALLER)
  {
    var e := Choice(r, x, y);
    RequestResourceReads(claims);
    VariablesDiffer();
    var test := e.kids[0];
    assert !References(RequestResource().kids[0], VAR_CALLER) && !References(RequestResource(), VAR_CALLER);
    assert Plain(RequestResource()) && Plain(test.kids[1]) && Plain(test);
    AppWellFormed(Eq, test.kids);
    AppWellFormed(Cond, e.kids);
    assert CallerOk(test.kids[1], claims) && CallerOk(test, claims);
    assert !References(test, VAR_CALLER);
  }

  lemma ResourceAmongReads(r: string, q: string, claims: seq<string>)
    ensures WellFormed(ResourceAmong(r, q)) && CallerOk(ResourceAmong(r, q), claims) && Plain(ResourceAmong(r, q))
    ensures Constrains(ResourceAmong(r, q), BoundsResource)
  {
    var e := ResourceAmong(r, q);
    var list := e.kids[1];
    RequestResourceReads(claims);
    assert Plain(RequestResource()) && Plain(list.kids[0]) && Plain(list.kids[1]) && Plain(list);
    assert WellFormed(list.kids[0]) && WellFormed(list.kids[1]) && WellFormed(list);
    AppWellFormed(In, e.kids);
    assert CallerOk(list.kids[0], claims) && CallerOk(list.kids[1], claims) && CallerOk(list, claims);
    assert !References(list.kids[0], VAR_REQUEST) && !References(list.kids[1], VAR_REQUEST);
    assert !References(list, VAR_REQUEST);
    assert BoundsResource(e.kids[0], e.kids[1]);
  }

  lemma PerResourceIsAccepted(r: string, q: string, x: string, y: string, iss: Issuer)
    requires iss.IsPreset() && "repository" in iss.claims
    ensures WellFormed(PerResource(r, q, x, y)) && Accepted(PerResource(r, q, x, y), iss)
  {
    var e := PerResource(r, q, x, y);
    PerResourceReads(r, q, x, y, iss.claims);
    PlainBreaksNoCallRule(e);
    RepositoryIsIdentity();
    PerResourceBounds(r, q, x, y, IdentityClaims(iss));
  }

  lemma PerResourceReads(r: string, q: string, x: string, y: string, claims: seq<string>)
    requires "repository" in claims
    ensures var e := PerResource(r, q, x, y); WellFormed(e) && CallerReadsDeclared(e, claims) && Plain(e)
  {
    var e := PerResource(r, q, x, y);
    CallerDotReads("repository");
    ChoiceReads(r, x, y, claims);
    ResourceAmongReads(r, q, claims);
    AppWellFormed(Eq, e.kids[0].kids);
    AppWellFormed(And, e.kids);
    assert CallerOk(CallerDot("repository"), claims) && CallerOk(e.kids[0], claims);
    assert Plain(CallerDot("repository")) && Plain(e.kids[0]);
    CallerRuleIsStructural(e, claims);
  }

  lemma PerResourceBounds(r: string, q: string, x: string, y: string, identity: seq<string>)
    requires "repository" in identity
    ensures var e := PerResource(r, q, x, y);
            Constrains(e, BoundsResource) && Constrains(e, BoundsCaller(identity))
  {
    var e := PerResource(r, q, x, y);
    ResourceAmongReads(r, q, []);
    ChoiceBounds(r, x, y, identity);
    AndConstrains(e, BoundsResource);
    AndConstrains(e, BoundsCaller(identity));
  }

  lemma AndConstrains(e: Expr, bound: Bound)
    requires IsCall(e, And, 2) && (Constrains(e.kids[0], bound) || Constrains(e.kids[1], bound))
    ensures Constrains(e, bound)
  {
  }

  lemma ChoiceBounds(r: string, x: string, y: string, identity: seq<string>)
    requires "repository" in identity
    ensures Constrains(App(Eq, [CallerDot("repository"), Choice(r, x, y)]), BoundsCaller(identity))
  {
    var e := App(Eq, [CallerDot("repository"), Choice(r, x, y)]);
    CallerDotReads("repository");
    ChoiceReads(r, x, y, []);
    assert BoundsIdentity(identity, e.kids[0], e.kids[1]);
  }

  lemma ChoiceValue(h: Host, g: Root, r: string, x: string, y: string)
    ensures Eval(h, g, TOP, Choice(r, x, y)) == Ok(StrV(if g.resource == r then x else y))
  {
    var e := Choice(r, x, y);
    RequestResourceReads([]);
    ResourceValue(h, g, TOP, RequestResource());
    EqValue(h, g, e.kids[0], Ok(StrV(g.resource)), Ok(StrV(r)));
    assert EvalAll(h, g, TOP, e.kids) == [Bool(g.resource == r), Ok(StrV(x)), Ok(StrV(y))];
  }

  lemma ResourceAmongValue(h: Host, g: Root, r: string, q: string)
    ensures Eval(h, g, TOP, ResourceAmong(r, q)) == Bool(g.resource == r || g.resource == q)
  {
    var e := ResourceAmong(r, q);
    RequestResourceReads([]);
    ResourceValue(h, g, TOP, RequestResource());
    LiteralListValue(h, g, TOP, e.kids[1]);
    assert LiteralsOf(e.kids[1].kids) == [StrV(r), StrV(q)];
    OperandsDecide(h, g, TOP, e, StrV(g.resource), ListV([StrV(r), StrV(q)]));
  }

  /** The value to which an accepted condition pins the caller can depend on the
      resource: here each of two resources pins the claim to its own value, and
      each is granted to that caller and to no other. */
  lemma PinCanFollowResource(h: Host, g: Root, r: string, q: string, x: string, y: string)
    requires "repository" in g.caller && r != q
    ensures Eval(h, g, TOP, PerResource(r, q, x, y)) ==
            Bool((g.resource == r && g.caller["repository"] == x) || (g.resource == q && g.caller["repository"] == y))
  {
    var e := PerResource(r, q, x, y);
    var repository := g.caller["repository"];
    CallerDotReads("repository");
    ClaimValue(h, g, TOP, CallerDot("repository"));
    ChoiceValue(h, g, r, x, y);
    EqValue(h, g, e.kids[0], Ok(StrV(repository)), Ok(StrV(if g.resource == r then x else y)));
    ResourceAmongValue(h, g, r, q);
    AndValue(h, g, e, repository == (if g.resource == r then x else y), g.resource == r || g.resource == q);
  }

  lemma AndValue(h: Host, g: Root, e: Expr, a: bool, b: bool)
    requires IsCall(e, And, 2) && Eval(h, g, TOP, e.kids[0]) == Bool(a) && Eval(h, g, TOP, e.kids[1]) == Bool(b)
    ensures Eval(h, g, TOP, e) == Bool(a && b)
  {
    var rs := EvalAll(h, g, TOP, e.kids);
    assert rs == [Bool(a), Bool(b)];
    assert rs[0] in rs && rs[1] in rs;
    assert forall t :: t in rs <==> t == Bool(a) || t == Bool(b);
  }

  // ----- the migration from request.resources -----

  /** request.resources */
  function Alias(): Expr {
    Expr(Select("resources", false), [Expr(Ident(VAR_REQUEST), [])])
  }

  /** x == "text", the body of the comprehensions to be migrated */
  function ElementIs(x: string, text: string): Expr {
    App(Eq, [Expr(Ident(x), []), Lit(StrV(text))])
  }

  lemma AliasValue(h: Host, g: Root)
    ensures Eval(h, g, TOP, Alias()) == Ok(ListV([StrV(g.resource)]))
  {
    assert VAR_REQUEST[0] == 'r';
    assert |"resource"| != |"resources"|;
    ResourceValue(h, g, TOP, Alias());
  }

  lemma ElementValue(h: Host, g: Root, loc: Locals, x: string, text: string, s: string)
    requires !Dotted(x) && x in loc && loc[x] == Ok(StrV(s))
    ensures Eval(h, g, loc, ElementIs(x, text)) == Bool(s == text)
  {
    OperandsDecide(h, g, loc, ElementIs(x, text), StrV(s), StrV(text));
  }

  /** The documented migration preserves meaning: a comprehension over the
      one-element alias and the == that replaces it have the same value. Only
      the replacement satisfies the rule that the resource is constrained. */
  lemma MigrationPreservesMeaning(h: Host, g: Root, x: string, text: string)
    requires !Dotted(x) && x != ACCU
    ensures var replacement := App(Eq, [RequestResource(), Lit(StrV(text))]);
            && Eval(h, g, TOP, AllMacro(Alias(), x, ElementIs(x, text))) == Eval(h, g, TOP, replacement)
            && Eval(h, g, TOP, ExistsMacro(Alias(), x, ElementIs(x, text))) == Eval(h, g, TOP, replacement)
            && Constrains(replacement, BoundsResource)
    ensures !Constrains(AllMacro(Alias(), x, ElementIs(x, text)), BoundsResource)
    ensures !Constrains(ExistsMacro(Alias(), x, ElementIs(x, text)), BoundsResource)
  {
    var p, items := ElementIs(x, text), [StrV(g.resource)];
    AliasValue(h, g);
    ElementIsClosed(x, text);
    OneElement(h, g, x, text);
    AllIsConjunction(h, g, TOP, Alias(), x, p, items);
    ExistsIsDisjunction(h, g, TOP, Alias(), x, p, items);
    SingleResult(Bool(g.resource == text).v.b);
    ReplacementValue(h, g, text);
  }

  lemma ElementIsClosed(x: string, text: string)
    requires x != ACCU
    ensures !Free(ElementIs(x, text), ACCU)
  {
    assert !Free(ElementIs(x, text).kids[0], ACCU) && !Free(ElementIs(x, text).kids[1], ACCU);
  }

  lemma OneElement(h: Host, g: Root, x: string, text: string)
    requires !Dotted(x)
    ensures Results(h, g, TOP, x, ElementIs(x, text), [StrV(g.resource)]) == [Bool(g.resource == text)]
  {
    var items := [StrV(g.resource)];
    assert items[..0] == [];
    assert Results(h, g, TOP, x, ElementIs(x, text), items[..0]) == [];
    ElementValue(h, g, TOP[x := Ok(items[0])], x, text, g.resource);
  }

  lemma SingleResult(b: bool)
    ensures OrRes([Bool(b)]) == Bool(b) && AndRes([Bool(b)]) == Bool(b)
  {
    assert [Bool(b)][0] in [Bool(b)];
  }

  lemma ReplacementValue(h: Host, g: Root, text: string)
    ensures var e := App(Eq, [RequestResource(), Lit(StrV(text))]);
            Eval(h, g, TOP, e) == Bool(g.resource == text) && Constrains(e, BoundsResource)
  {
    var e := App(Eq, [RequestResource(), Lit(StrV(text))]);
    RequestResourceReads([]);
    ResourceValue(h, g, TOP, RequestResource());
    EqValue(h, g, e, Ok(StrV(g.resource)), Ok(StrV(text)));
    assert !References(e.kids[1], VAR_REQUEST);
    assert BoundsResource(e.kids[0], e.kids[1]);
  }
}
