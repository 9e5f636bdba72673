/**
 Resource identifiers: "repo:owner/name", "org:name", "enterprise:slug", and
 the shorthand "owner/name".

 Texts are sequences of characters; a text with a character outside ASCII is
 rejected by every pattern below, so lengths in characters and in bytes agree
 wherever a length limit decides.
 */
module Resource {
  import opened Wrappers
  import opened Text

  const MAX_OWNER_LEN := 39
  const MAX_REPO_LEN := 100

  datatype ResourceKind = Repo | Org | Enterprise

  datatype Resource = Resource(kind: ResourceKind, owner: string, name: string, raw: string)

  datatype ResourceError =
    | EmptyValue | InvalidRepo | InvalidOrg | InvalidEnterprise | InvalidShorthand | UnknownForm
    | NoValues | MixedKinds | MixedOwners | SeveralUnscoped

  // ----- patterns -----

  type CharClass = char -> bool

  predicate IsLower(c: char) { 'a' <= c <= 'z' }
  predicate IsDigit(c: char) { '0' <= c <= '9' }
  predicate IsSlugChar(c: char) { IsLower(c) || IsDigit(c) }
  predicate IsOwnerChar(c: char) { IsLower(c) || 'A' <= c <= 'Z' || IsDigit(c) }
  predicate IsRepoChar(c: char) { IsOwnerChar(c) || c in {'.', '_', '-'} }

  /** Non-empty runs of the class joined by single hyphens: ^C+(?:-C+)*$ */
  ghost predicate MatchesRuns(cls: CharClass, s: string) {
    exists parts: seq<string> :: AreRuns(cls, parts) && s == JoinWith(parts, '-')
  }

  ghost predicate AreRuns(cls: CharClass, parts: seq<string>) {
    parts != [] && forall i :: 0 <= i < |parts| ==> IsRun(cls, parts[i])
  }

  predicate IsRun(cls: CharClass, s: string) {
    s != "" && forall c :: c in s ==> cls(c)
  }

  /** The same language by position: no hyphen first, last or twice in a row. */
  predicate Hyphenated(cls: CharClass, s: string) {
    && s != ""
    && (forall i :: 0 <= i < |s| ==> cls(s[i]) || s[i] == '-')
    && s[0] != '-' && s[|s| - 1] != '-'
    && (forall i :: 0 <= i < |s| - 1 ==> !(s[i] == '-' && s[i + 1] == '-'))
  }

  lemma {:induction false} RunsAreHyphenated(cls: CharClass, parts: seq<string>)
    requires !cls('-') && AreRuns(cls, parts)
    ensures Hyphenated(cls, JoinWith(parts, '-'))
    ensures JoinWith(parts, '-')[0] == parts[0][0]
  {
    var s, p := JoinWith(parts, '-'), parts[0];
    assert IsRun(cls, p);
    if |parts| == 1 {
      assert forall i :: 0 <= i < |s| ==> s[i] in p;
    } else {
      assert forall i :: 1 <= i < |parts| ==> parts[1..][i - 1] == parts[i];
      RunsAreHyphenated(cls, parts[1..]);
      var rest := JoinWith(parts[1..], '-');
      assert s == p + ['-'] + rest;
      forall i | 0 <= i < |s|
        ensures cls(s[i]) || s[i] == '-'
        ensures i < |s| - 1 ==> !(s[i] == '-' && s[i + 1] == '-')
      {
        if i < |p| {
          assert s[i] == p[i] && p[i] in p;
        } else if i > |p| {
          assert s[i] == rest[i - |p| - 1];
        }
      }
      assert s[|s| - 1] == rest[|rest| - 1];
    }
  }

  lemma FirstRun(cls: CharClass, s: string, i: nat)
    requires !cls('-') && Hyphenated(cls, s)
    requires i < |s| && s[i] == '-' && forall k :: 0 <= k < i ==> s[k] != '-'
    ensures IsRun(cls, s[..i])
    ensures i + 1 < |s| && Hyphenated(cls, s[i + 1..])
  {
    var rest := s[i + 1..];
    assert i < |s| - 1;
    forall k | 0 <= k < |rest|
      ensures rest[k] == s[i + 1 + k] && (cls(rest[k]) || rest[k] == '-')
      ensures k < |rest| - 1 ==> !(rest[k] == '-' && rest[k + 1] == '-')
    {
      if k < |rest| - 1 {
        assert rest[k + 1] == s[i + 1 + k + 1];
      }
    }
    assert rest[0] == s[i + 1];
    assert rest[|rest| - 1] == s[|s| - 1];
    forall c | c in s[..i] ensures cls(c) {
      var k :| 0 <= k < i && s[..i][k] == c;
      assert s[k] == c;
    }
  }

  lemma {:induction false} HyphenatedSplits(cls: CharClass, s: string) returns (parts: seq<string>)
    requires !cls('-') && Hyphenated(cls, s)
    ensures AreRuns(cls, parts) && s == JoinWith(parts, '-')
    decreases |s|
  {
    var i := IndexOf(s, '-');
    if i < 0 {
      parts := [s];
      assert forall c :: c in s ==> cls(c);
    } else {
      FirstRun(cls, s, i);
      var tail := HyphenatedSplits(cls, s[i + 1..]);
      parts := PrependRun(cls, s[..i], tail);
      assert s == s[..i] + ['-'] + s[i + 1..];
    }
  }

  lemma PrependRun(cls: CharClass, run: string, tail: seq<string>) returns (parts: seq<string>)
    requires IsRun(cls, run) && AreRuns(cls, tail)
    ensures AreRuns(cls, parts) && JoinWith(parts, '-') == run + ['-'] + JoinWith(tail, '-')
  {
    parts := [run] + tail;
    assert parts[1..] == tail;
    assert forall i :: 1 <= i < |parts| ==> parts[i] == tail[i - 1];
  }

  /** The pattern and the positional description accept the same texts. */
  lemma RunsIffHyphenated(cls: CharClass, s: string)
    requires !cls('-')
    ensures MatchesRuns(cls, s) <==> Hyphenated(cls, s)
  {
    if MatchesRuns(cls, s) {
      var parts: seq<string> :| AreRuns(cls, parts) && s == JoinWith(parts, '-');
      RunsAreHyphenated(cls, parts);
    }
    if Hyphenated(cls, s) {
      var parts := HyphenatedSplits(cls, s);
    }
  }

  predicate ValidOwner(s: string) {
    s != "" && |s| <= MAX_OWNER_LEN && Hyphenated(IsOwnerChar, s)
  }

  predicate ValidRepoName(s: string) {
    s != "" && |s| <= MAX_REPO_LEN && s != "." && s != ".." && forall i :: 0 <= i < |s| ==> IsRepoChar(s[i])
  }

  predicate ValidSlug(s: string) {
    s != "" && Hyphenated(IsSlugChar, s)
  }

  // ----- parsing -----

  function Prefix(kind: ResourceKind): string {
    match kind
    case Repo => "repo"
    case Org => "org"
    case Enterprise => "enterprise"
  }

  lemma PrefixesDiffer()
    ensures "repo" != "org" && "repo" != "enterprise" && "org" != "enterprise"
    ensures forall k: ResourceKind :: ':' !in Prefix(k)
  {
    assert |"repo"| == 4 && |"org"| == 3 && |"enterprise"| == 10;
  }

  /** A known kind before the first colon, and what follows the colon. */
  function SplitPrefix(raw: string): Option<(ResourceKind, string)> {
    var idx := IndexOf(raw, ':');
    if idx < 0 then None
    else
      var rest := raw[idx + 1..];
      if raw[..idx] == "repo" then Some((Repo, rest))
      else if raw[..idx] == "org" then Some((Org, rest))
      else if raw[..idx] == "enterprise" then Some((Enterprise, rest))
      else None
  }

  /** Owner and name around the first slash. */
  function SplitOwnerName(remainder: string): Option<(string, string)> {
    var idx := IndexOf(remainder, '/');
    if idx < 0 then None
    else if !ValidOwner(remainder[..idx]) || !ValidRepoName(remainder[idx + 1..]) then None
    else Some((remainder[..idx], remainder[idx + 1..]))
  }

  function Canonical(kind: ResourceKind, owner: string, name: string): string {
    Prefix(kind) + [':'] + (if kind == Repo then owner + ['/'] + name else owner)
  }

  function RepoFrom(remainder: string, error: ResourceError): Result<Resource, ResourceError> {
    match SplitOwnerName(remainder)
    case None => Failure(error)
    case Some((owner, name)) => Success(Resource(Repo, owner, name, Canonical(Repo, owner, name)))
  }

  function Parse(raw: string): Result<Resource, ResourceError> {
    if raw == "" then Failure(EmptyValue)
    else
      match SplitPrefix(raw)
      case Some((Repo, rest)) => RepoFrom(rest, InvalidRepo)
      case Some((Org, rest)) =>
        if ValidOwner(rest) then Success(Resource(Org, rest, "", Canonical(Org, rest, ""))) else Failure(InvalidOrg)
      case Some((Enterprise, rest)) =>
        if ValidSlug(rest) then Success(Resource(Enterprise, rest, "", Canonical(Enterprise, rest, "")))
        else Failure(InvalidEnterprise)
      case None => if '/' in raw then RepoFrom(raw, InvalidShorthand) else Failure(UnknownForm)
  }

  // ----- what parsing accepts -----

  predicate ValidParts(kind: ResourceKind, owner: string, name: string) {
    match kind
    case Repo => ValidOwner(owner) && ValidRepoName(name)
    case Org => ValidOwner(owner) && name == ""
    case Enterprise => ValidSlug(owner) && name == ""
  }

  predicate IsCanonical(r: Resource) {
    ValidParts(r.kind, r.owner, r.name) && r.raw == Canonical(r.kind, r.owner, r.name)
  }

  function Shorthand(r: Resource): string {
    r.owner + ['/'] + r.name
  }

  lemma OwnerCharacters(s: string)
    requires ValidOwner(s) || ValidSlug(s)
    ensures ':' !in s && '/' !in s
  {
  }

  lemma PrefixSplits(kind: ResourceKind, rest: string)
    ensures SplitPrefix(Prefix(kind) + [':'] + rest) == Some((kind, rest))
  {
    PrefixesDiffer();
    FirstSplit(Prefix(kind), ':', rest);
  }

  lemma OwnerNameSplits(owner: string, name: string)
    requires ValidOwner(owner)
    ensures SplitOwnerName(owner + ['/'] + name) == if ValidRepoName(name) then Some((owner, name)) else None
  {
    OwnerCharacters(owner);
    FirstSplit(owner, '/', name);
  }

  /** Parsing accepts exactly the canonical forms and the shorthand of a
      repository, and yields exactly the resource that they spell. */
  lemma ParseAcceptsExactly(s: string, r: Resource)
    ensures Parse(s) == Success(r) <==>
            IsCanonical(r) && (s == r.raw || (r.kind == Repo && s == Shorthand(r)))
  {
    if Parse(s) == Success(r) {
      ParseIsSound(s, r);
    }
    if IsCanonical(r) {
      OwnerCharacters(r.owner);
      if s == r.raw {
        PrefixSplits(r.kind, if r.kind == Repo then Shorthand(r) else r.owner);
        if r.kind == Repo {
          OwnerNameSplits(r.owner, r.name);
        }
      } else if r.kind == Repo && s == Shorthand(r) {
        ShorthandHasNoPrefix(r);
        OwnerNameSplits(r.owner, r.name);
        assert s[|r.owner|] == '/';
      }
    }
  }

  lemma ShorthandHasNoPrefix(r: Resource)
    requires IsCanonical(r) && r.kind == Repo
    ensures ':' !in Shorthand(r)
  {
    OwnerCharacters(r.owner);
    assert forall i :: 0 <= i < |r.name| ==> r.name[i] != ':';
  }

  lemma PrefixSplitIsSound(s: string)
    requires SplitPrefix(s).Some?
    ensures s == Prefix(SplitPrefix(s).value.0) + [':'] + SplitPrefix(s).value.1
  {
    var idx := IndexOf(s, ':');
    assert s == s[..idx] + [':'] + s[idx + 1..];
  }

  lemma ParseIsSound(s: string, r: Resource)
    requires Parse(s) == Success(r)
    ensures IsCanonical(r) && (s == r.raw || (r.kind == Repo && s == Shorthand(r)))
  {
    if SplitPrefix(s).Some? {
      PrefixSplitIsSound(s);
      SplitIsSound(SplitPrefix(s).value.1);
    } else {
      SplitIsSound(s);
    }
  }

  lemma SplitIsSound(s: string)
    ensures var p := SplitOwnerName(s);
            p.Some? ==> ValidOwner(p.value.0) && ValidRepoName(p.value.1) && s == p.value.0 + ['/'] + p.value.1
  {
    var idx := IndexOf(s, '/');
    if idx >= 0 {
      assert s == s[..idx] + ['/'] + s[idx + 1..];
    }
  }

  /** Parsing the canonical form of an accepted input changes nothing. */
  lemma CanonicalFormIsStable(s: string)
    requires Parse(s).Success?
    ensures Parse(Parse(s).value.raw) == Parse(s)
  {
    ParseAcceptsExactly(s, Parse(s).value);
    ParseAcceptsExactly(Parse(s).value.raw, Parse(s).value);
  }

  /** A canonical text names one kind, owner and name. */
  lemma CanonicalFormIsInjective(r: Resource, q: Resource)
    requires IsCanonical(r) && IsCanonical(q) && r.raw == q.raw
    ensures r == q
  {
    ParseAcceptsExactly(r.raw, r);
    ParseAcceptsExactly(q.raw, q);
  }

  /** No text is both a canonical form and a shorthand. */
  lemma FormsDoNotOverlap(r: Resource, q: Resource)
    requires IsCanonical(r) && IsCanonical(q) && q.kind == Repo
    ensures r.raw != Shorthand(q)
  {
    ShorthandHasNoPrefix(q);
    assert r.raw[|Prefix(r.kind)|] == ':';
  }

  // ----- accepted texts by their characters -----

  predicate LetterOrDigit(c: char) {
    'a' <= c <= 'z' || 'A' <= c <= 'Z' || '0' <= c <= '9'
  }

  /** No hyphen first, last or twice in a row. */
  predicate HyphensInside(s: string) {
    forall i :: 0 <= i < |s| && s[i] == '-' ==> 0 < i < |s| - 1 && s[i + 1] != '-'
  }

  predicate OwnerText(s: string) {
    1 <= |s| <= 39 && HyphensInside(s) && forall i :: 0 <= i < |s| ==> LetterOrDigit(s[i]) || s[i] == '-'
  }

  predicate RepoNameText(s: string) {
    && 1 <= |s| <= 100 && s != "." && s != ".."
    && forall i :: 0 <= i < |s| ==> LetterOrDigit(s[i]) || s[i] == '.' || s[i] == '_' || s[i] == '-'
  }

  /** Lower case only, of any length. */
  predicate SlugText(s: string) {
    && s != "" && HyphensInside(s)
    && forall i :: 0 <= i < |s| ==> 'a' <= s[i] <= 'z' || '0' <= s[i] <= '9' || s[i] == '-'
  }

  lemma TextsExactly(s: string)
    ensures ValidOwner(s) <==> OwnerText(s)
    ensures ValidRepoName(s) <==> RepoNameText(s)
    ensures ValidSlug(s) <==> SlugText(s)
  {
  }

  /** `s` spells `r`, in one of the four forms. */
  predicate Spells(s: string, r: Resource) {
    match r.kind
    case Repo =>
      && OwnerText(r.owner) && RepoNameText(r.name) && r.raw == "repo:" + r.owner + "/" + r.name
      && (s == r.raw || s == r.owner + "/" + r.name)
    case Org => OwnerText(r.owner) && r.name == "" && r.raw == "org:" + r.owner && s == r.raw
    case Enterprise => SlugText(r.owner) && r.name == "" && r.raw == "enterprise:" + r.owner && s == r.raw
  }

  lemma CanonicalTexts(r: Resource)
    ensures Canonical(Repo, r.owner, r.name) == "repo:" + r.owner + "/" + r.name
    ensures Canonical(Org, r.owner, r.name) == "org:" + r.owner
    ensures Canonical(Enterprise, r.owner, r.name) == "enterprise:" + r.owner
    ensures Shorthand(r) == r.owner + "/" + r.name
  {
    assert "repo:" + r.owner + "/" + r.name == "repo" + [':'] + (r.owner + ['/'] + r.name);
    assert "org:" + r.owner == "org" + [':'] + r.owner;
    assert "enterprise:" + r.owner == "enterprise" + [':'] + r.owner;
  }

  /** Parsing yields exactly the resource that the text spells, character by
      character. */
  lemma ParseSpelledOut(s: string, r: Resource)
    ensures Parse(s) == Success(r) <==> Spells(s, r)
  {
    ParseAcceptsExactly(s, r);
    TextsExactly(r.owner);
    TextsExactly(r.name);
    CanonicalTexts(r);
  }

  predicate HasPrefix(s: string) {
    "repo:" <= s || "org:" <= s || "enterprise:" <= s
  }

  /** What each error says about the text. */
  predicate Explains(error: ResourceError, s: string) {
    match error
    case EmptyValue => s == ""
    case InvalidRepo => "repo:" <= s
    case InvalidOrg => "org:" <= s
    case InvalidEnterprise => "enterprise:" <= s
    case InvalidShorthand => '/' in s && !HasPrefix(s)
    case UnknownForm => s != "" && '/' !in s && !HasPrefix(s)
    case _ => false
  }

  lemma RefusalIsExplained(s: string)
    ensures Parse(s).Failure? ==> Explains(Parse(s).error, s)
  {
    if SplitPrefix(s).None? {
      NoPrefix(s, "repo");
      NoPrefix(s, "org");
      NoPrefix(s, "enterprise");
    } else {
      SplitHasPrefix(s);
    }
  }

  lemma SplitHasPrefix(s: string)
    requires SplitPrefix(s).Some?
    ensures SplitPrefix(s).value.0 == Repo ==> "repo:" <= s
    ensures SplitPrefix(s).value.0 == Org ==> "org:" <= s
    ensures SplitPrefix(s).value.0 == Enterprise ==> "enterprise:" <= s
  {
    PrefixSplitIsSound(s);
    assert "repo" + [':'] == "repo:" && "org" + [':'] == "org:" && "enterprise" + [':'] == "enterprise:";
  }

  lemma NoPrefix(s: string, kind: string)
    requires ':' !in kind
    ensures kind + ":" <= s ==> IndexOf(s, ':') == |kind| && s[..|kind|] == kind
  {
    if kind + ":" <= s {
      assert s == kind + [':'] + s[|kind| + 1..];
      FirstSplit(kind, ':', s[|kind| + 1..]);
    }
  }

  // ----- requests for several resources -----

  ghost predicate Consistent(rs: seq<Resource>) {
    && rs != []
    && (forall i :: 0 <= i < |rs| ==> rs[i].kind == rs[0].kind && rs[i].owner == rs[0].owner)
    && (rs[0].kind != Repo ==> |rs| == 1)
  }

  ghost predicate Parses(values: seq<string>, rs: seq<Resource>) {
    |rs| == |values| && forall i :: 0 <= i < |values| ==> Parse(values[i]) == Success(rs[i])
  }

  method ParseEach(values: seq<string>) returns (r: Result<seq<Resource>, ResourceError>)
    ensures r.Success? <==> forall i :: 0 <= i < |values| ==> Parse(values[i]).Success?
    ensures r.Success? ==> Parses(values, r.value)
    ensures r.Failure? ==> exists i :: 0 <= i < |values| && Explains(r.error, values[i])
  {
    var rs := [];
    for i := 0 to |values|
      invariant |rs| == i && forall k :: 0 <= k < i ==> Parse(values[k]) == Success(rs[k])
    {
      var p := Parse(values[i]);
      if p.Failure? {
        RefusalIsExplained(values[i]);
        return Failure(p.error);
      }
      rs := rs + [p.value];
    }
    return Success(rs);
  }

  method CheckConsistent(rs: seq<Resource>) returns (error: Option<ResourceError>)
    requires rs != []
    ensures error.None? <==> Consistent(rs)
    ensures error == Some(MixedKinds) ==> exists i :: 0 <= i < |rs| && rs[i].kind != rs[0].kind
    ensures error == Some(MixedOwners) ==> exists i :: 0 <= i < |rs| && rs[i].owner != rs[0].owner
    ensures error == Some(SeveralUnscoped) ==> rs[0].kind != Repo && |rs| > 1
    ensures error.Some? ==> error.value in {MixedKinds, MixedOwners, SeveralUnscoped}
  {
    var first := rs[0];
    for i := 1 to |rs|
      invariant forall k :: 0 <= k < i ==> rs[k].kind == first.kind && rs[k].owner == first.owner
    {
      if rs[i].kind != first.kind { return Some(MixedKinds); }
      if rs[i].owner != first.owner { return Some(MixedOwners); }
    }
    if (first.kind == Org || first.kind == Enterprise) && |rs| > 1 {
      return Some(SeveralUnscoped);
    }
    return None;
  }

  /** Succeeds exactly when every value parses and the resources form one
      request: one kind, one owner, and several only for repositories. */
  method ParseAll(values: seq<string>) returns (r: Result<seq<Resource>, ResourceError>)
    ensures r.Success? ==> Parses(values, r.value) && Consistent(r.value)
    ensures r.Failure? ==> forall rs :: Parses(values, rs) ==> !Consistent(rs)
    ensures r == Failure(NoValues) <==> values == []
  {
    if |values| == 0 {
      return Failure(NoValues);
    }
    r := ParseEach(values);
    if r.Failure? {
      NotParsing(values);
      return;
    }
    var error := CheckConsistent(r.value);
    if error.Some? {
      OnlyParse(values, r.value);
      return Failure(error.value);
    }
  }

  lemma NotParsing(values: seq<string>)
    requires !forall i :: 0 <= i < |values| ==> Parse(values[i]).Success?
    ensures forall rs :: !Parses(values, rs)
  {
    var i :| 0 <= i < |values| && !Parse(values[i]).Success?;
    forall rs ensures !Parses(values, rs) {
      assert |rs| == |values| ==> Parse(values[i]) != Success(rs[i]);
    }
  }

  lemma OnlyParse(values: seq<string>, rs: seq<Resource>)
    requires Parses(values, rs)
    ensures forall qs :: Parses(values, qs) ==> qs == rs
  {
    forall qs | Parses(values, qs) ensures qs == rs {
      ParsesIsFunctional(values, qs, rs);
    }
  }

  lemma ParsesIsFunctional(values: seq<string>, a: seq<Resource>, b: seq<Resource>)
    requires Parses(values, a) && Parses(values, b)
    ensures a == b
  {
    forall i | 0 <= i < |values| ensures a[i] == b[i] {
      assert Success(a[i]) == Parse(values[i]) == Success(b[i]);
    }
  }

  /** The bare repository names; none unless the resources are repositories. */
  method RepoShortNames(rs: seq<Resource>) returns (names: seq<string>)
    ensures |names| == if rs != [] && rs[0].kind == Repo then |rs| else 0
    ensures forall i :: 0 <= i < |names| ==> names[i] == rs[i].name
  {
    names := [];
    if |rs| == 0 || rs[0].kind != Repo {
      return;
    }
    for i := 0 to |rs|
      invariant |names| == i && forall k :: 0 <= k < i ==> names[k] == rs[k].name
    {
      names := names + [rs[i].name];
    }
  }

  method RawStrings(rs: seq<Resource>) returns (raws: seq<string>)
    ensures |raws| == |rs| && forall i :: 0 <= i < |rs| ==> raws[i] == rs[i].raw
  {
    raws := [];
    for i := 0 to |rs|
      invariant |raws| == i && forall k :: 0 <= k < i ==> raws[k] == rs[k].raw
    {
      raws := raws + [rs[i].raw];
    }
  }
}
