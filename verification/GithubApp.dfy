/**
 Minting: which access-token request, if any, is sent to GitHub for an owner,
 its resources and the requested permissions.
 */
module GithubApp {
  import opened Wrappers
  import opened Perm
  import opened Resource

  datatype Installation = Installation(id: int, permissions: Permissions)

  /** What GitHub answers to installation lookups. */
  datatype GitHub = GitHub(
    org: string -> Option<Installation>,
    user: string -> Option<Installation>,
    enterprise: string -> Option<Installation>)

  /** The body of an access-token request. An empty list or map is left out of
      the body, which GitHub takes to mean everything the installation has. */
  datatype TokenRequest = TokenRequest(repositories: seq<string>, permissions: Permissions)

  datatype Post = Post(installation: int, request: TokenRequest)

  datatype MintError = NoResources | NoInstallation | InsufficientScope(gaps: map<string, Gap>) | EmptyScope

  /** Organizations first, then users; enterprises have their own endpoint. */
  function Resolve(gh: GitHub, kind: ResourceKind, owner: string): Option<Installation> {
    match kind
    case Enterprise => gh.enterprise(owner)
    case _ => if gh.org(owner).Some? then gh.org(owner) else gh.user(owner)
  }

  /** GitHub's answer for the owner: the enterprise's installation for an
      enterprise, else the organization's, or the user's if there is none. */
  ghost predicate Installed(gh: GitHub, kind: ResourceKind, owner: string, inst: Installation) {
    if kind == Enterprise then gh.enterprise(owner) == Some(inst)
    else gh.org(owner) == Some(inst) || (gh.org(owner) == None && gh.user(owner) == Some(inst))
  }

  ghost predicate NotInstalled(gh: GitHub, kind: ResourceKind, owner: string) {
    if kind == Enterprise then gh.enterprise(owner) == None else gh.org(owner) == None && gh.user(owner) == None
  }

  lemma ResolveExactly(gh: GitHub, kind: ResourceKind, owner: string, inst: Installation)
    ensures Resolve(gh, kind, owner) == Some(inst) <==> Installed(gh, kind, owner, inst)
    ensures Resolve(gh, kind, owner) == None <==> NotInstalled(gh, kind, owner)
  {
  }

  /** The lookups made for a resource of `kind` have the same answers. */
  ghost predicate SameLookups(a: GitHub, b: GitHub, kind: ResourceKind, owner: string) {
    if kind == Enterprise then a.enterprise(owner) == b.enterprise(owner)
    else a.org(owner) == b.org(owner) && a.user(owner) == b.user(owner)
  }

  method MintScopedToken(installation: int, repoNames: seq<string>, perms: Permissions)
    returns (r: Result<Post, MintError>)
    ensures r == if repoNames == [] || perms == map[] then Failure(EmptyScope)
                 else Success(Post(installation, TokenRequest(repoNames, perms)))
  {
    if |repoNames| == 0 || |perms| == 0 {
      return Failure(EmptyScope);
    }
    return Success(Post(installation, TokenRequest(repoNames, perms)));
  }

  method MintInstallationToken(installation: int, perms: Permissions) returns (r: Result<Post, MintError>)
    ensures r == if perms == map[] then Failure(EmptyScope) else Success(Post(installation, TokenRequest([], perms)))
  {
    if |perms| == 0 {
      return Failure(EmptyScope);
    }
    return Success(Post(installation, TokenRequest([], perms)));
  }

  /** The request sent for these resources is for the installation of their
      owner, asks for exactly the normalized permissions, which the installation
      has, and names exactly the repositories. */
  ghost predicate IsRequestFor(cat: Catalog, gh: GitHub, owner: string, rs: seq<Resource>, perms: Permissions,
                               post: Post)
    requires rs != []
  {
    var inst := Resolve(gh, rs[0].kind, owner);
    && inst.Some? && post.installation == inst.value.id
    && post.request.permissions == Normalized(cat, perms)
    && post.request.permissions != map[]
    && Leq(post.request.permissions, Normalized(cat, inst.value.permissions))
    && |post.request.repositories| == (if rs[0].kind == Repo then |rs| else 0)
    && forall i :: 0 <= i < |post.request.repositories| ==> post.request.repositories[i] == rs[i].name
  }

  /** The request goes to the owner's installation and stays within it. */
  ghost predicate PostsTo(cat: Catalog, gh: GitHub, owner: string, rs: seq<Resource>, post: Post) {
    rs != [] && exists inst ::
      && Installed(gh, rs[0].kind, owner, inst) && post.installation == inst.id
      && Leq(post.request.permissions, Normalized(cat, inst.permissions))
  }

  lemma RequestPostsTo(cat: Catalog, gh: GitHub, owner: string, rs: seq<Resource>, perms: Permissions, post: Post)
    requires rs != [] && IsRequestFor(cat, gh, owner, rs, perms, post)
    ensures PostsTo(cat, gh, owner, rs, post)
  {
    ResolveExactly(gh, rs[0].kind, owner, Resolve(gh, rs[0].kind, owner).value);
  }

  method Mint(cat: Catalog, gh: GitHub, owner: string, rs: seq<Resource>, perms: Permissions)
    returns (r: Result<Post, MintError>)
    ensures rs == [] <==> r == Failure(NoResources)
    ensures r.Success? ==> rs != [] && IsRequestFor(cat, gh, owner, rs, perms, r.value)
    ensures r == Failure(NoInstallation) <==> rs != [] && Resolve(gh, rs[0].kind, owner).None?
    ensures rs != [] && Resolve(gh, rs[0].kind, owner).Some? ==>
              (r.Failure? && r.error.InsufficientScope? <==>
               !Leq(Normalized(cat, perms), Normalized(cat, Resolve(gh, rs[0].kind, owner).value.permissions)))
    ensures r.Failure? && r.error.InsufficientScope? ==>
              && rs != [] && Resolve(gh, rs[0].kind, owner).Some?
              && var held := Resolve(gh, rs[0].kind, owner).value.permissions;
              r.error.gaps == GapsOf(Normalized(cat, perms), Normalized(cat, held))
    ensures r == Failure(EmptyScope) ==> Normalized(cat, perms) == map[]
    ensures r.Success? ==> PostsTo(cat, gh, owner, rs, r.value)
    ensures r == Failure(NoInstallation) <==> rs != [] && NotInstalled(gh, rs[0].kind, owner)
  {
    if |rs| == 0 {
      return Failure(NoResources);
    }
    var kind := rs[0].kind;
    var inst := Resolve(gh, kind, owner);
    if inst.None? {
      return Failure(NoInstallation);
    }
    var ceiling := inst.value.permissions;
    var gaps := Gaps(cat, perms, ceiling);
    if gaps.Some? {
      return Failure(InsufficientScope(gaps.value));
    }
    var finalPerms := Intersect(cat, [perms, ceiling]);
    CoveredIffMeetKeepsAll(cat, perms, ceiling, finalPerms);
    match kind
    case Repo =>
      var names := RepoShortNames(rs);
      r := MintScopedToken(inst.value.id, names, finalPerms);
    case _ =>
      r := MintInstallationToken(inst.value.id, finalPerms);
  }

  /** The startup check that the App's own permissions cover every grant. With
      nothing to cover, the manifest is not fetched. */
  method ValidateAppPermissions(cat: Catalog, required: Permissions, manifest: Option<Permissions>) returns (ok: bool)
    ensures ok <==> required == map[] ||
                    (manifest.Some? && Leq(Normalized(cat, required), Normalized(cat, manifest.value)))
  {
    if |required| == 0 {
      return true;
    }
    if manifest.None? {
      return false;
    }
    var gaps := Gaps(cat, required, manifest.value);
    return gaps.None?;
  }
}
