# A verified model of the token broker's authorization

The broker exchanges an OIDC token for a GitHub App installation token. Operators
write policies as CEL conditions; at startup each condition is checked for
structural rules, and the documentation promises that the rules make every
accepted condition safe in certain ways. At run time a request passes through
claim verification, resource parsing, scope decoding, policy evaluation and
minting. This project models that path in Dafny and proves what it guarantees.

`dafny verify dfyconfig.toml` checks everything.

## How the model is laid out

- `Cel`: condition trees and their evaluation. A tree is the macro-expanded,
  checked form that the broker inspects: a node with a kind and children, as in
  cel-go's NavigableExpr. Evaluation follows the CEL language definition:
  `&&`/`||` absorb errors, `?:` is lazy, everything else is strict, a
  comprehension is a loop over an accumulator that may hold an error. It is
  untyped, so results cover more trees than the type checker accepts. Strict
  functions without a meaning here (`size`, `<`, `int`, arithmetic, ...), type
  names and map iteration order are an arbitrary `Host`.
- `Navigation`, `Condition`: parents and descendants by path; the startup check,
  rule by rule, with the loops of the source as methods.
- `Rules`: the startup rules once more, read off kinds, names and positions of
  nodes and the branches of a condition, as the documentation puts them; the
  check accepts exactly the conditions that follow them.
- `Macros`, `Laws`: what each expanded macro computes, and laws that relate the
  operators of the language to one another.
- `Discipline`, `Refinement`, `Branches`: the parent-based rules restated by
  recursion, one induction that compares evaluations under two requests, and the
  disjunctive normal form of a condition.
- `Guarantees`, `Anchoring`, `Examples`: the theorems about accepted conditions,
  and concrete conditions followed through the startup check and evaluation.
- `Perm`, `Config`, `Engine`: the permission lattice, the configuration and the
  decision engine. Loops over Go maps pick an arbitrary remaining key, so what is
  proved holds for every iteration order.
- `Text`, `Resource`, `Scope`, `Auth`, `GithubApp`: strings, resource
  identifiers, the scope parameter, token claims and time, and minting.
- `Server`, `EndToEnd`, `Broker`: a whole exchange, when exactly it ends with a
  request to GitHub and what that request implies, and a broker with two issuers
  for which it does.
- `Throttle`: the key-set fetch throttle, alone and under interleaving.

## The main results

1. The startup check accepts exactly the conditions that follow the documented
   rules (`AcceptedExactly`).
2. A missing claim never makes an accepted condition true: adding claims keeps
   every result (`MissingClaimNeverGrants`), and adding claims to a token keeps
   every allowed request allowed and never shrinks a grant, away from the cost
   limit (`MissingClaimGainsNothing`). The proof needs that early exit of `all`
   and `exists` is invisible. Without the rule on caller reads it fails
   (`PresenceTestGrantsOnAbsence`).
3. For a given caller an accepted condition is true only within a finite set of
   resources fixed before the request is seen; without a preset it is true only
   for resources it spells out, and cannot tell the others apart.
4. Without `require`, a condition that is true owes this to one of its own
   comparisons, reached through `&&` and `||` alone: either it equates an
   identity claim with, or finds it in, a value that no claim influences, or the
   resource is anchored to the caller, and then the parsed owner is the caller's
   own (`CallerIsPinnedOrAnchored`, `AnchoredOwnerIsOwn`). For a given resource
   the claim is one of finitely many values computed from the condition
   (`CallerWithinReach`). The values may differ from resource to resource
   (`PinCanFollowResource`).
5. The grant of a resource is the least upper bound of its matching policies;
   decisions are made resource by resource and do not depend on any order. In
   terms of the configuration: a request is allowed iff it names resources and for
   each of them some policy of the issuer says yes and every required permission
   is granted high enough by one that does (`AllowedExactly`).
6. From the arguments of an exchange to the request sent
   (`TokenRequestIsJustified`): the permissions are the decoded scope, within
   every resource's grant, the aggregate of all grants and the installation; the
   repositories are those requested; every resource is justified by a policy of
   the caller's own issuer, whose condition binds the resource and pins, anchors
   or requires something of this caller. The refusal of an empty scope is
   unreachable, and the outcome is unique. Conversely a request is sent whenever
   a configured issuer accepts the token, targets and scope are well formed, the
   issuer's policies allow every target and the owner's installation covers the
   scope (`SentExactlyWhenDeserved`).
7. Key-set requests: with delays up to D between a fetch's admission and its
   request, requests of every run are `gap` apart exactly for the gaps up to
   interval - D (`RequestSpacingExactly`), and no fetch gets stuck
   (`NothingIsStuck`).

## Where code and documentation differ

- Two scopes of equal size compare equal when one has an empty level under a key
  that the other lacks (internal/server/server.go:344-354). Decoded scopes have no
  empty level; `ComparisonIsEqualityIff` gives the exact condition.
- One key-set request per interval (internal/auth/discovery.go:74-76) holds for
  admissions. The request is sent after the mutex is released, and a delay there
  shortens the distance to the next: all runs keep the interval between requests
  iff nothing is delayed (`FullIntervalIffNoDelay`). The number sent is bounded in
  any case (`SentAtMostAdmitted`).
- The rule that no comprehension variable is named `caller` or `request`, and the
  rule on string functions and ordering, are modelled and checked, but none of the
  theorems about evaluation needs them.

## Model

| member | source | states |
|---|---|---|
| Navigation.DescendantsAreThePaths | internal/policy/engine.go:180-181 | The descendant traversal visits every node of a condition and nothing else. |
| Condition.CheckCallerAnchored | internal/policy/engine.go:416-452 | The loop that walks the + chain, reverses it and inspects its head decides anchoring of the left-to-right operands. |
| Condition.CheckCondition | internal/policy/engine.go:179-235 | Startup accepts exactly the conditions that obey every rule; otherwise the first broken rule in order is reported, for a node that breaks it, and an undeclared claim that is read is named. |
| Rules.AcceptedExactly | internal/policy/engine.go:166-235 | A condition is accepted iff no node is refused, every caller identifier is read as a declared claim, without a preset every request identifier is read in a literal test, every branch tests the resource and, without require, every branch tests an identity claim or an anchored resource. |
| Rules.RefusedNodeIsRejected | internal/policy/engine.go:182-201 | A call of any of the four string functions, a comprehension with one of its three variables named caller or request, or one of the four orderings with caller or request anywhere below an operand rejects the whole condition, wherever the node is. |
| Rules.ReferencesWithin | internal/policy/engine.go:292-300 | A variable is referenced iff some path leads to its identifier, with or without the leading dot. |
| Config.IdentityClaimsAreDocumented | README.md:224-227 | The identity claims are the seven that the documentation names. |
| Config.PresetClaimsAreDocumented | README.md:200-222 | The preset declares the documented claims and no others. |
| Discipline.CallerRuleIsStructural | internal/policy/engine.go:202-214 | Every caller identifier has a parent that reads a declared claim iff the condition is built from such reads alone. |
| Discipline.RequestRuleIsStructural | internal/policy/engine.go:335-363 | Every request identifier has a literal comparison as grandparent, with the reference on the right side of it, iff the condition reads request only inside literal comparisons. |
| Refinement.EarlyExitIsInvisible | README.md:288-290 | The loops of the standard macros compute what they would without their stop condition, whatever errors the accumulator holds. |
| Refinement.EvalRefines | README.md:288-292 | If two requests agree on what a condition reads, except for claims added, results agree except for errors that resolve; for every nesting of comprehensions. |
| Discipline.MacrosAreWellFormed | internal/policy/env.go:32-41 | Every standard macro over well-formed parts expands to a loop of the shape that the theorems cover. |
| Macros.ExistsIsDisjunction | README.md:288-290 | The expanded exists over a list or a map has the value of the error-absorbing disjunction of its predicate over the elements. |
| Macros.AllIsConjunction | README.md:288-290 | The expanded all over a list or a map has the value of the error-absorbing conjunction of its predicate over the elements. |
| Macros.MapIsPointwise | internal/policy/env.go:32-41 | The expanded map yields the list of the body's values, and an error if one of them is. |
| Macros.FilterKeepsTrue | internal/policy/env.go:32-41 | The expanded filter keeps the elements whose predicate is true, and is an error if some result is no bool. |
| Macros.ExistsOneCounts | internal/policy/env.go:32-41 | The expanded exists_one is true iff exactly one result is, and an error if some result is no bool. |
| Branches.ConstrainsIsEveryBranch | internal/policy/engine.go:365-383 | A condition constrains iff every clause of its disjunctive normal form contains an accepted comparison. |
| Branches.TrueIsSomeBranch | internal/policy/engine.go:365-368 | A condition is true iff some clause has all its leaves true, wherever errors occur in the others. |
| Guarantees.UnreferencedIsIrrelevant | internal/policy/engine.go:298-300 | An expression that does not reference a variable, dotted or not, evaluates the same for every value of it. |
| Guarantees.OnlyDeclaredClaimsMatter | internal/policy/engine.go:173-174 | An accepted condition depends on no claim that its issuer does not declare. |
| Guarantees.MoreClaimsKeepTheResult | README.md:288-292 | Adding claims to a token keeps every value an accepted condition already had. |
| Guarantees.MissingClaimNeverGrants | README.md:291-292 | An accepted condition that is true without a claim is true for every value of the claim. |
| Guarantees.PresenceTestGrantsOnAbsence | internal/policy/engine_test.go:510-516 | A presence test is rejected by the caller rule, and is true exactly when the claim is missing. |
| Guarantees.TrueOnlyWithinReach | internal/policy/engine.go:223-226 | For each caller, an accepted condition is true only for resources in a finite set computed without the request. |
| Guarantees.NonPresetNamesItsResources | internal/policy/engine.go:215-222 | Without a preset, an accepted condition is true only for a resource that is one of its string literals. |
| Guarantees.NonPresetCannotTellOthersApart | internal/policy/engine.go:215-222 | Without a preset, two resources outside the literals evaluate identically and never to true. |
| Anchoring.ChainValue | internal/policy/engine.go:416-423 | A chain of literals and claims evaluates to the concatenation of its operands in order, or to an error when a claim is absent. |
| Anchoring.AnchoredIffDocumented | README.md:273-279 | The chains accepted as caller-anchored are exactly the three documented forms. |
| Anchoring.AnchoredChainText | internal/policy/engine.go:411-415 | The value of an anchored chain begins with the caller's own repository or owner. |
| Anchoring.CallerIsPinnedOrAnchored | internal/policy/engine.go:227-233 | Without require, a true accepted condition contains a true comparison, reached through conjunctions and disjunctions alone, that equates an identity claim with, or finds it in, a value that is the same for every caller; or its resource is anchored to the caller. |
| Anchoring.PinnedCallersAgree | README.md:224-227 | Two callers for whom the same pinning == holds have the same value of the claim, whenever the operand is a fixed value or the resource is the same. |
| Anchoring.CallerWithinReach | internal/policy/engine.go:227-233 | Without require and away from anchored resources, some identity claim of a caller for whom the condition is true is among finitely many values computed from the condition and the resource. |
| Examples.OwnRepositoryIsAccepted | internal/policy/engine_test.go:656-656 | The own-repository condition is accepted for the preset with or without require. |
| Examples.OwnRepositoryValue | internal/policy/engine_test.go:148-165 | The own-repository condition is true exactly for the caller's own repository, and an error when the claim is absent. |
| Examples.SiblingIsAccepted | internal/policy/engine_test.go:658-658 | The condition for a sibling repository is accepted for the preset, whatever the suffix. |
| Examples.SiblingValue | README.md:302-306 | It is true exactly for the caller's own repository name with the suffix, and an error when the claim is absent. |
| Examples.SiblingReach | internal/policy/engine.go:223-226 | The finite set that bounds its truth is exactly that one resource. |
| Examples.ClaimIsNeverResource | internal/policy/engine.go:391-400 | Comparing the repository claim with the resource itself satisfies both constraint rules and is false for every parsed resource and every owner/name claim. |
| Examples.PerResourceIsAccepted | internal/policy/engine.go:391-400 | A comparison of an identity claim with a conditional over the resource, next to a list of two resources, is accepted for the preset. |
| Examples.PinCanFollowResource | internal/policy/engine.go:391-400 | Such a condition is true exactly for each of two resources together with its own value of the claim, so the value that pins the caller can depend on the resource. |
| Examples.MigrationPreservesMeaning | README.md:106-109 | all and exists over the one-element request.resources have the value of the documented replacement with ==, and only the replacement constrains the resource. |
| Perm.Normalize | internal/perm/perm.go:45-57 | Keeps exactly the entries with a known key and a valid level, in any iteration order. |
| Perm.Satisfies | internal/perm/perm.go:101-110 | Decides the lattice order on normalized maps. |
| Perm.Gaps | internal/perm/perm.go:123-139 | Finds nothing iff the requirement is covered, and otherwise exactly the missing and too-low keys. |
| Perm.Intersect | internal/perm/perm.go:59-94 | Computes the greatest normal map below every input, and the empty map for no inputs. |
| Perm.MeetIsUnique | internal/perm/perm.go:59-65 | The intersection depends only on which inputs there are, not on order or repetition. |
| Perm.CoveredIffMeetKeepsAll | internal/githubapp/githubapp.go:169-174 | Coverage, absence of gaps and an intersection that equals the normalized requirement are the same. |
| Perm.MergePermissions | internal/policy/engine.go:510-517 | Merging computes the pointwise join with the normalized source, in any order of entries. |
| Perm.CoversPermissions | internal/policy/engine.go:519-524 | True iff normalization drops nothing from the requirement and the grant covers it. |
| Config.AggregateGrantPermissions | internal/config/config.go:480-497 | Computes the same join as merging, over all policies, though it overrides only on a strictly higher level. |
| Config.JoinedGrantsBound | internal/config/config.go:480-482 | The aggregate is normal and the least map above every policy's normalized grant. |
| Config.AggregateExactly | internal/config/config.go:483-497 | A key is in the aggregate iff the catalog has it and some policy lists it at read, write or admin, and then at the highest of these levels. |
| Engine.New | internal/policy/engine.go:91-124 | Succeeds iff every policy names a configured issuer that accepts its condition; then each issuer has its own policies in order. |
| Engine.EvaluateResource | internal/policy/engine.go:478-500 | The loop over the policies computes the grant, the coverage and the names of matching and skipped policies, one policy merging at a time. |
| Engine.Evaluate | internal/policy/engine.go:454-508 | Rejects exactly the oversized lists; otherwise yields grants per resource, sorted matched, skipped and uncovered lists, and allows iff there are resources and all are covered. |
| Engine.GrantIsLeastUpperBound | README.md:180-180 | The grant of a resource is normal and the least upper bound of the normalized grants of the policies matching it. |
| Engine.GrantExactly | internal/policy/engine.go:485-500 | A grant holds a key iff the catalog has it and some configured policy of the issuer that says yes lists it at a valid level, and then at the highest of these levels. |
| Engine.AllowedExactly | internal/policy/engine.go:454-461 | Given the engine built from the configuration, a request is allowed iff it names resources and each has a policy that says yes and, for every required permission, one that says yes and grants it high enough; the uncovered list holds exactly the other resources. |
| Engine.ReportedExactly | internal/policy/engine.go:485-506 | The matched list names exactly the configured policies that say yes to some resource, the skipped list those that end in an error, a value that is no bool or too high a cost. |
| Engine.DecisionIsUnique | internal/policy/engine.go:454-457 | The decision, lists included, depends only on the set of policies and the set of resources. |
| Engine.OtherIssuersAreIrrelevant | internal/policy/engine.go:63-65 | Changing or reordering policies of other issuers, or reordering this issuer's, leaves the decision as it is. |
| Engine.DecisionIsPerResource | internal/policy/engine.go:457-460 | A request is allowed iff it is non-empty and each resource is allowed alone, with the same grant as alone. |
| Engine.GrantWithinAggregate | internal/config/config.go:480-497 | No resource's grant exceeds the aggregate of all configured grants. |
| Resource.RunsIffHyphenated | internal/resource/resource.go:18-24 | The owner and slug patterns accept exactly the non-empty texts of the class and hyphens with no hyphen first, last or doubled. |
| Resource.ParseAcceptsExactly | internal/resource/resource.go:44-113 | Parsing yields a resource iff the input is its canonical text, or the shorthand of a repository. |
| Resource.ParseSpelledOut | internal/resource/resource.go:133-200 | Parsing yields exactly the resource that the text spells in one of the four forms: owners of 1 to 39 letters, digits and inner single hyphens, repository names of 1 to 100 letters, digits, dots, underscores and hyphens other than "." and "..", slugs of lower-case letters, digits and inner single hyphens. |
| Resource.RefusalIsExplained | internal/resource/resource.go:51-113 | Each error names its reason: no text, an invalid rest after one of the three prefixes, an invalid shorthand, or neither a prefix nor a slash. |
| Resource.CanonicalFormIsStable | internal/resource/resource.go:41-41 | Parsing the canonical text of an accepted input gives the same resource. |
| Resource.CanonicalFormIsInjective | internal/resource/resource.go:36-42 | A canonical text determines kind, owner and name. |
| Resource.FormsDoNotOverlap | internal/resource/resource.go:97-110 | No text is both a prefixed form and a shorthand. |
| Resource.ParseAll | internal/resource/resource.go:201-245 | Succeeds iff every value parses and they share kind and owner, several only for repositories. |
| Resource.RepoShortNames | internal/resource/resource.go:269-282 | The bare names in order for repositories, none otherwise. |
| Auth.SubSaturates | internal/auth/auth.go:187-187 | The time difference computed with wrap-around and checked by adding back is the exact difference, saturated. |
| Auth.TimesAreExact | internal/auth/auth.go:179-205 | For all valid dates and configured limits the int64 checks are the inequalities on exp, iat and nbf themselves. |
| Auth.WindowIsExact | internal/auth/auth.go:187-196 | An accepted token is used between iat - skew and iat + maximum lifetime + skew. |
| Auth.SaturatedLifetimeIsRejected | internal/auth/auth.go:187-189 | Dates so far apart that the difference saturates are rejected. |
| Auth.Identify | internal/auth/auth.go:160-255 | Accepts iff issuer, audience, times, sub, jti, declared claims and all requirements pass; the identity carries what the token says; each refusal is for its stated reason. |
| Auth.AdmitsExactly | internal/auth/auth.go:162-237 | Within the configured limits, in terms of the JSON values alone: the exact issuer and audience, dates in order and in time, a readable non-empty sub, a readable jti and readable declared claims where present, and every required claim reading as an allowed text. |
| Auth.IdentityCarriesTheToken | internal/auth/auth.go:246-255 | The identity has the issuer's name and URL, the token's sub, jti and dates in whole seconds, and the text of exactly the declared claims that the token has. |
| Auth.CarriedIdentityIsUnique | internal/auth/auth.go:246-255 | A token and an issuer leave one identity. |
| Auth.ReadExactly | internal/auth/auth.go:266-288 | A claim reads as its string if that has at most 1024 bytes, as "true" or "false" if it is that boolean, and not at all otherwise. |
| Auth.DateExactly | internal/auth/auth.go:257-264 | A date is a number from 0 to 2^53, taken down to whole seconds. |
| Auth.Utf8LenExactly | internal/auth/auth.go:274-277 | Claim lengths count the bytes of UTF-8. |
| Auth.OtherClaimsAreIrrelevant | internal/auth/auth.go:219-237 | Claims that are not registered, declared, required, sub or jti change neither acceptance nor identity. |
| Auth.ExposedExactly | internal/auth/auth.go:43-45 | Policies see exactly the declared claims present, never a registered one. |
| Scope.DecodeScope | internal/server/server.go:304-327 | Fails on an empty scope or any invalid token; otherwise maps every token, later ones winning. |
| Scope.FieldsExactly | internal/server/server.go:309-313 | A scope splits into a list of tokens iff it consists of these with white space between and around them. |
| Scope.ParseTokenExactly | internal/server/server.go:314-322 | A token is valid iff it is a non-empty key, a colon and a level that the catalog lists for this very key. |
| Scope.DecodedExactly | internal/server/server.go:304-327 | Decoding gives a map iff the scope spaces out at least one token, all are valid, and the map has exactly their keys, each at the level of its last token. |
| Scope.LastTokenWins | internal/server/server.go:314-325 | A key that occurs in several tokens has the level of the last of them. |
| Scope.DecodedScopeIsNormal | internal/server/server.go:304-308 | A decoded scope is non-empty, supported by the catalog and unchanged by normalization. |
| Scope.EncodeScope | internal/server/server.go:329-342 | Emits the tokens in key order joined by single spaces. |
| Scope.EncodingIsUnique | internal/server/server.go:329-330 | The encoding of a map is one text, whatever order its keys are visited in. |
| Scope.ScopeRoundTrip | internal/server/server.go:329-342 | Decoding the encoding of a supported, non-empty map returns the map. |
| Scope.ScopeEqual | internal/server/server.go:344-354 | Compares sizes and levels, a missing key reading as the empty level. |
| Scope.ComparisonIsEqualityIff | internal/server/server.go:344-354 | The comparison is equality for every right operand iff the left one has no empty level. |
| GithubApp.Mint | internal/githubapp/githubapp.go:144-185 | Sends to the owner's installation, looked up at the enterprise, or the organization and then the user, exactly the normalized permissions, which it has and which are not empty, and for repositories exactly their names; each refusal, the one of an empty scope included, has its cause. |
| GithubApp.ValidateAppPermissions | internal/githubapp/githubapp.go:425-456 | Passes iff nothing is required or the manifest covers it. |
| Server.HandleToken | internal/server/server.go:214-270 | Each outcome says exactly how far the request came; minting is refused only for a missing installation or insufficient permissions, never for an empty scope. |
| EndToEnd.IssuerDecides | internal/auth/auth.go:129-155 | A token that names any configured issuer's URL is refused as invalid iff it is not acceptable to that issuer, and a request sent for it carries that issuer's identity. |
| EndToEnd.UnknownIssuerIsRefused | internal/auth/auth.go:139-143 | A token that names no configured issuer's URL is refused as invalid. |
| EndToEnd.LeastPrivilege | internal/githubapp/githubapp.go:144-148 | The permissions sent are those requested, not empty, and within every resource's grant, the aggregate of all grants and the installation. |
| EndToEnd.WithinAppManifest | internal/githubapp/githubapp.go:425-427 | If the startup check passed, every request sent is covered by the App's manifest. |
| EndToEnd.AnchoredOwnerIsOwn | internal/policy/engine.go:411-415 | A parsed resource whose text is anchored to the caller has the caller's owner and is a repository or an organization. |
| EndToEnd.EveryResourceIsJustified | internal/policy/engine.go:454-461 | Each resource of each request sent has a configured policy of the verifying issuer whose condition is true for it, has it within its reach, and pins this caller by one of its comparisons or anchors the resource to it, or else the issuer's requirements hold. |
| EndToEnd.ForeignOwnerNeedsPinnedCaller | README.md:264-271 | Without require, a caller reaches another owner's resource only through a configured policy whose own condition pins one of the caller's identity claims, to one of the finitely many values that the condition fixes for that resource. |
| EndToEnd.TokenRequestIsJustified | internal/server/server.go:214-270 | A request sent asks for exactly the decoded scope and the repositories of the parsed targets, within every grant, the aggregate and the installation, for an authentic token, with a justifying policy behind every target. |
| EndToEnd.SentExactlyWhenDeserved | internal/server/server.go:214-270 | A token is requested iff a configured issuer accepts the token, targets and scope are well formed, the issuer's policies allow every target and the owner's installation covers the scope; and then for that identity, those resources, that installation and that scope. |
| EndToEnd.OtherLookupsChangeNothing | internal/githubapp/githubapp.go:155-166 | An enterprise's outcome does not depend on organization and user installations, nor that of a repository or organization on enterprise installations. |
| Broker.BrokerStarts | internal/policy/engine.go:91-124 | A configuration with two issuers and a policy of the second starts, for any catalog and any supported grant. |
| Broker.ExchangeHappens | internal/server/server.go:214-270 | In that broker every token of the second issuer's subject leads to a request for the policy's organization, at its installation and with the scope granted. |
| EndToEnd.MissingClaimGainsNothing | README.md:288-292 | Away from the cost limit, adding claims to a token keeps every allowed request allowed and shrinks no resource's grant. |
| EndToEnd.OutcomeIsUnique | internal/policy/engine.go:454-461 | Brokers that agree on the policies of one issuer, in any order, come to the same outcome for its callers. |
| EndToEnd.OtherClaimsChangeNothing | internal/auth/auth.go:43-48 | Claims that are not consulted change neither authentication nor the outcome of an exchange. |
| Throttle.Transport.RoundTrip | internal/auth/discovery.go:85-99 | Refuses non-https and too-early key-set fetches; an admitted one moves the stamp by at least the interval; nothing else moves it. |
| Throttle.AdmittedPerWindow | internal/auth/discovery.go:74-76 | In every interleaving, any window of length w holds at most floor(w / interval) + 1 admitted fetches. |
| Throttle.SentAtMostAdmitted | internal/auth/discovery.go:90-100 | No more key-set requests are sent than were admitted, so their number is bounded by the time passed. |
| Throttle.RequestSpacingExactly | internal/auth/discovery.go:90-100 | All runs with delays up to D keep requests a given gap apart iff the gap is not positive or at most interval - D. |
| Throttle.FullIntervalIffNoDelay | internal/auth/discovery.go:74-76 | All runs with delays up to D keep one request per interval iff D is 0. |
| Throttle.NothingIsStuck | internal/auth/discovery.go:90-97 | In every reachable state the holder of the mutex can go on, without a holder every unfinished fetch can, an admitted fetch can be sent in any case and a new one can begin. |
| Throttle.MutexIsReleased | internal/auth/discovery.go:90-97 | From every reachable state the mutex is free after at most three steps. |

## Left out

- CEL parsing and type checking: conditions are well-formed trees, that is, identifiers and literals are leaves and comprehensions are the standard macros, which are the only ones the environment enables.
- CEL numbers: int, uint and double are one kind compared on the number line; NaN and the differences between their types are not represented. Arithmetic on them is part of the arbitrary host.
- Cost accounting: which evaluations exceed the limit is arbitrary, and such a policy is skipped.
- Guarantees.MissingClaimNeverGrants: speaks of the condition's value without a cost limit; a longer claim value can exceed the limit, which `MissingClaimGainsNothing` states.
- Condition warnings and error texts.
- Audit-only claims: they are recorded and never reach a decision; that they are irrelevant follows from `OtherClaimsAreIrrelevant`.
- Signature verification, routing by an unverified issuer, token size and discovery: claims are an arbitrary map of JSON values.
- JSON numbers are reals rather than float64; valid dates are exact in both.
- Server.HandleToken: starts after the checks of content type, grant type and token types, and ends with the request sent to GitHub, so neither GitHub's answer nor the HTTP response is modelled.
- GithubApp.Mint: installation lookup is an arbitrary function; a resource kind outside the three that parsing produces does not exist in the model.
- Config: schema, defaults, issuer URLs, algorithms and key material; the claim tables are constants where the source fills slices in a loop.
- Engine.Evaluate: the condition's result is a function of claims and resource, so a comprehension over a map sees one fixed order per map.
- Auth.Identify: which of several errors is reported when a token fails in several ways.
- The permission catalog's contents: an arbitrary map of keys to levels.
- Log output, metadata documents, health checks and the commands.
