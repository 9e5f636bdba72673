/**
 The permission lattice: maps from permission key to level, with the levels
 read < write < admin. Entries outside the catalog's keys or the three levels
 are dropped before anything is decided.
 */
module Perm {
  import opened Wrappers

  type Permissions = map<string, string>

  /** Permission keys and the levels each supports. */
  type Catalog = map<string, seq<string>>

  const LEVELS: map<string, int> := map["read" := 1, "write" := 2, "admin" := 3]

  lemma LevelNamesDiffer()
    ensures "read" != "write" && "read" != "admin" && "write" != "admin"
    ensures LEVELS["read"] == 1 && LEVELS["write"] == 2 && LEVELS["admin"] == 3
    ensures forall l :: l in LEVELS <==> l == "read" || l == "write" || l == "admin"
  {
    assert |"read"| == 4 && |"write"| == 5 && |"admin"| == 5 && "write"[0] != "admin"[0];
  }

  predicate ValidKey(cat: Catalog, k: string) {
    k in cat
  }

  predicate ValidLevel(level: string) {
    level in LEVELS
  }

  /** Unknown levels have ordinal 0. */
  function LevelOrd(level: string): (n: int)
    ensures 0 <= n <= 3 && (n > 0 <==> ValidLevel(level))
  {
    LevelNamesDiffer();
    if level in LEVELS then LEVELS[level] else 0
  }

  function LevelName(n: int): string {
    if n == 1 then "read" else if n == 2 then "write" else if n == 3 then "admin" else ""
  }

  lemma LevelNameInverts(level: string)
    requires ValidLevel(level)
    ensures LevelName(LevelOrd(level)) == level
  {
    LevelNamesDiffer();
  }

  /** The ordinal determines a valid level. */
  lemma LevelOrdInjective(a: string, b: string)
    requires ValidLevel(a) && LevelOrd(a) == LevelOrd(b)
    ensures a == b
  {
    LevelNamesDiffer();
  }

  /** The three levels, by name. */
  predicate IsLevel(level: string) {
    level == "read" || level == "write" || level == "admin"
  }

  /** read < write < admin */
  predicate AtLeast(have: string, need: string) {
    || (have == "admin" && IsLevel(need))
    || (have == "write" && (need == "write" || need == "read"))
    || (have == "read" && need == "read")
  }

  /** Valid levels and their ordinals are the three names in their order. */
  lemma LevelsExactly(have: string, need: string)
    ensures ValidLevel(have) <==> IsLevel(have)
    ensures IsLevel(have) && IsLevel(need) ==> (LevelOrd(need) <= LevelOrd(have) <==> AtLeast(have, need))
  {
    LevelNamesDiffer();
  }

  predicate ValidKeyLevel(cat: Catalog, key: string, level: string) {
    key in cat && level in cat[key]
  }

  predicate WellFormedCatalog(cat: Catalog) {
    forall k :: k in cat ==> cat[k] != [] && forall l :: l in cat[k] ==> ValidLevel(l)
  }

  // ----- normalization -----

  function Normalized(cat: Catalog, m: Permissions): Permissions {
    map k | k in m && ValidKey(cat, k) && ValidLevel(m[k]) :: m[k]
  }

  /** Normalization keeps what the catalog and the three levels admit. */
  lemma NormalizedExactly(cat: Catalog, m: Permissions, k: string)
    ensures k in Normalized(cat, m) <==> k in m && k in cat && IsLevel(m[k])
    ensures k in Normalized(cat, m) ==> Normalized(cat, m)[k] == m[k]
  {
    if k in m {
      LevelsExactly(m[k], m[k]);
    }
  }

  method Normalize(cat: Catalog, m: Permissions) returns (out: Permissions)
    ensures out == Normalized(cat, m)
  {
    out := map[];
    var todo := m.Keys;
    while todo != {}
      invariant todo <= m.Keys
      invariant out == Normalized(cat, map k | k in m && k !in todo :: m[k])
      decreases |todo|
    {
      var k :| k in todo;
      todo := todo - {k};
      if !ValidKey(cat, k) { continue; }
      if !ValidLevel(m[k]) { continue; }
      out := out[k := m[k]];
    }
    assert (map k | k in m && k !in todo :: m[k]) == m;
  }

  // ----- the order -----

  /** `b` covers every key of `a` at a level at least as high. */
  ghost predicate Leq(a: Permissions, b: Permissions) {
    forall k :: k in a ==> k in b && LevelOrd(a[k]) <= LevelOrd(b[k])
  }

  ghost predicate IsNormal(cat: Catalog, m: Permissions) {
    forall k :: k in m ==> ValidKey(cat, k) && ValidLevel(m[k])
  }

  lemma NormalIsFixed(cat: Catalog, m: Permissions)
    ensures IsNormal(cat, Normalized(cat, m)) && Leq(Normalized(cat, m), m)
    ensures IsNormal(cat, m) <==> Normalized(cat, m) == m
    ensures |Normalized(cat, m)| == |m| <==> Normalized(cat, m) == m
  {
    var n := Normalized(cat, m);
    assert n.Keys <= m.Keys;
    if |n| == |m| {
      SubsetOfSameSize(n.Keys, m.Keys);
    }
    if IsNormal(cat, m) {
      assert n.Keys == m.Keys;
    }
    if n == m {
      assert forall k :: k in m ==> k in n;
    }
  }

  lemma SubsetOfSameSize(a: set<string>, b: set<string>)
    requires a <= b && |a| == |b|
    ensures a == b
  {
    assert b == a + (b - a);
  }

  lemma LeqTransitive(a: Permissions, b: Permissions, c: Permissions)
    requires Leq(a, b) && Leq(b, c)
    ensures Leq(a, c)
  {
  }

  /** On normal maps the order is antisymmetric, so bounds are unique. */
  lemma LeqAntisymmetric(cat: Catalog, a: Permissions, b: Permissions)
    requires IsNormal(cat, a) && IsNormal(cat, b) && Leq(a, b) && Leq(b, a)
    ensures a == b
  {
    forall k | k in a ensures k in b && a[k] == b[k] {
      LevelOrdInjective(a[k], b[k]);
    }
    assert a.Keys == b.Keys;
  }

  // ----- coverage -----

  method Satisfies(cat: Catalog, required: Permissions, granted: Permissions) returns (ok: bool)
    ensures ok == Leq(Normalized(cat, required), Normalized(cat, granted))
  {
    var g := Normalize(cat, granted);
    var r := Normalize(cat, required);
    var todo := r.Keys;
    while todo != {}
      invariant todo <= r.Keys
      invariant forall k :: k in r && k !in todo ==> k in g && LevelOrd(r[k]) <= LevelOrd(g[k])
      decreases |todo|
    {
      var k :| k in todo;
      if k !in g || LevelOrd(g[k]) < LevelOrd(r[k]) { return false; }
      todo := todo - {k};
    }
    return true;
  }

  datatype Gap = NotGranted(need: string) | TooLow(need: string, have: string)

  /** The gaps of `required` over `granted`, both normal. */
  function GapsOf(required: Permissions, granted: Permissions): map<string, Gap> {
    map k | k in required && (k !in granted || LevelOrd(granted[k]) < LevelOrd(required[k])) ::
      if k !in granted then NotGranted(required[k]) else TooLow(required[k], granted[k])
  }

  method Gaps(cat: Catalog, required: Permissions, granted: Permissions) returns (gaps: Option<map<string, Gap>>)
    ensures gaps.None? <==> Leq(Normalized(cat, required), Normalized(cat, granted))
    ensures gaps.Some? ==> gaps.value == GapsOf(Normalized(cat, required), Normalized(cat, granted))
  {
    var r := Normalize(cat, required);
    var g := Normalize(cat, granted);
    ghost var all := GapsOf(r, g);
    var found: map<string, Gap> := map[];
    var todo := r.Keys;
    while todo != {}
      invariant todo <= r.Keys
      invariant forall k :: k in found <==> k in all && k !in todo
      invariant forall k :: k in found ==> found[k] == all[k]
      decreases |todo|
    {
      var k :| k in todo;
      todo := todo - {k};
      if k !in g {
        found := found[k := NotGranted(r[k])];
      } else if LevelOrd(g[k]) < LevelOrd(r[k]) {
        found := found[k := TooLow(r[k], g[k])];
      }
    }
    assert found == all;
    NoGaps(r, g);
    if |found| == 0 {
      return None;
    }
    return Some(found);
  }

  lemma NoGaps(required: Permissions, granted: Permissions)
    ensures |GapsOf(required, granted)| == 0 <==> Leq(required, granted)
  {
    var gaps := GapsOf(required, granted);
    if |gaps| == 0 {
      forall k | k in required ensures k in granted && LevelOrd(required[k]) <= LevelOrd(granted[k]) {
        assert k !in gaps;
      }
    } else {
      assert gaps.Keys != {};
      var k :| k in gaps;
      assert !Leq(required, granted);
    }
  }

  // ----- intersection -----

  /** `m` is the greatest normal map below every input, or empty if there is
      none. */
  ghost predicate IsMeet(cat: Catalog, inputs: seq<Permissions>, m: Permissions) {
    && IsNormal(cat, m)
    && (inputs == [] ==> m == map[])
    && (forall i :: 0 <= i < |inputs| ==> Leq(m, Normalized(cat, inputs[i])))
    && (inputs != [] ==> forall lower :: IsNormal(cat, lower) && LeqAll(cat, lower, inputs) ==> Leq(lower, m))
  }

  ghost predicate LeqAll(cat: Catalog, lower: Permissions, inputs: seq<Permissions>) {
    forall i :: 0 <= i < |inputs| ==> Leq(lower, Normalized(cat, inputs[i]))
  }

  ghost predicate SameElements<T(!new)>(a: seq<T>, b: seq<T>) {
    forall x :: x in a <==> x in b
  }

  /** Meets are unique, so they depend neither on the order of the inputs nor
      on repetitions among them. */
  lemma MeetIsUnique(cat: Catalog, inputs: seq<Permissions>, inputs': seq<Permissions>, m: Permissions, m': Permissions)
    requires IsMeet(cat, inputs, m) && IsMeet(cat, inputs', m')
    requires SameElements(inputs, inputs')
    ensures m == m'
  {
    if inputs == [] {
      if inputs' != [] { assert inputs'[0] in inputs; }
    } else {
      assert inputs[0] in inputs';
      assert LeqAll(cat, m, inputs') by {
        forall i | 0 <= i < |inputs'| ensures Leq(m, Normalized(cat, inputs'[i])) {
          assert inputs'[i] in inputs;
        }
      }
      assert LeqAll(cat, m', inputs) by {
        forall i | 0 <= i < |inputs| ensures Leq(m', Normalized(cat, inputs[i])) {
          assert inputs[i] in inputs';
        }
      }
      LeqAntisymmetric(cat, m, m');
    }
  }

  /** Whether `k` is in every one of `ms`, and at most how high everywhere. */
  ghost predicate MinLevel(ms: seq<Permissions>, k: string, n: int) {
    && (forall i :: 0 <= i < |ms| ==> k in ms[i] && n <= LevelOrd(ms[i][k]))
    && (exists i :: 0 <= i < |ms| && k in ms[i] && n == LevelOrd(ms[i][k]))
  }

  method MinAcross(ms: seq<Permissions>, k: string) returns (present: bool, minLevel: int)
    requires ms != [] && k in ms[0]
    ensures present <==> forall i :: 0 <= i < |ms| ==> k in ms[i]
    ensures present ==> MinLevel(ms, k, minLevel)
  {
    minLevel := LevelOrd(ms[0][k]);
    for j := 1 to |ms|
      invariant forall i :: 0 <= i < j ==> k in ms[i]
      invariant MinLevel(ms[..j], k, minLevel)
    {
      if k !in ms[j] {
        return false, minLevel;
      }
      assert ms[..j + 1] == ms[..j] + [ms[j]];
      var i :| 0 <= i < j && k in ms[i] && minLevel == LevelOrd(ms[i][k]);
      assert ms[..j + 1][i] == ms[i] && ms[..j + 1][j] == ms[j];
      if LevelOrd(ms[j][k]) < minLevel {
        minLevel := LevelOrd(ms[j][k]);
      }
    }
    assert ms[..|ms|] == ms;
    return true, minLevel;
  }

  method NormalizeAll(cat: Catalog, inputs: seq<Permissions>) returns (ms: seq<Permissions>)
    ensures |ms| == |inputs| && forall i :: 0 <= i < |inputs| ==> ms[i] == Normalized(cat, inputs[i])
  {
    ms := [];
    for i := 0 to |inputs|
      invariant |ms| == i && forall j :: 0 <= j < i ==> ms[j] == Normalized(cat, inputs[j])
    {
      var m := Normalize(cat, inputs[i]);
      ms := ms + [m];
    }
  }

  /** The entries of the meet: the keys present everywhere, at their minimum. */
  ghost predicate MeetEntries(ms: seq<Permissions>, result: Permissions, todo: set<string>) {
    && (forall k :: k in result ==> MinLevel(ms, k, LevelOrd(result[k])) && ValidLevel(result[k]))
    && (forall k :: k !in todo && (forall i :: 0 <= i < |ms| ==> k in ms[i]) ==> k in result)
  }

  method Intersect(cat: Catalog, inputs: seq<Permissions>) returns (result: Permissions)
    ensures IsMeet(cat, inputs, result)
  {
    result := map[];
    if |inputs| == 0 {
      return;
    }
    var ms := NormalizeAll(cat, inputs);
    var todo := ms[0].Keys;
    while todo != {}
      invariant todo <= ms[0].Keys
      invariant MeetEntries(ms, result, todo)
      decreases |todo|
    {
      var k :| k in todo;
      var present, minLevel := MinAcross(ms, k);
      todo := todo - {k};
      if present {
        var i :| 0 <= i < |ms| && k in ms[i] && minLevel == LevelOrd(ms[i][k]);
        LevelNameInverts(ms[i][k]);
        result := result[k := LevelName(minLevel)];
      }
    }
    EntriesAreMeet(cat, inputs, ms, result);
  }

  lemma EntriesAreMeet(cat: Catalog, inputs: seq<Permissions>, ms: seq<Permissions>, result: Permissions)
    requires inputs != [] && |ms| == |inputs|
    requires forall i :: 0 <= i < |inputs| ==> ms[i] == Normalized(cat, inputs[i])
    requires MeetEntries(ms, result, {})
    ensures IsMeet(cat, inputs, result)
  {
    forall k | k in result ensures ValidKey(cat, k) {
      assert k in ms[0];
    }
    forall i | 0 <= i < |inputs| ensures Leq(result, Normalized(cat, inputs[i])) {
      assert Leq(result, ms[i]);
    }
    forall lower | IsNormal(cat, lower) && LeqAll(cat, lower, inputs) ensures Leq(lower, result) {
      forall k | k in lower ensures k in result && LevelOrd(lower[k]) <= LevelOrd(result[k]) {
        forall i | 0 <= i < |ms| ensures k in ms[i] {
          assert Leq(lower, ms[i]);
        }
        assert MinLevel(ms, k, LevelOrd(result[k]));
        var i :| 0 <= i < |ms| && k in ms[i] && LevelOrd(result[k]) == LevelOrd(ms[i][k]);
        assert Leq(lower, ms[i]);
      }
    }
  }

  /** Coverage, the absence of gaps, and the intersection keeping the whole
      requirement are the same thing. */
  lemma CoveredIffMeetKeepsAll(cat: Catalog, required: Permissions, granted: Permissions, meet: Permissions)
    requires IsMeet(cat, [required, granted], meet)
    ensures meet == Normalized(cat, required) <==> Leq(Normalized(cat, required), Normalized(cat, granted))
    ensures GapsOf(Normalized(cat, required), Normalized(cat, granted)) == map[] <==>
            Leq(Normalized(cat, required), Normalized(cat, granted))
  {
    var inputs := [required, granted];
    var r, g := Normalized(cat, required), Normalized(cat, granted);
    assert inputs[0] == required && inputs[1] == granted;
    NormalIsFixed(cat, required);
    if Leq(r, g) {
      assert LeqAll(cat, r, inputs);
      LeqAntisymmetric(cat, meet, r);
    }
    NoGaps(r, g);
  }

  // ----- union -----

  /** The level of `k` after `level` has been merged into `a`. */
  function JoinAt(a: Permissions, k: string, level: string): string {
    if k in a && LevelOrd(a[k]) > LevelOrd(level) then a[k] else level
  }

  /** The pointwise join: on a shared key the higher level wins. */
  function Join(a: Permissions, b: Permissions): Permissions {
    map k | k in a.Keys + b.Keys :: if k !in b then a[k] else JoinAt(a, k, b[k])
  }

  /** The least normal map above both. */
  lemma JoinIsLeast(cat: Catalog, a: Permissions, b: Permissions)
    requires IsNormal(cat, a) && IsNormal(cat, b)
    ensures IsNormal(cat, Join(a, b)) && Leq(a, Join(a, b)) && Leq(b, Join(a, b))
    ensures forall upper :: Leq(a, upper) && Leq(b, upper) ==> Leq(Join(a, b), upper)
  {
  }

  method MergeEntry(cat: Catalog, destination: Permissions, k: string, level: string) returns (merged: Permissions)
    requires ValidKey(cat, k) && ValidLevel(level)
    ensures merged == destination[k := JoinAt(destination, k, level)]
  {
    var overrides := k !in destination;
    if !overrides {
      overrides := Satisfies(cat, map[k := destination[k]], map[k := level]);
      SingleKeyOrder(cat, k, destination[k], level);
    }
    merged := if overrides then destination[k := level] else destination;
  }

  /** The join of `destination` with the entries of `n` not in `todo`. */
  ghost predicate Merging(destination: Permissions, n: Permissions, todo: set<string>, merged: Permissions) {
    && merged.Keys == destination.Keys + (n.Keys - todo)
    && (forall k :: k in destination && (k in todo || k !in n) ==> merged[k] == destination[k])
    && (forall k :: k in n && k !in todo ==> k in merged && merged[k] == JoinAt(destination, k, n[k]))
  }

  lemma MergeStep(destination: Permissions, n: Permissions, todo: set<string>, merged: Permissions, k: string)
    requires Merging(destination, n, todo, merged) && k in todo && k in n
    ensures Merging(destination, n, todo - {k}, merged[k := JoinAt(merged, k, n[k])])
  {
  }

  lemma MergeDone(destination: Permissions, n: Permissions, merged: Permissions)
    requires Merging(destination, n, {}, merged)
    ensures merged == Join(destination, n)
  {
  }

  /** Merging source into destination, entry by entry in any order. */
  method MergePermissions(cat: Catalog, destination: Permissions, source: Permissions) returns (merged: Permissions)
    ensures merged == Join(destination, Normalized(cat, source))
  {
    merged := destination;
    var n := Normalize(cat, source);
    var todo := n.Keys;
    while todo != {}
      invariant todo <= n.Keys
      invariant Merging(destination, n, todo, merged)
      decreases |todo|
    {
      var k :| k in todo;
      MergeStep(destination, n, todo, merged, k);
      merged := MergeEntry(cat, merged, k, n[k]);
      todo := todo - {k};
    }
    MergeDone(destination, n, merged);
  }

  lemma SingleKeyOrder(cat: Catalog, k: string, existing: string, level: string)
    requires ValidKey(cat, k) && ValidLevel(level)
    ensures Leq(Normalized(cat, map[k := existing]), Normalized(cat, map[k := level])) <==>
            LevelOrd(existing) <= LevelOrd(level)
  {
    var a, b := Normalized(cat, map[k := existing]), Normalized(cat, map[k := level]);
    assert b == map[k := level];
    if ValidLevel(existing) {
      assert a == map[k := existing];
    } else {
      assert a == map[];
    }
  }

  /** What an allow decision requires of a grant. */
  ghost predicate Covers(cat: Catalog, required: Permissions, granted: Permissions) {
    IsNormal(cat, required) && Leq(required, Normalized(cat, granted))
  }

  method CoversPermissions(cat: Catalog, required: Permissions, granted: Permissions) returns (ok: bool)
    ensures ok == Covers(cat, required, granted)
  {
    var n := Normalize(cat, required);
    NormalIsFixed(cat, required);
    if |n| != |required| {
      return false;
    }
    ok := Satisfies(cat, required, granted);
  }
}
