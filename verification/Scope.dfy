/**
 The scope parameter: space-delimited "permission:level" tokens (section 3.3 of
 RFC 6749), decoded into a permission map and encoded back.
 */
module Scope {
  import opened Wrappers
  import opened Text
  import opened Perm

  /** White space as Unicode defines it. */
  predicate IsSpace(c: char) {
    || c == ' ' || '\U{0009}' <= c <= '\U{000D}' || c in {'\U{0085}', '\U{00A0}', '\U{1680}'}
    || '\U{2000}' <= c <= '\U{200A}' || c in {'\U{2028}', '\U{2029}', '\U{202F}', '\U{205F}', '\U{3000}'}
  }

  function TokenEnd(s: string): (n: nat)
    ensures n <= |s|
    ensures forall i :: 0 <= i < n ==> !IsSpace(s[i])
    ensures n < |s| ==> IsSpace(s[n])
  {
    if s == "" || IsSpace(s[0]) then 0 else 1 + TokenEnd(s[1..])
  }

  /** The maximal runs of characters that are not white space. */
  function Fields(s: string): seq<string>
    decreases |s|
  {
    if s == "" then []
    else if IsSpace(s[0]) then Fields(s[1..])
    else [s[..TokenEnd(s)]] + Fields(s[TokenEnd(s)..])
  }

  predicate IsToken(s: string) {
    s != "" && forall i :: 0 <= i < |s| ==> !IsSpace(s[i])
  }

  lemma TokenEndAt(s: string, n: nat)
    requires n <= |s| && (forall i :: 0 <= i < n ==> !IsSpace(s[i])) && (n < |s| ==> IsSpace(s[n]))
    ensures TokenEnd(s) == n
  {
  }

  lemma {:induction false} FieldsOfJoin(tokens: seq<string>)
    requires forall i :: 0 <= i < |tokens| ==> IsToken(tokens[i])
    ensures Fields(JoinWith(tokens, ' ')) == tokens
  {
    var s := JoinWith(tokens, ' ');
    if tokens != [] {
      var t := tokens[0];
      if |tokens| == 1 {
        TokenEndAt(s, |t|);
        assert s[..|t|] == t && s[|t|..] == "";
      } else {
        var rest := JoinWith(tokens[1..], ' ');
        FieldsOfJoin(tokens[1..]);
        assert s == t + [' '] + rest;
        TokenEndAt(s, |t|);
        assert s[..|t|] == t && s[|t|..] == [' '] + rest;
        assert ([' '] + rest)[1..] == rest;
      }
    }
  }

  // ----- decoding -----

  /** Key and level around the last colon, if the catalog supports them. */
  function ParseToken(cat: Catalog, token: string): Option<(string, string)> {
    var idx := LastIndexOf(token, ':');
    if idx <= 0 || idx == |token| - 1 then None
    else if !ValidKeyLevel(cat, token[..idx], token[idx + 1..]) then None
    else Some((token[..idx], token[idx + 1..]))
  }

  /** The map of all tokens, the later one winning; none if any is invalid. */
  function DecodeTokens(cat: Catalog, tokens: seq<string>): Option<Permissions> {
    if tokens == [] then Some(map[])
    else
      var front := DecodeTokens(cat, tokens[..|tokens| - 1]);
      var last := ParseToken(cat, tokens[|tokens| - 1]);
      if front.Some? && last.Some? then Some(front.value[last.value.0 := last.value.1]) else None
  }

  function Decoded(cat: Catalog, scope: string): Option<Permissions> {
    if Fields(scope) == [] then None else DecodeTokens(cat, Fields(scope))
  }

  method DecodeScope(cat: Catalog, scope: string) returns (r: Option<Permissions>)
    ensures r == Decoded(cat, scope)
  {
    var fields := Fields(scope);
    if |fields| == 0 {
      return None;
    }
    var perms: Permissions := map[];
    for i := 0 to |fields|
      invariant DecodeTokens(cat, fields[..i]) == Some(perms)
    {
      assert fields[..i + 1][..i] == fields[..i];
      var entry := ParseToken(cat, fields[i]);
      if entry.None? {
        InvalidTokenFails(cat, fields, i);
        return None;
      }
      perms := perms[entry.value.0 := entry.value.1];
    }
    assert fields[..|fields|] == fields;
    return Some(perms);
  }

  lemma {:induction false} InvalidTokenFails(cat: Catalog, tokens: seq<string>, i: nat)
    requires i < |tokens| && ParseToken(cat, tokens[i]).None?
    ensures DecodeTokens(cat, tokens).None?
  {
    if i < |tokens| - 1 {
      InvalidTokenFails(cat, tokens[..|tokens| - 1], i);
    }
  }

  ghost predicate AllSupported(cat: Catalog, m: Permissions) {
    forall k :: k in m ==> ValidKeyLevel(cat, k, m[k])
  }

  lemma {:induction false} DecodedTokensSupported(cat: Catalog, tokens: seq<string>)
    ensures var m := DecodeTokens(cat, tokens);
            m.Some? ==> AllSupported(cat, m.value) && (m.value == map[] <==> tokens == [])
  {
    if tokens != [] {
      DecodedTokensSupported(cat, tokens[..|tokens| - 1]);
      var m, last := DecodeTokens(cat, tokens), ParseToken(cat, tokens[|tokens| - 1]);
      assert m.Some? ==> last.value.0 in m.value;
    }
  }

  /** Each key of a decoded scope has the level of its last token. */
  lemma {:induction false} LastTokenWins(cat: Catalog, tokens: seq<string>, i: nat)
    requires DecodeTokens(cat, tokens).Some? && i < |tokens|
    requires ParseToken(cat, tokens[i]).Some?
    requires forall j :: i < j < |tokens| && ParseToken(cat, tokens[j]).Some? ==>
               ParseToken(cat, tokens[j]).value.0 != ParseToken(cat, tokens[i]).value.0
    ensures var (k, level) := ParseToken(cat, tokens[i]).value;
            k in DecodeTokens(cat, tokens).value && DecodeTokens(cat, tokens).value[k] == level
  {
    if i < |tokens| - 1 {
      LastTokenWins(cat, tokens[..|tokens| - 1], i);
    }
  }

  /** A decoded scope has no key without a token. */
  lemma {:induction false} EveryKeyHasToken(cat: Catalog, tokens: seq<string>, k: string) returns (i: nat)
    requires DecodeTokens(cat, tokens).Some? && k in DecodeTokens(cat, tokens).value
    ensures i < |tokens| && ParseToken(cat, tokens[i]).Some? && ParseToken(cat, tokens[i]).value.0 == k
  {
    if ParseToken(cat, tokens[|tokens| - 1]).value.0 == k {
      i := |tokens| - 1;
    } else {
      i := EveryKeyHasToken(cat, tokens[..|tokens| - 1], k);
    }
  }

  lemma SupportedIsNormal(cat: Catalog, m: Permissions)
    requires WellFormedCatalog(cat) && AllSupported(cat, m)
    ensures IsNormal(cat, m)
  {
  }

  /** A decoded scope is never empty, every entry is one the catalog supports,
      and normalization drops none of them. */
  lemma DecodedScopeIsNormal(cat: Catalog, scope: string)
    requires WellFormedCatalog(cat) && Decoded(cat, scope).Some?
    ensures var m := Decoded(cat, scope).value;
            |m| > 0 && AllSupported(cat, m) && IsNormal(cat, m) && Normalized(cat, m) == m
  {
    var m := Decoded(cat, scope).value;
    DecodedTokensSupported(cat, Fields(scope));
    SupportedIsNormal(cat, m);
    NormalIsFixed(cat, m);
    assert m.Keys != {};
  }

  // ----- decoding in terms of the text -----

  /** The white space characters of Unicode. */
  lemma SpacesAreListed(c: char)
    ensures IsSpace(c) <==>
      c in ['\t', '\n', '\U{B}', '\U{C}', '\r', ' ', '\U{85}', '\U{A0}', '\U{1680}', '\U{2000}', '\U{2001}',
            '\U{2002}', '\U{2003}', '\U{2004}', '\U{2005}', '\U{2006}', '\U{2007}', '\U{2008}', '\U{2009}', '\U{200A}',
            '\U{2028}', '\U{2029}', '\U{202F}', '\U{205F}', '\U{3000}']
  {
  }

  predicate Blank(s: string) {
    forall i :: 0 <= i < |s| ==> IsSpace(s[i])
  }

  /** `s` consists of the tokens in order, with white space between them and
      possibly around them. */
  ghost predicate SpacedOut(s: string, tokens: seq<string>)
    decreases |tokens|
  {
    if tokens == [] then Blank(s)
    else exists a, b ::
      && s == a + tokens[0] + b && Blank(a) && IsToken(tokens[0])
      && (b == "" || IsSpace(b[0])) && SpacedOut(b, tokens[1..])
  }

  lemma {:induction false} FieldsAreSpacedOut(s: string)
    ensures SpacedOut(s, Fields(s))
    decreases |s|
  {
    if s != "" {
      if IsSpace(s[0]) {
        FieldsAreSpacedOut(s[1..]);
        BlankAhead(s[0], s[1..], Fields(s[1..]));
        assert s == [s[0]] + s[1..];
      } else {
        var n := TokenEnd(s);
        FieldsAreSpacedOut(s[n..]);
        assert Fields(s)[1..] == Fields(s[n..]);
        assert s == "" + s[..n] + s[n..];
      }
    }
  }

  lemma BlankAhead(c: char, s: string, tokens: seq<string>)
    requires IsSpace(c) && SpacedOut(s, tokens)
    ensures SpacedOut([c] + s, tokens)
  {
    if tokens != [] {
      var a, b :| s == a + tokens[0] + b && Blank(a) && IsToken(tokens[0])
                  && (b == "" || IsSpace(b[0])) && SpacedOut(b, tokens[1..]);
      assert [c] + s == ([c] + a) + tokens[0] + b;
    }
  }

  lemma {:induction false} FieldsSkipBlank(a: string, s: string)
    requires Blank(a)
    ensures Fields(a + s) == Fields(s)
    decreases |a|
  {
    if a == "" {
      assert a + s == s;
    } else {
      assert (a + s)[1..] == a[1..] + s;
      FieldsSkipBlank(a[1..], s);
    }
  }

  lemma {:induction false} SpacedOutHasFields(s: string, tokens: seq<string>)
    requires SpacedOut(s, tokens)
    ensures Fields(s) == tokens
    decreases |tokens|
  {
    if tokens == [] {
      FieldsSkipBlank(s, "");
      assert s + "" == s;
    } else {
      var t := tokens[0];
      var a, b :| s == a + t + b && Blank(a) && IsToken(t)
                  && (b == "" || IsSpace(b[0])) && SpacedOut(b, tokens[1..]);
      assert s == a + (t + b);
      FieldsSkipBlank(a, t + b);
      TokenEndAt(t + b, |t|);
      assert (t + b)[..|t|] == t && (t + b)[|t|..] == b;
      SpacedOutHasFields(b, tokens[1..]);
    }
  }

  /** A text splits into the tokens that it spaces out, and into no others. */
  lemma FieldsExactly(s: string, tokens: seq<string>)
    ensures Fields(s) == tokens <==> SpacedOut(s, tokens)
  {
    if Fields(s) == tokens {
      FieldsAreSpacedOut(s);
    }
    if SpacedOut(s, tokens) {
      SpacedOutHasFields(s, tokens);
    }
  }

  /** A token is a non-empty key, a colon and a level that the catalog lists for
      this very key. */
  ghost predicate IsEntry(cat: Catalog, token: string, k: string, level: string) {
    token == k + ":" + level && k != "" && level != "" && ':' !in level && k in cat && level in cat[k]
  }

  ghost predicate IsSomeEntry(cat: Catalog, token: string) {
    exists k, level :: IsEntry(cat, token, k, level)
  }

  ghost predicate AllEntries(cat: Catalog, tokens: seq<string>) {
    forall i :: 0 <= i < |tokens| ==> IsSomeEntry(cat, tokens[i])
  }

  lemma ParseTokenExactly(cat: Catalog, token: string, k: string, level: string)
    ensures ParseToken(cat, token) == Some((k, level)) <==> IsEntry(cat, token, k, level)
  {
    if IsEntry(cat, token, k, level) {
      LastSplit(k, ':', level);
      assert k + [':'] + level == token;
    }
    if ParseToken(cat, token) == Some((k, level)) {
      var idx := LastIndexOf(token, ':');
      assert token == token[..idx] + [':'] + token[idx + 1..];
      assert forall i :: 0 <= i < |level| ==> level[i] == token[idx + 1 + i];
    }
  }

  /** Token `i` is the last one for its key, which it puts at `level`. */
  ghost predicate LastEntry(cat: Catalog, tokens: seq<string>, i: nat, k: string, level: string) {
    && i < |tokens| && IsEntry(cat, tokens[i], k, level)
    && forall j, l :: i < j < |tokens| ==> !IsEntry(cat, tokens[j], k, l)
  }

  ghost predicate HasLastEntry(cat: Catalog, tokens: seq<string>, k: string, level: string) {
    exists i: nat :: LastEntry(cat, tokens, i, k, level)
  }

  /** `m` is the reading of a list of tokens: all of them are entries, and a key
      has the level of its last entry. */
  ghost predicate IsReading(cat: Catalog, tokens: seq<string>, m: Permissions) {
    && tokens != [] && AllEntries(cat, tokens)
    && (forall k :: k in m ==> HasLastEntry(cat, tokens, k, m[k]))
    && (forall k, level :: HasLastEntry(cat, tokens, k, level) ==> k in m)
  }

  lemma {:induction false} DecodeTokensExactly(cat: Catalog, tokens: seq<string>)
    ensures DecodeTokens(cat, tokens).Some? <==> AllEntries(cat, tokens)
  {
    if tokens != [] {
      var n := |tokens| - 1;
      DecodeTokensExactly(cat, tokens[..n]);
      EntryExactly(cat, tokens[n]);
      assert forall i :: 0 <= i < n ==> tokens[..n][i] == tokens[i];
    }
  }

  lemma EntryExactly(cat: Catalog, token: string)
    ensures ParseToken(cat, token).Some? <==> IsSomeEntry(cat, token)
  {
    if ParseToken(cat, token).Some? {
      ParseTokenExactly(cat, token, ParseToken(cat, token).value.0, ParseToken(cat, token).value.1);
    }
    forall k, level | IsEntry(cat, token, k, level) ensures ParseToken(cat, token).Some? {
      ParseTokenExactly(cat, token, k, level);
    }
  }

  lemma {:induction false} LastEntryOf(cat: Catalog, tokens: seq<string>, k: string) returns (i: nat)
    requires DecodeTokens(cat, tokens).Some? && k in DecodeTokens(cat, tokens).value
    ensures LastEntry(cat, tokens, i, k, DecodeTokens(cat, tokens).value[k])
  {
    var n := |tokens| - 1;
    var (key, level) := ParseToken(cat, tokens[n]).value;
    ParseTokenExactly(cat, tokens[n], key, level);
    if key == k {
      i := n;
    } else {
      i := LastEntryOf(cat, tokens[..n], k);
      forall j, l | i < j < |tokens| ensures !IsEntry(cat, tokens[j], k, l) {
        if j == n {
          ParseTokenExactly(cat, tokens[n], k, l);
        } else {
          assert tokens[..n][j] == tokens[j];
        }
      }
    }
  }

  lemma {:induction false} EntryIsKept(cat: Catalog, tokens: seq<string>, i: nat, k: string, level: string)
    requires DecodeTokens(cat, tokens).Some? && i < |tokens| && IsEntry(cat, tokens[i], k, level)
    ensures k in DecodeTokens(cat, tokens).value
  {
    ParseTokenExactly(cat, tokens[i], k, level);
    if i < |tokens| - 1 {
      EntryIsKept(cat, tokens[..|tokens| - 1], i, k, level);
    }
  }

  lemma DecodedTokensAreRead(cat: Catalog, tokens: seq<string>)
    requires tokens != [] && DecodeTokens(cat, tokens).Some?
    ensures IsReading(cat, tokens, DecodeTokens(cat, tokens).value)
  {
    var m := DecodeTokens(cat, tokens).value;
    DecodeTokensExactly(cat, tokens);
    forall k | k in m ensures HasLastEntry(cat, tokens, k, m[k]) {
      var i := LastEntryOf(cat, tokens, k);
    }
    forall k, level | HasLastEntry(cat, tokens, k, level) ensures k in m {
      var i: nat :| LastEntry(cat, tokens, i, k, level);
      EntryIsKept(cat, tokens, i, k, level);
    }
  }

  /** A list of tokens has one reading. */
  lemma ReadingIsUnique(cat: Catalog, tokens: seq<string>, a: Permissions, b: Permissions)
    requires IsReading(cat, tokens, a) && IsReading(cat, tokens, b)
    ensures a == b
  {
    assert a.Keys == b.Keys;
    forall k | k in a ensures a[k] == b[k] {
      OneLastLevel(cat, tokens, k, a[k], b[k]);
    }
  }

  lemma OneLastLevel(cat: Catalog, tokens: seq<string>, k: string, x: string, y: string)
    requires HasLastEntry(cat, tokens, k, x) && HasLastEntry(cat, tokens, k, y)
    ensures x == y
  {
    var i: nat :| LastEntry(cat, tokens, i, k, x);
    var j: nat :| LastEntry(cat, tokens, j, k, y);
    assert i == j;
    ParseTokenExactly(cat, tokens[i], k, x);
    ParseTokenExactly(cat, tokens[i], k, y);
  }

  /** Decoding yields exactly the reading of the tokens that the text spaces
      out, and nothing if there is none. */
  lemma DecodedExactly(cat: Catalog, scope: string, m: Permissions)
    ensures Decoded(cat, scope) == Some(m) <==>
            exists tokens :: SpacedOut(scope, tokens) && IsReading(cat, tokens, m)
  {
    var fields := Fields(scope);
    FieldsExactly(scope, fields);
    DecodeTokensExactly(cat, fields);
    if Decoded(cat, scope).Some? {
      DecodedTokensAreRead(cat, fields);
    }
    forall tokens | SpacedOut(scope, tokens) && IsReading(cat, tokens, m) ensures Decoded(cat, scope) == Some(m) {
      FieldsExactly(scope, tokens);
      ReadingIsUnique(cat, tokens, m, Decoded(cat, scope).value);
    }
  }

  // ----- encoding -----

  function TokenOf(perms: Permissions, k: string): string
    requires k in perms
  {
    k + [':'] + perms[k]
  }

  function Tokens(perms: Permissions, keys: seq<string>): (ts: seq<string>)
    requires forall k :: k in keys ==> k in perms
    ensures |ts| == |keys| && forall i :: 0 <= i < |keys| ==> keys[i] in perms && ts[i] == TokenOf(perms, keys[i])
  {
    if keys == [] then [] else assert keys[0] in keys; [TokenOf(perms, keys[0])] + Tokens(perms, keys[1..])
  }

  /** The tokens in key order, joined by single spaces. */
  ghost predicate IsEncoding(perms: Permissions, s: string) {
    exists keys :: IsSortedSet(keys, perms.Keys) && s == JoinWith(Tokens(perms, keys), ' ')
  }

  lemma EncodingIsUnique(perms: Permissions, s: string, t: string)
    requires IsEncoding(perms, s) && IsEncoding(perms, t)
    ensures s == t
  {
    var keys :| IsSortedSet(keys, perms.Keys) && s == JoinWith(Tokens(perms, keys), ' ');
    var keys' :| IsSortedSet(keys', perms.Keys) && t == JoinWith(Tokens(perms, keys'), ' ');
    SortedSetIsUnique(keys, keys', perms.Keys);
  }

  method EncodeScope(perms: Permissions) returns (s: string)
    ensures IsEncoding(perms, s)
  {
    var keys := SortedSet(perms.Keys);
    var tokens: seq<string> := [];
    for i := 0 to |keys|
      invariant |tokens| == i && forall j :: 0 <= j < i ==> keys[j] in perms && tokens[j] == TokenOf(perms, keys[j])
    {
      assert keys[i] in keys;
      tokens := tokens + [TokenOf(perms, keys[i])];
    }
    assert tokens == Tokens(perms, keys);
    s := JoinWith(tokens, ' ');
  }

  // ----- round trip -----

  /** Catalog keys are lowercase words with underscores. */
  predicate CleanKeys(cat: Catalog) {
    forall k :: k in cat ==> k != "" && forall i :: 0 <= i < |k| ==> 'a' <= k[i] <= 'z' || k[i] == '_'
  }

  lemma LevelText(level: string)
    requires ValidLevel(level)
    ensures level != "" && ':' !in level && forall i :: 0 <= i < |level| ==> !IsSpace(level[i])
  {
    LevelNamesDiffer();
  }

  lemma TokenRoundTrip(cat: Catalog, perms: Permissions, k: string)
    requires CleanKeys(cat) && WellFormedCatalog(cat) && AllSupported(cat, perms) && k in perms
    ensures IsToken(TokenOf(perms, k)) && ParseToken(cat, TokenOf(perms, k)) == Some((k, perms[k]))
  {
    LevelText(perms[k]);
    LastSplit(k, ':', perms[k]);
    var t := TokenOf(perms, k);
    forall i | 0 <= i < |t| ensures !IsSpace(t[i]) {
      if i > |k| { assert t[i] == perms[k][i - |k| - 1]; }
    }
  }

  /** The tokens parse to the entries of `perms` at the keys. */
  ghost predicate ParseTo(cat: Catalog, perms: Permissions, keys: seq<string>, tokens: seq<string>) {
    |tokens| == |keys| &&
    forall i :: 0 <= i < |keys| ==> keys[i] in perms && ParseToken(cat, tokens[i]) == Some((keys[i], perms[keys[i]]))
  }

  function Restricted(perms: Permissions, keys: seq<string>): Permissions {
    map k | k in keys && k in perms :: perms[k]
  }

  lemma {:induction false} TokensDecode(cat: Catalog, perms: Permissions, keys: seq<string>, tokens: seq<string>)
    requires ParseTo(cat, perms, keys, tokens)
    ensures DecodeTokens(cat, tokens) == Some(Restricted(perms, keys))
  {
    if keys != [] {
      var n := |keys| - 1;
      assert ParseTo(cat, perms, keys[..n], tokens[..n]);
      TokensDecode(cat, perms, keys[..n], tokens[..n]);
      assert keys == keys[..n] + [keys[n]];
      RestrictedStep(perms, keys[..n], keys[n]);
    }
  }

  lemma RestrictedStep(perms: Permissions, front: seq<string>, last: string)
    requires last in perms
    ensures Restricted(perms, front)[last := perms[last]] == Restricted(perms, front + [last])
  {
  }

  /** Whatever the order of its keys, the encoding decodes to the map. */
  lemma TokensRoundTrip(cat: Catalog, perms: Permissions, keys: seq<string>)
    requires CleanKeys(cat) && WellFormedCatalog(cat) && AllSupported(cat, perms) && perms != map[]
    requires forall k :: k in keys <==> k in perms
    ensures Decoded(cat, JoinWith(Tokens(perms, keys), ' ')) == Some(perms)
  {
    var ts := Tokens(perms, keys);
    forall i | 0 <= i < |ts|
      ensures IsToken(ts[i]) && keys[i] in perms && ParseToken(cat, ts[i]) == Some((keys[i], perms[keys[i]]))
    {
      TokenRoundTrip(cat, perms, keys[i]);
    }
    FieldsOfJoin(ts);
    TokensDecode(cat, perms, keys, ts);
    assert Restricted(perms, keys) == perms;
    var k :| k in perms;
    assert k in keys;
  }

  /** Encoding a supported, non-empty permission map and decoding the text
      gives the map back. */
  lemma ScopeRoundTrip(cat: Catalog, perms: Permissions, s: string)
    requires CleanKeys(cat) && WellFormedCatalog(cat) && AllSupported(cat, perms) && perms != map[]
    requires IsEncoding(perms, s)
    ensures Decoded(cat, s) == Some(perms)
  {
    var keys :| IsSortedSet(keys, perms.Keys) && s == JoinWith(Tokens(perms, keys), ' ');
    TokensRoundTrip(cat, perms, keys);
  }

  // ----- comparison -----

  function LevelIn(m: Permissions, k: string): string {
    if k in m then m[k] else ""
  }

  ghost predicate SameSizeAndLevels(a: Permissions, b: Permissions) {
    |a| == |b| && forall k :: k in a ==> LevelIn(b, k) == a[k]
  }

  /** A missing key reads as the empty level. */
  method ScopeEqual(a: Permissions, b: Permissions) returns (eq: bool)
    ensures eq == SameSizeAndLevels(a, b)
  {
    if |a| != |b| {
      return false;
    }
    var todo := a.Keys;
    while todo != {}
      invariant todo <= a.Keys
      invariant forall k :: k in a && k !in todo ==> LevelIn(b, k) == a[k]
      decreases |todo|
    {
      var k :| k in todo;
      if LevelIn(b, k) != a[k] { return false; }
      todo := todo - {k};
    }
    return true;
  }

  lemma NonEmptyLevelsCompare(a: Permissions, b: Permissions)
    requires forall k :: k in a ==> a[k] != ""
    ensures SameSizeAndLevels(a, b) <==> a == b
  {
    if SameSizeAndLevels(a, b) {
      assert a.Keys <= b.Keys;
      SubsetOfSameSize(a.Keys, b.Keys);
    }
  }

  lemma LongerThanAll(keys: set<string>) returns (s: string)
    ensures forall k :: k in keys ==> |k| < |s|
  {
    if keys == {} {
      s := "";
    } else {
      var x :| x in keys;
      var t := LongerThanAll(keys - {x});
      s := if |t| <= |x| then x + "x" else t;
    }
  }

  /** The comparison is equality for every right operand exactly when the left
      one has no empty level; a decoded scope has none. */
  lemma ComparisonIsEqualityIff(a: Permissions)
    ensures (forall b :: SameSizeAndLevels(a, b) <==> a == b) <==> (forall k :: k in a ==> a[k] != "")
  {
    if forall k :: k in a ==> a[k] != "" {
      forall b ensures SameSizeAndLevels(a, b) <==> a == b {
        NonEmptyLevelsCompare(a, b);
      }
    } else {
      var k :| k in a && a[k] == "";
      var longer := LongerThanAll(a.Keys);
      var b := (a - {k})[longer := "x"];
      assert longer !in a;
      assert b.Keys == (a.Keys - {k}) + {longer};
      assert SameSizeAndLevels(a, b) && a != b;
    }
  }
}
