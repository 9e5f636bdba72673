/** Searching, joining and ordering of strings. */
module Text {

  /** The first position of `c`, or -1. */
  function IndexOf(s: string, c: char): (i: int)
    ensures -1 <= i < |s|
    ensures i < 0 <==> c !in s
    ensures 0 <= i ==> s[i] == c && forall k :: 0 <= k < i ==> s[k] != c
  {
    if s == "" then -1
    else if s[0] == c then 0
    else
      var r := IndexOf(s[1..], c);
      if r < 0 then -1 else r + 1
  }

  /** The last position of `c`, or -1. */
  function LastIndexOf(s: string, c: char): (i: int)
    ensures -1 <= i < |s|
    ensures i < 0 <==> c !in s
    ensures 0 <= i ==> s[i] == c && forall k :: i < k < |s| ==> s[k] != c
  {
    if s == "" then -1
    else if s[|s| - 1] == c then |s| - 1
    else LastIndexOf(s[..|s| - 1], c)
  }

  /** A text is split at its first or last separator in only one way. */
  lemma FirstSplit(a: string, c: char, b: string)
    requires c !in a
    ensures IndexOf(a + [c] + b, c) == |a|
    ensures (a + [c] + b)[..|a|] == a && (a + [c] + b)[|a| + 1..] == b
  {
    var s := a + [c] + b;
    assert s[|a|] == c;
    forall k | 0 <= k < |a| ensures s[k] != c {
      assert s[k] == a[k];
      assert a[k] in a;
    }
  }

  lemma LastSplit(a: string, c: char, b: string)
    requires c !in b
    ensures LastIndexOf(a + [c] + b, c) == |a|
    ensures (a + [c] + b)[..|a|] == a && (a + [c] + b)[|a| + 1..] == b
  {
    var s := a + [c] + b;
    forall k | |a| < k < |s| ensures s[k] != c {
      Suffix(a + [c], b, k);
    }
    LastIs(s, c, |a|);
  }

  lemma Suffix(a: string, b: string, k: nat)
    requires |a| <= k < |a| + |b|
    ensures (a + b)[k] == b[k - |a|] && b[k - |a|] in b
  {
  }

  lemma LastIs(s: string, c: char, i: nat)
    requires i < |s| && s[i] == c && forall k :: i < k < |s| ==> s[k] != c
    ensures LastIndexOf(s, c) == i
  {
  }

  function JoinWith(parts: seq<string>, sep: char): string {
    if parts == [] then ""
    else if |parts| == 1 then parts[0]
    else parts[0] + [sep] + JoinWith(parts[1..], sep)
  }

  // ----- order -----

  /** Byte-wise lexicographic order. */
  predicate Less(a: string, b: string) {
    if b == "" then false
    else if a == "" then true
    else a[0] < b[0] || (a[0] == b[0] && Less(a[1..], b[1..]))
  }

  lemma {:induction false} LessIsTotalOrder(a: string, b: string, c: string)
    ensures !Less(a, a)
    ensures a != b ==> Less(a, b) || Less(b, a)
    ensures Less(a, b) && Less(b, c) ==> Less(a, c)
    ensures !(Less(a, b) && Less(b, a))
  {
    if a != "" {
      assert a == [a[0]] + a[1..];
      if b != "" && c != "" {
        assert b == [b[0]] + b[1..];
        LessIsTotalOrder(a[1..], b[1..], c[1..]);
      } else if b != "" {
        assert b == [b[0]] + b[1..];
        LessIsTotalOrder(a[1..], b[1..], "");
      } else {
        LessIsTotalOrder(a[1..], "", "");
      }
    }
  }

  /** The order is decided by the first difference; a proper prefix comes
      first. */
  ghost predicate Precedes(a: string, b: string) {
    a < b || exists i :: 0 <= i < |a| && i < |b| && a[..i] == b[..i] && a[i] < b[i]
  }

  lemma {:induction false} LessExactly(a: string, b: string)
    ensures Less(a, b) <==> Precedes(a, b)
  {
    if a != "" && b != "" {
      LessExactly(a[1..], b[1..]);
      assert a == [a[0]] + a[1..] && b == [b[0]] + b[1..];
      if a[0] == b[0] {
        forall i | 0 <= i < |a| - 1 && i < |b| - 1
          ensures a[1..][..i] == b[1..][..i] <==> a[..i + 1] == b[..i + 1]
        {
          assert a[..i + 1] == [a[0]] + a[1..][..i] && b[..i + 1] == [b[0]] + b[1..][..i];
        }
        SameHead(a, b);
      } else {
        assert forall i :: 0 < i < |a| && i < |b| ==> a[..i][0] != b[..i][0];
        assert a[..0] == b[..0];
      }
    }
  }

  lemma SameHead(a: string, b: string)
    requires a != "" && b != "" && a[0] == b[0]
    ensures Precedes(a, b) <==> Precedes(a[1..], b[1..])
  {
    var x, y := a[1..], b[1..];
    if i :| 0 <= i < |x| && i < |y| && x[..i] == y[..i] && x[i] < y[i] {
      assert a[..i + 1] == [a[0]] + x[..i] && b[..i + 1] == [b[0]] + y[..i];
      assert a[i + 1] < b[i + 1];
    }
    if i :| 0 <= i < |a| && i < |b| && a[..i] == b[..i] && a[i] < b[i] {
      assert a[..i][1..] == x[..i - 1] && b[..i][1..] == y[..i - 1];
      assert x[i - 1] < y[i - 1];
    }
    assert a < b <==> x < y by {
      assert a == [a[0]] + x && b == [b[0]] + y;
    }
  }

  ghost predicate Increasing(s: seq<string>) {
    forall i, j :: 0 <= i < j < |s| ==> Less(s[i], s[j])
  }

  ghost predicate IsSortedSet(s: seq<string>, elements: set<string>) {
    Increasing(s) && forall x :: x in s <==> x in elements
  }

  /** A set has one increasing enumeration. */
  lemma {:induction false} SortedSetIsUnique(s: seq<string>, t: seq<string>, elements: set<string>)
    requires IsSortedSet(s, elements) && IsSortedSet(t, elements)
    ensures s == t
  {
    if s == [] {
      assert forall x :: x in t ==> x in s;
      SomeElement(t);
    } else {
      assert s[0] in t;
      var i :| 0 <= i < |t| && t[i] == s[0];
      assert t[0] in s;
      var j :| 0 <= j < |s| && s[j] == t[0];
      LessIsTotalOrder(s[0], t[0], s[0]);
      assert s[0] == t[0];
      TailSorted(s, elements);
      TailSorted(t, elements);
      SortedSetIsUnique(s[1..], t[1..], elements - {s[0]});
    }
  }

  lemma SomeElement(s: seq<string>)
    ensures s == [] || exists x :: x in s
  {
    if s != [] { assert s[0] in s; }
  }

  lemma TailSorted(s: seq<string>, elements: set<string>)
    requires IsSortedSet(s, elements) && s != []
    ensures IsSortedSet(s[1..], elements - {s[0]})
  {
    LessIsTotalOrder(s[0], s[0], s[0]);
    assert s == [s[0]] + s[1..];
    forall x | x in elements - {s[0]} ensures x in s[1..] {
      assert x in s;
    }
  }

  ghost predicate Distinct(s: seq<string>) {
    forall i, j :: 0 <= i < j < |s| ==> s[i] != s[j]
  }

  method Sort(s: seq<string>) returns (t: seq<string>)
    requires Distinct(s)
    ensures IsSortedSet(t, set x | x in s)
  {
    t := [];
    ghost var done: set<string> := {};
    for i := 0 to |s|
      invariant IsSortedSet(t, done) && done == set x | x in s[..i]
    {
      assert s[..i + 1] == s[..i] + [s[i]];
      t := Insert(t, done, s[i]);
      done := done + {s[i]};
    }
    assert s[..|s|] == s;
  }

  /** The elements of a set, visited in any order, sorted. */
  method SortedSet(elements: set<string>) returns (s: seq<string>)
    ensures IsSortedSet(s, elements)
  {
    s := [];
    var todo := elements;
    while todo != {}
      invariant todo <= elements
      invariant IsSortedSet(s, elements - todo)
      decreases |todo|
    {
      var x :| x in todo;
      s := Insert(s, elements - todo, x);
      todo := todo - {x};
      assert elements - todo == (elements - (todo + {x})) + {x};
    }
    assert elements - todo == elements;
  }

  method Insert(s: seq<string>, ghost elements: set<string>, x: string) returns (t: seq<string>)
    requires IsSortedSet(s, elements) && x !in elements
    ensures IsSortedSet(t, elements + {x})
  {
    var i := 0;
    while i < |s| && Less(s[i], x)
      invariant 0 <= i <= |s| && forall k :: 0 <= k < i ==> Less(s[k], x)
    {
      i := i + 1;
    }
    t := s[..i] + [x] + s[i..];
    forall k | i <= k < |s| ensures Less(x, s[k]) {
      assert s[i] in s;
      LessIsTotalOrder(x, s[i], s[k]);
    }
    assert Increasing(t);
    assert s == s[..i] + s[i..];
  }
}
