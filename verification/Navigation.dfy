/**
 Navigation of a condition's tree: nodes are addressed by the path of child
 indices from the root, so that a node's parent is the path without its last
 index and two nodes are the same exactly when their paths are.
 */
module Navigation {
  import opened Cel

  type Path = seq<nat>

  predicate IsPath(e: Expr, p: Path) {
    p == [] || (p[0] < |e.kids| && IsPath(e.kids[p[0]], p[1..]))
  }

  function At(e: Expr, p: Path): Expr
    requires IsPath(e, p)
  {
    if p == [] then e else At(e.kids[p[0]], p[1..])
  }

  function ParentPath(p: Path): Path
    requires p != []
  {
    p[..|p| - 1]
  }

  lemma {:induction false} ParentOf(e: Expr, p: Path)
    requires IsPath(e, p) && p != []
    ensures IsPath(e, ParentPath(p))
    ensures p[|p| - 1] < |At(e, ParentPath(p)).kids|
    ensures At(e, p) == At(e, ParentPath(p)).kids[p[|p| - 1]]
  {
    if |p| > 1 {
      ParentOf(e.kids[p[0]], p[1..]);
      assert ParentPath(p)[1..] == ParentPath(p[1..]);
    }
  }

  /** Extending a path downwards: what navigation from a child sees. */
  lemma Below(e: Expr, i: nat, p: Path)
    requires i < |e.kids| && IsPath(e.kids[i], p)
    ensures IsPath(e, [i] + p) && At(e, [i] + p) == At(e.kids[i], p)
    ensures p != [] ==> ParentPath([i] + p) == [i] + ParentPath(p)
  {
    assert ([i] + p)[1..] == p;
  }

  /** The nodes at and below `e`, children before parents. */
  function Descendants(e: Expr): seq<Path>
    decreases e, 1
  {
    Children(e, 0) + [[]]
  }

  function Children(e: Expr, from: nat): seq<Path>
    requires from <= |e.kids|
    decreases e, 0, |e.kids| - from
  {
    if from == |e.kids| then []
    else Prefixed(from, Descendants(e.kids[from])) + Children(e, from + 1)
  }

  function Prefixed(i: nat, ps: seq<Path>): (r: seq<Path>)
    ensures |r| == |ps| && forall k :: 0 <= k < |ps| ==> r[k] == [i] + ps[k]
  {
    if ps == [] then [] else [[i] + ps[0]] + Prefixed(i, ps[1..])
  }

  /** The traversal visits every node of the tree and nothing else. */
  lemma {:induction false} DescendantsAreThePaths(e: Expr, p: Path)
    ensures p in Descendants(e) <==> IsPath(e, p)
    decreases e, 1
  {
    ChildrenAreThePaths(e, 0, p);
  }

  lemma {:induction false} ChildrenAreThePaths(e: Expr, from: nat, p: Path)
    requires from <= |e.kids|
    ensures p in Children(e, from) <==> p != [] && p[0] >= from && IsPath(e, p)
    decreases e, 0, |e.kids| - from
  {
    if from < |e.kids| {
      ChildrenAreThePaths(e, from + 1, p);
      var ps := Descendants(e.kids[from]);
      if p != [] {
        DescendantsAreThePaths(e.kids[from], p[1..]);
        if p[0] == from && p[1..] in ps {
          var k :| 0 <= k < |ps| && ps[k] == p[1..];
          assert Prefixed(from, ps)[k] == [from] + p[1..] == p;
        }
      }
      if p in Prefixed(from, ps) {
        var k :| 0 <= k < |ps| && Prefixed(from, ps)[k] == p;
        assert p == [from] + ps[k] && p[1..] == ps[k];
      }
    }
  }
}
