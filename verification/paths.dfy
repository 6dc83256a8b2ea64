/** Positions in the document tree. A path is the child index at each depth,
    as the editing engine's `Path` arrays are. */
module Paths {

  type Path = seq<nat>

  /** The index of the addressed node among its siblings. */
  function Last(p: Path): nat
    requires |p| > 0
  {
    p[|p| - 1]
  }

  /** The path of the parent (every component but the last). */
  function Parent(p: Path): Path
    requires |p| > 0
  {
    p[..|p| - 1]
  }

  /** `q` addresses the sibling immediately before the node at `p`. */
  predicate IsPreviousSibling(q: Path, p: Path) {
    && |p| > 0
    && |q| == |p|
    && Parent(q) == Parent(p)
    && Last(q) + 1 == Last(p)
  }

  /** `q` addresses the sibling immediately after the node at `p`. */
  predicate IsNextSibling(q: Path, p: Path) {
    IsPreviousSibling(p, q)
  }

  /** The backward guard's test `blockPath[blockPath.length - 1] > 0`; on the
      empty path the index is `undefined`, and `undefined > 0` is false. */
  predicate HasPrevious(p: Path) {
    |p| > 0 && Last(p) > 0
  }

  /** The copy with its last component decreased by one. */
  function Previous(p: Path): (q: Path)
    requires HasPrevious(p)
    ensures IsPreviousSibling(q, p)
  {
    Parent(p) + [Last(p) - 1]
  }

  /** The copy with its last component increased by one, as the forward
      guard builds it. On the empty path the assignment to index -1 writes a
      property that is not an element, so the path comes back unchanged. */
  function Next(p: Path): (q: Path)
    ensures |p| > 0 ==> IsNextSibling(q, p)
    ensures |p| == 0 ==> q == p
  {
    if |p| == 0 then p else Parent(p) + [Last(p) + 1]
  }

  /** Previous and Next undo each other wherever both are defined. */
  lemma PreviousNextInverse(p: Path)
    requires |p| > 0
    ensures HasPrevious(Next(p)) && Previous(Next(p)) == p
    ensures HasPrevious(p) ==> Next(Previous(p)) == p
  {
    assert Parent(Next(p)) == Parent(p);
    assert Parent(p) + [Last(p)] == p;
  }

  /** The longest path that is a prefix of both arguments. */
  function CommonPrefix(a: Path, b: Path): (c: Path)
    ensures c <= a && c <= b
    ensures |c| < |a| && |c| < |b| ==> a[|c|] != b[|c|]
  {
    if |a| == 0 || |b| == 0 || a[0] != b[0] then []
    else [a[0]] + CommonPrefix(a[1..], b[1..])
  }

  /** Document order on paths, as the engine compares them: the first
      differing component decides, and a path and its ancestor compare
      equal (0). */
  function Compare(a: Path, b: Path): (r: int)
    ensures -1 <= r <= 1
    ensures r == 0 <==> (a <= b || b <= a)
  {
    if |a| == 0 || |b| == 0 then 0
    else if a[0] < b[0] then -1
    else if a[0] > b[0] then 1
    else Compare(a[1..], b[1..])
  }

  /** A path that agrees with `b` on its first `k` components and is all
      zeros after them (the first-child descent from `a[..k]`) never comes
      after `b`. */
  lemma {:induction false} FirstDescentComesFirst(a: Path, b: Path, k: nat)
    requires k <= |a| && k <= |b| && a[..k] == b[..k]
    requires forall i :: k <= i < |a| ==> a[i] == 0
    ensures Compare(a, b) != 1
    decreases |a|
  {
    if |a| == 0 || |b| == 0 {
    } else if k == 0 {
      assert a[0] == 0;
      if a[0] == b[0] {
        FirstDescentComesFirst(a[1..], b[1..], 0);
      }
    } else {
      assert a[0] == a[..k][0] == b[..k][0] == b[0];
      assert a[1..][..k - 1] == a[..k][1..] == b[..k][1..] == b[1..][..k - 1];
      FirstDescentComesFirst(a[1..], b[1..], k - 1);
    }
  }
}
