/** The slice of the editing engine's document model that the badge guard
    observes: a tree of element and text nodes, points and ranges, the node
    at a path, the first and last point of a node, and the block that
    encloses a selection. */
module Document {
  import opened Wrappers
  import opened Paths

  /** A node of the document: a text leaf, or an element with a type tag
      (`kind`, the engine's `type` property), the badge's optional `label`
      (`caption` here, as `label` is a Dafny keyword) and `color`, and its
      children. */
  datatype Node =
    | Text(text: string)
    | Element(kind: string, caption: Option<string>, color: Option<string>, children: seq<Node>)

  /** `node.type === t`: only elements carry a type. */
  predicate HasType(n: Node, t: string) {
    n.Element? && n.kind == t
  }

  /** A caret position: a path to a text leaf and a character offset in it. */
  datatype Point = Point(path: Path, offset: nat)

  /** A selection: where it was started (anchor) and where it ends (focus). */
  datatype Range = Range(anchor: Point, focus: Point)

  /** The node that a block query returned, with its path. */
  datatype Entry = Entry(node: Node, path: Path)

  /** The node at `p` among the top-level nodes `doc`; None for a path that
      leaves the tree. The empty path addresses the editor itself, which has
      no type, so for the guard it is as good as absent. */
  function NodeAt(doc: seq<Node>, p: Path): (r: Option<Node>)
    ensures r.Some? ==> |p| > 0 && p[0] < |doc|
    ensures |p| == 1 && p[0] < |doc| ==> r == Some(doc[p[0]])
    decreases |p|
  {
    if |p| == 0 || p[0] >= |doc| then None
    else if |p| == 1 then Some(doc[p[0]])
    else match doc[p[0]]
      case Text(_) => None
      case Element(_, _, _, children) => NodeAt(children, p[1..])
  }

  /** The node at the relative path `q` below `n`. */
  function Within(n: Node, q: Path): Option<Node> {
    if |q| == 0 then Some(n)
    else match n
      case Text(_) => None
      case Element(_, _, _, children) => NodeAt(children, q)
  }

  /** Looking up `p + q` is looking up `p` and then `q` below it. */
  lemma {:induction false} NodeAtAppend(doc: seq<Node>, p: Path, q: Path)
    requires NodeAt(doc, p).Some?
    ensures NodeAt(doc, p + q) == Within(NodeAt(doc, p).value, q)
    decreases |p|
  {
    if |p| == 1 {
      if |q| > 0 {
        assert (p + q)[1..] == q;
      }
    } else {
      assert (p + q)[0] == p[0];
      assert (p + q)[1..] == p[1..] + q;
      match doc[p[0]]
      case Element(_, _, _, children) =>
        NodeAtAppend(children, p[1..], q);
    }
  }

  /** Below an element, the path `[k] + r` is the path `r` below child `k`. */
  lemma WithinChild(n: Node, k: nat, r: Path)
    requires n.Element? && k < |n.children|
    ensures Within(n, [k] + r) == Within(n.children[k], r)
  {
    if |r| > 0 {
      assert ([k] + r)[1..] == r;
    }
  }

  /** The relative path of the first text leaf below `n` (always descending
      into child 0), or None when an element on the way has no children. */
  function FirstLeaf(n: Node): (q: Option<Path>)
    ensures q.Some? ==> Within(n, q.value).Some? && Within(n, q.value).value.Text?
    ensures q.Some? ==> forall i :: 0 <= i < |q.value| ==> q.value[i] == 0
  {
    match n
    case Text(_) => Some([])
    case Element(_, _, _, children) =>
      if |children| == 0 then None
      else match FirstLeaf(children[0])
        case None => None
        case Some(q) => Some([0] + q)
  }

  /** The relative path of the last text leaf below `n` (always descending
      into the last child). */
  function LastLeaf(n: Node): (q: Option<Path>)
    ensures q.Some? ==> Within(n, q.value).Some? && Within(n, q.value).value.Text?
    // every step goes to the last child of an element
    ensures q.Some? ==> forall i :: 0 <= i < |q.value| ==>
      && Within(n, q.value[..i]).Some? && Within(n, q.value[..i]).value.Element?
      && q.value[i] + 1 == |Within(n, q.value[..i]).value.children|
  {
    match n
    case Text(_) => Some([])
    case Element(_, _, _, children) =>
      if |children| == 0 then None
      else match LastLeaf(children[|children| - 1])
        case None => None
        case Some(q) =>
          LastChildStep(n, q);
          Some([|children| - 1] + q)
  }

  /** The step of LastLeaf's descent contract from the last child to its
      parent. */
  lemma LastChildStep(n: Node, q: Path)
    requires n.Element? && |n.children| > 0
    requires forall i :: 0 <= i < |q| ==>
      && Within(n.children[|n.children| - 1], q[..i]).Some?
      && Within(n.children[|n.children| - 1], q[..i]).value.Element?
      && q[i] + 1 == |Within(n.children[|n.children| - 1], q[..i]).value.children|
    ensures var q' := [|n.children| - 1] + q;
      forall i :: 0 <= i < |q'| ==>
        && Within(n, q'[..i]).Some? && Within(n, q'[..i]).value.Element?
        && q'[i] + 1 == |Within(n, q'[..i]).value.children|
  {
    var k := |n.children| - 1;
    var q' := [k] + q;
    forall i | 0 <= i < |q'|
      ensures Within(n, q'[..i]).Some? && Within(n, q'[..i]).value.Element?
      ensures q'[i] + 1 == |Within(n, q'[..i]).value.children|
    {
      if i > 0 {
        assert q'[..i] == [k] + q[..i - 1];
        WithinChild(n, k, q[..i - 1]);
      }
    }
  }

  /** True when `pt` lies on a text leaf of `doc` within that leaf's text. */
  predicate IsTextPoint(doc: seq<Node>, pt: Point) {
    && NodeAt(doc, pt.path).Some?
    && NodeAt(doc, pt.path).value.Text?
    && pt.offset <= |NodeAt(doc, pt.path).value.text|
  }

  /** The first point of the node at `p` (the engine's start of a path):
      offset 0 of its first leaf. None where the engine would throw. */
  function StartOf(doc: seq<Node>, p: Path): (r: Option<Point>)
    ensures r.Some? ==> p <= r.value.path && r.value.offset == 0 && IsTextPoint(doc, r.value)
    ensures r.Some? ==> forall i :: |p| <= i < |r.value.path| ==> r.value.path[i] == 0
    // it exists exactly when the first-child descent ends at a text leaf
    ensures r.Some? <==> NodeAt(doc, p).Some? && FirstLeaf(NodeAt(doc, p).value).Some?
  {
    match NodeAt(doc, p)
    case None => None
    case Some(n) =>
      match FirstLeaf(n)
      case None => None
      case Some(q) =>
        NodeAtAppend(doc, p, q);
        Some(Point(p + q, 0))
  }

  /** The last point of the node at `p` (the engine's end of a path): its
      last leaf, after the leaf's last character. */
  function EndOf(doc: seq<Node>, p: Path): (r: Option<Point>)
    ensures r.Some? ==> p <= r.value.path && IsTextPoint(doc, r.value)
    ensures r.Some? ==> r.value.offset == |NodeAt(doc, r.value.path).value.text|
    // below `p` every step goes to the last child of an element
    ensures r.Some? ==> forall i :: |p| <= i < |r.value.path| ==>
      && IsElementAt(doc, r.value.path[..i])
      && r.value.path[i] + 1 == |NodeAt(doc, r.value.path[..i]).value.children|
    // it exists exactly when the last-child descent ends at a text leaf
    ensures r.Some? <==> NodeAt(doc, p).Some? && LastLeaf(NodeAt(doc, p).value).Some?
  {
    match NodeAt(doc, p)
    case None => None
    case Some(n) =>
      match LastLeaf(n)
      case None => None
      case Some(q) =>
        NodeAtAppend(doc, p, q);
        LastDescentInDoc(doc, p, n, q);
        Some(Point(p + q, |Within(n, q).value.text|))
  }

  /** LastLeaf's descent, read as absolute paths of `doc`. */
  lemma LastDescentInDoc(doc: seq<Node>, p: Path, n: Node, q: Path)
    requires NodeAt(doc, p) == Some(n) && LastLeaf(n) == Some(q)
    ensures forall i :: |p| <= i < |p + q| ==>
      && IsElementAt(doc, (p + q)[..i])
      && (p + q)[i] + 1 == |NodeAt(doc, (p + q)[..i]).value.children|
  {
    forall i | |p| <= i < |p + q|
      ensures IsElementAt(doc, (p + q)[..i])
      ensures (p + q)[i] + 1 == |NodeAt(doc, (p + q)[..i]).value.children|
    {
      var j := i - |p|;
      assert (p + q)[..i] == p + q[..j];
      assert (p + q)[i] == q[j];
      NodeAtAppend(doc, p, q[..j]);
    }
  }

  /** Nothing lies below a text leaf. */
  lemma BelowTextIsNothing(doc: seq<Node>, a: Path, b: Path)
    requires NodeAt(doc, a).Some? && NodeAt(doc, a).value.Text?
    requires a < b
    ensures NodeAt(doc, b).None?
  {
    assert b == a + b[|a|..];
    NodeAtAppend(doc, a, b[|a|..]);
  }

  /** The range covering the whole node at `p`, which selecting a path
      produces: from its first point to its last. */
  function RangeOf(doc: seq<Node>, p: Path): (r: Option<Range>)
    ensures r.Some? <==> StartOf(doc, p).Some? && EndOf(doc, p).Some?
    ensures r.Some? ==> p <= r.value.anchor.path && p <= r.value.focus.path
    ensures r.Some? ==> r.value.anchor.offset == 0 && IsTextPoint(doc, r.value.anchor) && IsTextPoint(doc, r.value.focus)
    ensures r.Some? ==> r.value == Range(StartOf(doc, p).value, EndOf(doc, p).value)
    // the range is never backward: its anchor is its start, its focus its end
    ensures r.Some? ==> !IsBackward(r.value) && RangeStart(r.value) == r.value.anchor && RangeEnd(r.value) == r.value.focus
  {
    match (StartOf(doc, p), EndOf(doc, p))
    case (Some(s), Some(e)) =>
      StartNotAfterEnd(doc, p);
      Some(Range(s, e))
    case _ => None
  }

  /** The start of a node never comes after its end. */
  lemma StartNotAfterEnd(doc: seq<Node>, p: Path)
    requires StartOf(doc, p).Some? && EndOf(doc, p).Some?
    ensures ComparePoints(StartOf(doc, p).value, EndOf(doc, p).value) != 1
  {
    var s, e := StartOf(doc, p).value, EndOf(doc, p).value;
    assert s.path[..|p|] == p == e.path[..|p|];
    FirstDescentComesFirst(s.path, e.path, |p|);
    if Compare(s.path, e.path) == 0 {
      if s.path < e.path {
        BelowTextIsNothing(doc, s.path, e.path);
      } else if e.path < s.path {
        BelowTextIsNothing(doc, e.path, s.path);
      }
      assert s.path == e.path;
    }
  }

  /** The edges of an element whose only child is one text leaf: offset 0
      and the full length of that leaf. */
  lemma SingleLeafEdges(doc: seq<Node>, p: Path, kind: string, caption: Option<string>, color: Option<string>, t: string)
    requires NodeAt(doc, p) == Some(Element(kind, caption, color, [Text(t)]))
    ensures NodeAt(doc, p + [0]) == Some(Text(t))
    ensures StartOf(doc, p) == Some(Point(p + [0], 0))
    ensures EndOf(doc, p) == Some(Point(p + [0], |t|))
  {
    NodeAtAppend(doc, p, [0]);
    var n := Element(kind, caption, color, [Text(t)]);
    assert FirstLeaf(Text(t)) == Some([]) && [0] + [] == [0];
    assert FirstLeaf(n) == Some([0]) && LastLeaf(n) == Some([0]);
    assert Within(n, [0]) == Some(Text(t));
  }

  /** Document order on points: by path, then by offset. */
  function ComparePoints(a: Point, b: Point): (r: int)
    ensures -1 <= r <= 1
  {
    var c := Compare(a.path, b.path);
    if c != 0 then c
    else if a.offset < b.offset then -1
    else if a.offset > b.offset then 1
    else 0
  }

  /** The focus comes before the anchor. */
  predicate IsBackward(r: Range) {
    ComparePoints(r.anchor, r.focus) == 1
  }

  /** The earlier edge of a range (the engine's start of a range). */
  function RangeStart(r: Range): (pt: Point)
    ensures pt == r.anchor || pt == r.focus
  {
    if IsBackward(r) then r.focus else r.anchor
  }

  /** The later edge of a range (the engine's end of a range). */
  function RangeEnd(r: Range): (pt: Point)
    ensures pt == r.anchor || pt == r.focus
  {
    if IsBackward(r) then r.anchor else r.focus
  }

  /** An element sits at `p`. */
  predicate IsElementAt(doc: seq<Node>, p: Path) {
    NodeAt(doc, p).Some? && NodeAt(doc, p).value.Element?
  }

  /** The deepest element whose path is `a[..j]` for some `j <= k`, with
      `a[..j]` a proper prefix of both `a` and `b`. */
  function DeepestBlock(doc: seq<Node>, a: Path, b: Path, k: nat): (e: Option<Entry>)
    requires k <= |a| && k <= |b| && a[..k] == b[..k]
    ensures e.Some? ==> var j := |e.value.path|;
      && 0 < j <= k && j < |a| && j < |b|
      && e.value.path == a[..j] == b[..j]
      && NodeAt(doc, e.value.path) == Some(e.value.node) && e.value.node.Element?
    ensures var lo := if e.Some? then |e.value.path| else 0;
      forall j :: lo < j <= k && j < |a| && j < |b| ==> !IsElementAt(doc, a[..j])
    decreases k
  {
    if k == 0 then None
    else if k < |a| && k < |b| && IsElementAt(doc, a[..k]) then
      Some(Entry(NodeAt(doc, a[..k]).value, a[..k]))
    else
      assert a[..k - 1] == a[..k][..k - 1] && b[..k - 1] == b[..k][..k - 1];
      DeepestBlock(doc, a, b, k - 1)
  }

  /** The engine's `block({at: range})`: the deepest element that is a
      proper ancestor of both ends of the range; None when only the editor
      itself encloses them. */
  function BlockAbove(doc: seq<Node>, r: Range): (e: Option<Entry>)
    ensures e.Some? ==>
      && |e.value.path| > 0
      && e.value.path < r.anchor.path && e.value.path < r.focus.path
      && NodeAt(doc, e.value.path) == Some(e.value.node) && e.value.node.Element?
    ensures var lo := if e.Some? then |e.value.path| else 0;
      forall j :: lo < j < |r.anchor.path| && j < |r.focus.path| && r.anchor.path[..j] == r.focus.path[..j]
        ==> !IsElementAt(doc, r.anchor.path[..j])
  {
    var a, b := r.anchor.path, r.focus.path;
    var c := CommonPrefix(a, b);
    assert a[..|c|] == c == b[..|c|];
    var e := DeepestBlock(doc, a, b, |c|);
    assert forall j :: |c| < j <= |a| && j <= |b| ==> a[..j] != b[..j] by {
      forall j | |c| < j <= |a| && j <= |b|
        ensures a[..j] != b[..j]
      {
        assert a[..j][|c|] == a[|c|] && b[..j][|c|] == b[|c|];
      }
    }
    e
  }
}
