/** One delete command against a concrete document: the engine's answers
    (selection, enclosing block, boundary test, node lookup, select) are
    computed from an editor state and fed to the badge guard.

    Two boundary tests are modelled. The guard as written asks whether the
    anchor is the start (end) of the *selection*; the comments beside it say
    the intent is the start (end) of the *current block*. `StepAsWritten`
    uses the first, `Step` the second; everything else is shared. */
module Editor {
  import opened Wrappers
  import opened Paths
  import opened Document
  import opened BadgePlugin

  /** The document (the editor's top-level nodes) and the selection. */
  datatype EditorState = EditorState(doc: seq<Node>, selection: Option<Range>)

  /** What a delete command did to the editor. */
  datatype Reaction =
    | Swallowed                        // nothing changed
    | Selected(at: Path, range: Range) // the node at `at` is now selected, nothing deleted
    | Deferred(unit: TextUnit)         // the engine's default delete ran

  /** The engine's node lookup over `doc`. */
  function Lookup(doc: seq<Node>): Path -> Option<Node> {
    p => NodeAt(doc, p)
  }

  /** `block({at: selection})`; nothing is asked without a selection. */
  function Enclosing(e: EditorState): Option<Entry> {
    if e.selection.Some? then BlockAbove(e.doc, e.selection.value) else None
  }

  /** The boundary test as written: `isStart(selection.anchor, selection)`
      for Backward and `isEnd(selection.anchor, selection)` for Forward,
      that is, whether the anchor is the selection's own start (end).
      The engine's start test answers false at once for a non-zero offset;
      its end test has no such shortcut. */
  predicate AtSelectionEdge(e: EditorState, dir: Direction) {
    && e.selection.Some?
    && var r := e.selection.value;
       && r.anchor == (if dir == Backward then RangeStart(r) else RangeEnd(r))
       && (dir == Backward ==> r.anchor.offset == 0)
  }

  /** The boundary test the comments describe: the anchor is the first
      (Backward) or last (Forward) point of the enclosing block. */
  predicate AtBlockEdge(e: EditorState, dir: Direction) {
    && e.selection.Some?
    && Enclosing(e).Some?
    && var p := Enclosing(e).value.path;
       Some(e.selection.value.anchor) == (if dir == Backward then StartOf(e.doc, p) else EndOf(e.doc, p))
  }

  /** Carries out a guard outcome. `tf.select` runs inside the guard's try
      block, so a path the engine cannot select (a node with no text leaf)
      is caught and the command falls through to the default delete. */
  function Carry(doc: seq<Node>, o: Outcome, unit: TextUnit): (r: Reaction)
    ensures r == Swallowed <==> o == Absorb
    ensures r.Selected? <==> o.SelectNode? && RangeOf(doc, o.at).Some?
    ensures r.Selected? ==> r.at == o.at && Some(r.range) == RangeOf(doc, r.at)
    ensures o.DefaultDelete? ==> r == Deferred(o.unit)
    ensures o.SelectNode? && RangeOf(doc, o.at).None? ==> r == Deferred(unit)
  {
    match o
    case Absorb => Swallowed
    case DefaultDelete(u) => Deferred(u)
    case SelectNode(p) =>
      match RangeOf(doc, p)
      case Some(range) => Selected(p, range)
      case None => Deferred(unit)
  }

  /** One command, given the answer of the boundary test. */
  function React(e: EditorState, dir: Direction, unit: TextUnit, badge: string, atBoundary: bool): Reaction {
    Carry(e.doc, Guard(dir, e.selection.Some?, Enclosing(e), atBoundary, Lookup(e.doc), badge, unit), unit)
  }

  /** One command with the boundary test as the source writes it. */
  function StepAsWritten(e: EditorState, dir: Direction, unit: TextUnit, badge: string): (r: Reaction)
    ensures e.selection.None? ==> r == Deferred(unit)
    ensures r == Swallowed <==> e.selection.Some? && InsideBadge(Enclosing(e), badge)
    ensures r.Selected? ==>
      && AtSelectionEdge(e, dir)
      && Enclosing(e).Some? && !InsideBadge(Enclosing(e), badge)
      && (if dir == Backward then IsPreviousSibling(r.at, Enclosing(e).value.path)
          else IsNextSibling(r.at, Enclosing(e).value.path))
      && NodeAt(e.doc, r.at).Some? && HasType(NodeAt(e.doc, r.at).value, badge)
      && Some(r.range) == RangeOf(e.doc, r.at)
    ensures r.Deferred? ==> r.unit == unit
  {
    React(e, dir, unit, badge, AtSelectionEdge(e, dir))
  }

  /** One command with the boundary test measured against the enclosing
      block. */
  function Step(e: EditorState, dir: Direction, unit: TextUnit, badge: string): (r: Reaction)
    // no selection: only the default delete
    ensures e.selection.None? ==> r == Deferred(unit)
    // inside a badge: swallowed; nowhere else
    ensures r == Swallowed <==> e.selection.Some? && InsideBadge(Enclosing(e), badge)
    // a selection only moves from the edge of a block onto the neighbouring
    // badge in the command's direction, and covers that whole badge
    ensures r.Selected? ==>
      && AtBlockEdge(e, dir)
      && !InsideBadge(Enclosing(e), badge)
      && (if dir == Backward then IsPreviousSibling(r.at, Enclosing(e).value.path)
          else IsNextSibling(r.at, Enclosing(e).value.path))
      && NodeAt(e.doc, r.at).Some? && HasType(NodeAt(e.doc, r.at).value, badge)
      && Some(r.range) == RangeOf(e.doc, r.at)
    // nothing else touches the document: the default delete gets the same unit
    ensures r.Deferred? ==> r.unit == unit
  {
    var block := Enclosing(e);
    var o := Guard(dir, e.selection.Some?, block, AtBlockEdge(e, dir), Lookup(e.doc), badge, unit);
    Carry(e.doc, o, unit)
  }

  /** The converse of Step's selection clause: from the edge of a block
      that is not a badge, a neighbouring badge in the command's direction
      is always selected as a whole. */
  lemma BlockEdgeSelectsNeighbourBadge(e: EditorState, dir: Direction, unit: TextUnit, badge: string, q: Path)
    requires Enclosing(e).Some? && !InsideBadge(Enclosing(e), badge)
    requires AtBlockEdge(e, dir)
    requires dir == Backward ==> HasPrevious(Enclosing(e).value.path) && q == Previous(Enclosing(e).value.path)
    requires dir == Forward ==> q == Next(Enclosing(e).value.path)
    requires IsBadgeAt(Lookup(e.doc), q, badge) && RangeOf(e.doc, q).Some?
    ensures Step(e, dir, unit, badge) == Selected(q, RangeOf(e.doc, q).value)
  {
  }

  /** A badge as `insert.badge` builds it (one text child), once selected,
      swallows every further delete in either direction: the block above its
      selection is the badge itself. So a second backspace after the guard
      selected a badge does not remove it. */
  lemma {:induction false} SelectedBadgeSwallowsDelete(
    doc: seq<Node>, q: Path, badge: string, caption: Option<string>, color: Option<string>, t: string,
    dir: Direction, unit: TextUnit)
    requires NodeAt(doc, q) == Some(Element(badge, caption, color, [Text(t)]))
    ensures RangeOf(doc, q) == Some(Range(Point(q + [0], 0), Point(q + [0], |t|)))
    ensures Step(EditorState(doc, RangeOf(doc, q)), dir, unit, badge) == Swallowed
    ensures StepAsWritten(EditorState(doc, RangeOf(doc, q)), dir, unit, badge) == Swallowed
  {
    SingleLeafEdges(doc, q, badge, caption, color, t);
    var a := q + [0];
    var r := Range(Point(a, 0), Point(a, |t|));
    assert RangeOf(doc, q) == Some(r);
    var c := CommonPrefix(a, a);
    assert |c| == |a|;
    assert a[..|q|] == q;
    assert DeepestBlock(doc, a, a, |a|) == DeepestBlock(doc, a, a, |q|);
    assert BlockAbove(doc, r) == Some(Entry(Element(badge, caption, color, [Text(t)]), q));
  }

  /** The badge that `insert.badge` builds is selectable and, once
      selected, protected. */
  lemma InsertedBadgeIsProtected(
    doc: seq<Node>, q: Path, kind: string, options: BadgeOptions, opts: Option<InsertOptions>,
    dir: Direction, unit: TextUnit)
    requires NodeAt(doc, q) == Some(InsertBadge(kind, options, opts).node)
    ensures RangeOf(doc, q) == Some(Range(Point(q + [0], 0), Point(q + [0], 0)))
    ensures Step(EditorState(doc, RangeOf(doc, q)), dir, unit, kind) == Swallowed
  {
    var n := InsertBadge(kind, options, opts).node;
    SelectedBadgeSwallowsDelete(doc, q, kind, n.caption, n.color, "", dir, unit);
  }

  /** As written, a collapsed caret is always at the end of its own
      selection, wherever it is in its block, and at its start exactly when
      its offset is 0, whichever leaf of the block it is on. */
  lemma CollapsedCaretIsAtSelectionEdge(e: EditorState)
    requires e.selection.Some? && e.selection.value.anchor == e.selection.value.focus
    ensures AtSelectionEdge(e, Forward)
    ensures AtSelectionEdge(e, Backward) <==> e.selection.value.anchor.offset == 0
  {
  }

  /** As written: with a collapsed caret anywhere in a block whose next
      sibling is a selectable badge, delete selects the badge instead of
      deleting the next character. */
  lemma AsWrittenForwardIgnoresCaretOffset(e: EditorState, pt: Point, badge: string, unit: TextUnit)
    requires e.selection == Some(Range(pt, pt))
    requires Enclosing(e).Some? && !InsideBadge(Enclosing(e), badge)
    requires IsBadgeAt(Lookup(e.doc), Next(Enclosing(e).value.path), badge)
    requires RangeOf(e.doc, Next(Enclosing(e).value.path)).Some?
    ensures StepAsWritten(e, Forward, unit, badge)
         == Selected(Next(Enclosing(e).value.path), RangeOf(e.doc, Next(Enclosing(e).value.path)).value)
  {
  }

  /** Corrected: a caret strictly inside the text of a leaf is at neither
      edge of its block, so neither direction selects anything. */
  lemma MidTextCaretNeverSelects(e: EditorState, t: string, dir: Direction, unit: TextUnit, badge: string)
    requires e.selection.Some?
    requires NodeAt(e.doc, e.selection.value.anchor.path) == Some(Text(t))
    requires 0 < e.selection.value.anchor.offset < |t|
    ensures !Step(e, dir, unit, badge).Selected?
  {
  }

  /** Corrected: backward from a leaf that is not the block's first (some
      component below the block path is not 0) never selects. */
  lemma LaterLeafNeverSelectsBackward(e: EditorState, i: nat, unit: TextUnit, badge: string)
    requires e.selection.Some? && Enclosing(e).Some?
    requires |Enclosing(e).value.path| <= i < |e.selection.value.anchor.path|
    requires e.selection.value.anchor.path[i] != 0
    ensures !Step(e, Backward, unit, badge).Selected?
  {
  }
}
