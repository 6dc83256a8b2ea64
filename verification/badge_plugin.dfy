/** The badge plugin: a void block element, the `insert.badge` transform
    that builds one, and the overrides of `deleteBackward` and
    `deleteForward` that keep backspace and delete from merging into or
    removing a badge by accident.

    The overrides are pure decisions. Everything they ask the engine is a
    parameter: whether there is a selection, the block entry that encloses
    it, whether the anchor is at the relevant boundary, and the node at a
    path (a missing node and a lookup that throws are both None). The
    answer is one Outcome: swallow the command, select one path, or hand the
    command to the engine's own delete with the same unit. */
module BadgePlugin {
  import opened Wrappers
  import opened Paths
  import opened Document

  /** The plugin key, which is also the type of the nodes it creates. */
  const BadgeKey: string := "badge"

  /** The plugin's options; `defaultLabel` may be configured away. */
  datatype BadgeOptions = BadgeOptions(defaultLabel: Option<string>)

  /** The options the plugin is declared with. */
  const DefaultOptions: BadgeOptions := BadgeOptions(Some("Badge"))

  /** The optional argument of `insert.badge`. */
  datatype InsertOptions = InsertOptions(caption: Option<string>, color: Option<string>)

  /** Where `insertNode` places the node. */
  datatype InsertMode = Highest | Lowest

  /** The call `insert.badge` makes to the engine's `insertNode`. */
  datatype InsertRequest = InsertRequest(node: Node, select: bool, mode: InsertMode)

  /** The granularity handed to the engine's delete. */
  datatype TextUnit = Character | Word | Line | Block

  /** The direction of a delete command. */
  datatype Direction = Backward | Forward

  /** What one delete command does. */
  datatype Outcome =
    | Absorb                      // return without doing anything
    | SelectNode(at: Path)        // `tf.select(at)`, nothing deleted
    | DefaultDelete(unit: TextUnit) // the engine's own delete

  /** The label `insert.badge` writes: `opts?.label ?? defaultLabel ?? "Badge"`.
      `??` replaces only a missing value, so an empty label is kept. */
  function BadgeLabel(options: BadgeOptions, opts: Option<InsertOptions>): (shown: string)
    ensures opts.Some? && opts.value.caption.Some? ==> shown == opts.value.caption.value
    ensures (opts.None? || opts.value.caption.None?) && options.defaultLabel.Some?
      ==> shown == options.defaultLabel.value
    ensures (opts.None? || opts.value.caption.None?) && options.defaultLabel.None?
      ==> shown == "Badge"
  {
    var given := if opts.Some? then opts.value.caption else None;
    given.GetOr(options.defaultLabel.GetOr("Badge"))
  }

  /** The `insert.badge` transform: a badge element of the plugin's type,
      with the fallback label, the given colour and one empty text child
      (a void still needs a text child), inserted at the highest level and
      selected. */
  function InsertBadge(kind: string, options: BadgeOptions, opts: Option<InsertOptions>): (req: InsertRequest)
    ensures req.select && req.mode == Highest
    ensures HasType(req.node, kind) && req.node.children == [Text("")]
    ensures req.node.caption.Some?
    ensures opts.Some? && opts.value.caption.Some? ==> req.node.caption == opts.value.caption
    ensures (opts.None? || opts.value.caption.None?) && options.defaultLabel.Some?
      ==> req.node.caption == options.defaultLabel
    ensures (opts.None? || opts.value.caption.None?) && options.defaultLabel.None?
      ==> req.node.caption == Some("Badge")
    ensures req.node.color == if opts.Some? then opts.value.color else None
  {
    var color := if opts.Some? then opts.value.color else None;
    InsertRequest(Element(kind, Some(BadgeLabel(options, opts)), color, [Text("")]), true, Highest)
  }

  /** The node at `p`, as the lookup reports it, is a badge. */
  predicate IsBadgeAt(lookup: Path -> Option<Node>, p: Path, badge: string) {
    lookup(p).Some? && HasType(lookup(p).value, badge)
  }

  /** The caret's enclosing block is itself a badge. */
  predicate InsideBadge(block: Option<Entry>, badge: string) {
    block.Some? && HasType(block.value.node, badge)
  }

  /** The `deleteBackward` override. */
  function DeleteBackward(
    hasSelection: bool, block: Option<Entry>, atStart: bool,
    lookup: Path -> Option<Node>, badge: string, unit: TextUnit): (o: Outcome)
    // with no selection only the default delete runs
    ensures !hasSelection ==> o == DefaultDelete(unit)
    // a command inside a badge is swallowed, and only such a command is
    ensures o == Absorb <==> hasSelection && InsideBadge(block, badge)
    // the only path ever selected is the badge just before the caret's block,
    // and only when the caret is at the block's start
    ensures o.SelectNode? ==>
      && hasSelection && atStart && block.Some?
      && IsPreviousSibling(o.at, block.value.path)
      && IsBadgeAt(lookup, o.at, badge)
    // and that badge is always selected when it is there
    ensures hasSelection && !InsideBadge(block, badge) && atStart && block.Some?
      && HasPrevious(block.value.path) && IsBadgeAt(lookup, Previous(block.value.path), badge)
      ==> o == SelectNode(Previous(block.value.path))
    // the default delete receives the unit it was called with
    ensures o.DefaultDelete? ==> o.unit == unit
  {
    if !hasSelection then DefaultDelete(unit)
    else if InsideBadge(block, badge) then Absorb
    else if atStart && block.Some? && HasPrevious(block.value.path)
      && IsBadgeAt(lookup, Previous(block.value.path), badge)
    then SelectNode(Previous(block.value.path))
    else DefaultDelete(unit)
  }

  /** The `deleteForward` override. Unlike the backward one it does not
      check that a next sibling can exist: a lookup past the last child
      simply finds nothing. */
  function DeleteForward(
    hasSelection: bool, block: Option<Entry>, atEnd: bool,
    lookup: Path -> Option<Node>, badge: string, unit: TextUnit): (o: Outcome)
    ensures !hasSelection ==> o == DefaultDelete(unit)
    ensures o == Absorb <==> hasSelection && InsideBadge(block, badge)
    ensures o.SelectNode? ==>
      && hasSelection && atEnd && block.Some?
      && o.at == Next(block.value.path)
      && IsBadgeAt(lookup, o.at, badge)
    ensures hasSelection && !InsideBadge(block, badge) && atEnd && block.Some?
      && IsBadgeAt(lookup, Next(block.value.path), badge)
      ==> o == SelectNode(Next(block.value.path))
    ensures o.DefaultDelete? ==> o.unit == unit
  {
    if !hasSelection then DefaultDelete(unit)
    else if InsideBadge(block, badge) then Absorb
    else if atEnd && block.Some? && IsBadgeAt(lookup, Next(block.value.path), badge)
    then SelectNode(Next(block.value.path))
    else DefaultDelete(unit)
  }

  /** Both overrides, chosen by direction; `atBoundary` is the start test
      for Backward and the end test for Forward. */
  function Guard(
    dir: Direction, hasSelection: bool, block: Option<Entry>, atBoundary: bool,
    lookup: Path -> Option<Node>, badge: string, unit: TextUnit): (o: Outcome)
    // away from the boundary, and outside a badge, the engine deletes as usual
    ensures !atBoundary && !InsideBadge(block, badge) ==> o == DefaultDelete(unit)
    // a selected path is the neighbour in the command's direction: same
    // depth, same parent, last index one apart
    ensures o.SelectNode? ==> block.Some? && hasSelection && atBoundary
    ensures o.SelectNode? && block.Some? && |block.value.path| > 0 ==>
      && |o.at| == |block.value.path|
      && Parent(o.at) == Parent(block.value.path)
      && (if dir == Backward then Last(o.at) + 1 == Last(block.value.path)
          else Last(o.at) == Last(block.value.path) + 1)
    // on the empty path (the engine never reports one) forward looks up the
    // same path again
    ensures o.SelectNode? && block.Some? && |block.value.path| == 0 ==> dir == Forward && o.at == block.value.path
    ensures o.SelectNode? ==> IsBadgeAt(lookup, o.at, badge)
  {
    match dir
    case Backward => DeleteBackward(hasSelection, block, atBoundary, lookup, badge, unit)
    case Forward => DeleteForward(hasSelection, block, atBoundary, lookup, badge, unit)
  }

  /** Backward never consults the lookup when the block is a first child:
      any two lookups give the same outcome. */
  lemma BackwardAtFirstChildIgnoresLookup(
    hasSelection: bool, block: Option<Entry>, atStart: bool,
    lookup1: Path -> Option<Node>, lookup2: Path -> Option<Node>, badge: string, unit: TextUnit)
    requires block.Some? && !HasPrevious(block.value.path)
    ensures DeleteBackward(hasSelection, block, atStart, lookup1, badge, unit)
         == DeleteBackward(hasSelection, block, atStart, lookup2, badge, unit)
    ensures !InsideBadge(block, badge) ==>
      DeleteBackward(hasSelection, block, atStart, lookup1, badge, unit) == DefaultDelete(unit)
  {
  }

  /** Each override looks at one path only: lookups that agree on the
      neighbour of the block give the same outcome. */
  lemma GuardLooksOnlyAtNeighbour(
    dir: Direction, hasSelection: bool, block: Option<Entry>, atBoundary: bool,
    lookup1: Path -> Option<Node>, lookup2: Path -> Option<Node>, badge: string, unit: TextUnit)
    requires block.Some?
    requires dir == Forward ==> lookup1(Next(block.value.path)) == lookup2(Next(block.value.path))
    requires dir == Backward && HasPrevious(block.value.path) ==>
      lookup1(Previous(block.value.path)) == lookup2(Previous(block.value.path))
    ensures Guard(dir, hasSelection, block, atBoundary, lookup1, badge, unit)
         == Guard(dir, hasSelection, block, atBoundary, lookup2, badge, unit)
  {
  }
}
