/** The editor's initial value (paragraph, badge, paragraph) and what the
    guard does on it. */
module Demo {
  import opened Wrappers
  import opened Paths
  import opened Document
  import opened BadgePlugin
  import opened Editor

  /** The paragraph plugin's key, the type of ordinary text blocks. */
  const ParagraphKey: string := "p"

  /** The initial value: a paragraph, a badge, a paragraph. */
  const InitialValue: seq<Node> := [
    Element(ParagraphKey, None, None, [Text("Hello, world!")]),
    Element(BadgeKey, None, None, [Text("")]),
    Element(ParagraphKey, None, None, [Text("Hello, world! 2")])
  ]

  /** The same value with the last paragraph's text split over two leaves
      (as text with two different marks is). */
  const SplitValue: seq<Node> := [
    Element(ParagraphKey, None, None, [Text("Hello, world!")]),
    Element(BadgeKey, None, None, [Text("")]),
    Element(ParagraphKey, None, None, [Text("Hello, "), Text("world! 2")])
  ]

  /** A collapsed selection at `path`, `offset`. */
  function Caret(doc: seq<Node>, path: Path, offset: nat): EditorState {
    EditorState(doc, Some(Range(Point(path, offset), Point(path, offset))))
  }

  /** The whole-badge selection the guard produces for the badge at [1]. */
  const BadgeSelection: Range := Range(Point([1, 0], 0), Point([1, 0], 0))

  /** The block around a caret in the first leaf of a paragraph of the
      initial value is that paragraph. */
  lemma InitialValueCaretBlock(i: nat, offset: nat)
    requires i == 0 || i == 2
    ensures Enclosing(Caret(InitialValue, [i, 0], offset)) == Some(Entry(InitialValue[i], [i]))
    ensures NodeAt(InitialValue, [i, 0]) == Some(InitialValue[i].children[0])
  {
    assert CommonPrefix([i, 0], [i, 0]) == [i, 0];
    assert NodeAt(InitialValue, [i]) == Some(InitialValue[i]);
    assert [i, 0][..2] == [i, 0] && [i, 0][..1] == [i];
  }

  /** Backspace at the start of the last paragraph selects the badge before
      it and deletes nothing, with either boundary test. */
  lemma BackspaceBeforeBadge()
    ensures Step(Caret(InitialValue, [2, 0], 0), Backward, Character, BadgeKey) == Selected([1], BadgeSelection)
    ensures StepAsWritten(Caret(InitialValue, [2, 0], 0), Backward, Character, BadgeKey) == Selected([1], BadgeSelection)
  {
    var e := Caret(InitialValue, [2, 0], 0);
    InitialValueCaretBlock(2, 0);
    InitialValueBadge();
    SingleLeafEdges(InitialValue, [2], ParagraphKey, None, None, "Hello, world! 2");
    assert [2] + [0] == [2, 0];
    BlockEdgeSelectsNeighbourBadge(e, Backward, Character, BadgeKey, [1]);
    CollapsedCaretIsAtSelectionEdge(e);
  }

  /** A second backspace, with the badge selected, is swallowed: the badge
      stays. */
  lemma SecondBackspaceKeepsBadge()
    ensures Step(EditorState(InitialValue, Some(BadgeSelection)), Backward, Character, BadgeKey) == Swallowed
  {
    InitialValueBadge();
    SelectedBadgeSwallowsDelete(InitialValue, [1], BadgeKey, None, None, "", Backward, Character);
  }

  /** Delete at the end of the first paragraph selects the badge after it. */
  lemma DeleteBeforeBadge()
    ensures Step(Caret(InitialValue, [0, 0], 13), Forward, Character, BadgeKey) == Selected([1], BadgeSelection)
  {
    var e := Caret(InitialValue, [0, 0], 13);
    InitialValueCaretBlock(0, 13);
    InitialValueBadge();
    SingleLeafEdges(InitialValue, [0], ParagraphKey, None, None, "Hello, world!");
    assert [0] + [0] == [0, 0] && |"Hello, world!"| == 13;
    BlockEdgeSelectsNeighbourBadge(e, Forward, Character, BadgeKey, [1]);
  }

  /** Backspace in the middle of a paragraph is the engine's own delete. */
  lemma BackspaceInsideParagraph()
    ensures Step(Caret(InitialValue, [2, 0], 3), Backward, Word, BadgeKey) == Deferred(Word)
  {
    InitialValueCaretBlock(2, 3);
    MidTextCaretNeverSelects(Caret(InitialValue, [2, 0], 3), "Hello, world! 2", Backward, Word, BadgeKey);
  }

  /** As written, backspace after "Hel" in the last paragraph fails the
      start test and is the engine's own delete. */
  lemma BackspaceInsideParagraphAsWritten()
    ensures StepAsWritten(Caret(InitialValue, [2, 0], 3), Backward, Character, BadgeKey) == Deferred(Character)
  {
    InitialValueCaretBlock(2, 3);
    CollapsedCaretIsAtSelectionEdge(Caret(InitialValue, [2, 0], 3));
  }

  /** The badge of the initial value is at [1], and selecting it gives
      BadgeSelection. */
  lemma InitialValueBadge()
    ensures Next([0]) == [1] == Previous([2])
    ensures IsBadgeAt(Lookup(InitialValue), [1], BadgeKey)
    ensures RangeOf(InitialValue, [1]) == Some(BadgeSelection)
  {
    SingleLeafEdges(InitialValue, [1], BadgeKey, None, None, "");
    assert [1] + [0] == [1, 0];
  }

  /** As written, delete with the caret after "Hello" in the first
      paragraph selects the badge instead of deleting ",". */
  lemma ForwardMidTextSelectsBadgeAsWritten()
    ensures StepAsWritten(Caret(InitialValue, [0, 0], 5), Forward, Character, BadgeKey) == Selected([1], BadgeSelection)
  {
    InitialValueCaretBlock(0, 5);
    InitialValueBadge();
    AsWrittenForwardIgnoresCaretOffset(Caret(InitialValue, [0, 0], 5), Point([0, 0], 5), BadgeKey, Character);
  }

  /** With the block as the boundary, the same delete is the engine's own. */
  lemma ForwardMidTextDefers()
    ensures Step(Caret(InitialValue, [0, 0], 5), Forward, Character, BadgeKey) == Deferred(Character)
  {
    InitialValueCaretBlock(0, 5);
    MidTextCaretNeverSelects(Caret(InitialValue, [0, 0], 5), "Hello, world!", Forward, Character, BadgeKey);
  }

  /** As written, backspace at the start of the second leaf of a paragraph
      (after "Hello, ") selects the badge before the paragraph instead of
      deleting the space. */
  lemma BackwardSecondLeafSelectsBadgeAsWritten()
    ensures StepAsWritten(Caret(SplitValue, [2, 1], 0), Backward, Character, BadgeKey) == Selected([1], BadgeSelection)
  {
    var e := Caret(SplitValue, [2, 1], 0);
    SplitValueCaretBlock();
    assert Previous([2]) == [1];
    SingleLeafEdges(SplitValue, [1], BadgeKey, None, None, "");
    assert [1] + [0] == [1, 0];
    CollapsedCaretIsAtSelectionEdge(e);
    assert Guard(Backward, true, Enclosing(e), true, Lookup(SplitValue), BadgeKey, Character) == SelectNode([1]);
  }

  /** With the block as the boundary, the same backspace is the engine's
      own. */
  lemma BackwardSecondLeafDefers()
    ensures Step(Caret(SplitValue, [2, 1], 0), Backward, Character, BadgeKey) == Deferred(Character)
  {
    SplitValueCaretBlock();
    LaterLeafNeverSelectsBackward(Caret(SplitValue, [2, 1], 0), 1, Character, BadgeKey);
  }

  /** The block around the caret at [2, 1] of the split value is the last
      paragraph. */
  lemma SplitValueCaretBlock()
    ensures Enclosing(Caret(SplitValue, [2, 1], 0)) == Some(Entry(SplitValue[2], [2]))
  {
    assert CommonPrefix([2, 1], [2, 1]) == [2, 1];
    assert NodeAt(SplitValue, [2]) == Some(SplitValue[2]);
    assert [2, 1][..2] == [2, 1] && [2, 1][..1] == [2];
  }

  /** `insert.badge()` with the declared options and no argument builds
      `{type: "badge", label: "Badge", children: [{text: ""}]}`; an explicit
      empty label is kept, because `??` only replaces a missing one. */
  lemma InsertBadgeDefaults()
    ensures InsertBadge(BadgeKey, DefaultOptions, None).node == Element("badge", Some("Badge"), None, [Text("")])
    ensures InsertBadge(BadgeKey, DefaultOptions, Some(InsertOptions(Some(""), None))).node.caption == Some("")
    ensures InsertBadge(BadgeKey, BadgeOptions(None), Some(InsertOptions(None, Some("red")))).node
         == Element("badge", Some("Badge"), Some("red"), [Text("")])
  {
  }
}
