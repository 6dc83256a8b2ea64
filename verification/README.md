# Badge deletion guard: a Dafny model

The editor in this repository is built on a block-editing engine (Plate,
over Slate). Its badge plugin adds a `badge` block: a void element, with no
editable text of its own, shown as a label. The plugin does two things
that hold logic:

- `insert.badge` builds the node to insert. The label falls back from the
  call's `label` to the plugin's `defaultLabel` to `"Badge"`. The node has
  exactly one empty text child.
- It overrides `deleteBackward` and `deleteForward` so that backspace and
  delete never merge into or remove a badge by accident:
  - a command whose caret is inside a badge is swallowed;
  - a command at the start (backward) or end (forward) of a block whose
    neighbour in that direction is a badge selects that badge and deletes
    nothing;
  - every other command goes to the engine's own delete with the same unit.

The model has six modules:

- `Wrappers`: the optional value standing for JavaScript's `undefined`, a
  missing node and a lookup that throws.
- `Paths`: sibling paths as the overrides compute them, with JavaScript's
  behaviour on an empty path.
- `Document`: the part of the engine's document model that the guard reads.
  It covers nodes, points, ranges, node lookup, the first and last point of
  a node, and the block that encloses a selection.
- `BadgePlugin`: `insert.badge` and the two overrides, written as pure
  decisions over the engine's answers.
- `Editor`: one delete command against a concrete document. It builds the
  engine's answers, feeds them to the guard, and carries out the outcome.
- `Demo`: the editor's initial value (paragraph, badge, paragraph) as
  worked scenarios.

The engine's answers are parameters of the overrides: whether there is a
selection, the enclosing block entry, the boundary test, and node lookup. A
lookup that finds nothing and a lookup that throws are both `None`. The
engine's default delete is an outcome (`DefaultDelete(unit)`), not a
computation.

After the guard selects a badge, a second backspace or delete is swallowed,
because the block around a badge selection is the badge itself
(`Editor.SelectedBadgeSwallowsDelete`).

## Model

| member | source | states |
|---|---|---|
| BadgePlugin.BadgeLabel | src/components/plugins/badge-plugin.tsx:59 | The label is the call's label when one is given (even an empty one). Otherwise it is the configured `defaultLabel`, and "Badge" when that is missing too. |
| BadgePlugin.InsideBadge | src/components/plugins/badge-plugin.tsx:97-103 | The test that absorbs a command: a block entry exists and its node's type is the badge type. |
| BadgePlugin.IsBadgeAt | src/components/plugins/badge-plugin.tsx:117-120 | The sibling test: the lookup found a node and its type is the badge type. A missing or throwing lookup fails it. |
| BadgePlugin.InsertBadge | src/components/plugins/badge-plugin.tsx:53-65 | The node has the plugin's type and exactly one empty text child, and it is always labelled. The label is the call's label when given (even an empty one), else `defaultLabel` when configured, else "Badge". The colour is the call's colour. The node is inserted at the highest level and selected. |
| BadgePlugin.DeleteBackward | src/components/plugins/badge-plugin.tsx:86-134 | With no selection, only the default delete runs. The command is swallowed exactly when the enclosing block is a badge. A selected path is always the badge just before the caret's block, reached from the block's start. That badge is always selected when it is there. The default delete gets the caller's unit. |
| BadgePlugin.DeleteForward | src/components/plugins/badge-plugin.tsx:136-182 | The same for delete: swallowed exactly inside a badge. It selects the path after the block only at the block's end and only when a badge is found there. A missing or throwing lookup falls through to the default delete with the caller's unit. |
| BadgePlugin.Guard | src/components/plugins/badge-plugin.tsx:83-185 | Each command has one outcome: swallow, select one path, or default delete. Away from the boundary and outside a badge, the result is always the default delete. A selected path has the block's depth and parent, and its last index differs by one in the command's direction. Only a badge is ever selected. |
| BadgePlugin.BackwardAtFirstChildIgnoresLookup | src/components/plugins/badge-plugin.tsx:112-133 | When the block is a first child, backward never consults the lookup. Outside a badge it is the default delete. |
| BadgePlugin.GuardLooksOnlyAtNeighbour | src/components/plugins/badge-plugin.tsx:106-181 | The outcome depends on the document only through the node at the one neighbouring path. |
| Paths.HasPrevious | src/components/plugins/badge-plugin.tsx:112 | The backward guard's test that the block has a previous sibling: the path is non-empty and its last index is above 0. On an empty path the JavaScript index is `undefined` and the test is false. |
| Paths.Previous | src/components/plugins/badge-plugin.tsx:112-114 | The decremented copy addresses the previous sibling: same depth, same parent, last index one less. |
| Paths.Next | src/components/plugins/badge-plugin.tsx:162-163 | The incremented copy addresses the next sibling. On an empty path it is the unchanged path, because the assignment to index -1 adds no element. |
| Paths.PreviousNextInverse | src/components/plugins/badge-plugin.tsx:113-114 | The backward and forward sibling computations undo each other. |
| Document.NodeAt | src/components/plugins/badge-plugin.tsx:117 | The node at a path, or nothing when the path leaves the tree or runs below a text leaf. A one-component path picks a top-level node. |
| Editor.Lookup | src/components/plugins/badge-plugin.tsx:166 | The lookup the guard receives is `NodeAt` over the current document. |
| Document.BlockAbove | src/components/plugins/badge-plugin.tsx:95 | The block the guard reads is the deepest element that is a proper ancestor of both ends of the selection. No deeper such element exists. |
| Document.StartOf | src/components/plugins/badge-plugin.tsx:107 | The start of a node is offset 0 of a text leaf below it, reached through first children only. It exists exactly when that descent ends at a text leaf. |
| Document.EndOf | src/components/plugins/badge-plugin.tsx:157 | The end of a node is the text leaf reached by taking the last child of each element below it, at that leaf's full length. It exists exactly when that descent ends at a text leaf. |
| Document.RangeOf | src/components/plugins/badge-plugin.tsx:122 | Selecting a path gives the range from the node's start (anchor) to its end (focus). It is never backward, so its anchor is its start and its focus its end. There is no such range when either edge is missing. |
| Editor.Carry | src/components/plugins/badge-plugin.tsx:116-128 | A select the engine cannot perform is caught by the surrounding try, and the command falls through to the default delete. Otherwise the outcome is carried out as given. |
| Editor.AtSelectionEdge | src/components/plugins/badge-plugin.tsx:107 | The boundary test as written. Backward: the anchor has offset 0 and is the selection's own start. Forward (line 157): the anchor is the selection's own end. |
| Editor.AtBlockEdge | src/components/plugins/badge-plugin.tsx:106 | The boundary test the comments at lines 106 and 156 describe: the anchor is the enclosing block's first point (backward) or last point (forward). |
| Editor.StepAsWritten | src/components/plugins/badge-plugin.tsx:86-182 | With the boundary test as written: no selection means the default delete, and a command is swallowed exactly inside a badge. A badge is selected only when the anchor passes that test, and only when the badge is the enclosing block's neighbouring sibling in the command's direction. The new selection covers that whole badge. The default delete gets the caller's unit. |
| Editor.Step | src/components/plugins/badge-plugin.tsx:86-182 | With the boundary measured against the block: no selection means the default delete, and a command is swallowed exactly inside a badge. A badge is selected only from the block's first (last) point and only when it is the neighbouring sibling in the command's direction. The new selection covers that whole badge. |
| Editor.BlockEdgeSelectsNeighbourBadge | src/components/plugins/badge-plugin.tsx:107-124 | The converse of `Step`'s selection clause. From a block's edge, outside a badge, a badge next to the block in the command's direction is always selected as a whole. |
| Editor.SelectedBadgeSwallowsDelete | src/components/plugins/badge-plugin.tsx:97-104 | Once a badge with one text child is selected, every further backspace or delete is swallowed, so the badge is never removed by these commands. |
| Editor.InsertedBadgeIsProtected | src/components/plugins/badge-plugin.tsx:53-65 | A badge as `insert.badge` builds it can be selected as a whole. Once selected, it swallows deletes. |
| Editor.CollapsedCaretIsAtSelectionEdge | src/components/plugins/badge-plugin.tsx:157 | As written, a collapsed caret always passes the forward test, wherever it is in its block. It passes the backward test (line 107) exactly at offset 0, on whichever leaf it sits. |
| Editor.AsWrittenForwardIgnoresCaretOffset | src/components/plugins/badge-plugin.tsx:157-173 | As written, delete with a collapsed caret anywhere in a block followed by a badge selects the badge. |
| Editor.MidTextCaretNeverSelects | src/components/plugins/badge-plugin.tsx:156-158 | Measured against the block, a caret strictly inside a leaf's text never selects anything in either direction. |
| Editor.LaterLeafNeverSelectsBackward | src/components/plugins/badge-plugin.tsx:106-108 | Measured against the block, backspace from any leaf that is not the block's first never selects anything. |
| Demo.BackspaceBeforeBadge | src/components/plate-editor.tsx:67-96 | In the initial value, backspace at the start of the last paragraph selects the badge (path [1]) and deletes nothing, with either boundary test. |
| Demo.SecondBackspaceKeepsBadge | src/components/plugins/badge-plugin.tsx:97-104 | With that badge selected, a second backspace is swallowed and the badge stays. |
| Demo.DeleteBeforeBadge | src/components/plate-editor.tsx:67-96 | In the initial value, delete at the end of the first paragraph (offset 13) selects the badge. |
| Demo.BackspaceInsideParagraphAsWritten | src/components/plugins/badge-plugin.tsx:107-108 | As written, backspace after "Hel" in the last paragraph fails the start test and goes to the default delete. |
| Demo.BackspaceInsideParagraph | src/components/plugins/badge-plugin.tsx:132-133 | Backspace in the middle of a paragraph goes to the default delete with its unit. |
| Demo.ForwardMidTextSelectsBadgeAsWritten | src/components/plugins/badge-plugin.tsx:157-173 | As written, delete after "Hello" in the first paragraph selects the badge instead of deleting ",". |
| Demo.ForwardMidTextDefers | src/components/plugins/badge-plugin.tsx:156-181 | Measured against the block, the same delete goes to the default delete. |
| Demo.BackwardSecondLeafSelectsBadgeAsWritten | src/components/plugins/badge-plugin.tsx:107-124 | As written, backspace at the start of a paragraph's second leaf selects the badge before the paragraph. |
| Demo.BackwardSecondLeafDefers | src/components/plugins/badge-plugin.tsx:106-133 | Measured against the block, the same backspace goes to the default delete. |
| Demo.InsertBadgeDefaults | src/components/plugins/badge-plugin.tsx:32-61 | With the declared options and no argument, the node is a badge labelled "Badge" with one empty text child. An explicit empty label is kept. |

## Left out

- Drag and drop (`src/components/ui/block-draggable.tsx`): drag sessions, drop lines, previews and block moves all belong to a drag-and-drop library that is not part of this model. What is left there is CSS class choice and preview resets.
- The top bar (`src/components/plugins/top-bar.tsx`): abandoned rendering drafts with no stable behaviour.
- Rendering: `BadgeElement`, `ParagraphElement`, the route file and the `PlateEditor` wiring only draw nodes.
- The engine's default delete, `insertNode` placement and the focus change after insertion are not modelled. They appear as the outcome `DefaultDelete(unit)` and as the `InsertRequest` record.
- The declared node flags, delete/merge rules and the keyboard shortcut (badge-plugin.tsx:33-47, 72-81) are registration data for the engine. The model uses only the plugin key as the badge type.
- Node ids assigned by the engine's normalisation are not modelled. The guard never reads them.
- Document.BlockAbove: does not stop at the first void ancestor, as the engine's search does. The two agree whenever void elements hold only text, which is what `insert.badge` builds.
- Document.NodeAt: the empty path gives `None` rather than the editor object. The editor has no `type`, so the guard treats both the same.
- Editor.Lookup: assumes the engine's `api.node({at: path})` returns the node at `path`, and nothing (or throws) when there is none. No other option of that call is used.
- Path components are unbounded naturals. JavaScript numbers stop being exact above 2^53; this is not modelled.
- Console logging and React state are side effects with nothing to verify.

## Findings

| source | as written | input that shows it | evidently intended | confidence | as-written member | corrected member |
|---|---|---|---|---|---|---|
| src/components/plugins/badge-plugin.tsx:157 | `isEnd(selection.anchor, selection)` asks whether the anchor is the end of the selection itself. A collapsed caret always is. | Initial value, caret after "Hello" in the first paragraph ([0,0] offset 5), press Delete: the badge is selected and "," is not deleted. | The end of the current block, as the comment at line 156 says. | medium; not executed; relies on the engine's `isEnd(point, at)` meaning "point is the end of location at" | Demo.ForwardMidTextSelectsBadgeAsWritten | Editor.MidTextCaretNeverSelects |
| src/components/plugins/badge-plugin.tsx:107 | `isStart(selection.anchor, selection)` asks whether the anchor is the start of the selection itself. | The last paragraph split into the leaves "Hello, " and "world! 2", caret at the start of the second leaf ([2,1] offset 0), press Backspace: the badge is selected and the space is not deleted. | The start of the current block, as the comment at line 106 says. | low; not executed; relies on the engine's `isStart(point, at)` meaning "point has offset 0 and is the start of location at", and needs a paragraph with two text leaves, which only marks or inline nodes create; this editor registers no plugin that makes them | Demo.BackwardSecondLeafSelectsBadgeAsWritten | Editor.LaterLeafNeverSelectsBackward |

`Editor.Step` is the corrected command, with the boundary measured against
the enclosing block. The demo scenarios are stated for it.
`Editor.StepAsWritten` keeps the test as the source writes it.
