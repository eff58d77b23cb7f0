# Multi-drag board: a Dafny model

The application is a single React component, `App`, that shows four columns
(`col1` … `col4`) of ten items each and lets the user drag items between and
within the columns. A Ctrl/Meta-click toggles an item in the selection, a
plain click makes it the whole selection, and a drop into another column moves
every selected item there as one contiguous block. Two rules reject a drop:
moving from `col1` into `col3`, and dropping an item with an even ordinal onto
a slot whose current occupant also has an even ordinal.

The model has three modules:

- `Sequences`: the JavaScript array built-ins the component relies on,
  written as functions on sequences. `indexOf`/`findIndex` becomes
  `IndexOf`, which returns -1 when the element is absent. `splice(i, 1)`
  becomes `RemoveAt`. `splice(i, 0, ...b)` becomes `InsertAt`, which clamps
  the index to the length as `splice` does. The batch move's net effect is
  the filter `Without`.
- `Board`: the values and pure rules.
  - An item id `item-<col>-<k>` is modelled by `Item(col, ordinal)`, the two
    parts the source reads back out of the id.
  - `GetColumnItems` and `InitialColumns` build the seeded board.
  - `Reorder`, `MoveIsInvalid` and `Toggle` model the move, the rejection
    rules and the selection toggle.
  - `SpliceOutSelected` is the batch move's loop, written as a method with
    loop invariants.
  - `DragLocked` and `FlaggedInvalid` are the two rendering predicates.
  - `WellFormedBoard` is the board invariant: the keys are exactly the four
    columns, and no item occurs twice on the board.
- `App`: the class `BoardState`. Its fields are the component's four pieces
  of state. Its methods are the handlers `onDragStart`, `onDragUpdate`,
  `onDragEnd` and `toggleSelection`, plus the item's click handler. Each
  method proves that it keeps `Valid()`, which is the board invariant plus a
  duplicate-free selection of items that are on the board. `OnDragEnd` also
  proves that the multiset of items on the board never changes, and that
  every exit returns to the rest state: no drag, no invalid flag, empty
  selection.

`Scenarios` instantiates the rules on small concrete inputs. Its method `DragCollapsesForeignSelection` calls `OnDragUpdate` and then `OnDragEnd` on a `BoardState`, and proves the resulting state from their contracts.

## Model

| member | source | states |
|---|---|---|
| Sequences.IndexOf | src/index.js:140 | The result is -1 exactly when the element is absent; otherwise the element is at that position and nowhere earlier. |
| Sequences.RemoveAt | src/index.js:14 | One element is removed; the elements before it keep their places, those after it move down by one, and the multiset loses exactly that element. |
| Sequences.InsertAt | src/index.js:125 | The block appears intact at `min(index, length)`, with the original prefix before it and the original suffix after it; the multiset is the sum. |
| Sequences.Without | src/index.js:118-123 | The reference filter for the batch move: an element is kept exactly when it is in the source and not dropped; a duplicate-free source gives a duplicate-free result, and the result is never longer. |
| Sequences.WithoutSnoc | src/index.js:119-120 | Finding a present id in what is left and splicing it out gives the same result as also dropping that id from the original column. |
| Sequences.WithoutSplits | src/index.js:118-123 | The remaining items and the removed ids together are exactly the original source column, as a multiset. |
| Board.GetColumnItems | src/index.js:5-10 | Returns `count` items of the given column with ordinals 0 … count-1 in order, all distinct. |
| Board.InitialColumns | src/index.js:44-49 | The seeded board has exactly the keys `col1` … `col4`; each column holds ten distinct items, and position `k` of column `c` holds item `k` of `c`. |
| Board.InitialBoardWellFormed | src/index.js:44-49 | The seeded board has the four columns and satisfies the board invariant; an item is on it (once) exactly when its column is one of the four and its ordinal is below 10. |
| Board.ExactlyOneColumn | src/index.js:92-137 | The board invariant that the drop commits keep: on a well-formed board every item that is present sits in exactly one column, exactly once. |
| Board.ReplaceColumn | src/index.js:110-113 | Replacing one column by a permutation of itself keeps the board invariant and the board's items. |
| Board.ReplaceTwoColumns | src/index.js:127-131 | Replacing two columns keeps the board's items whenever the two new columns together hold what the two old ones held. |
| Board.Reorder | src/index.js:12-17 | Keeps the length and the multiset; the moved item lands at `min(endIndex, length-1)`, and the other items keep their relative order. |
| Board.ReorderRoundTrip | src/index.js:12-17 | Reordering back from the landing position to the start position restores the original column. |
| Board.RestrictedPair | src/index.js:73-75 | The column-pair rule names two distinct board columns, so it only rejects cross-column moves and never a reorder within one column. |
| Board.MoveIsInvalid | src/index.js:71-83 | `col1` into `col3` is always rejected. Otherwise a move is rejected exactly when the moved item's ordinal is even, the destination index is inside the destination column, and that slot's occupant has an even ordinal. |
| Board.Toggle | src/index.js:139-157 | An absent item is appended; a present item is cut out with the order of the others kept; the result has no duplicates, and the item is in it exactly when it was not before. |
| Board.ToggleTwice | src/index.js:139-157 | Toggling an unselected item twice restores the selection. |
| Board.DragLocked | src/index.js:171 | With nothing selected no item is locked, and a selected item is never locked: an item is locked only while other items are selected and it is not one of them. |
| Board.FlaggedInvalid | src/index.js:181 | An item is highlighted only while the move is invalid, and a highlighted item is never drag-locked. |
| Board.RenderHints | src/index.js:171-181 | A flagged item is never drag-locked; with an empty selection no item is locked or flagged; with a one-item selection exactly the other items are locked. |
| Board.SpliceOutSelected | src/index.js:118-123 | The moved items are the selected items in selection order; the remaining items are the source column without them, in their old order; together they are the source column. |
| Board.SpliceStep | src/index.js:119-121 | Each iteration finds the id in what is left and splices out exactly that id. |
| Board.BatchMoved | src/index.js:125-131 | The columns after a cross-column drop: the same keys; every other column unchanged; the source keeps exactly its items that were not selected; the destination gains exactly the selected items, as one block in selection order at `min(index, length)`. |
| Board.BatchMovePreservesBoard | src/index.js:114-131 | A cross-column batch move keeps the board invariant and the board's items, changes no other column, and leaves the selected items as one block at `min(index, length)` of the destination. |
| App.BoardState.constructor | src/index.js:44-53 | Starts with the seeded columns, no drag, no invalid flag and an empty selection, satisfying the invariant. |
| App.BoardState.OnDragStart | src/index.js:55-57 | Records the dragged item and changes nothing else. |
| App.BoardState.OnDragUpdate | src/index.js:59-90 | With no destination, clears the invalid flag and keeps the selection. With a destination, sets the flag to the rejection rules' verdict and collapses the selection to the dragged item unless that item is already selected. Keeps the invariant. |
| App.BoardState.OnDragEnd | src/index.js:92-137 | An abort leaves the columns unchanged; a same-column drop is `Reorder` of that column; a cross-column drop is the batch move of the selection. Every exit keeps the board's items and the invariant and returns to the rest state. |
| App.BoardState.ToggleSelection | src/index.js:139-157 | The new selection is the toggle of the old one and still satisfies the invariant. |
| App.BoardState.OnItemClick | src/index.js:184-189 | A modifier-click toggles the item; a plain click makes it the only selected item, after which exactly the other items are drag-locked. |
| Scenarios.ToggleExamples | src/index.js:143-153 | Toggling the middle of three distinct items removes it in place; toggling a fourth appends it. |
| Scenarios.ParityExamples | src/index.js:77-83 | An even item over an even occupant is rejected; an odd item over the same slot is accepted. |
| Scenarios.RestrictedPairExample | src/index.js:73-75 | On the seeded board, `col1` into `col3` is rejected even for an odd item dropped past the end. |
| Scenarios.BatchMoveExample | src/index.js:118-131 | Selecting `i2` then `i1` from a source `[i1, i2]` and dropping them at index 1 of `[j1, j2]` empties the source and gives `[j1, i2, i1, j2]`: the block keeps selection order, not source order. |
| Scenarios.DragCollapsesForeignSelection | src/index.js:59-137 | With two other items selected, dragging an odd item from `col2` to the top of `col4` collapses the selection to it; the drop then moves it alone: it leaves `col2`, heads `col4` above the old contents, and the board is back at rest with its invariant. |

## Left out

- Rendering is not modelled: `getItemStyle`, `getListStyle`, the JSX tree and `ReactDOM.render`. Only the two boolean expressions at lines 171 and 181 are kept, as `DragLocked` and `FlaggedInvalid`.
- The drag-and-drop library (react-beautiful-dnd) is not part of this model. Its events are the handlers' parameters. The handlers' preconditions stand for what the library guarantees: the column ids are real columns, the source index is inside the source column, and the dragged id is an item on the board. The requirement of `ToggleSelection` and `OnItemClick` that the clicked item is on the board holds because the click handler is attached only to rendered items (lines 166 and 184).
- React's state is taken as updated atomically at the end of each handler. Batching of setters and closures over a stale render are not modelled, and neither is the order in which the library fires events.
- The items' `content` string and their `isInvalid` field are left out: nothing in the logic reads either one.
- The `id` string is not modelled as a string. `Item(col, ordinal)` carries the two parts that `split("-")` and `parseInt` read back, so parsing cannot fail.
- The `draggableId &&` truthiness test at line 87 is always true: every item id is a non-empty string, so the model does not carry it.
- The `removedItems` list at lines 116 and 122 is never read and is left out.
- App.BoardState.OnDragEnd: for a cross-column drop it requires every selected item to be in the source column. The source does not check this. For an id that is elsewhere, `findIndex` returns -1 and `splice(-1, 1)` acts on the end of the copied source column. While that copy is not empty, it removes whatever is last in the copy at that moment and moves it to the destination. That is either an unselected item or a selected item whose turn has not come yet; such an item is then not found on its own turn, so one more item is taken from the end. The selected item in the other column stays where it is. Once the copy is empty, `splice(-1, 1)` returns nothing, so `undefined` is inserted into the destination, and rendering then fails at `item.id` (line 168). No real item is duplicated or lost, but the wrong items move. The model does not describe this outcome.
- `webpack.config.js` and the build are not part of this model.
