/**
 * The drag-and-selection state of the `App` component, taken out of React:
 * its four pieces of state are the fields of `BoardState`, and each event
 * handler is a method that runs to completion and replaces whole values, as
 * the component's state setters do (`{...columns, [id]: items}`).
 */
module App {
  import opened Sequences
  import opened Board

  class BoardState {
    var columns: map<string, seq<Item>>
    var draggingItemId: Option<Item>
    var isInvalidMove: bool
    var selectedItemIds: seq<Item>

    /**
     * The board has its four columns and every item on it is in exactly one
     * of them, once; the selection lists items that are on the board, each once.
     */
    ghost predicate Valid()
      reads this
    {
      && WellFormedBoard(columns)
      && NoDup(selectedItemIds)
      && forall id :: id in selectedItemIds ==> id in BoardItems(columns)
    }

    /** No drag in progress and nothing selected: what every end of a drag leaves. */
    predicate AtRest()
      reads this
    {
      draggingItemId == None && !isInvalidMove && selectedItemIds == []
    }

    /** The component's initial state: the seeded columns, no drag, no selection. */
    constructor ()
      ensures Valid() && AtRest()
      ensures columns == InitialColumns()
      ensures forall x :: x in BoardItems(columns) <==> x.col in ColumnIds && x.ordinal < ItemsPerColumn
    {
      columns := InitialColumns();
      draggingItemId := None;
      isInvalidMove := false;
      selectedItemIds := [];
      InitialBoardWellFormed();
    }

    /** `onDragStart`: remembers which item is being dragged. */
    method OnDragStart(draggableId: Item)
      requires Valid()
      modifies this`draggingItemId
      ensures Valid()
      ensures draggingItemId == Some(draggableId)
    {
      draggingItemId := Some(draggableId);
    }

    /**
     * `onDragUpdate`: with no destination the move is provisionally valid and
     * nothing else changes; otherwise the invalid flag is recomputed by the two
     * rejection rules, and a drag of an unselected item collapses the
     * selection to that item alone.
     */
    method OnDragUpdate(draggableId: Item, source: Location, destination: Option<Location>)
      requires Valid()
      requires destination.Some? ==>
                 source.droppableId in columns && source.index < |columns[source.droppableId]| &&
                 destination.value.droppableId in columns && draggableId in BoardItems(columns)
      modifies this`isInvalidMove, this`selectedItemIds
      ensures Valid()
      ensures destination.None? ==> !isInvalidMove && selectedItemIds == old(selectedItemIds)
      ensures destination.None? ==> forall item :: !FlaggedInvalid(isInvalidMove, selectedItemIds, item)
      ensures destination.Some? ==> isInvalidMove == MoveIsInvalid(columns, source, destination.value)
      ensures destination.Some? ==>
                selectedItemIds == if draggableId in old(selectedItemIds) then old(selectedItemIds) else [draggableId]
      ensures destination.Some? ==> draggableId in selectedItemIds
    {
      if destination.None? {
        isInvalidMove := false;
        return;
      }
      isInvalidMove := MoveIsInvalid(columns, source, destination.value);
      if draggableId !in selectedItemIds {
        selectedItemIds := [draggableId];
      }
    }

    /**
     * `onDragEnd`: with no destination or an invalid move the columns stay
     * as they are; a drop in the same column reorders the one dragged item;
     * a drop in another column moves every selected item there as one block.
     * Every exit clears the selection and the drag session.
     */
    method OnDragEnd(source: Location, destination: Option<Location>)
      requires Valid()
      requires destination.Some? && !isInvalidMove ==>
                 source.droppableId in columns && destination.value.droppableId in columns
      requires destination.Some? && !isInvalidMove && source.droppableId == destination.value.droppableId ==>
                 source.index < |columns[source.droppableId]|
      // The batch move looks every selected id up in the source column; an id
      // that is elsewhere would make `findIndex` return -1, and `splice(-1, 1)`
      // would then move whatever is last in the copy at that moment: an
      // unselected item, or a selected one whose turn has not come yet, which
      // is then not found on its own turn either. Once the copy is empty,
      // `undefined` is inserted into the destination.
      requires destination.Some? && !isInvalidMove && source.droppableId != destination.value.droppableId ==>
                 forall id :: id in selectedItemIds ==> id in columns[source.droppableId]
      modifies this
      ensures Valid() && AtRest()
      ensures BoardItems(columns) == old(BoardItems(columns))
      ensures destination.None? || old(isInvalidMove) ==> columns == old(columns)
      ensures destination.Some? && !old(isInvalidMove) && source.droppableId == destination.value.droppableId ==>
                columns == old(columns)[source.droppableId :=
                             Reorder(old(columns)[source.droppableId], source.index, destination.value.index)]
      ensures destination.Some? && !old(isInvalidMove) && source.droppableId != destination.value.droppableId ==>
                columns == BatchMoved(old(columns), source.droppableId, destination.value.droppableId,
                                      destination.value.index, old(selectedItemIds))
    {
      if destination.None? || isInvalidMove {
        selectedItemIds := [];
        draggingItemId := None;
        isInvalidMove := false;
        return;
      }
      var sourceColId := source.droppableId;
      var destColId := destination.value.droppableId;
      if sourceColId == destColId {
        var reorderedItems := Reorder(columns[sourceColId], source.index, destination.value.index);
        ReplaceColumn(columns, sourceColId, reorderedItems);
        columns := columns[sourceColId := reorderedItems];
      } else {
        ColumnNoDup(columns, sourceColId);
        var sourceItems, movedItems := SpliceOutSelected(columns[sourceColId], selectedItemIds);
        var destItems := InsertAt(columns[destColId], destination.value.index, movedItems);
        BatchMovePreservesBoard(columns, sourceColId, destColId, destination.value.index, selectedItemIds);
        columns := columns[sourceColId := sourceItems][destColId := destItems];
      }
      selectedItemIds := [];
      draggingItemId := None;
      isInvalidMove := false;
    }

    /** `toggleSelection`: a modifier-click adds an unselected item at the end or drops a selected one. */
    method ToggleSelection(itemId: Item)
      requires Valid() && itemId in BoardItems(columns)
      modifies this`selectedItemIds
      ensures Valid()
      ensures selectedItemIds == Toggle(old(selectedItemIds), itemId)
      ensures itemId in selectedItemIds <==> itemId !in old(selectedItemIds)
    {
      selectedItemIds := Toggle(selectedItemIds, itemId);
    }

    /**
     * A click on an item: with Ctrl or Meta held it toggles the item;
     * otherwise the item becomes the whole selection, so it alone can be dragged.
     */
    method OnItemClick(itemId: Item, ctrlOrMeta: bool)
      requires Valid() && itemId in BoardItems(columns)
      modifies this`selectedItemIds
      ensures Valid()
      ensures ctrlOrMeta ==> selectedItemIds == Toggle(old(selectedItemIds), itemId)
      ensures !ctrlOrMeta ==> selectedItemIds == [itemId]
      ensures !ctrlOrMeta ==> forall item :: DragLocked(selectedItemIds, item) <==> item != itemId
    {
      if ctrlOrMeta {
        ToggleSelection(itemId);
      } else {
        selectedItemIds := [itemId];
      }
    }
  }
}
