/**
 * Concrete instances of the board's rules: the selection toggle on a small
 * list, both rejection rules on chosen items, a two-item batch move, and a
 * drag that collapses a foreign selection and then drops across columns.
 */
module Scenarios {
  import opened Sequences
  import opened Board
  import opened App

  /** Modifier-clicks on `[a, b, c]`: `b` is cut out in place, `d` is appended. */
  lemma ToggleExamples(a: Item, b: Item, c: Item, d: Item)
    requires a != b && a != c && a != d && b != c && b != d && c != d
    ensures Toggle([a, b, c], b) == [a, c]
    ensures Toggle([a, b, c], d) == [a, b, c, d]
  {
    assert [a, b, c][1..] == [b, c];
    assert IndexOf([a, b, c], b) == 1;
    assert d !in [a, b, c];
  }

  /** An even item over an even occupant is rejected; an odd one over the same slot is not. */
  lemma ParityExamples()
    ensures MoveIsInvalid(map["col2" := [Item("col2", 2)], "col4" := [Item("col4", 6)]],
                          Location("col2", 0), Location("col4", 0))
    ensures !MoveIsInvalid(map["col2" := [Item("col2", 3)], "col4" := [Item("col4", 6)]],
                           Location("col2", 0), Location("col4", 0))
  {
  }

  /** `col1` into `col3` is rejected even for an odd item dropped past the end. */
  lemma RestrictedPairExample(cols: map<string, seq<Item>>)
    requires cols == InitialColumns()
    ensures MoveIsInvalid(cols, Location("col1", 1), Location("col3", 10))
  {
  }

  /**
   * `i2` then `i1` are selected in a source column `[i1, i2]` and dropped at
   * index 1 of a destination column `[j1, j2]` (for instance `col1` into
   * `col2`): the source is left empty and the block lands in selection order,
   * not source order.
   */
  lemma BatchMoveExample(cols: map<string, seq<Item>>, src: string, dst: string,
                         i1: Item, i2: Item, j1: Item, j2: Item)
    requires src in cols && dst in cols && src != dst && i1 != i2
    requires cols[src] == [i1, i2] && cols[dst] == [j1, j2]
    ensures BatchMoved(cols, src, dst, 1, [i2, i1])[src] == []
    ensures BatchMoved(cols, src, dst, 1, [i2, i1])[dst] == [j1, i2, i1, j2]
  {
    var moved := BatchMoved(cols, src, dst, 1, [i2, i1]);
    assert moved[src] == Without(cols[src], [i2, i1]);
    assert moved[dst] == InsertAt(cols[dst], 1, [i2, i1]);
    SelectionLeavesSource(i1, i2);
    BlockLandsInOrder(j1, j2, i1, i2);
  }

  lemma SelectionLeavesSource(i1: Item, i2: Item)
    requires i1 != i2
    ensures Without([i1, i2], [i2, i1]) == []
  {
    assert Without([i2], [i2, i1]) == [];
  }

  lemma BlockLandsInOrder(j1: Item, j2: Item, i1: Item, i2: Item)
    ensures InsertAt([j1, j2], 1, [i2, i1]) == [j1, i2, i1, j2]
  {
    assert [j1, j2][..1] == [j1] && [j1, j2][1..] == [j2];
    assert [j1] + [i2, i1] + [j2] == [j1, i2, i1, j2];
  }

  /**
   * With `[a, b]` selected, the user drags an unselected odd item `c` out of
   * `col2` over the top of `col4`: the selection collapses to `[c]`, the move
   * is valid, and the drop takes `c` alone out of `col2` and puts it first in
   * `col4`, leaving the board at rest.
   */
  method DragCollapsesForeignSelection(board: BoardState, a: Item, b: Item, c: Item, k: nat)
    requires board.Valid() && board.selectedItemIds == [a, b] && c != a && c != b
    requires "col2" in board.columns && k < |board.columns["col2"]| && board.columns["col2"][k] == c
    requires c.ordinal % 2 == 1
    modifies board
    ensures board.Valid() && board.AtRest()
    ensures c !in board.columns["col2"]
    ensures |board.columns["col4"]| == |old(board.columns["col4"])| + 1
    ensures board.columns["col4"][0] == c
    ensures board.columns["col4"][1..] == old(board.columns["col4"])
  {
    var source, destination := Location("col2", k), Location("col4", 0);
    assert c in board.columns["col2"];
    ItemsInHolds(board.columns, ColumnIds, "col2");
    board.OnDragUpdate(c, source, Some(destination));
    assert board.selectedItemIds == [c] && !board.isInvalidMove;
    board.OnDragEnd(source, Some(destination));
  }
}
