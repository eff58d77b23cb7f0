/**
 * The values and pure rules behind the drag-and-selection board: items and
 * their ordinals, the seeded columns, `reorder`, the two rules that reject a
 * move in progress, the modifier-click toggle of the selection, the
 * per-item hints the renderer reads, and the board-wide invariant that every
 * item sits in exactly one column.
 */
module Board {
  import opened Sequences

  datatype Option<T> = None | Some(value: T)

  /**
   * The item whose id is `item-<col>-<ordinal>`. The two parts of the id are
   * kept apart, so two items are the same exactly when their ids are, and the
   * ordinal the validity rule parses out of the id is simply `ordinal`.
   */
  datatype Item = Item(col: string, ordinal: nat)

  /** A position as the drag library reports it: a column (droppable) id and an index in it. */
  datatype Location = Location(droppableId: string, index: nat)

  /**
   * The four columns, in the order the board holds and renders them, and the
   * same four as a set. The list is what the board's item count walks over;
   * the set is what a column map's keys are compared with. A set display
   * keeps the key comparisons cheap for the verifier, where a comprehension
   * over the list would not; `ColumnIdsDistinct` states that the two agree.
   */
  const ColumnIds: seq<string> := ["col1", "col2", "col3", "col4"]
  const ColumnSet: set<string> := {"col1", "col2", "col3", "col4"}
  const ItemsPerColumn: nat := 10

  /** Moves from this column straight into `RestrictedTarget` are always rejected. */
  const RestrictedSource: string := "col1"
  const RestrictedTarget: string := "col3"

  /** `getColumnItems(colId, count)`: the items `item-<colId>-0` .. `item-<colId>-<count-1>`. */
  function GetColumnItems(colId: string, count: nat): (items: seq<Item>)
    ensures |items| == count
    ensures forall k :: 0 <= k < count ==> items[k].col == colId && items[k].ordinal == k
    ensures forall x :: x in items ==> x.col == colId && x.ordinal < count
    ensures NoDup(items)
  {
    seq(count, k requires 0 <= k < count => Item(colId, k))
  }

  /** The board as the component first holds it: each column seeded with ten items. */
  function InitialColumns(): (cols: map<string, seq<Item>>)
    ensures cols.Keys == ColumnSet
    ensures forall c :: c in cols ==> |cols[c]| == ItemsPerColumn && NoDup(cols[c])
    ensures forall c, k :: c in cols && 0 <= k < |cols[c]| ==> cols[c][k] == Item(c, k)
  {
    map[
      "col1" := GetColumnItems("col1", ItemsPerColumn),
      "col2" := GetColumnItems("col2", ItemsPerColumn),
      "col3" := GetColumnItems("col3", ItemsPerColumn),
      "col4" := GetColumnItems("col4", ItemsPerColumn)
    ]
  }

  // ---------------------------------------------------------------------------
  // The board and its invariant

  /** All items held in the columns named by `keys`, counted with multiplicity. */
  function ItemsIn(cols: map<string, seq<Item>>, keys: seq<string>): multiset<Item>
    requires forall k :: k in keys ==> k in cols
  {
    if keys == [] then multiset{} else multiset(cols[keys[0]]) + ItemsIn(cols, keys[1..])
  }

  /** Each of the columns named by `keys` contributes its items to `ItemsIn`. */
  lemma {:induction false} ItemsInHolds(cols: map<string, seq<Item>>, keys: seq<string>, k: string)
    requires forall k :: k in keys ==> k in cols
    requires k in keys
    ensures multiset(cols[k]) <= ItemsIn(cols, keys)
  {
    if keys[0] != k {
      ItemsInHolds(cols, keys[1..], k);
    }
  }

  /** All items on a board that has the four columns. */
  function BoardItems(cols: map<string, seq<Item>>): multiset<Item>
    requires cols.Keys == ColumnSet
  {
    ItemsIn(cols, ColumnIds)
  }

  /** The board has exactly the four columns, and no item is on it twice. */
  ghost predicate WellFormedBoard(cols: map<string, seq<Item>>) {
    && cols.Keys == ColumnSet
    && forall x :: BoardItems(cols)[x] <= 1
  }

  lemma ColumnIdsDistinct()
    ensures NoDup(ColumnIds)
    ensures forall k :: k in ColumnIds <==> k in ColumnSet
  {
  }

  /** How often the seeded column `c` holds `x`. */
  lemma ColumnItemsCount(c: string, n: nat, x: Item)
    ensures multiset(GetColumnItems(c, n))[x] == if x.col == c && x.ordinal < n then 1 else 0
  {
    var items := GetColumnItems(c, n);
    NoDupCounts(items);
    if x.col == c && x.ordinal < n {
      assert items[x.ordinal] == x;
    }
  }

  /** The seeded board holds each of its forty items exactly once. */
  lemma InitialBoardWellFormed()
    ensures WellFormedBoard(InitialColumns())
    ensures forall x :: BoardItems(InitialColumns())[x] == if x.col in ColumnIds && x.ordinal < ItemsPerColumn then 1 else 0
  {
    var cols := InitialColumns();
    forall x ensures BoardItems(cols)[x] == if x.col in ColumnIds && x.ordinal < ItemsPerColumn then 1 else 0 {
      InitialCount(cols, x);
    }
  }

  lemma InitialCount(cols: map<string, seq<Item>>, x: Item)
    requires cols == InitialColumns()
    ensures BoardItems(cols)[x] == if x.col in ColumnIds && x.ordinal < ItemsPerColumn then 1 else 0
  {
    BoardItemsOfFour(cols);
    InitialColumnCount(cols, "col1", x);
    InitialColumnCount(cols, "col2", x);
    InitialColumnCount(cols, "col3", x);
    InitialColumnCount(cols, "col4", x);
  }

  lemma InitialColumnCount(cols: map<string, seq<Item>>, c: string, x: Item)
    requires cols == InitialColumns() && c in ColumnSet
    ensures multiset(cols[c])[x] == if x.col == c && x.ordinal < ItemsPerColumn then 1 else 0
  {
    assert cols[c] == GetColumnItems(c, ItemsPerColumn);
    ColumnItemsCount(c, ItemsPerColumn, x);
  }

  /** The items of a four-column board, column by column. */
  lemma BoardItemsOfFour(cols: map<string, seq<Item>>)
    requires cols.Keys == ColumnSet
    ensures BoardItems(cols) == multiset(cols["col1"]) + multiset(cols["col2"]) + multiset(cols["col3"]) + multiset(cols["col4"])
  {
    assert ItemsIn(cols, ["col4"]) == multiset(cols["col4"]) + ItemsIn(cols, []);
    assert ItemsIn(cols, ["col3", "col4"]) == multiset(cols["col3"]) + ItemsIn(cols, ["col4"]);
    assert ItemsIn(cols, ["col2", "col3", "col4"]) == multiset(cols["col2"]) + ItemsIn(cols, ["col3", "col4"]);
    assert ItemsIn(cols, ColumnIds) == multiset(cols["col1"]) + ItemsIn(cols, ["col2", "col3", "col4"]);
  }

  /** Replacing a column not among `keys` does not change what `keys` hold. */
  lemma {:induction false} ItemsInUnaffected(cols: map<string, seq<Item>>, keys: seq<string>, a: string, xs: seq<Item>)
    requires forall k :: k in keys ==> k in cols
    requires a !in keys
    ensures ItemsIn(cols[a := xs], keys) == ItemsIn(cols, keys)
  {
    if keys != [] {
      ItemsInUnaffected(cols, keys[1..], a, xs);
    }
  }

  /** Replacing the one column `a` among `keys` swaps its items for the new ones. */
  lemma {:induction false} ItemsInUpdate(cols: map<string, seq<Item>>, keys: seq<string>, a: string, xs: seq<Item>)
    requires forall k :: k in keys ==> k in cols
    requires a in keys && NoDup(keys)
    ensures ItemsIn(cols[a := xs], keys) + multiset(cols[a]) == ItemsIn(cols, keys) + multiset(xs)
  {
    NoDupTail(keys);
    var k, rest := keys[0], keys[1..];
    var after := cols[a := xs];
    assert ItemsIn(cols, keys) == multiset(cols[k]) + ItemsIn(cols, rest);
    assert ItemsIn(after, keys) == multiset(after[k]) + ItemsIn(after, rest);
    if k == a {
      ItemsInUnaffected(cols, rest, a, xs);
    } else {
      assert after[k] == cols[k];
      ItemsInUpdate(cols, rest, a, xs);
      var m, n := ItemsIn(after, rest), ItemsIn(cols, rest);
      assert m + multiset(cols[a]) == n + multiset(xs);
      calc {
        ItemsIn(after, keys) + multiset(cols[a]);
        multiset(cols[k]) + (m + multiset(cols[a]));
        multiset(cols[k]) + (n + multiset(xs));
        ItemsIn(cols, keys) + multiset(xs);
      }
    }
  }

  /** A column of a well-formed board holds no item twice. */
  lemma ColumnNoDup(cols: map<string, seq<Item>>, c: string)
    requires WellFormedBoard(cols) && c in cols
    ensures NoDup(cols[c])
  {
    ColumnIdsDistinct();
    ItemsInHolds(cols, ColumnIds, c);
    forall x ensures multiset(cols[c])[x] <= 1 {
      assert multiset(cols[c])[x] <= BoardItems(cols)[x];
    }
    NoDupCounts(cols[c]);
  }

  lemma MultisetCancel(a: multiset<Item>, b: multiset<Item>, m: multiset<Item>)
    requires a + m == b + m
    ensures a == b
  {
    forall x ensures a[x] == b[x] {
      assert (a + m)[x] == (b + m)[x];
    }
  }

  /** Replacing one column by a rearrangement of itself keeps the board's items and its invariant. */
  lemma ReplaceColumn(cols: map<string, seq<Item>>, a: string, xs: seq<Item>)
    requires WellFormedBoard(cols) && a in cols
    requires multiset(xs) == multiset(cols[a])
    ensures cols[a := xs].Keys == cols.Keys
    ensures BoardItems(cols[a := xs]) == BoardItems(cols)
    ensures WellFormedBoard(cols[a := xs])
  {
    ColumnIdsDistinct();
    ItemsInUpdate(cols, ColumnIds, a, xs);
    MultisetCancel(BoardItems(cols[a := xs]), BoardItems(cols), multiset(xs));
  }

  /**
   * Replacing two different columns by new contents that together hold the
   * same items keeps the board's items and its invariant.
   */
  lemma ReplaceTwoColumns(cols: map<string, seq<Item>>, a: string, xs: seq<Item>, b: string, ys: seq<Item>)
    requires WellFormedBoard(cols) && a in cols && b in cols && a != b
    requires multiset(xs) + multiset(ys) == multiset(cols[a]) + multiset(cols[b])
    ensures cols[a := xs][b := ys].Keys == cols.Keys
    ensures BoardItems(cols[a := xs][b := ys]) == BoardItems(cols)
    ensures WellFormedBoard(cols[a := xs][b := ys])
  {
    ColumnIdsDistinct();
    var mid := cols[a := xs];
    var after := mid[b := ys];
    ItemsInUpdate(cols, ColumnIds, a, xs);
    ItemsInUpdate(mid, ColumnIds, b, ys);
    assert mid[b] == cols[b];
    var g0, g1, g2 := BoardItems(cols), BoardItems(mid), BoardItems(after);
    forall x ensures g2[x] == g0[x] {
      assert (g1 + multiset(cols[a]))[x] == (g0 + multiset(xs))[x];
      assert (g2 + multiset(cols[b]))[x] == (g1 + multiset(ys))[x];
      assert (multiset(xs) + multiset(ys))[x] == (multiset(cols[a]) + multiset(cols[b]))[x];
    }
  }

  /** Every item on a well-formed board is in exactly one column, and there only once. */
  lemma ExactlyOneColumn(cols: map<string, seq<Item>>, x: Item)
    requires WellFormedBoard(cols) && x in BoardItems(cols)
    ensures exists c :: c in cols && multiset(cols[c])[x] == 1 &&
                        forall d :: d in cols && d != c ==> x !in cols[d]
  {
    ColumnIdsDistinct();
    OccursInOneKey(cols, ColumnIds, x);
  }

  lemma {:induction false} OccursInOneKey(cols: map<string, seq<Item>>, keys: seq<string>, x: Item)
    requires forall k :: k in keys ==> k in cols
    requires NoDup(keys) && ItemsIn(cols, keys)[x] == 1
    ensures exists c :: c in keys && multiset(cols[c])[x] == 1 &&
                        forall d :: d in keys && d != c ==> x !in cols[d]
  {
    NoDupTail(keys);
    var k, rest := keys[0], keys[1..];
    assert ItemsIn(cols, keys) == multiset(cols[k]) + ItemsIn(cols, rest);
    if multiset(cols[k])[x] == 1 {
      forall d | d in keys && d != k ensures x !in cols[d] {
        assert d in rest;
        ItemsInHolds(cols, rest, d);
        assert multiset(cols[d])[x] <= ItemsIn(cols, rest)[x];
      }
    } else {
      OccursInOneKey(cols, rest, x);
      var c :| c in rest && multiset(cols[c])[x] == 1 &&
               forall d :: d in rest && d != c ==> x !in cols[d];
      assert x !in cols[k];
      assert c in keys;
    }
  }

  // ---------------------------------------------------------------------------
  // Same-column reorder

  /**
   * `reorder(list, startIndex, endIndex)`: the item at `startIndex` is
   * spliced out of a copy and spliced back in at `endIndex` (counted after
   * the removal; an index past the end appends, as `splice` does).
   */
  function Reorder(list: seq<Item>, startIndex: nat, endIndex: nat): (result: seq<Item>)
    requires startIndex < |list|
    ensures |result| == |list|
    ensures multiset(result) == multiset(list)
    ensures result[Min(endIndex, |list| - 1)] == list[startIndex]
    ensures RemoveAt(result, Min(endIndex, |list| - 1)) == RemoveAt(list, startIndex)
  {
    var rest := RemoveAt(list, startIndex);
    var result := InsertAt(rest, endIndex, [list[startIndex]]);
    var j := Min(endIndex, |rest|);
    assert result == rest[..j] + [list[startIndex]] + rest[j..];
    assert RemoveAt(result, j) == rest[..j] + rest[j..];
    result
  }

  /** Dragging the item back from where it landed to where it came from restores the column. */
  lemma ReorderRoundTrip(list: seq<Item>, startIndex: nat, endIndex: nat)
    requires startIndex < |list|
    ensures Reorder(Reorder(list, startIndex, endIndex), Min(endIndex, |list| - 1), startIndex) == list
  {
    var moved := Reorder(list, startIndex, endIndex);
    var landed := Min(endIndex, |list| - 1);
    assert RemoveAt(moved, landed) == RemoveAt(list, startIndex) && moved[landed] == list[startIndex];
    ReinsertRemoved(list, startIndex);
  }

  lemma ReinsertRemoved(list: seq<Item>, i: nat)
    requires i < |list|
    ensures InsertAt(RemoveAt(list, i), i, [list[i]]) == list
  {
    var rest := RemoveAt(list, i);
    assert rest[..i] == list[..i] && rest[i..] == list[i + 1..];
    assert list == list[..i] + [list[i]] + list[i + 1..];
  }

  // ---------------------------------------------------------------------------
  // Rejection rules applied while a drag is in progress

  /** The column-pair rule: `col1` straight into `col3` is never allowed. */
  predicate RestrictedPair(sourceColId: string, destColId: string): (restricted: bool)
    ensures restricted ==> sourceColId in ColumnSet && destColId in ColumnSet && sourceColId != destColId
  {
    sourceColId == RestrictedSource && destColId == RestrictedTarget
  }

  /**
   * The invalid-move flag computed on a drag update with a destination: the
   * column-pair rule, or the parity rule (an even-ordinal item over a slot
   * whose occupant also has an even ordinal).
   */
  function MoveIsInvalid(columns: map<string, seq<Item>>, source: Location, destination: Location): (invalid: bool)
    requires source.droppableId in columns && source.index < |columns[source.droppableId]|
    requires destination.droppableId in columns
    ensures RestrictedPair(source.droppableId, destination.droppableId) ==> invalid
    ensures columns[source.droppableId][source.index].ordinal % 2 == 1 ==>
              invalid == RestrictedPair(source.droppableId, destination.droppableId)
    ensures destination.index >= |columns[destination.droppableId]| ==>
              invalid == RestrictedPair(source.droppableId, destination.droppableId)
    ensures destination.index < |columns[destination.droppableId]| &&
            columns[destination.droppableId][destination.index].ordinal % 2 == 1 ==>
              invalid == RestrictedPair(source.droppableId, destination.droppableId)
    ensures (columns[source.droppableId][source.index].ordinal % 2 == 0 &&
             destination.index < |columns[destination.droppableId]| &&
             columns[destination.droppableId][destination.index].ordinal % 2 == 0) ==> invalid
  {
    var destItems := columns[destination.droppableId];
    var movedItem := columns[source.droppableId][source.index];
    RestrictedPair(source.droppableId, destination.droppableId) ||
    (movedItem.ordinal % 2 == 0 && destination.index < |destItems| && destItems[destination.index].ordinal % 2 == 0)
  }

  // ---------------------------------------------------------------------------
  // Selection

  /**
   * `toggleSelection`: an absent id is appended; a present one is cut out
   * (three cases in the source: first, last, or in between).
   */
  function Toggle(selected: seq<Item>, itemId: Item): (newSelected: seq<Item>)
    ensures itemId !in selected ==> newSelected == selected + [itemId]
    ensures itemId in selected && NoDup(selected) ==> newSelected == Without(selected, [itemId])
    ensures NoDup(selected) ==> NoDup(newSelected)
    ensures NoDup(selected) ==> (itemId in newSelected <==> itemId !in selected)
  {
    var selectedIndex := IndexOf(selected, itemId);
    if selectedIndex == -1 then
      AppendAbsent(selected, itemId);
      selected + [itemId]
    else
      CutOut(selected, selectedIndex);
      if selectedIndex == 0 then
        assert selected[..0] + selected[1..] == selected[1..];
        selected[1..]
      else if selectedIndex == |selected| - 1 then
        assert selected[..selectedIndex] + selected[selectedIndex + 1..] == selected[..|selected| - 1];
        selected[..|selected| - 1]
      else if selectedIndex > 0 then
        selected[..selectedIndex] + selected[selectedIndex + 1..]
      else
        []
  }

  lemma AppendAbsent(s: seq<Item>, x: Item)
    requires x !in s
    ensures NoDup(s) ==> NoDup(s + [x])
  {
  }

  /** Cutting the one occurrence of `s[i]` out of a duplicate-free `s` is `Without(s, [s[i]])`. */
  lemma {:induction false} CutOut(s: seq<Item>, i: nat)
    requires i < |s|
    ensures NoDup(s) ==> s[..i] + s[i + 1..] == Without(s, [s[i]])
  {
    if NoDup(s) {
      NoDupTail(s);
      if i == 0 {
        CutOutHead(s);
      } else {
        var t := s[1..];
        CutOut(t, i - 1);
        assert t[i - 1] == s[i] && s[0] != s[i];
        assert s[0] !in [s[i]];
        assert Without(s, [s[i]]) == [s[0]] + Without(t, [s[i]]);
        assert s[..i] == [s[0]] + t[..i - 1];
        assert s[i + 1..] == t[i..];
        assert s[..i] + s[i + 1..] == [s[0]] + (t[..i - 1] + t[i..]);
      }
    }
  }

  lemma CutOutHead(s: seq<Item>)
    requires s != [] && s[0] !in s[1..]
    ensures s[1..] == Without(s, [s[0]])
  {
    assert [] + [s[0]] == [s[0]];
    assert Without(s, [s[0]]) == Without(s[1..], [s[0]]);
    WithoutAbsent(s[1..], [], s[0]);
    WithoutNothing(s[1..]);
  }

  /** Toggling an absent id twice gives the selection back. */
  lemma ToggleTwice(selected: seq<Item>, itemId: Item)
    requires itemId !in selected
    ensures Toggle(Toggle(selected, itemId), itemId) == selected
  {
    var once := selected + [itemId];
    assert once[..|selected|] == selected;
    assert IndexOf(once, itemId) == |selected|;
    assert once[..|once| - 1] == selected;
  }

  /** Drag lock (render hint): while something is selected, only selected items may be dragged. */
  predicate DragLocked(selected: seq<Item>, item: Item): (locked: bool)
    ensures selected == [] ==> !locked
    ensures item in selected ==> !locked
  {
    |selected| > 0 && item !in selected
  }

  /** Invalid highlight (render hint): a selected item while the move is invalid. */
  predicate FlaggedInvalid(isInvalidMove: bool, selected: seq<Item>, item: Item): (flagged: bool)
    ensures flagged ==> isInvalidMove && !DragLocked(selected, item)
    ensures !isInvalidMove ==> !flagged
  {
    isInvalidMove && item in selected
  }

  /**
   * The two hints agree with each other: an item flagged invalid is selected,
   * so never locked; with nothing selected every item may be dragged and none
   * is flagged; a single selected item is the only one that may be dragged.
   */
  lemma RenderHints(isInvalidMove: bool, selected: seq<Item>, item: Item)
    ensures FlaggedInvalid(isInvalidMove, selected, item) ==> !DragLocked(selected, item)
    ensures selected == [] ==> !DragLocked(selected, item) && !FlaggedInvalid(isInvalidMove, selected, item)
    ensures forall id :: DragLocked([id], item) <==> item != id
  {
  }

  // ---------------------------------------------------------------------------
  // Cross-column batch move

  /**
   * The `forEach` over the selection in `onDragEnd`: each selected id is
   * found in what is left of the source column and spliced out, and the
   * removed item is pushed onto the moved list.
   */
  method SpliceOutSelected(sourceItems: seq<Item>, selectedItemIds: seq<Item>)
    returns (remaining: seq<Item>, movedItems: seq<Item>)
    requires NoDup(sourceItems) && NoDup(selectedItemIds)
    requires forall id :: id in selectedItemIds ==> id in sourceItems
    ensures movedItems == selectedItemIds
    ensures remaining == Without(sourceItems, selectedItemIds)
    ensures multiset(remaining) + multiset(movedItems) == multiset(sourceItems)
  {
    remaining, movedItems := sourceItems, [];
    WithoutNothing(sourceItems);
    for i := 0 to |selectedItemIds|
      invariant movedItems == selectedItemIds[..i]
      invariant remaining == Without(sourceItems, selectedItemIds[..i])
      invariant multiset(remaining) + multiset(movedItems) == multiset(sourceItems)
    {
      var id := selectedItemIds[i];
      SpliceStep(sourceItems, selectedItemIds, i);
      var index := IndexOf(remaining, id);
      var removedItem := remaining[index];
      remaining := RemoveAt(remaining, index);
      movedItems := movedItems + [removedItem];
    }
    assert selectedItemIds[..|selectedItemIds|] == selectedItemIds;
  }

  /** One turn of the batch-move loop: the next selected id is found in what is left and spliced out. */
  lemma SpliceStep(sourceItems: seq<Item>, selectedItemIds: seq<Item>, i: nat)
    requires NoDup(sourceItems) && NoDup(selectedItemIds)
    requires forall id :: id in selectedItemIds ==> id in sourceItems
    requires i < |selectedItemIds|
    ensures var remaining := Without(sourceItems, selectedItemIds[..i]);
            var index := IndexOf(remaining, selectedItemIds[i]);
            && index >= 0
            && RemoveAt(remaining, index) == Without(sourceItems, selectedItemIds[..i + 1])
            && selectedItemIds[..i + 1] == selectedItemIds[..i] + [remaining[index]]
  {
    var id := selectedItemIds[i];
    assert id !in selectedItemIds[..i];
    assert selectedItemIds[..i + 1] == selectedItemIds[..i] + [id];
    WithoutSnoc(sourceItems, selectedItemIds[..i], id);
  }

  /**
   * The columns after a committed cross-column drop: the selected items leave
   * the source column, which keeps the rest in order, and enter the
   * destination as one block, in selection order, at `destIndex`.
   */
  function BatchMoved(columns: map<string, seq<Item>>, sourceColId: string, destColId: string,
                      destIndex: nat, selected: seq<Item>): (moved: map<string, seq<Item>>)
    requires sourceColId in columns && destColId in columns
    ensures moved.Keys == columns.Keys
    ensures forall c :: c in columns && c != sourceColId && c != destColId ==> moved[c] == columns[c]
    ensures sourceColId != destColId ==>
              forall x :: x in moved[sourceColId] <==> x in columns[sourceColId] && x !in selected
    ensures |moved[destColId]| == |columns[destColId]| + |selected|
    ensures multiset(moved[destColId]) == multiset(columns[destColId]) + multiset(selected)
    ensures var j := Min(destIndex, |columns[destColId]|);
            moved[destColId][j..j + |selected|] == selected
  {
    columns[sourceColId := Without(columns[sourceColId], selected)]
           [destColId := InsertAt(columns[destColId], destIndex, selected)]
  }

  /** A batch move keeps every item on the board exactly once and touches only its two columns. */
  lemma BatchMovePreservesBoard(columns: map<string, seq<Item>>, sourceColId: string, destColId: string,
                                destIndex: nat, selected: seq<Item>)
    requires WellFormedBoard(columns) && sourceColId in columns && destColId in columns
    requires sourceColId != destColId
    requires NoDup(selected) && forall id :: id in selected ==> id in columns[sourceColId]
    ensures WellFormedBoard(BatchMoved(columns, sourceColId, destColId, destIndex, selected))
    ensures BoardItems(BatchMoved(columns, sourceColId, destColId, destIndex, selected)) == BoardItems(columns)
    ensures forall c :: c in columns && c != sourceColId && c != destColId ==>
              BatchMoved(columns, sourceColId, destColId, destIndex, selected)[c] == columns[c]
    ensures var j := Min(destIndex, |columns[destColId]|);
            BatchMoved(columns, sourceColId, destColId, destIndex, selected)[destColId][j..j + |selected|] == selected
  {
    var left := Without(columns[sourceColId], selected);
    var landed := InsertAt(columns[destColId], destIndex, selected);
    ColumnNoDup(columns, sourceColId);
    WithoutSplits(columns[sourceColId], selected);
    forall x ensures (multiset(left) + multiset(landed))[x] == (multiset(columns[sourceColId]) + multiset(columns[destColId]))[x] {
      assert (multiset(left) + multiset(selected))[x] == multiset(columns[sourceColId])[x];
    }
    ReplaceTwoColumns(columns, sourceColId, left, destColId, landed);
  }
}
