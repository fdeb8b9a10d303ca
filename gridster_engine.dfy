/**
 * The grid controller: the occupancy table, the item registry, and the
 * placement engine that keeps items inside the grid, pushes overlapping
 * items down, floats items up and recomputes the grid height.
 *
 * The table maps a row index to a row, and a row maps a column index to the
 * item whose top-left cell is there; `lengths` keeps the JavaScript `length`
 * of every row array and `rowCount` the length of the table, since the
 * scans of the source run up to those lengths. The ghost set `items` holds
 * every item the controller has ever stored; `View()` gives each of them its
 * current footprint.
 */
module GridsterEngine {
  import opened GridModel
  import opened GridsterItem

  /**
   * The top row of each column among the items to be pushed down: every
   * listed column gets the smallest row listed for it, and no other column
   * gets an entry.
   */
  method ColumnTops(rows: seq<int>, cols: seq<int>) returns (tops: map<int, int>)
    requires |rows| == |cols|
    ensures forall k :: 0 <= k < |cols| ==> cols[k] in tops && tops[cols[k]] <= rows[k]
    ensures forall c :: c in tops ==> exists k :: 0 <= k < |cols| && cols[k] == c && rows[k] == tops[c]
  {
    tops := map[];
    var i := 0;
    while i < |rows|
      invariant 0 <= i <= |rows|
      invariant forall k :: 0 <= k < i ==> cols[k] in tops && tops[cols[k]] <= rows[k]
      invariant forall c :: c in tops ==> exists k :: 0 <= k < i && cols[k] == c && rows[k] == tops[c]
    {
      if cols[i] !in tops || rows[i] < tops[cols[i]] {
        tops := tops[cols[i] := rows[i]];
      }
      i := i + 1;
    }
  }

  /** The rows of a list of items, in order. */
  function Rows(xs: seq<GridItem>): (r: seq<int>)
    reads xs
    ensures |r| == |xs| && forall k :: 0 <= k < |xs| ==> r[k] == xs[k].row
  {
    if xs == [] then [] else [xs[0].row] + Rows(xs[1..])
  }

  /** The columns of a list of items, in order. */
  function Cols(xs: seq<GridItem>): (r: seq<int>)
    reads xs
    ensures |r| == |xs| && forall k :: 0 <= k < |xs| ==> r[k] == xs[k].col
  {
    if xs == [] then [] else [xs[0].col] + Cols(xs[1..])
  }

  /** Each item keyed by its row, for sorting. */
  function KeyedByRow(xs: seq<GridItem>): (r: seq<(int, GridItem)>)
    reads xs
    ensures |r| == |xs| && forall k :: 0 <= k < |xs| ==> r[k] == (xs[k].row, xs[k])
  {
    if xs == [] then [] else [(xs[0].row, xs[0])] + KeyedByRow(xs[1..])
  }

  /**
   * `items.sort((a, b) => a.row - b.row)`: the items in ascending row order,
   * each exactly as often as in the input.
   */
  function SortedByRow(xs: seq<GridItem>): (r: seq<GridItem>)
    reads xs
    ensures |r| == |xs|
    ensures multiset(r) == multiset(xs)
    ensures forall i, j :: 0 <= i < j < |r| ==> r[i].row <= r[j].row
  {
    var ks := KeyedByRow(xs);
    SortByKeySpec(ks);
    SortByKeyValues(ks);
    SortedKeysAreRows(xs);
    Values(SortByKey(ks))
  }

  /**
   * Keying by row loses no item, and sorting the keyed list keeps every key
   * equal to the row of the item it is paired with.
   */
  lemma SortedKeysAreRows(xs: seq<GridItem>)
    ensures Values(KeyedByRow(xs)) == xs
    ensures forall p :: p in SortByKey(KeyedByRow(xs)) ==> p.0 == p.1.row
  {
    var ks := KeyedByRow(xs);
    SortByKeySpec(ks);
    assert Values(ks) == xs;
    forall p | p in SortByKey(ks) ensures p.0 == p.1.row {
      assert p in multiset(SortByKey(ks));
    }
  }

  /**
   * The plan of `moveItemsDown`: the items in ascending row order, the top
   * row of each of their columns, and the row each item is to be handed,
   * with the rows and columns the items had when the plan was made.
   */
  method PlanPush(xs: seq<GridItem>, newRow: int)
    returns (sorted: seq<GridItem>, tops: map<int, int>, ghost rows0: seq<int>, ghost cols0: seq<int>,
             ghost plan: seq<int>)
    ensures multiset(sorted) == multiset(xs)
    ensures |rows0| == |cols0| == |plan| == |sorted|
    ensures forall k :: 0 <= k < |sorted| ==> sorted[k] in xs
    ensures forall k :: 0 <= k < |sorted| ==> rows0[k] == sorted[k].row && cols0[k] == sorted[k].col
    ensures forall i, j :: 0 <= i < j < |sorted| ==> rows0[i] <= rows0[j]
    ensures forall k :: 0 <= k < |cols0| ==> cols0[k] in tops
    ensures plan == PushTargets(rows0, cols0, tops, newRow)
    ensures PushPlan(rows0, cols0, plan, newRow)
  {
    sorted := SortedByRow(xs);
    var rs, cs := Rows(sorted), Cols(sorted);
    rows0, cols0 := rs, cs;
    tops := ColumnTops(rs, cs);
    plan := PushTargets(rows0, cols0, tops, newRow);
    PushKeepsColumnOffsets(rows0, cols0, tops, newRow);
    forall k | 0 <= k < |sorted| ensures sorted[k] in xs {
      assert sorted[k] in multiset(xs);
    }
  }

  class Gridster {
    const columns: int
    const maxRows: int
    const minRows: int
    const floating: bool
    const sparse: bool

    var loaded: bool
    var movingOrResizingItem: GridItem?
    var layoutChangedInProgress: bool
    /** The height delta the pending layout callback will use. */
    var pendingHeightDelta: int
    var gridHeight: int
    var margins: seq<int>

    var grid: Grid<GridItem>
    var lengths: map<int, int>
    var rowCount: int
    var allItems: seq<GridItem>
    ghost var items: set<GridItem>

    /**
     * The table only holds registered items; rows and cells at non-negative
     * indices lie below the JavaScript lengths; the registry is made of
     * registered items, each listed once.
     */
    ghost predicate Valid()
      reads this`grid, this`lengths, this`rowCount, this`allItems, this`items
    {
      && StoredIn(grid, items)
      && WellShaped(grid, lengths, rowCount)
      && (forall y :: y in allItems ==> y in items)
      && NoDup(allItems)
    }

    /** Every registered item's current footprint. */
    ghost function View(): map<GridItem, Rect>
      reads this, items
    {
      map x | x in items :: x.Footprint(columns)
    }

    /** A controller built from the grid options, with an empty table. */
    constructor (columns: int, maxRows: int, minRows: int, floating: bool, sparse: bool)
      ensures Valid() && items == {}
      ensures this.columns == columns && this.maxRows == maxRows && this.minRows == minRows
      ensures this.floating == floating && this.sparse == sparse
      ensures grid == map[] && allItems == [] && rowCount == 0
      ensures !loaded && movingOrResizingItem == null && !layoutChangedInProgress
    {
      this.columns, this.maxRows, this.minRows := columns, maxRows, minRows;
      this.floating, this.sparse := floating, sparse;
      loaded, movingOrResizingItem := false, null;
      layoutChangedInProgress, pendingHeightDelta := false, 0;
      gridHeight := 0;
      margins := [10, 10];
      grid, lengths, rowCount, allItems := map[], map[], 0, [];
      items := {};
    }

    /**
     * The margin normalisation of `setOptions`: anything but two margins
     * becomes [0, 0]; two margins are parsed one by one, NaN becoming 0.
     */
    method SetMargins(given: Option<seq<Option<int>>>)
      modifies this`margins
      ensures margins == NormalMargins(given)
    {
      if given.None? || |given.value| != 2 {
        margins := [0, 0];
        return;
      }
      var m := given.value;
      var parsed: seq<int> := [];
      var x := 0;
      while x < |m|
        invariant 0 <= x <= |m| && |parsed| == x
        invariant forall k :: 0 <= k < x ==> parsed[k] == (if m[k].Some? then m[k].value else 0)
      {
        var v := if m[x].Some? then m[x].value else 0;
        parsed := parsed + [v];
        x := x + 1;
      }
      margins := parsed;
    }

    // -------------------------------------------------------------------
    // Queries
    // -------------------------------------------------------------------

    /** `canItemOccupy(sizeX, sizeY, row, column)`. */
    predicate CanItemOccupy(sizeX: int, sizeY: int, row: int, column: int) {
      CanOccupy(columns, maxRows, sizeX, sizeY, row, column)
    }

    /**
     * `getItem(row, column, excl)`: walk the cells above and left of
     * (row, column), nearest first, and return the first stored item that
     * is not excluded and is large enough to reach (row, column).
     */
    method GetItem(row: int, column: int, excl: seq<GridItem>) returns (r: Option<GridItem>)
      requires Valid()
      ensures r == ItemAt(grid, View(), excl, row, column)
    {
      var i := row;
      var sizeY := 1;
      while i > -1
        invariant i <= row && sizeY == row - i + 1
        invariant ItemAtFrom(grid, View(), excl, row, column, i, column) == ItemAt(grid, View(), excl, row, column)
        decreases i
      {
        var sizeX := 1;
        var j := column;
        while j > -1
          invariant j <= column && sizeX == column - j + 1
          invariant ItemAtFrom(grid, View(), excl, row, column, i, j) == ItemAt(grid, View(), excl, row, column)
          decreases j
        {
          if i in grid && j in grid[i] {
            var x := grid[i][j];
            if x !in excl && x.SizeX(columns) >= sizeX && x.SizeY() >= sizeY {
              assert Hit(grid, View(), excl, row, column, i, j);
              return Some(x);
            }
          }
          sizeX := sizeX + 1;
          j := j - 1;
        }
        i := i - 1;
        sizeY := sizeY + 1;
      }
      return None;
    }

    /**
     * `getItems(row, column, sizeX, sizeY, excl)`: the items in the given
     * rectangle, found cell by cell through `getItem` (dense mode) or by
     * intersecting every registered item's footprint (sparse mode).
     */
    method GetItems(row: int, column: int, sizeX: int, sizeY: int, excl: seq<GridItem>) returns (r: seq<GridItem>)
      requires Valid()
      ensures r == ItemsIn(sparse, grid, allItems, View(), row, column, sizeX, sizeY, excl)
    {
      var sx, sy := sizeX, sizeY;
      if sx == 0 || sy == 0 {
        sx, sy := 1, 1;
      }
      if !sparse {
        r := DenseItems(row, column, sx, sy, excl);
      } else {
        r := SparseItems(row, column, sx, sy, excl);
      }
    }

    /** The dense branch of `getItems`: every cell of the rectangle, row by row, through `getItem`. */
    method DenseItems(row: int, column: int, sx: int, sy: int, excl: seq<GridItem>) returns (r: seq<GridItem>)
      requires Valid()
      ensures r == DenseFrom(grid, View(), excl, row, column, sx, sy, 0, 0, [])
    {
      ghost var whole := DenseFrom(grid, View(), excl, row, column, sx, sy, 0, 0, []);
      r := [];
      var h := 0;
      while h < sy
        invariant DenseFrom(grid, View(), excl, row, column, sx, sy, h, 0, r) == whole
        decreases sy - h
      {
        var w := 0;
        while w < sx
          invariant 0 <= w
          invariant DenseFrom(grid, View(), excl, row, column, sx, sy, h, w, r) == whole
          decreases sx - w
        {
          var it := GetItem(row + h, column + w, excl);
          if it.Some? && it.value !in excl && it.value !in r {
            r := r + [it.value];
          }
          w := w + 1;
        }
        h := h + 1;
      }
    }

    /** The sparse branch of `getItems`: every registered item whose footprint meets the rectangle. */
    method SparseItems(row: int, column: int, sx: int, sy: int, excl: seq<GridItem>) returns (r: seq<GridItem>)
      requires Valid()
      ensures r == SparseFrom(allItems, View(), excl, column, column + sx - 1, row, row + sy - 1, 0, [])
    {
      ghost var whole := SparseFrom(allItems, View(), excl, column, column + sx - 1, row, row + sy - 1, 0, []);
      var bottom := row + sy - 1;
      var right := column + sx - 1;
      r := [];
      var k := 0;
      while k < |allItems|
        invariant 0 <= k <= |allItems|
        invariant SparseFrom(allItems, View(), excl, column, right, row, bottom, k, r) == whole
      {
        var x := allItems[k];
        if x !in excl && x !in r && Intersect(x.Footprint(columns), column, right, row, bottom) {
          r := r + [x];
        }
        k := k + 1;
      }
    }

    /**
     * `getBoundingBox(xs)`: null for no items, the item's own footprint for
     * one, otherwise the box spanned by the smallest top row and left column
     * and the largest bottom and right edges.
     */
    method GetBoundingBox(xs: seq<GridItem>) returns (r: Option<Rect>)
      ensures r == BoundingBox(Footprints(xs))
    {
      ghost var rs := Footprints(xs);
      if |xs| == 0 {
        return None;
      }
      if |xs| == 1 {
        assert rs[0] == xs[0].Footprint(columns);
        return Some(xs[0].Footprint(columns));
      }
      var maxRow, maxCol, minRow, minCol := 0, 0, BoxSentinel, BoxSentinel;
      var i := 0;
      while i < |xs|
        invariant 0 <= i <= |xs|
        invariant LowRow(rs[i..], minRow) == LowRow(rs, BoxSentinel)
        invariant LowCol(rs[i..], minCol) == LowCol(rs, BoxSentinel)
        invariant HighRow(rs[i..], maxRow) == HighRow(rs, 0)
        invariant HighCol(rs[i..], maxCol) == HighCol(rs, 0)
      {
        var x := xs[i];
        assert rs[i] == Rect(x.row, x.col, x.SizeX(columns), x.SizeY());
        FoldsStep(rs, i, minRow, minCol, maxRow, maxCol);
        minRow := Min(x.row, minRow);
        minCol := Min(x.col, minCol);
        maxRow := Max(x.row + x.SizeY(), maxRow);
        maxCol := Max(x.col + x.SizeX(columns), maxCol);
        i := i + 1;
      }
      BoxFromFolds(rs, minRow, minCol, maxRow, maxCol);
      return Some(Rect(minRow, minCol, maxCol - minCol, maxRow - minRow));
    }

    /** The footprints of a list of items, in order. */
    function Footprints(xs: seq<GridItem>): (r: seq<Rect>)
      reads xs
      ensures |r| == |xs| && forall k :: 0 <= k < |xs| ==> r[k] == xs[k].Footprint(columns)
    {
      if xs == [] then [] else [xs[0].Footprint(columns)] + Footprints(xs[1..])
    }

    // -------------------------------------------------------------------
    // The deferred layout pass
    // -------------------------------------------------------------------

    /**
     * `layoutChanged(heightDelta)`: schedule one layout pass unless one is
     * already pending; the pending pass keeps the delta it was scheduled
     * with.
     */
    method LayoutChanged(delta: int)
      modifies this`layoutChangedInProgress, this`pendingHeightDelta
      ensures layoutChangedInProgress
      ensures pendingHeightDelta == if old(layoutChangedInProgress) then old(pendingHeightDelta) else delta
    {
      if layoutChangedInProgress {
        return;
      }
      layoutChangedInProgress := true;
      pendingHeightDelta := delta;
    }

    /**
     * The delta a layout pass gets when it is scheduled from this state: the
     * pending pass keeps its own; otherwise it is the height of the item being
     * dragged or resized, or 0 when there is none.
     */
    ghost function ScheduledDelta(): int
      reads this, movingOrResizingItem
    {
      if layoutChangedInProgress then pendingHeightDelta
      else if movingOrResizingItem != null then movingOrResizingItem.SizeY()
      else 0
    }

    /**
     * The body of the timer `layoutChanged` schedules: float the items up
     * once the grid is loaded, recompute the height with the scheduled
     * delta, and clear the pending flag.
     */
    method RunLayoutCallback(fuel: nat)
      requires Valid() && layoutChangedInProgress
      modifies this`gridHeight, this`grid, this`lengths, this`rowCount, this`allItems, this`items,
               this`layoutChangedInProgress, this`pendingHeightDelta,
               items`row, items`col, items`placed, items`oldRow, items`oldColumn, items`isRendered
      ensures Valid() && items == old(items)
      ensures loaded == old(loaded) && movingOrResizingItem == old(movingOrResizingItem)
      ensures !layoutChangedInProgress
      ensures IsMaxHeight(gridHeight, old(pendingHeightDelta), null)
      // the float-up runs only on a loaded grid with floating on
      ensures !old(loaded) || !floating ==> unchanged(items) && grid == old(grid) && allItems == old(allItems)
      ensures old(loaded && forall y :: y in items ==> Fits(y)) ==>
        forall y :: y in items ==> Fits(y) && y.row <= old(y.row) && y.col == old(y.col)
    {
      var delta := pendingHeightDelta;
      if loaded {
        FloatItemsUp(fuel);
      }
      FinishLayoutPass(delta);
    }

    /** The close of the layout pass: `updateHeight(heightDelta)`, then the pending flag is cleared. */
    method FinishLayoutPass(delta: int)
      requires Valid()
      modifies this`gridHeight, this`layoutChangedInProgress
      ensures Valid()
      ensures !layoutChangedInProgress
      ensures IsMaxHeight(gridHeight, delta, null)
    {
      UpdateHeight(delta, null);
      layoutChangedInProgress := false;
    }

    // -------------------------------------------------------------------
    // Grid height (updateHeight)
    // -------------------------------------------------------------------

    /**
     * What the item stored at row i contributes to the height: its bottom
     * edge plus the delta; with a negative delta only the given item's
     * bottom is lowered, and without an item the delta is added negated.
     */
    function HeightTerm(i: int, x: GridItem, delta: int, item: GridItem?): int
      reads x
    {
      if delta < 0 then
        if item != null then (if x == item then i + delta + x.SizeY() else i + x.SizeY())
        else i + (-delta) + x.SizeY()
      else i + delta + x.SizeY()
    }

    /** h is `minRows` or the largest term of an item stored at a non-negative row and column, whichever is larger. */
    ghost predicate IsMaxHeight(h: int, delta: int, item: GridItem?)
      requires Valid()
      reads this, items
    {
      && h >= minRows
      && (forall a, b :: 0 <= a && 0 <= b && At(grid, a, b).Some? ==> h >= HeightTerm(a, At(grid, a, b).value, delta, item))
      && (h == minRows || exists a, b :: 0 <= a && 0 <= b && At(grid, a, b).Some? && h == HeightTerm(a, At(grid, a, b).value, delta, item))
    }

    /** The maximum `updateHeight` computes, scanning rows bottom-up and each row left to right. */
    method MeasureHeight(delta: int, item: GridItem?) returns (h: int)
      requires Valid()
      ensures IsMaxHeight(h, delta, item)
    {
      h := minRows;
      var i := rowCount;
      while i >= 0
        invariant -1 <= i <= rowCount
        invariant h >= minRows
        invariant forall a, b :: i < a && 0 <= b && At(grid, a, b).Some? ==> h >= HeightTerm(a, At(grid, a, b).value, delta, item)
        invariant h == minRows || exists a, b :: i < a && 0 <= b && At(grid, a, b).Some? && h == HeightTerm(a, At(grid, a, b).value, delta, item)
        decreases i
      {
        if i in grid {
          var len := lengths[i];
          var j := 0;
          while j < len
            invariant 0 <= j <= len
            invariant h >= minRows
            invariant forall a, b :: (i < a || (i == a && b < j)) && 0 <= b && At(grid, a, b).Some? ==> h >= HeightTerm(a, At(grid, a, b).value, delta, item)
            invariant h == minRows || exists a, b :: i <= a && 0 <= b && At(grid, a, b).Some? && h == HeightTerm(a, At(grid, a, b).value, delta, item)
          {
            if j in grid[i] {
              var v := HeightTerm(i, grid[i][j], delta, item);
              if h < v {
                assert At(grid, i, j) == Some(grid[i][j]);
              }
              h := Max(h, v);
            }
            j := j + 1;
          }
        }
        i := i - 1;
      }
    }

    /**
     * `updateHeight(heightDelta, item)`: the grid height becomes the
     * measured maximum; the closing comparison with `maxRows` yields that
     * maximum in both of its branches.
     */
    method UpdateHeight(delta: int, item: GridItem?)
      requires Valid()
      modifies this`gridHeight
      ensures IsMaxHeight(gridHeight, delta, item)
    {
      var h := MeasureHeight(delta, item);
      HeightClampIsIdentity(maxRows, h);
      gridHeight := if maxRows - h > 0 then Min(maxRows, h) else Max(maxRows, h);
    }

    // -------------------------------------------------------------------
    // Placement: putItem and the overlap resolution it triggers
    // -------------------------------------------------------------------

    /** The position `putItem` commits to: the request, clamped into the grid when the item does not fit there. */
    function Target(item: GridItem, row: int, column: int): (int, int)
      reads item
    {
      Clamp(columns, maxRows, item.SizeX(columns), item.SizeY(), row, column)
    }

    /** The item was last committed to (tr, tc) and the table still holds it there. */
    predicate Settled(item: GridItem, tr: int, tc: int)
      reads this, item
    {
      item.oldRow == Some(tr) && item.oldColumn == tc && At(grid, tr, tc) == Some(item)
    }

    /** The item lies inside the grid at its current position and with its current sizes. */
    ghost predicate Fits(y: GridItem)
      reads y
    {
      CanItemOccupy(y.SizeX(columns), y.SizeY(), y.row, y.col)
    }

    /**
     * (tr, tc) is free for the item: it fits there with the width it will
     * have there, and nothing outside `ignore` and the item itself is in
     * the way.
     */
    ghost predicate FreeTarget(item: GridItem, tr: int, tc: int, ignore: seq<GridItem>)
      reads this, items, item
    {
      && item !in ignore
      && CanItemOccupy(item.SizeXAt(tc, columns), item.SizeY(), tr, tc)
      && ItemsIn(sparse, grid, allItems, View(), tr, tc, item.SizeXAt(tc, columns), item.SizeY(), ignore + [item]) == []
    }

    /** The items `moveOverlappingItems(item, ignore)` finds in the item's way. */
    ghost function Overlap(item: GridItem, ignore: seq<GridItem>): seq<GridItem>
      reads this, items, item
    {
      ItemsIn(sparse, grid, allItems, View(), item.row, item.col, item.SizeX(columns), item.SizeY(), IgnoreWith(ignore, item))
    }

    /**
     * `putItem(item, row, column, ignore, isDrop)` with a position given:
     * clamp the position into the grid; when the item is already committed
     * there and the table holds it there, only its position fields are set,
     * otherwise it is committed anew.
     *
     * `fuel` bounds the depth of the mutual recursion between placement and
     * overlap resolution; at zero, the overlap resolution and the float-up
     * are skipped.
     */
    method PutItemAt(item: GridItem, row: int, column: int, ignore: seq<GridItem>, isDrop: bool, fuel: nat)
      requires Valid()
      modifies this`grid, this`lengths, this`rowCount, this`allItems, this`items,
               this`layoutChangedInProgress, this`pendingHeightDelta,
               items`row, items`col, items`placed, items`oldRow, items`oldColumn, items`isRendered, item`row, item`col, item`placed, item`oldRow, item`oldColumn, item`isRendered
      ensures Valid()
      ensures items == old(items) + {item}
      ensures loaded == old(loaded) && movingOrResizingItem == old(movingOrResizingItem)
      ensures forall y :: y in old(allItems) ==> y in allItems
      ensures old(layoutChangedInProgress) ==> layoutChangedInProgress
      ensures pendingHeightDelta == if layoutChangedInProgress then old(ScheduledDelta()) else old(pendingHeightDelta)
      ensures var t := old(Target(item, row, column));
        old(Settled(item, t.0, t.1)) ==>
          && unchanged(this)
          && (forall y :: y in old(items) && y != item ==> unchanged(y))
          && item.row == t.0 && item.col == t.1 && item.placed
          && item.oldRow == old(item.oldRow) && item.oldColumn == old(item.oldColumn)
          && item.isRendered == old(item.isRendered)
      ensures var t := old(Target(item, row, column));
        !old(Settled(item, t.0, t.1)) ==> layoutChangedInProgress && (sparse ==> item in allItems)
      ensures var t := old(Target(item, row, column));
        old(movingOrResizingItem) != item ==> At(grid, t.0, t.1) == Some(item)
      ensures var t := old(Target(item, row, column));
        old(FreeTarget(item, t.0, t.1, ignore)) ==>
          && item.col == t.1 && 0 <= item.row <= t.0
          && (forall y :: y in old(items) && y != item ==> unchanged(y))
          && (old(movingOrResizingItem) != item ==>
                item.row == t.0 && item.oldRow == Some(t.0) && item.oldColumn == t.1)
      decreases fuel, 3
    {
      var t := Target(item, row, column);
      if item.oldRow.Some? && Settled(item, t.0, t.1) {
        item.row, item.col, item.placed := t.0, t.1, true;
        return;
      }
      CommitItem(item, t.0, t.1, ignore, isDrop, fuel);
    }

    /**
     * The rest of `putItem` once the item is not settled at (tr, tc): take
     * it out of its old cell, commit the new position, push the items in
     * its way, store it in its origin cell, register it, float it up while
     * it is being dragged or resized, and schedule a layout pass.
     */
    method CommitItem(item: GridItem, tr: int, tc: int, ignore: seq<GridItem>, isDrop: bool, fuel: nat)
      requires Valid()
      modifies this`grid, this`lengths, this`rowCount, this`allItems, this`items,
               this`layoutChangedInProgress, this`pendingHeightDelta,
               items`row, items`col, items`placed, items`oldRow, items`oldColumn, items`isRendered, item`row, item`col, item`placed, item`oldRow, item`oldColumn, item`isRendered
      ensures Valid()
      ensures items == old(items) + {item}
      ensures loaded == old(loaded) && movingOrResizingItem == old(movingOrResizingItem)
      ensures forall y :: y in old(allItems) ==> y in allItems
      ensures pendingHeightDelta == old(ScheduledDelta())
      ensures layoutChangedInProgress && (sparse ==> item in allItems)
      ensures old(movingOrResizingItem) != item ==> At(grid, tr, tc) == Some(item)
      ensures old(FreeTarget(item, tr, tc, ignore)) ==>
        && item.col == tc && 0 <= item.row <= tr
        && (forall y :: y in old(items) && y != item ==> unchanged(y))
        && (old(movingOrResizingItem) != item ==> item.row == tr && item.oldRow == Some(tr) && item.oldColumn == tc)
      decreases fuel, 2
    {
      ghost var free := FreeTarget(item, tr, tc, ignore);
      ghost var g0, v0, w, h := grid, View(), item.SizeXAt(tc, columns), item.SizeY();
      ghost var cleared, a, b := ClearOldCell(item);
      SetPosition(item, tr, tc);
      if free {
        FreeStaysFree(sparse, g0, grid, allItems, v0, View(), item, tr, tc, w, h, ignore, cleared, a, b);
      }
      ResolveAndStore(item, tr, tc, ignore, isDrop, fuel);
    }

    /**
     * The middle of `putItem`, once the item's position is committed:
     * resolve what overlaps it, then store it. When nothing was in its way
     * and it fits where it is, it stays there, or (while dragged) only
     * floats up.
     */
    method ResolveAndStore(item: GridItem, tr: int, tc: int, ignore: seq<GridItem>, isDrop: bool, fuel: nat)
      requires Valid() && item in items
      modifies this`grid, this`lengths, this`rowCount, this`allItems, this`items,
               this`layoutChangedInProgress, this`pendingHeightDelta,
               items`row, items`col, items`placed, items`oldRow, items`oldColumn, items`isRendered
      ensures Valid() && items == old(items)
      ensures loaded == old(loaded) && movingOrResizingItem == old(movingOrResizingItem)
      ensures forall y :: y in old(allItems) ==> y in allItems
      ensures pendingHeightDelta == old(ScheduledDelta())
      ensures layoutChangedInProgress && (sparse ==> item in allItems)
      ensures old(movingOrResizingItem) != item ==> At(grid, tr, tc) == Some(item)
      ensures old(Overlap(item, ignore) == [] && item.row == tr && item.col == tc
                  && CanItemOccupy(item.SizeX(columns), item.SizeY(), tr, tc)) ==>
        && item.col == tc && 0 <= item.row <= tr
        && (forall y :: y in old(items) && y != item ==> unchanged(y))
        && (old(movingOrResizingItem) != item ==> unchanged(item))
      decreases fuel, 1
    {
      if fuel > 0 {
        ghost var _ := MoveOverlappingItems(item, ignore, isDrop, fuel - 1);
      }
      StoreAndFloat(item, tr, tc, fuel);
    }

    /**
     * The end of `putItem`: store the item in its origin cell, register it,
     * float it up while it is being dragged or resized, and schedule a
     * layout pass with the dragged item's height.
     */
    method StoreAndFloat(item: GridItem, tr: int, tc: int, fuel: nat)
      requires Valid() && item in items
      modifies this`grid, this`lengths, this`rowCount, this`allItems, this`items,
               this`layoutChangedInProgress, this`pendingHeightDelta,
               items`row, items`col, items`placed, items`oldRow, items`oldColumn, items`isRendered
      ensures Valid() && items == old(items)
      ensures loaded == old(loaded) && movingOrResizingItem == old(movingOrResizingItem)
      ensures forall y :: y in old(allItems) ==> y in allItems
      ensures pendingHeightDelta == old(ScheduledDelta())
      ensures layoutChangedInProgress && (sparse ==> item in allItems)
      ensures old(movingOrResizingItem) != item ==> At(grid, tr, tc) == Some(item) && unchanged(items)
      ensures old(item.row == tr && item.col == tc && CanItemOccupy(item.SizeX(columns), item.SizeY(), tr, tc)) ==>
        && item.col == tc && 0 <= item.row <= tr
        && (forall y :: y in old(items) && y != item ==> unchanged(y))
      decreases fuel, 0
    {
      StoreAt(item, tr, tc);
      if fuel > 0 {
        FloatIfDragged(item, fuel - 1);
      }
      var delta := if movingOrResizingItem != null then movingOrResizingItem.SizeY() else 0;
      LayoutChanged(delta);
    }

    /** `if (this.isMovingOrResizing(item)) this.floatItemUp(item)`. */
    method FloatIfDragged(item: GridItem, fuel: nat)
      requires Valid() && item in items
      modifies this`grid, this`lengths, this`rowCount, this`allItems, this`items,
               this`layoutChangedInProgress, this`pendingHeightDelta,
               items`row, items`col, items`placed, items`oldRow, items`oldColumn, items`isRendered
      ensures Valid() && items == old(items)
      ensures loaded == old(loaded) && movingOrResizingItem == old(movingOrResizingItem)
      ensures forall y :: y in old(allItems) ==> y in allItems
      ensures old(layoutChangedInProgress) ==> layoutChangedInProgress
      ensures pendingHeightDelta == if layoutChangedInProgress then old(ScheduledDelta()) else old(pendingHeightDelta)
      ensures old(movingOrResizingItem) != item ==> unchanged(this) && unchanged(items)
      ensures old(Fits(item)) ==>
        && Fits(item) && item.row <= old(item.row) && item.col == old(item.col)
        && (forall y :: y in old(items) && y != item ==> unchanged(y))
      decreases fuel, 6
    {
      if movingOrResizingItem == item {
        FloatItemUp(item, fuel);
      }
    }

    /** `delete grid[item.oldRow][item.oldColumn]` when that cell still holds the item. */
    method ClearOldCell(item: GridItem) returns (ghost cleared: bool, ghost a: int, ghost b: int)
      requires Valid()
      modifies this`grid
      ensures Valid()
      ensures grid == (if cleared then ClearCell(old(grid), a, b) else old(grid))
      ensures cleared <==> item.oldRow.Some? && At(old(grid), item.oldRow.value, item.oldColumn) == Some(item)
      ensures cleared ==> a == item.oldRow.value && b == item.oldColumn && At(old(grid), a, b) == Some(item)
    {
      cleared, a, b := false, 0, 0;
      if item.oldRow.Some? && At(grid, item.oldRow.value, item.oldColumn) == Some(item) {
        cleared, a, b := true, item.oldRow.value, item.oldColumn;
        grid := ClearCell(grid, item.oldRow.value, item.oldColumn);
      }
    }

    /**
     * `item.oldRow = item.row = tr; item.oldColumn = item.col = tc`: the
     * new position becomes both the item's current and its committed one;
     * no other item's footprint changes.
     */
    method SetPosition(item: GridItem, tr: int, tc: int)
      requires Valid()
      modifies this`items, item`row, item`col, item`placed, item`oldRow, item`oldColumn
      ensures Valid()
      ensures items == old(items) + {item}
      ensures item.row == tr && item.col == tc && item.placed
      ensures item.oldRow == Some(tr) && item.oldColumn == tc
      ensures item.sizeX == old(item.sizeX) && item.sizeY == old(item.sizeY)
      ensures item.contentSizeX == old(item.contentSizeX) && item.contentSizeY == old(item.contentSizeY)
      ensures SameFootprintsExcept(old(View()), View(), item)
    {
      items := items + {item};
      item.oldRow, item.row := Some(tr), tr;
      item.oldColumn, item.col := tc, tc;
      item.placed := true;
      forall y | y in old(items) && y != item
        ensures y in View() && View()[y] == old(View())[y]
      {
        assert old(y.Footprint(columns)) == y.Footprint(columns);
      }
    }

    /**
     * `grid[tr][tc] = item`, creating the row when it is missing, followed
     * by the registration of the item in sparse mode. The JavaScript
     * lengths grow as array writes make them grow.
     */
    method StoreAt(item: GridItem, tr: int, tc: int)
      requires Valid() && item in items
      modifies this`grid, this`lengths, this`rowCount, this`allItems
      ensures Valid()
      ensures At(grid, tr, tc) == Some(item)
      ensures forall i, j :: (i, j) != (tr, tc) ==> At(grid, i, j) == old(At(grid, i, j))
      ensures allItems == if sparse && item !in old(allItems) then old(allItems) + [item] else old(allItems)
    {
      var stored := StoreCell(grid, lengths, rowCount, tr, tc, item);
      grid, lengths, rowCount := stored.0, stored.1, stored.2;
      if sparse && item !in allItems {
        allItems := allItems + [item];
      }
    }

    /**
     * The overlapping item `moveOverlappingItems` resolves first instead of
     * pushing: once loaded, for an item neither dragged nor dropped, the
     * lowest of the items in its way that start above it, if any.
     */
    ghost function ResolvedFirst(item: GridItem, ignore: seq<GridItem>, isDrop: bool): (r: Option<GridItem>)
      reads this, items, item
      ensures r.Some? ==> r.value in Overlap(item, ignore) && r.value.row < item.row
      ensures r.Some? ==> forall y :: y in Overlap(item, ignore) && y.row < item.row ==> y.row <= r.value.row
      ensures r.None? && loaded && movingOrResizingItem != item && !isDrop ==>
        forall y :: y in Overlap(item, ignore) ==> y.row >= item.row
    {
      var o := Overlap(item, ignore);
      ItemsInWellFormed(sparse, grid, allItems, View(), item.row, item.col, item.SizeX(columns), item.SizeY(), IgnoreWith(ignore, item));
      assert forall y :: y in o ==> y in View() && y in items;
      if loaded && movingOrResizingItem != item && !isDrop then
        var k := TopBelow(Rows(o), item.row);
        if k.Some? then Some(o[k.value]) else None
      else None
    }

    /**
     * `moveOverlappingItems(item, ignore, isDrop)`: find what is in the
     * item's way (excluding the item and `ignore`). Once the grid is loaded,
     * for an item that is not being dragged and not dropped, an overlapping
     * item that starts above it is resolved first instead (the lowest such,
     * with the item no longer ignored); otherwise everything in the way is
     * pushed below the item.
     */
    method MoveOverlappingItems(item: GridItem, ignore: seq<GridItem>, isDrop: bool, fuel: nat)
      returns (ghost resolved: Option<GridItem>)
      requires Valid() && item in items
      modifies this`grid, this`lengths, this`rowCount, this`allItems, this`items,
               this`layoutChangedInProgress, this`pendingHeightDelta,
               items`row, items`col, items`placed, items`oldRow, items`oldColumn, items`isRendered
      ensures Valid() && items == old(items)
      ensures loaded == old(loaded) && movingOrResizingItem == old(movingOrResizingItem)
      ensures forall y :: y in old(allItems) ==> y in allItems
      ensures old(layoutChangedInProgress) ==> layoutChangedInProgress
      ensures pendingHeightDelta == if layoutChangedInProgress then old(ScheduledDelta()) else old(pendingHeightDelta)
      ensures old(Overlap(item, ignore)) == [] ==> unchanged(this) && unchanged(items)
      ensures resolved == old(ResolvedFirst(item, ignore, isDrop))
      ensures resolved.Some? ==> item.isRendered
      decreases fuel, 8
    {
      var excl := IgnoreWith(ignore, item);
      var overlapping, top := TopOverlapping(item, ignore, isDrop);
      resolved := top;
      if top.Some? {
        assert top.value in overlapping;
        ResolveAbove(item, top.value, ignore, fuel);
        return;
      }
      ghost var _, _, _, _, _, _ := MoveItemsDown(overlapping, item.row + item.SizeY(), excl, fuel);
    }

    /**
     * The branch of `moveOverlappingItems` that found an overlapping item
     * above `item`: resolve that item's overlaps first, with `item` taken
     * out of the ignore list, then mark `item` rendered.
     */
    method ResolveAbove(item: GridItem, top: GridItem, ignore: seq<GridItem>, fuel: nat)
      requires Valid() && item in items && top in items
      modifies this`grid, this`lengths, this`rowCount, this`allItems, this`items,
               this`layoutChangedInProgress, this`pendingHeightDelta,
               items`row, items`col, items`placed, items`oldRow, items`oldColumn, items`isRendered
      ensures Valid() && items == old(items)
      ensures loaded == old(loaded) && movingOrResizingItem == old(movingOrResizingItem)
      ensures forall y :: y in old(allItems) ==> y in allItems
      ensures old(layoutChangedInProgress) ==> layoutChangedInProgress
      ensures pendingHeightDelta == if layoutChangedInProgress then old(ScheduledDelta()) else old(pendingHeightDelta)
      ensures item.isRendered
      decreases fuel, 7
    {
      if fuel > 0 {
        ghost var _ := MoveOverlappingItems(top, RemoveFirst(ignore, item), false, fuel - 1);
      }
      item.isRendered := true;
    }

    /**
     * The query of `moveOverlappingItems`: the items under the footprint of
     * `item`, and, when the grid is loaded, `item` is not being dragged and
     * this is no drop, the lowest of them that starts above `item`.
     */
    method TopOverlapping(item: GridItem, ignore: seq<GridItem>, isDrop: bool)
      returns (overlapping: seq<GridItem>, top: Option<GridItem>)
      requires Valid() && item in items
      ensures overlapping == Overlap(item, ignore)
      ensures forall y :: y in overlapping ==> y in items
      ensures top == ResolvedFirst(item, ignore, isDrop)
    {
      var excl := IgnoreWith(ignore, item);
      overlapping := GetItems(item.row, item.col, item.SizeX(columns), item.SizeY(), excl);
      ItemsInWellFormed(sparse, grid, allItems, View(), item.row, item.col, item.SizeX(columns), item.SizeY(), excl);
      top := None;
      if loaded && movingOrResizingItem != item && !isDrop {
        var k := TopBelow(Rows(overlapping), item.row);
        if k.Some? {
          top := Some(overlapping[k.value]);
        }
      }
    }

    /** Each item still at its starting place on its turn was handed its planned row. */
    ghost predicate HandedAsPlanned(handed: seq<int>, undisturbed: seq<bool>, plan: seq<int>) {
      forall k :: 0 <= k < |handed| && k < |undisturbed| && k < |plan| && undisturbed[k] ==> handed[k] == plan[k]
    }

    /** One more turn keeps `HandedAsPlanned` when its own item is handed its plan. */
    lemma HandedAsPlannedSnoc(handed: seq<int>, undisturbed: seq<bool>, plan: seq<int>, h: int, still: bool)
      requires HandedAsPlanned(handed, undisturbed, plan)
      requires |handed| == |undisturbed| < |plan| && (still ==> h == plan[|handed|])
      ensures HandedAsPlanned(handed + [h], undisturbed + [still], plan)
    {
    }

    /**
     * `moveItemsDown(xs, newRow, ignore)`: in ascending row order, move each
     * item down by the distance that brings the topmost listed item of its
     * column to `newRow`, ignoring the items already moved. An item whose
     * column has no entry (its column changed meanwhile) gets a NaN target
     * in the source, which leaves only the final `putItem` of
     * `moveItemDown` in effect.
     *
     * The ghost results record the visiting order with each item's entry
     * row and column, the planned rows, the rows actually handed to
     * `moveItemDown`, and whether each item was still at its entry position
     * when its turn came.
     */
    method MoveItemsDown(xs: seq<GridItem>, newRow: int, ignore: seq<GridItem>, fuel: nat)
      returns (ghost order: seq<GridItem>, ghost rows0: seq<int>, ghost cols0: seq<int>,
               ghost plan: seq<int>, ghost handed: seq<int>, ghost undisturbed: seq<bool>)
      requires Valid() && forall x :: x in xs ==> x in items
      modifies this`grid, this`lengths, this`rowCount, this`allItems, this`items,
               this`layoutChangedInProgress, this`pendingHeightDelta,
               items`row, items`col, items`placed, items`oldRow, items`oldColumn, items`isRendered
      ensures Valid() && items == old(items)
      ensures loaded == old(loaded) && movingOrResizingItem == old(movingOrResizingItem)
      ensures forall y :: y in old(allItems) ==> y in allItems
      ensures old(layoutChangedInProgress) ==> layoutChangedInProgress
      ensures pendingHeightDelta == if layoutChangedInProgress then old(ScheduledDelta()) else old(pendingHeightDelta)
      ensures xs == [] ==> unchanged(this) && unchanged(items)
      // the items are visited in ascending order of their rows on entry
      ensures multiset(order) == multiset(xs)
      ensures |rows0| == |cols0| == |plan| == |handed| == |undisturbed| == |order|
      ensures forall k :: 0 <= k < |order| ==> order[k] in xs
      ensures forall k :: 0 <= k < |order| ==> rows0[k] == old(order[k].row) && cols0[k] == old(order[k].col)
      ensures forall i, j :: 0 <= i < j < |order| ==> rows0[i] <= rows0[j]
      // the targets form a push-down plan
      ensures PushPlan(rows0, cols0, plan, newRow)
      // an item still where it started when its turn comes is handed its planned row
      ensures forall k :: 0 <= k < |order| && undisturbed[k] ==> handed[k] == plan[k]
      decreases fuel, 6
    {
      if xs == [] {
        return [], [], [], [], [], [];
      }
      var sorted, tops;
      sorted, tops, rows0, cols0, plan := PlanPush(xs, newRow);
      order := sorted;
      handed, undisturbed := PushInOrder(sorted, rows0, cols0, tops, newRow, ignore, fuel);
    }

    /**
     * The loop of `moveItemsDown`: visit `sorted` in order, handing each
     * item whose column has an entry in `tops` the row that moves that
     * column's top to `newRow`, and ignoring the items already visited.
     */
    method PushInOrder(sorted: seq<GridItem>, ghost rows0: seq<int>, ghost cols0: seq<int>, tops: map<int, int>,
                       newRow: int, ignore: seq<GridItem>, fuel: nat)
      returns (ghost handed: seq<int>, ghost undisturbed: seq<bool>)
      requires Valid() && forall x :: x in sorted ==> x in items
      requires |rows0| == |cols0| == |sorted| && forall k :: 0 <= k < |cols0| ==> cols0[k] in tops
      modifies this`grid, this`lengths, this`rowCount, this`allItems, this`items,
               this`layoutChangedInProgress, this`pendingHeightDelta,
               items`row, items`col, items`placed, items`oldRow, items`oldColumn, items`isRendered
      ensures Valid() && items == old(items)
      ensures loaded == old(loaded) && movingOrResizingItem == old(movingOrResizingItem)
      ensures forall y :: y in old(allItems) ==> y in allItems
      ensures old(layoutChangedInProgress) ==> layoutChangedInProgress
      ensures pendingHeightDelta == if layoutChangedInProgress then old(ScheduledDelta()) else old(pendingHeightDelta)
      ensures |handed| == |undisturbed| == |sorted|
      ensures forall k :: 0 <= k < |sorted| && undisturbed[k] ==> handed[k] == PushTargets(rows0, cols0, tops, newRow)[k]
      decreases fuel, 5
    {
      ghost var plan := PushTargets(rows0, cols0, tops, newRow);
      handed, undisturbed := [], [];
      var ign := ignore;
      var i := 0;
      while i < |sorted|
        invariant 0 <= i <= |sorted|
        invariant Valid() && items == old(items)
        invariant loaded == old(loaded) && movingOrResizingItem == old(movingOrResizingItem)
        invariant forall y :: y in old(allItems) ==> y in allItems
        invariant old(layoutChangedInProgress) ==> layoutChangedInProgress
        invariant pendingHeightDelta == if layoutChangedInProgress then old(ScheduledDelta()) else old(pendingHeightDelta)
        invariant |handed| == |undisturbed| == i
        invariant HandedAsPlanned(handed, undisturbed, plan)
      {
        var x := sorted[i];
        ghost var still := x.row == rows0[i] && x.col == cols0[i];
        ghost var h := if x.col in tops then x.row + (newRow - tops[x.col]) else x.row;
        PushTargetAt(rows0, cols0, tops, newRow, i);
        HandedAsPlannedSnoc(handed, undisturbed, plan, h, still);
        undisturbed, handed := undisturbed + [still], handed + [h];
        if x.col in tops {
          ghost var _, _ := MoveItemDown(x, x.row + (newRow - tops[x.col]), ign, fuel);
        } else {
          PutItemAt(x, x.row, x.col, ign, false, fuel);
        }
        ign := ign + [x];
        i := i + 1;
      }
    }

    /**
     * `moveItemDown(x, newRow, ignore)`: nothing when the item is already
     * at or below `newRow`; otherwise step it down one row at a time,
     * resolving what it overlaps after each step, and commit it with
     * `putItem` where it ends up.
     *
     * Nested placements may move the item back up, so the step loop also
     * runs on a budget of `newRow - row + fuel` steps. The ghost results are
     * the clamped position the closing `putItem` commits to and whether that
     * rectangle was free.
     */
    method MoveItemDown(x: GridItem, newRow: int, ignore: seq<GridItem>, fuel: nat)
      returns (ghost target: (int, int), ghost free: bool)
      requires Valid() && x in items
      modifies this`grid, this`lengths, this`rowCount, this`allItems, this`items,
               this`layoutChangedInProgress, this`pendingHeightDelta,
               items`row, items`col, items`placed, items`oldRow, items`oldColumn, items`isRendered
      ensures Valid() && items == old(items)
      ensures loaded == old(loaded) && movingOrResizingItem == old(movingOrResizingItem)
      ensures forall y :: y in old(allItems) ==> y in allItems
      ensures old(layoutChangedInProgress) ==> layoutChangedInProgress
      ensures pendingHeightDelta == if layoutChangedInProgress then old(ScheduledDelta()) else old(pendingHeightDelta)
      ensures old(x.row) >= newRow ==> unchanged(this) && unchanged(items)
      // otherwise the item is committed at `target`, the clamped position it
      // stepped to, and lands exactly there when that rectangle was free
      ensures old(x.row) < newRow && old(movingOrResizingItem) != x ==> At(grid, target.0, target.1) == Some(x)
      ensures old(x.row) < newRow && free ==>
        && x.col == target.1 && 0 <= x.row <= target.0
        && (old(movingOrResizingItem) != x ==> x.row == target.0 && x.oldRow == Some(target.0) && x.oldColumn == target.1)
      // with no nested resolution, the item steps straight to `newRow`
      ensures old(x.row) < newRow && fuel == 0 ==>
        target == Clamp(columns, maxRows, old(x.SizeX(columns)), old(x.SizeY()), newRow, old(x.col))
      decreases fuel, 4
    {
      if x.row >= newRow {
        return (0, 0), false;
      }
      StepDown(x, newRow, ignore, fuel);
      target := Target(x, x.row, x.col);
      free := FreeTarget(x, target.0, target.1, ignore);
      PutItemAt(x, x.row, x.col, ignore, false, fuel);
    }

    /**
     * The loop of `moveItemDown`: step the item one row down at a time,
     * resolving the overlaps of each step, until it reaches `newRow`. With
     * no nested resolution, it ends exactly at `newRow` in its own column.
     */
    method StepDown(x: GridItem, newRow: int, ignore: seq<GridItem>, fuel: nat)
      requires Valid() && x in items
      modifies this`grid, this`lengths, this`rowCount, this`allItems, this`items,
               this`layoutChangedInProgress, this`pendingHeightDelta,
               items`row, items`col, items`placed, items`oldRow, items`oldColumn, items`isRendered
      ensures Valid() && items == old(items)
      ensures loaded == old(loaded) && movingOrResizingItem == old(movingOrResizingItem)
      ensures forall y :: y in old(allItems) ==> y in allItems
      ensures old(layoutChangedInProgress) ==> layoutChangedInProgress
      ensures pendingHeightDelta == if layoutChangedInProgress then old(ScheduledDelta()) else old(pendingHeightDelta)
      ensures fuel == 0 && old(x.row) <= newRow ==>
        && x.row == newRow && x.col == old(x.col)
        && x.SizeX(columns) == old(x.SizeX(columns)) && x.SizeY() == old(x.SizeY())
      decreases fuel, 3
    {
      ghost var c0 := x.col;
      var budget := newRow - x.row + fuel;
      while x.row < newRow && budget > 0
        invariant Valid() && items == old(items)
        invariant loaded == old(loaded) && movingOrResizingItem == old(movingOrResizingItem)
        invariant forall y :: y in old(allItems) ==> y in allItems
        invariant old(layoutChangedInProgress) ==> layoutChangedInProgress
        invariant pendingHeightDelta == if layoutChangedInProgress then old(ScheduledDelta()) else old(pendingHeightDelta)
        invariant fuel == 0 && old(x.row) <= newRow ==> budget >= 0 && x.row + budget == newRow && x.col == c0
        decreases budget
      {
        x.row := x.row + 1;
        if fuel > 0 {
          ghost var _ := MoveOverlappingItems(x, ignore, false, fuel - 1);
        }
        budget := budget - 1;
      }
    }

    /** Moved to row `r` in its own column, the item would meet no other item. */
    ghost predicate ClearAt(x: GridItem, r: int)
      reads this, items, x
    {
      ItemsIn(sparse, grid, allItems, View(), r, x.col, x.SizeX(columns), x.SizeY(), [x]) == []
    }

    /**
     * The scan of `floatItemUp`: from the row above the item upward, stop
     * at the first row where the item would meet another item; the answer
     * is the last row passed, if any. So every row from the answer up to
     * the item is clear, and the row above the answer (if any) is not.
     */
    method FloatRow(x: GridItem) returns (best: Option<int>)
      requires Valid() && x in items
      ensures best.Some? ==> 0 <= best.value < x.row
      ensures best.Some? ==> forall r :: best.value <= r < x.row ==> ClearAt(x, r)
      ensures best.Some? && best.value > 0 ==> !ClearAt(x, best.value - 1)
      ensures best.None? ==> x.row <= 0 || !ClearAt(x, x.row - 1)
    {
      var col, sy, sx := x.col, x.SizeY(), x.SizeX(columns);
      best := None;
      var r := x.row - 1;
      while r > -1
        invariant r < x.row
        invariant best.Some? <==> r < x.row - 1
        invariant best.Some? ==> best.value == r + 1 && 0 <= best.value
        invariant forall q :: r < q < x.row ==> ClearAt(x, q)
        decreases r
      {
        var found := GetItems(r, col, sx, sy, [x]);
        if found != [] {
          return;
        }
        best := Some(r);
        r := r - 1;
      }
    }

    /**
     * `floatItemUp(x)`: when floating is on, move the item to the row the
     * scan finds, in its own column. An item that fits and is not dragged
     * ends on the topmost row of the clear run above it: every row from
     * there down to where it was is clear, and the row above is not.
     */
    method FloatItemUp(x: GridItem, fuel: nat)
      requires Valid() && x in items
      modifies this`grid, this`lengths, this`rowCount, this`allItems, this`items,
               this`layoutChangedInProgress, this`pendingHeightDelta,
               items`row, items`col, items`placed, items`oldRow, items`oldColumn, items`isRendered
      ensures Valid() && items == old(items)
      ensures loaded == old(loaded) && movingOrResizingItem == old(movingOrResizingItem)
      ensures forall y :: y in old(allItems) ==> y in allItems
      ensures old(layoutChangedInProgress) ==> layoutChangedInProgress
      ensures pendingHeightDelta == if layoutChangedInProgress then old(ScheduledDelta()) else old(pendingHeightDelta)
      ensures !floating ==> unchanged(this) && unchanged(items)
      ensures old(Fits(x)) ==>
        && Fits(x) && x.row <= old(x.row) && x.col == old(x.col)
        && (forall y :: y in old(items) && y != x ==> unchanged(y))
      ensures old(forall y :: y in items ==> Fits(y)) ==>
        forall y :: y in items ==> Fits(y) && y.row <= old(y.row) && y.col == old(y.col)
      ensures floating && old(Fits(x)) && old(movingOrResizingItem) != x ==>
        && (forall r :: x.row <= r < old(x.row) ==> old(ClearAt(x, r)))
        && (x.row > 0 ==> var r := x.row - 1; !old(ClearAt(x, r)))
      decreases fuel, 5
    {
      if !floating {
        return;
      }
      var best := FloatRow(x);
      if best.Some? {
        forall r | best.value <= r < x.row
          ensures old(ClearAt(x, r))
        {
          assert ClearAt(x, r);
        }
        LiftTo(x, best.value, fuel);
      }
    }

    /**
     * The closing `putItem(item, bestRow, bestColumn)` of `floatItemUp`:
     * put the item at row `r` of its own column. When the item fits where
     * it is and nothing else is in its way at `r`, a row no lower than its
     * own, it lands there; a dragged item may float further up.
     */
    method LiftTo(x: GridItem, r: int, fuel: nat)
      requires Valid() && x in items
      modifies this`grid, this`lengths, this`rowCount, this`allItems, this`items,
               this`layoutChangedInProgress, this`pendingHeightDelta,
               items`row, items`col, items`placed, items`oldRow, items`oldColumn, items`isRendered
      ensures Valid() && items == old(items)
      ensures loaded == old(loaded) && movingOrResizingItem == old(movingOrResizingItem)
      ensures forall y :: y in old(allItems) ==> y in allItems
      ensures old(layoutChangedInProgress) ==> layoutChangedInProgress
      ensures pendingHeightDelta == if layoutChangedInProgress then old(ScheduledDelta()) else old(pendingHeightDelta)
      ensures old(Fits(x) && ClearAt(x, r)) && 0 <= r <= old(x.row) ==>
        && Fits(x) && x.row <= r && x.col == old(x.col)
        && (forall y :: y in old(items) && y != x ==> unchanged(y))
      ensures old(Fits(x) && ClearAt(x, r)) && 0 <= r <= old(x.row) && old(movingOrResizingItem) != x ==>
        x.row == r
      decreases fuel, 4
    {
      var col := x.col;
      ghost var sx, sy := x.SizeX(columns), x.SizeY();
      ghost var fit := Fits(x) && ClearAt(x, r) && 0 <= r <= x.row;
      if fit {
        assert [] + [x] == [x];
        assert FreeTarget(x, r, col, []);
      }
      PutItemAt(x, r, col, [], false, fuel);
      if fit {
        assert x.col == col && 0 <= x.row <= r;
        assert x.SizeX(columns) == sx && x.SizeY() == sy;
      }
    }

    /**
     * `floatItemsUp()`: when floating is on, float every stored item up,
     * row by row from the top and left to right, over the rows and row
     * lengths as they are when each is reached. When every item lies inside
     * the grid, no item moves down or sideways, and all stay inside.
     */
    method FloatItemsUp(fuel: nat)
      requires Valid()
      modifies this`grid, this`lengths, this`rowCount, this`allItems, this`items,
               this`layoutChangedInProgress, this`pendingHeightDelta,
               items`row, items`col, items`placed, items`oldRow, items`oldColumn, items`isRendered
      ensures Valid() && items == old(items)
      ensures loaded == old(loaded) && movingOrResizingItem == old(movingOrResizingItem)
      ensures forall y :: y in old(allItems) ==> y in allItems
      ensures old(layoutChangedInProgress) ==> layoutChangedInProgress
      ensures pendingHeightDelta == if layoutChangedInProgress then old(ScheduledDelta()) else old(pendingHeightDelta)
      ensures !floating ==> unchanged(this) && unchanged(items)
      ensures old(forall y :: y in items ==> Fits(y)) ==>
        forall y :: y in items ==> Fits(y) && y.row <= old(y.row) && y.col == old(y.col)
    {
      if !floating {
        return;
      }
      ghost var allFit := forall y :: y in items ==> Fits(y);
      var i, l := 0, rowCount;
      while i < l
        invariant Valid() && items == old(items)
        invariant loaded == old(loaded) && movingOrResizingItem == old(movingOrResizingItem)
        invariant forall y :: y in old(allItems) ==> y in allItems
        invariant old(layoutChangedInProgress) ==> layoutChangedInProgress
        invariant pendingHeightDelta == if layoutChangedInProgress then old(ScheduledDelta()) else old(pendingHeightDelta)
        invariant allFit ==> forall y :: y in items ==> Fits(y) && y.row <= old(y.row) && y.col == old(y.col)
      {
        FloatRowItems(i, fuel);
        i := i + 1;
      }
    }

    /**
     * One row of `floatItemsUp`: float up every item stored in row `i`, left
     * to right, up to the row's length as it is when the row is reached.
     */
    method FloatRowItems(i: int, fuel: nat)
      requires Valid()
      modifies this`grid, this`lengths, this`rowCount, this`allItems, this`items,
               this`layoutChangedInProgress, this`pendingHeightDelta,
               items`row, items`col, items`placed, items`oldRow, items`oldColumn, items`isRendered
      ensures Valid() && items == old(items)
      ensures loaded == old(loaded) && movingOrResizingItem == old(movingOrResizingItem)
      ensures forall y :: y in old(allItems) ==> y in allItems
      ensures old(layoutChangedInProgress) ==> layoutChangedInProgress
      ensures pendingHeightDelta == if layoutChangedInProgress then old(ScheduledDelta()) else old(pendingHeightDelta)
      ensures old(forall y :: y in items ==> Fits(y)) ==>
        forall y :: y in items ==> Fits(y) && y.row <= old(y.row) && y.col == old(y.col)
    {
      ghost var allFit := forall y :: y in items ==> Fits(y);
      var len := Len(lengths, i);
      var j := 0;
      while j < len
        invariant Valid() && items == old(items)
        invariant loaded == old(loaded) && movingOrResizingItem == old(movingOrResizingItem)
        invariant forall y :: y in old(allItems) ==> y in allItems
        invariant old(layoutChangedInProgress) ==> layoutChangedInProgress
        invariant pendingHeightDelta == if layoutChangedInProgress then old(ScheduledDelta()) else old(pendingHeightDelta)
        invariant allFit ==> forall y :: y in items ==> Fits(y) && y.row <= old(y.row) && y.col == old(y.col)
      {
        var cell := At(grid, i, j);
        if cell.Some? {
          FloatItemUp(cell.value, fuel);
        }
        j := j + 1;
      }
    }

    // -------------------------------------------------------------------
    // Removal and exchange
    // -------------------------------------------------------------------

    /**
     * `removeItem(x)`: clear the first cell, in row order, whose row's
     * `indexOf` finds x (the row keeps its length), drop x from the
     * registry in sparse mode, and schedule a layout pass without a delta.
     */
    method RemoveItem(x: GridItem)
      requires Valid()
      modifies this`grid, this`allItems, this`layoutChangedInProgress, this`pendingHeightDelta
      ensures Valid()
      ensures var cell := old(FirstCellFrom(grid, lengths, x, rowCount, 0));
        grid == if cell.Some? then ClearCell(old(grid), cell.value.0, cell.value.1) else old(grid)
      ensures allItems == if sparse then RemoveFirst(old(allItems), x) else old(allItems)
      ensures layoutChangedInProgress
      ensures !old(layoutChangedInProgress) ==> pendingHeightDelta == 0
      ensures old(layoutChangedInProgress) ==> pendingHeightDelta == old(pendingHeightDelta)
    {
      ghost var cell := FirstCellFrom(grid, lengths, x, rowCount, 0);
      var i, l := 0, rowCount;
      while i < l
        invariant 0 <= i <= l
        invariant grid == old(grid)
        invariant FirstCellFrom(grid, lengths, x, l, i) == cell
      {
        if i in grid {
          var index := IndexOf(grid[i], x, lengths[i], 0);
          if index.Some? {
            assert cell == Some((i, index.value));
            grid := ClearCell(grid, i, index.value);
            break;
          }
        }
        i := i + 1;
      }
      if sparse {
        RemoveFirstSpec(allItems, x);
        allItems := RemoveFirst(allItems, x);
      }
      LayoutChanged(0);
    }

    /** `grid[tr][tc] = x` on a row that exists; its JavaScript length grows as the write makes it grow. */
    method WriteCell(tr: int, tc: int, x: GridItem)
      requires Valid() && x in items && tr in grid
      modifies this`grid, this`lengths
      ensures Valid()
      ensures grid == old(grid)[tr := old(grid)[tr][tc := x]]
    {
      var stored := StoreCell(grid, lengths, rowCount, tr, tc, x);
      grid, lengths := stored.0, stored.1;
    }

    /**
     * `swapItems(a, b)`: store b in a's cell and then a in b's cell, and
     * exchange their positions. Both rows must exist (the source fails on a
     * missing row); the row lengths grow as the array writes make them grow.
     */
    method SwapItems(a: GridItem, b: GridItem)
      requires Valid()
      requires a.placed && b.placed
      requires a.row in grid && b.row in grid
      modifies this`grid, this`lengths, this`items, a`row, a`col, b`row, b`col
      ensures Valid()
      ensures items == old(items) + {a, b}
      ensures grid == SwapCells(old(grid), old(a.row), old(a.col), b, old(b.row), old(b.col), a)
      ensures a.row == old(b.row) && a.col == old(b.col)
      ensures b.row == old(a.row) && b.col == old(a.col)
    {
      var ar, ac, br, bc := a.row, a.col, b.row, b.col;
      items := items + {a, b};
      WriteCell(ar, ac, b);
      WriteCell(br, bc, a);
      a.row, a.col := br, bc;
      b.row, b.col := ar, ac;
    }

    // -------------------------------------------------------------------
    // Automatic placement (autoSetItemPosition) and the putItem entry point
    // -------------------------------------------------------------------

    /** Cell (r, c) is where `autoSetItemPosition` would put the item: nothing else is in its way and it fits. */
    ghost predicate FitsAt(item: GridItem, r: int, c: int)
      reads this, items, item
    {
      && ItemsIn(sparse, grid, allItems, View(), r, c, item.SizeX(columns), item.SizeY(), [item]) == []
      && CanItemOccupy(item.SizeX(columns), item.SizeY(), r, c)
    }

    /**
     * `cell` is the first cell of [0, maxRows) x [0, columns) in row-major
     * order where the item fits, or None when it fits nowhere.
     */
    ghost predicate IsFirstFit(item: GridItem, cell: Option<(int, int)>)
      reads this, items, item
    {
      match cell
      case None => forall r, c :: 0 <= r < maxRows && 0 <= c < columns ==> !FitsAt(item, r, c)
      case Some(p) =>
        && 0 <= p.0 < maxRows && 0 <= p.1 < columns && FitsAt(item, p.0, p.1)
        && forall r, c :: 0 <= r < maxRows && 0 <= c < columns && (r < p.0 || (r == p.0 && c < p.1)) ==> !FitsAt(item, r, c)
    }

    /** The search loop of `autoSetItemPosition`. */
    method FirstFit(item: GridItem) returns (cell: Option<(int, int)>)
      requires Valid()
      ensures IsFirstFit(item, cell)
    {
      var r := 0;
      while r < maxRows
        invariant 0 <= r && (r <= maxRows || r == 0)
        invariant forall r', c :: 0 <= r' < r && 0 <= c < columns ==> !FitsAt(item, r', c)
      {
        var c := 0;
        while c < columns
          invariant 0 <= c && (c <= columns || c == 0)
          invariant forall c' :: 0 <= c' < c ==> !FitsAt(item, r, c')
        {
          var found := GetItems(r, c, item.SizeX(columns), item.SizeY(), [item]);
          if found == [] && CanItemOccupy(item.SizeX(columns), item.SizeY(), r, c) {
            return Some((r, c));
          }
          c := c + 1;
        }
        r := r + 1;
      }
      return None;
    }

    /**
     * `autoSetItemPosition(item)`: put the item at the first cell where it
     * fits; None stands for the 'Unable to place item!' error, which leaves
     * everything as it was. An item that is not being dragged lands on the
     * cell found whenever its width does not depend on the column (it was
     * measured at a column left of the cell, or it fits in full).
     */
    method AutoSetItemPosition(item: GridItem, fuel: nat) returns (cell: Option<(int, int)>)
      requires Valid()
      modifies this`grid, this`lengths, this`rowCount, this`allItems, this`items,
               this`layoutChangedInProgress, this`pendingHeightDelta,
               items`row, items`col, items`placed, items`oldRow, items`oldColumn, items`isRendered, item`row, item`col, item`placed, item`oldRow, item`oldColumn, item`isRendered
      ensures Valid()
      ensures old(layoutChangedInProgress) ==> layoutChangedInProgress
      ensures pendingHeightDelta == if layoutChangedInProgress then old(ScheduledDelta()) else old(pendingHeightDelta)
      ensures cell.None? ==> old(IsFirstFit(item, None))
      ensures cell.Some? ==> var r, c := cell.value.0, cell.value.1; old(IsFirstFit(item, Some((r, c))))
      ensures cell.None? ==> unchanged(this) && unchanged(items) && unchanged(item)
      ensures cell.Some? ==> items == old(items) + {item}
      ensures cell.Some? && old(movingOrResizingItem) != item ==> At(grid, cell.value.0, cell.value.1) == Some(item)
      ensures cell.Some? && old(movingOrResizingItem) != item
              && old(item.col <= cell.value.1 || item.col + Resolve(item.sizeX, item.contentSizeX) <= columns) ==>
        item.row == cell.value.0 && item.col == cell.value.1
    {
      cell := FirstFit(item);
      if cell.Some? {
        var r, c := cell.value.0, cell.value.1;
        if item.col <= c || item.col + Resolve(item.sizeX, item.contentSizeX) <= columns {
          WidthStableWhereItFits(item, item.col, c, columns);
          assert [] + [item] == [item];
          assert FreeTarget(item, r, c, []);
        }
        PutItemAt(item, r, c, [], false, fuel);
      }
    }

    /**
     * `putItem(item, row, column, ignore, isDrop)`. Without a row, the
     * item's own position is used, and an item that never had one is
     * placed automatically. The result is false exactly when automatic
     * placement found no room (the source throws), and then nothing
     * changed. Otherwise the request (or the item's own position) is
     * clamped and committed as by `PutItemAt`.
     */
    method PutItem(item: GridItem, row: Option<int>, column: int, ignore: seq<GridItem>, isDrop: bool, fuel: nat)
      returns (ok: bool)
      requires Valid()
      modifies this`grid, this`lengths, this`rowCount, this`allItems, this`items,
               this`layoutChangedInProgress, this`pendingHeightDelta,
               items`row, items`col, items`placed, items`oldRow, items`oldColumn, items`isRendered, item`row, item`col, item`placed, item`oldRow, item`oldColumn, item`isRendered
      ensures Valid()
      ensures old(layoutChangedInProgress) ==> layoutChangedInProgress
      ensures pendingHeightDelta == if layoutChangedInProgress then old(ScheduledDelta()) else old(pendingHeightDelta)
      ensures ok ==> items == old(items) + {item}
      ensures !ok <==> row.None? && !old(item.placed) && old(IsFirstFit(item, None))
      ensures !ok ==> unchanged(this) && unchanged(items) && unchanged(item)
      ensures row.Some? || old(item.placed) ==>
        var t := old(Target(item, if row.Some? then row.value else item.row, if row.Some? then column else item.col));
        && (old(movingOrResizingItem) != item ==> At(grid, t.0, t.1) == Some(item))
        && (old(Settled(item, t.0, t.1)) ==>
              && unchanged(this) && item.row == t.0 && item.col == t.1
              && (forall y :: y in old(items) && y != item ==> unchanged(y))
              && item.oldRow == old(item.oldRow) && item.oldColumn == old(item.oldColumn)
              && item.isRendered == old(item.isRendered))
        && (!old(Settled(item, t.0, t.1)) ==> layoutChangedInProgress && (sparse ==> item in allItems))
        && (old(FreeTarget(item, t.0, t.1, ignore)) ==>
              && item.col == t.1 && 0 <= item.row <= t.0
              && (forall y :: y in old(items) && y != item ==> unchanged(y))
              && (old(movingOrResizingItem) != item ==>
                    item.row == t.0 && item.oldRow == Some(t.0) && item.oldColumn == t.1))
    {
      if row.None? {
        if !item.placed {
          var cell := AutoSetItemPosition(item, fuel);
          return cell.Some?;
        }
        PutItemAt(item, item.row, item.col, ignore, isDrop, fuel);
        return true;
      }
      PutItemAt(item, row.value, column, ignore, isDrop, fuel);
      return true;
    }
  }
}
