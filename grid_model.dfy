/**
 * Value-level model of the grid controller's occupancy structure.
 *
 * The controller keeps a sparse two-dimensional table `grid[row][col]` in
 * which only an item's origin cell holds a reference to the item, plus a flat
 * registry of items. This module states, over plain values, what the
 * controller's read-only queries compute: bounds checks, rectangle
 * intersection, the point query `getItem`, the region query `getItems` in both
 * its dense and sparse strategies, and the small list helpers the placement
 * code relies on. The controller class proves its loops against these
 * functions; the lemmas here say what the functions mean.
 *
 * Items are kept abstract (type parameter `T`); each item's footprint is
 * looked up in a map `rects` from item to `Rect`.
 */
module GridModel {

  datatype Option<T> = None | Some(value: T)

  function Min(a: int, b: int): int { if a < b then a else b }
  function Max(a: int, b: int): int { if a < b then b else a }

  /** An item's footprint: its top-left cell and its effective size in cells. */
  datatype Rect = Rect(row: int, col: int, sizeX: int, sizeY: int)

  /** Cell (i, j) lies inside footprint `r`. */
  predicate Covers(r: Rect, i: int, j: int) {
    r.row <= i < r.row + r.sizeY && r.col <= j < r.col + r.sizeX
  }

  // ---------------------------------------------------------------------
  // Bounds: canItemOccupy and the clamp applied by putItem
  // ---------------------------------------------------------------------

  /** `canItemOccupy`: the item fits inside [0, maxRows) x [0, columns). */
  predicate CanOccupy(columns: int, maxRows: int, sizeX: int, sizeY: int, row: int, col: int) {
    row > -1 && col > -1 && sizeX + col <= columns && sizeY + row <= maxRows
  }

  /**
   * For an item of at least one cell, fitting is exactly "every cell the
   * item covers lies inside [0, maxRows) x [0, columns)".
   */
  lemma CanOccupyIffInside(columns: int, maxRows: int, sizeX: int, sizeY: int, row: int, col: int)
    requires sizeX >= 1 && sizeY >= 1
    ensures CanOccupy(columns, maxRows, sizeX, sizeY, row, col)
      <==> forall i, j :: Covers(Rect(row, col, sizeX, sizeY), i, j) ==> 0 <= i < maxRows && 0 <= j < columns
  {
    var r := Rect(row, col, sizeX, sizeY);
    if forall i, j :: Covers(r, i, j) ==> 0 <= i < maxRows && 0 <= j < columns {
      assert Covers(r, row, col);
      assert Covers(r, row + sizeY - 1, col + sizeX - 1);
    }
  }

  /**
   * The position `putItem` uses: the requested one when it fits, otherwise
   * each coordinate shifted just enough to bring the item inside the grid.
   * The result is a (row, col) pair.
   */
  function Clamp(columns: int, maxRows: int, sizeX: int, sizeY: int, row: int, col: int): (int, int) {
    if CanOccupy(columns, maxRows, sizeX, sizeY, row, col) then (row, col)
    else (Min(maxRows - sizeY, Max(0, row)), Min(columns - sizeX, Max(0, col)))
  }

  /**
   * Clamping never shrinks the item and, whenever the item is no larger than
   * the grid, always yields a position where it fits; a fitting request is
   * kept, and a coordinate already inside its range is not moved.
   */
  lemma ClampFits(columns: int, maxRows: int, sizeX: int, sizeY: int, row: int, col: int)
    requires 0 <= sizeX <= columns && 0 <= sizeY <= maxRows
    ensures var p := Clamp(columns, maxRows, sizeX, sizeY, row, col);
      && CanOccupy(columns, maxRows, sizeX, sizeY, p.0, p.1)
      && (CanOccupy(columns, maxRows, sizeX, sizeY, row, col) ==> p == (row, col))
      && (0 <= row <= maxRows - sizeY ==> p.0 == row)
      && (0 <= col <= columns - sizeX ==> p.1 == col)
  {
  }

  // ---------------------------------------------------------------------
  // Rectangle intersection (intersect)
  // ---------------------------------------------------------------------

  /**
   * `intersect(item, left, right, top, bottom)`: the item's footprint meets
   * the box whose inclusive edges are given.
   */
  predicate Intersect(r: Rect, left: int, right: int, top: int, bottom: int) {
    left <= r.col + r.sizeX - 1 && right >= r.col && top <= r.row + r.sizeY - 1 && bottom >= r.row
  }

  /**
   * For a footprint of at least one cell and a non-empty box, the edge test
   * is exactly "the footprint and the box share a cell".
   */
  lemma IntersectIffSharedCell(r: Rect, left: int, right: int, top: int, bottom: int)
    requires r.sizeX >= 1 && r.sizeY >= 1 && left <= right && top <= bottom
    ensures Intersect(r, left, right, top, bottom)
      <==> exists i, j :: top <= i <= bottom && left <= j <= right && Covers(r, i, j)
  {
    if Intersect(r, left, right, top, bottom) {
      var i, j := Max(top, r.row), Max(left, r.col);
      assert top <= i <= bottom && left <= j <= right && Covers(r, i, j);
    }
  }

  // ---------------------------------------------------------------------
  // The occupancy table
  // ---------------------------------------------------------------------

  /** Rows of cells; a missing row or column is an empty cell. */
  type Grid<T> = map<int, map<int, T>>

  function At<T>(g: Grid<T>, i: int, j: int): Option<T> {
    if i in g && j in g[i] then Some(g[i][j]) else None
  }

  /**
   * The table as JavaScript arrays: `lens` holds each row's `length` and
   * `rows` the table's own; every non-negative index in use lies below the
   * length of its array (negative indices are plain properties).
   */
  ghost predicate WellShaped<T>(g: Grid<T>, lens: map<int, int>, rows: int) {
    && g.Keys == lens.Keys
    && rows >= 0
    && (forall i :: i in g && 0 <= i ==> i < rows)
    && (forall i :: i in lens ==> lens[i] >= 0)
    && (forall i, j :: i in g && j in g[i] && 0 <= j ==> j < lens[i])
  }

  /**
   * `if (!grid[tr]) grid[tr] = []; grid[tr][tc] = x`: the table, row
   * lengths and table length afterwards. Only cell (tr, tc) changes, and
   * the lengths grow just enough to keep the table well shaped.
   */
  function StoreCell<T>(g: Grid<T>, lens: map<int, int>, rows: int, tr: int, tc: int, x: T): (r: (Grid<T>, map<int, int>, int))
    requires WellShaped(g, lens, rows)
    ensures WellShaped(r.0, r.1, r.2)
    ensures At(r.0, tr, tc) == Some(x)
    ensures forall i, j :: (i, j) != (tr, tc) ==> At(r.0, i, j) == At(g, i, j)
    ensures r.0.Keys == g.Keys + {tr} && r.2 >= rows
    ensures forall i :: i in lens && i != tr ==> r.1[i] == lens[i]
    ensures tr in g ==> r.0 == g[tr := g[tr][tc := x]] && r.2 == rows
  {
    var row := if tr in g then g[tr] else map[];
    var len := if tr in lens then lens[tr] else 0;
    var len' := if 0 <= tc && len <= tc then tc + 1 else len;
    var rows' := if tr >= rows then tr + 1 else rows;
    (g[tr := row[tc := x]], lens[tr := len'], rows')
  }

  /** Every item stored in the table belongs to `s`. */
  ghost predicate StoredIn<T>(g: Grid<T>, s: set<T>) {
    forall i, j :: i in g && j in g[i] ==> g[i][j] in s
  }

  /** Storing a member of `s` keeps every stored item in `s`. */
  lemma StoreCellStoredIn<T>(g: Grid<T>, lens: map<int, int>, rows: int, tr: int, tc: int, x: T, s: set<T>)
    requires WellShaped(g, lens, rows) && StoredIn(g, s) && x in s
    ensures StoredIn(StoreCell(g, lens, rows, tr, tc, x).0, s)
  {
    var g2 := StoreCell(g, lens, rows, tr, tc, x).0;
    forall i, j | i in g2 && j in g2[i] ensures g2[i][j] in s {
      assert At(g2, i, j) == Some(g2[i][j]);
      if (i, j) != (tr, tc) {
        assert At(g, i, j) == Some(g2[i][j]);
      }
    }
  }

  /** Every item stored in the table has a footprint. */
  ghost predicate Registered<T>(g: Grid<T>, rects: map<T, Rect>) {
    forall i, j :: i in g && j in g[i] ==> g[i][j] in rects
  }

  /** Every item is stored at its own origin cell. */
  ghost predicate StoredAtOrigin<T>(g: Grid<T>, rects: map<T, Rect>) {
    forall i, j :: i in g && j in g[i] ==> g[i][j] in rects && rects[g[i][j]].row == i && rects[g[i][j]].col == j
  }

  // ---------------------------------------------------------------------
  // Point query (getItem)
  // ---------------------------------------------------------------------

  /**
   * The check `getItem` applies at cell (i, j) while looking for the item
   * covering (row, col): something is stored there, it is not excluded, and
   * its size reaches from (i, j) to (row, col).
   */
  predicate Hit<T(==)>(g: Grid<T>, rects: map<T, Rect>, excl: seq<T>, row: int, col: int, i: int, j: int) {
    && i in g && j in g[i]
    && g[i][j] !in excl
    && g[i][j] in rects
    && rects[g[i][j]].sizeX >= col - j + 1
    && rects[g[i][j]].sizeY >= row - i + 1
  }

  /**
   * The scan of `getItem` resumed at cell (i, j): cells are visited row by
   * row from `row` down to 0 and, within a row, from `col` down to 0.
   */
  function ItemAtFrom<T(==)>(g: Grid<T>, rects: map<T, Rect>, excl: seq<T>, row: int, col: int, i: int, j: int): Option<T>
    decreases i + 1, j + 1
  {
    if i < 0 then None
    else if j < 0 then ItemAtFrom(g, rects, excl, row, col, i - 1, col)
    else if Hit(g, rects, excl, row, col, i, j) then Some(g[i][j])
    else ItemAtFrom(g, rects, excl, row, col, i, j - 1)
  }

  /** `getItem(row, col, excl)` as a value: None stands for `null`. */
  function ItemAt<T(==)>(g: Grid<T>, rects: map<T, Rect>, excl: seq<T>, row: int, col: int): Option<T> {
    ItemAtFrom(g, rects, excl, row, col, row, col)
  }

  /** Cell (a, b) is still to be visited by the scan resumed at (i, j). */
  predicate Scanned(col: int, i: int, j: int, a: int, b: int) {
    0 <= a && ((a == i && 0 <= b <= j) || (a < i && 0 <= b <= col))
  }

  /** Cell (a, b) comes before cell (a2, b2) in the scan order of `getItem`. */
  predicate Earlier(a: int, b: int, a2: int, b2: int) {
    a > a2 || (a == a2 && b > b2)
  }

  lemma {:induction false} ItemAtFromFirstHit<T>(g: Grid<T>, rects: map<T, Rect>, excl: seq<T>, row: int, col: int, i: int, j: int)
    ensures ItemAtFrom(g, rects, excl, row, col, i, j).None?
      <==> forall a, b :: Scanned(col, i, j, a, b) ==> !Hit(g, rects, excl, row, col, a, b)
    ensures ItemAtFrom(g, rects, excl, row, col, i, j).Some? ==>
      exists a, b ::
        && Scanned(col, i, j, a, b)
        && Hit(g, rects, excl, row, col, a, b)
        && g[a][b] == ItemAtFrom(g, rects, excl, row, col, i, j).value
        && forall a2, b2 :: Scanned(col, i, j, a2, b2) && Earlier(a2, b2, a, b) ==> !Hit(g, rects, excl, row, col, a2, b2)
    decreases i + 1, j + 1
  {
    if i < 0 {
    } else if j < 0 {
      ItemAtFromFirstHit(g, rects, excl, row, col, i - 1, col);
      assert forall a, b :: Scanned(col, i, j, a, b) <==> Scanned(col, i - 1, col, a, b);
    } else if Hit(g, rects, excl, row, col, i, j) {
      assert Scanned(col, i, j, i, j);
    } else {
      ItemAtFromFirstHit(g, rects, excl, row, col, i, j - 1);
      assert forall a, b :: Scanned(col, i, j, a, b) <==> Scanned(col, i, j - 1, a, b) || (a == i && b == j);
    }
  }

  /**
   * `getItem(row, col, excl)` returns the first item, in its scan order,
   * stored at an origin (a, b) with a <= row and b <= col whose size reaches
   * (row, col) and which is not excluded; it returns null exactly when no
   * stored origin in [0, row] x [0, col] qualifies.
   */
  lemma ItemAtIsFirstHit<T>(g: Grid<T>, rects: map<T, Rect>, excl: seq<T>, row: int, col: int)
    ensures ItemAt(g, rects, excl, row, col).None?
      <==> forall a, b :: 0 <= a <= row && 0 <= b <= col ==> !Hit(g, rects, excl, row, col, a, b)
    ensures ItemAt(g, rects, excl, row, col).Some? ==>
      exists a, b ::
        && 0 <= a <= row && 0 <= b <= col
        && Hit(g, rects, excl, row, col, a, b)
        && g[a][b] == ItemAt(g, rects, excl, row, col).value
        && forall a2, b2 :: 0 <= a2 <= row && 0 <= b2 <= col && Earlier(a2, b2, a, b) ==> !Hit(g, rects, excl, row, col, a2, b2)
  {
    ItemAtFromFirstHit(g, rects, excl, row, col, row, col);
    assert forall a, b :: Scanned(col, row, col, a, b) <==> 0 <= a <= row && 0 <= b <= col;
  }

  /** What `getItem` returns is never excluded and always has a footprint. */
  lemma {:induction false} ItemAtFromAdmissible<T>(g: Grid<T>, rects: map<T, Rect>, excl: seq<T>, row: int, col: int, i: int, j: int)
    ensures var r := ItemAtFrom(g, rects, excl, row, col, i, j); r.Some? ==> r.value !in excl && r.value in rects
    decreases i + 1, j + 1
  {
    if i < 0 {
    } else if j < 0 {
      ItemAtFromAdmissible(g, rects, excl, row, col, i - 1, col);
    } else if !Hit(g, rects, excl, row, col, i, j) {
      ItemAtFromAdmissible(g, rects, excl, row, col, i, j - 1);
    }
  }

  /**
   * When every item sits at its own origin, the item `getItem` finds really
   * covers the queried cell.
   */
  lemma ItemAtCovers<T>(g: Grid<T>, rects: map<T, Rect>, excl: seq<T>, row: int, col: int)
    requires StoredAtOrigin(g, rects)
    ensures var r := ItemAt(g, rects, excl, row, col); r.Some? ==> r.value in rects && Covers(rects[r.value], row, col)
  {
    ItemAtIsFirstHit(g, rects, excl, row, col);
  }

  // ---------------------------------------------------------------------
  // Region query (getItems)
  // ---------------------------------------------------------------------

  predicate NoDup<T(==)>(s: seq<T>) {
    forall i, j :: 0 <= i < j < |s| ==> s[i] != s[j]
  }

  /**
   * Dense strategy of `getItems`, resumed at offset (h, w) of the rectangle
   * with accumulated result `acc`: probe every cell with `getItem` and append
   * each item found that is neither excluded nor already collected.
   */
  function DenseFrom<T(==)>(g: Grid<T>, rects: map<T, Rect>, excl: seq<T>, row: int, col: int, sx: int, sy: int,
                            h: int, w: int, acc: seq<T>): seq<T>
    decreases sy - h, sx - w
  {
    if h >= sy then acc
    else if w >= sx then DenseFrom(g, rects, excl, row, col, sx, sy, h + 1, 0, acc)
    else
      var it := ItemAt(g, rects, excl, row + h, col + w);
      var acc' := if it.Some? && it.value !in excl && it.value !in acc then acc + [it.value] else acc;
      DenseFrom(g, rects, excl, row, col, sx, sy, h, w + 1, acc')
  }

  /**
   * Sparse strategy of `getItems`, resumed at index k of the registry: keep,
   * in registry order, each item that is not excluded, not yet collected and
   * whose footprint intersects the box.
   */
  function SparseFrom<T(==)>(all: seq<T>, rects: map<T, Rect>, excl: seq<T>, left: int, right: int, top: int, bottom: int,
                             k: nat, acc: seq<T>): seq<T>
    decreases |all| - k
  {
    if k >= |all| then acc
    else
      var x := all[k];
      var acc' := if x !in excl && x !in acc && x in rects && Intersect(rects[x], left, right, top, bottom) then acc + [x] else acc;
      SparseFrom(all, rects, excl, left, right, top, bottom, k + 1, acc')
  }

  /** `getItems` treats a zero width or height as a 1 x 1 query. */
  function QuerySize(sizeX: int, sizeY: int): (int, int) {
    if sizeX == 0 || sizeY == 0 then (1, 1) else (sizeX, sizeY)
  }

  /** `getItems(row, col, sizeX, sizeY, excl)` as a value. */
  function ItemsIn<T(==)>(sparse: bool, g: Grid<T>, all: seq<T>, rects: map<T, Rect>,
                          row: int, col: int, sizeX: int, sizeY: int, excl: seq<T>): seq<T>
  {
    var (sx, sy) := QuerySize(sizeX, sizeY);
    if !sparse then DenseFrom(g, rects, excl, row, col, sx, sy, 0, 0, [])
    else SparseFrom(all, rects, excl, col, col + sx - 1, row, row + sy - 1, 0, [])
  }

  /** `getItem` probed at offset (a, b) of the rectangle whose corner is (row, col). */
  function ItemAtOffset<T(==)>(g: Grid<T>, rects: map<T, Rect>, excl: seq<T>, row: int, col: int, a: int, b: int): Option<T> {
    ItemAt(g, rects, excl, row + a, col + b)
  }

  /** Offset (a, b) of the rectangle is still to be probed from offset (h, w). */
  predicate Pending(sx: int, sy: int, h: int, w: int, a: int, b: int) {
    a < sy && 0 <= b < sx && ((a == h && w <= b) || h < a)
  }

  lemma {:induction false} DenseFromMembers<T>(g: Grid<T>, rects: map<T, Rect>, excl: seq<T>, row: int, col: int,
                                                 sx: int, sy: int, h: int, w: int, acc: seq<T>)
    requires NoDup(acc) && forall x :: x in acc ==> x !in excl && x in rects
    requires 0 <= w
    ensures var r := DenseFrom(g, rects, excl, row, col, sx, sy, h, w, acc);
      && NoDup(r)
      && (forall x :: x in r ==> x !in excl && x in rects)
      && (forall x :: x in r <==> x in acc || exists a, b :: Pending(sx, sy, h, w, a, b) && ItemAtOffset(g, rects, excl, row, col, a, b) == Some(x))
    decreases sy - h, sx - w
  {
    var r := DenseFrom(g, rects, excl, row, col, sx, sy, h, w, acc);
    if h >= sy {
    } else if w >= sx {
      DenseFromMembers(g, rects, excl, row, col, sx, sy, h + 1, 0, acc);
      forall x ensures (exists a, b :: Pending(sx, sy, h, w, a, b) && ItemAtOffset(g, rects, excl, row, col, a, b) == Some(x))
        <==> (exists a, b :: Pending(sx, sy, h + 1, 0, a, b) && ItemAtOffset(g, rects, excl, row, col, a, b) == Some(x))
      {
        assert forall a, b :: Pending(sx, sy, h, w, a, b) <==> Pending(sx, sy, h + 1, 0, a, b);
      }
    } else {
      var it := ItemAtOffset(g, rects, excl, row, col, h, w);
      ItemAtFromAdmissible(g, rects, excl, row + h, col + w, row + h, col + w);
      var acc' := if it.Some? && it.value !in excl && it.value !in acc then acc + [it.value] else acc;
      assert forall x :: x in acc' <==> x in acc || it == Some(x);
      DenseFromMembers(g, rects, excl, row, col, sx, sy, h, w + 1, acc');
      forall x ensures x in r <==> x in acc || exists a, b :: Pending(sx, sy, h, w, a, b) && ItemAtOffset(g, rects, excl, row, col, a, b) == Some(x)
      {
        if x in r && x !in acc && it != Some(x) {
          var a, b :| Pending(sx, sy, h, w + 1, a, b) && ItemAtOffset(g, rects, excl, row, col, a, b) == Some(x);
          assert Pending(sx, sy, h, w, a, b);
        }
        if exists a, b :: Pending(sx, sy, h, w, a, b) && ItemAtOffset(g, rects, excl, row, col, a, b) == Some(x) {
          var a, b :| Pending(sx, sy, h, w, a, b) && ItemAtOffset(g, rects, excl, row, col, a, b) == Some(x);
          if (a, b) != (h, w) {
            assert Pending(sx, sy, h, w + 1, a, b);
          }
        }
      }
    }
  }

  lemma {:induction false} SparseFromMembers<T>(all: seq<T>, rects: map<T, Rect>, excl: seq<T>,
                                                  left: int, right: int, top: int, bottom: int, k: nat, acc: seq<T>)
    requires k <= |all|
    requires NoDup(acc) && forall x :: x in acc ==> x !in excl && x in rects
    ensures var r := SparseFrom(all, rects, excl, left, right, top, bottom, k, acc);
      && NoDup(r)
      && (forall x :: x in r <==> x in acc || (x in all[k..] && x !in excl && x in rects && Intersect(rects[x], left, right, top, bottom)))
      && (forall x :: x in r ==> x !in excl && x in rects)
    decreases |all| - k
  {
    if k >= |all| {
    } else {
      var x := all[k];
      var acc' := if x !in excl && x !in acc && x in rects && Intersect(rects[x], left, right, top, bottom) then acc + [x] else acc;
      SparseFromMembers(all, rects, excl, left, right, top, bottom, k + 1, acc');
      assert all[k..] == [x] + all[k + 1..];
    }
  }

  /**
   * `getItems` never returns an excluded item or the same item twice, and
   * everything it returns has a footprint.
   */
  lemma ItemsInWellFormed<T>(sparse: bool, g: Grid<T>, all: seq<T>, rects: map<T, Rect>,
                                 row: int, col: int, sizeX: int, sizeY: int, excl: seq<T>)
    ensures var r := ItemsIn(sparse, g, all, rects, row, col, sizeX, sizeY, excl);
      NoDup(r) && forall x :: x in r ==> x !in excl && x in rects
  {
    var (sx, sy) := QuerySize(sizeX, sizeY);
    if sparse {
      SparseFromMembers(all, rects, excl, col, col + sx - 1, row, row + sy - 1, 0, []);
    } else {
      DenseFromMembers(g, rects, excl, row, col, sx, sy, 0, 0, []);
    }
  }

  /**
   * Dense mode: an item is returned exactly when `getItem` reports it for
   * some cell of the (zero-size-corrected) rectangle.
   */
  lemma DenseItemsExact<T>(g: Grid<T>, all: seq<T>, rects: map<T, Rect>,
                               row: int, col: int, sizeX: int, sizeY: int, excl: seq<T>, x: T)
    ensures var (sx, sy) := QuerySize(sizeX, sizeY);
      x in ItemsIn(false, g, all, rects, row, col, sizeX, sizeY, excl)
      <==> exists a, b :: 0 <= a < sy && 0 <= b < sx && ItemAtOffset(g, rects, excl, row, col, a, b) == Some(x)
  {
    var (sx, sy) := QuerySize(sizeX, sizeY);
    DenseFromMembers(g, rects, excl, row, col, sx, sy, 0, 0, []);
    assert forall a, b :: Pending(sx, sy, 0, 0, a, b) <==> 0 <= a < sy && 0 <= b < sx;
  }

  /**
   * Sparse mode: an item is returned exactly when it is registered, not
   * excluded, and its footprint intersects [row, row+sy) x [col, col+sx).
   */
  lemma SparseItemsExact<T>(g: Grid<T>, all: seq<T>, rects: map<T, Rect>,
                                row: int, col: int, sizeX: int, sizeY: int, excl: seq<T>, x: T)
    ensures var (sx, sy) := QuerySize(sizeX, sizeY);
      x in ItemsIn(true, g, all, rects, row, col, sizeX, sizeY, excl)
      <==> x in all && x !in excl && x in rects && Intersect(rects[x], col, col + sx - 1, row, row + sy - 1)
  {
    var (sx, sy) := QuerySize(sizeX, sizeY);
    SparseFromMembers(all, rects, excl, col, col + sx - 1, row, row + sy - 1, 0, []);
    assert all[0..] == all;
  }

  // ---------------------------------------------------------------------
  // Excluded items are invisible to the queries
  // ---------------------------------------------------------------------

  /** The table with item x's cells blanked out. */
  function Visible<T(==)>(g: Grid<T>, i: int, j: int, x: T): Option<T> {
    if At(g, i, j) == Some(x) then None else At(g, i, j)
  }

  /** g and g2 agree on every cell except cells holding x. */
  ghost predicate SameCellsExcept<T>(g: Grid<T>, g2: Grid<T>, x: T) {
    forall i, j :: Visible(g, i, j, x) == Visible(g2, i, j, x)
  }

  /** rects and rects2 agree on every item except x. */
  ghost predicate SameFootprintsExcept<T>(rects: map<T, Rect>, rects2: map<T, Rect>, x: T) {
    && (forall y :: y in rects && y != x ==> y in rects2 && rects2[y] == rects[y])
    && forall y :: y in rects2 && y != x ==> y in rects
  }

  lemma HitIgnoresExcluded<T>(g: Grid<T>, g2: Grid<T>, rects: map<T, Rect>, rects2: map<T, Rect>, excl: seq<T>, x: T,
                                    row: int, col: int, i: int, j: int)
    requires x in excl && SameCellsExcept(g, g2, x) && SameFootprintsExcept(rects, rects2, x)
    ensures Hit(g, rects, excl, row, col, i, j) == Hit(g2, rects2, excl, row, col, i, j)
  {
    assert Visible(g, i, j, x) == Visible(g2, i, j, x);
  }

  lemma {:induction false} ItemAtFromIgnoresExcluded<T>(g: Grid<T>, g2: Grid<T>, rects: map<T, Rect>, rects2: map<T, Rect>,
                                                            excl: seq<T>, x: T, row: int, col: int, i: int, j: int)
    requires x in excl && SameCellsExcept(g, g2, x) && SameFootprintsExcept(rects, rects2, x)
    ensures ItemAtFrom(g, rects, excl, row, col, i, j) == ItemAtFrom(g2, rects2, excl, row, col, i, j)
    decreases i + 1, j + 1
  {
    if i < 0 {
    } else if j < 0 {
      ItemAtFromIgnoresExcluded(g, g2, rects, rects2, excl, x, row, col, i - 1, col);
    } else {
      HitIgnoresExcluded(g, g2, rects, rects2, excl, x, row, col, i, j);
      if Hit(g, rects, excl, row, col, i, j) {
        assert Visible(g, i, j, x) == Visible(g2, i, j, x);
      } else {
        ItemAtFromIgnoresExcluded(g, g2, rects, rects2, excl, x, row, col, i, j - 1);
      }
    }
  }

  lemma {:induction false} DenseFromIgnoresExcluded<T>(g: Grid<T>, g2: Grid<T>, rects: map<T, Rect>, rects2: map<T, Rect>,
                                                           excl: seq<T>, x: T, row: int, col: int, sx: int, sy: int,
                                                           h: int, w: int, acc: seq<T>)
    requires x in excl && SameCellsExcept(g, g2, x) && SameFootprintsExcept(rects, rects2, x)
    ensures DenseFrom(g, rects, excl, row, col, sx, sy, h, w, acc) == DenseFrom(g2, rects2, excl, row, col, sx, sy, h, w, acc)
    decreases sy - h, sx - w
  {
    if h >= sy {
    } else if w >= sx {
      DenseFromIgnoresExcluded(g, g2, rects, rects2, excl, x, row, col, sx, sy, h + 1, 0, acc);
    } else {
      ItemAtFromIgnoresExcluded(g, g2, rects, rects2, excl, x, row + h, col + w, row + h, col + w);
      var it := ItemAt(g, rects, excl, row + h, col + w);
      var acc' := if it.Some? && it.value !in excl && it.value !in acc then acc + [it.value] else acc;
      DenseFromIgnoresExcluded(g, g2, rects, rects2, excl, x, row, col, sx, sy, h, w + 1, acc');
    }
  }

  lemma {:induction false} SparseFromIgnoresExcluded<T>(all: seq<T>, rects: map<T, Rect>, rects2: map<T, Rect>, excl: seq<T>, x: T,
                                                            left: int, right: int, top: int, bottom: int, k: nat, acc: seq<T>)
    requires x in excl && SameFootprintsExcept(rects, rects2, x)
    ensures SparseFrom(all, rects, excl, left, right, top, bottom, k, acc) == SparseFrom(all, rects2, excl, left, right, top, bottom, k, acc)
    decreases |all| - k
  {
    if k < |all| {
      var y := all[k];
      var acc' := if y !in excl && y !in acc && y in rects && Intersect(rects[y], left, right, top, bottom) then acc + [y] else acc;
      SparseFromIgnoresExcluded(all, rects, rects2, excl, x, left, right, top, bottom, k + 1, acc');
    }
  }

  /**
   * An excluded item's own cells and footprint do not influence `getItems`:
   * moving it, or taking it out of the table, leaves the answer unchanged.
   */
  lemma ItemsInIgnoresExcluded<T>(sparse: bool, g: Grid<T>, g2: Grid<T>, all: seq<T>, rects: map<T, Rect>, rects2: map<T, Rect>,
                                        row: int, col: int, sizeX: int, sizeY: int, excl: seq<T>, x: T)
    requires x in excl && SameCellsExcept(g, g2, x) && SameFootprintsExcept(rects, rects2, x)
    ensures ItemsIn(sparse, g, all, rects, row, col, sizeX, sizeY, excl) == ItemsIn(sparse, g2, all, rects2, row, col, sizeX, sizeY, excl)
  {
    var (sx, sy) := QuerySize(sizeX, sizeY);
    if sparse {
      SparseFromIgnoresExcluded(all, rects, rects2, excl, x, col, col + sx - 1, row, row + sy - 1, 0, []);
    } else {
      DenseFromIgnoresExcluded(g, g2, rects, rects2, excl, x, row, col, sx, sy, 0, 0, []);
    }
  }

  /**
   * A target with nothing in the way stays so while the item being placed
   * leaves its old cell and changes its own footprint: `putItem` then finds
   * nothing to push.
   */
  lemma FreeStaysFree<T>(sparse: bool, g: Grid<T>, g2: Grid<T>, all: seq<T>, rects: map<T, Rect>, rects2: map<T, Rect>,
                               x: T, row: int, col: int, sizeX: int, sizeY: int, ignore: seq<T>, cleared: bool, a: int, b: int)
    requires x !in ignore && ItemsIn(sparse, g, all, rects, row, col, sizeX, sizeY, ignore + [x]) == []
    requires g2 == (if cleared then ClearCell(g, a, b) else g)
    requires cleared ==> At(g, a, b) == Some(x)
    requires SameFootprintsExcept(rects, rects2, x)
    ensures ItemsIn(sparse, g2, all, rects2, row, col, sizeX, sizeY, IgnoreWith(ignore, x)) == []
  {
    assert SameCellsExcept(g, g2, x) by {
      forall i, j ensures Visible(g, i, j, x) == Visible(g2, i, j, x) {
      }
    }
    ItemsInIgnoresExcluded(sparse, g, g2, all, rects, rects2, row, col, sizeX, sizeY, ignore + [x], x);
  }

  // ---------------------------------------------------------------------
  // List helpers used by the placement code
  // ---------------------------------------------------------------------

  /** `list.splice(list.indexOf(x), 1)` when x is present; the list itself otherwise. */
  function RemoveFirst<T(==)>(s: seq<T>, x: T): seq<T> {
    if s == [] then []
    else if s[0] == x then s[1..]
    else [s[0]] + RemoveFirst(s[1..], x)
  }

  /**
   * Removing the first occurrence keeps every other element, drops x
   * entirely from a duplicate-free list, and keeps the list duplicate-free.
   */
  lemma {:induction false} RemoveFirstSpec<T>(s: seq<T>, x: T)
    ensures forall y :: y != x ==> (y in RemoveFirst(s, x) <==> y in s)
    ensures x in s ==> |RemoveFirst(s, x)| == |s| - 1
    ensures x !in s ==> RemoveFirst(s, x) == s
    ensures NoDup(s) ==> NoDup(RemoveFirst(s, x)) && x !in RemoveFirst(s, x)
  {
    if s != [] && s[0] != x {
      RemoveFirstSpec(s[1..], x);
      var r := RemoveFirst(s[1..], x);
      assert RemoveFirst(s, x) == [s[0]] + r;
      if NoDup(s) {
        assert NoDup(s[1..]);
        assert s[0] !in s[1..];
        assert s[0] !in r;
      }
    } else if s != [] {
      if NoDup(s) {
        assert s[0] !in s[1..];
      }
    }
  }

  /**
   * Index of the topmost item strictly above `bound`, as the "resolve above"
   * branch of `moveOverlappingItems` picks it: filter the rows below `bound`,
   * sort them in descending order (a stable sort), take the first. So: the
   * first index whose row is the largest row smaller than `bound`.
   */
  function TopBelow(rows: seq<int>, bound: int): (r: Option<nat>)
    ensures r.Some? ==>
      && r.value < |rows| && rows[r.value] < bound
      && (forall j :: 0 <= j < |rows| && rows[j] < bound ==> rows[j] <= rows[r.value])
      && (forall j :: 0 <= j < r.value && rows[j] < bound ==> rows[j] < rows[r.value])
    ensures r.None? <==> forall j :: 0 <= j < |rows| ==> rows[j] >= bound
  {
    if rows == [] then None
    else
      var rest := TopBelow(rows[1..], bound);
      if rows[0] < bound && (rest.None? || rows[0] >= rows[1..][rest.value]) then Some(0)
      else if rest.Some? then Some(rest.value + 1)
      else None
  }

  /**
   * Insertion of a keyed element: it goes before the first element
   * whose key is not smaller.
   */
  function InsertByKey<T>(p: (int, T), s: seq<(int, T)>): seq<(int, T)> {
    if s == [] || p.0 <= s[0].0 then [p] + s
    else [s[0]] + InsertByKey(p, s[1..])
  }

  /** `items.sort((a, b) => a.row - b.row)`, as an insertion sort by key. */
  function SortByKey<T>(s: seq<(int, T)>): seq<(int, T)> {
    if s == [] then [] else InsertByKey(s[0], SortByKey(s[1..]))
  }

  predicate SortedByKey<T>(s: seq<(int, T)>) {
    forall i, j :: 0 <= i < j < |s| ==> s[i].0 <= s[j].0
  }

  lemma {:induction false} InsertByKeyPerm<T>(p: (int, T), s: seq<(int, T)>)
    ensures multiset(InsertByKey(p, s)) == multiset(s) + multiset{p}
    ensures |InsertByKey(p, s)| == |s| + 1
  {
    if s != [] && p.0 > s[0].0 {
      InsertByKeyPerm(p, s[1..]);
      assert InsertByKey(p, s) == [s[0]] + InsertByKey(p, s[1..]);
      assert s == [s[0]] + s[1..];
    }
  }

  lemma {:induction false} InsertByKeySorted<T>(p: (int, T), s: seq<(int, T)>)
    requires SortedByKey(s)
    ensures SortedByKey(InsertByKey(p, s))
    ensures |InsertByKey(p, s)| > 0 && (InsertByKey(p, s)[0] == p || (s != [] && InsertByKey(p, s)[0] == s[0]))
  {
    if s == [] || p.0 <= s[0].0 {
      var r := [p] + s;
      forall i, j | 0 <= i < j < |r| ensures r[i].0 <= r[j].0 {
        if i == 0 {
          assert r[j] == s[j - 1];
          assert s[0].0 <= s[j - 1].0;
        } else {
          assert r[i] == s[i - 1] && r[j] == s[j - 1];
        }
      }
    } else {
      InsertByKeySorted(p, s[1..]);
      var t := InsertByKey(p, s[1..]);
      var r := [s[0]] + t;
      assert InsertByKey(p, s) == r;
      assert s[0].0 <= t[0].0;
      forall i, j | 0 <= i < j < |r| ensures r[i].0 <= r[j].0 {
        if i == 0 {
          assert r[j] == t[j - 1];
          assert t[0].0 <= t[j - 1].0;
        } else {
          assert r[i] == t[i - 1] && r[j] == t[j - 1];
        }
      }
    }
  }

  /** The values of a keyed list, in order. */
  function Values<T>(ps: seq<(int, T)>): (r: seq<T>)
    ensures |r| == |ps| && forall k :: 0 <= k < |ps| ==> r[k] == ps[k].1
  {
    if ps == [] then [] else [ps[0].1] + Values(ps[1..])
  }

  lemma {:induction false} InsertByKeyValues<T>(p: (int, T), s: seq<(int, T)>)
    ensures multiset(Values(InsertByKey(p, s))) == multiset(Values(s)) + multiset{p.1}
  {
    if s != [] && p.0 > s[0].0 {
      InsertByKeyValues(p, s[1..]);
      assert InsertByKey(p, s) == [s[0]] + InsertByKey(p, s[1..]);
      assert Values([s[0]] + InsertByKey(p, s[1..])) == [s[0].1] + Values(InsertByKey(p, s[1..]));
      assert Values(s) == [s[0].1] + Values(s[1..]);
    } else {
      assert Values([p] + s) == [p.1] + Values(s);
    }
  }

  /** Sorting moves the values around without adding or dropping any. */
  lemma {:induction false} SortByKeyValues<T>(s: seq<(int, T)>)
    ensures multiset(Values(SortByKey(s))) == multiset(Values(s))
  {
    if s != [] {
      SortByKeyValues(s[1..]);
      InsertByKeyValues(s[0], SortByKey(s[1..]));
      assert Values(s) == [s[0].1] + Values(s[1..]);
    }
  }

  /** The sort returns its input in ascending key order, as a permutation. */
  lemma {:induction false} SortByKeySpec<T>(s: seq<(int, T)>)
    ensures SortedByKey(SortByKey(s))
    ensures multiset(SortByKey(s)) == multiset(s)
    ensures |SortByKey(s)| == |s|
  {
    if s != [] {
      var rest := SortByKey(s[1..]);
      SortByKeySpec(s[1..]);
      assert SortByKey(s) == InsertByKey(s[0], rest);
      InsertByKeyPerm(s[0], rest);
      InsertByKeySorted(s[0], rest);
      assert s == [s[0]] + s[1..];
      assert multiset(s) == multiset(s[1..]) + multiset{s[0]};
    }
  }

  // ---------------------------------------------------------------------
  // Removing an item from the table (removeItem)
  // ---------------------------------------------------------------------

  /** `row.indexOf(x)` over the indices [j, len) of one row. */
  function IndexOf<T(==)>(m: map<int, T>, x: T, len: int, j: int): (r: Option<int>)
    ensures r.Some? ==>
      && j <= r.value < len && r.value in m && m[r.value] == x
      && forall k :: j <= k < r.value && k in m ==> m[k] != x
    ensures r.None? ==> forall k :: j <= k < len && k in m ==> m[k] != x
    decreases len - j
  {
    if j >= len then None
    else if j in m && m[j] == x then Some(j)
    else IndexOf(m, x, len, j + 1)
  }

  /** The length of row i of the table as a JavaScript array (0 when the row is missing). */
  function Len(lens: map<int, int>, i: int): int {
    if i in lens then lens[i] else 0
  }

  /**
   * The cell `removeItem` clears: scanning rows from `i` upward, the first
   * row in which `indexOf` (over the row's own length) finds x, at the index
   * found.
   */
  function FirstCellFrom<T(==)>(g: Grid<T>, lens: map<int, int>, x: T, rows: int, i: int): Option<(int, int)>
    decreases rows - i
  {
    if i >= rows then None
    else if i in g && IndexOf(g[i], x, Len(lens, i), 0).Some? then Some((i, IndexOf(g[i], x, Len(lens, i), 0).value))
    else FirstCellFrom(g, lens, x, rows, i + 1)
  }

  /** Cell (a, b) holds x inside the scanned range: rows [i, rows), each up to its length. */
  predicate HoldsIn<T(==)>(g: Grid<T>, lens: map<int, int>, x: T, rows: int, i: int, a: int, b: int) {
    i <= a < rows && 0 <= b < Len(lens, a) && At(g, a, b) == Some(x)
  }

  /**
   * The cell found holds x and nothing earlier in row-major order does;
   * nothing is found only when x is nowhere in the scanned range.
   */
  lemma {:induction false} FirstCellSpec<T>(g: Grid<T>, lens: map<int, int>, x: T, rows: int, i: int)
    ensures var r := FirstCellFrom(g, lens, x, rows, i);
      && (r.None? <==> forall a, b :: !HoldsIn(g, lens, x, rows, i, a, b))
      && (r.Some? ==>
            && HoldsIn(g, lens, x, rows, i, r.value.0, r.value.1)
            && forall a, b :: HoldsIn(g, lens, x, rows, i, a, b) ==> a > r.value.0 || (a == r.value.0 && b >= r.value.1))
    decreases rows - i
  {
    if i >= rows {
    } else if i in g && IndexOf(g[i], x, Len(lens, i), 0).Some? {
      var j0 := IndexOf(g[i], x, Len(lens, i), 0).value;
      assert HoldsIn(g, lens, x, rows, i, i, j0);
      forall a, b | HoldsIn(g, lens, x, rows, i, a, b) ensures a > i || (a == i && b >= j0) {
      }
    } else {
      var i1 := i + 1;
      FirstCellSpec(g, lens, x, rows, i1);
      assert forall a, b :: HoldsIn(g, lens, x, rows, i, a, b) <==> HoldsIn(g, lens, x, rows, i1, a, b);
      var r := FirstCellFrom(g, lens, x, rows, i);
      assert r == FirstCellFrom(g, lens, x, rows, i1);
      if r.Some? {
        assert HoldsIn(g, lens, x, rows, i, r.value.0, r.value.1);
      }
    }
  }

  /** The table with one cell cleared. */
  function ClearCell<T>(g: Grid<T>, a: int, b: int): (g2: Grid<T>)
    ensures forall i, j :: At(g2, i, j) == if (i, j) == (a, b) then None else At(g, i, j)
    ensures forall lens, rows :: WellShaped(g, lens, rows) ==> WellShaped(g2, lens, rows)
  {
    if a in g then g[a := g[a] - {b}] else g
  }

  /**
   * Clearing the first cell that holds x removes x from the scanned range
   * when x was stored there at most once, and no other cell changes.
   */
  lemma ClearFirstCellRemoves<T>(g: Grid<T>, lens: map<int, int>, x: T, rows: int)
    requires forall a, b, a2, b2 :: HoldsIn(g, lens, x, rows, 0, a, b) && HoldsIn(g, lens, x, rows, 0, a2, b2) ==> a == a2 && b == b2
    ensures var r := FirstCellFrom(g, lens, x, rows, 0);
      var g2 := if r.Some? then ClearCell(g, r.value.0, r.value.1) else g;
      && (forall a, b :: !HoldsIn(g2, lens, x, rows, 0, a, b))
      && (forall a, b :: r.Some? && (a, b) != r.value ==> At(g2, a, b) == At(g, a, b))
  {
    FirstCellSpec(g, lens, x, rows, 0);
    var r := FirstCellFrom(g, lens, x, rows, 0);
    if r.Some? {
      var g2 := ClearCell(g, r.value.0, r.value.1);
      forall a, b ensures !HoldsIn(g2, lens, x, rows, 0, a, b) {
        if HoldsIn(g2, lens, x, rows, 0, a, b) {
          assert HoldsIn(g, lens, x, rows, 0, a, b);
        }
      }
    }
  }

  // ---------------------------------------------------------------------
  // Exchanging two cells (swapItems)
  // ---------------------------------------------------------------------

  /**
   * `grid[ra][ca] = b; grid[rb][cb] = a`: the two writes of `swapItems`,
   * in order. Both rows must exist.
   */
  function SwapCells<T>(g: Grid<T>, ra: int, ca: int, b: T, rb: int, cb: int, a: T): (g2: Grid<T>)
    requires ra in g && rb in g
    ensures At(g2, rb, cb) == Some(a)
    ensures (ra, ca) != (rb, cb) ==> At(g2, ra, ca) == Some(b)
    ensures forall i, j :: (i, j) != (ra, ca) && (i, j) != (rb, cb) ==> At(g2, i, j) == At(g, i, j)
    ensures g2.Keys == g.Keys
  {
    var g1 := g[ra := g[ra][ca := b]];
    g1[rb := g1[rb][cb := a]]
  }

  /** Swapping two stored items twice puts the table back as it was. */
  lemma SwapTwiceRestores<T>(g: Grid<T>, a: T, ra: int, ca: int, b: T, rb: int, cb: int)
    requires At(g, ra, ca) == Some(a) && At(g, rb, cb) == Some(b)
    ensures var g1 := SwapCells(g, ra, ca, b, rb, cb, a);
      SwapCells(g1, rb, cb, b, ra, ca, a) == g
  {
    var g1 := SwapCells(g, ra, ca, b, rb, cb, a);
    var g2 := SwapCells(g1, rb, cb, b, ra, ca, a);
    assert g2.Keys == g.Keys;
    forall i | i in g ensures g2[i] == g[i] {
      assert g2[i].Keys == g[i].Keys by {
        forall j ensures j in g2[i] <==> j in g[i] {
          if (i, j) == (ra, ca) || (i, j) == (rb, cb) {
          } else {
            assert At(g2, i, j) == At(g1, i, j) == At(g, i, j);
          }
        }
      }
      forall j | j in g[i] ensures g2[i][j] == g[i][j] {
        if (i, j) == (ra, ca) || (i, j) == (rb, cb) {
        } else {
          assert At(g2, i, j) == At(g1, i, j) == At(g, i, j);
        }
      }
    }
  }

  // ---------------------------------------------------------------------
  // Push-down targets (moveItemsDown) and the height clamp (updateHeight)
  // ---------------------------------------------------------------------

  /**
   * The row `moveItemsDown` hands to each item: the item's row shifted by
   * the distance between its column's top row and `newRow`.
   */
  function PushTargets(rows: seq<int>, cols: seq<int>, top: map<int, int>, newRow: int): (r: seq<int>)
    requires |rows| == |cols| && forall k :: 0 <= k < |cols| ==> cols[k] in top
    ensures |r| == |rows|
  {
    if rows == [] then [] else [rows[0] + (newRow - top[cols[0]])] + PushTargets(rows[1..], cols[1..], top, newRow)
  }

  /** The push target of the `k`-th item. */
  lemma {:induction false} PushTargetAt(rows: seq<int>, cols: seq<int>, top: map<int, int>, newRow: int, k: int)
    requires |rows| == |cols| && forall k :: 0 <= k < |cols| ==> cols[k] in top
    requires 0 <= k < |rows|
    ensures PushTargets(rows, cols, top, newRow)[k] == rows[k] + (newRow - top[cols[k]])
    decreases k
  {
    if k > 0 {
      PushTargetAt(rows[1..], cols[1..], top, newRow, k - 1);
    }
  }

  /**
   * `plan` is a push-down plan for items at `rows` in columns `cols`: no
   * target above `newRow`, offsets between items of one column kept, and an
   * item with the smallest row of its column sent to `newRow` exactly.
   */
  ghost predicate PushPlan(rows: seq<int>, cols: seq<int>, plan: seq<int>, newRow: int) {
    && |rows| == |cols| == |plan|
    && (forall k :: 0 <= k < |plan| ==> plan[k] >= newRow)
    && (forall k, l {:trigger plan[k], plan[l]} :: 0 <= k < |plan| && 0 <= l < |plan| && cols[k] == cols[l] ==>
          plan[k] - plan[l] == rows[k] - rows[l])
    && (forall k {:trigger plan[k]} ::
          0 <= k < |plan| && (forall l :: 0 <= l < |plan| && cols[l] == cols[k] ==> rows[k] <= rows[l]) ==>
          plan[k] == newRow)
  }

  /**
   * With `top` holding each column's smallest row, the targets
   * `moveItemsDown` computes form a push-down plan.
   */
  lemma {:induction false} PushKeepsColumnOffsets(rows: seq<int>, cols: seq<int>, top: map<int, int>, newRow: int)
    requires |rows| == |cols|
    requires forall k :: 0 <= k < |cols| ==> cols[k] in top && top[cols[k]] <= rows[k]
    requires forall c :: c in top ==> exists k :: 0 <= k < |cols| && cols[k] == c && rows[k] == top[c]
    ensures PushPlan(rows, cols, PushTargets(rows, cols, top, newRow), newRow)
  {
    var p := PushTargets(rows, cols, top, newRow);
    forall k | 0 <= k < |p| ensures p[k] == rows[k] + (newRow - top[cols[k]]) {
      PushTargetAt(rows, cols, top, newRow, k);
    }
    forall k | 0 <= k < |p| && (forall l :: 0 <= l < |p| && cols[l] == cols[k] ==> rows[k] <= rows[l])
      ensures p[k] == newRow
    {
      var l :| 0 <= l < |cols| && cols[l] == cols[k] && rows[l] == top[cols[k]];
    }
  }

  /**
   * The last line of `updateHeight` compares against `maxRows` but yields
   * the computed maximum in both branches: it caps nothing.
   */
  lemma HeightClampIsIdentity(maxRows: int, maxHeight: int)
    ensures (if maxRows - maxHeight > 0 then Min(maxRows, maxHeight) else Max(maxRows, maxHeight)) == maxHeight
  {
  }
  // ---------------------------------------------------------------------
  // Bounding box of several items (getBoundingBox)
  // ---------------------------------------------------------------------

  /** The running minimum of the top rows, starting from `acc`. */
  function LowRow(rs: seq<Rect>, acc: int): int {
    if rs == [] then acc else LowRow(rs[1..], Min(rs[0].row, acc))
  }

  /** The running minimum of the left columns, starting from `acc`. */
  function LowCol(rs: seq<Rect>, acc: int): int {
    if rs == [] then acc else LowCol(rs[1..], Min(rs[0].col, acc))
  }

  /** The running maximum of the rows just below each item, starting from `acc`. */
  function HighRow(rs: seq<Rect>, acc: int): int {
    if rs == [] then acc else HighRow(rs[1..], Max(rs[0].row + rs[0].sizeY, acc))
  }

  /** The running maximum of the columns just right of each item, starting from `acc`. */
  function HighCol(rs: seq<Rect>, acc: int): int {
    if rs == [] then acc else HighCol(rs[1..], Max(rs[0].col + rs[0].sizeX, acc))
  }

  /** The minimum folds: a lower bound of the start value and of every item's edge, attained by one of them. */
  lemma {:induction false} LowFoldsSpec(rs: seq<Rect>, accRow: int, accCol: int)
    ensures var r := LowRow(rs, accRow);
      && r <= accRow && (forall k :: 0 <= k < |rs| ==> r <= rs[k].row)
      && (r == accRow || exists k :: 0 <= k < |rs| && r == rs[k].row)
    ensures var c := LowCol(rs, accCol);
      && c <= accCol && (forall k :: 0 <= k < |rs| ==> c <= rs[k].col)
      && (c == accCol || exists k :: 0 <= k < |rs| && c == rs[k].col)
  {
    if rs != [] {
      LowFoldsSpec(rs[1..], Min(rs[0].row, accRow), Min(rs[0].col, accCol));
      assert forall k :: 1 <= k < |rs| ==> rs[k] == rs[1..][k - 1];
      var r := LowRow(rs, accRow);
      if r != accRow && r != rs[0].row {
        var k :| 0 <= k < |rs[1..]| && r == rs[1..][k].row;
        assert r == rs[k + 1].row;
      }
      var c := LowCol(rs, accCol);
      if c != accCol && c != rs[0].col {
        var k :| 0 <= k < |rs[1..]| && c == rs[1..][k].col;
        assert c == rs[k + 1].col;
      }
    }
  }

  /** The maximum folds: an upper bound of the start value and of every item's far edge, attained by one of them. */
  lemma {:induction false} HighFoldsSpec(rs: seq<Rect>, accRow: int, accCol: int)
    ensures var r := HighRow(rs, accRow);
      && r >= accRow && (forall k :: 0 <= k < |rs| ==> r >= rs[k].row + rs[k].sizeY)
      && (r == accRow || exists k :: 0 <= k < |rs| && r == rs[k].row + rs[k].sizeY)
    ensures var c := HighCol(rs, accCol);
      && c >= accCol && (forall k :: 0 <= k < |rs| ==> c >= rs[k].col + rs[k].sizeX)
      && (c == accCol || exists k :: 0 <= k < |rs| && c == rs[k].col + rs[k].sizeX)
  {
    if rs != [] {
      HighFoldsSpec(rs[1..], Max(rs[0].row + rs[0].sizeY, accRow), Max(rs[0].col + rs[0].sizeX, accCol));
      assert forall k :: 1 <= k < |rs| ==> rs[k] == rs[1..][k - 1];
      var r := HighRow(rs, accRow);
      if r != accRow && r != rs[0].row + rs[0].sizeY {
        var k :| 0 <= k < |rs[1..]| && r == rs[1..][k].row + rs[1..][k].sizeY;
        assert r == rs[k + 1].row + rs[k + 1].sizeY;
      }
      var c := HighCol(rs, accCol);
      if c != accCol && c != rs[0].col + rs[0].sizeX {
        var k :| 0 <= k < |rs[1..]| && c == rs[1..][k].col + rs[1..][k].sizeX;
        assert c == rs[k + 1].col + rs[k + 1].sizeX;
      }
    }
  }

  /** One step of the four folds, as a loop over the list performs it. */
  lemma FoldsStep(rs: seq<Rect>, i: int, lowRow: int, lowCol: int, highRow: int, highCol: int)
    requires 0 <= i < |rs|
    ensures LowRow(rs[i..], lowRow) == LowRow(rs[i + 1..], Min(rs[i].row, lowRow))
    ensures LowCol(rs[i..], lowCol) == LowCol(rs[i + 1..], Min(rs[i].col, lowCol))
    ensures HighRow(rs[i..], highRow) == HighRow(rs[i + 1..], Max(rs[i].row + rs[i].sizeY, highRow))
    ensures HighCol(rs[i..], highCol) == HighCol(rs[i + 1..], Max(rs[i].col + rs[i].sizeX, highCol))
  {
    assert rs[i..][0] == rs[i];
    assert rs[i..][1..] == rs[i + 1..];
  }

  /** The sentinel the minima start from. */
  const BoxSentinel := 9999

  /**
   * `getBoundingBox`: nothing for no items, the item's own footprint for
   * one item, otherwise the box from the smallest top row and left column
   * (starting from 9999) to the largest bottom and right edges (starting
   * from 0).
   */
  function BoundingBox(rs: seq<Rect>): Option<Rect> {
    if |rs| == 0 then None
    else if |rs| == 1 then Some(rs[0])
    else
      var top := LowRow(rs, BoxSentinel);
      var left := LowCol(rs, BoxSentinel);
      Some(Rect(top, left, HighCol(rs, 0) - left, HighRow(rs, 0) - top))
  }

  /** The box a loop over all of `rs` builds, once each fold has consumed the whole list. */
  lemma BoxFromFolds(rs: seq<Rect>, lowRow: int, lowCol: int, highRow: int, highCol: int)
    requires |rs| >= 2
    requires LowRow(rs[|rs|..], lowRow) == LowRow(rs, BoxSentinel)
    requires LowCol(rs[|rs|..], lowCol) == LowCol(rs, BoxSentinel)
    requires HighRow(rs[|rs|..], highRow) == HighRow(rs, 0)
    requires HighCol(rs[|rs|..], highCol) == HighCol(rs, 0)
    ensures BoundingBox(rs) == Some(Rect(lowRow, lowCol, highCol - lowCol, highRow - lowRow))
  {
    assert rs[|rs|..] == [];
  }

  /**
   * For items that start at or above row 9999 and at or left of column 9999
   * and do not end before row or column 0, the box is the smallest one that
   * covers every cell of every item: each edge is attained by some item.
   */
  lemma BoundingBoxIsTight(rs: seq<Rect>)
    requires |rs| >= 1
    requires forall k :: 0 <= k < |rs| ==> rs[k].row <= BoxSentinel && rs[k].col <= BoxSentinel
    requires forall k :: 0 <= k < |rs| ==> rs[k].row + rs[k].sizeY >= 0 && rs[k].col + rs[k].sizeX >= 0
    ensures BoundingBox(rs).Some?
    ensures var b := BoundingBox(rs).value;
      && (forall k, i, j :: 0 <= k < |rs| && Covers(rs[k], i, j) ==> Covers(b, i, j))
      && (exists k :: 0 <= k < |rs| && rs[k].row == b.row)
      && (exists k :: 0 <= k < |rs| && rs[k].col == b.col)
      && (exists k :: 0 <= k < |rs| && rs[k].row + rs[k].sizeY == b.row + b.sizeY)
      && (exists k :: 0 <= k < |rs| && rs[k].col + rs[k].sizeX == b.col + b.sizeX)
  {
    LowFoldsSpec(rs, BoxSentinel, BoxSentinel);
    HighFoldsSpec(rs, 0, 0);
    if |rs| >= 2 {
      var top := LowRow(rs, BoxSentinel);
      if top == BoxSentinel { assert rs[0].row == BoxSentinel; }
      var left := LowCol(rs, BoxSentinel);
      if left == BoxSentinel { assert rs[0].col == BoxSentinel; }
      var bottom := HighRow(rs, 0);
      if bottom == 0 { assert rs[0].row + rs[0].sizeY == 0; }
      var right := HighCol(rs, 0);
      if right == 0 { assert rs[0].col + rs[0].sizeX == 0; }
    } else {
      assert rs[0].row == BoundingBox(rs).value.row;
    }
  }

  // ---------------------------------------------------------------------
  // The ignore lists of the overlap resolution
  // ---------------------------------------------------------------------

  /**
   * The exclusion list `moveOverlappingItems` builds: the caller's list plus
   * the item, or (when the item is already listed) no list at all, which
   * excludes nothing.
   */
  function IgnoreWith<T(==)>(ignore: seq<T>, x: T): (r: seq<T>)
    ensures x !in ignore ==> x in r && forall y :: y in ignore ==> y in r
    ensures x in ignore ==> r == []
  {
    if x in ignore then [] else ignore + [x]
  }

  // ---------------------------------------------------------------------
  // Margin normalisation (setOptions)
  // ---------------------------------------------------------------------

  /**
   * The margins `setOptions` keeps: [0, 0] unless exactly two are given;
   * otherwise each parsed value, with NaN (None) replaced by 0.
   */
  function NormalMargins(given: Option<seq<Option<int>>>): (r: seq<int>)
    ensures |r| == 2
    ensures given.None? || |given.value| != 2 ==> r == [0, 0]
    ensures given.Some? && |given.value| == 2 ==>
      forall k :: 0 <= k < 2 ==> r[k] == (if given.value[k].Some? then given.value[k].value else 0)
  {
    if given.None? || |given.value| != 2 then [0, 0]
    else seq(2, k requires 0 <= k < 2 => if given.value[k].Some? then given.value[k].value else 0)
  }
}
