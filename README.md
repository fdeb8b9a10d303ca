# angular-gridster's placement engine, in Dafny

This project models the core of angular-gridster, a widget grid: the grid
controller (`GridsterCtrl`) and the sizing rules of the item controller
(`GridsterItemCtrl`), both in `src/angular-gridster.js`.

The grid controller keeps the following state:

- **The occupancy table.** `grid[row][col]` holds an item only at that item's
  top-left cell.
- **The registry.** `allItems` lists the registered items; sparse mode uses it.
- **The flags.** `loaded`, `movingOrResizingItem` and the pending-layout flag.
- **The grid height.**

It answers these queries:

- `getItem`: which item covers a cell.
- `getItems`: which items meet a rectangle.
- `intersect`, `getBoundingBox` and `canItemOccupy`.

It changes the layout through these operations:

- `putItem`, with bounds clamping and a short-circuit when the item is already
  in place.
- Push-down overlap resolution: `moveOverlappingItems` → `moveItemsDown` →
  `moveItemDown` → `putItem`.
- `autoSetItemPosition`, which places an item at the first free cell.
- `swapItems`, `floatItemUp` / `floatItemsUp`, `removeItem`, `updateHeight`,
  and the deferred `layoutChanged` pass.

The item controller turns a stored size into an effective size:

- The number of cells, or `'auto'` (follow the content).
- The result is clamped to the columns and to the limits by `setSize`.

The project has three modules, one file each:

- **`GridModel`** (`grid_model.dfy`): pure definitions over values, generic in
  the item type.
  - The table is a `map<int, map<int, T>>`, since JavaScript arrays are sparse.
  - It holds the specification functions of the queries (`ItemAt`, `ItemsIn`,
    `BoundingBox`) with their lemmas.
  - It also holds the table edits (`StoreCell`, `ClearCell`, `SwapCells`) and
    the list helpers.
- **`GridsterItem`** (`gridster_item.dfy`): the class `GridItem`, with the
  fields the source updates in place. It also holds the `setSize` value
  pipeline, one function per stage.
- **`GridsterEngine`** (`gridster_engine.dfy`): the class `Gridster`.
  - It holds the table, the row lengths, the table length and the registry as
    fields that its methods reassign.
  - The queries are methods proved equal to the `GridModel` functions.
  - The mutators are methods with `modifies` clauses.
  - A ghost set `items` is the footprint of every item ever stored. It
    keeps items that `RemoveItem` took out of the table and the registry.
  - `Valid()` ties the table and the registry to `items`, and keeps the table
    shaped like JavaScript arrays.

Every method of the placement chain (`PutItem` down to `StoreAndFloat`, the
push and float methods) writes only the table, the registry, the pending
flag with its delta, and the position fields and flags of items. The grid
height, the margins and every item size stay as they were. A layout pass
scheduled along the way carries `ScheduledDelta` of the state the call
started in, and one already pending keeps its delta.

The mutual recursion between placement and overlap resolution carries an
explicit `fuel` parameter. At fuel 0, overlap resolution and float-up are
skipped.

## Model

| member | source | states |
|---|---|---|
| GridModel.ClampFits | src/angular-gridster.js:378-382 | `Clamp`, the position putItem uses, always lets an item no larger than the grid fit; a fitting request is kept; a coordinate already in range is not moved |
| GridModel.CanOccupyIffInside | src/angular-gridster.js:165-167 | canItemOccupy (`CanOccupy`, and `Gridster.CanItemOccupy` over the grid's options) holds for an item of at least one cell exactly when every cell it covers lies inside [0,maxRows)×[0,columns) |
| GridModel.IntersectIffSharedCell | src/angular-gridster.js:278-283 | `intersect` (`Intersect`): for a non-empty footprint and box, the inclusive-edge test holds exactly when they share a cell |
| GridModel.StoreCell | src/angular-gridster.js:406-409 | `grid[row][col] = item` changes that one cell only, creates the row when missing, grows the JavaScript lengths and keeps the table well shaped |
| GridModel.StoreCellStoredIn | src/angular-gridster.js:406-409 | storing a registered item keeps every stored item registered |
| GridModel.ItemAtFromFirstHit | src/angular-gridster.js:327-344 | the scan resumed at any cell returns null iff no remaining cell qualifies, otherwise the item at the first qualifying cell in scan order |
| GridModel.ItemAtIsFirstHit | src/angular-gridster.js:322-345 | getItem (`ItemAt`) returns an item stored at an origin (a, b) with a ≤ row, b ≤ col, not excluded, whose sizes reach (row, col), and no earlier cell in the scan qualifies; it returns null iff no cell qualifies |
| GridModel.ItemAtFromAdmissible | src/angular-gridster.js:333-336 | the item returned is never excluded |
| GridModel.ItemAtCovers | src/angular-gridster.js:322-345 | when items sit at their own origins, the item returned covers the queried cell |
| GridModel.DenseFromMembers | src/angular-gridster.js:208-216 | the dense loop yields no duplicates and no excluded item, and yields exactly the items getItem reports at the cells still to be probed, plus those already collected |
| GridModel.SparseFromMembers | src/angular-gridster.js:217-226 | the sparse loop yields no duplicates and no excluded item, and yields exactly the remaining registered items that intersect the box, plus those already collected |
| GridModel.ItemsInWellFormed | src/angular-gridster.js:199-228 | getItems never returns an excluded item or the same item twice |
| GridModel.DenseItemsExact | src/angular-gridster.js:199-216 | getItems (`ItemsIn`) in dense mode returns x iff getItem reports x at some cell of the rectangle, with a zero size treated as 1×1 |
| GridModel.SparseItemsExact | src/angular-gridster.js:199-228 | getItems (`ItemsIn`) in sparse mode returns x iff x is registered, not excluded and intersects [row,row+sy)×[col,col+sx), with a zero size treated as 1×1 |
| GridModel.HitIgnoresExcluded | src/angular-gridster.js:333-336 | the cell test of getItem does not depend on an excluded item's cells or footprint |
| GridModel.ItemAtFromIgnoresExcluded | src/angular-gridster.js:322-345 | getItem's answer does not depend on an excluded item's cells or footprint |
| GridModel.DenseFromIgnoresExcluded | src/angular-gridster.js:208-216 | the dense getItems loop does not depend on an excluded item's cells or footprint |
| GridModel.SparseFromIgnoresExcluded | src/angular-gridster.js:217-226 | the sparse getItems loop does not depend on an excluded item's footprint |
| GridModel.ItemsInIgnoresExcluded | src/angular-gridster.js:199-228 | moving an excluded item, or taking it out of the table, leaves getItems' answer unchanged |
| GridModel.FreeStaysFree | src/angular-gridster.js:394-404 | when nothing is in the item's way at the target, nothing is there after putItem removes the item from its old cell and moves it, so moveOverlappingItems finds nothing to push |
| GridModel.RemoveFirstSpec | src/angular-gridster.js:304-309 | `splice(indexOf(x), 1)` keeps every other element, drops one occurrence of x, leaves a list without x alone and keeps a duplicate-free list duplicate-free |
| GridModel.TopBelow | src/angular-gridster.js:467-471 | the item chosen by filter-then-sort-descending is strictly above the bound and has the largest such row (the first in list order on ties); none is chosen iff no row is above the bound |
| GridModel.InsertByKeyPerm | src/angular-gridster.js:501-503 | one insertion step of the row sort adds exactly the inserted element |
| GridModel.InsertByKeySorted | src/angular-gridster.js:501-503 | one insertion step keeps the list sorted by row |
| GridModel.SortByKeyValues | src/angular-gridster.js:501-503 | sorting by row neither adds nor drops an item |
| GridModel.SortByKeySpec | src/angular-gridster.js:501-503 | `sort((a, b) => a.row - b.row)` yields its input in ascending row order, as a permutation |
| GridModel.IndexOf | src/angular-gridster.js:298 | `row.indexOf(x)` is the first index below the row length that holds x, or none when no index holds x |
| GridModel.FirstCellSpec | src/angular-gridster.js:292-303 | the cell removeItem clears is the first cell in row-major order, within each row's length, that holds x; there is none iff x is stored nowhere in that range |
| GridModel.ClearCell | src/angular-gridster.js:300 | clearing a cell empties that one cell and keeps the table well shaped |
| GridModel.ClearFirstCellRemoves | src/angular-gridster.js:291-300 | for an item stored at most once, removeItem leaves it stored nowhere, and no other cell changes |
| GridModel.SwapCells | src/angular-gridster.js:429-430 | the two writes of swapItems put a at b's cell and, unless the cells coincide, b at a's cell; no other cell changes |
| GridModel.SwapTwiceRestores | src/angular-gridster.js:428-430 | swapping two stored items twice restores the table |
| GridModel.PushKeepsColumnOffsets | src/angular-gridster.js:510-523 | with `top` holding each column's smallest row, the targets `row + (newRow - top[col])` form a push-down plan (`PushPlan`): none above newRow, offsets inside a column kept, and an item with its column's smallest row sent to newRow exactly |
| GridModel.PushTargetAt | src/angular-gridster.js:518-521 | the k-th push target (`PushTargets`) is the k-th row moved by its column's distance to newRow, `row + (newRow - top[col])` |
| GridModel.HeightClampIsIdentity | src/angular-gridster.js:629 | the closing comparison of updateHeight yields the measured maximum in both branches |
| GridModel.LowFoldsSpec | src/angular-gridster.js:253-259 | the running minima of top rows and left columns bound the start value and every item, and are attained by one of them |
| GridModel.HighFoldsSpec | src/angular-gridster.js:253-259 | the running maxima of bottom and right edges bound the start value and every item, and are attained by one of them |
| GridModel.FoldsStep | src/angular-gridster.js:255-258 | one loop iteration advances all four folds by one item |
| GridModel.BoxFromFolds | src/angular-gridster.js:249-266 | once the folds have consumed every item, the box built from them is getBoundingBox's answer |
| GridModel.BoundingBoxIsTight | src/angular-gridster.js:234-267 | for items within the 9999 sentinel, the bounding box (`BoundingBox`) covers every cell of every item, and each of its four edges is an edge of some item |
| GridModel.IgnoreWith | src/angular-gridster.js:448-455 | the exclusion list is the caller's list plus the item, or no list (excluding nothing) when the item was already listed |
| GridModel.NormalMargins | src/angular-gridster.js:144-153 | margins other than two values become [0, 0]; two values are kept, with NaN becoming 0 |
| GridsterItem.Resolve | src/angular-gridster.js:1083-1086 | an 'auto' size is the content size; a number stays unless the content needs more, so the result is the larger of the two |
| GridsterItem.Requested | src/angular-gridster.js:991-1006 | 'auto' gives the content size; NaN or 0 gives the default; either way a larger content size wins |
| GridsterItem.FitColumns | src/angular-gridster.js:1008-1010 | on the X axis the width is cut to `columns - col` exactly when the item would end past the last column, and is untouched when it fits; the Y axis is untouched |
| GridsterItem.UpperBound | src/angular-gridster.js:1012-1018 | the maximum is at most the extent and each set maximum, and equals one of them |
| GridsterItem.LowerBound | src/angular-gridster.js:1025-1031 | the minimum is at least 0 and each set minimum, and equals one of them |
| GridsterItem.ClampInto | src/angular-gridster.js:1033 | `max(min(v, hi), lo)` is at least lo, at most hi when lo ≤ hi, v itself when v is in range, hi when v is above a non-empty range, and lo when v is below lo or the range is empty |
| GridsterItem.Change | src/angular-gridster.js:1035-1038 | the change is new value minus stored size; when that is 0 or NaN and a previous value exists, it is new value minus previous value; otherwise NaN for an 'auto' size |
| GridsterItem.GridItem.SizeY | src/angular-gridster.js:1083-1086 | getSizeY is the content height for an 'auto' size and the larger of the stored height and the content height for a number |
| GridsterItem.GridItem.SizeXAt | src/angular-gridster.js:1095-1105 | getSizeX (`SizeX` is `SizeXAt` at the item's own column) equals the resolved width wherever it fits, and is cut to `columns - col` exactly where it would end past the last column |
| GridsterItem.GridItem.SetSize | src/angular-gridster.js:983-1050 | '' changes nothing; otherwise the clamped value becomes the last computed size, is stored unless the input was 'auto', and the reported change is against the stored size (or the last computed one); the other axis and the position are untouched |
| GridsterItem.WidthStableWhereItFits | src/angular-gridster.js:1095-1105 | the width getSizeX gives does not change with the column as long as the item fits there |
| GridsterItem.SummaryDeterminesFootprint | src/angular-gridster.js:953-960 | two items with equal toJSON summaries (`ToJson`, whose row and col are null until the item is placed) and content sizes are both placed or both not, and when placed occupy the same cells |
| GridsterItem.NewSizeWithinLimits | src/angular-gridster.js:999-1033 | the size setSize stores (`GridItem.NewSize`) respects every set minimum; when the limits leave a non-empty range, it respects the maxima and the extent; on the X axis it keeps the item inside the columns |
| GridsterEngine.ColumnTops | src/angular-gridster.js:510-516 | every listed column maps to the smallest row listed for it, and no other column has an entry |
| GridsterEngine.SortedByRow | src/angular-gridster.js:501-503 | `sort((a, b) => a.row - b.row)` yields its input, as a permutation, in ascending row order |
| GridsterEngine.SortedKeysAreRows | src/angular-gridster.js:501-503 | keying the items by row loses none, and sorting the keyed list keeps each key equal to its item's row, so ordering by key is ordering by row |
| GridsterEngine.Gridster.SetMargins | src/angular-gridster.js:144-153 | the margins become the normalised margins; no other field of the controller, and no item, changes |
| GridsterEngine.Gridster.GetItem | src/angular-gridster.js:322-345 | the scan loops return exactly `ItemAt` of the current table and footprints |
| GridsterEngine.Gridster.GetItems | src/angular-gridster.js:199-228 | a zero size is read as 1×1, and the mode then picks the loop; the answer is exactly `ItemsIn` of the current state |
| GridsterEngine.Gridster.DenseItems | src/angular-gridster.js:208-216 | the nested cell loops return exactly what the dense specification (`DenseFrom`) gives from the first cell, that is `ItemsIn` in dense mode |
| GridsterEngine.Gridster.SparseItems | src/angular-gridster.js:217-226 | the registry loop returns exactly what the sparse specification (`SparseFrom`) gives from the first entry, that is `ItemsIn` in sparse mode |
| GridsterEngine.Gridster.GetBoundingBox | src/angular-gridster.js:234-267 | the loop returns exactly `BoundingBox` of the items' footprints |
| GridsterEngine.Gridster.Footprints | src/angular-gridster.js:240-245 | each item's footprint, in order |
| GridsterEngine.Gridster.LayoutChanged | src/angular-gridster.js:74-78 | the pass is marked pending; an already pending pass keeps its delta |
| GridsterEngine.Gridster.RunLayoutCallback | src/angular-gridster.js:79-88 | the deferred pass leaves the grid height at the maximum for the scheduled delta and clears the pending flag; without a loaded grid or with floating off no item, cell or registry entry changes; on a loaded grid where every item lies inside, every item stays inside, none moves down and none changes column; the margins and options are untouched |
| GridsterEngine.Gridster.FinishLayoutPass | src/angular-gridster.js:83-87 | `updateHeight(heightDelta)` sets the height to the maximum for that delta, then the pending flag is cleared |
| GridsterEngine.Gridster.MeasureHeight | src/angular-gridster.js:603-628 | the result is minRows or the largest bottom edge plus delta over stored items, whichever is larger, with only the given item's term reduced for a negative delta |
| GridsterEngine.Gridster.UpdateHeight | src/angular-gridster.js:602-630 | gridHeight becomes that maximum; nothing else changes |
| GridsterEngine.Gridster.PutItemAt | src/angular-gridster.js:378-420 | the item ends in the table footprint at the clamped target, stored there unless it is being dragged, and the registry only grows; when it was already settled there, only its row, col and placed flag are set and nothing else changes; otherwise a layout pass is pending with the delta `ScheduledDelta` gave on entry (the one already pending, else the dragged item's height, else 0) and, in sparse mode, the item is registered; when the target was free, no other item changes and the item ends at the target column, at the target row with oldRow/oldColumn set to the target (or, while dragged, at or above it) |
| GridsterEngine.Gridster.CommitItem | src/angular-gridster.js:394-419 | after leaving its old cell and committing the new position, the item is stored at the target unless it is being dragged; a layout pass is pending with the delta `ScheduledDelta` gave on entry, the item is registered in sparse mode and the registry only grows; a free target leaves every other item unchanged and the item at the target column, at the target row with oldRow/oldColumn set to it (or at or above it while dragged) |
| GridsterEngine.Gridster.ClearOldCell | src/angular-gridster.js:394-397 | the old cell is cleared exactly when it still holds the item |
| GridsterEngine.Gridster.SetPosition | src/angular-gridster.js:401-402 | row and oldRow become the target row, col and oldColumn the target column; no other item's footprint changes |
| GridsterEngine.Gridster.ResolveAndStore | src/angular-gridster.js:404-419 | overlaps are resolved and the item is stored at the target unless dragged; a layout pass is pending with the delta `ScheduledDelta` gave on entry, the item is registered in sparse mode and the registry only grows; with nothing in the way and a fitting position already taken, no other item changes, and the item does not change at all unless it is dragged (then it only floats up in its column) |
| GridsterEngine.Gridster.StoreAndFloat | src/angular-gridster.js:406-419 | the item is stored at the target and, when not dragged, no item changes; a layout pass is pending with the delta of line 419 (`ScheduledDelta` on entry: the one already pending, else the dragged item's height, else 0), the item is registered in sparse mode and the registry only grows; an item fitting at the target only floats up in its column while dragged, and no other item changes |
| GridsterEngine.Gridster.FloatIfDragged | src/angular-gridster.js:415-417 | only the dragged item floats: for any other item nothing changes; an item inside the grid stays inside, never moves down and keeps its column, and no other item changes |
| GridsterEngine.Gridster.StoreAt | src/angular-gridster.js:406-413 | the target cell holds the item and no other cell changes; in sparse mode the item is appended to the registry unless already there |
| GridsterEngine.Gridster.ResolvedFirst | src/angular-gridster.js:466-473 | the item chosen to be resolved first overlaps the item, starts strictly above it, and has the largest row of those that do; when the grid is loaded and the item is neither dragged nor dropped, none is chosen only when nothing in the way starts above the item |
| GridsterEngine.Gridster.TopOverlapping | src/angular-gridster.js:457-471 | the items found in the way are exactly `Overlap` (getItems over the item's footprint, excluding the ignore list plus the item) and are all stored items; the one picked is `ResolvedFirst` |
| GridsterEngine.Gridster.MoveOverlappingItems | src/angular-gridster.js:447-488 | the branch taken is `ResolvedFirst`: once loaded, for an item neither dragged nor dropped, the lowest overlapping item that starts above it is resolved first and the item is marked rendered; otherwise everything in the way is pushed; with nothing in the way, nothing changes; the registry only grows |
| GridsterEngine.Gridster.ResolveAbove | src/angular-gridster.js:473-483 | after the item above is resolved, the item is marked rendered; the registry only grows and the flags are kept |
| GridsterEngine.Gridster.MoveItemsDown | src/angular-gridster.js:497-525 | the items are visited as a permutation of the list in ascending order of their rows on entry; the planned targets form a push-down plan (`PushPlan`) over those rows and columns; every item still at its entry position on its turn is handed its planned row; an empty list changes nothing |
| GridsterEngine.PlanPush | src/angular-gridster.js:501-516 | the items in the plan are the listed ones, as a permutation, in ascending order of row; every column listed has a top entry; the targets `PushTargets` form a push-down plan (`PushPlan`) over the rows and columns at planning time |
| GridsterEngine.Gridster.PushInOrder | src/angular-gridster.js:518-524 | the second loop of moveItemsDown: an item still at its entry position on its turn is handed `row + (newRow - top[col])`, its entry in `PushTargets`; the registry only grows |
| GridsterEngine.Gridster.MoveItemDown | src/angular-gridster.js:534-543 | an item already at or below newRow is left alone and nothing changes; otherwise it is stored at the clamped position it stepped to unless dragged, and lands exactly there (row, column, oldRow, oldColumn) when that rectangle was free; without nested resolution that position is the clamp of (newRow, its column) |
| GridsterEngine.Gridster.StepDown | src/angular-gridster.js:538-541 | the step loop of moveItemDown: without nested resolution the item ends exactly at newRow, in its column, with its sizes kept; the registry only grows and a pending pass keeps its scheduled delta |
| GridsterEngine.Gridster.LiftTo | src/angular-gridster.js:591-593 | the put at the best row: an item inside the grid whose rectangle at that row (up to its own row) is clear stays inside, ends at or above that row in its column, and no other item changes; when the item is not dragged it lands exactly on that row |
| GridsterEngine.Gridster.FloatItemUp | src/angular-gridster.js:571-594 | with floating off nothing changes; otherwise an item that lies inside the grid stays inside, never moves down, keeps its column, and no other item changes; an item inside the grid and not dragged floats to the most suitable row: every row from where it lands down to where it was is clear of other items, and the row just above where it lands is not (or it reaches row 0) |
| GridsterEngine.Gridster.FloatRow | src/angular-gridster.js:579-590 | the scan upward stops at the first row with something in the way; the best row found is above the item, every row from it up to the item is clear, and the row above it is not; none is found iff the item is in row 0 or the row just above it is not clear |
| GridsterEngine.Gridster.FloatItemsUp | src/angular-gridster.js:548-564 | with floating off nothing changes; when every item lies inside the grid, every item stays inside, none moves down and none changes column |
| GridsterEngine.Gridster.FloatRowItems | src/angular-gridster.js:553-562 | one row of floatItemsUp: when every item lies inside the grid, every item stays inside, none moves down and none changes column |
| GridsterEngine.Gridster.RemoveItem | src/angular-gridster.js:291-312 | the first cell holding the item is cleared; in sparse mode its first registry entry is dropped; a layout pass with no delta is scheduled, and an already pending pass keeps its delta |
| GridsterEngine.Gridster.SwapItems | src/angular-gridster.js:428-438 | the table becomes `SwapCells` of the old table, the two items exchange their positions, and no other field of either item or of the controller changes |
| GridsterEngine.Gridster.WriteCell | src/angular-gridster.js:429-430 | one write `grid[r][c] = x` on an existing row changes that cell only and keeps the table well shaped |
| GridsterEngine.Gridster.FirstFit | src/angular-gridster.js:176-185 | the cell found is the first in row-major order over [0,maxRows)×[0,columns) where nothing else is in the way and the item fits; none is found iff no such cell exists |
| GridsterEngine.Gridster.AutoSetItemPosition | src/angular-gridster.js:174-187 | the item is put at the first fitting cell; when there is none (the error), nothing changes |
| GridsterEngine.Gridster.PutItem | src/angular-gridster.js:367-376 | the call fails exactly when no row is given, the item was never placed and it fits nowhere, and then nothing changes; when a row is given or the item was placed, the requested (or current) position is clamped and committed as by `PutItemAt`: stored there unless dragged; settled ⇒ only row, col and the placed flag are set; otherwise a layout pass is pending and the item is registered in sparse mode; free ⇒ no other item changes and the item lands on the target; only positions and flags of items change, never their sizes |

## Left out

- Browser I/O is left out: touch and pointer handling, dragging, resizing,
  pixel conversion, CSS and element positioning, directives, watchers and
  events. The content size that `getContentSizeX/Y` measures in the page is a
  natural-number field of `GridItem`.
- `$timeout` in `layoutChanged` is left out. The pending pass is a flag plus
  the delta it was scheduled with. `RunLayoutCallback` is the timer body.
  The optional callback argument is not modelled.
- Option merging in `setOptions` (`angular.extend`) is left out. The grid
  options are constants of `Gridster`. Only the margin normalisation is
  modelled.
- `parseInt` on arbitrary strings is left out. `setSize` receives the value
  already classified as empty, 'auto', an integer or NaN.
- The `console.error` call in `updateHeight` is left out. The computation
  around it is modelled.
- `putItems`, `destroy`, `setOptions`' `originalMaxRows` and the
  `swapping`/`pushing` options are left out. They lie outside the placement
  core or are not read by it.
- The `max -= this.cols` / `this.rows` branch of `setSize` is left out. Those
  fields are never assigned in the file, so the branch is dead.
- The `setElementSizeX/Y` call at the end of `setSize` is left out, because it
  only styles the page.
- GridsterEngine.Gridster.PutItemAt: recursion is bounded by `fuel`, and the
  step loop of `moveItemDown` by a budget. At fuel 0, overlap resolution and
  float-up are skipped, so the model agrees with the source only when the
  fuel suffices.
- GridsterEngine.Gridster.PutItemAt: `item.row == row` and
  `oldRow == row` afterwards are proved only when the target was free and
  the item is not being dragged. With items in the way, nested resolution
  can move the item again. In sparse mode the "resolve above" branch can
  even find the item itself, since it is registered. The cell
  `grid[row][col]` holding the item is proved for every item not being
  dragged.
- GridsterEngine.Gridster.MoveItemDown: "ends at or below newRow" is not
  stated, because it does not hold in general. The closing `putItem` clamps
  the item back into the grid, and nested resolution may move it. The
  position it steps to equals the clamp of (newRow, its column) only when
  no nested resolution runs.
- GridsterEngine.Gridster.MoveOverlappingItems: states which branch it
  takes (`ResolvedFirst`) and its no-op case, not the final layout, since
  each push resolves further overlaps. The rows the pushed items are handed
  are stated on `MoveItemsDown`.
- GridsterEngine.Gridster.MoveItemsDown: the planned row is proved to be
  handed to an item only when no earlier push has moved it by its turn. An
  item that an earlier push moved gets `row + (newRow - top[col])` from its
  new row. An item whose column has no entry gets a NaN target in the
  source; then only the closing `putItem` of `moveItemDown` applies, which
  is what the model does.
- GridsterEngine.Gridster.FloatItemsUp: monotonicity across the pass is
  proved when every item lies inside the grid. An item outside the grid is
  clamped by the closing `putItem` and may move down or sideways. That
  items move up "as much as possible" is not stated for the whole pass: each
  visit lands its item on the topmost clear row as `FloatItemUp` states, but
  a later visit can open space above an item floated earlier, and the model
  does not say where every item ends after the pass.
- GridsterEngine.Gridster.FloatRowItems: only monotonicity over the row is
  stated, not the row each visited item reaches. The destination of one
  visit is stated on `FloatItemUp`. A later visit of the same row moves
  another item, which can clear the row above an item floated earlier, so
  "the row above is not clear" is not carried to the end of the row.
- GridsterEngine.Gridster.FloatItemUp: "never moves down" is stated for an
  item that fits where it is. An item outside the grid is clamped by the
  closing `putItem`. The topmost-row landing is stated for an item that is
  not dragged; a dragged item is floated again inside `putItem`, so only
  "at or above the row found" is stated for it.
- GridsterEngine.Gridster.RunLayoutCallback: the float-up guarantees assume
  that every item in `items` lies inside the grid. `items` also holds items
  removed from the table, so one removed item outside the grid voids the
  guarantee for the stored ones.
- GridsterEngine.Gridster.AutoSetItemPosition: landing exactly on the cell
  found is proved when the item's width does not depend on the column. This
  holds when it was measured at a column left of the cell, or when the full
  width fits. Otherwise only "stored at the cell" is proved.
- GridsterEngine.Gridster.SwapItems: requires both items to be placed and
  both their rows to exist in the table. The source throws a TypeError on a
  missing row, and an unplaced item's null row is never a row of the table.
- GridsterItem.GridItem: an unplaced item's null row and column are modelled
  as `placed == false` with `row` and `col` at 0. Where the source does
  arithmetic or comparisons on a null position, JavaScript reads it as 0,
  as the model does. `ToJson` reports None (null) for an unplaced item, as
  `toJSON` does.
- GridModel.BoundingBoxIsTight: tightness is proved for items within the
  9999 sentinel. Beyond it the source reports 9999 as the top row or left
  column.
