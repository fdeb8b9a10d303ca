/**
 * The grid item controller: an item's position, its stored sizes, and the
 * rules that turn the stored sizes into the effective number of rows and
 * columns the item occupies.
 *
 * A stored size is either a number of cells or the sentinel 'auto'; the
 * effective size also depends on the content size, the number of cells the
 * item's rendered content needs, which is measured in the page and enters
 * the model as a natural-number field.
 */
module GridsterItem {
  import opened GridModel

  /** A stored size: a number of cells, or 'auto' (follow the content). */
  datatype Size = Fixed(n: int) | Auto

  /** The axis `setSize` acts on: 'x' for columns, 'y' for rows. */
  datatype Axis = X | Y

  /**
   * The value handed to `setSize`: the empty string, the string 'auto', or
   * anything else, seen through `parseInt(value, 10)`, which yields an
   * integer or NaN (`Unparsable`).
   */
  datatype SizeInput = Empty | AutoInput | Number(n: int) | Unparsable

  /** What `setSize` returns: undefined, a signed change, or NaN. */
  datatype SizeChange = Ignored | Changed(delta: int) | NotANumber

  /**
   * The grid-wide settings `setSize` consults. A `maxSize` or `minSize` of 0
   * stands for an unset (falsy) option.
   */
  datatype SizeLimits = SizeLimits(
    columns: int, maxRows: int,
    defaultSizeX: int, defaultSizeY: int,
    minSizeX: int, minSizeY: int, maxSizeX: int, maxSizeY: int)

  /**
   * The effective size for a stored size and a content size: the content
   * size for 'auto', otherwise the stored size unless the content needs more.
   */
  function Resolve(size: Size, content: int): (r: int)
    ensures size.Auto? ==> r == content
    ensures size.Fixed? ==> r >= size.n && r >= content && (r == size.n || r == content)
  {
    if size.Auto? || content > size.n then content else size.n
  }

  // ---------------------------------------------------------------------
  // The value pipeline of setSize, one stage per function
  // ---------------------------------------------------------------------

  /**
   * The requested size: the content size for 'auto'; otherwise the parsed
   * number, with NaN and 0 replaced by the grid default, raised to the
   * content size when the content needs more.
   */
  function Requested(input: SizeInput, content: int, default: int): (r: int)
    requires !input.Empty?
    ensures input.AutoInput? ==> r == content
    ensures input.Number? && input.n != 0 ==> r == Max(input.n, content)
    ensures (input.Unparsable? || input == Number(0)) ==> r == Max(default, content)
  {
    if input.AutoInput? then content
    else
      var v := if input.Unparsable? || input.n == 0 then default else input.n;
      if content > v then content else v
  }

  /** On the X axis an item may not reach past the last column. */
  function FitColumns(axis: Axis, value: int, col: int, columns: int): (r: int)
    ensures axis == X ==> col + r <= columns && r <= value
    ensures axis == X && col + value <= columns ==> r == value
    ensures axis == X && col + value > columns ==> r == columns - col
    ensures axis == Y ==> r == value
  {
    if axis == X && col + value > columns then columns - col else value
  }

  /**
   * The upper bound: the grid extent on that axis, lowered by the item's own
   * maximum and by the grid's maximum when those are set.
   */
  function UpperBound(extent: int, itemMax: int, gridMax: int): (r: int)
    ensures r <= extent
    ensures itemMax != 0 ==> r <= itemMax
    ensures gridMax != 0 ==> r <= gridMax
    ensures r == extent || (itemMax != 0 && r == itemMax) || (gridMax != 0 && r == gridMax)
  {
    var m1 := if itemMax != 0 then Min(itemMax, extent) else extent;
    if gridMax != 0 then Min(gridMax, m1) else m1
  }

  /**
   * The lower bound: 0, raised by the item's own minimum and by the grid's
   * minimum when those are set.
   */
  function LowerBound(itemMin: int, gridMin: int): (r: int)
    ensures r >= 0
    ensures itemMin != 0 ==> r >= itemMin
    ensures gridMin != 0 ==> r >= gridMin
    ensures r == 0 || (itemMin != 0 && r == itemMin) || (gridMin != 0 && r == gridMin)
  {
    var m1 := if itemMin != 0 then Max(itemMin, 0) else 0;
    if gridMin != 0 then Max(gridMin, m1) else m1
  }

  /**
   * `Math.max(Math.min(value, max), min)`: inside [lo, hi] when that range
   * is non-empty, the value itself when it already lies there, and never
   * below `lo` (the minimum wins a conflict).
   */
  function ClampInto(value: int, lo: int, hi: int): (r: int)
    ensures r >= lo
    ensures lo <= hi ==> r <= hi
    ensures lo <= value <= hi ==> r == value
    ensures lo <= hi < value ==> r == hi
    ensures value < lo ==> r == lo
    ensures hi < lo ==> r == lo
  {
    Max(Min(value, hi), lo)
  }

  /** The change `setSize` reports for the new value. */
  function Change(value: int, current: Size, previous: int): (r: SizeChange)
    ensures current.Fixed? && value != current.n ==> r == Changed(value - current.n)
    ensures current.Fixed? && value == current.n ==> r == Changed(if previous != 0 then value - previous else 0)
    ensures current.Auto? ==> r == (if previous != 0 then Changed(value - previous) else NotANumber)
  {
    var first := if current.Fixed? then Changed(value - current.n) else NotANumber;
    var falsy := first == NotANumber || first == Changed(0);
    if falsy && previous != 0 then Changed(value - previous) else first
  }

  /** An item's exported attributes: what `toJSON` returns; the position is None (null) until the item is placed. */
  datatype ItemSummary = ItemSummary(row: Option<int>, col: Option<int>, sizeY: Size, sizeX: Size)

  class GridItem {
    /** Position of the top-left cell; meaningful once `placed` holds. */
    var row: int
    var col: int
    /** False while `row` is still null (the item was never positioned). */
    var placed: bool
    /** The position the item was last committed to by `putItem`. */
    var oldRow: Option<int>
    var oldColumn: int
    var sizeX: Size
    var sizeY: Size
    /** Per-item limits; 0 stands for an unset (falsy) option. */
    var minSizeX: int
    var minSizeY: int
    var maxSizeX: int
    var maxSizeY: int
    /** The last value `setSize` computed; 0 while unset. */
    var oldSizeX: int
    var oldSizeY: int
    /** Cells the rendered content needs, as measured in the page. */
    var contentSizeX: nat
    var contentSizeY: nat
    var isRendered: bool

    /**
     * A new item controller after `init`: no position yet, the grid's
     * default sizes, no maximum and a minimum of 0.
     */
    constructor (defaultSizeX: int, defaultSizeY: int, contentX: nat, contentY: nat)
      ensures !placed && row == 0 && col == 0 && oldRow == None
      ensures sizeX == Fixed(defaultSizeX) && sizeY == Fixed(defaultSizeY)
      ensures minSizeX == 0 && minSizeY == 0 && maxSizeX == 0 && maxSizeY == 0
      ensures oldSizeX == 0 && oldSizeY == 0 && !isRendered
      ensures contentSizeX == contentX && contentSizeY == contentY
    {
      row, col, placed := 0, 0, false;
      oldRow, oldColumn := None, 0;
      sizeX, sizeY := Fixed(defaultSizeX), Fixed(defaultSizeY);
      minSizeX, minSizeY, maxSizeX, maxSizeY := 0, 0, 0, 0;
      oldSizeX, oldSizeY := 0, 0;
      contentSizeX, contentSizeY := contentX, contentY;
      isRendered := false;
    }

    /** `getSizeY`: the stored height resolved against the content height. */
    function SizeY(): (r: int)
      reads this
      ensures r >= contentSizeY
      ensures sizeY.Fixed? ==> r >= sizeY.n
      ensures sizeY.Auto? ==> r == contentSizeY
      ensures sizeY.Fixed? ==> r == Max(sizeY.n, contentSizeY)
    {
      Resolve(sizeY, contentSizeY)
    }

    /**
     * `getSizeX` as it would be with the item's left column at `c`: the
     * resolved width, cut back so the item ends at the last column.
     */
    function SizeXAt(c: int, columns: int): (r: int)
      reads this
      ensures c + r <= columns
      ensures r <= Resolve(sizeX, contentSizeX)
      ensures c + Resolve(sizeX, contentSizeX) <= columns ==> r == Resolve(sizeX, contentSizeX)
      ensures c + Resolve(sizeX, contentSizeX) > columns ==> r == columns - c
    {
      var w := Resolve(sizeX, contentSizeX);
      if c + w > columns then columns - c else w
    }

    /** `getSizeX`: the width at the item's current column. */
    function SizeX(columns: int): int
      reads this
    {
      SizeXAt(col, columns)
    }

    /** The cells the item occupies, with its effective sizes. */
    function Footprint(columns: int): Rect
      reads this
    {
      Rect(row, col, SizeX(columns), SizeY())
    }

    /** `toJSON`: the position and the stored sizes. */
    function ToJson(): ItemSummary
      reads this
    {
      if placed then ItemSummary(Some(row), Some(col), sizeY, sizeX)
      else ItemSummary(None, None, sizeY, sizeX)
    }

    /** The value `setSize` computes for `input`, before it is stored. */
    function NewSize(axis: Axis, input: SizeInput, limits: SizeLimits): int
      requires !input.Empty?
      reads this
    {
      var content := if axis == X then contentSizeX else contentSizeY;
      var default := if axis == X then limits.defaultSizeX else limits.defaultSizeY;
      var v := FitColumns(axis, Requested(input, content, default), col, limits.columns);
      var hi := if axis == X then UpperBound(limits.columns, maxSizeX, limits.maxSizeX)
                else UpperBound(limits.maxRows, maxSizeY, limits.maxSizeY);
      var lo := if axis == X then LowerBound(minSizeX, limits.minSizeX)
                else LowerBound(minSizeY, limits.minSizeY);
      ClampInto(v, lo, hi)
    }

    /**
     * `setSize(key, value)`: ignore the empty string; otherwise compute the
     * new size, record it as the last computed value, store it unless the
     * input was 'auto', and report the change against the stored size (or,
     * when that is unchanged or 'auto', against the last computed value).
     */
    method SetSize(axis: Axis, input: SizeInput, limits: SizeLimits) returns (changed: SizeChange)
      modifies this
      ensures input.Empty? ==> changed == Ignored && unchanged(this)
      ensures !input.Empty? ==>
        var v := old(NewSize(axis, input, limits));
        && (axis == X ==>
              && oldSizeX == v
              && sizeX == (if input.AutoInput? then old(sizeX) else Fixed(v))
              && changed == Change(v, old(sizeX), old(oldSizeX))
              && sizeY == old(sizeY) && oldSizeY == old(oldSizeY))
        && (axis == Y ==>
              && oldSizeY == v
              && sizeY == (if input.AutoInput? then old(sizeY) else Fixed(v))
              && changed == Change(v, old(sizeY), old(oldSizeY))
              && sizeX == old(sizeX) && oldSizeX == old(oldSizeX))
      ensures row == old(row) && col == old(col) && placed == old(placed)
      ensures oldRow == old(oldRow) && oldColumn == old(oldColumn)
      ensures contentSizeX == old(contentSizeX) && contentSizeY == old(contentSizeY)
      ensures minSizeX == old(minSizeX) && minSizeY == old(minSizeY)
      ensures maxSizeX == old(maxSizeX) && maxSizeY == old(maxSizeY)
      ensures isRendered == old(isRendered)
    {
      if input.Empty? {
        return Ignored;
      }
      var value := NewSize(axis, input, limits);
      if axis == X {
        changed := Change(value, sizeX, oldSizeX);
        oldSizeX := value;
        if !input.AutoInput? {
          sizeX := Fixed(value);
        }
      } else {
        changed := Change(value, sizeY, oldSizeY);
        oldSizeY := value;
        if !input.AutoInput? {
          sizeY := Fixed(value);
        }
      }
    }
  }

  /**
   * The width an item gets does not depend on its column as long as it fits
   * there: a column that fits the width measured at `c0`, and is not left of
   * `c0` or has room for the full resolved width, yields the same width.
   */
  lemma WidthStableWhereItFits(x: GridItem, c0: int, c: int, columns: int)
    requires c + x.SizeXAt(c0, columns) <= columns
    requires c0 <= c || c0 + Resolve(x.sizeX, x.contentSizeX) <= columns
    ensures x.SizeXAt(c, columns) == x.SizeXAt(c0, columns)
  {
  }

  /**
   * Two items with the same summary and the same content sizes are both
   * placed or both not, and when placed they occupy the same cells: `toJSON`
   * keeps everything the layout depends on.
   */
  lemma SummaryDeterminesFootprint(a: GridItem, b: GridItem, columns: int)
    requires a.ToJson() == b.ToJson()
    requires a.contentSizeX == b.contentSizeX && a.contentSizeY == b.contentSizeY
    ensures a.placed == b.placed
    ensures a.placed ==> a.Footprint(columns) == b.Footprint(columns)
  {
  }

  /**
   * Whatever the limits, a size `setSize` stores respects the item's and the
   * grid's minimum; when the limits leave a non-empty range it also respects
   * the maxima and the grid extent; on the X axis, when the minimum allows
   * it, the item ends at or before the last column.
   */
  lemma NewSizeWithinLimits(x: GridItem, axis: Axis, input: SizeInput, limits: SizeLimits)
    requires !input.Empty?
    ensures var v := x.NewSize(axis, input, limits);
      var lo := if axis == X then LowerBound(x.minSizeX, limits.minSizeX) else LowerBound(x.minSizeY, limits.minSizeY);
      var hi := if axis == X then UpperBound(limits.columns, x.maxSizeX, limits.maxSizeX)
                else UpperBound(limits.maxRows, x.maxSizeY, limits.maxSizeY);
      && v >= 0
      && (axis == X && x.minSizeX != 0 ==> v >= x.minSizeX)
      && (axis == X && limits.minSizeX != 0 ==> v >= limits.minSizeX)
      && (axis == Y && x.minSizeY != 0 ==> v >= x.minSizeY)
      && (axis == Y && limits.minSizeY != 0 ==> v >= limits.minSizeY)
      && (lo <= hi ==> v <= hi && (axis == X ==> v <= limits.columns) && (axis == Y ==> v <= limits.maxRows))
      && (lo <= hi && axis == X && x.col + lo <= limits.columns ==> x.col + v <= limits.columns)
  {
  }
}
