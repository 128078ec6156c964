/**
 * The fixed-height virtual list: every row is 50 pixels high, a phantom element as tall as
 * all rows gives the scroll bar its range, and only the 12 rows from the first one the
 * scroll offset reaches are rendered, shifted down to where they belong.
 */
module VirtualList {
  import opened Wrappers
  import JsArray

  /** ITEM_HEIGHT. */
  const ItemHeight: nat := 50
  /** VISIBLE_COUNT: ten rows fill the 500-pixel container, two more avoid blank edges. */
  const VisibleCount: nat := 12
  /** TOTAL_COUNT, the length of listData. */
  const TotalCount: nat := 10000

  function Min(x: int, y: int): int { if x < y then x else y }

  /** totalHeight: the height of the phantom element, the stacked heights of all rows. */
  function TotalHeight(count: nat): (h: nat)
    ensures count > 0 ==> h == TotalHeight(count - 1) + ItemHeight
    ensures count == 0 ==> h == 0
  {
    count * ItemHeight
  }

  /** Math.floor(scrollTop / ITEM_HEIGHT): the row under the top edge of the container. */
  function StartIndexAt(scrollTop: real): (r: int)
    ensures (r * ItemHeight) as real <= scrollTop < ((r + 1) * ItemHeight) as real
    ensures scrollTop >= 0.0 ==> r >= 0
  {
    (scrollTop / ItemHeight as real).Floor
  }

  /** onScroll: the new start index to store, or None when it has not changed. */
  function OnScroll(startIndex: int, scrollTop: real): (r: Option<int>)
    ensures r == None <==> StartIndexAt(scrollTop) == startIndex
    ensures r.Some? ==> r.value == StartIndexAt(scrollTop)
  {
    var currentStartIndex := StartIndexAt(scrollTop);
    if currentStartIndex != startIndex then Some(currentStartIndex) else None
  }

  /** endIndex: Math.min(startIndex + VISIBLE_COUNT, listData.length). */
  function EndIndex(startIndex: int, count: nat): (e: int)
    ensures e <= count && e <= startIndex + VisibleCount
    ensures e == count || e == startIndex + VisibleCount
  {
    Min(startIndex + VisibleCount, count)
  }

  /** visibleData: listData.slice(startIndex, endIndex), as the range of rows it copies. */
  function VisibleRange(startIndex: int, count: nat): (w: JsArray.Range)
    ensures w.lo <= w.hi <= count
    ensures w.hi - w.lo <= VisibleCount
    ensures 0 <= startIndex && startIndex + VisibleCount <= count ==>
      w == JsArray.Range(startIndex, startIndex + VisibleCount)
    ensures 0 <= startIndex <= count ==> w == JsArray.Range(startIndex, EndIndex(startIndex, count))
  {
    JsArray.SliceRange(count, startIndex, EndIndex(startIndex, count))
  }

  /** offsetY: the translation that puts the first rendered row at its place in the list. */
  function OffsetY(startIndex: int): int {
    startIndex * ItemHeight
  }

  /** The first rendered row starts at or above the top edge, less than one row above it. */
  lemma OffsetCoversTop(scrollTop: real)
    ensures var y := OffsetY(StartIndexAt(scrollTop)) as real; y <= scrollTop < y + ItemHeight as real
  {
  }

  /**
   * An offset inside the list puts the start index on a row of the list, so the window is
   * not empty and its rows, shifted by offsetY, lie inside the phantom element.
   */
  lemma WindowInsideList(scrollTop: real, count: nat)
    requires 0.0 <= scrollTop < TotalHeight(count) as real
    ensures var s := StartIndexAt(scrollTop); var w := VisibleRange(s, count);
      && 0 <= s < count
      && w.lo == s && w.lo < w.hi
      && OffsetY(s) + (w.hi - w.lo) * ItemHeight <= TotalHeight(count)
  {
    var s := StartIndexAt(scrollTop);
    var w := VisibleRange(s, count);
    assert OffsetY(s) + (w.hi - w.lo) * ItemHeight == w.hi * ItemHeight;
    assert w.hi * ItemHeight <= count * ItemHeight;
  }
}
