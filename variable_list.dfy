/**
 * The variable-height virtual list: a table of row positions that starts from an
 * estimated row height and is corrected row by row as real heights are measured,
 * a binary search from a scroll offset to the first visible row, the window of rows
 * that is mounted, and the choice of strategy for a programmatic jump to a row.
 *
 * Heights and offsets are exact `real`s.
 */
module VariableList {
  import opened Wrappers
  import JsArray

  /** Height every row is assumed to have until it is measured. */
  const EstimatedHeight: real := 80.0
  /** Number of rows mounted from the start index on. */
  const VisibleCount: nat := 10
  /** Measurements closer than this to a measured height are ignored. */
  const Epsilon: real := 0.5
  /** Smart mode scrolls natively when the jump spans at most this many rows. */
  const SmartThreshold: int := 50
  /** Flash mode skips the middle of the animation beyond this distance. */
  const FlashSkipDistance: real := 3000.0

  /** One row of the position table. */
  datatype Entry = Entry(index: int, height: real, top: real, bottom: real, isMeasured: bool)

  function AbsReal(x: real): real { if x < 0.0 then -x else x }

  function Min(x: int, y: int): int { if x < y then x else y }

  function Max(x: int, y: int): int { if x < y then y else x }

  // ---------------------------------------------------------------------------
  // The position table

  /** The table before any measurement: every row at the estimated height. */
  function InitialPositions(count: nat): (t: seq<Entry>)
    ensures |t| == count
  {
    seq(count, i => Entry(i, EstimatedHeight, i as real * EstimatedHeight, (i + 1) as real * EstimatedHeight, false))
  }

  /**
   * The table's invariant: rows are numbered by position, each row's bottom is its top
   * plus its height, the first row starts at 0 and each row starts where the previous ends.
   */
  predicate Chained(t: seq<Entry>) {
    && (|t| > 0 ==> t[0].top == 0.0)
    && (forall i :: 0 <= i < |t| ==> t[i].index == i && t[i].bottom == t[i].top + t[i].height)
    && (forall i :: 0 < i < |t| ==> t[i].top == t[i - 1].bottom)
  }

  /** Height of the scrollable content: the bottom of the last row. */
  function TotalHeight(t: seq<Entry>): real
    requires |t| > 0
  {
    t[|t| - 1].bottom
  }

  /** Sum of all row heights. */
  function SumHeights(t: seq<Entry>): real {
    if |t| == 0 then 0.0 else SumHeights(t[..|t| - 1]) + t[|t| - 1].height
  }

  predicate NonNegativeHeights(t: seq<Entry>) {
    forall i :: 0 <= i < |t| ==> t[i].height >= 0.0
  }

  predicate PositiveHeights(t: seq<Entry>) {
    forall i :: 0 <= i < |t| ==> t[i].height > 0.0
  }

  /** Bottoms never decrease from one row to a later one. */
  predicate Sorted(t: seq<Entry>) {
    forall i, j :: 0 <= i < j < |t| ==> t[i].bottom <= t[j].bottom
  }

  /** Bottoms strictly increase from one row to a later one. */
  predicate StrictlySorted(t: seq<Entry>) {
    forall i, j :: 0 <= i < j < |t| ==> t[i].bottom < t[j].bottom
  }

  lemma InitialPositionsShape(count: nat)
    ensures Chained(InitialPositions(count))
    ensures forall i :: 0 <= i < count ==>
      && InitialPositions(count)[i].height == EstimatedHeight
      && InitialPositions(count)[i].top == i as real * EstimatedHeight
      && !InitialPositions(count)[i].isMeasured
    ensures PositiveHeights(InitialPositions(count))
    ensures count > 0 ==> TotalHeight(InitialPositions(count)) == count as real * EstimatedHeight
  {
  }

  /** In a chained table the total height is the sum of the row heights. */
  lemma {:induction false} ChainedTotal(t: seq<Entry>)
    requires Chained(t) && |t| > 0
    ensures TotalHeight(t) == SumHeights(t)
  {
    var n := |t|;
    if n > 1 {
      var p := t[..n - 1];
      assert Chained(p);
      ChainedTotal(p);
      assert TotalHeight(p) == t[n - 2].bottom;
    } else {
      assert t[..0] == [];
    }
  }

  lemma {:induction false} ChainedOrdered(t: seq<Entry>, i: int, j: int)
    requires Chained(t) && NonNegativeHeights(t)
    requires 0 <= i < j < |t|
    ensures t[i].bottom <= t[j].bottom
    ensures PositiveHeights(t) ==> t[i].bottom < t[j].bottom
  {
    if j > i + 1 {
      ChainedOrdered(t, i, j - 1);
    }
  }

  /** Non-negative heights keep the bottoms sorted, positive heights strictly so. */
  lemma ChainedSorted(t: seq<Entry>)
    requires Chained(t) && NonNegativeHeights(t)
    ensures Sorted(t)
    ensures PositiveHeights(t) ==> StrictlySorted(t)
  {
    forall i, j | 0 <= i < j < |t|
      ensures t[i].bottom <= t[j].bottom
      ensures PositiveHeights(t) ==> t[i].bottom < t[j].bottom
    {
      ChainedOrdered(t, i, j);
    }
  }

  // ---------------------------------------------------------------------------
  // Measuring one row

  /** The measurement of row k at height h is ignored: k is measured and h is within Epsilon. */
  predicate Skips(t: seq<Entry>, k: int, h: real)
    requires 0 <= k < |t|
  {
    t[k].isMeasured && AbsReal(t[k].height - h) < Epsilon
  }

  /** Recompute, from row i to the end, each top from the previous bottom and each bottom from it. */
  function Cascade(t: seq<Entry>, i: int): (r: seq<Entry>)
    requires 1 <= i <= |t|
    ensures |r| == |t|
    decreases |t| - i
  {
    if i == |t| then t
    else
      var top := t[i - 1].bottom;
      Cascade(t[i := t[i].(top := top, bottom := top + t[i].height)], i + 1)
  }

  /** The table after row k reports height h. */
  function Measured(t: seq<Entry>, k: int, h: real): (r: seq<Entry>)
    requires 0 <= k < |t|
    ensures |r| == |t|
  {
    if Skips(t, k, h) then t
    else
      var e := t[k];
      var t1 := t[k := e.(height := h, bottom := e.top + h, isMeasured := true)];
      if h - e.height != 0.0 then Cascade(t1, k + 1) else t1
  }

  lemma {:induction false} CascadeShape(t: seq<Entry>, i: int)
    requires 1 <= i <= |t|
    ensures var r := Cascade(t, i);
      && |r| == |t|
      && (forall j :: 0 <= j < i ==> r[j] == t[j])
      && (forall j :: i <= j < |t| ==>
            && r[j].index == t[j].index && r[j].height == t[j].height
            && r[j].isMeasured == t[j].isMeasured
            && r[j].top == r[j - 1].bottom && r[j].bottom == r[j].top + r[j].height)
    decreases |t| - i
  {
    if i < |t| {
      var top := t[i - 1].bottom;
      var t' := t[i := t[i].(top := top, bottom := top + t[i].height)];
      CascadeShape(t', i + 1);
    }
  }

  /**
   * What a measurement does: a skipped one changes nothing; otherwise row k takes
   * height h, keeps its top, ends at top + h and is marked measured, rows before k are
   * untouched, no other row's height or flag changes, and if the height changed every
   * later row starts at the previous bottom.
   */
  lemma MeasuredShape(t: seq<Entry>, k: int, h: real)
    requires 0 <= k < |t|
    ensures var r := Measured(t, k, h);
      && |r| == |t|
      && (Skips(t, k, h) ==> r == t)
      && (!Skips(t, k, h) ==>
            && r[k] == t[k].(height := h, bottom := t[k].top + h, isMeasured := true)
            && (forall j :: 0 <= j < k ==> r[j] == t[j])
            && (forall j :: k < j < |t| ==>
                  r[j].index == t[j].index && r[j].height == t[j].height && r[j].isMeasured == t[j].isMeasured)
            && (h == t[k].height ==> forall j :: k < j < |t| ==> r[j] == t[j])
            && (h != t[k].height ==> forall j :: k < j < |t| ==>
                  r[j].top == r[j - 1].bottom && r[j].bottom == r[j].top + r[j].height))
  {
    if !Skips(t, k, h) {
      var e := t[k];
      var t1 := t[k := e.(height := h, bottom := e.top + h, isMeasured := true)];
      if h - e.height != 0.0 {
        CascadeShape(t1, k + 1);
      }
    }
  }

  /** Measuring a row twice at the same height: the second measurement changes nothing. */
  lemma MeasureIdempotent(t: seq<Entry>, k: int, h: real)
    requires 0 <= k < |t|
    ensures Measured(Measured(t, k, h), k, h) == Measured(t, k, h)
  {
    MeasuredShape(t, k, h);
  }

  /**
   * Once a measurement has been applied, any later report within Epsilon of it
   * (sub-pixel jitter) is ignored.
   */
  lemma MeasureAbsorbsJitter(t: seq<Entry>, k: int, h: real, h': real)
    requires 0 <= k < |t|
    requires !Skips(t, k, h) && AbsReal(h - h') < Epsilon
    ensures Measured(Measured(t, k, h), k, h') == Measured(t, k, h)
  {
    MeasuredShape(t, k, h);
  }

  lemma {:induction false} SumHeightsUpdate(t: seq<Entry>, r: seq<Entry>, k: int)
    requires |r| == |t| && 0 <= k < |t|
    requires forall j :: 0 <= j < |t| && j != k ==> r[j].height == t[j].height
    ensures SumHeights(r) == SumHeights(t) - t[k].height + r[k].height
  {
    var n := |t|;
    if k == n - 1 {
      SumHeightsSame(t[..n - 1], r[..n - 1]);
    } else {
      SumHeightsUpdate(t[..n - 1], r[..n - 1], k);
    }
  }

  lemma {:induction false} SumHeightsSame(t: seq<Entry>, r: seq<Entry>)
    requires |r| == |t|
    requires forall j :: 0 <= j < |t| ==> r[j].height == t[j].height
    ensures SumHeights(r) == SumHeights(t)
  {
    if |t| > 0 {
      SumHeightsSame(t[..|t| - 1], r[..|r| - 1]);
    }
  }

  /**
   * A measurement keeps the table chained, and the total height moves by exactly
   * the change of the measured row's height.
   */
  lemma MeasuredChained(t: seq<Entry>, k: int, h: real)
    requires Chained(t) && 0 <= k < |t|
    ensures Chained(Measured(t, k, h))
    ensures TotalHeight(Measured(t, k, h)) ==
      TotalHeight(t) + (if Skips(t, k, h) then 0.0 else h - t[k].height)
  {
    var r := Measured(t, k, h);
    MeasuredShape(t, k, h);
    if !Skips(t, k, h) {
      assert Chained(r);
      ChainedTotal(t);
      ChainedTotal(r);
      SumHeightsUpdate(t, r, k);
    }
  }

  /** Measuring with a non-negative (positive) height keeps heights non-negative (positive). */
  lemma MeasuredHeights(t: seq<Entry>, k: int, h: real)
    requires 0 <= k < |t|
    ensures NonNegativeHeights(t) && h >= 0.0 ==> NonNegativeHeights(Measured(t, k, h))
    ensures PositiveHeights(t) && h > 0.0 ==> PositiveHeights(Measured(t, k, h))
  {
    MeasuredShape(t, k, h);
  }

  /** measureItem: the position table is updated in place. */
  method MeasureItem(a: array<Entry>, k: int, h: real)
    requires 0 <= k < a.Length
    modifies a
    ensures a[..] == Measured(old(a[..]), k, h)
  {
    var target := a[k];
    if target.isMeasured && AbsReal(target.height - h) < Epsilon {
      return;
    }
    a[k] := target.(height := h, bottom := target.top + h, isMeasured := true);
    var diff := h - target.height;
    if diff != 0.0 {
      ghost var goal := Cascade(a[..], k + 1);
      var i := k + 1;
      while i < a.Length
        invariant k + 1 <= i <= a.Length
        invariant Cascade(a[..], i) == goal
      {
        ghost var before := a[..];
        a[i] := a[i].(top := a[i - 1].bottom);
        a[i] := a[i].(bottom := a[i].top + a[i].height);
        assert a[..] == before[i := before[i].(top := before[i - 1].bottom, bottom := before[i - 1].bottom + before[i].height)];
        i := i + 1;
      }
    }
  }

  // ---------------------------------------------------------------------------
  // From a scroll offset to the first visible row

  /** Reference definition: the first row whose bottom lies below offset s, or |t| if none. */
  function FirstAbove(t: seq<Entry>, s: real): (r: nat)
    ensures r <= |t|
    ensures forall j :: 0 <= j < r ==> t[j].bottom <= s
    ensures r < |t| ==> s < t[r].bottom
  {
    if |t| == 0 then 0
    else if s < t[0].bottom then 0
    else 1 + FirstAbove(t[1..], s)
  }

  /**
   * What getStartIndex computes on a strictly sorted table: -1 when the offset lies
   * beyond the last bottom, otherwise the first row whose bottom is below the offset
   * (|t| when the offset is exactly the last bottom).
   */
  function StartIndexSpec(t: seq<Entry>, s: real): int {
    if |t| == 0 || t[|t| - 1].bottom < s then -1 else FirstAbove(t, s)
  }

  /** FirstAbove is the only index with its two defining properties. */
  lemma {:induction false} FirstAboveUnique(t: seq<Entry>, s: real, r: nat)
    requires r <= |t|
    requires forall j :: 0 <= j < r ==> t[j].bottom <= s
    requires r < |t| ==> s < t[r].bottom
    ensures FirstAbove(t, s) == r
  {
    if |t| > 0 && r > 0 {
      assert t[0].bottom <= s;
      FirstAboveUnique(t[1..], s, r - 1);
    }
  }

  /** Every row before n ends above the offset. */
  predicate AllBelow(t: seq<Entry>, n: int, s: real) {
    forall j :: 0 <= j < n && j < |t| ==> t[j].bottom < s
  }

  /** Every row from n on ends below the offset. */
  predicate AllAbove(t: seq<Entry>, n: int, s: real) {
    forall j :: 0 <= n <= j < |t| ==> s < t[j].bottom
  }

  /** On sorted bottoms, a row ending above the offset takes all rows before it along. */
  lemma ExtendBelow(t: seq<Entry>, start: nat, mid: nat, s: real)
    requires Sorted(t) && AllBelow(t, start, s) && start <= mid < |t| && t[mid].bottom < s
    ensures AllBelow(t, mid + 1, s)
  {
  }

  /** On sorted bottoms, a row ending below the offset takes all rows after it along. */
  lemma ExtendAbove(t: seq<Entry>, mid: nat, end: int, s: real)
    requires Sorted(t) && AllAbove(t, end + 1, s) && mid <= end < |t| && s < t[mid].bottom
    ensures AllAbove(t, mid, s)
  {
  }

  /**
   * What getStartIndex promises on sorted bottoms: -1 exactly when every row ends above
   * the offset; otherwise either an exact hit on the bottom of row r - 1, or the first row
   * r that ends below the offset.
   */
  predicate StartIndexOk(t: seq<Entry>, s: real, r: int) {
    && (r == -1 <==> AllBelow(t, |t|, s))
    && (r != -1 ==>
          || (0 < r <= |t| && t[r - 1].bottom == s)
          || (0 <= r < |t| && s < t[r].bottom && AllBelow(t, r, s)))
  }

  /** The exact-hit shortcut: the row after the hit. */
  lemma ExactHit(t: seq<Entry>, mid: nat, s: real)
    requires mid < |t| && t[mid].bottom == s
    ensures StartIndexOk(t, s, mid + 1)
    ensures StrictlySorted(t) ==> StartIndexSpec(t, s) == mid + 1
  {
    if StrictlySorted(t) {
      assert t[|t| - 1].bottom >= s;
      FirstAboveUnique(t, s, mid + 1);
    }
  }

  /** Where the search ends: the boundary k between rows above and rows below the offset. */
  lemma SearchBoundary(t: seq<Entry>, k: nat, s: real)
    requires k <= |t| && AllBelow(t, k, s) && AllAbove(t, k, s)
    ensures StartIndexOk(t, s, if k == |t| then -1 else k)
    ensures StartIndexSpec(t, s) == if k == |t| then -1 else k
  {
    if k < |t| {
      FirstAboveUnique(t, s, k);
    }
  }

  /** getStartIndex: binary search over the bottoms, with an exact-hit shortcut. */
  method GetStartIndex(a: array<Entry>, scrollTop: real) returns (r: int)
    ensures -1 <= r <= a.Length
    ensures Sorted(a[..]) ==> StartIndexOk(a[..], scrollTop, r)
    ensures StrictlySorted(a[..]) ==> r == StartIndexSpec(a[..], scrollTop)
  {
    ghost var t := a[..];
    ghost var sorted := Sorted(t);
    var start, end := 0, a.Length - 1;
    var tempIndex := -1;
    while start <= end
      invariant 0 <= start <= end + 1 <= a.Length
      invariant tempIndex == -1 ==> end == a.Length - 1
      invariant tempIndex != -1 ==> tempIndex == end + 1 && tempIndex < a.Length
      invariant sorted ==> AllBelow(t, start, scrollTop) && AllAbove(t, end + 1, scrollTop)
    {
      var mid := (start + end) / 2;
      var midVal := a[mid].bottom;
      if midVal == scrollTop {
        ExactHit(t, mid, scrollTop);
        return mid + 1;
      } else if midVal < scrollTop {
        if sorted {
          ExtendBelow(t, start, mid, scrollTop);
        }
        start := mid + 1;
      } else {
        if sorted {
          ExtendAbove(t, mid, end, scrollTop);
        }
        if tempIndex == -1 || tempIndex > mid {
          tempIndex := mid;
        }
        end := mid - 1;
      }
    }
    if sorted {
      SearchBoundary(t, start, scrollTop);
    }
    return tempIndex;
  }

  /** The offset at which row 50 starts in a fresh table of 1000 rows resolves to row 50. */
  lemma StartIndexAtRowBoundary()
    ensures StartIndexSpec(InitialPositions(1000), 4000.0) == 50
  {
    var t := InitialPositions(1000);
    FirstAboveUnique(t, 4000.0, 50);
  }

  /** An offset equal to the total height resolves to the row count, one past the last row. */
  lemma StartIndexAtTotalHeight()
    ensures StartIndexSpec(InitialPositions(5), 400.0) == 5
  {
    var t := InitialPositions(5);
    FirstAboveUnique(t, 400.0, 5);
  }

  /** Offsets inside a fresh five-row table: a row boundary belongs to the row below it. */
  lemma StartIndexOnFiveRows()
    ensures var t := InitialPositions(5);
      && StartIndexSpec(t, 0.0) == 0 && StartIndexSpec(t, 80.0) == 1
      && StartIndexSpec(t, 81.0) == 1 && StartIndexSpec(t, 399.0) == 4
      && StartIndexSpec(t, 401.0) == -1
  {
    var t := InitialPositions(5);
    FirstAboveUnique(t, 0.0, 0);
    FirstAboveUnique(t, 80.0, 1);
    FirstAboveUnique(t, 81.0, 1);
    FirstAboveUnique(t, 399.0, 4);
  }

  /** The window of mounted rows: listData.slice(startIndex, min(startIndex + 10, count)). */
  function VisibleWindow(startIndex: int, count: nat): (w: JsArray.Range)
    ensures w.lo <= w.hi <= count
    ensures w.hi - w.lo <= VisibleCount
    ensures 0 <= startIndex <= count ==> w == JsArray.Range(startIndex, Min(startIndex + VisibleCount, count))
    // getStartIndex answers -1 past the total height: slice(-1, min(9, count)) then mounts
    // only the last row when fewer than ten rows exist, and nothing otherwise
    ensures startIndex == -1 && count == 0 ==> w == JsArray.Range(0, 0)
    ensures startIndex == -1 && 0 < count < VisibleCount ==> w == JsArray.Range(count - 1, count)
    ensures startIndex == -1 && count >= VisibleCount ==> w == JsArray.Range(count - 1, count - 1)
  {
    var endIndex := Min(startIndex + VisibleCount, count);
    JsArray.SliceRange(count, startIndex, endIndex)
  }

  // ---------------------------------------------------------------------------
  // Jumping to a row

  /** What the jump box or a button asks for; NotANumber is what parseInt makes of other text. */
  datatype Target = Top | Bottom | Index(n: int) | NotANumber

  datatype Mode = Smart | Native | Blur | Flash

  datatype Strategy = NativeSmooth | BlurTeleport | FlashSkip(distance: real, skipMiddle: bool)

  /** One programmatic navigation: where it goes, from where, and how. */
  datatype Session = Session(targetIndex: int, targetTop: real, startTop: real, startIndex: int, strategy: Strategy)

  /** The row a target names, clamped into [0, count - 1]; None for a non-numeric target. */
  function ResolveTarget(target: Target, count: nat): (r: Option<int>)
    ensures r.None? <==> target.NotANumber?
    ensures r.Some? && count > 0 ==> 0 <= r.value < count
    ensures target.Top? ==> r == Some(0)
    ensures target.Bottom? && count > 0 ==> r == Some(count - 1)
    ensures target.Index? && 0 <= target.n < count ==> r == Some(target.n)
    ensures target.Index? && target.n < 0 ==> r == Some(0)
    ensures target.Index? && count > 0 && target.n >= count ==> r == Some(count - 1)
  {
    var raw := match target
      case Top => Some(0)
      case Bottom => Some(count - 1)
      case Index(n) => Some(n)
      case NotANumber => None;
    match raw
    case None => None
    case Some(i) => Some(Max(0, Min(i, count - 1)))
  }

  /** The strategy a mode picks for a jump from row `startIndex` to row `targetIndex`. */
  function ChooseStrategy(mode: Mode, targetIndex: int, startIndex: int, startTop: real, targetTop: real): (r: Strategy)
    ensures r.NativeSmooth? <==> mode.Native? || (mode.Smart? && -SmartThreshold <= targetIndex - startIndex <= SmartThreshold)
    ensures r.BlurTeleport? <==> mode.Blur? || (mode.Smart? && !(-SmartThreshold <= targetIndex - startIndex <= SmartThreshold))
    ensures r.FlashSkip? <==> mode.Flash?
    ensures r.FlashSkip? ==> r.distance == targetTop - startTop && (r.skipMiddle <==> AbsReal(r.distance) > FlashSkipDistance)
  {
    match mode
    case Smart =>
      var indexDiff := if targetIndex < startIndex then startIndex - targetIndex else targetIndex - startIndex;
      if indexDiff <= SmartThreshold then NativeSmooth else BlurTeleport
    case Native => NativeSmooth
    case Blur => BlurTeleport
    case Flash =>
      var distance := targetTop - startTop;
      FlashSkip(distance, AbsReal(distance) > FlashSkipDistance)
  }

  /** Smart mode behaves as Native mode for near jumps and as Blur mode for far ones. */
  lemma SmartDelegates(targetIndex: int, startIndex: int, startTop: real, targetTop: real)
    ensures var near := -SmartThreshold <= targetIndex - startIndex <= SmartThreshold;
      ChooseStrategy(Smart, targetIndex, startIndex, startTop, targetTop)
        == ChooseStrategy(if near then Native else Blur, targetIndex, startIndex, startTop, targetTop)
  {
  }

  /** A jump from row 50 to row 900 in smart mode is far, so it teleports behind a blur. */
  lemma SmartFarJump(startTop: real, targetTop: real)
    ensures ChooseStrategy(Smart, 900, 50, startTop, targetTop) == BlurTeleport
  {
  }

  /**
   * handleScrollTo: nothing happens before the container is mounted (`container` is its
   * current scroll offset) or for a non-numeric target; otherwise the target row is
   * resolved, its top read from the table, the current row found by GetStartIndex and a
   * strategy chosen.
   */
  method HandleScrollTo(a: array<Entry>, target: Target, mode: Mode, container: Option<real>)
    returns (session: Option<Session>)
    requires a.Length > 0
    ensures session.None? <==> container.None? || target.NotANumber?
    ensures session.Some? ==>
      var s := session.value;
      && Some(s.targetIndex) == ResolveTarget(target, a.Length)
      && 0 <= s.targetIndex < a.Length
      && s.targetTop == a[s.targetIndex].top
      && s.startTop == container.value
      && -1 <= s.startIndex <= a.Length
      && (Sorted(a[..]) ==> StartIndexOk(a[..], s.startTop, s.startIndex))
      && (StrictlySorted(a[..]) ==> s.startIndex == StartIndexSpec(a[..], s.startTop))
      && s.strategy == ChooseStrategy(mode, s.targetIndex, s.startIndex, s.startTop, s.targetTop)
  {
    if container.None? {
      return None;
    }
    var resolved := ResolveTarget(target, a.Length);
    if resolved.None? {
      return None;
    }
    var targetIndex := resolved.value;
    var targetScrollTop := a[targetIndex].top;
    var currentScrollTop := container.value;
    var currentIndex := GetStartIndex(a, currentScrollTop);
    var strategy := ChooseStrategy(mode, targetIndex, currentIndex, currentScrollTop, targetScrollTop);
    return Some(Session(targetIndex, targetScrollTop, currentScrollTop, currentIndex, strategy));
  }
}
