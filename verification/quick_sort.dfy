/** `quickSort.steps` (src/utils/algorithms/sorting.js:560-628): Lomuto
    partitioning around the last element of each range, recursing on the
    ranges either side of the placed pivot. Ranges are inclusive
    `[low, high]`, as in the source. */
module QuickSort {
  import opened Steps
  import opened Helpers
  import opened SortFacts

  /** What a quick sort step says. */
  datatype QuickDesc =
    | QuickStart(values: seq<int>)
    | Subarray(low: int, high: int, values: seq<int>)
    | PivotSelect(v: int)
    | ComparePivot(a: int, pivot: int)
    | SwappedPair(a: int, b: int)
    | PivotPlaced(v: int, at: int)

  /** What the partition loop leaves behind: the working array and the
      index `i` of the last element known to be at most the pivot. */
  datatype Cut = Cut(arr: seq<Element>, i: int)

  /** `a` and `b` agree outside the inclusive range `[low, high]`. */
  predicate SameOutside(a: seq<Element>, b: seq<Element>, low: int, high: int)
  {
    |a| == |b| && forall k :: 0 <= k < |a| && (k < low || high < k) ==> a[k] == b[k]
  }

  /** `x` lies on one side of the pivot value `v`: above it, or at most it. */
  predicate OnSide(x: int, v: int, above: bool)
  {
    if above then x > v else x <= v
  }

  /** Every value in the inclusive range `[low, high]` lies on the same
      side of `v`. */
  predicate AllIn(a: seq<Element>, low: int, high: int, v: int, above: bool)
    requires 0 <= low && high < |a|
  {
    forall k :: low <= k <= high ==> OnSide(a[k].value, v, above)
  }

  /** The partition loop from `j` while `j < high`, comparing with the
      pivot value `pv` (the pivot stays at `high` throughout). */
  function PartLoop(a: seq<Element>, low: int, high: int, pv: int, i: int, j: int): (r: Cut)
    requires 0 <= low <= j <= high < |a| && low - 1 <= i < j
    ensures low - 1 <= r.i < high && |r.arr| == |a|
    decreases high - j
  {
    if j == high then Cut(a, i)
    else if a[j].value <= pv then
      if i + 1 != j then PartLoop(Swap(a, i + 1, j), low, high, pv, i + 1, j + 1)
      else PartLoop(a, low, high, pv, i + 1, j + 1)
    else PartLoop(a, low, high, pv, i, j + 1)
  }

  /** `partition(low, high)`: the loop, then the pivot swapped into place
      just after the elements at most it; `r.i` is the pivot's final index. */
  function Partition(a: seq<Element>, low: int, high: int): (r: Cut)
    requires 0 <= low <= high < |a|
    ensures low <= r.i <= high && |r.arr| == |a|
  {
    var c := PartLoop(a, low, high, a[high].value, low - 1, low);
    Cut(Swap(c.arr, c.i + 1, high), c.i + 1)
  }

  /** The partition loop's invariant: the elements at `[low, i]` are at
      most the pivot value and those at `(i, j)` exceed it. */
  predicate Split(a: seq<Element>, low: int, i: int, j: int, pv: int)
    requires 0 <= low && low - 1 <= i < j <= |a|
  {
    && (forall k :: low <= k <= i ==> a[k].value <= pv)
    && (forall k :: i < k < j ==> a[k].value > pv)
  }

  /** The loop only exchanges elements of `[low, high)`. */
  lemma {:induction false} PartLoopFrame(a: seq<Element>, low: int, high: int, pv: int, i: int, j: int)
    requires 0 <= low <= j <= high < |a| && low - 1 <= i < j
    ensures SameOutside(PartLoop(a, low, high, pv, i, j).arr, a, low, high - 1)
    decreases high - j
  {
    if j < high {
      var b := if a[j].value <= pv && i + 1 != j then Swap(a, i + 1, j) else a;
      var i' := if a[j].value <= pv then i + 1 else i;
      PartLoopFrame(b, low, high, pv, i', j + 1);
      var r := PartLoop(a, low, high, pv, i, j).arr;
      assert r == PartLoop(b, low, high, pv, i', j + 1).arr;
      forall k | 0 <= k < |a| && (k < low || high - 1 < k)
        ensures r[k] == a[k]
      {
        assert r[k] == b[k];
      }
    }
  }

  /** The loop only rearranges. */
  lemma {:induction false} PartLoopMultiset(a: seq<Element>, low: int, high: int, pv: int, i: int, j: int)
    requires 0 <= low <= j <= high < |a| && low - 1 <= i < j
    ensures multiset(PartLoop(a, low, high, pv, i, j).arr) == multiset(a)
    decreases high - j
  {
    if j < high {
      var b := if a[j].value <= pv && i + 1 != j then Swap(a, i + 1, j) else a;
      var i' := if a[j].value <= pv then i + 1 else i;
      SwapMultiset(a, i + 1, j);
      PartLoopMultiset(b, low, high, pv, i', j + 1);
      assert PartLoop(a, low, high, pv, i, j) == PartLoop(b, low, high, pv, i', j + 1);
    }
  }

  /** One iteration keeps the invariant. */
  lemma SplitStep(a: seq<Element>, low: int, high: int, pv: int, i: int, j: int)
    requires 0 <= low <= j < high < |a| && low - 1 <= i < j
    requires Split(a, low, i, j, pv)
    ensures a[j].value <= pv && i + 1 != j ==> Split(Swap(a, i + 1, j), low, i + 1, j + 1, pv)
    ensures a[j].value <= pv && i + 1 == j ==> Split(a, low, i + 1, j + 1, pv)
    ensures a[j].value > pv ==> Split(a, low, i, j + 1, pv)
  {
  }

  /** The loop keeps its invariant to the end. */
  lemma {:induction false} PartLoopSplits(a: seq<Element>, low: int, high: int, pv: int, i: int, j: int)
    requires 0 <= low <= j <= high < |a| && low - 1 <= i < j
    requires Split(a, low, i, j, pv)
    ensures Split(PartLoop(a, low, high, pv, i, j).arr, low, PartLoop(a, low, high, pv, i, j).i, high, pv)
    decreases high - j
  {
    if j < high {
      SplitStep(a, low, high, pv, i, j);
      if a[j].value <= pv {
        if i + 1 != j {
          PartLoopSplits(Swap(a, i + 1, j), low, high, pv, i + 1, j + 1);
        } else {
          PartLoopSplits(a, low, high, pv, i + 1, j + 1);
        }
      } else {
        PartLoopSplits(a, low, high, pv, i, j + 1);
      }
    }
  }

  /** The loop only exchanges elements inside the range, so any property
      of every value there still holds afterwards. */
  lemma {:induction false} PartLoopKeeps(a: seq<Element>, low: int, high: int, pv: int, i: int, j: int, v: int, above: bool)
    requires 0 <= low <= j <= high < |a| && low - 1 <= i < j
    requires AllIn(a, low, high, v, above)
    ensures AllIn(PartLoop(a, low, high, pv, i, j).arr, low, high, v, above)
    decreases high - j
  {
    if j < high {
      if a[j].value <= pv {
        if i + 1 != j {
          PartLoopKeeps(Swap(a, i + 1, j), low, high, pv, i + 1, j + 1, v, above);
        } else {
          PartLoopKeeps(a, low, high, pv, i + 1, j + 1, v, above);
        }
      } else {
        PartLoopKeeps(a, low, high, pv, i, j + 1, v, above);
      }
    }
  }

  /** After `partition`, the pivot sits at `p`, everything before it in the
      range is at most its value and everything after it exceeds it. */
  lemma PartitionSplits(a: seq<Element>, low: int, high: int)
    requires 0 <= low <= high < |a|
    ensures Partition(a, low, high).arr[Partition(a, low, high).i] == a[high]
    ensures forall k :: low <= k < Partition(a, low, high).i ==>
      Partition(a, low, high).arr[k].value <= a[high].value
    ensures forall k :: Partition(a, low, high).i < k <= high ==>
      Partition(a, low, high).arr[k].value > a[high].value
  {
    PartLoopSplits(a, low, high, a[high].value, low - 1, low);
    PartLoopFrame(a, low, high, a[high].value, low - 1, low);
  }

  /** `partition` rearranges the array and touches only `[low, high]`. */
  lemma PartitionMultiset(a: seq<Element>, low: int, high: int)
    requires 0 <= low <= high < |a|
    ensures multiset(Partition(a, low, high).arr) == multiset(a)
    ensures SameOutside(Partition(a, low, high).arr, a, low, high)
  {
    var c := PartLoop(a, low, high, a[high].value, low - 1, low);
    PartLoopMultiset(a, low, high, a[high].value, low - 1, low);
    PartLoopFrame(a, low, high, a[high].value, low - 1, low);
    SwapMultiset(c.arr, c.i + 1, high);
  }

  lemma PartitionKeeps(a: seq<Element>, low: int, high: int, v: int, above: bool)
    requires 0 <= low <= high < |a|
    requires AllIn(a, low, high, v, above)
    ensures AllIn(Partition(a, low, high).arr, low, high, v, above)
  {
    PartLoopKeeps(a, low, high, a[high].value, low - 1, low, v, above);
  }

  /** The array `quickSortRecursive(low, high)` leaves behind. The source
      reaches ranges with `high = low - 1` (an empty side of the pivot) and
      `low = high + 1`; both are no-ops. */
  function QuickRange(a: seq<Element>, low: int, high: int): (r: seq<Element>)
    requires 0 <= low <= high + 1 <= |a|
    ensures |r| == |a|
    decreases high - low + 1, 0
  {
    if low < high then Sides(Partition(a, low, high), low, high) else a
  }

  /** Both sides of a placed pivot, sorted in turn. */
  function Sides(c: Cut, low: int, high: int): (r: seq<Element>)
    requires 0 <= low <= c.i <= high < |c.arr|
    ensures |r| == |c.arr|
    decreases high - low, 1
  {
    QuickRange(QuickRange(c.arr, low, c.i - 1), c.i + 1, high)
  }

  /** Sorting a range only rearranges it, so a property of every value in
      it survives. */
  lemma {:induction false} QuickRangeKeeps(a: seq<Element>, low: int, high: int, v: int, above: bool)
    requires 0 <= low <= high + 1 <= |a|
    requires AllIn(a, low, high, v, above)
    ensures AllIn(QuickRange(a, low, high), low, high, v, above)
    decreases high - low + 1, 0
  {
    if low < high {
      var c := Partition(a, low, high);
      QuickRangeSplit(a, low, high);
      PartitionKeeps(a, low, high, v, above);
      SideKeeps(c.arr, low, c.i - 1, low, high, v, above);
      SideKeeps(QuickRange(c.arr, low, c.i - 1), c.i + 1, high, low, high, v, above);
    }
  }

  /** Sorting a sub-range `[lo, hi]` of `[low, high]` keeps a property of
      every value of `[low, high]`. */
  lemma SideKeeps(a: seq<Element>, lo: int, hi: int, low: int, high: int, v: int, above: bool)
    requires 0 <= low <= lo <= hi + 1 <= high + 1 <= |a|
    requires AllIn(a, low, high, v, above)
    ensures AllIn(QuickRange(a, lo, hi), low, high, v, above)
    decreases hi - lo + 1, 1
  {
    QuickRangeKeeps(a, lo, hi, v, above);
    QuickRangeFrame(a, lo, hi);
    var r := QuickRange(a, lo, hi);
    forall k | low <= k <= high
      ensures OnSide(r[k].value, v, above)
    {
      if k < lo || hi < k {
        assert r[k] == a[k];
      }
    }
  }

  /** Sorting a range rearranges the array. */
  lemma {:induction false} QuickRangeMultiset(a: seq<Element>, low: int, high: int)
    requires 0 <= low <= high + 1 <= |a|
    ensures multiset(QuickRange(a, low, high)) == multiset(a)
    decreases high - low + 1
  {
    if low < high {
      var c := Partition(a, low, high);
      var b := QuickRange(c.arr, low, c.i - 1);
      PartitionMultiset(a, low, high);
      QuickRangeMultiset(c.arr, low, c.i - 1);
      QuickRangeMultiset(b, c.i + 1, high);
    }
  }

  /** Sorting a range touches only the range. */
  lemma {:induction false} QuickRangeFrame(a: seq<Element>, low: int, high: int)
    requires 0 <= low <= high + 1 <= |a|
    ensures SameOutside(QuickRange(a, low, high), a, low, high)
    decreases high - low + 1
  {
    if low < high {
      var c := Partition(a, low, high);
      var b := QuickRange(c.arr, low, c.i - 1);
      var r := QuickRange(b, c.i + 1, high);
      assert QuickRange(a, low, high) == r;
      PartitionMultiset(a, low, high);
      QuickRangeFrame(c.arr, low, c.i - 1);
      QuickRangeFrame(b, c.i + 1, high);
      forall k | 0 <= k < |a| && (k < low || high < k)
        ensures r[k] == a[k]
      {
        assert r[k] == b[k] && b[k] == c.arr[k];
      }
    }
  }

  /** The values of `[low, high]` are ascending, neighbour by neighbour. */
  predicate SortedIn(a: seq<Element>, low: int, high: int)
    requires 0 <= low && high < |a|
  {
    forall k :: low <= k < high ==> a[k].value <= a[k + 1].value
  }

  /** `quickSortRecursive(low, high)` leaves the range ascending. */
  lemma {:induction false} QuickRangeSorts(a: seq<Element>, low: int, high: int)
    requires 0 <= low <= high + 1 <= |a|
    ensures SortedIn(QuickRange(a, low, high), low, high)
    decreases high - low + 1, 0
  {
    if low < high {
      PartitionSplits(a, low, high);
      QuickRangeSplit(a, low, high);
      SidesSorted(Partition(a, low, high), low, high, a[high].value);
    }
  }

  /** Sorting both sides of a placed pivot sorts the whole range. */
  lemma SidesSorted(c: Cut, low: int, high: int, pv: int)
    requires 0 <= low <= c.i <= high < |c.arr|
    requires c.arr[c.i].value == pv
    requires AllIn(c.arr, low, c.i - 1, pv, false)
    requires AllIn(c.arr, c.i + 1, high, pv, true)
    ensures SortedIn(QuickRange(QuickRange(c.arr, low, c.i - 1), c.i + 1, high), low, high)
    decreases high - low, 2
  {
    var b := QuickRange(c.arr, low, c.i - 1);
    SideFacts(c.arr, low, c.i - 1, pv, false);
    SideFacts(b, c.i + 1, high, pv, true);
    PivotJoin(c.arr, b, QuickRange(b, c.i + 1, high), low, c.i, high, pv);
  }

  /** Sorting `[lo, hi]` leaves it ascending, on the same side of `v` as
      before, and the rest of the array alone. */
  lemma SideFacts(x: seq<Element>, lo: int, hi: int, v: int, above: bool)
    requires 0 <= lo <= hi + 1 <= |x|
    requires AllIn(x, lo, hi, v, above)
    ensures SortedIn(QuickRange(x, lo, hi), lo, hi)
    ensures AllIn(QuickRange(x, lo, hi), lo, hi, v, above)
    ensures SameOutside(QuickRange(x, lo, hi), x, lo, hi)
    decreases hi - lo + 1, 1
  {
    QuickRangeSorts(x, lo, hi);
    QuickRangeKeeps(x, lo, hi, v, above);
    QuickRangeFrame(x, lo, hi);
  }

  /** A sorted left side at most the pivot, the pivot, and a sorted right
      side above it make a sorted range. */
  lemma PivotJoin(c: seq<Element>, b: seq<Element>, r: seq<Element>, low: int, p: int, high: int, pv: int)
    requires 0 <= low <= p <= high < |c| && SameOutside(b, c, low, p - 1) && SameOutside(r, b, p + 1, high)
    requires c[p].value == pv
    requires SortedIn(b, low, p - 1) && AllIn(b, low, p - 1, pv, false)
    requires SortedIn(r, p + 1, high) && AllIn(r, p + 1, high, pv, true)
    ensures SortedIn(r, low, high)
  {
    forall k | low <= k < high
      ensures r[k].value <= r[k + 1].value
    {
      if k < p {
        assert r[k] == b[k];
        assert r[k + 1] == b[k + 1];
      } else if k == p {
        assert r[k] == b[k] == c[k];
      }
    }
  }

  /** Where a stretch of the partition loop leaves the producer. */
  datatype Part = Part(steps: seq<SortStep<QuickDesc>>, arr: seq<Element>, i: int)

  /** The partition loop with its steps: a comparison step per `j`, and a
      swap step (highlighted as primary, showing the order after the swap)
      only when the exchange moves something. */
  function LoopSteps(a: seq<Element>, low: int, high: int, pivot: Element, i: int, j: int): (r: Part)
    requires 0 <= low <= j <= high < |a| && low - 1 <= i < j
    ensures low - 1 <= r.i < high && |r.arr| == |a|
    decreases high - j
  {
    if j == high then Part([], a, i)
    else
      var compare := Step(a, NoMarks.(primary := [j], secondary := [high]),
                          ComparePivot(a[j].value, pivot.value), NoMeta);
      if a[j].value <= pivot.value then
        if i + 1 != j then
          var b := Swap(a, i + 1, j);
          var swap := Step(b, NoMarks.(primary := [i + 1, j]), SwappedPair(b[i + 1].value, b[j].value), NoMeta);
          var rest := LoopSteps(b, low, high, pivot, i + 1, j + 1);
          rest.(steps := [compare, swap] + rest.steps)
        else
          var rest := LoopSteps(a, low, high, pivot, i + 1, j + 1);
          rest.(steps := [compare] + rest.steps)
      else
        var rest := LoopSteps(a, low, high, pivot, i, j + 1);
        rest.(steps := [compare] + rest.steps)
  }

  /** The loop with steps leaves the array and index of the loop without. */
  lemma {:induction false} LoopStepsCut(a: seq<Element>, low: int, high: int, pivot: Element, i: int, j: int)
    requires 0 <= low <= j <= high < |a| && low - 1 <= i < j
    ensures Cut(LoopSteps(a, low, high, pivot, i, j).arr, LoopSteps(a, low, high, pivot, i, j).i)
         == PartLoop(a, low, high, pivot.value, i, j)
    decreases high - j
  {
    if j < high {
      if a[j].value <= pivot.value {
        if i + 1 != j {
          LoopStepsCut(Swap(a, i + 1, j), low, high, pivot, i + 1, j + 1);
        } else {
          LoopStepsCut(a, low, high, pivot, i + 1, j + 1);
        }
      } else {
        LoopStepsCut(a, low, high, pivot, i, j + 1);
      }
    }
  }

  /** `partition(low, high)` with its steps: the pivot selection, the loop,
      and a success step on the pivot's final index. */
  function PartitionSteps(a: seq<Element>, low: int, high: int): (r: Part)
    requires 0 <= low <= high < |a|
    ensures Cut(r.arr, r.i) == Partition(a, low, high)
    ensures |r.steps| >= 2 && Last(r.steps).snapshot == r.arr
  {
    var pivot := a[high];
    var loop := LoopSteps(a, low, high, pivot, low - 1, low);
    LoopStepsCut(a, low, high, pivot, low - 1, low);
    var p := loop.i + 1;
    var b := Swap(loop.arr, p, high);
    Part([Step(a, NoMarks.(primary := [high]), PivotSelect(pivot.value), NoMeta)] + loop.steps
           + [Step(b, NoMarks.(success := [p]), PivotPlaced(pivot.value, p), NoMeta)], b, p)
  }

  predicate IsComparePivot(d: QuickDesc) { d.ComparePivot? }

  /** The partition loop from `j` shows one comparison with the pivot per
      remaining index. */
  lemma {:induction false} LoopShape(a: seq<Element>, low: int, high: int, pivot: Element, i: int, j: int)
    requires 0 <= low <= j <= high < |a| && low - 1 <= i < j
    ensures Count(LoopSteps(a, low, high, pivot, i, j).steps, IsComparePivot) == high - j
    decreases high - j
  {
    if j < high {
      var r := LoopSteps(a, low, high, pivot, i, j);
      var swaps := a[j].value <= pivot.value && i + 1 != j;
      var b := if swaps then Swap(a, i + 1, j) else a;
      var i' := if a[j].value <= pivot.value then i + 1 else i;
      var rest := LoopSteps(b, low, high, pivot, i', j + 1).steps;
      LoopShape(b, low, high, pivot, i', j + 1);
      var n := if swaps then 2 else 1;
      assert r.steps[n..] == rest;
      assert r.steps[0].desc.ComparePivot? && (n == 2 ==> r.steps[1].desc.SwappedPair?);
      CompareHead(r.steps, n);
    }
  }

  /** A comparison, possibly followed by a swap, in front of a run adds one
      comparison to the run's count. */
  lemma CompareHead(s: seq<SortStep<QuickDesc>>, n: int)
    requires 1 <= n <= 2 && n <= |s|
    requires s[0].desc.ComparePivot? && (n == 2 ==> s[1].desc.SwappedPair?)
    ensures Count(s, IsComparePivot) == 1 + Count(s[n..], IsComparePivot)
  {
    CountHead(s, n, IsComparePivot);
  }

  /** `partition` opens with the pivot selection on `high`, compares every
      other element of the range with the pivot once, and closes with the
      success step on the pivot's final index. */
  lemma PartitionShape(a: seq<Element>, low: int, high: int)
    requires 0 <= low <= high < |a|
    ensures PartitionSteps(a, low, high).steps[0].marks.primary == [high]
    ensures PartitionSteps(a, low, high).steps[0].desc == PivotSelect(a[high].value)
    ensures Last(PartitionSteps(a, low, high).steps).marks.success == [Partition(a, low, high).i]
    ensures Last(PartitionSteps(a, low, high).steps).desc == PivotPlaced(a[high].value, Partition(a, low, high).i)
    ensures Count(PartitionSteps(a, low, high).steps, IsComparePivot) == high - low
  {
    var pivot := a[high];
    var select := Step(a, NoMarks.(primary := [high]), PivotSelect(pivot.value), NoMeta);
    var loop := LoopSteps(a, low, high, pivot, low - 1, low);
    var r := PartitionSteps(a, low, high);
    LoopShape(a, low, high, pivot, low - 1, low);
    CountFront(select, loop.steps, IsComparePivot);
    CountAppend([select] + loop.steps, [Last(r.steps)], IsComparePivot);
    CountFront(Last(r.steps), [], IsComparePivot);
    assert [Last(r.steps)] + [] == [Last(r.steps)];
  }

  /** How a step of `partition(low, high)` is highlighted: a comparison
      marks its index primary and the pivot index `high` secondary; a swap
      marks two distinct indices `i+1 < j` of the range primary (not
      success), over the order after the exchange. */
  predicate LoopMarked(st: SortStep<QuickDesc>, low: int, high: int)
  {
    && (st.desc.ComparePivot? ==>
          && |st.marks.primary| == 1 && low <= st.marks.primary[0] < high
          && st.marks == NoMarks.(primary := st.marks.primary, secondary := [high]))
    && (st.desc.SwappedPair? ==>
          && |st.marks.primary| == 2 && low <= st.marks.primary[0] < st.marks.primary[1] < high
          && st.marks == NoMarks.(primary := st.marks.primary))
  }

  /** Every step of `s` is highlighted as `LoopMarked` says. */
  predicate Marked(s: seq<SortStep<QuickDesc>>, low: int, high: int)
  {
    forall k :: 0 <= k < |s| ==> LoopMarked(s[k], low, high)
  }

  /** The partition loop from `j` highlights each of its steps as its kind
      requires. */
  lemma {:induction false} LoopMarks(a: seq<Element>, low: int, high: int, pivot: Element, i: int, j: int)
    requires 0 <= low <= j <= high < |a| && low - 1 <= i < j
    ensures Marked(LoopSteps(a, low, high, pivot, i, j).steps, low, high)
    decreases high - j
  {
    if j < high {
      var s := LoopSteps(a, low, high, pivot, i, j).steps;
      assert s[0].desc.ComparePivot? && s[0].marks == NoMarks.(primary := [j], secondary := [high]);
      assert LoopMarked(s[0], low, high);
      if a[j].value <= pivot.value && i + 1 != j {
        var rest := LoopSteps(Swap(a, i + 1, j), low, high, pivot, i + 1, j + 1).steps;
        assert s[1].desc.SwappedPair? && s[1].marks == NoMarks.(primary := [i + 1, j]);
        assert LoopMarked(s[1], low, high) && s[2..] == rest;
        LoopMarks(Swap(a, i + 1, j), low, high, pivot, i + 1, j + 1);
        MarkedAfter(s, rest, 2, low, high);
      } else if a[j].value <= pivot.value {
        var rest := LoopSteps(a, low, high, pivot, i + 1, j + 1).steps;
        assert s[1..] == rest;
        LoopMarks(a, low, high, pivot, i + 1, j + 1);
        MarkedAfter(s, rest, 1, low, high);
      } else {
        var rest := LoopSteps(a, low, high, pivot, i, j + 1).steps;
        assert s[1..] == rest;
        LoopMarks(a, low, high, pivot, i, j + 1);
        MarkedAfter(s, rest, 1, low, high);
      }
    }
  }

  /** Marked steps in front of a marked run make a marked run. */
  lemma MarkedAfter(s: seq<SortStep<QuickDesc>>, rest: seq<SortStep<QuickDesc>>, n: int, low: int, high: int)
    requires 0 <= n <= |s| && s[n..] == rest
    requires forall k :: 0 <= k < n ==> LoopMarked(s[k], low, high)
    requires Marked(rest, low, high)
    ensures Marked(s, low, high)
  {
    forall k | n <= k < |s|
      ensures LoopMarked(s[k], low, high)
    {
      assert s[k] == rest[k - n];
    }
  }

  /** Every step of `partition(low, high)` is highlighted as its kind
      requires; the pivot selection and placement are neither kind. */
  lemma PartitionMarks(a: seq<Element>, low: int, high: int)
    requires 0 <= low <= high < |a|
    ensures Marked(PartitionSteps(a, low, high).steps, low, high)
  {
    var s := PartitionSteps(a, low, high).steps;
    var loop := LoopSteps(a, low, high, a[high], low - 1, low).steps;
    LoopMarks(a, low, high, a[high], low - 1, low);
    assert s[0].desc.PivotSelect? && s[|s| - 1].desc.PivotPlaced?;
    forall k | 0 <= k < |s|
      ensures LoopMarked(s[k], low, high)
    {
      if 0 < k < |s| - 1 {
        assert s[k] == loop[k - 1];
      }
    }
  }

  /** `quickSortRecursive(low, high)` with its steps: for a range of at
      least two elements, a step naming the subarray, the partition, then
      both sides. Each side starts from the array the steps before it left,
      which is the step-free array of the same recursion. */
  function RangeSteps(a: seq<Element>, low: int, high: int): (r: seq<SortStep<QuickDesc>>)
    requires 0 <= low <= high + 1 <= |a|
    ensures low < high <==> r != []
    ensures r != [] ==> Last(r).snapshot == QuickRange(a, low, high)
    decreases high - low + 1, 1
  {
    if low < high then SplitSteps(a, low, high, Partition(a, low, high)) else []
  }

  function SplitSteps(a: seq<Element>, low: int, high: int, c: Cut): (r: seq<SortStep<QuickDesc>>)
    requires 0 <= low < high < |a| && c == Partition(a, low, high)
    ensures r != [] && Last(r).snapshot == QuickRange(a, low, high)
    decreases high - low + 1, 0
  {
    SplitLast(a, low, high, c, RangeSteps(c.arr, low, c.i - 1),
              RangeSteps(QuickRange(c.arr, low, c.i - 1), c.i + 1, high));
    SubStep(a, low, high) + PartitionSteps(a, low, high).steps
      + RangeSteps(c.arr, low, c.i - 1) + RangeSteps(QuickRange(c.arr, low, c.i - 1), c.i + 1, high)
  }

  /** The last snapshot of a split range: the partition's array, then each
      side's, where a side without steps leaves the array as it was. */
  lemma SplitLast(a: seq<Element>, low: int, high: int, c: Cut, left: seq<SortStep<QuickDesc>>, right: seq<SortStep<QuickDesc>>)
    requires 0 <= low < high < |a| && c == Partition(a, low, high)
    requires low < c.i - 1 <==> left != []
    requires left != [] ==> Last(left).snapshot == QuickRange(c.arr, low, c.i - 1)
    requires c.i + 1 < high <==> right != []
    requires right != [] ==> Last(right).snapshot == QuickRange(QuickRange(c.arr, low, c.i - 1), c.i + 1, high)
    ensures Last(SubStep(a, low, high) + PartitionSteps(a, low, high).steps + left + right).snapshot
      == QuickRange(a, low, high)
  {
    var front := SubStep(a, low, high) + PartitionSteps(a, low, high).steps;
    var y := QuickRange(c.arr, low, c.i - 1);
    LastAppend(SubStep(a, low, high), PartitionSteps(a, low, high).steps);
    EmptySide(c.arr, low, c.i - 1);
    EmptySide(y, c.i + 1, high);
    QuickRangeSplit(a, low, high);
    LastOfThree(front, left, right, c.arr, y, QuickRange(y, c.i + 1, high));
  }

  /** The step naming the subarray `[low, high]` before it is partitioned. */
  function SubStep(a: seq<Element>, low: int, high: int): (r: seq<SortStep<QuickDesc>>)
    requires 0 <= low <= high < |a|
    ensures |r| == 1 && r[0].snapshot == a && r[0].desc.Subarray?
  {
    [Step(a, NoMarks, Subarray(low, high, Values(a[low..high + 1])), NoMeta)]
  }

  /** The step-free recursion, one level down. */
  lemma QuickRangeSplit(a: seq<Element>, low: int, high: int)
    requires 0 <= low < high < |a|
    ensures QuickRange(a, low, high) == QuickRange(QuickRange(Partition(a, low, high).arr, low, Partition(a, low, high).i - 1),
                                                   Partition(a, low, high).i + 1, high)
  {
    assert QuickRange(a, low, high) == Sides(Partition(a, low, high), low, high);
  }

  /** A range of at most one element is left alone. */
  lemma EmptySide(a: seq<Element>, low: int, high: int)
    requires 0 <= low <= high + 1 <= |a|
    ensures low >= high ==> QuickRange(a, low, high) == a
  {
  }

  /** The last snapshot of three concatenated stretches, where an empty
      stretch leaves the array as it was. */
  lemma LastOfThree<D>(front: seq<SortStep<D>>, left: seq<SortStep<D>>, right: seq<SortStep<D>>,
                       x: seq<Element>, y: seq<Element>, z: seq<Element>)
    requires front != [] && Last(front).snapshot == x
    requires left != [] ==> Last(left).snapshot == y
    requires left == [] ==> y == x
    requires right != [] ==> Last(right).snapshot == z
    requires right == [] ==> z == y
    ensures Last(front + left + right).snapshot == z
  {
    LastAppend(front, left);
    LastAppend(front + left, right);
  }

  /** The quick sort producer: a start step over the input, then the
      recursion on `[0, n-1]`. */
  function QuickSortSteps(a: seq<Element>): (r: seq<SortStep<QuickDesc>>)
    ensures |r| >= 1 && r[0] == Step(a, NoMarks, QuickStart(Values(a)), NoMeta)
    ensures Last(r).snapshot == QuickRange(a, 0, |a| - 1)
  {
    var start := Step(a, NoMarks, QuickStart(Values(a)), NoMeta);
    var run := RangeSteps(a, 0, |a| - 1);
    if |a| >= 2 then
      LastAppend([start], run);
      [start] + run
    else
      [start] + run
  }

  /** The quick sort producer ends on an ascending rearrangement of its
      input. */
  lemma QuickSortSorts(a: seq<Element>)
    ensures Sorted(Last(QuickSortSteps(a)).snapshot)
    ensures multiset(Last(QuickSortSteps(a)).snapshot) == multiset(a)
  {
    QuickRangeSorts(a, 0, |a| - 1);
    QuickRangeMultiset(a, 0, |a| - 1);
    var r := QuickRange(a, 0, |a| - 1);
    forall p, q | 0 <= p < q < |r|
      ensures r[p].value <= r[q].value
    {
      AscendingRun(r, p, q);
    }
  }

  /** Unlike bubble, insertion and merge sort, the quick sort producer is
      not stable: two equal values can end up in the opposite order. */
  lemma QuickSortUnstable()
    ensures var a := [Element(0, 1), Element(1, 1), Element(2, 0)];
      Last(QuickSortSteps(a)).snapshot == [Element(2, 0), Element(1, 1), Element(0, 1)]
  {
  }

  // ---------------------------------------------------------------------
  // Every snapshot has the input's length

  lemma {:induction false} LoopSized(a: seq<Element>, low: int, high: int, pivot: Element, i: int, j: int)
    requires 0 <= low <= j <= high < |a| && low - 1 <= i < j
    ensures Sized(LoopSteps(a, low, high, pivot, i, j).steps, |a|)
    decreases high - j
  {
    if j < high {
      var r := LoopSteps(a, low, high, pivot, i, j).steps;
      if a[j].value <= pivot.value {
        if i + 1 != j {
          var b := Swap(a, i + 1, j);
          LoopSized(b, low, high, pivot, i + 1, j + 1);
          SizedAppend(r[..2], LoopSteps(b, low, high, pivot, i + 1, j + 1).steps, |a|);
          assert r == r[..2] + LoopSteps(b, low, high, pivot, i + 1, j + 1).steps;
        } else {
          LoopSized(a, low, high, pivot, i + 1, j + 1);
          SizedAppend(r[..1], LoopSteps(a, low, high, pivot, i + 1, j + 1).steps, |a|);
          assert r == r[..1] + LoopSteps(a, low, high, pivot, i + 1, j + 1).steps;
        }
      } else {
        LoopSized(a, low, high, pivot, i, j + 1);
        SizedAppend(r[..1], LoopSteps(a, low, high, pivot, i, j + 1).steps, |a|);
        assert r == r[..1] + LoopSteps(a, low, high, pivot, i, j + 1).steps;
      }
    }
  }

  lemma PartitionSized(a: seq<Element>, low: int, high: int)
    requires 0 <= low <= high < |a|
    ensures Sized(PartitionSteps(a, low, high).steps, |a|)
  {
    var r := PartitionSteps(a, low, high).steps;
    var loop := LoopSteps(a, low, high, a[high], low - 1, low);
    LoopSized(a, low, high, a[high], low - 1, low);
    assert r == [r[0]] + loop.steps + [Last(r)];
    SizedAppend([r[0]], loop.steps, |a|);
    SizedAppend([r[0]] + loop.steps, [Last(r)], |a|);
  }

  lemma RangeSized(a: seq<Element>, low: int, high: int)
    requires 0 <= low <= high + 1 <= |a|
    ensures Sized(RangeSteps(a, low, high), |a|)
    decreases high - low + 1, 1
  {
    if low < high {
      SplitSized(a, low, high, Partition(a, low, high));
    }
  }

  lemma SplitSized(a: seq<Element>, low: int, high: int, c: Cut)
    requires 0 <= low < high < |a| && c == Partition(a, low, high)
    ensures Sized(SplitSteps(a, low, high, c), |a|)
    decreases high - low + 1, 0
  {
    var y := QuickRange(c.arr, low, c.i - 1);
    PartitionSized(a, low, high);
    RangeSized(c.arr, low, c.i - 1);
    RangeSized(y, c.i + 1, high);
    SizedFour(SubStep(a, low, high), PartitionSteps(a, low, high).steps,
              RangeSteps(c.arr, low, c.i - 1), RangeSteps(y, c.i + 1, high), |a|);
  }

  /** Every snapshot of the quick sort producer has the input's length. */
  lemma QuickSortSized(a: seq<Element>)
    ensures Sized(QuickSortSteps(a), |a|)
  {
    var run := RangeSteps(a, 0, |a| - 1);
    RangeSized(a, 0, |a| - 1);
    assert QuickSortSteps(a) == [QuickSortSteps(a)[0]] + run;
    SizedAppend([QuickSortSteps(a)[0]], run, |a|);
  }
}
