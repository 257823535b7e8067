/** `mergeSort.steps` (src/utils/algorithms/sorting.js:440-521): top-down
    merge sort on half-open ranges of one working array, merging each pair
    of sorted runs into place. */
module MergeSort {
  import opened Steps
  import opened Helpers
  import opened SortFacts

  /** What a merge sort step says. */
  datatype MergeDesc =
    | MergeStart(values: seq<int>)
    | Dividing(from: int, to: int)
    | MergingRuns(leftRun: seq<int>, rightRun: seq<int>)
    | CompareRuns(a: int, b: int)
    | Merged(values: seq<int>)

  /** The `merge` loops: take from the left run while its head is not
      greater than the right run's head, then append what remains. */
  function Merge(left: seq<Element>, right: seq<Element>): (r: seq<Element>)
    ensures |r| == |left| + |right|
    decreases |left| + |right|
  {
    if left == [] then right
    else if right == [] then left
    else if left[0].value <= right[0].value then [left[0]] + Merge(left[1..], right)
    else [right[0]] + Merge(left, right[1..])
  }

  /** Merging keeps every element of both runs. */
  lemma {:induction false} MergeMultiset(left: seq<Element>, right: seq<Element>)
    ensures multiset(Merge(left, right)) == multiset(left) + multiset(right)
    decreases |left| + |right|
  {
    if left != [] && right != [] {
      if left[0].value <= right[0].value {
        assert left == [left[0]] + left[1..];
        MergeMultiset(left[1..], right);
      } else {
        assert right == [right[0]] + right[1..];
        MergeMultiset(left, right[1..]);
      }
    }
  }

  /** A sorted sequence whose first value exceeds `v` holds nothing of value `v`. */
  lemma AboveHasNone(s: seq<Element>, v: int)
    requires Sorted(s) && s != [] && s[0].value > v
    ensures Filter(s, v) == []
  {
    if Filter(s, v) != [] {
      FilterWitness(s, v);
      assert false;
    }
  }

  /** Merging two sorted runs gives a sorted run. */
  lemma {:induction false} MergeSorted(left: seq<Element>, right: seq<Element>)
    requires Sorted(left) && Sorted(right)
    ensures Sorted(Merge(left, right))
    ensures |Merge(left, right)| > 0 ==>
      Merge(left, right)[0] == (if left == [] then right[0]
                                else if right == [] || left[0].value <= right[0].value then left[0]
                                else right[0])
    decreases |left| + |right|
  {
    if left != [] && right != [] {
      var m := Merge(left, right);
      if left[0].value <= right[0].value {
        MergeSorted(left[1..], right);
        var rest := Merge(left[1..], right);
        assert m == [left[0]] + rest;
        forall p, q | 0 <= p < q < |m|
          ensures m[p].value <= m[q].value
        {
          if p == 0 {
            assert m[q] == rest[q - 1];
            assert rest[0].value <= m[q].value || q == 1;
          }
        }
      } else {
        MergeSorted(left, right[1..]);
        var rest := Merge(left, right[1..]);
        assert m == [right[0]] + rest;
        forall p, q | 0 <= p < q < |m|
          ensures m[p].value <= m[q].value
        {
          if p == 0 {
            assert m[q] == rest[q - 1];
            assert rest[0].value <= m[q].value || q == 1;
          }
        }
      }
    }
  }

  /** Merging keeps, for every value, the left run's elements of that value
      before the right run's: ties are taken from the left, so the merge is
      stable. */
  lemma {:induction false} MergeFilter(left: seq<Element>, right: seq<Element>, v: int)
    requires Sorted(left) && Sorted(right)
    ensures Filter(Merge(left, right), v) == Filter(left, v) + Filter(right, v)
    decreases |left| + |right|
  {
    if left == [] {
      assert Filter(left, v) + Filter(right, v) == Filter(right, v);
    } else if right == [] {
      assert Filter(left, v) + Filter(right, v) == Filter(left, v);
    } else if left[0].value <= right[0].value {
      SortedDrop(left);
      MergeFilter(left[1..], right, v);
      MergeFilterTakeLeft(left, right, v);
    } else {
      SortedDrop(right);
      MergeFilter(left, right[1..], v);
      if right[0].value == v {
        AboveHasNone(left, v);
      }
      MergeFilterTakeRight(left, right, v);
    }
  }

  /** One step of the merge from the left run preserves the filter
      equation. */
  lemma MergeFilterTakeLeft(left: seq<Element>, right: seq<Element>, v: int)
    requires left != [] && right != [] && left[0].value <= right[0].value
    requires Filter(Merge(left[1..], right), v) == Filter(left[1..], v) + Filter(right, v)
    ensures Filter(Merge(left, right), v) == Filter(left, v) + Filter(right, v)
  {
    FilterMergeHeadLeft(left, right, v);
    FilterFront(left, v);
    Assoc(Filter([left[0]], v), Filter(left[1..], v), Filter(right, v));
  }

  /** One step of the merge from the right run preserves the filter
      equation, provided the left run holds nothing of the taken value. */
  lemma MergeFilterTakeRight(left: seq<Element>, right: seq<Element>, v: int)
    requires left != [] && right != [] && left[0].value > right[0].value
    requires Filter(Merge(left, right[1..]), v) == Filter(left, v) + Filter(right[1..], v)
    requires right[0].value == v ==> Filter(left, v) == []
    ensures Filter(Merge(left, right), v) == Filter(left, v) + Filter(right, v)
  {
    FilterMergeHeadRight(left, right, v);
    FilterFront(right, v);
    FilterSingle(right[0], v);
    var fy, fl, ft := Filter([right[0]], v), Filter(left, v), Filter(right[1..], v);
    Assoc(fy, fl, ft);
    Assoc(fl, fy, ft);
    if right[0].value == v {
      assert fy + fl == fl + fy;
    } else {
      assert fy + fl == fl + fy;
    }
  }

  lemma Assoc<T>(a: seq<T>, b: seq<T>, c: seq<T>)
    ensures (a + b) + c == a + (b + c)
  {
  }

  lemma SortedDrop(s: seq<Element>)
    requires Sorted(s) && s != []
    ensures Sorted(s[1..])
  {
  }

  /** Splitting a filter after the first element. */
  lemma FilterFront(s: seq<Element>, v: int)
    requires s != []
    ensures Filter(s, v) == Filter([s[0]], v) + Filter(s[1..], v)
  {
    assert s == [s[0]] + s[1..];
    FilterAppend([s[0]], s[1..], v);
  }

  lemma FilterMergeHeadLeft(left: seq<Element>, right: seq<Element>, v: int)
    requires left != [] && right != [] && left[0].value <= right[0].value
    ensures Filter(Merge(left, right), v) == Filter([left[0]], v) + Filter(Merge(left[1..], right), v)
  {
    assert Merge(left, right) == [left[0]] + Merge(left[1..], right);
    FilterAppend([left[0]], Merge(left[1..], right), v);
  }

  lemma FilterMergeHeadRight(left: seq<Element>, right: seq<Element>, v: int)
    requires left != [] && right != [] && left[0].value > right[0].value
    ensures Filter(Merge(left, right), v) == Filter([right[0]], v) + Filter(Merge(left, right[1..]), v)
  {
    assert Merge(left, right) == [right[0]] + Merge(left, right[1..]);
    FilterAppend([right[0]], Merge(left, right[1..]), v);
  }

  /** `a` and `b` agree outside `[start, end)`. */
  predicate SameOutside(a: seq<Element>, b: seq<Element>, start: int, end: int)
  {
    |a| == |b| && forall k :: 0 <= k < |a| && (k < start || end <= k) ==> a[k] == b[k]
  }

  /** `arr` with the range `[start, end)` replaced by `mid`. */
  function Splice(arr: seq<Element>, start: int, end: int, mid: seq<Element>): (r: seq<Element>)
    requires 0 <= start <= end <= |arr| && |mid| == end - start
    ensures SameOutside(r, arr, start, end) && r[start..end] == mid
  {
    arr[..start] + mid + arr[end..]
  }

  /** Replacing a range by a rearrangement of it rearranges the whole. */
  lemma SpliceMultiset(arr: seq<Element>, start: int, end: int, mid: seq<Element>)
    requires 0 <= start <= end <= |arr| && |mid| == end - start
    requires multiset(mid) == multiset(arr[start..end])
    ensures multiset(Splice(arr, start, end, mid)) == multiset(arr)
  {
    assert arr == arr[..start] + arr[start..end] + arr[end..];
  }

  /** The array `mergeSortRecursive(start, end)` leaves behind: only the
      range changes. */
  function SortRange(arr: seq<Element>, start: int, end: int): (r: seq<Element>)
    requires 0 <= start <= end <= |arr|
    ensures SameOutside(r, arr, start, end)
    decreases end - start
  {
    if end - start <= 1 then arr
    else
      var mid := (start + end) / 2;
      var b1 := SortRange(arr, start, mid);
      var b2 := SortRange(b1, mid, end);
      Splice(b2, start, end, Merge(b2[start..mid], b2[mid..end]))
  }

  /** Sequences that agree on `[lo, hi)` have equal slices there. */
  lemma SliceAgree(a: seq<Element>, b: seq<Element>, lo: int, hi: int)
    requires 0 <= lo <= hi <= |a| == |b|
    requires forall k :: lo <= k < hi ==> a[k] == b[k]
    ensures a[lo..hi] == b[lo..hi]
  {
  }

  /** `mergeSortRecursive(start, end)` rearranges the array. */
  lemma {:induction false} SortRangeMultiset(arr: seq<Element>, start: int, end: int)
    requires 0 <= start <= end <= |arr|
    ensures multiset(SortRange(arr, start, end)) == multiset(arr)
    decreases end - start
  {
    if end - start > 1 {
      var mid := (start + end) / 2;
      var b1 := SortRange(arr, start, mid);
      var b2 := SortRange(b1, mid, end);
      SortRangeMultiset(arr, start, mid);
      SortRangeMultiset(b1, mid, end);
      RangeHalves(b2, start, mid, end);
      MergeMultiset(b2[start..mid], b2[mid..end]);
      SpliceMultiset(b2, start, end, Merge(b2[start..mid], b2[mid..end]));
    }
  }

  lemma RangeHalves(a: seq<Element>, start: int, mid: int, end: int)
    requires 0 <= start <= mid <= end <= |a|
    ensures a[start..end] == a[start..mid] + a[mid..end]
    ensures multiset(a[start..end]) == multiset(a[start..mid]) + multiset(a[mid..end])
  {
    assert a[start..end] == a[start..mid] + a[mid..end];
  }

  /** `mergeSortRecursive(start, end)` leaves the range sorted and keeps,
      for every value, the order its elements had in the range. */
  lemma {:induction false} SortRangeSorts(arr: seq<Element>, start: int, end: int)
    requires 0 <= start <= end <= |arr|
    ensures Sorted(SortRange(arr, start, end)[start..end])
    ensures Stable(arr[start..end], SortRange(arr, start, end)[start..end])
    decreases end - start
  {
    if end - start <= 1 {
      StableRefl(arr[start..end]);
    } else {
      var mid := (start + end) / 2;
      var b1 := SortRange(arr, start, mid);
      var b2 := SortRange(b1, mid, end);
      SortRangeSorts(arr, start, mid);
      SortRangeSorts(b1, mid, end);
      SliceAgree(b2, b1, start, mid);
      SliceAgree(b1, arr, mid, end);
      var left, right := b2[start..mid], b2[mid..end];
      MergeSorted(left, right);
      RangeHalves(arr, start, mid, end);
      MergeStable(arr[start..mid], arr[mid..end], left, right);
    }
  }

  /** Merging stable sorts of two halves is a stable sort of the whole. */
  lemma MergeStable(l0: seq<Element>, r0: seq<Element>, left: seq<Element>, right: seq<Element>)
    requires Sorted(left) && Sorted(right) && Stable(l0, left) && Stable(r0, right)
    ensures Stable(l0 + r0, Merge(left, right))
  {
    forall v
      ensures Filter(Merge(left, right), v) == Filter(l0 + r0, v)
    {
      MergeFilter(left, right, v);
      FilterAppend(l0, r0, v);
    }
  }

  /** The `merge` comparison loop from positions `i` and `j` of the two runs:
      one step per comparison, over the array as it was before merging. */
  function CompareSteps(arr: seq<Element>, left: seq<Element>, right: seq<Element>, i: int, j: int, start: int): (s: seq<SortStep<MergeDesc>>)
    requires 0 <= i <= |left| && 0 <= j <= |right|
    ensures forall k :: 0 <= k < |s| ==> s[k].snapshot == arr && s[k].desc.CompareRuns?
    decreases |left| - i + |right| - j
  {
    if i < |left| && j < |right| then
      var step := Step(arr, NoMarks.(primary := [start + i], secondary := [start + |left| + j]),
                       CompareRuns(left[i].value, right[j].value), NoMeta);
      if left[i].value <= right[j].value then [step] + CompareSteps(arr, left, right, i + 1, j, start)
      else [step] + CompareSteps(arr, left, right, i, j + 1, start)
    else []
  }

  /** Where `mergeSortRecursive` leaves the producer. */
  datatype Run = Run(steps: seq<SortStep<MergeDesc>>, arr: seq<Element>)

  /** The merge of the runs `[start, mid)` and `[mid, end)` of `b`: a step
      naming the two runs, the comparisons, and a step showing the merged
      range, highlighted as a success. */
  function MergePhase(b: seq<Element>, start: int, mid: int, end: int): (s: seq<SortStep<MergeDesc>>)
    requires 0 <= start <= mid <= end <= |b|
    ensures s != [] && Sized(s, |b|)
    ensures Last(s).snapshot == Splice(b, start, end, Merge(b[start..mid], b[mid..end]))
    ensures Last(s).marks.success == Span(start, end) && Last(s).desc.Merged?
  {
    var left, right := b[start..mid], b[mid..end];
    var merging := Step(b, NoMarks, MergingRuns(Values(left), Values(right)), NoMeta);
    var compares := CompareSteps(b, left, right, 0, 0, start);
    var merged := Merge(left, right);
    var c := Splice(b, start, end, merged);
    var done := Step(c, NoMarks.(success := Span(start, end)), Merged(Values(merged)), NoMeta);
    SizedAppend([merging], compares, |b|);
    SizedAppend([merging] + compares, [done], |b|);
    [merging] + compares + [done]
  }

  /** `mergeSortRecursive(start, end)`: a dividing step, both halves, and
      the merge of the two sorted halves. */
  function SortSteps(arr: seq<Element>, start: int, end: int): (r: Run)
    requires 0 <= start <= end <= |arr|
    ensures r.arr == SortRange(arr, start, end)
    ensures end - start <= 1 <==> r.steps == []
    ensures r.steps != [] ==> Last(r.steps).snapshot == r.arr
    decreases end - start
  {
    if end - start <= 1 then Run([], arr)
    else
      var mid := (start + end) / 2;
      var divide := Step(arr, NoMarks, Dividing(start, end - 1), NoMeta);
      var r1 := SortSteps(arr, start, mid);
      var r2 := SortSteps(r1.arr, mid, end);
      var phase := MergePhase(r2.arr, start, mid, end);
      Run([divide] + r1.steps + r2.steps + phase, Last(phase).snapshot)
  }

  /** Every snapshot of `mergeSortRecursive` has the array's length. */
  lemma {:induction false} SortStepsSized(arr: seq<Element>, start: int, end: int)
    requires 0 <= start <= end <= |arr|
    ensures Sized(SortSteps(arr, start, end).steps, |arr|)
    decreases end - start
  {
    if end - start > 1 {
      var mid := (start + end) / 2;
      var r1 := SortSteps(arr, start, mid);
      var r2 := SortSteps(r1.arr, mid, end);
      SortStepsSized(arr, start, mid);
      SortStepsSized(r1.arr, mid, end);
      SizedFour([Step(arr, NoMarks, Dividing(start, end - 1), NoMeta)], r1.steps, r2.steps,
                MergePhase(r2.arr, start, mid, end), |arr|);
    }
  }

  /** A range of at least two elements opens with its dividing step and
      closes with a step whose success highlight is exactly the indices of
      the range, which is then sorted. */
  lemma SortStepsBookends(arr: seq<Element>, start: int, end: int)
    requires 0 <= start <= end <= |arr| && end - start >= 2
    ensures SortSteps(arr, start, end).steps[0].desc == Dividing(start, end - 1)
    ensures Last(SortSteps(arr, start, end).steps).marks.success == Span(start, end)
    ensures Last(SortSteps(arr, start, end).steps).desc.Merged?
    ensures Sorted(Last(SortSteps(arr, start, end).steps).snapshot[start..end])
  {
    SortRangeSorts(arr, start, end);
  }

  /** The merge sort producer: a start step over the input, then the
      recursion over the whole array. */
  function MergeSortSteps(a: seq<Element>): (r: seq<SortStep<MergeDesc>>)
    ensures |r| >= 1 && r[0].snapshot == a && r[0].desc == MergeStart(Values(a))
    ensures Last(r).snapshot == SortRange(a, 0, |a|)
    ensures Sized(r, |a|)
  {
    var run := SortSteps(a, 0, |a|);
    SortStepsSized(a, 0, |a|);
    SizedAppend([Step(a, NoMarks, MergeStart(Values(a)), NoMeta)], run.steps, |a|);
    [Step(a, NoMarks, MergeStart(Values(a)), NoMeta)] + run.steps
  }

  /** The last snapshot of the merge sort producer is the input sorted by
      value with equal values in input order. */
  lemma MergeSortIsStable(a: seq<Element>)
    ensures Last(MergeSortSteps(a)).snapshot == SortByValue(a)
    ensures Sorted(Last(MergeSortSteps(a)).snapshot)
  {
    var t := SortRange(a, 0, |a|);
    SortRangeSorts(a, 0, |a|);
    SortRangeMultiset(a, 0, |a|);
    assert a[0..|a|] == a;
    assert t[0..|a|] == t;
    StableSortIsReference(a, t);
  }
}
