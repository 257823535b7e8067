/** `enhancedBubbleSort.steps` (src/utils/algorithms/enhancedBubbleSort.js:90-272):
    the bubble sort of `BubbleSort`, shown in more detail. Every step carries
    the settled suffix (`sorted`) and the rest (`unsorted`); an exchange is
    shown before and after; every pass has a start and an end step; the run
    closes with a complete step. The `showOptimization` option decides
    whether a pass without swaps ends the run early. */
module EnhancedBubble {
  import opened Steps
  import opened Helpers
  import opened SortFacts
  import BubbleSort

  /** What an enhanced bubble sort step says. */
  datatype EnhancedDesc =
    | BubbleStart(n: nat)
    | BubblePass(pass: nat, settled: nat)
    | BubbleCompare(j: int, a: int, k: int, b: int)
    | BubbleSwapping(a: int, b: int)
    | BubbleSwapped(a: int, b: int)
    | BubblePassEnd(pass: nat, swaps: nat, settled: nat)
    | BubbleOptimized
    | BubbleDone

  /** `[n-1, n-2, ..., n-i]`: the last `i` indices, from the end. */
  function Tail(n: int, i: nat): (r: seq<int>)
    ensures |r| == i
    ensures forall t :: 0 <= t < i ==> r[t] == n - 1 - t
  {
    if i == 0 then [] else Tail(n, i - 1) + [n - i]
  }

  /** The last `i` indices of an array of length `n`, and nothing else. */
  lemma TailIsSuffix(n: int, i: nat, k: int)
    ensures k in Tail(n, i) <==> n - i <= k < n
  {
    if n - i <= k < n {
      assert Tail(n, i)[n - 1 - k] == k;
    }
  }

  /** `[0, m)` without `j` and `j + 1`, in order. */
  function Others(m: nat, j: int): (r: seq<int>)
    ensures forall k :: k in r <==> 0 <= k < m && k != j && k != j + 1
  {
    if m == 0 then []
    else Others(m - 1, j) + (if m - 1 == j || m - 1 == j + 1 then [] else [m - 1])
  }

  /** Where a stretch of the inner loop leaves the producer. */
  datatype InnerRun = InnerRun(
    steps: seq<SortStep<EnhancedDesc>>, arr: seq<Element>,
    comparisons: nat, swaps: nat, swapped: bool)

  /** The highlights of the comparison of `j` with `j + 1` during pass
      `i + 1` of an array of length `n`. */
  function PairMarks(n: nat, i: nat, j: int): Marks
    requires i < n
  {
    NoMarks.(primary := [j], secondary := [j + 1], sorted := Tail(n, i), unsorted := Others(n - i, j))
  }

  /** The inner loop of pass `i + 1` from `j` while `j < limit`. It leaves
      the array one plain bubble pass leaves, swaps exactly when that pass
      does, and counts one comparison per remaining index. */
  function Inner(a: seq<Element>, limit: int, j: int, i: nat, cmp: nat, swp: nat, swapped: bool): (r: InnerRun)
    requires 0 <= j <= limit < |a| && i < |a|
    ensures r.arr == BubbleSort.PassArray(a, limit, j)
    ensures r.swapped == (swapped || BubbleSort.PassSwaps(a, limit, j))
    ensures r.comparisons == cmp + (limit - j)
    decreases limit - j
  {
    if j == limit then InnerRun([], a, cmp, swp, swapped)
    else
      var c := cmp + 1;
      var marks := PairMarks(|a|, i, j);
      var compare := Step(a, marks, BubbleCompare(j, a[j].value, j + 1, a[j + 1].value), Counters(i + 1, c, swp, Plain));
      if a[j].value > a[j + 1].value then
        var b := Swap(a, j, j + 1);
        var before := Step(a, marks.(success := [j, j + 1]), BubbleSwapping(a[j].value, a[j + 1].value),
                           Counters(i + 1, c, swp, Plain));
        var after := Step(b, marks.(success := [j, j + 1]), BubbleSwapped(b[j].value, b[j + 1].value),
                          Counters(i + 1, c, swp + 1, Plain));
        var rest := Inner(b, limit, j + 1, i, c, swp + 1, true);
        rest.(steps := [compare, before, after] + rest.steps)
      else
        var rest := Inner(a, limit, j + 1, i, c, swp, swapped);
        rest.(steps := [compare] + rest.steps)
  }

  /** The array the outer loop leaves behind, from pass `i + 1`. */
  function EnhancedArray(a: seq<Element>, i: nat, optimize: bool): (r: seq<Element>)
    decreases |a| - i
  {
    if i + 1 >= |a| then a
    else if optimize && !BubbleSort.PassSwaps(a, |a| - i - 1, 0) then a
    else EnhancedArray(BubbleSort.PassArray(a, |a| - i - 1, 0), i + 1, optimize)
  }

  /** The number of passes the outer loop runs, from pass `i + 1`. */
  function PassCount(a: seq<Element>, i: nat, optimize: bool): (r: nat)
    decreases |a| - i
  {
    if i + 1 >= |a| then i
    else if optimize && !BubbleSort.PassSwaps(a, |a| - i - 1, 0) then i + 1
    else PassCount(BubbleSort.PassArray(a, |a| - i - 1, 0), i + 1, optimize)
  }

  /** Where the outer loop leaves the producer. */
  datatype OuterRun = OuterRun(
    steps: seq<SortStep<EnhancedDesc>>, arr: seq<Element>,
    comparisons: nat, swaps: nat, passes: nat)

  /** The steps of pass `i + 1`, around the inner loop's run `r`: a pass
      start step, the inner loop, a pass end step and, when the pass ends
      the loop early, an optimization step. */
  function PassSteps(a: seq<Element>, i: nat, cmp: nat, swp: nat, r: InnerRun, early: bool): (s: seq<SortStep<EnhancedDesc>>)
    requires i + 1 < |a|
    ensures |s| == |r.steps| + (if early then 3 else 2)
  {
    var n := |a|;
    [Step(a, NoMarks.(sorted := Tail(n, i), unsorted := Range(n - i)), BubblePass(i + 1, i),
          Counters(i + 1, cmp, swp, Plain))]
      + r.steps
      + [Step(r.arr, NoMarks.(sorted := Tail(n, i + 1), unsorted := Range(n - i - 1)),
              BubblePassEnd(i + 1, r.swaps, i + 1), Counters(i + 1, r.comparisons, r.swaps, Plain))]
      + (if early then [Step(r.arr, NoMarks.(sorted := Range(n)), BubbleOptimized,
                             Counters(i + 1, r.comparisons, r.swaps, Optimized))]
         else [])
  }

  /** The outer loop from pass `i + 1` while `i < n - 1`; with the
      optimization on, a pass without swaps ends it. */
  function Outer(a: seq<Element>, i: nat, cmp: nat, swp: nat, optimize: bool): (r: OuterRun)
    ensures r.arr == EnhancedArray(a, i, optimize)
    ensures r.passes == PassCount(a, i, optimize)
    decreases |a| - i
  {
    if i + 1 >= |a| then OuterRun([], a, cmp, swp, i)
    else
      var r := Inner(a, |a| - i - 1, 0, i, cmp, swp, false);
      var early := optimize && !r.swapped;
      if early then
        BubbleSort.PassNoSwap(a, |a| - i - 1, 0);
        OuterRun(PassSteps(a, i, cmp, swp, r, true), r.arr, r.comparisons, r.swaps, i + 1)
      else
        var rest := Outer(r.arr, i + 1, r.comparisons, r.swaps, optimize);
        rest.(steps := PassSteps(a, i, cmp, swp, r, false) + rest.steps)
  }

  /** The enhanced bubble sort producer: a start step over the input, the
      passes, and a complete step. */
  function EnhancedBubbleSortSteps(a: seq<Element>, optimize: bool): (r: seq<SortStep<EnhancedDesc>>)
    ensures |r| >= 2
  {
    var n := |a|;
    var start := Step(a, NoMarks.(unsorted := Range(n)), BubbleStart(n), Counters(0, 0, 0, Plain));
    var run := Outer(a, 0, 0, 0, optimize);
    [start] + run.steps
      + [Step(run.arr, NoMarks.(sorted := Range(n)), BubbleDone, Counters(run.passes, run.comparisons, run.swaps, Complete))]
  }

  // ---------------------------------------------------------------------
  // Properties

  /** From a settled suffix, the remaining passes sort the array, whether or
      not a pass without swaps ends the loop early. */
  lemma {:induction false} EnhancedArraySorts(a: seq<Element>, i: nat, optimize: bool)
    requires i <= |a| && Settled(a, |a| - i)
    ensures Sorted(EnhancedArray(a, i, optimize))
    decreases |a| - i
  {
    if i + 1 >= |a| {
      if |a| >= 1 {
        SettledOneIsSorted(a);
      }
    } else if optimize && !BubbleSort.PassSwaps(a, |a| - i - 1, 0) {
      BubbleSort.NoSwapIsSorted(a, i);
    } else {
      BubbleSort.PassKeepsSettled(a, i);
      EnhancedArraySorts(BubbleSort.PassArray(a, |a| - i - 1, 0), i + 1, optimize);
    }
  }

  /** The outer loop only rearranges. */
  lemma {:induction false} EnhancedArrayMultiset(a: seq<Element>, i: nat, optimize: bool)
    ensures multiset(EnhancedArray(a, i, optimize)) == multiset(a)
    decreases |a| - i
  {
    if i + 1 >= |a| || (optimize && !BubbleSort.PassSwaps(a, |a| - i - 1, 0)) {
      assert EnhancedArray(a, i, optimize) == a;
    } else {
      EnhancedArrayMultiset(BubbleSort.PassArray(a, |a| - i - 1, 0), i + 1, optimize);
      MultisetPass(a, i, optimize);
    }
  }

  /** A pass in front of a rearranging remainder rearranges the whole. */
  lemma MultisetPass(a: seq<Element>, i: nat, optimize: bool)
    requires i + 1 < |a| && !(optimize && !BubbleSort.PassSwaps(a, |a| - i - 1, 0))
    requires multiset(EnhancedArray(BubbleSort.PassArray(a, |a| - i - 1, 0), i + 1, optimize))
          == multiset(BubbleSort.PassArray(a, |a| - i - 1, 0))
    ensures multiset(EnhancedArray(a, i, optimize)) == multiset(a)
  {
    BubbleSort.PassArrayMultiset(a, |a| - i - 1, 0);
  }

  /** The outer loop keeps equal values in order. */
  lemma {:induction false} EnhancedArrayStable(a: seq<Element>, i: nat, optimize: bool)
    ensures Stable(a, EnhancedArray(a, i, optimize))
    decreases |a| - i
  {
    if i + 1 >= |a| || (optimize && !BubbleSort.PassSwaps(a, |a| - i - 1, 0)) {
      assert EnhancedArray(a, i, optimize) == a;
      StableRefl(a);
    } else {
      EnhancedArrayStable(BubbleSort.PassArray(a, |a| - i - 1, 0), i + 1, optimize);
      StablePass(a, i, optimize);
    }
  }

  /** A pass in front of a stable remainder keeps the whole stable. */
  lemma StablePass(a: seq<Element>, i: nat, optimize: bool)
    requires i + 1 < |a| && !(optimize && !BubbleSort.PassSwaps(a, |a| - i - 1, 0))
    requires Stable(BubbleSort.PassArray(a, |a| - i - 1, 0),
                    EnhancedArray(BubbleSort.PassArray(a, |a| - i - 1, 0), i + 1, optimize))
    ensures Stable(a, EnhancedArray(a, i, optimize))
  {
    var b := BubbleSort.PassArray(a, |a| - i - 1, 0);
    BubbleSort.PassStable(a, |a| - i - 1, 0);
    StableTrans(a, b, EnhancedArray(b, i + 1, optimize));
  }

  /** Without the optimization every one of the `n - 1` passes runs. */
  lemma {:induction false} AllPassesRun(a: seq<Element>, i: nat)
    ensures PassCount(a, i, false) == if i + 1 >= |a| then i else |a| - 1
    decreases |a| - i
  {
    if i + 1 < |a| {
      AllPassesRun(BubbleSort.PassArray(a, |a| - i - 1, 0), i + 1);
    }
  }

  /** With the optimization, an input that is already ascending takes a
      single pass and ends early. */
  lemma SortedTakesOnePass(a: seq<Element>)
    requires |a| >= 2 && Sorted(a)
    ensures PassCount(a, 0, true) == 1 && EndsEarly(a, 0, true)
    ensures EnhancedArray(a, 0, true) == a
  {
    NoSwapWhenSorted(a, |a| - 1, 0);
  }

  lemma {:induction false} NoSwapWhenSorted(a: seq<Element>, limit: int, j: int)
    requires 0 <= j <= limit < |a| && Sorted(a)
    ensures !BubbleSort.PassSwaps(a, limit, j)
    decreases limit - j
  {
    if j < limit {
      NoSwapWhenSorted(a, limit, j + 1);
    }
  }

  /** The producer opens with the untouched input at pass 0, nothing
      settled and every index unsorted, and closes with the complete step:
      every index settled, none unsorted, the pass counter at the number of
      passes run, and the input in stable ascending order. An array of at
      most one element gives just these two steps. */
  lemma EnhancedBookends(a: seq<Element>, optimize: bool)
    ensures var r := EnhancedBubbleSortSteps(a, optimize);
      && r[0].snapshot == a && r[0].desc == BubbleStart(|a|)
      && r[0].marks.sorted == [] && r[0].marks.unsorted == Range(|a|)
      && r[0].meta == Counters(0, 0, 0, Plain)
      && Last(r).desc == BubbleDone && Last(r).meta.flag == Complete
      && Last(r).marks.sorted == Range(|a|) && Last(r).marks.unsorted == []
      && Last(r).meta.pass == PassCount(a, 0, optimize)
      && Sorted(Last(r).snapshot) && Last(r).snapshot == SortByValue(a)
      && (|a| <= 1 ==> |r| == 2)
  {
    EnhancedArraySorts(a, 0, optimize);
    EnhancedArrayMultiset(a, 0, optimize);
    EnhancedArrayStable(a, 0, optimize);
    StableSortIsReference(a, EnhancedArray(a, 0, optimize));
  }

  predicate IsCompare(d: EnhancedDesc) { d.BubbleCompare? }
  predicate IsSwapped(d: EnhancedDesc) { d.BubbleSwapped? }
  predicate IsPassStart(d: EnhancedDesc) { d.BubblePass? }
  /** The steps that frame a run or a pass rather than show a comparison. */
  predicate IsFrame(d: EnhancedDesc)
  {
    d.BubbleStart? || d.BubblePass? || d.BubblePassEnd? || d.BubbleOptimized? || d.BubbleDone?
  }

  /** A comparison, possibly followed by the two exchange steps, in front of
      a run: one more comparison, one more exchange if any, no frame. */
  lemma CompareHead(s: seq<SortStep<EnhancedDesc>>, n: int)
    requires (n == 1 || n == 3) && n <= |s|
    requires s[0].desc.BubbleCompare?
    requires n == 3 ==> s[1].desc.BubbleSwapping? && s[2].desc.BubbleSwapped?
    ensures Count(s, IsCompare) == 1 + Count(s[n..], IsCompare)
  {
    CountHead(s, n, IsCompare);
  }

  lemma SwappedHead(s: seq<SortStep<EnhancedDesc>>, n: int)
    requires (n == 1 || n == 3) && n <= |s|
    requires s[0].desc.BubbleCompare?
    requires n == 3 ==> s[1].desc.BubbleSwapping? && s[2].desc.BubbleSwapped?
    ensures Count(s, IsSwapped) == (if n == 3 then 1 else 0) + Count(s[n..], IsSwapped)
  {
    CountHead(s, n, IsSwapped);
  }

  lemma FrameHead(s: seq<SortStep<EnhancedDesc>>, n: int)
    requires (n == 1 || n == 3) && n <= |s|
    requires s[0].desc.BubbleCompare?
    requires n == 3 ==> s[1].desc.BubbleSwapping? && s[2].desc.BubbleSwapped?
    ensures Count(s, IsFrame) == Count(s[n..], IsFrame)
  {
    CountHead(s, n, IsFrame);
  }

  /** The inner loop shows one comparison step per remaining index, one
      exchange per rise of the swap counter, and no framing step. */
  lemma {:induction false} InnerCounts(a: seq<Element>, limit: int, j: int, i: nat, cmp: nat, swp: nat, swapped: bool)
    requires 0 <= j <= limit < |a| && i < |a|
    ensures var r := Inner(a, limit, j, i, cmp, swp, swapped);
      && Count(r.steps, IsCompare) == limit - j
      && r.swaps == swp + Count(r.steps, IsSwapped)
      && Count(r.steps, IsFrame) == 0
    decreases limit - j
  {
    if j < limit {
      var swaps := a[j].value > a[j + 1].value;
      InnerCounts(if swaps then Swap(a, j, j + 1) else a, limit, j + 1, i, cmp + 1,
                  if swaps then swp + 1 else swp, swaps || swapped);
      InnerStep(a, limit, j, i, cmp, swp, swapped);
    }
  }

  /** One comparison of the inner loop, in front of the rest of the loop. */
  lemma InnerStep(a: seq<Element>, limit: int, j: int, i: nat, cmp: nat, swp: nat, swapped: bool)
    requires 0 <= j < limit < |a| && i < |a|
    ensures var swaps := a[j].value > a[j + 1].value;
      var r := Inner(a, limit, j, i, cmp, swp, swapped);
      var rest := Inner(if swaps then Swap(a, j, j + 1) else a, limit, j + 1, i, cmp + 1,
                        if swaps then swp + 1 else swp, swaps || swapped);
      && Count(r.steps, IsCompare) == 1 + Count(rest.steps, IsCompare)
      && Count(r.steps, IsSwapped) == (if swaps then 1 else 0) + Count(rest.steps, IsSwapped)
      && Count(r.steps, IsFrame) == Count(rest.steps, IsFrame)
      && r.swaps == rest.swaps
  {
    var swaps := a[j].value > a[j + 1].value;
    var r := Inner(a, limit, j, i, cmp, swp, swapped);
    var rest := Inner(if swaps then Swap(a, j, j + 1) else a, limit, j + 1, i, cmp + 1,
                      if swaps then swp + 1 else swp, swaps || swapped);
    var n := if swaps then 3 else 1;
    assert r.steps[n..] == rest.steps;
    assert r.steps[0].desc.BubbleCompare?;
    assert n == 3 ==> r.steps[1].desc.BubbleSwapping? && r.steps[2].desc.BubbleSwapped?;
    CompareHead(r.steps, n);
    SwappedHead(r.steps, n);
    FrameHead(r.steps, n);
  }

  /** Where an exchange happens, the step before it shows the old order and
      the step after it the new order, both highlighting the pair as
      success, and the swap counter rises by one between them. */
  lemma InversionShown(a: seq<Element>, limit: int, j: int, i: nat, cmp: nat, swp: nat, swapped: bool)
    requires 0 <= j < limit < |a| && i < |a|
    requires a[j].value > a[j + 1].value
    ensures var s := Inner(a, limit, j, i, cmp, swp, swapped).steps;
      && |s| >= 3
      && s[1].snapshot == a && s[2].snapshot == Swap(a, j, j + 1)
      && s[1].marks.success == [j, j + 1] && s[2].marks.success == [j, j + 1]
      && s[1].meta.swaps == swp && s[2].meta.swaps == swp + 1
  {
  }

  /** Pass `i + 1` opens with `sorted` naming the last `i` indices and
      `unsorted` the rest, and its end step, right after the inner loop,
      shows the array the pass leaves with the last `i + 1` indices
      settled. */
  lemma PassFrames(a: seq<Element>, i: nat, cmp: nat, swp: nat, optimize: bool)
    requires i + 1 < |a|
    ensures var r := Outer(a, i, cmp, swp, optimize).steps;
      var k := 1 + |Inner(a, |a| - i - 1, 0, i, cmp, swp, false).steps|;
      && k < |r|
      && r[0].desc == BubblePass(i + 1, i)
      && r[0].marks.sorted == Tail(|a|, i) && r[0].marks.unsorted == Range(|a| - i)
      && r[k].desc.BubblePassEnd? && r[k].desc.settled == i + 1
      && r[k].marks.sorted == Tail(|a|, i + 1) && r[k].marks.unsorted == Range(|a| - i - 1)
      && r[k].snapshot == BubbleSort.PassArray(a, |a| - i - 1, 0)
  {
    var inner := Inner(a, |a| - i - 1, 0, i, cmp, swp, false);
    var early := optimize && !inner.swapped;
    var p := PassSteps(a, i, cmp, swp, inner, early);
    var r := Outer(a, i, cmp, swp, optimize).steps;
    assert r[..|p|] == p;
  }

  predicate IsDone(d: EnhancedDesc) { d.BubbleDone? }
  predicate IsOptimizedStep(d: EnhancedDesc) { d.BubbleOptimized? }

  /** Whether the outer loop from pass `i + 1` ends early on a pass without
      swaps. */
  predicate EndsEarly(a: seq<Element>, i: nat, optimize: bool)
    decreases |a| - i
  {
    if i + 1 >= |a| then false
    else if optimize && !BubbleSort.PassSwaps(a, |a| - i - 1, 0) then true
    else EndsEarly(BubbleSort.PassArray(a, |a| - i - 1, 0), i + 1, optimize)
  }

  /** A run without framing steps has no pass start, optimization or
      complete step. */
  lemma NoFrames(s: seq<SortStep<EnhancedDesc>>)
    requires Count(s, IsFrame) == 0
    ensures Count(s, IsPassStart) == 0 && Count(s, IsDone) == 0 && Count(s, IsOptimizedStep) == 0
  {
    CountWeaker(s, IsPassStart, IsFrame);
    CountWeaker(s, IsDone, IsFrame);
    CountWeaker(s, IsOptimizedStep, IsFrame);
  }

  /** One pass shows one pass start, an optimization step exactly when it
      ends the loop, and no complete step. */
  lemma PassCounts(a: seq<Element>, i: nat, cmp: nat, swp: nat, r: InnerRun, early: bool)
    requires i + 1 < |a| && Count(r.steps, IsFrame) == 0
    ensures Count(PassSteps(a, i, cmp, swp, r, early), IsPassStart) == 1
    ensures Count(PassSteps(a, i, cmp, swp, r, early), IsOptimizedStep) == if early then 1 else 0
    ensures Count(PassSteps(a, i, cmp, swp, r, early), IsDone) == 0
  {
    var s := PassSteps(a, i, cmp, swp, r, early);
    var start, end := s[0], s[|r.steps| + 1];
    var last := s[|r.steps| + 2..];
    NoFrames(r.steps);
    assert s == [start] + (r.steps + ([end] + last));
    assert start.desc.BubblePass? && end.desc.BubblePassEnd?;
    assert early ==> last == [s[|s| - 1]] && s[|s| - 1].desc.BubbleOptimized?;
    assert !early ==> last == [];
    PassCountsFor(start, r.steps, end, last, early, IsPassStart);
    PassCountsFor(start, r.steps, end, last, early, IsOptimizedStep);
    PassCountsFor(start, r.steps, end, last, early, IsDone);
  }

  lemma PassCountsFor(start: SortStep<EnhancedDesc>, m: seq<SortStep<EnhancedDesc>>, end: SortStep<EnhancedDesc>,
                      last: seq<SortStep<EnhancedDesc>>, early: bool, f: EnhancedDesc -> bool)
    requires early ==> |last| == 1
    requires !early ==> last == []
    ensures Count([start] + (m + ([end] + last)), f)
         == (if f(start.desc) then 1 else 0) + Count(m, f) + (if f(end.desc) then 1 else 0)
          + (if early && f(last[0].desc) then 1 else 0)
  {
    CountFront(start, m + ([end] + last), f);
    CountAppend(m, [end] + last, f);
    CountFront(end, last, f);
    if early {
      CountFront(last[0], [], f);
      assert last == [last[0]] + [];
    }
  }

  /** The counts the outer loop shows from pass `i + 1`. */
  predicate OuterCounted(a: seq<Element>, i: nat, cmp: nat, swp: nat, optimize: bool)
  {
    var r := Outer(a, i, cmp, swp, optimize);
    && Count(r.steps, IsPassStart) == r.passes - i
    && Count(r.steps, IsOptimizedStep) == (if EndsEarly(a, i, optimize) then 1 else 0)
    && Count(r.steps, IsDone) == 0
  }

  /** The outer loop shows one pass start per pass it runs, one
      optimization step exactly when it ends early, and no complete step. */
  lemma {:induction false} OuterCounts(a: seq<Element>, i: nat, cmp: nat, swp: nat, optimize: bool)
    ensures OuterCounted(a, i, cmp, swp, optimize)
    decreases |a| - i
  {
    if i + 1 < |a| {
      var inner := Inner(a, |a| - i - 1, 0, i, cmp, swp, false);
      if !(optimize && !inner.swapped) {
        OuterCounts(inner.arr, i + 1, inner.comparisons, inner.swaps, optimize);
      }
      OuterCountsStep(a, i, cmp, swp, optimize);
    } else {
      assert Outer(a, i, cmp, swp, optimize).steps == [];
    }
  }

  /** The rest of the loop after pass `i + 1` is counted, if it runs. */
  predicate RestCounted(a: seq<Element>, i: nat, cmp: nat, swp: nat, optimize: bool)
    requires i + 1 < |a|
  {
    var inner := Inner(a, |a| - i - 1, 0, i, cmp, swp, false);
    !(optimize && !inner.swapped) ==> OuterCounted(inner.arr, i + 1, inner.comparisons, inner.swaps, optimize)
  }

  /** One pass in front of the counted rest of the loop. */
  lemma OuterCountsStep(a: seq<Element>, i: nat, cmp: nat, swp: nat, optimize: bool)
    requires i + 1 < |a| && RestCounted(a, i, cmp, swp, optimize)
    ensures OuterCounted(a, i, cmp, swp, optimize)
  {
    var inner := Inner(a, |a| - i - 1, 0, i, cmp, swp, false);
    var early := optimize && !inner.swapped;
    InnerCounts(a, |a| - i - 1, 0, i, cmp, swp, false);
    PassCounts(a, i, cmp, swp, inner, early);
    assert EndsEarly(a, i, optimize) == (early || EndsEarly(inner.arr, i + 1, optimize));
    if !early {
      var rest := Outer(inner.arr, i + 1, inner.comparisons, inner.swaps, optimize);
      OuterJoin(PassSteps(a, i, cmp, swp, inner, false), rest.steps);
    }
  }

  lemma OuterJoin(p: seq<SortStep<EnhancedDesc>>, rest: seq<SortStep<EnhancedDesc>>)
    ensures Count(p + rest, IsPassStart) == Count(p, IsPassStart) + Count(rest, IsPassStart)
    ensures Count(p + rest, IsOptimizedStep) == Count(p, IsOptimizedStep) + Count(rest, IsOptimizedStep)
    ensures Count(p + rest, IsDone) == Count(p, IsDone) + Count(rest, IsDone)
  {
    CountAppend(p, rest, IsPassStart);
    CountAppend(p, rest, IsOptimizedStep);
    CountAppend(p, rest, IsDone);
  }

  /** The producer shows one pass start per pass it reports in the complete
      step, and exactly one complete step, the last. Without the
      optimization all `n - 1` passes run and no optimization step appears;
      with it, an optimization step appears exactly when a pass swaps
      nothing, and an ascending input takes one pass. */
  lemma EnhancedCounts(a: seq<Element>, optimize: bool)
    ensures var r := EnhancedBubbleSortSteps(a, optimize);
      && Count(r, IsPassStart) == Last(r).meta.pass == PassCount(a, 0, optimize)
      && Count(r, IsDone) == 1 && IsDone(Last(r).desc)
      && Count(r, IsOptimizedStep) == (if EndsEarly(a, 0, optimize) then 1 else 0)
      && (!optimize ==> !EndsEarly(a, 0, optimize) && PassCount(a, 0, false) == if |a| <= 1 then 0 else |a| - 1)
      && (optimize && |a| >= 2 && Sorted(a) ==> PassCount(a, 0, true) == 1 && EndsEarly(a, 0, true))
  {
    var r := EnhancedBubbleSortSteps(a, optimize);
    var run := Outer(a, 0, 0, 0, optimize);
    OuterCounts(a, 0, 0, 0, optimize);
    assert OuterCounted(a, 0, 0, 0, optimize);
    assert r == [r[0]] + run.steps + [Last(r)];
    CountAppend([r[0]] + run.steps, [Last(r)], IsPassStart);
    CountAppend([r[0]] + run.steps, [Last(r)], IsDone);
    CountAppend([r[0]] + run.steps, [Last(r)], IsOptimizedStep);
    CountFront(r[0], run.steps, IsPassStart);
    CountFront(r[0], run.steps, IsDone);
    CountFront(r[0], run.steps, IsOptimizedStep);
    CountFront(Last(r), [], IsPassStart);
    CountFront(Last(r), [], IsDone);
    CountFront(Last(r), [], IsOptimizedStep);
    assert [Last(r)] + [] == [Last(r)];
    AllPassesRun(a, 0);
    NeverEarly(a, 0);
    if optimize && |a| >= 2 && Sorted(a) {
      SortedTakesOnePass(a);
    }
  }

  lemma {:induction false} NeverEarly(a: seq<Element>, i: nat)
    ensures !EndsEarly(a, i, false)
    decreases |a| - i
  {
    if i + 1 < |a| {
      NeverEarly(BubbleSort.PassArray(a, |a| - i - 1, 0), i + 1);
    }
  }
}
