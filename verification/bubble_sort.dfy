/** `bubbleSort.steps` (src/utils/algorithms/sorting.js:98-159): passes of
    adjacent compare-then-swap over a working copy, stopping after the first
    pass without a swap. */
module BubbleSort {
  import opened Steps
  import opened Helpers
  import opened SortFacts

  /** What a bubble sort step says. */
  datatype BubbleDesc =
    | Comparing(a: int, b: int)
    | SwappedAnd(a: int, b: int)
    | NoSwapsSorted

  /** Where a stretch of the inner loop leaves the producer: the steps it
      emitted, the working array, the running counters and whether the
      current pass has swapped. */
  datatype Run = Run(
    steps: seq<SortStep<BubbleDesc>>, arr: seq<Element>,
    comparisons: nat, swaps: nat, swapped: bool)

  /** The array one pass leaves behind, from `j` while `j < limit`. */
  function PassArray(a: seq<Element>, limit: int, j: int): (r: seq<Element>)
    requires 0 <= j <= limit < |a|
    ensures |r| == |a|
    ensures forall p :: limit < p < |a| ==> r[p] == a[p]
    decreases limit - j
  {
    if j == limit then a
    else if a[j].value > a[j + 1].value then PassArray(Swap(a, j, j + 1), limit, j + 1)
    else PassArray(a, limit, j + 1)
  }

  /** Whether a pass from `j` swaps at all. */
  predicate PassSwaps(a: seq<Element>, limit: int, j: int)
    requires 0 <= j <= limit < |a|
    decreases limit - j
  {
    if j == limit then false
    else if a[j].value > a[j + 1].value then true
    else PassSwaps(a, limit, j + 1)
  }

  /** The inner loop of one pass, from `j` while `j < limit`, where
      `limit = n - i - 1`. Its array and swap flag are those of the
      step-free pass above. */
  function Inner(a: seq<Element>, limit: int, j: int, pass: nat, cmp: nat, swp: nat, swapped: bool): (r: Run)
    requires 0 <= j <= limit < |a|
    ensures r.arr == PassArray(a, limit, j)
    ensures r.swapped == (swapped || PassSwaps(a, limit, j))
    ensures |r.steps| > 0 <==> j < limit
    ensures |r.steps| > 0 ==> Last(r.steps).snapshot == r.arr
    decreases limit - j
  {
    if j == limit then Run([], a, cmp, swp, swapped)
    else
      var c := cmp + 1;
      var compare := Step(a, NoMarks.(primary := [j], secondary := [j + 1]),
                          Comparing(a[j].value, a[j + 1].value), Counters(pass, c, swp, Plain));
      if a[j].value > a[j + 1].value then
        var b := Swap(a, j, j + 1);
        var swap := Step(b, NoMarks.(success := [j, j + 1]),
                         SwappedAnd(b[j].value, b[j + 1].value), Counters(pass, c, swp + 1, Plain));
        var rest := Inner(b, limit, j + 1, pass, c, swp + 1, true);
        rest.(steps := [compare, swap] + rest.steps)
      else
        var rest := Inner(a, limit, j + 1, pass, c, swp, swapped);
        rest.(steps := [compare] + rest.steps)
  }

  /** The array the outer loop leaves behind, from pass `i`. */
  function BubbleArray(a: seq<Element>, i: nat): seq<Element>
    decreases |a| - i
  {
    if i + 1 >= |a| then a
    else if !PassSwaps(a, |a| - i - 1, 0) then a
    else BubbleArray(PassArray(a, |a| - i - 1, 0), i + 1)
  }

  /** The outer loop from pass `i` while `i < n - 1`. It shows something
      whenever a pass remains, its last snapshot is the array the loop leaves
      behind, and every snapshot is a rearrangement of its input. */
  function Outer(a: seq<Element>, i: nat, cmp: nat, swp: nat): (s: seq<SortStep<BubbleDesc>>)
    ensures i + 1 < |a| <==> s != []
    ensures s != [] ==> Last(s).snapshot == BubbleArray(a, i)
    decreases |a| - i
  {
    if i + 1 >= |a| then []
    else
      var r := Inner(a, |a| - i - 1, 0, i + 1, cmp, swp, false);
      if !r.swapped then
        PassNoSwap(a, |a| - i - 1, 0);
        r.steps + [Step(r.arr, NoMarks.(success := Range(|a|)), NoSwapsSorted,
                        Counters(i + 1, r.comparisons, r.swaps, Plain))]
      else
        LastAppend(r.steps, Outer(r.arr, i + 1, r.comparisons, r.swaps));
        r.steps + Outer(r.arr, i + 1, r.comparisons, r.swaps)
  }

  /** The bubble sort producer. Arrays of at most one element give no steps
      at all; otherwise the last snapshot is the input sorted by value, and
      since ties are never swapped it is exactly the stable sort. */
  function BubbleSortSteps(a: seq<Element>): (r: seq<SortStep<BubbleDesc>>)
    ensures |a| <= 1 <==> r == []
    ensures |a| >= 2 ==> Sorted(Last(r).snapshot) && Last(r).snapshot == SortByValue(a)
  {
    if |a| >= 2 then
      BubbleArraySorts(a, 0);
      BubbleArrayStable(a, 0);
      StableSortIsReference(a, BubbleArray(a, 0));
      Outer(a, 0, 0, 0)
    else Outer(a, 0, 0, 0)
  }

  // ---------------------------------------------------------------------
  // Proof of the inner loop

  /** A pass only rearranges. */
  lemma {:induction false} PassArrayMultiset(a: seq<Element>, limit: int, j: int)
    requires 0 <= j <= limit < |a|
    ensures multiset(PassArray(a, limit, j)) == multiset(a)
    decreases limit - j
  {
    if j < limit && a[j].value > a[j + 1].value {
      SwapMultiset(a, j, j + 1);
      PassArrayMultiset(Swap(a, j, j + 1), limit, j + 1);
    } else if j < limit {
      PassArrayMultiset(a, limit, j + 1);
    }
  }

  /** A pass keeps every value's relative order: only unequal neighbours
      are ever swapped. */
  lemma {:induction false} PassStable(a: seq<Element>, limit: int, j: int)
    requires 0 <= j <= limit < |a|
    ensures Stable(a, PassArray(a, limit, j))
    decreases limit - j
  {
    if j == limit {
      StableRefl(a);
    } else if a[j].value > a[j + 1].value {
      var b := Swap(a, j, j + 1);
      PassStable(b, limit, j + 1);
      AdjacentSwapStable(a, j);
      StableTrans(a, b, PassArray(b, limit, j + 1));
    } else {
      PassStable(a, limit, j + 1);
    }
  }

  /** The largest value seen so far travels with `j`: once the pass ends it
      sits at `limit`. */
  lemma {:induction false} PassCarriesMax(a: seq<Element>, limit: int, j: int)
    requires 0 <= j <= limit < |a|
    requires forall p :: 0 <= p <= j ==> a[p].value <= a[j].value
    ensures forall p :: 0 <= p <= limit ==> PassArray(a, limit, j)[p].value <= PassArray(a, limit, j)[limit].value
    decreases limit - j
  {
    if j < limit {
      if a[j].value > a[j + 1].value {
        var b := Swap(a, j, j + 1);
        forall p | 0 <= p <= j + 1
          ensures b[p].value <= b[j + 1].value
        {
          if p < j {
            assert b[p] == a[p];
          }
        }
        PassCarriesMax(b, limit, j + 1);
        assert PassArray(a, limit, j) == PassArray(b, limit, j + 1);
      } else {
        assert forall p :: 0 <= p <= j + 1 ==> a[p].value <= a[j + 1].value;
        PassCarriesMax(a, limit, j + 1);
        assert PassArray(a, limit, j) == PassArray(a, limit, j + 1);
      }
    }
  }

  /** A pass that swaps nothing leaves the array alone, and the array was
      already ascending over the compared range. */
  lemma {:induction false} PassNoSwap(a: seq<Element>, limit: int, j: int)
    requires 0 <= j <= limit < |a|
    requires !PassSwaps(a, limit, j)
    ensures PassArray(a, limit, j) == a
    ensures forall p :: j <= p < limit ==> a[p].value <= a[p + 1].value
    decreases limit - j
  {
    if j < limit {
      PassNoSwap(a, limit, j + 1);
    }
  }

  /** One pass over a prefix with a settled suffix from `limit + 1` settles
      the suffix from `limit`. */
  lemma PassSettles(a: seq<Element>, b: seq<Element>, limit: int)
    requires 0 <= limit < |a| == |b|
    requires Settled(a, limit + 1)
    requires multiset(a) == multiset(b)
    requires forall p :: limit < p < |a| ==> b[p] == a[p]
    requires forall p :: 0 <= p <= limit ==> b[p].value <= b[limit].value
    ensures Settled(b, limit)
  {
    PrefixMultiset(a, b, limit + 1);
    forall p, q | 0 <= p <= limit < q < |b|
      ensures b[p].value <= b[q].value
    {
      FromPrefix(a, b, limit + 1, p);
    }
  }

  /** A pass over the unsettled prefix settles one more element. */
  lemma PassKeepsSettled(a: seq<Element>, i: nat)
    requires i + 1 < |a| && Settled(a, |a| - i)
    ensures Settled(PassArray(a, |a| - i - 1, 0), |a| - i - 1)
  {
    var limit := |a| - i - 1;
    PassCarriesMax(a, limit, 0);
    PassArrayMultiset(a, limit, 0);
    PassSettles(a, PassArray(a, limit, 0), limit);
  }

  /** A pass without swaps over the unsettled prefix finds the array
      sorted. */
  lemma NoSwapIsSorted(a: seq<Element>, i: nat)
    requires i + 1 < |a| && Settled(a, |a| - i)
    requires !PassSwaps(a, |a| - i - 1, 0)
    ensures Sorted(a)
  {
    PassNoSwap(a, |a| - i - 1, 0);
    RunThenSettledIsSorted(a, |a| - i);
  }

  /** The outer loop ends on a sorted array, provided the suffix already
      processed is settled. */
  lemma {:induction false} BubbleArraySorts(a: seq<Element>, i: nat)
    requires i <= |a| && Settled(a, |a| - i)
    ensures Sorted(BubbleArray(a, i))
    decreases |a| - i
  {
    if i + 1 >= |a| {
      if |a| >= 1 {
        SettledOneIsSorted(a);
      }
    } else if !PassSwaps(a, |a| - i - 1, 0) {
      NoSwapIsSorted(a, i);
    } else {
      PassKeepsSettled(a, i);
      BubbleArraySorts(PassArray(a, |a| - i - 1, 0), i + 1);
    }
  }

  /** The outer loop keeps every value's relative order. */
  lemma {:induction false} BubbleArrayStable(a: seq<Element>, i: nat)
    ensures multiset(BubbleArray(a, i)) == multiset(a)
    ensures Stable(a, BubbleArray(a, i))
    decreases |a| - i
  {
    if i + 1 >= |a| || !PassSwaps(a, |a| - i - 1, 0) {
      StableRefl(a);
    } else {
      var b := PassArray(a, |a| - i - 1, 0);
      PassArrayMultiset(a, |a| - i - 1, 0);
      PassStable(a, |a| - i - 1, 0);
      BubbleArrayStable(b, i + 1);
      StableTrans(a, b, BubbleArray(b, i + 1));
    }
  }

  // ---------------------------------------------------------------------
  // Highlights and counters of the inner loop

  /** One iteration of the inner loop at `j`: a comparison step marking `j`
      primary and `j + 1` secondary with one more comparison counted; when
      the left value is greater, a swap step marking the pair as success,
      showing it in ascending order, with one more swap counted; then the
      rest of the loop, starting from those counters. Ties are not swapped. */
  lemma InnerHead(a: seq<Element>, limit: int, j: int, pass: nat, cmp: nat, swp: nat, swapped: bool)
    requires 0 <= j < limit < |a|
    ensures var r := Inner(a, limit, j, pass, cmp, swp, swapped);
      var sw := a[j].value > a[j + 1].value;
      var n := if sw then 2 else 1;
      && |r.steps| >= n
      && r.steps[0] == Step(a, NoMarks.(primary := [j], secondary := [j + 1]),
                            Comparing(a[j].value, a[j + 1].value), Counters(pass, cmp + 1, swp, Plain))
      && (sw ==> && r.steps[1].marks == NoMarks.(success := [j, j + 1])
                 && r.steps[1].snapshot[j].value < r.steps[1].snapshot[j + 1].value
                 && r.steps[1].meta == Counters(pass, cmp + 1, swp + 1, Plain)
                 && r.steps[2..] == Inner(Swap(a, j, j + 1), limit, j + 1, pass, cmp + 1, swp + 1, true).steps)
      && (!sw ==> r.steps[1..] == Inner(a, limit, j + 1, pass, cmp + 1, swp, swapped).steps)
  {
  }

  // ---------------------------------------------------------------------
  // Every snapshot is a rearrangement

  lemma {:induction false} InnerRearranges(a: seq<Element>, limit: int, j: int, pass: nat, cmp: nat, swp: nat, swapped: bool)
    requires 0 <= j <= limit < |a|
    ensures Rearranges(Inner(a, limit, j, pass, cmp, swp, swapped).steps, a)
    decreases limit - j, 1
  {
    if j < limit {
      if a[j].value > a[j + 1].value {
        SwapRearranges(a, limit, j, pass, cmp, swp, swapped);
      } else {
        var steps := Inner(a, limit, j, pass, cmp, swp, swapped).steps;
        InnerRearranges(a, limit, j + 1, pass, cmp + 1, swp, swapped);
        var rest := Inner(a, limit, j + 1, pass, cmp + 1, swp, swapped).steps;
        assert steps[..1] + rest == steps;
        assert steps[0].snapshot == a;
        RearrangesAppend(steps[..1], rest, a);
      }
    }
  }

  lemma {:induction false} SwapRearranges(a: seq<Element>, limit: int, j: int, pass: nat, cmp: nat, swp: nat, swapped: bool)
    requires 0 <= j < limit < |a| && a[j].value > a[j + 1].value
    ensures Rearranges(Inner(a, limit, j, pass, cmp, swp, swapped).steps, a)
    decreases limit - j, 0
  {
    var steps := Inner(a, limit, j, pass, cmp, swp, swapped).steps;
    var b := Swap(a, j, j + 1);
    SwapMultiset(a, j, j + 1);
    InnerRearranges(b, limit, j + 1, pass, cmp + 1, swp + 1, true);
    var rest := Inner(b, limit, j + 1, pass, cmp + 1, swp + 1, true).steps;
    assert steps[..2] + rest == steps;
    assert steps[0].snapshot == a && steps[1].snapshot == b;
    RearrangesAppend(steps[..2], rest, a);
  }

  lemma {:induction false} OuterRearranges(a: seq<Element>, i: nat, cmp: nat, swp: nat)
    ensures Rearranges(Outer(a, i, cmp, swp), a)
    decreases |a| - i
  {
    if i + 1 < |a| {
      var limit := |a| - i - 1;
      var r := Inner(a, limit, 0, i + 1, cmp, swp, false);
      InnerRearranges(a, limit, 0, i + 1, cmp, swp, false);
      PassArrayMultiset(a, limit, 0);
      if !r.swapped {
        var last := [Step(r.arr, NoMarks.(success := Range(|a|)), NoSwapsSorted,
                          Counters(i + 1, r.comparisons, r.swaps, Plain))];
        RearrangesAppend(r.steps, last, a);
      } else {
        OuterRearranges(r.arr, i + 1, r.comparisons, r.swaps);
        RearrangesAppend(r.steps, Outer(r.arr, i + 1, r.comparisons, r.swaps), a);
      }
    }
  }

  /** Every snapshot of the bubble sort producer is a rearrangement of its
      input. */
  lemma BubbleSortRearranges(a: seq<Element>)
    ensures Rearranges(BubbleSortSteps(a), a)
  {
    OuterRearranges(a, 0, 0, 0);
  }
}
