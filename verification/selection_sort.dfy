/** `selectionSort.steps` (src/utils/algorithms/sorting.js:188-270): pass `i`
    scans the unsorted suffix for its first smallest value and swaps it into
    position `i`. */
module SelectionSort {
  import opened Steps
  import opened Helpers
  import opened SortFacts

  /** What a selection sort step says. */
  datatype SelectionDesc =
    | PassStart(pass: nat, from: int)
    | Comparing(a: int, b: int)
    | NewMinimum(v: int, at: int)
    | SwappedWith(a: int, b: int)
    | NoSwapNeeded(v: int)

  /** The prefix before `i` is sorted and holds the smallest values: every
      element before `i` is at most every element from `i` on. */
  predicate PrefixSettled(a: seq<Element>, i: int)
  {
    && 0 <= i <= |a|
    && (forall p, q :: 0 <= p < q < i ==> a[p].value <= a[q].value)
    && (forall p, q :: 0 <= p < i <= q < |a| ==> a[p].value <= a[q].value)
  }

  /** The index the scan of pass `i` settles on, continuing from `j` with
      the best index `m` found so far: a new candidate replaces `m` only when
      strictly smaller. */
  function MinScan(a: seq<Element>, j: int, m: int): (r: int)
    requires 0 <= m < j <= |a|
    ensures m <= r < |a|
    decreases |a| - j
  {
    if j == |a| then m
    else if a[j].value < a[m].value then MinScan(a, j + 1, j)
    else MinScan(a, j + 1, m)
  }

  /** The scan of pass `i` ends on the first position of the smallest value
      of the suffix from `i`. */
  lemma {:induction false} MinScanIsFirstMin(a: seq<Element>, i: int, j: int, m: int)
    requires 0 <= i <= m < j <= |a|
    requires forall k :: i <= k < j ==> a[m].value <= a[k].value
    requires forall k :: i <= k < m ==> a[m].value < a[k].value
    ensures forall k :: i <= k < |a| ==> a[MinScan(a, j, m)].value <= a[k].value
    ensures forall k :: i <= k < MinScan(a, j, m) ==> a[MinScan(a, j, m)].value < a[k].value
    decreases |a| - j
  {
    if j < |a| {
      if a[j].value < a[m].value {
        MinScanIsFirstMin(a, i, j + 1, j);
      } else {
        MinScanIsFirstMin(a, i, j + 1, m);
      }
    }
  }

  predicate IsCompare(d: SelectionDesc) { d.Comparing? }
  predicate IsNewMin(d: SelectionDesc) { d.NewMinimum? }
  /** The step that closes a pass: a swap, or the note that none is needed. */
  predicate IsPassEnd(d: SelectionDesc) { d.SwappedWith? || d.NoSwapNeeded? }
  predicate IsPassMark(d: SelectionDesc) { IsPassEnd(d) || d.PassStart? }

  /** Where the scan of one pass leaves the producer. */
  datatype Scan = Scan(steps: seq<SortStep<SelectionDesc>>, minIndex: int, comparisons: nat)

  /** The inner loop of pass `i`, from `j` with the current minimum at `m`:
      one comparison step per remaining position, and a "new minimum" step
      for each strict improvement. */
  function ScanSteps(a: seq<Element>, j: int, m: int, pass: nat, cmp: nat, swp: nat): (r: Scan)
    requires 0 <= m < j <= |a|
    ensures r.minIndex == MinScan(a, j, m)
    ensures r.comparisons == cmp + (|a| - j)
    decreases |a| - j
  {
    if j == |a| then Scan([], m, cmp)
    else
      var c := cmp + 1;
      var compare := Step(a, NoMarks.(primary := [m], secondary := [j]),
                          Comparing(a[m].value, a[j].value), Counters(pass, c, swp, Plain));
      if a[j].value < a[m].value then
        var found := Step(a, NoMarks.(primary := [j], secondary := [j]),
                          NewMinimum(a[j].value, j), Counters(pass, c, swp, Plain));
        var rest := ScanSteps(a, j + 1, j, pass, c, swp);
        rest.(steps := [compare, found] + rest.steps)
      else
        var rest := ScanSteps(a, j + 1, m, pass, c, swp);
        rest.(steps := [compare] + rest.steps)
  }

  /** The scan shows one comparison step per remaining position and
      otherwise only "new minimum" steps. */
  lemma {:induction false} ScanShape(a: seq<Element>, j: int, m: int, pass: nat, cmp: nat, swp: nat)
    requires 0 <= m < j <= |a|
    ensures Count(ScanSteps(a, j, m, pass, cmp, swp).steps, IsCompare) == |a| - j
    ensures Count(ScanSteps(a, j, m, pass, cmp, swp).steps, IsCompare)
          + Count(ScanSteps(a, j, m, pass, cmp, swp).steps, IsNewMin)
         == |ScanSteps(a, j, m, pass, cmp, swp).steps|
    ensures Count(ScanSteps(a, j, m, pass, cmp, swp).steps, IsPassMark) == 0
    decreases |a| - j
  {
    if j < |a| {
      var r := ScanSteps(a, j, m, pass, cmp, swp).steps;
      var m' := if a[j].value < a[m].value then j else m;
      var rest := ScanSteps(a, j + 1, m', pass, cmp + 1, swp).steps;
      ScanShape(a, j + 1, m', pass, cmp + 1, swp);
      var n := if a[j].value < a[m].value then 2 else 1;
      assert r[n..] == rest;
      assert IsCompare(r[0].desc) && !IsNewMin(r[0].desc) && !IsPassMark(r[0].desc);
      assert n == 2 ==> !IsCompare(r[1].desc) && IsNewMin(r[1].desc) && !IsPassMark(r[1].desc);
      CountHead(r, n, IsCompare);
      CountHead(r, n, IsNewMin);
      CountHead(r, n, IsPassMark);
    }
  }

  /** Every step of the scan shows the unchanged array. */
  lemma {:induction false} ScanSnapshots(a: seq<Element>, j: int, m: int, pass: nat, cmp: nat, swp: nat)
    requires 0 <= m < j <= |a|
    ensures forall k :: 0 <= k < |ScanSteps(a, j, m, pass, cmp, swp).steps| ==>
      ScanSteps(a, j, m, pass, cmp, swp).steps[k].snapshot == a
    decreases |a| - j
  {
    if j < |a| {
      var r := ScanSteps(a, j, m, pass, cmp, swp).steps;
      var m' := if a[j].value < a[m].value then j else m;
      var rest := ScanSteps(a, j + 1, m', pass, cmp + 1, swp).steps;
      ScanSnapshots(a, j + 1, m', pass, cmp + 1, swp);
      var n := if a[j].value < a[m].value then 2 else 1;
      assert r[n..] == rest;
      forall k | 0 <= k < |r|
        ensures r[k].snapshot == a
      {
        if k >= n {
          assert r[k] == rest[k - n];
        }
      }
    }
  }

  /** The position pass `i` swaps into place. */
  function FirstMin(a: seq<Element>, i: int): int
    requires 0 <= i < |a|
  {
    MinScan(a, i + 1, i)
  }

  /** Where one pass leaves the producer. */
  datatype Pass = Pass(steps: seq<SortStep<SelectionDesc>>, arr: seq<Element>, comparisons: nat, swaps: nat)

  /** Pass `i`: a start step, the scan, then one swap-or-no-swap step. */
  function PassSteps(a: seq<Element>, i: int, cmp: nat, swp: nat): (r: Pass)
    requires 0 <= i < |a|
    ensures r.arr == Swap(a, i, FirstMin(a, i))
    ensures |r.steps| >= 2 && Last(r.steps).snapshot == r.arr
  {
    var pass := i + 1;
    var start := Step(a, NoMarks.(primary := [i]), PassStart(pass, i), Counters(pass, cmp, swp, Plain));
    var scan := ScanSteps(a, i + 1, i, pass, cmp, swp);
    var m := scan.minIndex;
    var b := Swap(a, i, m);
    var last :=
      if m != i then
        Step(b, NoMarks.(success := [i, m]), SwappedWith(b[i].value, b[m].value),
             Counters(pass, scan.comparisons, swp + 1, Plain))
      else
        Step(a, NoMarks.(success := [i]), NoSwapNeeded(a[i].value),
             Counters(pass, scan.comparisons, swp, Plain));
    Pass([start] + scan.steps + [last], b, scan.comparisons, if m != i then swp + 1 else swp)
  }

  /** Pass `i` opens with its start step, shows one comparison for each
      position after `i`, and closes with exactly one swap-or-no-swap step,
      which is a swap exactly when the smallest value is not already at `i`.
      Every other step announces a new minimum. The comparison counter grows
      by the number of comparisons and the swap counter by the number of
      swaps. */
  lemma PassShape(a: seq<Element>, i: int, cmp: nat, swp: nat)
    requires 0 <= i < |a|
    ensures var r := PassSteps(a, i, cmp, swp);
      && r.steps[0].desc == PassStart(i + 1, i)
      && (Last(r.steps).desc.SwappedWith? <==> FirstMin(a, i) != i)
      && IsPassEnd(Last(r.steps).desc)
      && Count(r.steps, IsPassEnd) == 1
      && Count(r.steps, IsCompare) == |a| - 1 - i
      && |r.steps| == 2 + Count(r.steps, IsCompare) + Count(r.steps, IsNewMin)
      && r.comparisons == cmp + (|a| - 1 - i)
      && r.swaps == if FirstMin(a, i) != i then swp + 1 else swp
  {
    var r := PassSteps(a, i, cmp, swp);
    var scan := ScanSteps(a, i + 1, i, i + 1, cmp, swp);
    ScanShape(a, i + 1, i, i + 1, cmp, swp);
    SwapOrNothing(scan.steps);
    var start := r.steps[0];
    var last := Last(r.steps);
    assert r.steps == [start] + scan.steps + [last];
    CountAppend([start], scan.steps, IsCompare);
    CountAppend([start] + scan.steps, [last], IsCompare);
    CountAppend([start], scan.steps, IsNewMin);
    CountAppend([start] + scan.steps, [last], IsNewMin);
    CountAppend([start], scan.steps, IsPassEnd);
    CountAppend([start] + scan.steps, [last], IsPassEnd);
  }

  lemma SwapOrNothing(s: seq<SortStep<SelectionDesc>>)
    requires Count(s, IsPassMark) == 0
    ensures Count(s, IsPassEnd) == 0
  {
    CountWeaker(s, IsPassEnd, IsPassMark);
  }

  /** The outer loop from pass `i` while `i < n - 1`. */
  function Outer(a: seq<Element>, i: nat, cmp: nat, swp: nat): (s: seq<SortStep<SelectionDesc>>)
    ensures i + 1 < |a| <==> s != []
    ensures s != [] ==> Last(s).snapshot == SelectArray(a, i)
    ensures Rearranges(s, a)
    decreases |a| - i
  {
    if i + 1 >= |a| then []
    else
      var p := PassSteps(a, i, cmp, swp);
      var rest := Outer(p.arr, i + 1, p.comparisons, p.swaps);
      LastAppend(p.steps, rest);
      PassRearranges(a, i, cmp, swp);
      SwapMultiset(a, i, FirstMin(a, i));
      RearrangesTrans(rest, p.arr, a);
      RearrangesAppend(p.steps, rest, a);
      p.steps + rest
  }

  /** The array the outer loop leaves behind, from pass `i`. */
  function SelectArray(a: seq<Element>, i: nat): (r: seq<Element>)
    ensures |r| == |a|
    decreases |a| - i
  {
    if i + 1 >= |a| then a
    else SelectArray(Swap(a, i, FirstMin(a, i)), i + 1)
  }

  /** The outer loop only rearranges. */
  lemma {:induction false} SelectArrayMultiset(a: seq<Element>, i: nat)
    ensures multiset(SelectArray(a, i)) == multiset(a)
    decreases |a| - i
  {
    if i + 1 < |a| {
      SwapMultiset(a, i, FirstMin(a, i));
      SelectArrayMultiset(Swap(a, i, FirstMin(a, i)), i + 1);
    }
  }

  /** After pass `i`, the prefix up to and including `i` holds the `i + 1`
      smallest values in ascending order. */
  lemma PassSettles(a: seq<Element>, i: int)
    requires 0 <= i < |a| && PrefixSettled(a, i)
    ensures PrefixSettled(Swap(a, i, FirstMin(a, i)), i + 1)
  {
    var m := FirstMin(a, i);
    MinScanIsFirstMin(a, i, i + 1, i);
    var b := Swap(a, i, m);
    forall p, q | 0 <= p < i + 1 <= q < |b|
      ensures b[p].value <= b[q].value
    {
      if q == m {
        assert b[q] == a[i];
      } else {
        assert b[q] == a[q];
      }
      if p < i {
        assert b[p] == a[p];
      }
    }
    forall p, q | 0 <= p < q < i + 1
      ensures b[p].value <= b[q].value
    {
      assert b[p] == a[p];
      if q < i {
        assert b[q] == a[q];
      }
    }
  }

  /** From a settled prefix, the remaining passes sort the array. */
  lemma {:induction false} SelectArraySorts(a: seq<Element>, i: nat)
    requires i <= |a| && PrefixSettled(a, i)
    ensures Sorted(SelectArray(a, i))
    decreases |a| - i
  {
    if i + 1 < |a| {
      PassSettles(a, i);
      SelectArraySorts(Swap(a, i, FirstMin(a, i)), i + 1);
    }
  }

  /** The selection sort producer. Arrays of at most one element give no
      steps; otherwise the last snapshot is an ascending rearrangement of
      the input. Equal values may change order, since a swap can carry an
      element past its equals. */
  function SelectionSortSteps(a: seq<Element>): (r: seq<SortStep<SelectionDesc>>)
    ensures |a| <= 1 <==> r == []
    ensures |a| >= 2 ==> Sorted(Last(r).snapshot) && multiset(Last(r).snapshot) == multiset(a)
    ensures Rearranges(r, a)
  {
    SelectArraySorts(a, 0);
    SelectArrayMultiset(a, 0);
    Outer(a, 0, 0, 0)
  }

  // ---------------------------------------------------------------------
  // Every snapshot is a rearrangement

  lemma PassRearranges(a: seq<Element>, i: int, cmp: nat, swp: nat)
    requires 0 <= i < |a|
    ensures Rearranges(PassSteps(a, i, cmp, swp).steps, a)
  {
    var r := PassSteps(a, i, cmp, swp).steps;
    var scan := ScanSteps(a, i + 1, i, i + 1, cmp, swp).steps;
    ScanSnapshots(a, i + 1, i, i + 1, cmp, swp);
    SwapMultiset(a, i, FirstMin(a, i));
    assert r == [r[0]] + scan + [Last(r)];
    forall k | 0 <= k < |r|
      ensures multiset(r[k].snapshot) == multiset(a)
    {
      if 0 < k <= |scan| {
        assert r[k] == scan[k - 1];
      }
    }
  }
}
