/** `insertionSort.steps` (src/utils/algorithms/sorting.js:297-397): pass `i`
    lifts out `arr[i]`, copies every larger element of the sorted prefix one
    slot to the right, and drops the key into the gap. While the copies are
    in progress the visible array holds one element twice and the key not
    at all, exactly as the source's snapshots do. */
module InsertionSort {
  import opened Steps
  import opened Helpers
  import opened SortFacts

  /** What an insertion sort step says. */
  datatype InsertionDesc =
    | InsertionStart(n: nat)
    | Considering(v: int, at: int)
    | ShiftCompare(a: int, key: int)
    | Shifted(v: int, to: int)
    | InsertedKey(v: int, at: int)
    | InsertionDone

  /** The array and cursor the shifting loop stops at, without the steps. */
  datatype Gap = Gap(arr: seq<Element>, j: int)

  function ShiftGap(arr: seq<Element>, key: Element, j: int): (g: Gap)
    requires -1 <= j < |arr| - 1
    ensures -1 <= g.j <= j && |g.arr| == |arr|
    decreases j + 1
  {
    if j >= 0 && arr[j].value > key.value then ShiftGap(arr[j + 1 := arr[j]], key, j - 1)
    else Gap(arr, j)
  }

  /** Where the shifting loop leaves the producer. */
  datatype Shift = Shift(steps: seq<SortStep<InsertionDesc>>, arr: seq<Element>, j: int, comparisons: nat)

  /** The `while (j >= 0 && arr[j].value > key.value)` loop of pass `i`: a
      comparison step, the copy `arr[j + 1] = arr[j]`, and a shift step. */
  function ShiftSteps(arr: seq<Element>, key: Element, i: int, j: int, pass: nat, cmp: nat, swp: nat): (r: Shift)
    requires -1 <= j < i < |arr|
    ensures Gap(r.arr, r.j) == ShiftGap(arr, key, j)
    decreases j + 1
  {
    if j >= 0 && arr[j].value > key.value then
      var c := cmp + 1;
      var compare := Step(arr, NoMarks.(primary := [i], secondary := [j]),
                          ShiftCompare(arr[j].value, key.value), Counters(pass, c, swp, Plain));
      var b := arr[j + 1 := arr[j]];
      var shifted := Step(b, NoMarks.(primary := [i], secondary := [j]),
                          Shifted(b[j].value, j), Counters(pass, c, swp, Plain));
      var rest := ShiftSteps(b, key, i, j - 1, pass, c, swp);
      rest.(steps := [compare, shifted] + rest.steps)
    else
      Shift([], arr, j, cmp)
  }

  /** While shifting, the visible array is the prefix `p` with a gap at
      `t` (whatever the gap shows), followed by the untouched tail. */
  predicate Gapped(arr: seq<Element>, p: seq<Element>, t: int, tail: seq<Element>)
  {
    && |arr| == |p| + 1 + |tail| && 0 <= t <= |p|
    && (forall k :: 0 <= k < t ==> arr[k] == p[k])
    && (forall k :: t < k <= |p| ==> arr[k] == p[k - 1])
    && (forall k :: |p| < k < |arr| ==> arr[k] == tail[k - |p| - 1])
  }

  /** Each copy moves the gap one place left. The loop stops at the last
      prefix element not greater than the key, and every element it passed
      over is greater than the key. */
  lemma {:induction false} ShiftShape(arr: seq<Element>, key: Element, j: int, p: seq<Element>, tail: seq<Element>)
    requires -1 <= j < |p| && Gapped(arr, p, j + 1, tail)
    requires forall k :: j < k < |p| ==> p[k].value > key.value
    ensures Gapped(ShiftGap(arr, key, j).arr, p, ShiftGap(arr, key, j).j + 1, tail)
    ensures ShiftGap(arr, key, j).j < 0 || p[ShiftGap(arr, key, j).j].value <= key.value
    ensures forall k :: ShiftGap(arr, key, j).j < k < |p| ==> p[k].value > key.value
    decreases j + 1
  {
    if j >= 0 && arr[j].value > key.value {
      var b := arr[j + 1 := arr[j]];
      assert Gapped(b, p, j, tail);
      ShiftShape(b, key, j - 1, p, tail);
    }
  }

  /** Inserting behind the last element not greater than `x` is what
      `InsertLast` computes. */
  lemma {:induction false} InsertLastAt(p: seq<Element>, x: Element, t: int)
    requires 0 <= t <= |p|
    requires t == 0 || p[t - 1].value <= x.value
    requires forall k :: t <= k < |p| ==> p[k].value > x.value
    ensures InsertLast(p, x) == p[..t] + [x] + p[t..]
    decreases |p|
  {
    if t < |p| {
      var init := p[..|p| - 1];
      InsertLastAt(init, x, t);
      assert init[..t] == p[..t];
      assert p[t..] == init[t..] + [p[|p| - 1]];
    } else {
      assert p[..t] == p;
    }
  }

  /** Writing the key into the gap the shifting loop of pass `i` leaves
      gives the prefix with the key inserted as `InsertLast` does: behind
      every element not greater than it. */
  lemma ShiftThenPlace(arr: seq<Element>, i: int)
    requires 0 < i < |arr|
    ensures var sh := ShiftGap(arr, arr[i], i - 1);
      sh.arr[sh.j + 1 := arr[i]] == InsertLast(arr[..i], arr[i]) + arr[i + 1..]
  {
    var key := arr[i];
    var p := arr[..i];
    var tail := arr[i + 1..];
    InitialGap(arr, i);
    ShiftShape(arr, key, i - 1, p, tail);
    var sh := ShiftGap(arr, key, i - 1);
    InsertLastAt(p, key, sh.j + 1);
    FillGap(sh.arr, p, sh.j + 1, tail, key);
  }

  lemma InitialGap(arr: seq<Element>, i: int)
    requires 0 <= i < |arr|
    ensures Gapped(arr, arr[..i], i, arr[i + 1..])
  {
  }

  /** Filling the gap restores a dense array. */
  lemma FillGap(arr: seq<Element>, p: seq<Element>, t: int, tail: seq<Element>, key: Element)
    requires Gapped(arr, p, t, tail)
    ensures arr[t := key] == p[..t] + [key] + p[t..] + tail
  {
    var c := arr[t := key];
    var want := p[..t] + [key] + p[t..] + tail;
    forall k | 0 <= k < |c|
      ensures c[k] == want[k]
    {
      if t < k <= |p| {
        assert want[k] == p[t..][k - t - 1];
      } else if k > |p| {
        assert want[k] == tail[k - |p| - 1];
      }
    }
  }

  /** Where one pass leaves the producer. */
  datatype Pass = Pass(steps: seq<SortStep<InsertionDesc>>, arr: seq<Element>, comparisons: nat, swaps: nat)

  /** Pass `i`: the "considering" step, the shifting loop, and the step that
      writes the key into the gap. The pass leaves `arr[i]` inserted into the
      prefix before it behind every element not greater than it. */
  function PassSteps(arr: seq<Element>, i: int, pass: nat, cmp: nat, swp: nat): (r: Pass)
    requires 0 < i < |arr|
    ensures r.arr == InsertLast(arr[..i], arr[i]) + arr[i + 1..]
  {
    var key := arr[i];
    var consider := Step(arr, NoMarks.(primary := [i]), Considering(key.value, i), Counters(pass, cmp, swp, Plain));
    var sh := ShiftSteps(arr, key, i, i - 1, pass, cmp, swp);
    var b := sh.arr[sh.j + 1 := key];
    var inserted := Step(b, NoMarks.(success := [sh.j + 1]), InsertedKey(key.value, sh.j + 1),
                         Counters(pass, sh.comparisons, swp + 1, Plain));
    ShiftThenPlace(arr, i);
    Pass([consider] + sh.steps + [inserted], b, sh.comparisons, swp + 1)
  }

  /** Where the outer loop leaves the producer. */
  datatype Loop = Loop(steps: seq<SortStep<InsertionDesc>>, arr: seq<Element>, passes: nat, comparisons: nat, swaps: nat)

  /** The outer loop from `i` while `i < n`. */
  function Outer(arr: seq<Element>, i: nat, passes: nat, cmp: nat, swp: nat): (r: Loop)
    requires 0 < i
    ensures |r.arr| == |arr|
    decreases |arr| - i
  {
    if i >= |arr| then Loop([], arr, passes, cmp, swp)
    else
      var p := PassSteps(arr, i, passes + 1, cmp, swp);
      var rest := Outer(p.arr, i + 1, passes + 1, p.comparisons, p.swaps);
      rest.(steps := p.steps + rest.steps)
  }

  /** With the prefix before `i` already the stable sort of the input's
      prefix, the remaining passes leave the stable sort of the input. */
  lemma {:induction false} OuterSorts(a: seq<Element>, arr: seq<Element>, i: nat, passes: nat, cmp: nat, swp: nat)
    requires 0 < i <= |a| == |arr|
    requires arr == SortByValue(a[..i]) + a[i..]
    ensures Outer(arr, i, passes, cmp, swp).arr == SortByValue(a)
    decreases |arr| - i
  {
    if i >= |arr| {
      assert a[..i] == a;
      assert arr == SortByValue(a) + [];
    } else {
      var s := SortByValue(a[..i]);
      assert arr[..i] == s;
      assert arr[i] == a[i];
      assert arr[i + 1..] == a[i + 1..];
      assert a[..i + 1][..i] == a[..i];
      assert SortByValue(a[..i + 1]) == InsertLast(s, a[i]);
      OuterSorts(a, PassSteps(arr, i, passes + 1, cmp, swp).arr, i + 1, passes + 1,
                 PassSteps(arr, i, passes + 1, cmp, swp).comparisons, PassSteps(arr, i, passes + 1, cmp, swp).swaps);
    }
  }

  /** The insertion sort producer: the untouched input with no highlights,
      the passes, and a final step marking every index sorted. */
  function InsertionSortSteps(a: seq<Element>): (r: seq<SortStep<InsertionDesc>>)
    ensures |r| >= 2
    ensures r[0] == Step(a, NoMarks, InsertionStart(|a|), Counters(0, 0, 0, Plain))
    ensures Last(r).marks.success == Range(|a|) && Last(r).desc == InsertionDone
  {
    var first := Step(a, NoMarks, InsertionStart(|a|), Counters(0, 0, 0, Plain));
    var loop := Outer(a, 1, 0, 0, 0);
    var last := Step(loop.arr, NoMarks.(success := Range(|a|)), InsertionDone,
                     Counters(loop.passes, loop.comparisons, loop.swaps, Plain));
    [first] + loop.steps + [last]
  }

  /** The last snapshot is the input sorted by value, equal values in their
      input order: shifting uses a strict `>`, so a key never passes an
      equal element. */
  lemma InsertionSortIsStable(a: seq<Element>)
    ensures Last(InsertionSortSteps(a)).snapshot == SortByValue(a)
    ensures Sorted(Last(InsertionSortSteps(a)).snapshot)
    ensures Stable(a, Last(InsertionSortSteps(a)).snapshot)
  {
    SortByValueStable(a);
    SortByValueSorts(a);
    if |a| >= 1 {
      assert a[..1] == [a[0]];
      assert SortByValue(a[..1]) == InsertLast([], a[0]);
      assert a == SortByValue(a[..1]) + a[1..];
      OuterSorts(a, a, 1, 0, 0, 0);
    }
  }

  // ---------------------------------------------------------------------
  // Every snapshot has the input's length. Shifting copies an element over
  // its neighbour while the key is held aside, so the snapshots in between
  // are not rearrangements of the input; only their length is kept.

  lemma {:induction false} ShiftSized(arr: seq<Element>, key: Element, i: int, j: int, pass: nat, cmp: nat, swp: nat)
    requires -1 <= j < i < |arr|
    ensures Sized(ShiftSteps(arr, key, i, j, pass, cmp, swp).steps, |arr|)
    decreases j + 1
  {
    if j >= 0 && arr[j].value > key.value {
      var b := arr[j + 1 := arr[j]];
      var r := ShiftSteps(arr, key, i, j, pass, cmp, swp);
      var rest := ShiftSteps(b, key, i, j - 1, pass, cmp + 1, swp);
      ShiftSized(b, key, i, j - 1, pass, cmp + 1, swp);
      assert r.steps == r.steps[..2] + rest.steps;
      assert |r.steps[0].snapshot| == |r.steps[1].snapshot| == |arr|;
      SizedAppend(r.steps[..2], rest.steps, |arr|);
    }
  }

  lemma PassSized(arr: seq<Element>, i: int, pass: nat, cmp: nat, swp: nat)
    requires 0 < i < |arr|
    ensures Sized(PassSteps(arr, i, pass, cmp, swp).steps, |arr|)
  {
    var sh := ShiftSteps(arr, arr[i], i, i - 1, pass, cmp, swp);
    var r := PassSteps(arr, i, pass, cmp, swp);
    ShiftSized(arr, arr[i], i, i - 1, pass, cmp, swp);
    ShiftThenPlace(arr, i);
    assert r.steps == [r.steps[0]] + sh.steps + [Last(r.steps)];
    SizedAppend([r.steps[0]], sh.steps, |arr|);
    SizedAppend([r.steps[0]] + sh.steps, [Last(r.steps)], |arr|);
  }

  lemma {:induction false} OuterSized(arr: seq<Element>, i: nat, passes: nat, cmp: nat, swp: nat)
    requires 0 < i
    ensures Sized(Outer(arr, i, passes, cmp, swp).steps, |arr|)
    decreases |arr| - i
  {
    if i < |arr| {
      var p := PassSteps(arr, i, passes + 1, cmp, swp);
      PassSized(arr, i, passes + 1, cmp, swp);
      ShiftThenPlace(arr, i);
      OuterSized(p.arr, i + 1, passes + 1, p.comparisons, p.swaps);
      SizedAppend(p.steps, Outer(p.arr, i + 1, passes + 1, p.comparisons, p.swaps).steps, |arr|);
    }
  }

  /** Every snapshot of the insertion sort producer has the input's length. */
  lemma InsertionSortSized(a: seq<Element>)
    ensures Sized(InsertionSortSteps(a), |a|)
  {
    var r := InsertionSortSteps(a);
    var loop := Outer(a, 1, 0, 0, 0);
    OuterSized(a, 1, 0, 0, 0);
    assert r == [r[0]] + loop.steps + [Last(r)];
    SizedAppend([r[0]], loop.steps, |a|);
    SizedAppend([r[0]] + loop.steps, [Last(r)], |a|);
  }
}
