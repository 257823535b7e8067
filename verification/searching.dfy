/** `linearSearch.steps` and `binarySearch.steps`
    (src/utils/algorithms/searching.js:43-81, 134-214). Both read a slot array
    that may hold nulls and never change it; they report positions through
    the `highlightedPointers` channel. */
module Searching {
  import opened Steps

  /** What a searching step says. */
  datatype SearchDesc =
    | LinearStart(target: int)
    | Checking(at: int, v: int, target: int)
    | FoundAt(target: int, at: int)
    | BinaryStart(target: int, start: int, end: int)
    | MidComputed(start: int, end: int, mid: int, v: int)
    | BinaryFound(target: int, mid: int, original: int)
    | DiscardLeft(v: int, target: int, start: int)
    | DiscardRight(v: int, target: int, end: int)
    | SearchNotFound(target: int)

  type SearchStep = Step<seq<Slot>, Probe, SearchDesc>

  /** Slot `k` holds an element whose value is the target. */
  predicate Matches(a: seq<Slot>, target: int, k: int)
    requires 0 <= k < |a|
  {
    a[k].Some? && a[k].value.value == target
  }

  predicate IsStart(d: SearchDesc) { d.LinearStart? || d.BinaryStart? }

  predicate IsTerminal(d: SearchDesc) { d.FoundAt? || d.BinaryFound? || d.SearchNotFound? }

  predicate IsMid(d: SearchDesc) { d.MidComputed? }

  /** Every step shows the array it was given. */
  predicate Shows(s: seq<SearchStep>, a: seq<Slot>)
  {
    forall k :: 0 <= k < |s| ==> s[k].snapshot == a
  }

  // ---------------------------------------------------------------------
  // Linear search

  /** The loop from slot `i`: null slots are skipped, every other slot is
      checked, and the first match ends the search. */
  function LinearScan(a: seq<Slot>, target: int, i: nat): (s: seq<SearchStep>)
    requires i <= |a|
    ensures s != []
    decreases |a| - i
  {
    if i == |a| then
      [Step(a, Probe(NoPointers, None), SearchNotFound(target), NoMeta)]
    else if a[i].None? then LinearScan(a, target, i + 1)
    else
      var check := Step(a, Probe(NoPointers.(pointer := Some(i)), None),
                        Checking(i, a[i].value.value, target), NoMeta);
      if a[i].value.value == target then
        [check, Step(a, Probe(NoPointers.(success := Some(i)), None), FoundAt(target, i), NoMeta)]
      else [check] + LinearScan(a, target, i + 1)
  }

  /** The linear search producer. */
  function LinearSearchSteps(a: seq<Slot>, target: int): (s: seq<SearchStep>)
    ensures |s| >= 2 && s[0].desc == LinearStart(target)
  {
    [Step(a, Probe(NoPointers, None), LinearStart(target), NoMeta)] + LinearScan(a, target, 0)
  }

  /** The slot indices the checking steps point at, in order. */
  function Probed(s: seq<SearchStep>): (r: seq<int>)
    ensures |r| <= |s|
  {
    if s == [] then []
    else (if s[0].desc.Checking? then [s[0].desc.at] else []) + Probed(s[1..])
  }

  /** How a scan from `i` may end: at the first slot from `i` on that holds
      the target, with a success pointer on it, or not-found with no
      pointers when no slot from `i` on holds it. */
  predicate LinearEnds(s: seq<SearchStep>, a: seq<Slot>, target: int, i: nat)
    requires s != []
  {
    var l := Last(s);
    && (l.desc.FoundAt? || (l.desc == SearchNotFound(target) && l.marks == Probe(NoPointers, None)))
    && (l.desc.FoundAt? ==>
          && i <= l.desc.at < |a| && Matches(a, target, l.desc.at) && l.desc.target == target
          && l.marks == Probe(NoPointers.(success := Some(l.desc.at)), None)
          && (forall k :: i <= k < l.desc.at ==> !Matches(a, target, k)))
    && (l.desc.SearchNotFound? ==> forall k :: i <= k < |a| ==> !Matches(a, target, k))
  }

  lemma {:induction false} LinearOutcome(a: seq<Slot>, target: int, i: nat)
    requires i <= |a|
    ensures LinearEnds(LinearScan(a, target, i), a, target, i)
    decreases |a| - i
  {
    if i < |a| {
      LinearOutcome(a, target, i + 1);
      OutcomeStep(a, target, i);
    }
  }

  /** One slot in front of the outcome from `i + 1`. */
  lemma OutcomeStep(a: seq<Slot>, target: int, i: nat)
    requires i < |a| && LinearEnds(LinearScan(a, target, i + 1), a, target, i + 1)
    ensures LinearEnds(LinearScan(a, target, i), a, target, i)
  {
    if a[i].Some? && a[i].value.value != target {
      var s := LinearScan(a, target, i);
      LastAppend([s[0]], LinearScan(a, target, i + 1));
    }
  }

  /** Where a scan stops: after the slot it reports, or at the end. */
  function Stop(s: seq<SearchStep>, a: seq<Slot>): int
    requires s != []
  {
    if Last(s).desc.FoundAt? then Last(s).desc.at + 1 else |a|
  }

  /** The indices `p` lie in `[i, stop)`, strictly left to right, only at
      non-null slots, and include every non-null slot there. */
  predicate VisitsFrom(p: seq<int>, a: seq<Slot>, i: int, stop: int)
  {
    && (forall m :: 0 <= m < |p| ==> i <= p[m] < stop && 0 <= p[m] < |a| && a[p[m]].Some?)
    && (forall m, n :: 0 <= m < n < |p| ==> p[m] < p[n])
    && (forall k :: i <= k < stop && 0 <= k < |a| && a[k].Some? ==> k in p)
  }

  /** The checking steps of a scan from `i` visit the non-null slots from
      `i` on, left to right, up to where the scan stops. */
  predicate Visits(s: seq<SearchStep>, a: seq<Slot>, i: nat)
    requires s != []
  {
    VisitsFrom(Probed(s), a, i, Stop(s, a))
  }

  lemma {:induction false} LinearVisits(a: seq<Slot>, target: int, i: nat)
    requires i <= |a|
    ensures Visits(LinearScan(a, target, i), a, i)
    decreases |a| - i
  {
    if i < |a| {
      LinearVisits(a, target, i + 1);
      VisitStep(a, target, i);
    }
  }

  /** One slot in front of the visits from `i + 1`. */
  lemma VisitStep(a: seq<Slot>, target: int, i: nat)
    requires i < |a| && Visits(LinearScan(a, target, i + 1), a, i + 1)
    ensures Visits(LinearScan(a, target, i), a, i)
  {
    var s := LinearScan(a, target, i);
    var rest := LinearScan(a, target, i + 1);
    if a[i].None? {
      VisitsSkip(Probed(rest), a, i, Stop(rest, a));
    } else if a[i].value.value == target {
      assert s[1..][1..] == [];
      assert Probed(s) == [i];
    } else {
      assert s[1..] == rest;
      LastAppend([s[0]], rest);
      assert Probed(s) == [i] + Probed(rest);
      assert Stop(s, a) == Stop(rest, a);
      LinearOutcome(a, target, i + 1);
      VisitsCons(Probed(rest), a, i, Stop(rest, a));
    }
  }

  lemma VisitsSkip(p: seq<int>, a: seq<Slot>, i: int, stop: int)
    requires 0 <= i < |a| && a[i].None? && VisitsFrom(p, a, i + 1, stop)
    ensures VisitsFrom(p, a, i, stop)
  {
  }

  lemma VisitsCons(p: seq<int>, a: seq<Slot>, i: int, stop: int)
    requires 0 <= i < |a| && i < stop && a[i].Some? && VisitsFrom(p, a, i + 1, stop)
    ensures VisitsFrom([i] + p, a, i, stop)
  {
  }

  /** Every step shows the unchanged array, no step is a starting step, and
      exactly one step is terminal: the last. */
  predicate LoopShaped(s: seq<SearchStep>, a: seq<Slot>)
  {
    s != [] && Shows(s, a) && Count(s, IsStart) == 0
    && Count(s, IsTerminal) == 1 && IsTerminal(Last(s).desc)
  }

  /** Up to two non-terminal steps put in front of a shaped run. */
  lemma ShapeStep(s: seq<SearchStep>, n: int, rest: seq<SearchStep>, a: seq<Slot>)
    requires 1 <= n <= 2 && n <= |s| && s[n..] == rest && LoopShaped(rest, a)
    requires forall k :: 0 <= k < n ==> s[k].snapshot == a && !IsStart(s[k].desc) && !IsTerminal(s[k].desc)
    ensures LoopShaped(s, a)
  {
    CountHead(s, n, IsStart);
    CountHead(s, n, IsTerminal);
    LastAppend(s[..n], rest);
    assert s == s[..n] + rest;
  }

  lemma {:induction false} LinearScanShape(a: seq<Slot>, target: int, i: nat)
    requires i <= |a|
    ensures LoopShaped(LinearScan(a, target, i), a)
    decreases |a| - i
  {
    if i < |a| {
      LinearScanShape(a, target, i + 1);
      var s := LinearScan(a, target, i);
      if a[i].Some? {
        if a[i].value.value == target {
          CountHead(s, 2, IsStart);
          CountHead(s, 2, IsTerminal);
        } else {
          ShapeStep(s, 1, LinearScan(a, target, i + 1), a);
        }
      }
    }
  }

  /** The linear search opens with its one starting step, shows the input
      unchanged throughout, and ends on its one terminal step. */
  lemma LinearSearchShape(a: seq<Slot>, target: int)
    ensures var s := LinearSearchSteps(a, target);
      && Shows(s, a) && s[0].marks == Probe(NoPointers, None)
      && Count(s, IsStart) == 1 && Count(s, IsTerminal) == 1 && IsTerminal(Last(s).desc)
  {
    var s := LinearSearchSteps(a, target);
    LinearScanShape(a, target, 0);
    assert s[1..] == LinearScan(a, target, 0);
    StartThen(s, s[1..], a);
  }

  /** The linear search reports the first slot holding the target, or
      not-found when no slot does; its checking steps visit the non-null
      slots left to right up to the one it reports. */
  lemma LinearSearchFinds(a: seq<Slot>, target: int)
    ensures var s := LinearSearchSteps(a, target);
      && (Last(s).desc.FoundAt? <==> exists k :: 0 <= k < |a| && Matches(a, target, k))
      && (Last(s).desc.FoundAt? ==>
            && 0 <= Last(s).desc.at < |a| && Matches(a, target, Last(s).desc.at)
            && (forall k :: 0 <= k < Last(s).desc.at ==> !Matches(a, target, k)))
      && (!Last(s).desc.FoundAt? ==> Last(s).desc == SearchNotFound(target) && Last(s).marks == Probe(NoPointers, None))
      && Visits(s, a, 0)
  {
    var s := LinearSearchSteps(a, target);
    var scan := LinearScan(a, target, 0);
    LinearOutcome(a, target, 0);
    LinearVisits(a, target, 0);
    LastAppend([s[0]], scan);
    assert s[1..] == scan;
    assert Probed(s) == Probed(scan);
  }

  // ---------------------------------------------------------------------
  // Binary search

  /** The index lookup by id, from slot `i`:
      the first non-null slot with that id, or -1. */
  function FindIndex(a: seq<Slot>, id: nat, i: nat): (r: int)
    requires i <= |a|
    ensures r == -1 || (i <= r < |a| && a[r].Some? && a[r].value.id == id)
    decreases |a| - i
  {
    if i == |a| then -1
    else if a[i].Some? && a[i].value.id == id then i
    else FindIndex(a, id, i + 1)
  }

  /** For each element of the null-free view, the slot its id is found at. */
  function OriginalIndices(a: seq<Slot>): (r: seq<int>)
    ensures |r| == |Compact(a)|
  {
    var c := Compact(a);
    seq(|c|, k requires 0 <= k < |c| => FindIndex(a, c[k].id, 0))
  }

  /** A JS array read: `undefined` (here `None`) outside the array. */
  function At(s: seq<int>, k: int): Option<int>
  {
    if 0 <= k < |s| then Some(s[k]) else None
  }

  /** `s.slice(from, to)` for `0 <= from` and `to <= |s|`. */
  function Slice(s: seq<int>, from: int, to: int): seq<int>
    requires 0 <= from && to <= |s|
  {
    if to <= from then [] else s[from..to]
  }

  /** The pointers and active range of the steps that show `[start, end]`. */
  function Frame(orig: seq<int>, start: int, end: int): Probe
    requires 0 <= start && end < |orig|
  {
    Probe(NoPointers.(start := At(orig, start), end := At(orig, end)), Some(Slice(orig, start, end + 1)))
  }

  /** The step that shows the probe at `mid`. */
  function ProbeAt(a: seq<Slot>, orig: seq<int>, start: int, end: int, mid: int, v: int): SearchStep
    requires 0 <= start <= mid <= end < |orig|
  {
    var f := Frame(orig, start, end);
    Step(a, f.(pointers := f.pointers.(mid := Some(orig[mid]))), MidComputed(start, end, mid, v), NoMeta)
  }

  /** The terminal step of a successful binary search. */
  function FoundStep(a: seq<Slot>, orig: seq<int>, target: int, mid: int): SearchStep
    requires 0 <= mid < |orig|
  {
    Step(a, Probe(NoPointers.(success := Some(orig[mid])), Some([])), BinaryFound(target, mid, orig[mid]), NoMeta)
  }

  /** The step that shows the range kept after a probe that missed: the
      right half when the probed value is below the target, else the left. */
  function NarrowStep(a: seq<Slot>, orig: seq<int>, v: int, target: int, start: int, end: int): SearchStep
    requires 0 <= start && end < |orig|
  {
    Step(a, Frame(orig, start, end),
         if v < target then DiscardLeft(v, target, start) else DiscardRight(v, target, end), NoMeta)
  }

  /** The loop `while (start <= end)` over the null-free view `arr`. */
  function BinaryLoop(a: seq<Slot>, arr: seq<Element>, orig: seq<int>, target: int, start: int, end: int): (s: seq<SearchStep>)
    requires 0 <= start <= end + 1 <= |arr| == |orig|
    ensures s != []
    decreases end - start + 1
  {
    if start > end then
      [Step(a, Probe(NoPointers, Some([])), SearchNotFound(target), NoMeta)]
    else
      var mid := start + (end - start) / 2;
      var v := arr[mid].value;
      if v == target then
        [ProbeAt(a, orig, start, end, mid, v), FoundStep(a, orig, target, mid)]
      else
        var start' := if v < target then mid + 1 else start;
        var end' := if v < target then end else mid - 1;
        [ProbeAt(a, orig, start, end, mid, v), NarrowStep(a, orig, v, target, start', end')]
          + BinaryLoop(a, arr, orig, target, start', end')
  }

  /** The binary search producer: it searches the null-free view and
      reports slot indices through the original-index table. */
  function BinarySearchSteps(a: seq<Slot>, target: int): (s: seq<SearchStep>)
    ensures |s| >= 2 && s[0].desc == BinaryStart(target, 0, |Compact(a)| - 1)
  {
    var arr := Compact(a);
    var orig := OriginalIndices(a);
    [Step(a, Frame(orig, 0, |arr| - 1), BinaryStart(target, 0, |arr| - 1), NoMeta)]
      + BinaryLoop(a, arr, orig, target, 0, |arr| - 1)
  }

  /** How the loop over `[start, end]` may end: found at a probe inside the
      range that holds the target, reported through the original-index table
      with an empty range, or not found with no pointers and an empty range. */
  predicate BinaryEnds(s: seq<SearchStep>, arr: seq<Element>, orig: seq<int>, target: int, start: int, end: int)
    requires s != [] && |arr| == |orig|
  {
    var l := Last(s);
    || (l.desc == SearchNotFound(target) && l.marks == Probe(NoPointers, Some([])))
    || (&& l.desc.BinaryFound? && start <= l.desc.mid <= end && 0 <= l.desc.mid < |arr|
        && arr[l.desc.mid].value == target
        && l.desc == BinaryFound(target, l.desc.mid, orig[l.desc.mid])
        && l.marks == Probe(NoPointers.(success := Some(orig[l.desc.mid])), Some([])))
  }

  /** Where the loop goes after a probe at `mid` misses: to the right half
      when the probed value is below the target, else to the left half. */
  function NextStart(arr: seq<Element>, target: int, start: int, end: int): int
    requires 0 <= start <= end < |arr|
  {
    var mid := start + (end - start) / 2;
    if arr[mid].value < target then mid + 1 else start
  }

  function NextEnd(arr: seq<Element>, target: int, start: int, end: int): int
    requires 0 <= start <= end < |arr|
  {
    var mid := start + (end - start) / 2;
    if arr[mid].value < target then end else mid - 1
  }

  /** One iteration of the loop: the probe, then either the found step or
      a narrowing step and the loop over the strictly smaller half kept.
      The probe shows the original indices of `[start, end]` as its active
      range and the narrowing step those of the half kept. */
  lemma LoopHead(a: seq<Slot>, arr: seq<Element>, orig: seq<int>, target: int, start: int, end: int)
    requires 0 <= start <= end < |arr| == |orig|
    ensures var s := BinaryLoop(a, arr, orig, target, start, end);
      var mid := start + (end - start) / 2;
      var v := arr[mid].value;
      var start' := NextStart(arr, target, start, end);
      var end' := NextEnd(arr, target, start, end);
      && |s| >= 2 && start <= mid <= end
      && s[0] == ProbeAt(a, orig, start, end, mid, v)
      && s[1].snapshot == a && !IsStart(s[1].desc) && !IsMid(s[1].desc)
      && (v == target ==> s == [s[0], FoundStep(a, orig, target, mid)])
      && s[0].marks.activeRange == Some(orig[start..end + 1])
      && (v != target ==>
            && start <= start' <= end' + 1 <= end + 1 && end' - start' < end - start
            && s[1].marks.activeRange == Some(if start' <= end' then orig[start'..end' + 1] else [])
            && s[2..] == BinaryLoop(a, arr, orig, target, start', end') && !IsTerminal(s[1].desc))
  {
  }

  lemma {:induction false} BinaryOutcome(a: seq<Slot>, arr: seq<Element>, orig: seq<int>, target: int, start: int, end: int)
    requires 0 <= start <= end + 1 <= |arr| == |orig|
    ensures BinaryEnds(BinaryLoop(a, arr, orig, target, start, end), arr, orig, target, start, end)
    decreases end - start + 1
  {
    if start <= end {
      LoopHead(a, arr, orig, target, start, end);
      var mid := start + (end - start) / 2;
      var s := BinaryLoop(a, arr, orig, target, start, end);
      if arr[mid].value != target {
        var start', end' := NextStart(arr, target, start, end), NextEnd(arr, target, start, end);
        BinaryOutcome(a, arr, orig, target, start', end');
        EndsStep(s, s[2..], arr, orig, target, start, end, start', end');
      }
    }
  }

  /** Two steps in front of the loop over a sub-range end the same way. */
  lemma EndsStep(s: seq<SearchStep>, rest: seq<SearchStep>, arr: seq<Element>, orig: seq<int>, target: int,
                 start: int, end: int, start': int, end': int)
    requires |s| >= 2 && s[2..] == rest && rest != [] && |arr| == |orig|
    requires start <= start' && end' <= end
    requires BinaryEnds(rest, arr, orig, target, start', end')
    ensures BinaryEnds(s, arr, orig, target, start, end)
  {
    LastOfTwo(s, rest);
  }

  lemma LastOfTwo(s: seq<SearchStep>, rest: seq<SearchStep>)
    requires |s| >= 2 && s[2..] == rest && rest != []
    ensures Last(s) == Last(rest)
  {
  }

  /** On an ascending view, a copy of the target inside `[start, end]` is
      always found: the probe never discards the half that holds it. */
  lemma {:induction false} BinaryComplete(a: seq<Slot>, arr: seq<Element>, orig: seq<int>, target: int, start: int, end: int, k: int)
    requires 0 <= start <= end + 1 <= |arr| == |orig|
    requires Sorted(arr) && start <= k <= end && arr[k].value == target
    ensures Last(BinaryLoop(a, arr, orig, target, start, end)).desc.BinaryFound?
    decreases end - start + 1
  {
    LoopHead(a, arr, orig, target, start, end);
    var mid := start + (end - start) / 2;
    var s := BinaryLoop(a, arr, orig, target, start, end);
    if arr[mid].value != target {
      var start', end' := NextStart(arr, target, start, end), NextEnd(arr, target, start, end);
      KeepsTarget(arr, target, start, end, k);
      BinaryComplete(a, arr, orig, target, start', end', k);
      LastOfTwo(s, s[2..]);
    }
  }

  /** On an ascending view the half kept after a miss still holds `k`. */
  lemma KeepsTarget(arr: seq<Element>, target: int, start: int, end: int, k: int)
    requires 0 <= start <= k <= end < |arr| && Sorted(arr) && arr[k].value == target
    requires arr[start + (end - start) / 2].value != target
    ensures NextStart(arr, target, start, end) <= k <= NextEnd(arr, target, start, end)
  {
  }

  lemma {:induction false} BinaryLoopShape(a: seq<Slot>, arr: seq<Element>, orig: seq<int>, target: int, start: int, end: int)
    requires 0 <= start <= end + 1 <= |arr| == |orig|
    ensures LoopShaped(BinaryLoop(a, arr, orig, target, start, end), a)
    decreases end - start + 1
  {
    if start <= end {
      LoopHead(a, arr, orig, target, start, end);
      var mid := start + (end - start) / 2;
      var s := BinaryLoop(a, arr, orig, target, start, end);
      if arr[mid].value != target {
        BinaryLoopShape(a, arr, orig, target, NextStart(arr, target, start, end), NextEnd(arr, target, start, end));
        ShapeStep(s, 2, s[2..], a);
      } else {
        CountHead(s, 2, IsStart);
        CountHead(s, 2, IsTerminal);
      }
    }
  }

  /** Every probe lies inside `[start, end]`, inside the range it halves,
      and reads the view there; since every iteration shrinks the range,
      there are at most as many probes as elements in it. */
  predicate ProbesIn(s: seq<SearchStep>, arr: seq<Element>, start: int, end: int)
  {
    && (forall k :: 0 <= k < |s| && s[k].desc.MidComputed? ==>
          && start <= s[k].desc.start <= s[k].desc.mid <= s[k].desc.end <= end
          && 0 <= s[k].desc.mid < |arr| && s[k].desc.v == arr[s[k].desc.mid].value)
    && Count(s, IsMid) <= end - start + 1
  }

  /** A probe and a narrowing step in front of the loop over a strictly
      smaller range. */
  lemma ProbeStep(s: seq<SearchStep>, rest: seq<SearchStep>, arr: seq<Element>, start: int, end: int, start': int, end': int)
    requires |s| >= 2 && s[2..] == rest && ProbesIn(rest, arr, start', end')
    requires start <= start' && end' <= end && end' - start' < end - start
    requires s[0].desc.MidComputed? && start <= s[0].desc.start <= s[0].desc.mid <= s[0].desc.end <= end
    requires 0 <= s[0].desc.mid < |arr| && s[0].desc.v == arr[s[0].desc.mid].value
    requires !s[1].desc.MidComputed?
    ensures ProbesIn(s, arr, start, end)
  {
    CountHead(s, 2, IsMid);
    forall k | 0 <= k < |s| && s[k].desc.MidComputed?
      ensures start <= s[k].desc.start <= s[k].desc.mid <= s[k].desc.end <= end
      ensures 0 <= s[k].desc.mid < |arr| && s[k].desc.v == arr[s[k].desc.mid].value
    {
      if k >= 2 {
        assert s[k] == rest[k - 2];
      }
    }
  }

  lemma {:induction false} BinaryProbes(a: seq<Slot>, arr: seq<Element>, orig: seq<int>, target: int, start: int, end: int)
    requires 0 <= start <= end + 1 <= |arr| == |orig|
    ensures ProbesIn(BinaryLoop(a, arr, orig, target, start, end), arr, start, end)
    decreases end - start + 1
  {
    if start <= end {
      LoopHead(a, arr, orig, target, start, end);
      var mid := start + (end - start) / 2;
      var s := BinaryLoop(a, arr, orig, target, start, end);
      if arr[mid].value != target {
        var start', end' := NextStart(arr, target, start, end), NextEnd(arr, target, start, end);
        BinaryProbes(a, arr, orig, target, start', end');
        ProbeStep(s, s[2..], arr, start, end, start', end');
      } else {
        CountHead(s, 2, IsMid);
      }
    } else {
      CountHead(BinaryLoop(a, arr, orig, target, start, end), 1, IsMid);
    }
  }

  /** The binary search opens with its one starting step over the whole
      view, shows the input unchanged throughout, probes at most once per
      element of the view, and ends on its one terminal step. */
  lemma BinarySearchShape(a: seq<Slot>, target: int)
    ensures var s := BinarySearchSteps(a, target);
      && Shows(s, a) && Count(s, IsStart) == 1
      && Count(s, IsTerminal) == 1 && IsTerminal(Last(s).desc)
      && Count(s, IsMid) <= |Compact(a)|
  {
    var s := BinarySearchSteps(a, target);
    var n := |Compact(a)|;
    var loop := BinaryLoop(a, Compact(a), OriginalIndices(a), target, 0, n - 1);
    BinaryLoopShape(a, Compact(a), OriginalIndices(a), target, 0, n - 1);
    BinaryProbes(a, Compact(a), OriginalIndices(a), target, 0, n - 1);
    assert s[1..] == loop;
    StartThen(s, loop, a);
  }

  /** A starting step in front of a shaped loop run. */
  lemma StartThen(s: seq<SearchStep>, loop: seq<SearchStep>, a: seq<Slot>)
    requires |s| >= 1 && s[1..] == loop && LoopShaped(loop, a)
    requires s[0].snapshot == a && IsStart(s[0].desc) && !IsTerminal(s[0].desc) && !IsMid(s[0].desc)
    ensures Shows(s, a) && Count(s, IsStart) == 1
    ensures Count(s, IsTerminal) == 1 && IsTerminal(Last(s).desc)
    ensures Count(s, IsMid) == Count(loop, IsMid)
  {
    CountHead(s, 1, IsStart);
    CountHead(s, 1, IsTerminal);
    CountHead(s, 1, IsMid);
    LastAppend([s[0]], loop);
    assert s == [s[0]] + loop;
  }

  // ---------------------------------------------------------------------
  // The original-index table

  /** No two occupied slots share an id. */
  predicate DistinctIds(a: seq<Slot>)
  {
    forall p, q :: 0 <= p < q < |a| && a[p].Some? && a[q].Some? ==> a[p].value.id != a[q].value.id
  }

  /** Every element of the null-free view sits in some slot. */
  lemma {:induction false} CompactFrom(a: seq<Slot>, k: int)
    requires 0 <= k < |Compact(a)|
    ensures exists p :: 0 <= p < |a| && a[p] == Some(Compact(a)[k])
    decreases |a|
  {
    var init := a[..|a| - 1];
    if k < |Compact(init)| {
      CompactFrom(init, k);
      var p :| 0 <= p < |init| && init[p] == Some(Compact(init)[k]);
      assert a[p] == init[p];
    } else {
      assert a[|a| - 1] == Some(Compact(a)[k]);
    }
  }

  /** Every occupied slot's element is in the null-free view. */
  lemma {:induction false} SlotInCompact(a: seq<Slot>, p: int)
    requires 0 <= p < |a| && a[p].Some?
    ensures a[p].value in Compact(a)
    decreases |a|
  {
    if p < |a| - 1 {
      SlotInCompact(a[..|a| - 1], p);
    }
  }

  lemma SlotsInCompact(a: seq<Slot>)
    ensures forall p :: 0 <= p < |a| && a[p].Some? ==> a[p].value in Compact(a)
  {
    forall p | 0 <= p < |a| && a[p].Some?
      ensures a[p].value in Compact(a)
    {
      SlotInCompact(a, p);
    }
  }

  /** A table that places every element of a view in a slot, for a view
      that holds every occupied slot's element, finds the target in the
      view exactly when some slot holds it. */
  lemma TableFinds(a: seq<Slot>, c: seq<Element>, orig: seq<int>, target: int)
    requires |orig| == |c|
    requires forall k :: 0 <= k < |c| ==> 0 <= orig[k] < |a| && a[orig[k]] == Some(c[k])
    requires forall p :: 0 <= p < |a| && a[p].Some? ==> a[p].value in c
    ensures (exists p :: 0 <= p < |a| && Matches(a, target, p)) <==> (exists k :: 0 <= k < |c| && c[k].value == target)
  {
    if exists p :: 0 <= p < |a| && Matches(a, target, p) {
      var p :| 0 <= p < |a| && Matches(a, target, p);
      var k :| 0 <= k < |c| && c[k] == a[p].value;
    }
    if exists k :: 0 <= k < |c| && c[k].value == target {
      var k :| 0 <= k < |c| && c[k].value == target;
      assert Matches(a, target, orig[k]);
    }
  }

  /** `findIndex` finds a slot holding the id whenever one exists. */
  lemma {:induction false} FindIndexFinds(a: seq<Slot>, id: nat, i: nat, p: int)
    requires i <= p < |a| && a[p].Some? && a[p].value.id == id
    ensures FindIndex(a, id, i) != -1
    decreases |a| - i
  {
    if i < p {
      FindIndexFinds(a, id, i + 1, p);
    }
  }

  /** With distinct ids, entry `k` of the original-index table is the slot
      holding element `k` of the null-free view. */
  lemma OriginalIndicesAreSlots(a: seq<Slot>)
    requires DistinctIds(a)
    ensures forall k :: 0 <= k < |Compact(a)| ==>
      0 <= OriginalIndices(a)[k] < |a| && a[OriginalIndices(a)[k]] == Some(Compact(a)[k])
  {
    var c := Compact(a);
    forall k | 0 <= k < |c|
      ensures 0 <= OriginalIndices(a)[k] < |a| && a[OriginalIndices(a)[k]] == Some(c[k])
    {
      CompactFrom(a, k);
      var p :| 0 <= p < |a| && a[p] == Some(c[k]);
      FindIndexFinds(a, c[k].id, 0, p);
      assert FindIndex(a, c[k].id, 0) == p;
    }
  }

  /** The search ends where its loop over the whole view ends. */
  lemma SearchLast(a: seq<Slot>, target: int)
    ensures Last(BinarySearchSteps(a, target))
         == Last(BinaryLoop(a, Compact(a), OriginalIndices(a), target, 0, |Compact(a)| - 1))
  {
    var s := BinarySearchSteps(a, target);
    LastAppend([s[0]], BinaryLoop(a, Compact(a), OriginalIndices(a), target, 0, |Compact(a)| - 1));
  }

  /** On an array whose non-null values ascend and whose ids are distinct,
      binary search succeeds exactly when some slot holds the target, and
      then its success pointer is such a slot; otherwise its last step says
      not found with no pointers and an empty range. */
  lemma BinarySearchFinds(a: seq<Slot>, target: int)
    requires Sorted(Compact(a)) && DistinctIds(a)
    ensures var l := Last(BinarySearchSteps(a, target));
      && (l.desc.BinaryFound? <==> exists p :: 0 <= p < |a| && Matches(a, target, p))
      && (l.desc.BinaryFound? ==>
            && l.marks.pointers.success.Some?
            && 0 <= l.marks.pointers.success.value < |a|
            && Matches(a, target, l.marks.pointers.success.value))
      && (!l.desc.BinaryFound? ==> l.desc == SearchNotFound(target) && l.marks == Probe(NoPointers, Some([])))
  {
    var c := Compact(a);
    var orig := OriginalIndices(a);
    var l := Last(BinaryLoop(a, c, orig, target, 0, |c| - 1));
    SearchLast(a, target);
    BinaryOutcome(a, c, orig, target, 0, |c| - 1);
    OriginalIndicesAreSlots(a);
    SlotsInCompact(a);
    TableFinds(a, c, orig, target);
    if exists k :: 0 <= k < |c| && c[k].value == target {
      var k :| 0 <= k < |c| && c[k].value == target;
      BinaryComplete(a, c, orig, target, 0, |c| - 1, k);
    }
    if l.desc.BinaryFound? {
      assert a[orig[l.desc.mid]] == Some(c[l.desc.mid]);
    }
  }
}
