/** The six binary-search problem producers
    (src/utils/algorithms/binarySearchProblems.js): first and last
    occurrence, peak of a mountain, search in a rotated array, minimum of a
    rotated array, and integer square root. Each reads a dense element
    array it never changes and stores its scalar pointers in the
    `highlightedIndices` channel. */
module BinarySearchProblems {
  import opened Steps

  /** Which end of a run of equal values an occurrence search looks for. */
  datatype Occurrence = Earliest | Latest

  /** What a binary-search problem step says. */
  datatype ProblemDesc =
    | OccurrenceStart(which: Occurrence, target: int, left: int, right: int)
    | CheckMid(mid: int, v: int)
    | HitGoLeft(target: int, mid: int)
    | HitGoRight(target: int, mid: int)
    | TargetGreater(target: int, v: int)
    | TargetLess(target: int, v: int)
    | OccurrenceFound(which: Occurrence, target: int, at: int)
    | ProblemNotFound(target: int)
    | PeakStart(left: int, right: int)
    | PeakLeft(mid: int, a: int, b: int)
    | PeakRight(mid: int, a: int, b: int)
    | PeakFound(at: int, atValue: Option<int>)
    | RotatedStart(target: int, left: int, right: int)
    | RotatedFound(target: int, at: int)
    | LeftSortedIn(left: int, last: int, target: int, lo: int, hi: int)
    | LeftSortedOut(target: int)
    | RightSortedIn(first: int, right: int, target: int, lo: int, hi: int)
    | RightSortedOut(target: int)
    | RotatedNotFound(target: int)
    | MinStart(left: int, right: int)
    | MinGoRight(mid: int, a: int, right: int, b: int)
    | MinGoLeft(mid: int, a: int, right: int, b: int)
    | MinFound(at: int, atValue: Option<int>)
    | SqrtStart(x: int, left: int, right: int)
    | SqrtCheck(mid: int, square: int, x: int)
    | SqrtFits(mid: int, square: int, x: int)
    | SqrtTooBig(mid: int, square: int, x: int)
    | SqrtResult(x: int, result: int, square: int)

  type ProblemStep = SortStep<ProblemDesc>

  // ---------------------------------------------------------------------
  // Highlights

  /** `{ start: left, end: right }`. */
  function Window(left: int, right: int): Marks
  {
    NoMarks.(pointers := NoPointers.(start := Some(left), end := Some(right)))
  }

  /** `{ start: left, end: right, mid: mid }`. */
  function ProbeMarks(left: int, right: int, mid: int): Marks
  {
    NoMarks.(pointers := NoPointers.(start := Some(left), end := Some(right), mid := Some(mid)))
  }

  /** `{ start: left, end: right, mid: mid, success: mid }`. */
  function HitMarks(left: int, right: int, mid: int): Marks
  {
    NoMarks.(pointers := NoPointers.(start := Some(left), end := Some(right), mid := Some(mid), success := Some(mid)))
  }

  /** `{ success: at }`. */
  function SuccessMarks(at: int): Marks
  {
    NoMarks.(pointers := NoPointers.(success := Some(at)))
  }

  /** A JS array read of a value: `undefined` (here `None`) outside. */
  function ValueAt(a: seq<Element>, k: int): (r: Option<int>)
    ensures r.Some? <==> 0 <= k < |a|
  {
    if 0 <= k < |a| then Some(a[k].value) else None
  }

  /** The midpoint of the window, rounded down; the bounds used are never negative. */
  function Mid(left: int, right: int): int
  {
    (left + right) / 2
  }

  /** The step that shows the probe at the middle of `[left, right]`. */
  function MidProbe(a: seq<Element>, left: int, right: int): ProblemStep
    requires 0 <= left <= right < |a|
  {
    var mid := Mid(left, right);
    Step(a, ProbeMarks(left, right, mid), CheckMid(mid, a[mid].value), NoMeta)
  }

  // ---------------------------------------------------------------------
  // First and last occurrence

  /** The decision after a probe of an occurrence search: a hit is recorded
      in the result and the search goes on into the left half for the first
      occurrence, into the right half for the last; a miss keeps the half
      that can hold the target. Gives the new bounds, the new result and
      the step that explains the choice. */
  function OccurrenceNext(a: seq<Element>, target: int, which: Occurrence, left: int, right: int, result: int): (r: (int, int, int, ProblemStep))
    requires 0 <= left <= right < |a|
    ensures var mid := Mid(left, right);
      && ((r.0 == mid + 1 && r.1 == right) || (r.0 == left && r.1 == mid - 1))
      && left <= r.0 <= r.1 + 1 <= right + 1
  {
    var mid := Mid(left, right);
    var v := a[mid].value;
    if v == target then
      if which == Earliest then (left, mid - 1, mid, Step(a, HitMarks(left, right, mid), HitGoLeft(target, mid), NoMeta))
      else (mid + 1, right, mid, Step(a, HitMarks(left, right, mid), HitGoRight(target, mid), NoMeta))
    else if v < target then (mid + 1, right, result, Step(a, ProbeMarks(left, right, mid), TargetGreater(target, v), NoMeta))
    else (left, mid - 1, result, Step(a, ProbeMarks(left, right, mid), TargetLess(target, v), NoMeta))
  }

  /** The loop `while (left <= right)` of an occurrence search, then the
      report of the recorded result. */
  function OccurrenceLoop(a: seq<Element>, target: int, which: Occurrence, left: int, right: int, result: int): (s: seq<ProblemStep>)
    requires 0 <= left <= right + 1 <= |a|
    ensures s != []
    decreases right - left + 1
  {
    if left > right then
      if result != -1 then [Step(a, SuccessMarks(result), OccurrenceFound(which, target, result), NoMeta)]
      else [Step(a, NoMarks, ProblemNotFound(target), NoMeta)]
    else
      var n := OccurrenceNext(a, target, which, left, right, result);
      [MidProbe(a, left, right), n.3] + OccurrenceLoop(a, target, which, n.0, n.1, n.2)
  }

  /** `firstOccurrence.steps` and `lastOccurrence.steps`. */
  function OccurrenceSteps(a: seq<Element>, target: int, which: Occurrence): (s: seq<ProblemStep>)
    ensures |s| >= 2 && s[0].desc == OccurrenceStart(which, target, 0, |a| - 1)
  {
    [Step(a, Window(0, |a| - 1), OccurrenceStart(which, target, 0, |a| - 1), NoMeta)]
      + OccurrenceLoop(a, target, which, 0, |a| - 1, -1)
  }

  // ---------------------------------------------------------------------
  // Peak element and minimum of a rotated array

  /** The decision after a probe of the peak search: the peak is at or left
      of `mid` when `arr[mid] > arr[mid + 1]`, else right of it. */
  function PeakNext(a: seq<Element>, left: int, right: int): (r: (int, int, ProblemStep))
    requires 0 <= left < right < |a|
    ensures left <= r.0 <= r.1 <= right && r.1 - r.0 < right - left
  {
    var mid := Mid(left, right);
    if a[mid].value > a[mid + 1].value then
      (left, mid, Step(a, ProbeMarks(left, right, mid), PeakLeft(mid, a[mid].value, a[mid + 1].value), NoMeta))
    else (mid + 1, right, Step(a, ProbeMarks(left, right, mid), PeakRight(mid, a[mid].value, a[mid + 1].value), NoMeta))
  }

  /** The loop `while (left < right)` of the peak search, then the report. */
  function PeakLoop(a: seq<Element>, left: int, right: int): (s: seq<ProblemStep>)
    requires 0 <= left <= right + 1 <= |a|
    ensures s != []
    decreases right - left
  {
    if left >= right then [Step(a, SuccessMarks(left), PeakFound(left, ValueAt(a, left)), NoMeta)]
    else
      var n := PeakNext(a, left, right);
      [MidProbe(a, left, right), n.2] + PeakLoop(a, n.0, n.1)
  }

  /** `peakElement.steps`. */
  function PeakSteps(a: seq<Element>): (s: seq<ProblemStep>)
    ensures |s| >= 2 && s[0].desc == PeakStart(0, |a| - 1)
  {
    [Step(a, Window(0, |a| - 1), PeakStart(0, |a| - 1), NoMeta)] + PeakLoop(a, 0, |a| - 1)
  }

  /** The decision after a probe of the minimum search: the minimum is right
      of `mid` when `arr[mid] > arr[right]`, else at or left of it. */
  function MinNext(a: seq<Element>, left: int, right: int): (r: (int, int, ProblemStep))
    requires 0 <= left < right < |a|
    ensures left <= r.0 <= r.1 <= right && r.1 - r.0 < right - left
  {
    var mid := Mid(left, right);
    if a[mid].value > a[right].value then
      (mid + 1, right, Step(a, ProbeMarks(left, right, mid), MinGoRight(mid, a[mid].value, right, a[right].value), NoMeta))
    else (left, mid, Step(a, ProbeMarks(left, right, mid), MinGoLeft(mid, a[mid].value, right, a[right].value), NoMeta))
  }

  /** The loop `while (left < right)` of the minimum search, then the report. */
  function MinLoop(a: seq<Element>, left: int, right: int): (s: seq<ProblemStep>)
    requires 0 <= left <= right + 1 <= |a|
    ensures s != []
    decreases right - left
  {
    if left >= right then [Step(a, SuccessMarks(left), MinFound(left, ValueAt(a, left)), NoMeta)]
    else
      var n := MinNext(a, left, right);
      [MidProbe(a, left, right), n.2] + MinLoop(a, n.0, n.1)
  }

  /** `findMinRotated.steps`. */
  function MinSteps(a: seq<Element>): (s: seq<ProblemStep>)
    ensures |s| >= 2 && s[0].desc == MinStart(0, |a| - 1)
  {
    [Step(a, Window(0, |a| - 1), MinStart(0, |a| - 1), NoMeta)] + MinLoop(a, 0, |a| - 1)
  }

  // ---------------------------------------------------------------------
  // Search in a rotated array

  /** The decision after a probe of the rotated search that missed. When
      `arr[left] <= arr[mid]` the left half is sorted and is kept exactly
      when the target lies in `[arr[left], arr[mid])`; otherwise the right
      half is sorted and is kept exactly when the target lies in
      `(arr[mid], arr[right]]`. */
  function RotatedNext(a: seq<Element>, target: int, left: int, right: int): (r: (int, int, ProblemStep))
    requires 0 <= left <= right < |a|
    requires a[Mid(left, right)].value != target
    ensures var mid := Mid(left, right);
      && ((r.0 == left && r.1 == mid - 1) || (r.0 == mid + 1 && r.1 == right))
      && left <= r.0 <= r.1 + 1 <= right + 1
  {
    var mid := Mid(left, right);
    var m := ProbeMarks(left, right, mid);
    if a[left].value <= a[mid].value then
      if target >= a[left].value && target < a[mid].value then
        (left, mid - 1, Step(a, m, LeftSortedIn(left, mid - 1, target, a[left].value, a[mid - 1].value), NoMeta))
      else (mid + 1, right, Step(a, m, LeftSortedOut(target), NoMeta))
    else if target > a[mid].value && target <= a[right].value then
      (mid + 1, right, Step(a, m, RightSortedIn(mid + 1, right, target, a[mid + 1].value, a[right].value), NoMeta))
    else (left, mid - 1, Step(a, m, RightSortedOut(target), NoMeta))
  }

  /** The loop `while (left <= right)` of the rotated search; a hit ends it
      at once. */
  function RotatedLoop(a: seq<Element>, target: int, left: int, right: int): (s: seq<ProblemStep>)
    requires 0 <= left <= right + 1 <= |a|
    ensures s != []
    decreases right - left + 1
  {
    if left > right then [Step(a, NoMarks, RotatedNotFound(target), NoMeta)]
    else
      var mid := Mid(left, right);
      if a[mid].value == target then
        [MidProbe(a, left, right), Step(a, SuccessMarks(mid), RotatedFound(target, mid), NoMeta)]
      else
        var n := RotatedNext(a, target, left, right);
        [MidProbe(a, left, right), n.2] + RotatedLoop(a, target, n.0, n.1)
  }

  /** `searchRotatedArray.steps`. */
  function RotatedSteps(a: seq<Element>, target: int): (s: seq<ProblemStep>)
    ensures |s| >= 2 && s[0].desc == RotatedStart(target, 0, |a| - 1)
  {
    [Step(a, Window(0, |a| - 1), RotatedStart(target, 0, |a| - 1), NoMeta)] + RotatedLoop(a, target, 0, |a| - 1)
  }

  // ---------------------------------------------------------------------
  // Integer square root

  /** `x = target || 16`: a zero target is replaced by 16. */
  function Radicand(target: int): (x: int)
    ensures x != 0
    ensures target != 0 ==> x == target
  {
    if target == 0 then 16 else target
  }

  /** The step that shows the probe of the square-root search. */
  function SqrtProbe(a: seq<Element>, x: int, left: int, right: int): ProblemStep
  {
    var mid := Mid(left, right);
    Step(a, ProbeMarks(left, right, mid), SqrtCheck(mid, mid * mid, x), NoMeta)
  }

  /** The decision after a probe of the square-root search: a `mid` whose
      square fits becomes the result and the search goes right, else it
      goes left. */
  function SqrtNext(a: seq<Element>, x: int, left: int, right: int, result: int): (r: (int, int, int, ProblemStep))
    requires 0 <= left <= right
    ensures var mid := Mid(left, right);
      && ((r.0 == mid + 1 && r.1 == right && r.2 == mid) || (r.0 == left && r.1 == mid - 1 && r.2 == result))
      && left <= r.0 <= r.1 + 1 <= right + 1
  {
    var mid := Mid(left, right);
    if mid * mid <= x then (mid + 1, right, mid, Step(a, HitMarks(left, right, mid), SqrtFits(mid, mid * mid, x), NoMeta))
    else (left, mid - 1, result, Step(a, ProbeMarks(left, right, mid), SqrtTooBig(mid, mid * mid, x), NoMeta))
  }

  /** The loop `while (left <= right)` of the square-root search, then the
      report of the result. */
  function SqrtLoop(a: seq<Element>, x: int, left: int, right: int, result: int): (s: seq<ProblemStep>)
    requires 0 <= left
    ensures s != []
    decreases if right < left then 0 else right - left + 1
  {
    if left > right then [Step(a, SuccessMarks(result), SqrtResult(x, result, result * result), NoMeta)]
    else
      var n := SqrtNext(a, x, left, right, result);
      [SqrtProbe(a, x, left, right), n.3] + SqrtLoop(a, x, n.0, n.1, n.2)
  }

  /** `sqrtBinarySearch.steps`; the array is only carried along. */
  function SqrtSteps(a: seq<Element>, target: int): (s: seq<ProblemStep>)
    ensures |s| >= 2 && s[0].desc == SqrtStart(Radicand(target), 0, Radicand(target))
  {
    var x := Radicand(target);
    [Step(a, Window(0, x), SqrtStart(x, 0, x), NoMeta)] + SqrtLoop(a, x, 0, x, 0)
  }

  // ---------------------------------------------------------------------
  // Shape shared by the six producers

  predicate IsStart(d: ProblemDesc)
  {
    d.OccurrenceStart? || d.PeakStart? || d.RotatedStart? || d.MinStart? || d.SqrtStart?
  }

  predicate IsTerminal(d: ProblemDesc)
  {
    || d.OccurrenceFound? || d.ProblemNotFound? || d.PeakFound? || d.RotatedFound?
    || d.RotatedNotFound? || d.MinFound? || d.SqrtResult?
  }

  predicate IsProbe(d: ProblemDesc)
  {
    d.CheckMid? || d.SqrtCheck?
  }

  /** A loop run: every step shows the unchanged array; the iterations are
      pairs of a mid probe and one step explaining the decision; no step is
      a starting step and exactly one, the last, is terminal. */
  predicate LoopShaped(s: seq<ProblemStep>, a: seq<Element>)
  {
    && s != []
    && (forall k :: 0 <= k < |s| ==> s[k].snapshot == a)
    && (forall k :: 0 <= k < |s| ==> (IsProbe(s[k].desc) <==> k % 2 == 0 && k < |s| - 1))
    && Count(s, IsStart) == 0
    && Count(s, IsTerminal) == 1 && IsTerminal(Last(s).desc)
  }

  /** A probe and a decision step in front of a loop run. */
  lemma ShapeCons(s: seq<ProblemStep>, rest: seq<ProblemStep>, a: seq<Element>)
    requires |s| >= 2 && s[2..] == rest && LoopShaped(rest, a)
    requires s[0].snapshot == a && s[1].snapshot == a
    requires IsProbe(s[0].desc) && !IsProbe(s[1].desc)
    requires !IsStart(s[0].desc) && !IsStart(s[1].desc)
    requires !IsTerminal(s[0].desc) && !IsTerminal(s[1].desc)
    ensures LoopShaped(s, a)
  {
    CountHead(s, 2, IsStart);
    CountHead(s, 2, IsTerminal);
    LastAppend(s[..2], rest);
    assert s == s[..2] + rest;
    forall k | 2 <= k < |s|
      ensures s[k] == rest[k - 2]
    {
    }
  }

  /** A producer's run: its one starting step, then a loop run. */
  predicate ProducerShaped(s: seq<ProblemStep>, a: seq<Element>)
  {
    && |s| >= 2 && IsStart(s[0].desc) && s[0].snapshot == a
    && LoopShaped(s[1..], a)
    && Count(s, IsStart) == 1 && Count(s, IsTerminal) == 1 && IsTerminal(Last(s).desc)
  }

  lemma StartThen(s: seq<ProblemStep>, a: seq<Element>)
    requires |s| >= 2 && IsStart(s[0].desc) && !IsTerminal(s[0].desc) && s[0].snapshot == a
    requires LoopShaped(s[1..], a)
    ensures ProducerShaped(s, a)
  {
    CountHead(s, 1, IsStart);
    CountHead(s, 1, IsTerminal);
    LastAppend(s[..1], s[1..]);
    assert s == s[..1] + s[1..];
  }

  lemma {:induction false} OccurrenceShape(a: seq<Element>, target: int, which: Occurrence, left: int, right: int, result: int)
    requires 0 <= left <= right + 1 <= |a|
    ensures LoopShaped(OccurrenceLoop(a, target, which, left, right, result), a)
    decreases right - left + 1
  {
    if left <= right {
      var n := OccurrenceNext(a, target, which, left, right, result);
      var s := OccurrenceLoop(a, target, which, left, right, result);
      OccurrenceShape(a, target, which, n.0, n.1, n.2);
      assert s[2..] == OccurrenceLoop(a, target, which, n.0, n.1, n.2);
      ShapeCons(s, s[2..], a);
    }
  }

  lemma {:induction false} PeakShape(a: seq<Element>, left: int, right: int)
    requires 0 <= left <= right + 1 <= |a|
    ensures LoopShaped(PeakLoop(a, left, right), a)
    decreases right - left
  {
    if left < right {
      var n := PeakNext(a, left, right);
      var s := PeakLoop(a, left, right);
      PeakShape(a, n.0, n.1);
      assert s[2..] == PeakLoop(a, n.0, n.1);
      ShapeCons(s, s[2..], a);
    }
  }

  lemma {:induction false} MinShape(a: seq<Element>, left: int, right: int)
    requires 0 <= left <= right + 1 <= |a|
    ensures LoopShaped(MinLoop(a, left, right), a)
    decreases right - left
  {
    if left < right {
      var n := MinNext(a, left, right);
      var s := MinLoop(a, left, right);
      MinShape(a, n.0, n.1);
      assert s[2..] == MinLoop(a, n.0, n.1);
      ShapeCons(s, s[2..], a);
    }
  }

  /** A hit ends the rotated search with the probe and the report. */
  lemma RotatedHitShape(a: seq<Element>, target: int, left: int, right: int)
    requires 0 <= left <= right < |a| && a[Mid(left, right)].value == target
    ensures LoopShaped(RotatedLoop(a, target, left, right), a)
  {
    var s := RotatedLoop(a, target, left, right);
    CountHead(s, 2, IsStart);
    CountHead(s, 2, IsTerminal);
  }

  lemma {:induction false} RotatedShape(a: seq<Element>, target: int, left: int, right: int)
    requires 0 <= left <= right + 1 <= |a|
    ensures LoopShaped(RotatedLoop(a, target, left, right), a)
    decreases right - left + 1
  {
    if left <= right {
      var s := RotatedLoop(a, target, left, right);
      if a[Mid(left, right)].value == target {
        RotatedHitShape(a, target, left, right);
      } else {
        var n := RotatedNext(a, target, left, right);
        RotatedShape(a, target, n.0, n.1);
        assert s[2..] == RotatedLoop(a, target, n.0, n.1);
        ShapeCons(s, s[2..], a);
      }
    }
  }

  lemma {:induction false} SqrtShape(a: seq<Element>, x: int, left: int, right: int, result: int)
    requires 0 <= left
    ensures LoopShaped(SqrtLoop(a, x, left, right, result), a)
    decreases if right < left then 0 else right - left + 1
  {
    if left <= right {
      var n := SqrtNext(a, x, left, right, result);
      var s := SqrtLoop(a, x, left, right, result);
      SqrtShape(a, x, n.0, n.1, n.2);
      assert s[2..] == SqrtLoop(a, x, n.0, n.1, n.2);
      ShapeCons(s, s[2..], a);
    }
  }

  /** Each of the six producers opens with its one starting step, then
      alternates a mid probe with one decision step per iteration, shows
      the input array unchanged throughout, and ends on its one terminal
      step. */
  lemma OccurrenceStepsShaped(a: seq<Element>, target: int, which: Occurrence)
    ensures ProducerShaped(OccurrenceSteps(a, target, which), a)
  {
    OccurrenceShape(a, target, which, 0, |a| - 1, -1);
    assert OccurrenceSteps(a, target, which)[1..] == OccurrenceLoop(a, target, which, 0, |a| - 1, -1);
    StartThen(OccurrenceSteps(a, target, which), a);
  }

  lemma PeakStepsShaped(a: seq<Element>)
    ensures ProducerShaped(PeakSteps(a), a)
  {
    PeakShape(a, 0, |a| - 1);
    assert PeakSteps(a)[1..] == PeakLoop(a, 0, |a| - 1);
    StartThen(PeakSteps(a), a);
  }

  lemma MinStepsShaped(a: seq<Element>)
    ensures ProducerShaped(MinSteps(a), a)
  {
    MinShape(a, 0, |a| - 1);
    assert MinSteps(a)[1..] == MinLoop(a, 0, |a| - 1);
    StartThen(MinSteps(a), a);
  }

  lemma RotatedStepsShaped(a: seq<Element>, target: int)
    ensures ProducerShaped(RotatedSteps(a, target), a)
  {
    RotatedShape(a, target, 0, |a| - 1);
    assert RotatedSteps(a, target)[1..] == RotatedLoop(a, target, 0, |a| - 1);
    StartThen(RotatedSteps(a, target), a);
  }

  lemma SqrtStepsShaped(a: seq<Element>, target: int)
    ensures ProducerShaped(SqrtSteps(a, target), a)
  {
    var x := Radicand(target);
    SqrtShape(a, x, 0, x, 0);
    assert SqrtSteps(a, target)[1..] == SqrtLoop(a, x, 0, x, 0);
    StartThen(SqrtSteps(a, target), a);
  }

  // ---------------------------------------------------------------------
  // First and last occurrence: what they report

  /** `k` holds the target and no slot before it does. */
  predicate IsFirst(a: seq<Element>, target: int, k: int)
  {
    0 <= k < |a| && a[k].value == target && forall i :: 0 <= i < k ==> a[i].value != target
  }

  /** `k` holds the target and no slot after it does. */
  predicate IsLast(a: seq<Element>, target: int, k: int)
  {
    0 <= k < |a| && a[k].value == target && forall i :: k < i < |a| ==> a[i].value != target
  }

  predicate Absent(a: seq<Element>, target: int)
  {
    forall i :: 0 <= i < |a| ==> a[i].value != target
  }

  /** The closing step of an occurrence search names and highlights the
      first (or last) index holding the target, or says it is absent. */
  predicate OccurrenceReports(t: ProblemStep, a: seq<Element>, target: int, which: Occurrence)
  {
    match t.desc
    case OccurrenceFound(w, x, k) =>
      && w == which && x == target && t.marks == SuccessMarks(k)
      && (if which == Earliest then IsFirst(a, target, k) else IsLast(a, target, k))
    case ProblemNotFound(x) => x == target && Absent(a, target)
    case _ => false
  }

  /** What the first-occurrence loop knows between iterations: everything
      left of `left` is below the target, everything right of `right` at
      least the target, and `result` is either -1, with no match right of
      the window, or the match just after it. */
  predicate EarliestInv(a: seq<Element>, target: int, left: int, right: int, result: int)
  {
    && 0 <= left <= right + 1 <= |a|
    && (forall i :: 0 <= i < left ==> a[i].value < target)
    && (forall i :: right < i < |a| ==> a[i].value >= target)
    && (result == -1 ==> forall i :: right < i < |a| ==> a[i].value != target)
    && (result != -1 ==> result == right + 1 < |a| && a[result].value == target)
  }

  /** The mirror image for the last occurrence. */
  predicate LatestInv(a: seq<Element>, target: int, left: int, right: int, result: int)
  {
    && 0 <= left <= right + 1 <= |a|
    && (forall i :: 0 <= i < left ==> a[i].value <= target)
    && (forall i :: right < i < |a| ==> a[i].value > target)
    && (result == -1 ==> forall i :: 0 <= i < left ==> a[i].value != target)
    && (result != -1 ==> 0 <= result == left - 1 && a[result].value == target)
  }

  predicate OccurrenceInv(a: seq<Element>, target: int, which: Occurrence, left: int, right: int, result: int)
  {
    if which == Earliest then EarliestInv(a, target, left, right, result)
    else LatestInv(a, target, left, right, result)
  }

  /** One iteration of the first-occurrence search keeps its invariant. */
  lemma EarliestKeeps(a: seq<Element>, target: int, left: int, right: int, result: int)
    requires Sorted(a) && EarliestInv(a, target, left, right, result) && left <= right
    ensures var n := OccurrenceNext(a, target, Earliest, left, right, result);
      EarliestInv(a, target, n.0, n.1, n.2)
  {
    var mid := Mid(left, right);
    var v := a[mid].value;
    if v == target {
      assert EarliestInv(a, target, left, mid - 1, mid);
    } else if v < target {
      assert EarliestInv(a, target, mid + 1, right, result);
    } else if result == -1 {
      assert EarliestInv(a, target, left, mid - 1, result);
    } else {
      assert false;
    }
  }

  /** One iteration of the last-occurrence search keeps its invariant. */
  lemma LatestKeeps(a: seq<Element>, target: int, left: int, right: int, result: int)
    requires Sorted(a) && LatestInv(a, target, left, right, result) && left <= right
    ensures var n := OccurrenceNext(a, target, Latest, left, right, result);
      LatestInv(a, target, n.0, n.1, n.2)
  {
    var mid := Mid(left, right);
    var v := a[mid].value;
    if v == target {
      assert LatestInv(a, target, mid + 1, right, mid);
    } else if v > target {
      assert LatestInv(a, target, left, mid - 1, result);
    } else if result == -1 {
      assert LatestInv(a, target, mid + 1, right, result);
    } else {
      assert false;
    }
  }

  /** Once the window is empty the invariant is the report. */
  lemma OccurrenceStops(a: seq<Element>, target: int, which: Occurrence, left: int, right: int, result: int)
    requires OccurrenceInv(a, target, which, left, right, result) && left > right
    ensures OccurrenceReports(Last(OccurrenceLoop(a, target, which, left, right, result)), a, target, which)
  {
  }

  lemma {:induction false} OccurrenceOutcome(a: seq<Element>, target: int, which: Occurrence, left: int, right: int, result: int)
    requires Sorted(a) && OccurrenceInv(a, target, which, left, right, result)
    ensures OccurrenceReports(Last(OccurrenceLoop(a, target, which, left, right, result)), a, target, which)
    decreases right - left + 1
  {
    if left > right {
      OccurrenceStops(a, target, which, left, right, result);
    } else {
      var n := OccurrenceNext(a, target, which, left, right, result);
      if which == Earliest {
        EarliestKeeps(a, target, left, right, result);
      } else {
        LatestKeeps(a, target, left, right, result);
      }
      OccurrenceOutcome(a, target, which, n.0, n.1, n.2);
      LastAppend([MidProbe(a, left, right), n.3], OccurrenceLoop(a, target, which, n.0, n.1, n.2));
    }
  }

  /** On a sorted array the first- and last-occurrence searches end by
      naming the first (last) index that holds the target, or by saying
      the target is absent; so they find it exactly when it is there. */
  lemma OccurrenceFinds(a: seq<Element>, target: int, which: Occurrence)
    requires Sorted(a)
    ensures OccurrenceReports(Last(OccurrenceSteps(a, target, which)), a, target, which)
  {
    OccurrenceOutcome(a, target, which, 0, |a| - 1, -1);
    LastAppend([OccurrenceSteps(a, target, which)[0]], OccurrenceLoop(a, target, which, 0, |a| - 1, -1));
  }

  // ---------------------------------------------------------------------
  // Peak element: what it reports

  /** `p` is no lower than its left neighbour and higher than its right
      one, array ends counting as lower: the comparisons the search makes. */
  predicate LocalPeak(a: seq<Element>, p: int)
  {
    && 0 <= p < |a|
    && (p == 0 || a[p - 1].value <= a[p].value)
    && (p == |a| - 1 || a[p].value > a[p + 1].value)
  }

  /** The closing step of the peak search: a local peak, highlighted with
      its value; an empty array reports index 0 with no value. */
  predicate PeakReports(t: ProblemStep, a: seq<Element>)
  {
    match t.desc
    case PeakFound(k, v) =>
      && t.marks == SuccessMarks(k)
      && (|a| == 0 ==> k == 0 && v == None)
      && (|a| > 0 ==> LocalPeak(a, k) && v == Some(a[k].value))
    case _ => false
  }

  /** The window always has a left edge that rises from its neighbour and
      a right edge that falls to its neighbour. */
  predicate PeakInv(a: seq<Element>, left: int, right: int)
  {
    && 0 <= left <= right < |a|
    && (left == 0 || a[left - 1].value <= a[left].value)
    && (right == |a| - 1 || a[right].value > a[right + 1].value)
  }

  lemma PeakKeeps(a: seq<Element>, left: int, right: int)
    requires PeakInv(a, left, right) && left < right
    ensures var n := PeakNext(a, left, right); PeakInv(a, n.0, n.1)
  {
  }

  lemma {:induction false} PeakOutcome(a: seq<Element>, left: int, right: int)
    requires PeakInv(a, left, right)
    ensures PeakReports(Last(PeakLoop(a, left, right)), a)
    decreases right - left
  {
    if left < right {
      var n := PeakNext(a, left, right);
      PeakKeeps(a, left, right);
      PeakOutcome(a, n.0, n.1);
      LastAppend([MidProbe(a, left, right), n.2], PeakLoop(a, n.0, n.1));
    }
  }

  /** The peak search ends on a local peak of any non-empty array. */
  lemma PeakFinds(a: seq<Element>)
    ensures PeakReports(Last(PeakSteps(a)), a)
  {
    if |a| > 0 {
      PeakOutcome(a, 0, |a| - 1);
    }
    LastAppend([PeakSteps(a)[0]], PeakLoop(a, 0, |a| - 1));
  }

  /** Strictly rising up to `p`, strictly falling after it. */
  predicate Mountain(a: seq<Element>, p: int)
  {
    && 0 <= p < |a|
    && (forall i :: 0 < i <= p ==> a[i - 1].value < a[i].value)
    && (forall i :: p < i < |a| ==> a[i - 1].value > a[i].value)
  }

  /** On a mountain the only local peak is the summit, so the peak search
      reports it. */
  lemma MountainPeak(a: seq<Element>, p: int)
    requires Mountain(a, p)
    ensures Last(PeakSteps(a)).desc == PeakFound(p, Some(a[p].value))
  {
    PeakFinds(a);
  }

  // ---------------------------------------------------------------------
  // Rotated arrays

  /** `a` is a strictly ascending sequence rotated so that its smallest
      value sits at `k`: two pairs are ascending exactly when they do not
      straddle `k`. */
  predicate RotatedAt(a: seq<Element>, k: int)
  {
    && 0 <= k < |a|
    && forall i, j :: 0 <= i < j < |a| ==>
         if i < k <= j then a[i].value > a[j].value else a[i].value < a[j].value
  }

  /** The rotation point holds the minimum. */
  lemma RotatedMin(a: seq<Element>, k: int)
    requires RotatedAt(a, k)
    ensures forall i :: 0 <= i < |a| ==> a[k].value <= a[i].value
  {
    forall i | 0 <= i < |a|
      ensures a[k].value <= a[i].value
    {
      if i < k {
        assert a[i].value > a[k].value;
      } else if i > k {
        assert a[k].value < a[i].value;
      }
    }
  }

  // ---------------------------------------------------------------------
  // Minimum of a rotated array: what it reports

  /** The closing step of the minimum search: a highlighted index with its
      value; an empty array reports index 0 with no value. */
  predicate MinReports(t: ProblemStep, a: seq<Element>, k: int)
  {
    match t.desc
    case MinFound(i, v) => i == k && t.marks == SuccessMarks(k) && v == ValueAt(a, k)
    case _ => false
  }

  lemma MinKeeps(a: seq<Element>, k: int, left: int, right: int)
    requires RotatedAt(a, k) && 0 <= left <= k <= right < |a| && left < right
    ensures var n := MinNext(a, left, right); n.0 <= k <= n.1
  {
    var mid := Mid(left, right);
    if mid < k {
      assert a[mid].value > a[right].value;
    } else {
      assert mid < right;
      assert a[mid].value < a[right].value;
    }
  }

  lemma {:induction false} MinOutcome(a: seq<Element>, k: int, left: int, right: int)
    requires RotatedAt(a, k) && 0 <= left <= k <= right < |a|
    ensures MinReports(Last(MinLoop(a, left, right)), a, k)
    decreases right - left
  {
    if left < right {
      var n := MinNext(a, left, right);
      MinKeeps(a, k, left, right);
      MinOutcome(a, k, n.0, n.1);
      LastAppend([MidProbe(a, left, right), n.2], MinLoop(a, n.0, n.1));
    }
  }

  /** On a rotated ascending array the minimum search reports the rotation
      point, which holds the smallest value; an empty array reports index 0
      with no value. */
  lemma MinFinds(a: seq<Element>, k: int)
    requires RotatedAt(a, k) || (|a| == 0 && k == 0)
    ensures MinReports(Last(MinSteps(a)), a, k)
    ensures |a| > 0 ==> forall i :: 0 <= i < |a| ==> a[k].value <= a[i].value
  {
    if |a| > 0 {
      MinOutcome(a, k, 0, |a| - 1);
      RotatedMin(a, k);
    }
    LastAppend([MinSteps(a)[0]], MinLoop(a, 0, |a| - 1));
  }

  // ---------------------------------------------------------------------
  // Search in a rotated array: what it reports

  /** The closing step of the rotated search: a highlighted index holding
      the target, or the claim that the target is absent. */
  predicate RotatedReports(t: ProblemStep, a: seq<Element>, target: int)
  {
    match t.desc
    case RotatedFound(x, k) => x == target && t.marks == SuccessMarks(k) && 0 <= k < |a| && a[k].value == target
    case RotatedNotFound(x) => x == target && Absent(a, target)
    case _ => false
  }

  /** Every match lies in the window. */
  predicate RotatedInv(a: seq<Element>, target: int, left: int, right: int)
  {
    && 0 <= left <= right + 1 <= |a|
    && forall i :: 0 <= i < |a| && a[i].value == target ==> left <= i <= right
  }

  /** With `arr[left] <= arr[mid]` the rotation point is not inside
      `(left, mid]`, so that stretch ascends and the choice keeps every
      match. */
  lemma RotatedKeepsLeftSorted(a: seq<Element>, k: int, target: int, left: int, right: int)
    requires RotatedAt(a, k) && RotatedInv(a, target, left, right) && left <= right
    requires a[Mid(left, right)].value != target && a[left].value <= a[Mid(left, right)].value
    ensures var n := RotatedNext(a, target, left, right); RotatedInv(a, target, n.0, n.1)
  {
    var mid := Mid(left, right);
    assert !(left < k <= mid);
  }

  /** With `arr[left] > arr[mid]` the rotation point is inside
      `(left, mid]`, so `(mid, right]` ascends and the choice keeps every
      match. */
  lemma RotatedKeepsRightSorted(a: seq<Element>, k: int, target: int, left: int, right: int)
    requires RotatedAt(a, k) && RotatedInv(a, target, left, right) && left <= right
    requires a[Mid(left, right)].value != target && a[left].value > a[Mid(left, right)].value
    ensures var n := RotatedNext(a, target, left, right); RotatedInv(a, target, n.0, n.1)
  {
    var mid := Mid(left, right);
    assert left < k <= mid;
  }

  lemma {:induction false} RotatedOutcome(a: seq<Element>, k: int, target: int, left: int, right: int)
    requires RotatedAt(a, k) && RotatedInv(a, target, left, right)
    ensures RotatedReports(Last(RotatedLoop(a, target, left, right)), a, target)
    decreases right - left + 1
  {
    if left <= right && a[Mid(left, right)].value != target {
      var n := RotatedNext(a, target, left, right);
      if a[left].value <= a[Mid(left, right)].value {
        RotatedKeepsLeftSorted(a, k, target, left, right);
      } else {
        RotatedKeepsRightSorted(a, k, target, left, right);
      }
      RotatedOutcome(a, k, target, n.0, n.1);
      LastAppend([MidProbe(a, left, right), n.2], RotatedLoop(a, target, n.0, n.1));
    }
  }

  /** On a rotated ascending array the rotated search finds the target
      exactly when it is there, and the index it reports holds it. */
  lemma RotatedFinds(a: seq<Element>, k: int, target: int)
    requires RotatedAt(a, k)
    ensures RotatedReports(Last(RotatedSteps(a, target)), a, target)
  {
    RotatedOutcome(a, k, target, 0, |a| - 1);
    LastAppend([RotatedSteps(a, target)[0]], RotatedLoop(a, target, 0, |a| - 1));
  }

  // ---------------------------------------------------------------------
  // Integer square root: what it reports

  /** The closing step of the square-root search: the highlighted result
      and its square, the floor of the square root of a positive `x`. */
  predicate SqrtReports(t: ProblemStep, x: int)
  {
    match t.desc
    case SqrtResult(y, r, sq) =>
      && y == x && sq == r * r && t.marks == SuccessMarks(r)
      && (x > 0 ==> 0 <= r && r * r <= x < (r + 1) * (r + 1))
      && (x < 0 ==> r == 0)
    case _ => false
  }

  /** `result` is the largest number seen whose square fits (0 before the
      first), and every number past `right` is too big. */
  predicate SqrtInv(x: int, left: int, right: int, result: int)
  {
    && 0 <= left <= right + 1
    && (right + 1) * (right + 1) > x
    && ((left == 0 && result == 0) || (left >= 1 && result == left - 1 && result * result <= x))
  }

  lemma SqrtKeeps(a: seq<Element>, x: int, left: int, right: int, result: int)
    requires SqrtInv(x, left, right, result) && left <= right
    ensures var n := SqrtNext(a, x, left, right, result); SqrtInv(x, n.0, n.1, n.2)
  {
  }

  lemma SqrtStops(a: seq<Element>, x: int, left: int, right: int, result: int)
    requires x > 0 && SqrtInv(x, left, right, result) && left > right
    ensures SqrtReports(Last(SqrtLoop(a, x, left, right, result)), x)
  {
    assert left == right + 1;
    if left == 0 {
      assert false;
    }
  }

  lemma {:induction false} SqrtOutcome(a: seq<Element>, x: int, left: int, right: int, result: int)
    requires x > 0 && SqrtInv(x, left, right, result)
    ensures SqrtReports(Last(SqrtLoop(a, x, left, right, result)), x)
    decreases if right < left then 0 else right - left + 1
  {
    if left > right {
      SqrtStops(a, x, left, right, result);
    } else {
      var n := SqrtNext(a, x, left, right, result);
      SqrtKeeps(a, x, left, right, result);
      SqrtOutcome(a, x, n.0, n.1, n.2);
      LastAppend([SqrtProbe(a, x, left, right), n.3], SqrtLoop(a, x, n.0, n.1, n.2));
    }
  }

  /** The square-root search reports the floor of the square root of
      `target || 16`, and 0 for a negative target, where the loop never
      runs. */
  lemma SqrtFinds(a: seq<Element>, target: int)
    ensures SqrtReports(Last(SqrtSteps(a, target)), Radicand(target))
  {
    var x := Radicand(target);
    if x > 0 {
      assert (x + 1) * (x + 1) > x;
      SqrtOutcome(a, x, 0, x, 0);
    }
    LastAppend([SqrtSteps(a, target)[0]], SqrtLoop(a, x, 0, x, 0));
  }

  // ---------------------------------------------------------------------
  // The worked examples the problems carry

  /** `[1, 2, 2, 2, 3, 4, 5]` with ids `item-0` … `item-6`. */
  const Duplicates: seq<Element> :=
    [Element(0, 1), Element(1, 2), Element(2, 2), Element(3, 2), Element(4, 3), Element(5, 4), Element(6, 5)]

  /** `[1, 3, 5, 4, 2]`. */
  const Hill: seq<Element> := [Element(0, 1), Element(1, 3), Element(2, 5), Element(3, 4), Element(4, 2)]

  /** `[4, 5, 6, 7, 0, 1, 2]`. */
  const Turned: seq<Element> :=
    [Element(0, 4), Element(1, 5), Element(2, 6), Element(3, 7), Element(4, 0), Element(5, 1), Element(6, 2)]

  /** On a sorted array holding the target, the searches name exactly the
      first and the last index that holds it. */
  lemma OccurrenceNames(a: seq<Element>, target: int, first: int, last: int)
    requires Sorted(a) && IsFirst(a, target, first) && IsLast(a, target, last)
    ensures Last(OccurrenceSteps(a, target, Earliest)).desc == OccurrenceFound(Earliest, target, first)
    ensures Last(OccurrenceSteps(a, target, Latest)).desc == OccurrenceFound(Latest, target, last)
  {
    OccurrenceFinds(a, target, Earliest);
    OccurrenceFinds(a, target, Latest);
  }

  /** The first 2 in `[1, 2, 2, 2, 3, 4, 5]` is at index 1 and the last at
      index 3. */
  lemma OccurrenceExamples()
    ensures Last(OccurrenceSteps(Duplicates, 2, Earliest)).desc == OccurrenceFound(Earliest, 2, 1)
    ensures Last(OccurrenceSteps(Duplicates, 2, Latest)).desc == OccurrenceFound(Latest, 2, 3)
  {
    var a := Duplicates;
    assert Sorted(a) && IsFirst(a, 2, 1) && IsLast(a, 2, 3);
    OccurrenceNames(a, 2, 1, 3);
  }

  /** The peak of `[1, 3, 5, 4, 2]` is at index 2. */
  lemma PeakExample()
    ensures Last(PeakSteps(Hill)).desc == PeakFound(2, Some(5))
  {
    MountainPeak(Hill, 2);
  }

  /** In `[4, 5, 6, 7, 0, 1, 2]` the target 0 is at index 4, which is also
      where the minimum is. */
  lemma RotatedExamples()
    ensures Last(RotatedSteps(Turned, 0)).desc == RotatedFound(0, 4)
    ensures Last(MinSteps(Turned)).desc == MinFound(4, Some(0))
  {
    assert RotatedAt(Turned, 4);
    RotatedFinds(Turned, 4, 0);
    MinFinds(Turned, 4);
    assert Turned[4].value == 0;
  }

  /** The square root of 16 is 4, and a target of 0 stands for 16. */
  lemma SqrtExamples(a: seq<Element>)
    ensures Last(SqrtSteps(a, 16)).desc == SqrtResult(16, 4, 16)
    ensures Last(SqrtSteps(a, 0)).desc == SqrtResult(16, 4, 16)
  {
    SqrtFinds(a, 16);
    SqrtFinds(a, 0);
  }
}
