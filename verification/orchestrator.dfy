/** The two entry points of src/utils/algorithms.js: `getAlgorithmSteps`,
    which looks an algorithm up by its display name and runs its producer,
    and `getOperationSteps`, which looks a data structure and operation up
    and delegates, except that sorting an `Arrays` state runs a sorting
    producer on the non-null elements and pads every snapshot back to the
    array's capacity with nulls. */
module Orchestrator {
  import opened Steps
  import opened Helpers
  import opened SortFacts
  import BubbleSort
  import SelectionSort
  import InsertionSort
  import MergeSort
  import QuickSort
  import Searching
  import DynamicProgramming
  import Arrays
  import Stack
  import TwoDArrays

  // ---------------------------------------------------------------------
  // The algorithm registry (src/utils/algorithms/index.js)

  datatype Sorter = Bubble | Selection | Insertion | Merge | Quick

  /** The nine registered algorithms. */
  datatype Algorithm =
    | Sort(sorter: Sorter)
    | LinearSearch
    | BinarySearch
    | FibonacciDP
    | LongestCommonSubsequence

  /** The display name an algorithm is registered under. */
  function NameOf(alg: Algorithm): string
  {
    match alg
    case Sort(Bubble) => "Bubble Sort"
    case Sort(Selection) => "Selection Sort"
    case Sort(Insertion) => "Insertion Sort"
    case Sort(Merge) => "Merge Sort"
    case Sort(Quick) => "Quick Sort"
    case LinearSearch => "Linear Search"
    case BinarySearch => "Binary Search"
    case FibonacciDP => "Fibonacci DP"
    case LongestCommonSubsequence => "Longest Common Subsequence"
  }

  /** `algorithms[name]`: the algorithm registered under `name`, if any. */
  function AlgorithmNamed(name: string): (r: Option<Algorithm>)
    ensures r.Some? ==> NameOf(r.value) == name
    ensures r.None? ==> forall alg :: NameOf(alg) != name
  {
    if name == "Bubble Sort" then Some(Sort(Bubble))
    else if name == "Selection Sort" then Some(Sort(Selection))
    else if name == "Insertion Sort" then Some(Sort(Insertion))
    else if name == "Merge Sort" then Some(Sort(Merge))
    else if name == "Quick Sort" then Some(Sort(Quick))
    else if name == "Linear Search" then Some(LinearSearch)
    else if name == "Binary Search" then Some(BinarySearch)
    else if name == "Fibonacci DP" then Some(FibonacciDP)
    else if name == "Longest Common Subsequence" then Some(LongestCommonSubsequence)
    else None
  }

  /** Looking a name up finds exactly the algorithm registered under it: no
      two algorithms share a name. */
  lemma NamesIdentify(name: string, alg: Algorithm)
    ensures AlgorithmNamed(name) == Some(alg) <==> NameOf(alg) == name
  {
    if NameOf(alg) == name {
      match alg
      case Sort(s) => assert AlgorithmNamed(name) == Some(alg);
      case _ => assert AlgorithmNamed(name) == Some(alg);
    }
  }

  // ---------------------------------------------------------------------
  // Running a sorting producer

  /** What a step of a sort run through the orchestrator says: the sorting
      producer's own description, or one of the orchestrator's own. */
  datatype SortDesc =
    | BubbleSays(bubble: BubbleSort.BubbleDesc)
    | SelectionSays(selection: SelectionSort.SelectionDesc)
    | InsertionSays(insertion: InsertionSort.InsertionDesc)
    | MergeSays(merge: MergeSort.MergeDesc)
    | QuickSays(quick: QuickSort.QuickDesc)
    | SortStarting(name: string)
    | SortComplete(name: string)
    | AlgorithmMissing(name: string)
    | NotASort(name: string)

  /** The steps `s` with each description wrapped by `tag`. */
  function Retag<D>(s: seq<SortStep<D>>, tag: D -> SortDesc): (r: seq<SortStep<SortDesc>>)
    ensures |r| == |s|
    ensures forall k :: 0 <= k < |s| ==>
      r[k] == Step(s[k].snapshot, s[k].marks, tag(s[k].desc), s[k].meta)
  {
    seq(|s|, k requires 0 <= k < |s| => Step(s[k].snapshot, s[k].marks, tag(s[k].desc), s[k].meta))
  }

  /** Retagging keeps every snapshot. */
  lemma RetagSnapshots<D>(s: seq<SortStep<D>>, tag: D -> SortDesc, n: int)
    requires Sized(s, n)
    ensures Sized(Retag(s, tag), n)
    ensures s != [] ==> Last(Retag(s, tag)).snapshot == Last(s).snapshot
  {
  }

  /** `algorithms[name].steps(array)` for a sorting algorithm. Every
      snapshot keeps the input's length. Bubble and selection sort emit
      nothing for fewer than two elements; whenever there are steps, the
      last is an ascending rearrangement of the input, and for the stable
      sorts it is exactly the input sorted by value with ties in input
      order. */
  function RunSort(sorter: Sorter, a: seq<Element>): (r: seq<SortStep<SortDesc>>)
    ensures Sized(r, |a|)
    ensures r == [] <==> |a| <= 1 && (sorter.Bubble? || sorter.Selection?)
    ensures r != [] ==> Sorted(Last(r).snapshot) && multiset(Last(r).snapshot) == multiset(a)
    ensures r != [] && !sorter.Selection? && !sorter.Quick? ==> Last(r).snapshot == SortByValue(a)
  {
    SortByValueSorts(a);
    match sorter
    case Bubble =>
      var s := BubbleSort.BubbleSortSteps(a);
      BubbleSort.BubbleSortRearranges(a);
      RearrangesSized(s, a);
      RetagSnapshots(s, d => BubbleSays(d), |a|);
      Retag(s, d => BubbleSays(d))
    case Selection =>
      var s := SelectionSort.SelectionSortSteps(a);
      RearrangesSized(s, a);
      RetagSnapshots(s, d => SelectionSays(d), |a|);
      Retag(s, d => SelectionSays(d))
    case Insertion =>
      var s := InsertionSort.InsertionSortSteps(a);
      InsertionSort.InsertionSortIsStable(a);
      InsertionSort.InsertionSortSized(a);
      RetagSnapshots(s, d => InsertionSays(d), |a|);
      Retag(s, d => InsertionSays(d))
    case Merge =>
      var s := MergeSort.MergeSortSteps(a);
      MergeSort.MergeSortIsStable(a);
      RetagSnapshots(s, d => MergeSays(d), |a|);
      Retag(s, d => MergeSays(d))
    case Quick =>
      var s := QuickSort.QuickSortSteps(a);
      QuickSort.QuickSortSorts(a);
      QuickSort.QuickSortSized(a);
      RetagSnapshots(s, d => QuickSays(d), |a|);
      Retag(s, d => QuickSays(d))
  }

  /** A sort step's snapshot followed by nulls up to `capacity`, the rest
      of the step kept. */
  function PadStep<D>(step: SortStep<D>, capacity: nat): (r: SlotStep<D>)
    requires |step.snapshot| <= capacity
    ensures |r.snapshot| == capacity
    ensures Compact(r.snapshot) == step.snapshot
    ensures NullCount(r.snapshot) == capacity - |step.snapshot|
    ensures forall i :: 0 <= i < capacity ==> (r.snapshot[i].Some? <==> i < |step.snapshot|)
    ensures r.marks == step.marks && r.desc == step.desc && r.meta == step.meta
  {
    CompactPadded(step.snapshot, capacity - |step.snapshot|);
    Step(Occupied(step.snapshot) + Nulls(capacity - |step.snapshot|), step.marks, step.desc, step.meta)
  }

  function Pad<D>(s: seq<SortStep<D>>, capacity: nat): (r: seq<SlotStep<D>>)
    requires forall k :: 0 <= k < |s| ==> |s[k].snapshot| <= capacity
    ensures |r| == |s|
    ensures forall k :: 0 <= k < |s| ==> r[k] == PadStep(s[k], capacity)
  {
    seq(|s|, k requires 0 <= k < |s| => PadStep(s[k], capacity))
  }

  /** `args[0] || 'Bubble Sort'`. */
  function SortName(arg: Option<string>): string
  {
    if arg.None? || arg.value == "" then "Bubble Sort" else arg.value
  }

  /** The name names a sorting algorithm. */
  predicate NamesSort(name: string)
  {
    AlgorithmNamed(name).Some? && AlgorithmNamed(name).value.Sort?
  }

  /** A sort run over the non-null elements of `a`, every snapshot padded
      back to the array's capacity, framed by a starting step over the
      array and a completion step repeating the snapshot before it. */
  function Framed(a: seq<Slot>, name: string, run: seq<SortStep<SortDesc>>): (r: seq<SlotStep<SortDesc>>)
    requires Sized(run, |Compact(a)|)
    ensures |r| == |run| + 2 && r[0] == Step(a, NoMarks, SortStarting(name), NoMeta)
    ensures Last(r) == Step(r[|r| - 2].snapshot, NoMarks, SortComplete(name), NoMeta)
    ensures forall k :: 0 <= k < |r| ==> |r[k].snapshot| == |a|
  {
    var body := [Step(a, NoMarks, SortStarting(name), NoMeta)] + Pad(run, |a|);
    body + [Step(Last(body).snapshot, NoMarks, SortComplete(name), NoMeta)]
  }

  /** `getOperationSteps('Arrays', 'sort', state, name)`. An unregistered
      name gives one error step over the state; a sorting algorithm's name
      gives its run on the non-null elements, framed and padded. */
  function SortOnArray(a: seq<Slot>, arg: Option<string>): (r: seq<SlotStep<SortDesc>>)
    ensures r != [] && r[0].snapshot == a && r[0].marks == NoMarks
    ensures forall k :: 0 <= k < |r| ==> |r[k].snapshot| == |a|
    ensures AlgorithmNamed(SortName(arg)).None? ==>
      r == [Step(a, NoMarks, AlgorithmMissing(SortName(arg)), NoMeta)]
    ensures NamesSort(SortName(arg)) ==>
      r == Framed(a, SortName(arg), RunSort(AlgorithmNamed(SortName(arg)).value.sorter, Compact(a)))
  {
    var name := SortName(arg);
    match AlgorithmNamed(name)
    case None => [Step(a, NoMarks, AlgorithmMissing(name), NoMeta)]
    case Some(alg) =>
      if !alg.Sort? then [Step(a, NoMarks, NotASort(name), NoMeta)]
      else Framed(a, name, RunSort(alg.sorter, Compact(a)))
  }

  /** Between the starting and completion steps, every snapshot holds as
      many elements as the array, packed at the front, and exactly as many
      nulls as the array held, all at the back. */
  lemma FramedShape(a: seq<Slot>, name: string, run: seq<SortStep<SortDesc>>, k: int)
    requires Sized(run, |Compact(a)|)
    requires 0 < k < |Framed(a, name, run)| - 1
    ensures Arrays.Packed(Framed(a, name, run)[k].snapshot)
    ensures NullCount(Framed(a, name, run)[k].snapshot) == NullCount(a)
    ensures |Compact(Framed(a, name, run)[k].snapshot)| == |Compact(a)|
  {
    var p := PadStep(run[k - 1], |a|);
    assert Framed(a, name, run)[k] == p by {
      var body := [Step(a, NoMarks, SortStarting(name), NoMeta)] + Pad(run, |a|);
      assert Framed(a, name, run) == body + [Step(Last(body).snapshot, NoMarks, SortComplete(name), NoMeta)];
      assert body[k] == Pad(run, |a|)[k - 1];
    }
    PadStepPacked(run[k - 1], |a|);
    CompactCount(a);
  }

  lemma PadStepPacked<D>(step: SortStep<D>, capacity: nat)
    requires |step.snapshot| <= capacity
    ensures Arrays.Packed(PadStep(step, capacity).snapshot)
  {
  }

  /** The framed run ends on the run's last array, packed and padded, or on
      the array itself when the run is empty. */
  lemma FramedEnd(a: seq<Slot>, name: string, run: seq<SortStep<SortDesc>>)
    requires Sized(run, |Compact(a)|)
    ensures var f := Last(Framed(a, name, run)).snapshot;
      && (run == [] ==> f == a)
      && (run != [] ==> Compact(f) == Last(run).snapshot && NullCount(f) == NullCount(a) && Arrays.Packed(f))
  {
    var r := Framed(a, name, run);
    var start := Step(a, NoMarks, SortStarting(name), NoMeta);
    var body := [start] + Pad(run, |a|);
    assert r == body + [Step(Last(body).snapshot, NoMarks, SortComplete(name), NoMeta)];
    assert Last(r).snapshot == Last(body).snapshot;
    if run == [] {
      assert body == [start];
    } else {
      var p := PadStep(Last(run), |a|);
      assert Last(body) == p;
      CompactCount(a);
      PadStepPacked(Last(run), |a|);
    }
  }

  /** Sorting an array through the orchestrator ends on its elements in
      ascending order with its nulls kept. With at least two elements, or
      with insertion, merge or quick sort, they end packed at the front;
      bubble and selection sort leave an array of at most one element
      exactly as it was, null gaps included. Bubble, insertion and merge
      sort keep equal values in their order. */
  lemma SortOnArraySorts(a: seq<Slot>, arg: Option<string>)
    requires NamesSort(SortName(arg))
    ensures var f := Last(SortOnArray(a, arg)).snapshot;
      var sorter := AlgorithmNamed(SortName(arg)).value.sorter;
      && Sorted(Compact(f)) && Contents(f) == Contents(a) && NullCount(f) == NullCount(a)
      && (|Compact(a)| >= 2 || sorter.Insertion? || sorter.Merge? || sorter.Quick? ==> Arrays.Packed(f))
      && (|Compact(a)| <= 1 && (sorter.Bubble? || sorter.Selection?) ==> f == a)
      && (!sorter.Selection? && !sorter.Quick? ==> Compact(f) == SortByValue(Compact(a)))
  {
    var sorter := AlgorithmNamed(SortName(arg)).value.sorter;
    var run := RunSort(sorter, Compact(a));
    FramedEnd(a, SortName(arg), run);
    if run == [] {
      OneAtMostIsSorted(Compact(a));
    }
  }

  /** At most one element is already sorted, and the reference sort leaves
      it alone. */
  lemma OneAtMostIsSorted(s: seq<Element>)
    requires |s| <= 1
    ensures Sorted(s) && SortByValue(s) == s
  {
    if |s| == 1 {
      assert s[..0] == [];
      SortByValueSorts(s);
      assert SortByValue(s)[0] in multiset(s);
    }
  }

  // ---------------------------------------------------------------------
  // The data-structure registry (src/utils/dataStructures/index.js)

  /** The operations a registered structure can visualise. Queue, Linked
      List, Binary Tree and Graphs are registered with descriptions only,
      and unregistered names have nothing. */
  function Visualized(structure: string): set<string>
  {
    if structure == "Arrays" then {"create", "update", "insert", "delete", "access", "search", "sort"}
    else if structure == "Stack" then {"push", "pop", "peek", "isEmpty"}
    else if structure == "2D Arrays" then {"create", "access", "update", "search", "traverse"}
    else {}
  }

  /** The current state of a structure: a row of slots, a stack, or a
      rectangular grid. */
  datatype State = Slots(slots: seq<Slot>) | Pile(elements: seq<Element>) | Grid(matrix: Matrix)

  /** The state has the kind its structure works on. */
  predicate Fits(structure: string, state: State)
  {
    && (structure == "Arrays" ==> state.Slots?)
    && (structure == "Stack" ==> state.Pile?)
    && (structure == "2D Arrays" ==> state.Grid? && TwoDArrays.Rect(state.matrix))
  }

  /** The positional arguments after the state, by meaning. `draw` stands
      for the random values a grid is filled with when none are given. */
  datatype Args = Args(
    values: seq<int>, capacity: nat, index: int, value: int,
    algorithm: Option<string>,
    rows: Option<int>, cols: Option<int>, tokens: seq<TwoDArrays.Token>,
    row: int, col: int, order: string,
    nextId: nat, draw: nat -> int)

  /** What `getOperationSteps` returns: nothing, or the steps of one of the
      structures. */
  datatype Outcome =
    | NoSteps
    | ArraySteps(arraySteps: seq<Arrays.ArrayStep>)
    | SortSteps(sortSteps: seq<SlotStep<SortDesc>>)
    | StackSteps(stackSteps: seq<Stack.StackStep>)
    | GridSteps(gridSteps: seq<TwoDArrays.GridStep>)

  function ArrayOperation(operation: string, a: seq<Slot>, args: Args): seq<Arrays.ArrayStep>
  {
    if operation == "create" then Arrays.Create(args.values, args.capacity, args.nextId)
    else if operation == "update" then Arrays.Update(a, args.index, args.value)
    else if operation == "insert" then Arrays.Insert(a, args.value, args.index, args.nextId)
    else if operation == "delete" then Arrays.Delete(a, args.index)
    else if operation == "access" then Arrays.Access(a, args.index)
    else Arrays.Search(a, args.value)
  }

  function StackOperation(operation: string, s: seq<Element>, args: Args): seq<Stack.StackStep>
  {
    if operation == "push" then Stack.Push(s, args.value, args.nextId)
    else if operation == "pop" then Stack.Pop(s)
    else if operation == "peek" then Stack.Peek(s)
    else Stack.IsEmpty(s)
  }

  function GridOperation(operation: string, m: Matrix, args: Args): seq<TwoDArrays.GridStep>
    requires TwoDArrays.Rect(m)
  {
    if operation == "create" then TwoDArrays.Create(args.rows, args.cols, args.tokens, args.nextId, args.draw)
    else if operation == "access" then TwoDArrays.Access(m, args.row, args.col)
    else if operation == "update" then TwoDArrays.Update(m, args.row, args.col, args.value)
    else if operation == "search" then TwoDArrays.Search(m, args.value)
    else TwoDArrays.Traverse(m, args.order)
  }

  /** `getOperationSteps(structure, operation, state, ...args)`: nothing
      exactly when the structure does not visualise the operation; the
      array sort goes through the sorting producers; every other operation
      goes to its structure. */
  function OperationSteps(structure: string, operation: string, state: State, args: Args): (r: Outcome)
    requires Fits(structure, state)
    ensures r.NoSteps? <==> operation !in Visualized(structure)
    ensures r.SortSteps? <==> structure == "Arrays" && operation == "sort"
    ensures r.ArraySteps? <==> structure == "Arrays" && operation in Visualized(structure) && operation != "sort"
    ensures r.StackSteps? <==> structure == "Stack" && operation in Visualized(structure)
    ensures r.GridSteps? <==> structure == "2D Arrays" && operation in Visualized(structure)
  {
    if operation !in Visualized(structure) then NoSteps
    else if structure == "Arrays" && operation == "sort" then SortSteps(SortOnArray(state.slots, args.algorithm))
    else if structure == "Arrays" then ArraySteps(ArrayOperation(operation, state.slots, args))
    else if structure == "Stack" then StackSteps(StackOperation(operation, state.elements, args))
    else GridSteps(GridOperation(operation, state.matrix, args))
  }

  /** A push and then a pop through the orchestrator leave the stack as it
      was and report the pushed value. */
  lemma PushThenPopThrough(s: seq<Element>, args: Args)
    ensures var pushed := OperationSteps("Stack", "push", Pile(s), args).stackSteps;
      var popped := OperationSteps("Stack", "pop", Pile(Stack.Final(pushed)), args).stackSteps;
      Stack.Final(popped) == s && Last(popped).desc == Stack.Popped(args.value)
  {
    Stack.PushThenPop(s, args.value, args.nextId);
  }

  // ---------------------------------------------------------------------
  // getAlgorithmSteps

  /** What `getAlgorithmSteps` returns. */
  datatype Run =
    | NoAlgorithm
    | SortRun(sortSteps: seq<SortStep<SortDesc>>)
    | SearchRun(searchSteps: seq<Searching.SearchStep>)
    | FibonacciRun(fibSteps: seq<DynamicProgramming.FibStep>)
    | LcsRun(lcsSteps: seq<DynamicProgramming.LcsStep>)

  /** `target || drawn`: a missing or zero target is replaced by the drawn
      value. */
  function SearchTarget(target: Option<int>, drawn: int): int
  {
    if target.Some? && target.value != 0 then target.value else drawn
  }

  /** `getAlgorithmSteps(name, array, target)`. `drawn` stands for
      the random target between 1 and the largest value, used when
      none (or zero) is given. */
  method AlgorithmSteps(name: string, input: seq<Element>, target: Option<int>, drawn: int) returns (r: Run)
    ensures r.NoAlgorithm? <==> forall alg :: NameOf(alg) != name
    ensures NamesSort(name) ==> r == SortRun(RunSort(AlgorithmNamed(name).value.sorter, input))
    ensures name == "Linear Search" ==>
      r.SearchRun? && r.searchSteps == Searching.LinearSearchSteps(Occupied(input), SearchTarget(target, drawn))
    ensures name == "Binary Search" ==>
      r.SearchRun? && r.searchSteps == Searching.BinarySearchSteps(Occupied(input), SearchTarget(target, drawn))
    ensures name == "Fibonacci DP" ==>
      r.FibonacciRun? && |r.fibSteps| == 16 && Last(r.fibSteps).snapshot == [0, 1, 1, 2, 3, 5, 8, 13, 21]
    ensures name == "Longest Common Subsequence" ==>
      r.LcsRun? && |r.lcsSteps| == 38 && Last(r.lcsSteps).desc == DynamicProgramming.LcsDone(3, "ADH")
  {
    match AlgorithmNamed(name)
    case None =>
      r := NoAlgorithm;
    case Some(Sort(sorter)) =>
      r := SortRun(RunSort(sorter, input));
    case Some(LinearSearch) =>
      r := SearchRun(Searching.LinearSearchSteps(Occupied(input), SearchTarget(target, drawn)));
    case Some(BinarySearch) =>
      r := SearchRun(Searching.BinarySearchSteps(Occupied(input), SearchTarget(target, drawn)));
    case Some(FibonacciDP) =>
      var steps := DynamicProgramming.FibonacciDP(input);
      r := FibonacciRun(steps);
    case Some(LongestCommonSubsequence) =>
      var steps := DynamicProgramming.LongestCommonSubsequence(input);
      r := LcsRun(steps);
  }
}
