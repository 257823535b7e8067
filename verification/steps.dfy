/** The step model of the visualisation engine: elements, slots, highlight
    channels, tagged descriptions and the `Step` record every producer emits.

    In the repository a step is created by `createStep`, which deep-copies the
    working array so that later in-place writes by the producer cannot reach a
    step already emitted. Dafny sequences are values, so every `Step` below
    holds an independent snapshot by construction. */
module Steps {

  datatype Option<+T> = None | Some(value: T)

  /** An element of a container: a stable identity plus its payload. */
  datatype Element = Element(id: nat, value: int)

  /** A slot of a fixed-capacity array: an element or a null placeholder. */
  type Slot = Option<Element>

  /** A 2-D container, row by row. */
  type Matrix = seq<seq<Element>>

  /** Scalar pointer roles (`start`, `end`, `mid`, `pointer`, `success`); an
      absent key and an `undefined` array read are both `None`. */
  datatype Pointers = Pointers(
    start: Option<int>, end: Option<int>, mid: Option<int>,
    pointer: Option<int>, success: Option<int>)

  const NoPointers := Pointers(None, None, None, None, None)

  /** The `highlightedIndices` channel of a 1-D step: lists of indices per
      role, plus the scalar pointers some producers store in this channel. */
  datatype Marks = Marks(
    primary: seq<int>, secondary: seq<int>, success: seq<int>,
    sorted: seq<int>, unsorted: seq<int>, pointers: Pointers)

  const NoMarks := Marks([], [], [], [], [], NoPointers)

  /** The `highlightedPointers` channel and `activeRange` used by the two
      searching producers (linear search has no active range). */
  datatype Probe = Probe(pointers: Pointers, activeRange: Option<seq<int>>)

  /** A `[row, col]` position in a matrix. */
  datatype Cell = Cell(row: int, col: int)

  /** The `highlightedIndices` channel of a 2-D step. */
  datatype GridMarks = GridMarks(
    primary: seq<Cell>, secondary: seq<Cell>, success: seq<Cell>,
    spotlight: Option<Cell>)

  const NoGridMarks := GridMarks([], [], [], None)

  /** Which terminal flag an enhanced bubble sort step carries. */
  datatype Flag = Plain | Optimized | Complete

  /** Optional step metadata: sort counters, or the DP cursor. */
  datatype Meta =
    | NoMeta
    | Counters(pass: nat, comparisons: nat, swaps: nat, flag: Flag)
    | Cursor(index: int)

  /** One visualisation frame: a full snapshot, its highlights, its
      description and optional metadata. The description is a tag carrying
      the numbers the source interpolates into its message; each producer
      has its own tag type `D`. */
  datatype Step<S, M, D> = Step(snapshot: S, marks: M, desc: D, meta: Meta)

  /** Steps whose snapshot is a dense element sequence (the sorts). */
  type SortStep<D> = Step<seq<Element>, Marks, D>

  /** Steps whose snapshot is a padded slot sequence (the Arrays container). */
  type SlotStep<D> = Step<seq<Slot>, Marks, D>

  function Last<T>(s: seq<T>): T
    requires |s| > 0
  {
    s[|s| - 1]
  }

  lemma LastAppend<T>(s: seq<T>, t: seq<T>)
    requires s != []
    ensures t != [] ==> Last(s + t) == Last(t)
    ensures t == [] ==> Last(s + t) == Last(s)
  {
    if t == [] {
      assert s + t == s;
    }
  }

  /** `[0, 1, ..., n-1]`: every index of an array of length `n`. */
  function Range(n: nat): (r: seq<int>)
    ensures |r| == n
    ensures forall k :: 0 <= k < n ==> r[k] == k
  {
    if n == 0 then [] else Range(n - 1) + [n - 1]
  }

  /** `[from, from+1, ..., to-1]`; empty when `to <= from`. */
  function Span(from: int, to: int): (r: seq<int>)
    ensures |r| == (if to <= from then 0 else to - from)
    ensures forall k :: 0 <= k < |r| ==> r[k] == from + k
    decreases if to <= from then 0 else to - from
  {
    if to <= from then [] else Span(from, to - 1) + [to - 1]
  }

  function Values(s: seq<Element>): (r: seq<int>)
    ensures |r| == |s|
    ensures forall k :: 0 <= k < |s| ==> r[k] == s[k].value
  {
    if s == [] then [] else Values(s[..|s| - 1]) + [s[|s| - 1].value]
  }

  /** Ascending by value (ties allowed). */
  predicate Sorted(s: seq<Element>)
  {
    forall i, j :: 0 <= i < j < |s| ==> s[i].value <= s[j].value
  }

  /** How many steps carry a description satisfying `f`. */
  function Count<S, M, D>(s: seq<Step<S, M, D>>, f: D -> bool): (r: nat)
    ensures r <= |s|
  {
    if s == [] then 0
    else (if f(s[0].desc) then 1 else 0) + Count(s[1..], f)
  }

  lemma {:induction false} CountAppend<S, M, D>(a: seq<Step<S, M, D>>, b: seq<Step<S, M, D>>, f: D -> bool)
    ensures Count(a + b, f) == Count(a, f) + Count(b, f)
    decreases |a|
  {
    if a == [] {
      assert a + b == b;
    } else {
      assert (a + b)[1..] == a[1..] + b;
      CountAppend(a[1..], b, f);
    }
  }

  /** Counting over a step put in front. */
  lemma CountFront<S, M, D>(x: Step<S, M, D>, rest: seq<Step<S, M, D>>, f: D -> bool)
    ensures Count([x] + rest, f) == (if f(x.desc) then 1 else 0) + Count(rest, f)
  {
    assert ([x] + rest)[1..] == rest;
  }

  /** Counting over up to three steps in front of a run. */
  lemma CountHead<S, M, D>(s: seq<Step<S, M, D>>, n: int, f: D -> bool)
    requires 1 <= n <= 3 && n <= |s|
    ensures Count(s, f) == (if f(s[0].desc) then 1 else 0)
                         + (if n >= 2 && f(s[1].desc) then 1 else 0)
                         + (if n == 3 && f(s[2].desc) then 1 else 0) + Count(s[n..], f)
  {
    if n >= 2 {
      assert s[1..][1..] == s[2..];
    }
    if n == 3 {
      assert s[2..][1..] == s[3..];
    }
  }

  /** A weaker filter counts no more steps. */
  lemma {:induction false} CountWeaker<S, M, D>(s: seq<Step<S, M, D>>, f: D -> bool, g: D -> bool)
    requires forall d :: f(d) ==> g(d)
    ensures Count(s, f) <= Count(s, g)
    decreases |s|
  {
    if s != [] {
      CountWeaker(s[1..], f, g);
    }
  }

  /** Exchange the elements at `i` and `j`. */
  function Swap(s: seq<Element>, i: int, j: int): (r: seq<Element>)
    requires 0 <= i < |s| && 0 <= j < |s|
    ensures |r| == |s| && r[i] == s[j] && r[j] == s[i]
    ensures forall k :: 0 <= k < |s| && k != i && k != j ==> r[k] == s[k]
  {
    seq(|s|, k requires 0 <= k < |s| => if k == j then s[i] else if k == i then s[j] else s[k])
  }

  /** An exchange only rearranges. */
  lemma SwapMultiset(s: seq<Element>, i: int, j: int)
    requires 0 <= i < |s| && 0 <= j < |s|
    ensures multiset(Swap(s, i, j)) == multiset(s)
  {
    assert Swap(s, i, j) == s[i := s[j]][j := s[i]];
  }

  /** The non-null slots, in order. */
  function Compact(a: seq<Slot>): (r: seq<Element>)
    ensures |r| <= |a|
    decreases |a|
  {
    if a == [] then []
    else if a[|a| - 1].Some? then Compact(a[..|a| - 1]) + [a[|a| - 1].value]
    else Compact(a[..|a| - 1])
  }

  /** `values` as elements with consecutive ids counting up from `nextId`,
      as the producers tag new elements. */
  function Fresh(values: seq<int>, nextId: nat): (r: seq<Element>)
    ensures |r| == |values|
    ensures forall k :: 0 <= k < |r| ==> r[k] == Element(nextId + k, values[k])
  {
    seq(|values|, k requires 0 <= k < |values| => Element(nextId + k, values[k]))
  }

  /** Every element as an occupied slot. */
  function Occupied(s: seq<Element>): (r: seq<Slot>)
    ensures |r| == |s|
    ensures forall k :: 0 <= k < |s| ==> r[k] == Some(s[k])
  {
    if s == [] then [] else Occupied(s[..|s| - 1]) + [Some(s[|s| - 1])]
  }

  /** `n` null placeholders. */
  function Nulls(n: nat): (r: seq<Slot>)
    ensures |r| == n
    ensures forall k :: 0 <= k < n ==> r[k] == None
  {
    if n == 0 then [] else Nulls(n - 1) + [None]
  }

  /** Number of null slots. */
  function NullCount(a: seq<Slot>): (r: nat)
    ensures r <= |a|
    decreases |a|
  {
    if a == [] then 0
    else NullCount(a[..|a| - 1]) + (if a[|a| - 1].None? then 1 else 0)
  }

  /** The multiset of elements held by the occupied slots. */
  function Contents(a: seq<Slot>): multiset<Element>
  {
    multiset(Compact(a))
  }

  /** Null and non-null slots together account for the whole array. */
  lemma {:induction false} CompactCount(a: seq<Slot>)
    ensures |Compact(a)| + NullCount(a) == |a|
    decreases |a|
  {
    if a != [] {
      CompactCount(a[..|a| - 1]);
    }
  }

  lemma {:induction false} CompactAppend(a: seq<Slot>, b: seq<Slot>)
    ensures Compact(a + b) == Compact(a) + Compact(b)
    ensures NullCount(a + b) == NullCount(a) + NullCount(b)
    decreases |b|
  {
    if b == [] {
      assert a + b == a;
    } else {
      assert (a + b)[..|a + b| - 1] == a + b[..|b| - 1];
      CompactAppend(a, b[..|b| - 1]);
    }
  }

  lemma {:induction false} CompactOccupied(s: seq<Element>)
    ensures Compact(Occupied(s)) == s
    ensures NullCount(Occupied(s)) == 0
    decreases |s|
  {
    if s != [] {
      assert Occupied(s)[..|s| - 1] == Occupied(s[..|s| - 1]);
      CompactOccupied(s[..|s| - 1]);
    }
  }

  lemma {:induction false} CompactNulls(n: nat)
    ensures Compact(Nulls(n)) == []
    ensures NullCount(Nulls(n)) == n
  {
    if n > 0 {
      assert Nulls(n)[..n - 1] == Nulls(n - 1);
      CompactNulls(n - 1);
    }
  }

  /** Padding with nulls leaves the occupied elements in place. */
  lemma CompactPadded(s: seq<Element>, n: nat)
    ensures Compact(Occupied(s) + Nulls(n)) == s
    ensures NullCount(Occupied(s) + Nulls(n)) == n
  {
    CompactAppend(Occupied(s), Nulls(n));
    CompactOccupied(s);
    CompactNulls(n);
  }
}
