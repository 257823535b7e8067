/** The fixed-capacity 1-D array container
    (src/utils/dataStructures/arrays.js): a row of slots, each an element
    or a null placeholder, and the steps of its seven operations. Fresh ids
    come from an injected counter `nextId`. */
module Arrays {
  import opened Steps
  import opened Helpers

  /** What an array-operation step says. */
  datatype ArrayDesc =
    | CreatedSized(count: nat)
    | CreatedDefault(count: nat, capacity: nat)
    | UpdateError(index: int)
    | UpdatePreparing(index: int, value: int)
    | Updated(index: int, value: int)
    | ArrayFull
    | InsertPreparing(value: int, index: int, appending: bool)
    | ShiftingRight(index: int)
    | Inserted(value: int, index: int, appending: bool)
    | DeleteError(index: int)
    | DeletePreparing(v: int, index: int)
    | ShiftingLeft
    | Deleted(v: int, index: int)
    | AccessError(index: int)
    | Accessed(index: int, v: int)
    | ScanChecking(at: int, v: int, target: int)
    | ScanFound(target: int, at: int)
    | ValueNotFound(target: int)
    | SortDeferred(name: string)

  type ArrayStep = SlotStep<ArrayDesc>

  /** Occupied slots first, then only nulls: the shape `create` builds. */
  predicate Packed(a: seq<Slot>)
  {
    forall i, j :: 0 <= i < j < |a| && a[i].None? ==> a[j].None?
  }

  /** In a packed array every slot after a null is null. */
  lemma PackedTail(a: seq<Slot>, f: int)
    requires Packed(a) && 0 <= f < |a| && a[f].None?
    ensures forall k :: f <= k < |a| ==> a[k].None?
  {
    forall k | f < k < |a|
      ensures a[k].None?
    {
      assert a[f].None?;
    }
  }

  /** The index of the first null slot, or -1 when every slot is occupied. */
  function FirstNull(a: seq<Slot>): (r: int)
    ensures -1 <= r < |a|
    ensures r == -1 <==> forall k :: 0 <= k < |a| ==> a[k].Some?
    ensures r >= 0 ==> a[r].None? && forall k :: 0 <= k < r ==> a[k].Some?
  {
    if a == [] then -1
    else if a[0].None? then 0
    else
      var r := FirstNull(a[1..]);
      if r == -1 then -1 else r + 1
  }

  /** The index of the last occupied slot, or -1 when every slot is null. */
  function LastOccupied(a: seq<Slot>): (r: int)
    ensures -1 <= r < |a|
    ensures r == -1 <==> forall k :: 0 <= k < |a| ==> a[k].None?
    ensures r >= 0 ==> a[r].Some? && forall k :: r < k < |a| ==> a[k].None?
  {
    if a == [] then -1
    else if a[|a| - 1].Some? then |a| - 1
    else LastOccupied(a[..|a| - 1])
  }

  // ---------------------------------------------------------------------
  // create

  /** `capacityOverride || 10`; an absent override is 0 here. */
  function Capacity(capacityOverride: nat): nat
  {
    if capacityOverride == 0 then 10 else capacityOverride
  }

  /** `visualizations.create`: one step showing a new array of the chosen
      capacity whose leading slots hold the custom values, in order and with
      fresh ids, and whose other slots are null. */
  function Create(custom: seq<int>, capacityOverride: nat, nextId: nat): (r: seq<ArrayStep>)
    ensures |r| == 1 && r[0].marks == NoMarks
    ensures var cap := Capacity(capacityOverride);
      var n := if |custom| < cap then |custom| else cap;
      && |r[0].snapshot| == cap
      && (forall k :: 0 <= k < n ==> r[0].snapshot[k] == Some(Element(nextId + k, custom[k])))
      && (forall k :: n <= k < cap ==> r[0].snapshot[k] == None)
      && r[0].desc == (if capacityOverride != 0 then CreatedSized(n) else CreatedDefault(n, cap))
  {
    var cap := Capacity(capacityOverride);
    var kept := if |custom| < cap then custom else custom[..cap];
    var desc := if capacityOverride != 0 then CreatedSized(|kept|) else CreatedDefault(|kept|, cap);
    [Step(Occupied(Fresh(kept, nextId)) + Nulls(cap - |kept|), NoMarks, desc, NoMeta)]
  }

  /** A created array is packed, holds exactly the kept custom values in
      order, and has one null per unused slot. */
  lemma CreatePacked(custom: seq<int>, capacityOverride: nat, nextId: nat)
    ensures var a := Create(custom, capacityOverride, nextId)[0].snapshot;
      var cap := Capacity(capacityOverride);
      var n := if |custom| < cap then |custom| else cap;
      && Packed(a)
      && Compact(a) == Fresh(custom[..n], nextId)
      && NullCount(a) == cap - n
  {
    var cap := Capacity(capacityOverride);
    var kept := if |custom| < cap then custom else custom[..cap];
    assert kept == custom[..|kept|];
    CompactPadded(Fresh(kept, nextId), cap - |kept|);
  }

  // ---------------------------------------------------------------------
  // update and access

  /** The array after writing `value` into the element at `index`, keeping
      its id. */
  function Write(a: seq<Slot>, index: int, value: int): (r: seq<Slot>)
    requires IsValidIndex(a, index)
  {
    a[index := Some(a[index].value.(value := value))]
  }

  /** `visualizations.update`: an index that does not name an occupied slot
      gives one error step over the unchanged array; otherwise a step
      highlighting the slot, then one showing the array in which only that
      slot's value has changed. */
  function Update(a: seq<Slot>, index: int, value: int): (r: seq<ArrayStep>)
    ensures |r| == (if IsValidIndex(a, index) then 2 else 1)
    ensures r[0].snapshot == a
    ensures !IsValidIndex(a, index) ==> r[0].desc == UpdateError(index) && r[0].marks == NoMarks
    ensures IsValidIndex(a, index) ==>
      var t := Last(r).snapshot;
      && |t| == |a|
      && t[index] == Some(Element(a[index].value.id, value))
      && (forall k :: 0 <= k < |a| && k != index ==> t[k] == a[k])
      && Last(r).marks == NoMarks.(primary := [index], success := [index])
  {
    if !IsValidIndex(a, index) then [Step(a, NoMarks, UpdateError(index), NoMeta)]
    else
      [Step(a, NoMarks.(primary := [index]), UpdatePreparing(index, value), NoMeta),
       Step(Write(a, index, value), NoMarks.(primary := [index], success := [index]), Updated(index, value), NoMeta)]
  }

  /** `visualizations.access`: one step, an error for an index that does
      not name an occupied slot, else the slot highlighted with its value. */
  function Access(a: seq<Slot>, index: int): (r: seq<ArrayStep>)
    ensures |r| == 1 && r[0].snapshot == a
    ensures IsValidIndex(a, index) <==> r[0].desc.Accessed?
    ensures IsValidIndex(a, index) ==>
      r[0].desc == Accessed(index, a[index].value.value) && r[0].marks == NoMarks.(primary := [index])
    ensures !IsValidIndex(a, index) ==> r[0].desc == AccessError(index) && r[0].marks == NoMarks
  {
    if !IsValidIndex(a, index) then [Step(a, NoMarks, AccessError(index), NoMeta)]
    else [Step(a, NoMarks.(primary := [index]), Accessed(index, a[index].value.value), NoMeta)]
  }

  /** Reading a slot just written gives the written value, and the write
      keeps the array packed. */
  lemma UpdateThenAccess(a: seq<Slot>, index: int, value: int)
    requires IsValidIndex(a, index)
    ensures Access(Last(Update(a, index, value)).snapshot, index)[0].desc == Accessed(index, value)
    ensures Packed(a) ==> Packed(Last(Update(a, index, value)).snapshot)
  {
  }

  // ---------------------------------------------------------------------
  // insert

  /** Where `splice(index, 0, x)` puts `x` in an array of length `len`:
      a negative index counts from the end, and positions are clamped to
      `[0, len]`. */
  function SpliceStart(index: int, len: nat): (p: nat)
    ensures p <= len
    ensures 0 <= index <= len ==> p == index
  {
    if index < 0 then (if len + index < 0 then 0 else len + index)
    else if index > len then len
    else index
  }

  /** `x` spliced in at `index`. */
  function Spliced(a: seq<Slot>, x: Element, index: int): (t: seq<Slot>)
    ensures |t| == |a| + 1
  {
    var p := SpliceStart(index, |a|);
    a[..p] + [Some(x)] + a[p..]
  }

  /** The first null is the null with only occupied slots before it. */
  lemma FirstNullIs(a: seq<Slot>, k: int)
    requires 0 <= k < |a| && a[k].None? && forall j :: 0 <= j < k ==> a[j].Some?
    ensures FirstNull(a) == k
  {
  }

  /** What one slot contributes to the compaction. */
  function Held(x: Slot): seq<Element>
  {
    if x.Some? then [x.value] else []
  }

  /** The compaction peeled at its last slot. */
  lemma CompactLast(a: seq<Slot>)
    requires a != []
    ensures Compact(a) == Compact(a[..|a| - 1]) + Held(a[|a| - 1])
  {
  }

  /** The compaction around one slot. */
  lemma {:induction false} CompactAt(a: seq<Slot>, i: int)
    requires 0 <= i < |a|
    ensures Compact(a) == Compact(a[..i]) + Held(a[i]) + Compact(a[i + 1..])
    decreases |a|
  {
    var n := |a|;
    CompactLast(a);
    if i == n - 1 {
      assert a[..n - 1] == a[..i];
      assert a[i + 1..] == [];
    } else {
      var b := a[..n - 1];
      CompactAt(b, i);
      assert b[..i] == a[..i] && b[i] == a[i];
      var v := a[i + 1..];
      CompactLast(v);
      assert v[..|v| - 1] == b[i + 1..];
      assert v[|v| - 1] == a[n - 1];
    }
  }

  /** On a packed array the valid indices are exactly the positions of the
      null-free view. */
  lemma {:induction false} PackedValidIndex(a: seq<Slot>, index: int)
    requires Packed(a)
    ensures IsValidIndex(a, index) <==> 0 <= index < |Compact(a)|
    decreases |a|
  {
    if a != [] {
      var n := |a|;
      var b := a[..n - 1];
      CompactLast(a);
      assert forall i :: 0 <= i < |b| ==> b[i] == a[i];
      PackedValidIndex(b, index);
      if a[n - 1].Some? && n > 1 {
        assert a[n - 2].Some?;
        PackedValidIndex(b, n - 2);
        assert |Compact(b)| == n - 1;
      }
    }
  }

  /** The array `insert` leaves behind, as written: `x` spliced in at
      `index`, then the LAST slot popped, whatever it holds. */
  function InsertAsWritten(a: seq<Slot>, x: Element, index: int): (r: seq<Slot>)
    ensures |r| == |a|
  {
    Spliced(a, x, index)[..|a|]
  }

  /** `visualizations.insert`. A full array gives one error step. Otherwise
      a step highlighting `index`, a step highlighting the slots from
      `index` up to the first null when there are any, and a step showing
      the spliced array with the last slot dropped. The index is not
      checked. */
  function Insert(a: seq<Slot>, value: int, index: int, nextId: nat): (r: seq<ArrayStep>)
    ensures r != []
    ensures FirstNull(a) == -1 <==> |r| == 1
    ensures r[0].snapshot == a
    ensures FirstNull(a) == -1 ==> r[0].desc == ArrayFull && r[0].marks == NoMarks
    ensures FirstNull(a) >= 0 ==>
      && |r| == (if index < FirstNull(a) then 3 else 2)
      && (forall k :: 0 <= k < |r| - 1 ==> r[k].snapshot == a)
      && Last(r).snapshot == InsertAsWritten(a, Element(nextId, value), index)
      && Last(r).desc == Inserted(value, index, index == FirstNull(a))
      && Last(r).marks == NoMarks.(primary := [index], success := [index])
  {
    var f := FirstNull(a);
    if f == -1 then [Step(a, NoMarks, ArrayFull, NoMeta)]
    else
      var appending := index == f;
      var prepare := Step(a, NoMarks.(primary := [index]), InsertPreparing(value, index, appending), NoMeta);
      var shift := if index < f then [Step(a, NoMarks.(secondary := Span(index, f)), ShiftingRight(index), NoMeta)] else [];
      var done := Step(InsertAsWritten(a, Element(nextId, value), index),
                       NoMarks.(primary := [index], success := [index]), Inserted(value, index, appending), NoMeta);
      [prepare] + shift + [done]
  }

  /** Splicing adds exactly the new element. */
  lemma SplicedContents(a: seq<Slot>, x: Element, index: int)
    ensures multiset(Compact(Spliced(a, x, index))) == Contents(a) + multiset{x}
  {
    var p := SpliceStart(index, |a|);
    var t := Spliced(a, x, index);
    CompactAt(t, p);
    assert t[..p] == a[..p];
    assert t[p + 1..] == a[p..];
    var u := a[..p];
    var v := a[p..];
    CompactAppend(u, v);
    assert a == u + v;
  }

  /** The array without its slot `f`. */
  function DropAt(t: seq<Slot>, f: int): (r: seq<Slot>)
    requires 0 <= f < |t|
    ensures |r| == |t| - 1
  {
    t[..f] + t[f + 1..]
  }

  /** Dropping a null slot keeps the compaction. */
  lemma DropNull(t: seq<Slot>, f: int)
    requires 0 <= f < |t| && t[f].None?
    ensures Compact(DropAt(t, f)) == Compact(t)
  {
    var u := t[..f];
    var v := t[f + 1..];
    CompactAt(t, f);
    CompactAppend(u, v);
  }

  /** Slot by slot: the old slots before the splice point, the new
      element at it, the old slots shifted one right after it. */
  lemma SplicedSlots(a: seq<Slot>, x: Element, index: int)
    ensures var p := SpliceStart(index, |a|); var t := Spliced(a, x, index);
      && t[p] == Some(x)
      && (forall k :: 0 <= k < p ==> t[k] == a[k])
      && (forall k :: p < k <= |a| ==> t[k] == a[k - 1])
  {
  }

  /** Splicing keeps every null of the array. */
  lemma SplicedHasNull(a: seq<Slot>, x: Element, index: int)
    requires FirstNull(a) >= 0
    ensures FirstNull(Spliced(a, x, index)) >= 0
  {
    var f := FirstNull(a);
    SplicedSlots(a, x, index);
    assert Spliced(a, x, index)[if f < SpliceStart(index, |a|) then f else f + 1] == None;
  }

  /** The intended insert: `x` spliced in at `index`, then the first null
      slot dropped, so no element is ever lost. */
  function InsertKeeping(a: seq<Slot>, x: Element, index: int): (r: seq<Slot>)
    requires FirstNull(a) >= 0
    ensures |r| == |a|
  {
    SplicedHasNull(a, x, index);
    var t := Spliced(a, x, index);
    DropAt(t, FirstNull(t))
  }

  /** The intended insert adds exactly the new element, whatever the index. */
  lemma InsertKeepingContents(a: seq<Slot>, x: Element, index: int)
    requires FirstNull(a) >= 0
    ensures Contents(InsertKeeping(a, x, index)) == Contents(a) + multiset{x}
  {
    var t := Spliced(a, x, index);
    SplicedHasNull(a, x, index);
    SplicedContents(a, x, index);
    DropNull(t, FirstNull(t));
  }

  /** On a packed array with room, splicing at or before the first null
      moves that null one slot right, and every slot after it is null. */
  lemma SplicedPacked(a: seq<Slot>, x: Element, index: int)
    requires Packed(a) && 0 <= index <= FirstNull(a)
    ensures var t := Spliced(a, x, index);
      && FirstNull(t) == FirstNull(a) + 1
      && t[index] == Some(x)
      && (forall k :: 0 <= k < index ==> t[k] == a[k])
      && (forall k :: index < k <= |a| ==> t[k] == a[k - 1])
      && (forall k :: FirstNull(a) < k <= |a| ==> t[k] == None)
  {
    var f := FirstNull(a);
    var t := Spliced(a, x, index);
    SplicedSlots(a, x, index);
    forall j | 0 <= j <= f
      ensures t[j].Some?
    {
      if j > index {
        assert t[j] == a[j - 1];
      }
    }
    assert t[f + 1] == a[f];
    FirstNullIs(t, f + 1);
    PackedTail(a, f);
  }

  /** Dropping a slot of an all-null tail is dropping the last slot. */
  lemma DropNullTail(t: seq<Slot>, f: int)
    requires 0 <= f < |t| && forall k :: f <= k < |t| ==> t[k].None?
    ensures DropAt(t, f) == t[..|t| - 1]
  {
    var u := DropAt(t, f);
    forall k | 0 <= k < |t| - 1
      ensures u[k] == t[k]
    {
      if k >= f {
        assert u[k] == t[k + 1];
      }
    }
  }

  /** On a packed array with room, inserting at or before the first null
      pops a null, so the source agrees with the intended insert. */
  lemma InsertPopsNull(a: seq<Slot>, x: Element, index: int)
    requires Packed(a) && 0 <= index <= FirstNull(a)
    ensures InsertAsWritten(a, x, index) == InsertKeeping(a, x, index)
  {
    var f := FirstNull(a);
    var t := Spliced(a, x, index);
    assert FirstNull(t) == f + 1 && forall k :: f + 1 <= k < |t| ==> t[k].None? by {
      SplicedPacked(a, x, index);
    }
    DropNullTail(t, f + 1);
  }

  /** Occupied slots up to `f`, nulls from `f` on: a packed array. */
  lemma PackedAt(a: seq<Slot>, f: int)
    requires 0 <= f <= |a|
    requires forall k :: 0 <= k < f ==> a[k].Some?
    requires forall k :: f <= k < |a| ==> a[k].None?
    ensures Packed(a)
  {
  }

  /** On a packed array with room, inserting at or before the first null
      puts the new element at `index` and leaves the array packed. */
  lemma InsertStaysPacked(a: seq<Slot>, x: Element, index: int)
    requires Packed(a) && 0 <= index <= FirstNull(a)
    ensures InsertAsWritten(a, x, index)[index] == Some(x)
    ensures Packed(InsertAsWritten(a, x, index))
  {
    var f := FirstNull(a);
    SplicedPacked(a, x, index);
    PackedAt(InsertAsWritten(a, x, index), f + 1);
  }

  /** On a packed array with room, inserting at or before the first null
      keeps every element, puts the new one at `index`, and leaves the
      array packed. */
  lemma InsertAgrees(a: seq<Slot>, x: Element, index: int)
    requires Packed(a) && 0 <= index <= FirstNull(a)
    ensures InsertAsWritten(a, x, index) == InsertKeeping(a, x, index)
    ensures Contents(InsertAsWritten(a, x, index)) == Contents(a) + multiset{x}
    ensures InsertAsWritten(a, x, index)[index] == Some(x)
    ensures Packed(InsertAsWritten(a, x, index))
  {
    InsertPopsNull(a, x, index);
    InsertKeepingContents(a, x, index);
    InsertStaysPacked(a, x, index);
  }

  /** When the slot the source pops after splicing is occupied, its element
      is lost: the array ends up with the new element in place of it. */
  lemma InsertPopsOccupied(a: seq<Slot>, x: Element, index: int)
    requires Spliced(a, x, index)[|a|].Some?
    ensures var y := Spliced(a, x, index)[|a|].value;
      && Contents(InsertAsWritten(a, x, index)) + multiset{y} == Contents(a) + multiset{x}
      && Contents(InsertAsWritten(a, x, index)) != Contents(a) + multiset{x}
  {
    var t := Spliced(a, x, index);
    CompactLast(t);
    assert t[..|t| - 1] == InsertAsWritten(a, x, index);
    SplicedContents(a, x, index);
  }

  /** Where the source goes wrong: when the last slot is occupied, or the
      index lies past the first null, the popped last slot is not a null.
      Inserting 9 at index 3 of `[1, 2, null]` pops the 9 itself yet reports
      success; inserting 9 at index 0 of `[1, null, 5]` pops the 5. */
  lemma InsertDropsElement()
    ensures var a := [Some(Element(0, 1)), Some(Element(1, 2)), None];
      var x := Element(2, 9);
      && InsertAsWritten(a, x, 3) == a
      && Contents(InsertAsWritten(a, x, 3)) != Contents(a) + multiset{x}
      && Last(Insert(a, 9, 3, 2)).desc == Inserted(9, 3, false)
    ensures var b := [Some(Element(0, 1)), None, Some(Element(1, 5))];
      var x := Element(2, 9);
      && InsertAsWritten(b, x, 0) == [Some(x), Some(Element(0, 1)), None]
      && Contents(InsertAsWritten(b, x, 0)) != Contents(b) + multiset{x}
  {
    var a := [Some(Element(0, 1)), Some(Element(1, 2)), None];
    var b := [Some(Element(0, 1)), None, Some(Element(1, 5))];
    var x := Element(2, 9);
    assert Spliced(a, x, 3)[3] == Some(x);
    InsertPopsOccupied(a, x, 3);
    assert Spliced(b, x, 0)[3] == b[2];
    InsertPopsOccupied(b, x, 0);
  }

  // ---------------------------------------------------------------------
  // The callers' sortedness check

  /** An element that is not below the last one keeps a sorted run sorted. */
  lemma SortedSnoc(s: seq<Element>, x: Element)
    requires Sorted(s) && (s != [] ==> Last(s).value <= x.value)
    ensures Sorted(s + [x])
  {
  }

  /** On a packed array the callers' check of adjacent occupied slots makes
      the null-free view that the binary search reads ascending. */
  lemma {:induction false} PackedCheckSorts(a: seq<Slot>)
    requires Packed(a) && CallerSorted(a)
    ensures Sorted(Compact(a))
    decreases |a|
  {
    var n := |a|;
    CompactLast(a);
    if n == 1 {
      assert Compact(a[..0]) == [];
    } else {
      var b := a[..n - 1];
      assert forall i :: 0 <= i < |b| ==> b[i] == a[i];
      PackedCheckSorts(b);
      if a[n - 1].Some? {
        assert a[n - 2].Some?;
        CompactLast(b);
        assert Last(Compact(b)) == a[n - 2].value;
        SortedSnoc(Compact(b), a[n - 1].value);
      } else {
        assert Compact(a) == Compact(b) + [];
      }
    }
  }

  /** The check alone does not suffice once a null sits between occupied
      slots, and the as-written insert makes such arrays: inserting 0 at
      index 2 of `[1, null, null]` gives `[1, null, 0]`, which passes the
      check although its null-free view `[1, 0]` is not ascending. */
  lemma CheckMissesGap()
    ensures var a := [Some(Element(0, 1)), None, None];
      var c := InsertAsWritten(a, Element(1, 0), 2);
      && c == [Some(Element(0, 1)), None, Some(Element(1, 0))]
      && CallerSorted(c) && !Sorted(Compact(c))
  {
    var a := [Some(Element(0, 1)), None, None];
    var c := [Some(Element(0, 1)), None, Some(Element(1, 0))];
    assert Spliced(a, Element(1, 0), 2) == c + [None];
    assert (c + [None])[..3] == c;
    assert CallerSorted(c);
    CompactLast(c);
    assert c[..2][..1] == [Some(Element(0, 1))];
    CompactLast(c[..2]);
    CompactLast(c[..2][..1]);
    assert Compact(c[..2][..1][..0]) == [];
    assert Compact(c) == [Element(0, 1), Element(1, 0)];
    assert !Sorted(Compact(c)) by {
      assert Compact(c)[0].value > Compact(c)[1].value;
    }
  }

  // ---------------------------------------------------------------------
  // delete

  /** The array `delete` leaves behind: the slot removed and a null
      appended. */
  function Removed(a: seq<Slot>, index: int): (r: seq<Slot>)
    requires 0 <= index < |a|
    ensures |r| == |a|
  {
    a[..index] + a[index + 1..] + [None]
  }

  /** `visualizations.delete`. An empty array or an index that does not
      name an occupied slot gives one error step. Otherwise a step
      highlighting the slot, a step highlighting the occupied slots after it
      when there are any, and a step showing the array with the slot
      removed and a null appended. */
  function Delete(a: seq<Slot>, index: int): (r: seq<ArrayStep>)
    ensures r != []
    ensures IsValidIndex(a, index) <==> |r| > 1
    ensures r[0].snapshot == a
    ensures !IsValidIndex(a, index) ==> r[0].desc == DeleteError(index) && r[0].marks == NoMarks
    ensures IsValidIndex(a, index) ==>
      && |r| == (if LastOccupied(a) > index then 3 else 2)
      && (forall k :: 0 <= k < |r| - 1 ==> r[k].snapshot == a)
      && Last(r).snapshot == Removed(a, index)
      && Last(r).desc == Deleted(a[index].value.value, index)
  {
    if |a| == 0 || !IsValidIndex(a, index) then [Step(a, NoMarks, DeleteError(index), NoMeta)]
    else
      var v := a[index].value.value;
      var prepare := Step(a, NoMarks.(primary := [index]), DeletePreparing(v, index), NoMeta);
      var last := LastOccupied(a);
      var shift := if last > index then [Step(a, NoMarks.(secondary := Span(index + 1, last + 1)), ShiftingLeft, NoMeta)] else [];
      [prepare] + shift + [Step(Removed(a, index), NoMarks, Deleted(v, index), NoMeta)]
  }

  /** Deleting removes exactly the deleted element. */
  lemma DeleteContents(a: seq<Slot>, index: int)
    requires IsValidIndex(a, index)
    ensures Contents(Removed(a, index)) == Contents(a) - multiset{a[index].value}
  {
    var u := a[..index];
    var v := a[index + 1..];
    CompactAt(a, index);
    CompactAppend(u + v, [None]);
    CompactAppend(u, v);
    assert Compact([None]) == [];
  }

  /** Deleting keeps a packed array packed. */
  lemma DeletePacked(a: seq<Slot>, index: int)
    requires 0 <= index < |a| && Packed(a)
    ensures Packed(Removed(a, index))
  {
  }

  /** Removing the slot just inserted undoes the as-written insert when
      the popped last slot was null. */
  lemma RemoveInserted(a: seq<Slot>, x: Element, index: int)
    requires 0 <= index < |a| && a[|a| - 1].None?
    ensures IsValidIndex(InsertAsWritten(a, x, index), index)
    ensures Removed(InsertAsWritten(a, x, index), index) == a
  {
    var n := |a|;
    var t := InsertAsWritten(a, x, index);
    assert t == a[..index] + [Some(x)] + a[index..n - 1];
    assert t[..index] == a[..index] && t[index + 1..] == a[index..n - 1];
    assert a == a[..index] + a[index..n - 1] + [None];
  }

  /** Past the end the new element is spliced in last and popped at once. */
  lemma InsertPastEnd(a: seq<Slot>, x: Element, index: int)
    requires index >= |a|
    ensures InsertAsWritten(a, x, index) == a
  {
    assert Spliced(a, x, index) == a + [Some(x)];
  }

  /** Inserting at a non-negative index and deleting at the same index
      gives the original array back whenever its last slot is null. Past the
      end the new element is popped at once and the delete is an error. */
  lemma InsertThenDelete(a: seq<Slot>, value: int, index: int, nextId: nat)
    requires 0 <= index && a != [] && a[|a| - 1].None?
    ensures var t := Last(Insert(a, value, index, nextId)).snapshot;
      Last(Delete(t, index)).snapshot == a
  {
    var x := Element(nextId, value);
    assert FirstNull(a) >= 0;
    assert Last(Insert(a, value, index, nextId)).snapshot == InsertAsWritten(a, x, index);
    if index < |a| {
      RemoveInserted(a, x, index);
    } else {
      InsertPastEnd(a, x, index);
    }
  }

  /** A negative index breaks the round trip: inserting 9 at -1 into
      `[1, null, null]` splices it in before the last slot, and deleting at
      -1 is an error that leaves the 9 in place. */
  lemma NegativeIndexKeepsInsert()
    ensures var a := [Some(Element(0, 1)), None, None];
      var t := Last(Insert(a, 9, -1, 1)).snapshot;
      && t == [Some(Element(0, 1)), None, Some(Element(1, 9))]
      && Last(Delete(t, -1)).snapshot == t != a
  {
    var a := [Some(Element(0, 1)), None, None];
    var x := Element(1, 9);
    assert Spliced(a, x, -1) == [Some(Element(0, 1)), None, Some(x), None];
    assert InsertAsWritten(a, x, -1) == [Some(Element(0, 1)), None, Some(x)];
  }

  // ---------------------------------------------------------------------
  // search and sort

  /** Slot `k` holds the value looked for. */
  predicate Holds(a: seq<Slot>, target: int, k: int)
  {
    0 <= k < |a| && a[k].Some? && a[k].value.value == target
  }

  /** The loop of `visualizations.search` from `i`: nulls are skipped, each
      occupied slot gets a checking step, a match ends the scan with a
      success step, and the end of the array with a not-found step. */
  function Scan(a: seq<Slot>, target: int, i: int): (r: seq<ArrayStep>)
    requires 0 <= i <= |a|
    ensures r != []
    decreases |a| - i
  {
    if i == |a| then [Step(a, NoMarks, ValueNotFound(target), NoMeta)]
    else if a[i].None? then Scan(a, target, i + 1)
    else
      var check := Step(a, NoMarks.(primary := [i]), ScanChecking(i, a[i].value.value, target), NoMeta);
      if a[i].value.value == target then [check, Step(a, NoMarks.(success := [i]), ScanFound(target, i), NoMeta)]
      else [check] + Scan(a, target, i + 1)
  }

  /** `visualizations.search`. */
  function Search(a: seq<Slot>, target: int): (r: seq<ArrayStep>)
    ensures r != []
  {
    Scan(a, target, 0)
  }

  /** The closing step of a scan from `i`: the first match at or after `i`,
      highlighted, or not-found when there is none. */
  predicate ScanReports(t: ArrayStep, a: seq<Slot>, target: int, i: int)
  {
    match t.desc
    case ScanFound(x, k) =>
      && x == target && t.marks == NoMarks.(success := [k]) && i <= k && Holds(a, target, k)
      && forall j :: i <= j < k ==> !Holds(a, target, j)
    case ValueNotFound(x) => x == target && forall j :: i <= j < |a| ==> !Holds(a, target, j)
    case _ => false
  }

  predicate IsChecking(d: ArrayDesc)
  {
    d.ScanChecking?
  }

  /** Where a scan from `i` stops: just after the first match, or at the
      end. */
  function ScanStop(a: seq<Slot>, target: int, i: int): (r: int)
    requires 0 <= i <= |a|
    ensures i <= r <= |a|
    ensures r < |a| ==> Holds(a, target, r - 1)
    decreases |a| - i
  {
    if i == |a| then |a|
    else if Holds(a, target, i) then i + 1
    else ScanStop(a, target, i + 1)
  }

  /** A scan reports the first match at or after `i`, and every one of its
      steps shows the unchanged array. */
  lemma {:induction false} ScanOutcome(a: seq<Slot>, target: int, i: int)
    requires 0 <= i <= |a|
    ensures var r := Scan(a, target, i);
      && ScanReports(Last(r), a, target, i)
      && forall k :: 0 <= k < |r| ==> r[k].snapshot == a
    decreases |a| - i
  {
    var r := Scan(a, target, i);
    if i < |a| && !Holds(a, target, i) {
      ScanOutcome(a, target, i + 1);
      if a[i].Some? {
        LastAppend([r[0]], r[1..]);
        assert r[1..] == Scan(a, target, i + 1);
      }
    }
  }

  /** A scan checks exactly the occupied slots before the point where it
      stops. */
  lemma {:induction false} ScanChecks(a: seq<Slot>, target: int, i: int)
    requires 0 <= i <= |a|
    ensures Count(Scan(a, target, i), IsChecking) == |Compact(a[i..ScanStop(a, target, i)])|
    decreases |a| - i
  {
    var stop := ScanStop(a, target, i);
    var r := Scan(a, target, i);
    if i < |a| {
      var u := a[i + 1..stop];
      assert a[i..stop] == [a[i]] + u;
      CompactAppend([a[i]], u);
      if a[i].None? {
        assert Compact([a[i]]) == [];
        ScanChecks(a, target, i + 1);
      } else {
        assert Compact([a[i]]) == [a[i].value];
        if Holds(a, target, i) {
          assert u == [];
          CountHead(r, 2, IsChecking);
        } else {
          ScanChecks(a, target, i + 1);
          CountHead(r, 1, IsChecking);
          assert r[1..] == Scan(a, target, i + 1);
        }
      }
    }
  }

  /** `visualizations.sort`: the array module only announces the sort;
      the orchestrator runs it. */
  function Sort(a: seq<Slot>, name: string): (r: seq<ArrayStep>)
    ensures |r| == 1 && r[0].snapshot == a && r[0].desc == SortDeferred(name)
  {
    [Step(a, NoMarks, SortDeferred(name), NoMeta)]
  }
}
