/** Shared helpers of the engine (src/utils/helpers.js) and the reference
    orderings the sorting producers are checked against. */
module Helpers {
  import opened Steps

  /** An index names an occupied slot of the array. */
  predicate IsValidIndex(a: seq<Slot>, index: int)
  {
    0 <= index < |a| && a[index].Some?
  }

  /** Insert `x` after every element whose value is at most `x.value`: the
      step of a stable insertion sort that scans from the right with `>`. */
  function InsertLast(s: seq<Element>, x: Element): (r: seq<Element>)
    ensures |r| == |s| + 1
    decreases |s|
  {
    if s == [] || s[|s| - 1].value <= x.value then s + [x]
    else InsertLast(s[..|s| - 1], x) + [s[|s| - 1]]
  }

  /** Inserting adds exactly `x`. */
  lemma {:induction false} InsertLastMultiset(s: seq<Element>, x: Element)
    ensures multiset(InsertLast(s, x)) == multiset(s) + multiset{x}
    decreases |s|
  {
    if s != [] && s[|s| - 1].value > x.value {
      assert s == s[..|s| - 1] + [s[|s| - 1]];
      InsertLastMultiset(s[..|s| - 1], x);
    }
  }

  predicate AllAtMost(s: seq<Element>, bound: int)
  {
    forall k :: 0 <= k < |s| ==> s[k].value <= bound
  }

  /** A bound on every value carries over to any rearrangement. */
  lemma AtMostByMultiset(s: seq<Element>, t: seq<Element>, bound: int)
    requires multiset(t) <= multiset(s)
    requires AllAtMost(s, bound)
    ensures AllAtMost(t, bound)
  {
    forall k | 0 <= k < |t|
      ensures t[k].value <= bound
    {
      assert t[k] in multiset(s);
    }
  }

  lemma {:induction false} InsertLastSorted(s: seq<Element>, x: Element)
    requires Sorted(s)
    ensures Sorted(InsertLast(s, x))
    decreases |s|
  {
    if s == [] || s[|s| - 1].value <= x.value {
    } else {
      var init, top := s[..|s| - 1], s[|s| - 1];
      InsertLastSorted(init, x);
      var front := InsertLast(init, x);
      InsertLastMultiset(init, x);
      assert AllAtMost(init + [x], top.value);
      assert multiset(front) == multiset(init + [x]);
      AtMostByMultiset(init + [x], front, top.value);
    }
  }

  /** The reference stable sort by value: the order `Array.prototype.sort`
      gives when comparing by value difference, which keeps
      equal values in input order. */
  function SortByValue(s: seq<Element>): (r: seq<Element>)
    ensures |r| == |s|
    decreases |s|
  {
    if s == [] then []
    else InsertLast(SortByValue(s[..|s| - 1]), s[|s| - 1])
  }

  /** The reference sort is an ascending rearrangement. */
  lemma {:induction false} SortByValueSorts(s: seq<Element>)
    ensures Sorted(SortByValue(s))
    ensures multiset(SortByValue(s)) == multiset(s)
    decreases |s|
  {
    if s != [] {
      var init := s[..|s| - 1];
      assert s == init + [s[|s| - 1]];
      SortByValueSorts(init);
      InsertLastSorted(SortByValue(init), s[|s| - 1]);
      InsertLastMultiset(SortByValue(init), s[|s| - 1]);
    }
  }

  /** The elements of `s` whose value is `v`, in order. */
  function Filter(s: seq<Element>, v: int): (r: seq<Element>)
    ensures |r| <= |s|
    decreases |s|
  {
    if s == [] then []
    else Filter(s[..|s| - 1], v) + (if s[|s| - 1].value == v then [s[|s| - 1]] else [])
  }

  /** `t` keeps, for every value, the relative order the elements of that
      value had in `s`. */
  ghost predicate Stable(s: seq<Element>, t: seq<Element>)
  {
    forall v :: Filter(t, v) == Filter(s, v)
  }

  lemma {:induction false} FilterAppend(a: seq<Element>, b: seq<Element>, v: int)
    ensures Filter(a + b, v) == Filter(a, v) + Filter(b, v)
    decreases |b|
  {
    if b == [] {
      assert a + b == a;
    } else {
      assert (a + b)[..|a + b| - 1] == a + b[..|b| - 1];
      FilterAppend(a, b[..|b| - 1], v);
    }
  }

  lemma FilterSingle(x: Element, v: int)
    ensures Filter([x], v) == if x.value == v then [x] else []
  {
    assert [x][..0] == [];
  }

  /** An element of value `v` appears in the `v`-filter. */
  lemma {:induction false} FilterHas(s: seq<Element>, k: int)
    requires 0 <= k < |s|
    ensures Filter(s, s[k].value) != []
  {
    assert s == s[..k] + [s[k]] + s[k + 1..];
    FilterAppend(s[..k] + [s[k]], s[k + 1..], s[k].value);
    FilterAppend(s[..k], [s[k]], s[k].value);
    FilterSingle(s[k], s[k].value);
  }

  /** A non-empty `v`-filter comes from an element of value `v`. */
  lemma {:induction false} FilterWitness(s: seq<Element>, v: int)
    requires Filter(s, v) != []
    ensures exists k :: 0 <= k < |s| && s[k].value == v
    decreases |s|
  {
    if s[|s| - 1].value != v {
      FilterWitness(s[..|s| - 1], v);
      var k :| 0 <= k < |s| - 1 && s[..|s| - 1][k].value == v;
      assert s[k].value == v;
    }
  }

  lemma FilterPair(x: Element, y: Element, v: int)
    requires x.value != y.value
    ensures Filter([x, y], v) == Filter([y, x], v)
  {
    assert [x, y] == [x] + [y] && [y, x] == [y] + [x];
    FilterAppend([x], [y], v);
    FilterAppend([y], [x], v);
    FilterSingle(x, v);
    FilterSingle(y, v);
  }

  /** Exchanging two adjacent elements of different values keeps every
      value's relative order. */
  lemma AdjacentSwapStable(s: seq<Element>, j: int)
    requires 0 <= j && j + 1 < |s|
    requires s[j].value != s[j + 1].value
    ensures Stable(s, Swap(s, j, j + 1))
  {
    var t := Swap(s, j, j + 1);
    var p, q := s[..j], s[j + 2..];
    var m1, m2 := [s[j], s[j + 1]], [s[j + 1], s[j]];
    assert s == p + m1 + q;
    assert t == p + m2 + q;
    forall v
      ensures Filter(t, v) == Filter(s, v)
    {
      FilterAppend(p + m1, q, v);
      FilterAppend(p, m1, v);
      FilterAppend(p + m2, q, v);
      FilterAppend(p, m2, v);
      FilterPair(s[j], s[j + 1], v);
    }
  }

  /** `InsertLast` puts `x` behind every earlier element of its value. */
  lemma {:induction false} FilterInsertLast(s: seq<Element>, x: Element, v: int)
    ensures Filter(InsertLast(s, x), v) == Filter(s, v) + (if x.value == v then [x] else [])
    decreases |s|
  {
    if s == [] || s[|s| - 1].value <= x.value {
      FilterAppend(s, [x], v);
      FilterSingle(x, v);
    } else {
      var init, top := s[..|s| - 1], s[|s| - 1];
      FilterInsertLast(init, x, v);
      FilterAppend(InsertLast(init, x), [top], v);
      FilterAppend(init, [top], v);
      FilterSingle(top, v);
      assert s == init + [top];
      if x.value == v {
        assert top.value != v;
      }
    }
  }

  /** The reference sort is stable. */
  lemma {:induction false} SortByValueStable(s: seq<Element>)
    ensures Stable(s, SortByValue(s))
    decreases |s|
  {
    if s != [] {
      var init, top := s[..|s| - 1], s[|s| - 1];
      SortByValueStable(init);
      forall v
        ensures Filter(SortByValue(s), v) == Filter(s, v)
      {
        FilterInsertLast(SortByValue(init), top, v);
        assert s == init + [top];
        FilterAppend(init, [top], v);
        FilterSingle(top, v);
      }
    }
  }

  /** In a sorted sequence every value that occurs is at most the last. */
  lemma SortedBoundsFilter(t: seq<Element>, v: int)
    requires Sorted(t) && Filter(t, v) != []
    ensures v <= t[|t| - 1].value
  {
    FilterWitness(t, v);
  }

  ghost predicate SameFilters(t1: seq<Element>, t2: seq<Element>)
  {
    forall v :: Filter(t1, v) == Filter(t2, v)
  }

  lemma LastValuesAgree(t1: seq<Element>, t2: seq<Element>)
    requires Sorted(t1) && Sorted(t2) && t1 != [] && t2 != []
    requires SameFilters(t1, t2)
    ensures t1[|t1| - 1].value == t2[|t2| - 1].value
  {
    var a, b := t1[|t1| - 1], t2[|t2| - 1];
    FilterHas(t1, |t1| - 1);
    assert Filter(t2, a.value) != [];
    SortedBoundsFilter(t2, a.value);
    FilterHas(t2, |t2| - 1);
    assert Filter(t1, b.value) != [];
    SortedBoundsFilter(t1, b.value);
  }

  /** The last elements of two sorted sequences with equal filters agree,
      and so do the filters of what precedes them. */
  lemma PeelLast(t1: seq<Element>, t2: seq<Element>)
    requires Sorted(t1) && Sorted(t2) && t1 != [] && t2 != []
    requires SameFilters(t1, t2)
    ensures t1[|t1| - 1] == t2[|t2| - 1]
    ensures SameFilters(t1[..|t1| - 1], t2[..|t2| - 1])
  {
    LastValuesAgree(t1, t2);
    var a, b := t1[|t1| - 1], t2[|t2| - 1];
    var i1, i2 := t1[..|t1| - 1], t2[..|t2| - 1];
    assert Filter(t1, a.value) == Filter(i1, a.value) + [a];
    assert Filter(t2, a.value) == Filter(i2, a.value) + [b];
    assert Filter(t1, a.value) == Filter(t2, a.value);
    assert Last(Filter(t1, a.value)) == a && Last(Filter(t2, a.value)) == b;
    forall v
      ensures Filter(i1, v) == Filter(i2, v)
    {
      assert Filter(t1, v) == Filter(t2, v);
      assert Filter(t1, v) == Filter(i1, v) + (if a.value == v then [a] else []);
      assert Filter(t2, v) == Filter(i2, v) + (if a.value == v then [b] else []);
      if a.value == v {
        var f1, f2 := Filter(i1, v), Filter(i2, v);
        assert |f1| == |f2|;
        assert f1 == (f1 + [a])[..|f1|] && f2 == (f2 + [b])[..|f2|];
      } else {
        assert Filter(i1, v) + [] == Filter(i1, v);
        assert Filter(i2, v) + [] == Filter(i2, v);
      }
    }
  }

  /** Two sorted sequences that agree on the order of every value's elements
      are the same sequence: a stable sort has exactly one possible result. */
  lemma {:induction false} SortedStableUnique(t1: seq<Element>, t2: seq<Element>)
    requires Sorted(t1) && Sorted(t2)
    requires SameFilters(t1, t2)
    ensures t1 == t2
    decreases |t1| + |t2|
  {
    if t1 == [] && t2 == [] {
    } else if t1 == [] {
      FilterHas(t2, 0);
      assert false;
    } else if t2 == [] {
      FilterHas(t1, 0);
      assert false;
    } else {
      PeelLast(t1, t2);
      SortedStableUnique(t1[..|t1| - 1], t2[..|t2| - 1]);
      assert t1 == t1[..|t1| - 1] + [t1[|t1| - 1]];
      assert t2 == t2[..|t2| - 1] + [t2[|t2| - 1]];
    }
  }

  /** Any sorted, stable rearrangement of `s` is the reference sort of `s`. */
  lemma StableSortIsReference(s: seq<Element>, t: seq<Element>)
    requires Sorted(t) && Stable(s, t)
    ensures t == SortByValue(s)
  {
    SortByValueStable(s);
    SortByValueSorts(s);
    SortedStableUnique(t, SortByValue(s));
  }

  /** The sortedness check the binary-search callers run before searching:
      the array is non-empty and every pair of adjacent occupied slots is in
      ascending order. */
  predicate CallerSorted(a: seq<Slot>)
  {
    && |a| > 0
    && forall i :: 1 <= i < |a| && a[i - 1].Some? && a[i].Some? ==>
         a[i - 1].value.value <= a[i].value.value
  }

  /** The occupied elements sorted by value, then the nulls. Arrays of length
      at most one come back as they are. */
  function GetSortedArray(a: seq<Slot>): (r: seq<Slot>)
    ensures |r| == |a|
    ensures |a| <= 1 ==> r == a
    ensures Contents(r) == Contents(a)
    ensures Sorted(Compact(r))
    ensures forall k :: 0 <= k < |r| ==> (r[k].Some? <==> k < |Compact(a)|)
  {
    if |a| <= 1 then a
    else
      var live := SortByValue(Compact(a));
      SortByValueSorts(Compact(a));
      CompactCount(a);
      CompactPadded(live, NullCount(a));
      Occupied(live) + Nulls(NullCount(a))
  }

  /** A slot array whose occupied prefix is sorted and whose tail is all
      nulls passes the callers' sortedness check whenever it is non-empty. */
  lemma SortedPrefixPassesCallerCheck(s: seq<Element>, n: nat)
    requires Sorted(s)
    requires |s| + n > 0
    ensures CallerSorted(Occupied(s) + Nulls(n))
  {
    var a := Occupied(s) + Nulls(n);
    forall i | 1 <= i < |a| && a[i - 1].Some? && a[i].Some?
      ensures a[i - 1].value.value <= a[i].value.value
    {
      assert i < |s|;
    }
  }

  /** The result of `GetSortedArray` always satisfies the callers'
      sortedness check, except for the empty array, which the check itself
      rejects. */
  lemma GetSortedArrayPassesCallerCheck(a: seq<Slot>)
    ensures CallerSorted(GetSortedArray(a)) <==> |a| > 0
  {
    var r := GetSortedArray(a);
    if |a| == 1 {
      assert CallerSorted(r);
    } else if |a| > 1 {
      var live := SortByValue(Compact(a));
      SortByValueSorts(Compact(a));
      SortedPrefixPassesCallerCheck(live, NullCount(a));
    }
  }
}
