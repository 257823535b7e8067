/** Facts about rearrangements shared by the sorting producers' proofs. */
module SortFacts {
  import opened Steps
  import opened Helpers

  /** The suffix from `m` is sorted and holds the largest values: every
      element before `m` is at most every element from `m` on. */
  predicate Settled(a: seq<Element>, m: int)
  {
    && 0 <= m <= |a|
    && (forall p, q :: m <= p < q < |a| ==> a[p].value <= a[q].value)
    && (forall p, q :: 0 <= p < m <= q < |a| ==> a[p].value <= a[q].value)
  }

  lemma SettledOneIsSorted(a: seq<Element>)
    requires |a| >= 1 && Settled(a, 1)
    ensures Sorted(a)
  {
  }

  /** A settled suffix plus an ascending run before it make the whole
      sequence sorted. */
  lemma {:induction false} RunThenSettledIsSorted(a: seq<Element>, m: int)
    requires 1 <= m <= |a| && Settled(a, m)
    requires forall p :: 0 <= p < m - 1 ==> a[p].value <= a[p + 1].value
    ensures Sorted(a)
  {
    forall p, q | 0 <= p < q < |a|
      ensures a[p].value <= a[q].value
    {
      if q < m {
        AscendingRun(a, p, q);
      }
    }
  }

  lemma {:induction false} AscendingRun(a: seq<Element>, p: int, q: int)
    requires 0 <= p <= q < |a|
    requires forall k :: p <= k < q ==> a[k].value <= a[k + 1].value
    ensures a[p].value <= a[q].value
    decreases q - p
  {
    if p < q {
      AscendingRun(a, p + 1, q);
    }
  }

  lemma StableRefl(s: seq<Element>)
    ensures Stable(s, s)
  {
  }

  lemma StableTrans(a: seq<Element>, b: seq<Element>, c: seq<Element>)
    requires Stable(a, b) && Stable(b, c)
    ensures Stable(a, c)
  {
    forall v
      ensures Filter(c, v) == Filter(a, v)
    {
      assert Filter(c, v) == Filter(b, v);
    }
  }

  /** Rearranging a prefix of length `m` while keeping the rest in place
      keeps the prefix's multiset. */
  lemma PrefixMultiset(a: seq<Element>, b: seq<Element>, m: int)
    requires 0 <= m <= |a| == |b|
    requires multiset(a) == multiset(b)
    requires forall p :: m <= p < |a| ==> a[p] == b[p]
    ensures multiset(a[..m]) == multiset(b[..m])
  {
    var t := a[m..];
    assert a == a[..m] + t;
    assert b == b[..m] + t;
    calc {
      multiset(a[..m]);
      multiset(a) - multiset(t);
      multiset(b) - multiset(t);
      multiset(b[..m]);
    }
  }

  /** Every element of a prefix rearrangement comes from the prefix. */
  lemma FromPrefix(a: seq<Element>, b: seq<Element>, m: int, p: int)
    requires 0 <= p < m <= |a| && m <= |b|
    requires multiset(a[..m]) == multiset(b[..m])
    ensures exists q :: 0 <= q < m && b[p] == a[q]
  {
    assert b[p] == b[..m][p];
    assert b[p] in multiset(a[..m]);
    var q :| 0 <= q < m && a[..m][q] == b[p];
  }

  /** Every snapshot of `s` is a rearrangement of `a`: the animation never
      loses or invents an element. */
  predicate Rearranges<D>(s: seq<SortStep<D>>, a: seq<Element>)
  {
    forall k :: 0 <= k < |s| ==> multiset(s[k].snapshot) == multiset(a)
  }

  lemma RearrangesAppend<D>(s: seq<SortStep<D>>, t: seq<SortStep<D>>, a: seq<Element>)
    requires Rearranges(s, a) && Rearranges(t, a)
    ensures Rearranges(s + t, a)
  {
    forall k | 0 <= k < |s + t|
      ensures multiset((s + t)[k].snapshot) == multiset(a)
    {
      if k >= |s| {
        assert (s + t)[k] == t[k - |s|];
      }
    }
  }

  lemma RearrangesTrans<D>(s: seq<SortStep<D>>, b: seq<Element>, a: seq<Element>)
    requires Rearranges(s, b) && multiset(b) == multiset(a)
    ensures Rearranges(s, a)
  {
  }

  /** Every snapshot of `s` has `n` elements. */
  predicate Sized<D>(s: seq<SortStep<D>>, n: int)
  {
    forall k :: 0 <= k < |s| ==> |s[k].snapshot| == n
  }

  lemma SizedAppend<D>(s: seq<SortStep<D>>, t: seq<SortStep<D>>, n: int)
    requires Sized(s, n) && Sized(t, n)
    ensures Sized(s + t, n)
  {
    forall k | 0 <= k < |s + t|
      ensures |(s + t)[k].snapshot| == n
    {
      if k >= |s| {
        assert (s + t)[k] == t[k - |s|];
      }
    }
  }

  lemma SizedFour<D>(s1: seq<SortStep<D>>, s2: seq<SortStep<D>>, s3: seq<SortStep<D>>, s4: seq<SortStep<D>>, n: int)
    requires Sized(s1, n) && Sized(s2, n) && Sized(s3, n) && Sized(s4, n)
    ensures Sized(s1 + s2 + s3 + s4, n)
  {
    SizedAppend(s1, s2, n);
    SizedAppend(s1 + s2, s3, n);
    SizedAppend(s1 + s2 + s3, s4, n);
  }

  /** Rearrangements have the length of what they rearrange. */
  lemma RearrangesSized<D>(s: seq<SortStep<D>>, a: seq<Element>)
    requires Rearranges(s, a)
    ensures Sized(s, |a|)
  {
    forall k | 0 <= k < |s|
      ensures |s[k].snapshot| == |a|
    {
      assert |multiset(s[k].snapshot)| == |multiset(a)|;
    }
  }
}
