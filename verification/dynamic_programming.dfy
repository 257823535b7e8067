/** The two fixed-input dynamic-programming producers
    (src/utils/algorithms/dynamicProgramming.js): a bottom-up Fibonacci table
    and the longest-common-subsequence table. Both ignore the array they are
    given; each is modelled for a general size or pair of strings and then
    applied to the source's fixed inputs. The `highlightedIndex` each step
    carries is the `Cursor` metadata. */
module DynamicProgramming {
  import opened Steps

  /** What a dynamic-programming step says. */
  datatype DpDesc =
    | FibInit(size: nat)
    | FibBase
    | FibCalc(i: nat, prev: int, prevPrev: int)
    | FibValue(i: nat, v: int)
    | LcsStart(s1: string, s2: string)
    | LcsMatch(i: nat, j: nat, c: char, v: int)
    | LcsMismatch(i: nat, j: nat, v: int)
    | LcsDone(length: int, shown: string)

  /** Fibonacci steps show the DP array. */
  type FibStep = Step<seq<int>, Marks, DpDesc>

  /** LCS steps show the two strings. */
  type LcsStep = Step<seq<string>, Marks, DpDesc>

  // ---------------------------------------------------------------------
  // Fibonacci

  /** The Fibonacci numbers, 0, 1, 1, 2, ... */
  function Fib(k: nat): nat
  {
    if k < 2 then k else Fib(k - 1) + Fib(k - 2)
  }

  /** The DP array of `n + 1` entries once entries `0..upto` are computed:
      the Fibonacci numbers there, the initial zeros after. */
  function Table(n: nat, upto: nat): (r: seq<int>)
    ensures |r| == n + 1
    ensures forall k :: 0 <= k <= n ==> r[k] == if k <= upto then Fib(k) else 0
  {
    seq(n + 1, k requires 0 <= k <= n => if k <= upto then Fib(k) else 0)
  }

  /** The step announcing the computation of entry `i`. */
  function CalcStep(n: nat, i: nat): FibStep
    requires 2 <= i
  {
    Step(Table(n, i - 1), NoMarks, FibCalc(i, Fib(i - 1), Fib(i - 2)), Cursor(i))
  }

  /** The step showing entry `i` computed. */
  function ValueStep(n: nat, i: nat): FibStep
  {
    Step(Table(n, i), NoMarks, FibValue(i, Fib(i)), Cursor(i))
  }

  /** The steps of `fibonacciDP` for a table of `n + 1` entries: the zeroed
      table, the base cases, then for each `i` from 2 to `n` a step before
      and a step after `dp[i] = dp[i - 1] + dp[i - 2]`. Every snapshot is
      the table at that moment: Fibonacci numbers up to the entry last
      written, zeros after. */
  method FibonacciSteps(n: nat) returns (r: seq<FibStep>)
    requires n >= 1
    ensures |r| == 2 * n
    ensures r[0] == Step(Table(n, 0), NoMarks, FibInit(n + 1), Cursor(-1))
    ensures r[1] == Step(Table(n, 1), NoMarks, FibBase, Cursor(1))
    ensures forall i :: 2 <= i <= n ==> r[2 * i - 2] == CalcStep(n, i) && r[2 * i - 1] == ValueStep(n, i)
    ensures Last(r).snapshot == Table(n, n)
  {
    var dp := seq(n + 1, k => 0);
    assert dp == Table(n, 0);
    r := [Step(dp, NoMarks, FibInit(n + 1), Cursor(-1))];
    dp := dp[0 := 0][1 := 1];
    assert dp == Table(n, 1);
    r := r + [Step(dp, NoMarks, FibBase, Cursor(1))];
    var i := 2;
    while i <= n
      invariant 2 <= i <= n + 1
      invariant dp == Table(n, i - 1)
      invariant |r| == 2 * i - 2
      invariant r[0] == Step(Table(n, 0), NoMarks, FibInit(n + 1), Cursor(-1))
      invariant r[1] == Step(Table(n, 1), NoMarks, FibBase, Cursor(1))
      invariant forall x :: 2 <= x < i ==> r[2 * x - 2] == CalcStep(n, x) && r[2 * x - 1] == ValueStep(n, x)
    {
      r := r + [Step(dp, NoMarks, FibCalc(i, dp[i - 1], dp[i - 2]), Cursor(i))];
      dp := dp[i := dp[i - 1] + dp[i - 2]];
      assert dp == Table(n, i);
      r := r + [Step(dp, NoMarks, FibValue(i, dp[i]), Cursor(i))];
      i := i + 1;
    }
    if n >= 2 {
      assert Last(r) == r[2 * n - 1] == ValueStep(n, n);
    }
  }

  /** The first nine Fibonacci numbers. */
  lemma FirstNine()
    ensures Table(8, 8) == [0, 1, 1, 2, 3, 5, 8, 13, 21]
  {
    assert Fib(2) == 1 && Fib(3) == 2 && Fib(4) == 3 && Fib(5) == 5;
    assert Fib(6) == 8 && Fib(7) == 13 && Fib(8) == 21;
  }

  /** `fibonacciDP.steps`: `n` is fixed at 8 and the input is ignored, so
      there are 16 steps, starting from nine zeros and ending with the
      first nine Fibonacci numbers. */
  method FibonacciDP(input: seq<Element>) returns (r: seq<FibStep>)
    ensures |r| == 16
    ensures r[0].snapshot == [0, 0, 0, 0, 0, 0, 0, 0, 0] && r[0].desc == FibInit(9)
    ensures Last(r).snapshot == [0, 1, 1, 2, 3, 5, 8, 13, 21]
  {
    r := FibonacciSteps(8);
    FirstNine();
    assert Table(8, 0) == [0, 0, 0, 0, 0, 0, 0, 0, 0];
  }

  // ---------------------------------------------------------------------
  // Longest common subsequence

  /** The LCS recurrence over the prefixes `a[..i]` and `b[..j]`. */
  function Lcs(a: string, b: string, i: nat, j: nat): nat
    requires i <= |a| && j <= |b|
    decreases i + j
  {
    if i == 0 || j == 0 then 0
    else if a[i - 1] == b[j - 1] then Lcs(a, b, i - 1, j - 1) + 1
    else Max(Lcs(a, b, i - 1, j), Lcs(a, b, i, j - 1))
  }

  function Max(x: int, y: int): int
  {
    if x >= y then x else y
  }

  /** Positions strictly ascending and below `bound`. */
  predicate Ascending(p: seq<int>, bound: int)
  {
    && (forall k :: 0 <= k < |p| ==> 0 <= p[k] < bound)
    && (forall x, y :: 0 <= x < y < |p| ==> p[x] < p[y])
  }

  /** `p` and `q` pick the same characters, in order, out of `a[..i]` and
      `b[..j]`: a common subsequence of the two prefixes. */
  predicate Common(a: string, b: string, p: seq<int>, q: seq<int>, i: nat, j: nat)
    requires i <= |a| && j <= |b|
  {
    && |p| == |q| && Ascending(p, i) && Ascending(q, j)
    && forall k :: 0 <= k < |p| ==> a[p[k]] == b[q[k]]
  }

  /** Extending either prefix by one character keeps the LCS length or
      adds one to it. */
  lemma {:induction false} LcsSteps(a: string, b: string, i: nat, j: nat)
    requires i <= |a| && j <= |b|
    ensures i >= 1 ==> Lcs(a, b, i - 1, j) <= Lcs(a, b, i, j) <= Lcs(a, b, i - 1, j) + 1
    ensures j >= 1 ==> Lcs(a, b, i, j - 1) <= Lcs(a, b, i, j) <= Lcs(a, b, i, j - 1) + 1
    decreases i + j
  {
    if i >= 1 && j >= 1 {
      LcsSteps(a, b, i - 1, j);
      LcsSteps(a, b, i, j - 1);
    }
  }

  /** No common subsequence of the prefixes is longer than the recurrence
      says. */
  lemma {:induction false} LcsUpper(a: string, b: string, p: seq<int>, q: seq<int>, i: nat, j: nat)
    requires i <= |a| && j <= |b| && Common(a, b, p, q, i, j)
    ensures |p| <= Lcs(a, b, i, j)
    decreases i + j
  {
    if p != [] {
      var k := |p| - 1;
      LcsSteps(a, b, i, j);
      if p[k] < i - 1 {
        LcsUpper(a, b, p, q, i - 1, j);
      } else if q[k] < j - 1 {
        LcsUpper(a, b, p, q, i, j - 1);
      } else {
        assert a[i - 1] == b[j - 1];
        LcsUpper(a, b, p[..k], q[..k], i - 1, j - 1);
      }
    }
  }

  /** A common subsequence as long as the recurrence says, found by walking
      the table back from `(i, j)`. */
  function Backtrack(a: string, b: string, i: nat, j: nat): (pq: (seq<int>, seq<int>))
    requires i <= |a| && j <= |b|
    ensures Common(a, b, pq.0, pq.1, i, j) && |pq.0| == Lcs(a, b, i, j)
    decreases i + j
  {
    if i == 0 || j == 0 then ([], [])
    else if a[i - 1] == b[j - 1] then
      var w := Backtrack(a, b, i - 1, j - 1);
      (w.0 + [i - 1], w.1 + [j - 1])
    else if Lcs(a, b, i - 1, j) >= Lcs(a, b, i, j - 1) then Backtrack(a, b, i - 1, j)
    else Backtrack(a, b, i, j - 1)
  }

  /** The recurrence computes the length of a longest common subsequence:
      one that long exists, and none is longer. */
  lemma LcsIsLongest(a: string, b: string, p: seq<int>, q: seq<int>)
    requires Common(a, b, p, q, |a|, |b|)
    ensures |p| <= Lcs(a, b, |a|, |b|)
    ensures var w := Backtrack(a, b, |a|, |b|); Common(a, b, w.0, w.1, |a|, |b|) && |w.0| == Lcs(a, b, |a|, |b|)
  {
    LcsUpper(a, b, p, q, |a|, |b|);
  }

  /** The step for cell `(i, j)` of the table. */
  function CellStep(a: string, b: string, i: nat, j: nat): LcsStep
    requires 1 <= i <= |a| && 1 <= j <= |b|
  {
    if a[i - 1] == b[j - 1] then Step([a, b], NoMarks, LcsMatch(i, j, a[i - 1], Lcs(a, b, i, j)), Cursor(i - 1))
    else Step([a, b], NoMarks, LcsMismatch(i, j, Lcs(a, b, i, j)), Cursor(i - 1))
  }

  /** The steps for cells `(i, 1)` to `(i, j)`. */
  function RowSteps(a: string, b: string, i: nat, j: nat): (r: seq<LcsStep>)
    requires 1 <= i <= |a| && j <= |b|
    ensures |r| == j
    ensures forall y :: 1 <= y <= j ==> r[y - 1] == CellStep(a, b, i, y)
  {
    if j == 0 then [] else RowSteps(a, b, i, j - 1) + [CellStep(a, b, i, j)]
  }

  /** The steps for rows 1 to `i`, each row left to right. */
  function TableSteps(a: string, b: string, i: nat): (r: seq<LcsStep>)
    requires i <= |a|
  {
    if i == 0 then [] else TableSteps(a, b, i - 1) + RowSteps(a, b, i, |b|)
  }

  /** One step per cell of the first `i` rows. */
  lemma {:induction false} TableStepsLength(a: string, b: string, i: nat)
    requires i <= |a|
    ensures |TableSteps(a, b, i)| == i * |b|
  {
    if i > 0 {
      var n := |b|;
      TableStepsLength(a, b, i - 1);
      assert |TableSteps(a, b, i)| == |TableSteps(a, b, i - 1)| + n;
      assert (i - 1) * n + n == i * n;
    }
  }

  /** The text the final step shows as the subsequence. */
  const Shown := "ADH"

  /** `row` is row `x` of the finished table. */
  predicate RowIs(a: string, b: string, x: nat, row: seq<int>)
    requires x <= |a|
  {
    |row| == |b| + 1 && forall y :: 0 <= y <= |b| ==> row[y] == Lcs(a, b, x, y)
  }

  /** `row` holds `n + 1` zeros, as every row starts. */
  predicate Zeros(row: seq<int>, n: nat)
  {
    |row| == n + 1 && forall y :: 0 <= y <= n ==> row[y] == 0
  }

  /** One pass of the inner loop of `longestCommonSubsequence.steps`: row
      `i` of the table, filled left to right from the zeros it starts with
      and the finished row `i - 1`, with one step per cell. */
  method FillRow(a: string, b: string, i: nat, above: seq<int>, zeros: seq<int>) returns (row: seq<int>, steps: seq<LcsStep>)
    requires 1 <= i <= |a| && RowIs(a, b, i - 1, above) && Zeros(zeros, |b|)
    ensures RowIs(a, b, i, row)
    ensures steps == RowSteps(a, b, i, |b|)
  {
    row := zeros;
    steps := [];
    var j := 1;
    while j <= |b|
      invariant 1 <= j <= |b| + 1
      invariant |row| == |b| + 1 && forall y :: 0 <= y < j ==> row[y] == Lcs(a, b, i, y)
      invariant steps == RowSteps(a, b, i, j - 1)
    {
      var v;
      var desc;
      if a[i - 1] == b[j - 1] {
        v := above[j - 1] + 1;
        desc := LcsMatch(i, j, a[i - 1], v);
      } else {
        v := Max(above[j], row[j - 1]);
        desc := LcsMismatch(i, j, v);
      }
      row := row[j := v];
      steps := steps + [Step([a, b], NoMarks, desc, Cursor(i - 1))];
      j := j + 1;
    }
  }

  /** `longestCommonSubsequence.steps` for the strings `a` and `b`: a
      starting step, one step per table cell in row-major order reporting
      the value the recurrence gives there (and the matched character on a
      match), then the final length. The table is filled bottom-up as the
      source does; the steps agree with the recurrence. */
  method LcsTable(a: string, b: string) returns (r: seq<LcsStep>)
    ensures r == [Step([a, b], NoMarks, LcsStart(a, b), Cursor(-1))]
               + TableSteps(a, b, |a|)
               + [Step([a, b], NoMarks, LcsDone(Lcs(a, b, |a|, |b|), Shown), Cursor(-1))]
  {
    var m := |a|;
    var n := |b|;
    var dp := seq(m + 1, x => seq(n + 1, y => 0));
    var start := Step([a, b], NoMarks, LcsStart(a, b), Cursor(-1));
    r := [start];
    var i := 1;
    while i <= m
      invariant 1 <= i <= m + 1
      invariant |dp| == m + 1
      invariant forall x :: 0 <= x < i ==> RowIs(a, b, x, dp[x])
      invariant forall x :: i <= x <= m ==> Zeros(dp[x], n)
      invariant r == [start] + TableSteps(a, b, i - 1)
    {
      var row, steps := FillRow(a, b, i, dp[i - 1], dp[i]);
      assert r + steps == [start] + TableSteps(a, b, i);
      dp := dp[i := row];
      r := r + steps;
      i := i + 1;
    }
    assert RowIs(a, b, m, dp[m]);
    r := r + [Step([a, b], NoMarks, LcsDone(dp[m][n], Shown), Cursor(-1))];
  }

  /** The LCS table of "ABCDGH" and "AEDFHR", row by row. */
  lemma ExampleTable()
    ensures Lcs("ABCDGH", "AEDFHR", 6, 6) == 3
  {
    var a, b := "ABCDGH", "AEDFHR";
    assert Lcs(a, b, 1, 1) == 1 && Lcs(a, b, 1, 2) == 1 && Lcs(a, b, 1, 3) == 1;
    assert Lcs(a, b, 1, 4) == 1 && Lcs(a, b, 1, 5) == 1 && Lcs(a, b, 1, 6) == 1;
    assert Lcs(a, b, 2, 1) == 1 && Lcs(a, b, 2, 2) == 1 && Lcs(a, b, 2, 3) == 1;
    assert Lcs(a, b, 2, 4) == 1 && Lcs(a, b, 2, 5) == 1 && Lcs(a, b, 2, 6) == 1;
    assert Lcs(a, b, 3, 1) == 1 && Lcs(a, b, 3, 2) == 1 && Lcs(a, b, 3, 3) == 1;
    assert Lcs(a, b, 3, 4) == 1 && Lcs(a, b, 3, 5) == 1 && Lcs(a, b, 3, 6) == 1;
    assert Lcs(a, b, 4, 1) == 1 && Lcs(a, b, 4, 2) == 1 && Lcs(a, b, 4, 3) == 2;
    assert Lcs(a, b, 4, 4) == 2 && Lcs(a, b, 4, 5) == 2 && Lcs(a, b, 4, 6) == 2;
    assert Lcs(a, b, 5, 1) == 1 && Lcs(a, b, 5, 2) == 1 && Lcs(a, b, 5, 3) == 2;
    assert Lcs(a, b, 5, 4) == 2 && Lcs(a, b, 5, 5) == 2 && Lcs(a, b, 5, 6) == 2;
    assert Lcs(a, b, 6, 1) == 1 && Lcs(a, b, 6, 2) == 1 && Lcs(a, b, 6, 3) == 2;
    assert Lcs(a, b, 6, 4) == 2 && Lcs(a, b, 6, 5) == 3;
  }

  /** The shown "ADH" picks matching characters, in order, out of both
      fixed strings: with `ExampleTable` it is a longest common
      subsequence, so the hard-coded answer is a correct one. */
  lemma ShownIsCommon()
    ensures Common("ABCDGH", "AEDFHR", [0, 3, 5], [0, 2, 4], 6, 6)
    ensures forall k :: 0 <= k < |Shown| ==> Shown[k] == "ABCDGH"[[0, 3, 5][k]]
  {
    var a, b, p, q := "ABCDGH", "AEDFHR", [0, 3, 5], [0, 2, 4];
    assert a[0] == b[0] == Shown[0] == 'A';
    assert a[3] == b[2] == Shown[1] == 'D';
    assert a[5] == b[4] == Shown[2] == 'H';
  }

  /** `longestCommonSubsequence.steps`: the strings are fixed and the input
      is ignored; 36 cell steps between the start and the final step, which
      reports length 3. */
  method LongestCommonSubsequence(input: seq<Element>) returns (r: seq<LcsStep>)
    ensures |r| == 38
    ensures r[0].desc == LcsStart("ABCDGH", "AEDFHR")
    ensures Last(r).desc == LcsDone(3, "ADH")
  {
    r := LcsTable("ABCDGH", "AEDFHR");
    TableStepsLength("ABCDGH", "AEDFHR", 6);
    ExampleTable();
  }
}
