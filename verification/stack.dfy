/** The unbounded stack container (src/utils/dataStructures/stack.js): a
    sequence of elements whose last element is the top, and the steps of its
    four operations. Fresh ids come from an injected counter `nextId`. */
module Stack {
  import opened Steps

  /** What a stack-operation step says. */
  datatype StackDesc =
    | PushPreparing(value: int)
    | Pushed(value: int)
    | PopEmpty
    | PopPreparing(v: int)
    | Popped(v: int)
    | PeekEmpty
    | Peeking(v: int)
    | Emptiness(empty: bool)

  type StackStep = SortStep<StackDesc>

  /** The state a run of steps leaves behind. */
  function Final(r: seq<StackStep>): seq<Element>
    requires r != []
  {
    Last(r).snapshot
  }

  /** The top of a non-empty stack. */
  function Top(s: seq<Element>): Element
    requires s != []
  {
    s[|s| - 1]
  }

  /** `visualizations.push`: a preparing step over the unchanged stack, then
      the stack with the new element on top, highlighted as a success. There
      is no capacity limit. */
  function Push(s: seq<Element>, value: int, nextId: nat): (r: seq<StackStep>)
    ensures |r| == 2
    ensures r[0] == Step(s, NoMarks, PushPreparing(value), NoMeta)
    ensures var t := Final(r);
      && |t| == |s| + 1 && t[..|s|] == s && Top(t) == Element(nextId, value)
      && r[1].marks == NoMarks.(success := [|t| - 1]) && r[1].desc == Pushed(value)
  {
    var t := s + [Element(nextId, value)];
    assert t[..|s|] == s;
    [Step(s, NoMarks, PushPreparing(value), NoMeta),
     Step(t, NoMarks.(success := [|t| - 1]), Pushed(value), NoMeta)]
  }

  /** `visualizations.pop`: one error step on an empty stack; otherwise a
      step highlighting the top, then the stack without it. */
  function Pop(s: seq<Element>): (r: seq<StackStep>)
    ensures |r| == (if s == [] then 1 else 2)
    ensures s == [] ==> r[0] == Step(s, NoMarks, PopEmpty, NoMeta)
    ensures s != [] ==>
      && r[0] == Step(s, NoMarks.(primary := [|s| - 1]), PopPreparing(Top(s).value), NoMeta)
      && Final(r) + [Top(s)] == s
      && r[1].marks == NoMarks && r[1].desc == Popped(Top(s).value)
  {
    if s == [] then [Step(s, NoMarks, PopEmpty, NoMeta)]
    else
      var t := s[..|s| - 1];
      assert t + [Top(s)] == s;
      [Step(s, NoMarks.(primary := [|s| - 1]), PopPreparing(Top(s).value), NoMeta),
       Step(t, NoMarks, Popped(Top(s).value), NoMeta)]
  }

  /** `visualizations.peek`: one step over the unchanged stack, reporting
      the top and highlighting its index, or an error when empty. */
  function Peek(s: seq<Element>): (r: seq<StackStep>)
    ensures |r| == 1 && r[0].snapshot == s
    ensures s == [] ==> r[0].marks == NoMarks && r[0].desc == PeekEmpty
    ensures s != [] ==> r[0].marks == NoMarks.(primary := [|s| - 1]) && r[0].desc == Peeking(Top(s).value)
  {
    if s == [] then [Step(s, NoMarks, PeekEmpty, NoMeta)]
    else [Step(s, NoMarks.(primary := [|s| - 1]), Peeking(Top(s).value), NoMeta)]
  }

  /** `visualizations.isEmpty`: one step over the unchanged stack saying
      whether it holds no element. */
  function IsEmpty(s: seq<Element>): (r: seq<StackStep>)
    ensures |r| == 1 && r[0].snapshot == s && r[0].marks == NoMarks
    ensures r[0].desc.Emptiness? && (r[0].desc.empty <==> |s| == 0)
  {
    [Step(s, NoMarks, Emptiness(|s| == 0), NoMeta)]
  }

  /** Popping right after a push removes the pushed element and reports its
      value: the stack is back to what it was. */
  lemma PushThenPop(s: seq<Element>, value: int, nextId: nat)
    ensures var r := Pop(Final(Push(s, value, nextId)));
      Final(r) == s && Last(r).desc == Popped(value)
  {
    var t := Final(Push(s, value, nextId));
    assert t == s + [Element(nextId, value)];
    assert t[..|t| - 1] == s;
  }

  /** Pushing back the element just popped, under its own id, restores the
      stack. */
  lemma PopThenPush(s: seq<Element>)
    requires s != []
    ensures Final(Push(Final(Pop(s)), Top(s).value, Top(s).id)) == s
  {
    var t := Final(Pop(s));
    var u := Final(Push(t, Top(s).value, Top(s).id));
    assert u == t + [Top(s)];
  }

  /** Peeking right after a push reports the pushed value. */
  lemma PushThenPeek(s: seq<Element>, value: int, nextId: nat)
    ensures Peek(Final(Push(s, value, nextId)))[0].desc == Peeking(value)
  {
  }

  /** The stack after pushing `values` in order, the first with id
      `nextId`, each push taking the next id. */
  function PushAll(s: seq<Element>, values: seq<int>, nextId: nat): seq<Element>
    decreases |values|
  {
    if values == [] then s
    else PushAll(Final(Push(s, values[0], nextId)), values[1..], nextId + 1)
  }

  /** Pops `n` times (an empty stack ends the run early) and returns the
      values reported, in popping order, with the stack left behind. */
  function PopAll(s: seq<Element>, n: nat): (seq<int>, seq<Element>)
  {
    if n == 0 || s == [] then ([], s)
    else
      var r := Pop(s);
      var rest := PopAll(Final(r), n - 1);
      ([Top(s).value] + rest.0, rest.1)
  }

  function Reverse(s: seq<int>): (r: seq<int>)
    ensures |r| == |s|
    ensures forall k :: 0 <= k < |s| ==> r[k] == s[|s| - 1 - k]
  {
    if s == [] then [] else [s[|s| - 1]] + Reverse(s[..|s| - 1])
  }

  /** Pushing a list lays its elements on top of the stack in order. */
  lemma {:induction false} PushAllAppends(s: seq<Element>, values: seq<int>, nextId: nat)
    ensures PushAll(s, values, nextId) == s + Fresh(values, nextId)
    decreases |values|
  {
    if values != [] {
      var t := Final(Push(s, values[0], nextId));
      assert t == s + [Element(nextId, values[0])];
      PushAllAppends(t, values[1..], nextId + 1);
      assert t + Fresh(values[1..], nextId + 1) == s + Fresh(values, nextId);
    }
  }

  /** Popping as many times as there are elements above `s` reports their
      values from the top down and leaves `s`. */
  lemma {:induction false} PopAllAbove(s: seq<Element>, u: seq<Element>)
    ensures PopAll(s + u, |u|) == (Reverse(Values(u)), s)
    decreases |u|
  {
    if u != [] {
      var t := s + u;
      var v := u[..|u| - 1];
      assert Final(Pop(t)) == s + v by {
        assert t[..|t| - 1] == s + v;
      }
      PopAllAbove(s, v);
      assert Top(t) == u[|u| - 1];
      var w := Values(u);
      assert PopAll(t, |u|) == ([w[|u| - 1]] + PopAll(s + v, |v|).0, PopAll(s + v, |v|).1);
      assert Values(v) == w[..|u| - 1];
      assert Reverse(w) == [w[|u| - 1]] + Reverse(w[..|u| - 1]);
    } else {
      assert s + u == s;
    }
  }

  /** Last in, first out: pushing a list and then popping as many times
      reports the list backwards and restores the stack. */
  lemma LastInFirstOut(s: seq<Element>, values: seq<int>, nextId: nat)
    ensures PopAll(PushAll(s, values, nextId), |values|) == (Reverse(values), s)
  {
    PushAllAppends(s, values, nextId);
    var u := Fresh(values, nextId);
    PopAllAbove(s, u);
    assert Values(u) == values;
  }
}
