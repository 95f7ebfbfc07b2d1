/** The priority queue: a vector kept as a heap, its top element first. */
module PriorityQueues {
  import opened Common
  import opened Heaps
  import opened HeapRanges
  import opened Vectors

  /** The elements after a push, and after a pop. */
  function Pushed<T>(cmp: (T, T) -> int, q: seq<T>, x: T): seq<T> {
    SiftUp(cmp, q + [x], |q|)
  }

  function Popped<T>(cmp: (T, T) -> int, q: seq<T>): (r: seq<T>) {
    if q == [] then [] else Heaps.Pop(cmp, q)[..|q| - 1]
  }

  class PriorityQueue<T(!new)> {
    const v: Vector<T>
    const cmp: (T, T) -> int

    ghost predicate Valid()
      reads this, v, v.data
    {
      v.Valid() && TotalPreorder(cmp) && IsHeap(cmp, v.Contents())
    }

    ghost function Contents(): seq<T>
      requires Valid()
      reads this, v, v.data
    {
      v.Contents()
    }

    constructor (zero: T, cap: nat, cmp: (T, T) -> int)
      requires TotalPreorder(cmp)
      ensures Valid() && Contents() == [] && this.cmp == cmp && fresh(v) && fresh(v.data)
    {
      v := new Vector(zero, cap);
      this.cmp := cmp;
    }

    method Size() returns (n: nat)
      requires Valid()
      ensures n == |multiset(Contents())|
    {
      n := v.top;
    }

    /** A maximum of the elements, or nothing when there are none. */
    method Top() returns (r: Option<T>)
      requires Valid()
      ensures r.None? <==> Contents() == []
      ensures r.Some? ==> r.value == Contents()[0] && forall x | x in Contents() :: cmp(r.value, x) >= 0
    {
      r := v.Get(0);
      if r.Some? {
        forall i | 0 <= i < |Contents()| {
          RootIsMaximum(cmp, Contents(), i);
        }
      }
    }

    method Push(x: T) returns (n: nat)
      requires Valid()
      modifies v, v.data
      ensures Valid() && (v.data == old(v.data) || fresh(v.data))
      ensures Contents() == Pushed(cmp, old(Contents()), x) && n == |Contents()|
      ensures multiset(Contents()) == multiset(old(Contents())) + multiset{x}
    {
      ghost var q := Contents();
      n := v.PushPtr(Some(x));
      assert v.data[0..n] == q + [x];
      HeapPush(v.data, 0, n, cmp);
      PushSpec(cmp, q, x);
      assert v.Contents() == v.data[0..n];
    }

    method Pop()
      requires Valid()
      modifies v, v.data
      ensures Valid() && v.data == old(v.data)
      ensures Contents() == Popped(cmp, old(Contents()))
      ensures old(Contents()) != [] ==>
                multiset(old(Contents())) == multiset(Contents()) + multiset{old(Contents())[0]}
    {
      if v.top == 0 {
        return;
      }
      ghost var q := Contents();
      assert v.data[0..v.top] == q;
      PoppedSpec(cmp, q);
      hide TotalPreorder, IsHeap, Heaps.Pop;
      HeapPop(v.data, 0, v.top, cmp);
      v.top := v.top - 1;
      assert v.data[..v.top] == v.data[0..v.top + 1][..v.top];
    }
  }

  // ------------------------------------------------------- whole histories

  datatype Op<T> = PushOp(x: T) | PopOp

  function Elements<T>(ops: seq<Op<T>>): multiset<T> {
    if ops == [] then multiset{}
    else (if ops[0].PushOp? then multiset{ops[0].x} else multiset{}) + Elements(ops[1..])
  }

  /** The queue after the operations, and what the pops removed, in order. */
  function Perform<T>(cmp: (T, T) -> int, q: seq<T>, ops: seq<Op<T>>): (seq<T>, seq<T>)
    decreases |ops|
  {
    if ops == [] then (q, [])
    else
      match ops[0]
      case PushOp(x) => Perform(cmp, Pushed(cmp, q, x), ops[1..])
      case PopOp =>
        var (q', out) := Perform(cmp, Popped(cmp, q), ops[1..]);
        (q', (if q == [] then [] else [q[0]]) + out)
  }

  lemma PoppedSpec<T(!new)>(cmp: (T, T) -> int, q: seq<T>)
    requires TotalPreorder(cmp) && IsHeap(cmp, q)
    ensures IsHeap(cmp, Popped(cmp, q))
    ensures multiset(q) == multiset(Popped(cmp, q)) + if q == [] then multiset{} else multiset{q[0]}
  {
    if q != [] {
      PopSpec(cmp, q);
      PopPermutes(cmp, q);
      assert q[0] in multiset(q);
    }
  }

  lemma PrependCounts<T>(x: T, s: seq<T>)
    ensures multiset([x] + s) == multiset{x} + multiset(s)
  {
  }

  lemma CarryOver<T>(q': multiset<T>, out: multiset<T>, q: multiset<T>, more: multiset<T>, x: multiset<T>)
    requires q' + out == q + more
    ensures q' + (x + out) == (q + x) + more
  {
    assert q' + (x + out) == (q' + out) + x;
  }

  /** On every sequence of pushes and pops nothing is lost or invented: what is
      in the queue and what was popped make up what was pushed. */
  lemma {:induction false} NothingLost<T(!new)>(cmp: (T, T) -> int, q: seq<T>, ops: seq<Op<T>>)
    requires TotalPreorder(cmp) && IsHeap(cmp, q)
    ensures var (q', out) := Perform(cmp, q, ops);
            IsHeap(cmp, q') && multiset(q') + multiset(out) == multiset(q) + Elements(ops)
    decreases |ops|
  {
    hide TotalPreorder, IsHeap, Pushed, Popped;
    if ops != [] {
      match ops[0]
      case PushOp(x) =>
        assert IsHeap(cmp, Pushed(cmp, q, x)) && multiset(Pushed(cmp, q, x)) == multiset(q) + multiset{x} by {
          PushedSpec(cmp, q, x);
        }
        NothingLost(cmp, Pushed(cmp, q, x), ops[1..]);
      case PopOp =>
        PoppedSpec(cmp, q);
        NothingLost(cmp, Popped(cmp, q), ops[1..]);
        var (q', out) := Perform(cmp, Popped(cmp, q), ops[1..]);
        if q != [] {
          PrependCounts(q[0], out);
          CarryOver(multiset(q'), multiset(out), multiset(Popped(cmp, q)), Elements(ops[1..]), multiset{q[0]});
        }
    }
  }

  lemma PushedSpec<T(!new)>(cmp: (T, T) -> int, q: seq<T>, x: T)
    requires TotalPreorder(cmp) && IsHeap(cmp, q)
    ensures IsHeap(cmp, Pushed(cmp, q, x)) && multiset(Pushed(cmp, q, x)) == multiset(q) + multiset{x}
  {
    PushSpec(cmp, q, x);
  }

  /** Pops until empty. */
  function Drain<T>(cmp: (T, T) -> int, q: seq<T>): seq<T>
    decreases |q|
  {
    if q == [] then [] else [q[0]] + Drain(cmp, Popped(cmp, q))
  }

  ghost predicate Dominates<T(!new)>(cmp: (T, T) -> int, x: T, m: multiset<T>) {
    forall y | y in m :: cmp(x, y) >= 0
  }

  lemma DominatesPart<T(!new)>(cmp: (T, T) -> int, x: T, m: multiset<T>, rest: multiset<T>, other: multiset<T>)
    requires Dominates(cmp, x, m) && m == rest + other
    ensures Dominates(cmp, x, rest)
  {
  }

  lemma RootDominates<T(!new)>(cmp: (T, T) -> int, q: seq<T>)
    requires TotalPreorder(cmp) && IsHeap(cmp, q) && q != []
    ensures Dominates(cmp, q[0], multiset(q))
  {
    hide TotalPreorder, IsHeap;
    forall x | x in multiset(q)
      ensures cmp(q[0], x) >= 0
    {
      var i :| 0 <= i < |q| && q[i] == x;
      RootIsMaximum(cmp, q, i);
    }
  }

  ghost predicate NonIncreasing<T>(cmp: (T, T) -> int, s: seq<T>) {
    forall i, j | 0 <= i < j < |s| :: cmp(s[i], s[j]) >= 0
  }

  lemma PrependLargest<T(!new)>(cmp: (T, T) -> int, x: T, s: seq<T>)
    requires NonIncreasing(cmp, s) && Dominates(cmp, x, multiset(s))
    ensures NonIncreasing(cmp, [x] + s)
  {
    assert forall j | 0 <= j < |s| :: s[j] in multiset(s);
  }

  /** Draining gives all the elements, each at least as large as the next. */
  lemma {:induction false} DrainIsNonIncreasing<T(!new)>(cmp: (T, T) -> int, q: seq<T>)
    requires TotalPreorder(cmp) && IsHeap(cmp, q)
    ensures multiset(Drain(cmp, q)) == multiset(q) && NonIncreasing(cmp, Drain(cmp, q))
    decreases |q|
  {
    if q != [] {
      var rest := Popped(cmp, q);
      PoppedSpec(cmp, q);
      RootDominates(cmp, q);
      DominatesPart(cmp, q[0], multiset(q), multiset(rest), multiset{q[0]});
      hide TotalPreorder, IsHeap, NonIncreasing, Popped, Dominates;
      DrainIsNonIncreasing(cmp, rest);
      PrependCounts(q[0], Drain(cmp, rest));
      PrependLargest(cmp, q[0], Drain(cmp, rest));
    }
  }
}
