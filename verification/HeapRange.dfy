/** The heap operations in place, on the range [first, last) of an array. The
    loops move elements into a hole and write the sifted element once at the
    end; each is proved to compute what the swapping functions compute. */
module HeapRanges {
  import opened Heaps

  /** The range holds `now`, and the rest of the array is as it was. */
  twostate predicate RangeBecomes<T>(a: array<T>, first: nat, last: nat, new now: seq<T>)
    requires first <= last <= a.Length
    reads a
  {
    a[first..last] == now && a[..first] == old(a[..first]) && a[last..] == old(a[last..])
  }

  /** Writes one element of the range. */
  method Put<T>(a: array<T>, first: nat, last: nat, k: nat, x: T)
    requires first <= last <= a.Length && k < last - first
    modifies a
    ensures RangeBecomes(a, first, last, old(a[first..last])[k := x])
  {
    a[first + k] := x;
  }

  /** Reads one element of the range. */
  method Fetch<T>(a: array<T>, first: nat, last: nat, k: nat) returns (x: T)
    requires first <= last <= a.Length && k < last - first
    ensures x == a[first..last][k]
  {
    x := a[first + k];
  }

  /** Copies one element of the range over another. */
  method Copy<T>(a: array<T>, first: nat, last: nat, to: nat, from: nat)
    requires first <= last <= a.Length && to < last - first && from < last - first
    modifies a
    ensures RangeBecomes(a, first, last, old(a[first..last])[to := old(a[first..last])[from]])
  {
    var x := Fetch(a, first, last, from);
    Put(a, first, last, to, x);
  }

  // -------------------------------------------------------------- rising

  /** One turn of the upward loop, with the element `t` held aside: moving the
      parent into the hole is the swap that the function does. */
  lemma HoleRises<T>(cmp: (T, T) -> int, s: seq<T>, hole: nat, t: T)
    requires 0 < hole < |s| && cmp(s[Parent(hole)], t) < 0
    ensures SiftUp(cmp, s[hole := t], hole) == SiftUp(cmp, s[hole := s[Parent(hole)]][Parent(hole) := t], Parent(hole))
  {
    assert s[hole := s[Parent(hole)]][Parent(hole) := t] == Swap(s[hole := t], Parent(hole), hole);
  }

  /** Where the loop stops the function stops too. */
  lemma HoleSettlesAbove<T>(cmp: (T, T) -> int, s: seq<T>, hole: nat, t: T)
    requires hole < |s| && (hole == 0 || cmp(s[Parent(hole)], t) >= 0)
    ensures SiftUp(cmp, s[hole := t], hole) == s[hole := t]
  {
  }

  method SiftUpRange<T>(a: array<T>, first: nat, last: nat, cmp: (T, T) -> int)
    requires first <= last <= a.Length
    modifies a
    ensures RangeBecomes(a, first, last,
                         if last == first then [] else SiftUp(cmp, old(a[first..last]), last - first - 1))
  {
    var len := last - first;
    if len > 1 {
      var parent := (len - 2) / 2;
      var hole := len - 1;
      assert a[first + parent] == a[first..last][parent] && a[first + hole] == a[first..last][hole];
      if cmp(a[first + parent], a[first + hole]) < 0 {
        var t := a[first + hole];
        RaiseHole(a, first, last, cmp, hole, parent, t);
      }
    }
  }

  /** The loop: `t` has been copied out of the hole, and is larger than what the
      parent of the hole holds. */
  method RaiseHole<T>(a: array<T>, first: nat, last: nat, cmp: (T, T) -> int, start: nat, above: nat, t: T)
    requires first <= last <= a.Length && 0 < start < last - first && above == Parent(start)
    requires a[first + start] == t && cmp(a[first + above], t) < 0
    modifies a
    ensures RangeBecomes(a, first, last, SiftUp(cmp, old(a[first..last]), start))
  {
    var hole, parent := start, above;
    ghost var target := SiftUp(cmp, a[first..last], hole);
    assert a[first..last][hole := t] == a[first..last];
    assert a[first + parent] == a[first..last][parent];
    hide SiftUp, Swap;
    while true
      invariant 0 < hole < last - first && parent == Parent(hole)
      invariant a[..first] == old(a[..first]) && a[last..] == old(a[last..])
      invariant cmp(a[first..last][parent], t) < 0
      invariant SiftUp(cmp, a[first..last][hole := t], hole) == target
      decreases hole
    {
      HoleRises(cmp, a[first..last], hole, t);
      Copy(a, first, last, hole, parent);
      hole := parent;
      if parent == 0 {
        break;
      }
      parent := (parent - 1) / 2;
      var x := Fetch(a, first, last, parent);
      if cmp(x, t) >= 0 {
        break;
      }
    }
    HoleSettlesAbove(cmp, a[first..last], hole, t);
    Put(a, first, last, hole, t);
  }

  // ------------------------------------------------------------- sinking

  /** One turn of the downward loop: moving the larger child into the hole. */
  lemma HoleSinks<T>(cmp: (T, T) -> int, s: seq<T>, hole: nat, child: nat, t: T)
    requires HasChild(|s|, hole) && child == LargerChild(cmp, s, hole) && cmp(s[child], t) >= 0
    ensures SiftDown(cmp, s[hole := t], hole) == SiftDown(cmp, s[hole := s[child]][child := t], child)
  {
    var b := s[hole := t];
    assert LargerChild(cmp, b, hole) == child;
    assert s[hole := s[child]][child := t] == Swap(b, hole, child);
  }

  lemma HoleSettlesBelow<T>(cmp: (T, T) -> int, s: seq<T>, hole: nat, t: T)
    requires hole < |s| && (HasChild(|s|, hole) ==> cmp(s[LargerChild(cmp, s, hole)], t) < 0)
    ensures SiftDown(cmp, s[hole := t], hole) == s[hole := t]
  {
    if HasChild(|s|, hole) {
      assert LargerChild(cmp, s[hole := t], hole) == LargerChild(cmp, s, hole);
    }
  }

  /** The child that would move up into `hole`. */
  method PickChild<T>(a: array<T>, first: nat, last: nat, cmp: (T, T) -> int, hole: nat) returns (child: nat)
    requires first <= last <= a.Length && HasChild(last - first, hole)
    ensures child == LargerChild(cmp, a[first..last], hole)
  {
    var len := last - first;
    child := 2 * hole + 1;
    if child + 1 < len && cmp(a[first + child], a[first + child + 1]) < 0 {
      child := child + 1;
    }
  }

  method SiftDownRange<T>(a: array<T>, first: nat, last: nat, cmp: (T, T) -> int, start: nat)
    requires first <= start <= last <= a.Length
    modifies a
    ensures RangeBecomes(a, first, last, SiftDown(cmp, old(a[first..last]), start - first))
  {
    var len := last - first;
    var hole := start - first;
    if len < 2 || (len - 2) / 2 < hole {
      return;
    }
    var child := PickChild(a, first, last, cmp, hole);
    assert a[first + child] == a[first..last][child] && a[start] == a[first..last][hole];
    if cmp(a[first + child], a[start]) < 0 {
      return;
    }
    SinkHole(a, first, last, cmp, hole, child, a[start]);
  }

  method SinkHole<T>(a: array<T>, first: nat, last: nat, cmp: (T, T) -> int, start: nat, below: nat, top: T)
    requires first <= last <= a.Length && HasChild(last - first, start)
    requires below == LargerChild(cmp, a[first..last], start)
    requires a[first + start] == top && cmp(a[first + below], top) >= 0
    modifies a
    ensures RangeBecomes(a, first, last, SiftDown(cmp, old(a[first..last]), start))
  {
    var len := last - first;
    var hole, child := start, below;
    ghost var target := SiftDown(cmp, a[first..last], hole);
    assert a[first..last][hole := top] == a[first..last];
    assert a[first + child] == a[first..last][child];
    hide SiftDown, LargerChild;
    while true
      invariant HasChild(len, hole) && child == LargerChild(cmp, a[first..last], hole)
      invariant a[..first] == old(a[..first]) && a[last..] == old(a[last..])
      invariant cmp(a[first..last][child], top) >= 0
      invariant SiftDown(cmp, a[first..last][hole := top], hole) == target
      decreases len - hole
    {
      HoleSinks(cmp, a[first..last], hole, child, top);
      Copy(a, first, last, hole, child);
      hole := child;
      if (len - 2) / 2 < child {
        break;
      }
      child := PickChild(a, first, last, cmp, hole);
      var x := Fetch(a, first, last, child);
      if cmp(x, top) < 0 {
        break;
      }
    }
    HoleSettlesBelow(cmp, a[first..last], hole, top);
    Put(a, first, last, hole, top);
  }

  // ---------------------------------------------------------- operations

  lemma NothingToSift<T>(cmp: (T, T) -> int, s: seq<T>)
    ensures SiftAllBelow(cmp, s, 0) == s
  {
  }

  lemma SiftAllStep<T>(cmp: (T, T) -> int, s: seq<T>, k: nat)
    requires k < |s|
    ensures SiftAllBelow(cmp, s, k + 1) == SiftAllBelow(cmp, SiftDown(cmp, s, k), k)
  {
  }

  lemma ShortIsHeap<T>(cmp: (T, T) -> int, s: seq<T>)
    requires |s| <= 1
    ensures MakeHeap(cmp, s) == s
  {
  }

  /** Arranges the range as a heap. */
  method MakeHeapRange<T>(a: array<T>, first: nat, last: nat, cmp: (T, T) -> int)
    requires first <= last <= a.Length
    modifies a
    ensures RangeBecomes(a, first, last, MakeHeap(cmp, old(a[first..last])))
  {
    hide SiftDown, SiftAllBelow;
    if last - first <= 1 {
      ShortIsHeap(cmp, a[first..last]);
      return;
    }
    ghost var target := MakeHeap(cmp, a[first..last]);
    var start: int := (last - first - 2) / 2;
    assert start + 1 == (last - first) / 2;
    hide MakeHeap;
    while start >= 0
      invariant -1 <= start < last - first
      invariant a[..first] == old(a[..first]) && a[last..] == old(a[last..])
      invariant SiftAllBelow(cmp, a[first..last], start + 1) == target
    {
      SiftAllStep(cmp, a[first..last], start);
      SiftDownRange(a, first, last, cmp, first + start);
      start := start - 1;
    }
    NothingToSift(cmp, a[first..last]);
  }

  /** Extends the heap [first, last - 1) by the element at last - 1. */
  method HeapPush<T>(a: array<T>, first: nat, last: nat, cmp: (T, T) -> int)
    requires first <= last <= a.Length
    modifies a
    ensures RangeBecomes(a, first, last,
                         if last == first then [] else SiftUp(cmp, old(a[first..last]), last - first - 1))
  {
    SiftUpRange(a, first, last, cmp);
  }

  lemma ShortPop<T>(cmp: (T, T) -> int, s: seq<T>)
    requires |s| <= 1
    ensures Pop(cmp, s) == s
  {
  }

  lemma PopIs<T>(cmp: (T, T) -> int, s: seq<T>)
    requires |s| > 1
    ensures var n := |s| - 1; Pop(cmp, s) == SiftDown(cmp, Swap(s, 0, n)[..n], 0) + [s[0]]
  {
    hide SiftDown, Swap;
  }

  /** Moves the first element to last - 1 and repairs the heap before it. */
  method HeapPop<T>(a: array<T>, first: nat, last: nat, cmp: (T, T) -> int)
    requires first <= last <= a.Length
    modifies a
    ensures RangeBecomes(a, first, last, Pop(cmp, old(a[first..last])))
  {
    hide SiftDown, Pop;
    if last - first <= 1 {
      ShortPop(cmp, a[first..last]);
      return;
    }
    ghost var s, n := a[first..last], last - first - 1;
    PopIs(cmp, s);
    a[first], a[last - 1] := a[last - 1], a[first];
    assert a[first..last] == Swap(s, 0, n);
    assert a[first..last - 1] == Swap(s, 0, n)[..n];
    assert a[last - 1..] == [s[0]] + old(a[last..]) && a[..first] == old(a[..first]);
    hide Swap;
    SiftDownRange(a, first, last - 1, cmp, first);
    assert a[last - 1] == a[last - 1..][0] == s[0] && a[last..] == a[last - 1..][1..];
    assert a[first..last] == a[first..last - 1] + [a[last - 1]];
  }

  /** Popping the heap `s[first..end]` until it is empty, before the elements
      popped already, gives `target`. */
  ghost predicate PopsTo<T>(cmp: (T, T) -> int, s: seq<T>, first: nat, end: nat, last: nat, target: seq<T>)
    requires first <= end <= last <= |s|
  {
    PopAll(cmp, s[first..end], s[end..last]) == target
  }

  /** What one pop over the range [first, end) does to the whole array. */
  ghost predicate PoppedOnce<T>(cmp: (T, T) -> int, s: seq<T>, s': seq<T>, first: nat, end: nat)
    requires first <= end <= |s| == |s'|
  {
    s'[first..end] == Pop(cmp, s[first..end]) && s'[..first] == s[..first] && s'[end..] == s[end..]
  }

  lemma PopMoves<T>(cmp: (T, T) -> int, s: seq<T>, s': seq<T>, first: nat, end: nat, last: nat)
    requires first < end <= last <= |s| == |s'| && PoppedOnce(cmp, s, s', first, end)
    ensures var r, n := Pop(cmp, s[first..end]), end - first - 1;
            s'[first..end - 1] == r[..n] && s'[end - 1..last] == [r[n]] + s[end..last]
    ensures s'[..first] == s[..first] && s'[last..] == s[last..]
  {
    hide Pop;
    var r, n := Pop(cmp, s[first..end]), end - first - 1;
    assert s'[end - 1] == r[n];
    forall k | end <= k < |s|
      ensures s'[k] == s[k]
    {
      assert s'[k] == s'[end..][k - end] == s[end..][k - end];
    }
  }

  lemma PopAllOne<T>(cmp: (T, T) -> int, heap: seq<T>, tail: seq<T>)
    requires heap != []
    ensures var r, n := Pop(cmp, heap), |heap| - 1;
            PopAll(cmp, heap, tail) == PopAll(cmp, r[..n], [r[n]] + tail)
  {
    hide Pop;
  }

  lemma PopsOn<T>(cmp: (T, T) -> int, s: seq<T>, s': seq<T>, first: nat, end: nat, last: nat, target: seq<T>)
    requires first < end <= last <= |s| == |s'|
    requires PoppedOnce(cmp, s, s', first, end) && PopsTo(cmp, s, first, end, last, target)
    ensures PopsTo(cmp, s', first, end - 1, last, target)
    ensures s'[..first] == s[..first] && s'[last..] == s[last..]
  {
    hide Pop, PopAll, PoppedOnce;
    PopMoves(cmp, s, s', first, end, last);
    PopAllOne(cmp, s[first..end], s[end..last]);
  }

  lemma PopsBegin<T>(cmp: (T, T) -> int, s: seq<T>, first: nat, last: nat)
    requires first <= last <= |s|
    ensures PopsTo(cmp, s, first, last, last, PopAll(cmp, s[first..last], []))
  {
    assert s[last..last] == [];
  }

  lemma PopsEnd<T>(cmp: (T, T) -> int, s: seq<T>, first: nat, last: nat, target: seq<T>)
    requires first <= last <= |s| && PopsTo(cmp, s, first, first, last, target)
    ensures s[first..last] == target
  {
    assert s[first..first] == [];
  }

  /** Makes the range a heap and pops it with a shrinking end until nothing is
      left, which sorts the range (`HeapSortSorts`). */
  method HeapSortRange<T>(a: array<T>, first: nat, last: nat, cmp: (T, T) -> int)
    requires first <= last <= a.Length
    modifies a
    ensures RangeBecomes(a, first, last, PopAll(cmp, MakeHeap(cmp, old(a[first..last])), []))
  {
    hide PopAll, Pop, MakeHeap, PopsTo, PoppedOnce;
    MakeHeapRange(a, first, last, cmp);
    assert a[..][first..last] == a[first..last];
    ghost var target := PopAll(cmp, a[first..last], []);
    PopsBegin(cmp, a[..], first, last);
    ghost var start := a[..];
    PopWhole(a, first, last, cmp, target);
    assert a[first..last] == a[..][first..last];
    assert a[..first] == a[..][..first] == start[..first] && a[last..] == a[..][last..] == start[last..];
  }

  /** The loop over the shrinking heap. */
  method PopWhole<T>(a: array<T>, first: nat, last: nat, cmp: (T, T) -> int, ghost target: seq<T>)
    requires first <= last <= a.Length && PopsTo(cmp, a[..], first, last, last, target)
    modifies a
    ensures a[..][first..last] == target
    ensures a[..][..first] == old(a[..])[..first] && a[..][last..] == old(a[..])[last..]
  {
    hide PopsTo, PoppedOnce;
    var end := last;
    while first < end
      invariant first <= end <= last
      invariant a[..][..first] == old(a[..])[..first] && a[..][last..] == old(a[..])[last..]
      invariant PopsTo(cmp, a[..], first, end, last, target)
    {
      ghost var before := a[..];
      PopOnce(a, first, end, cmp);
      PopsOn(cmp, before, a[..], first, end, last, target);
      end := end - 1;
    }
    PopsEnd(cmp, a[..], first, last, target);
  }

  method PopOnce<T>(a: array<T>, first: nat, end: nat, cmp: (T, T) -> int)
    requires first < end <= a.Length
    modifies a
    ensures PoppedOnce(cmp, old(a[..]), a[..], first, end)
  {
    hide Pop;
    ghost var before := a[..];
    assert before[first..end] == a[first..end] && before[..first] == a[..first] && before[end..] == a[end..];
    HeapPop(a, first, end, cmp);
    assert a[..][first..end] == a[first..end] && a[..][..first] == a[..first] && a[..][end..] == a[end..];
  }
}
