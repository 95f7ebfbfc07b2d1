/** Binary heaps over a range, on sequences: what the sifting loops compute when
    read as swaps, and why that keeps a heap a heap. The largest element comes
    first; `cmp` is the caller's three-way comparison. */
module Heaps {

  /** The comparison orders the elements totally, up to ties. */
  ghost predicate TotalPreorder<T(!new)>(cmp: (T, T) -> int) {
    && (forall a, b :: cmp(a, b) < 0 <==> cmp(b, a) > 0)
    && (forall a, b, c :: cmp(a, b) <= 0 && cmp(b, c) <= 0 ==> cmp(a, c) <= 0)
  }

  function Parent(i: nat): nat
    requires i > 0
  {
    (i - 1) / 2
  }

  /** Every parent from index `lo` on is at least as large as its children. */
  ghost predicate HeapFrom<T>(cmp: (T, T) -> int, s: seq<T>, lo: nat) {
    forall i | 0 < i < |s| && Parent(i) >= lo :: cmp(s[Parent(i)], s[i]) >= 0
  }

  ghost predicate IsHeap<T>(cmp: (T, T) -> int, s: seq<T>) {
    HeapFrom(cmp, s, 0)
  }

  function Swap<T>(s: seq<T>, i: nat, j: nat): (r: seq<T>)
    requires i < |s| && j < |s|
    ensures |r| == |s|
  {
    s[i := s[j]][j := s[i]]
  }

  lemma SwapPermutes<T>(s: seq<T>, i: nat, j: nat)
    requires i < |s| && j < |s|
    ensures multiset(Swap(s, i, j)) == multiset(s)
  {
  }

  predicate HasChild(n: nat, h: nat) {
    n >= 2 && h <= (n - 2) / 2
  }

  /** The larger child of `h`; the left one of two equals. */
  function LargerChild<T>(cmp: (T, T) -> int, s: seq<T>, h: nat): (c: nat)
    requires HasChild(|s|, h)
    ensures h < c < |s| && Parent(c) == h
  {
    var left := 2 * h + 1;
    if left + 1 < |s| && cmp(s[left], s[left + 1]) < 0 then left + 1 else left
  }

  function SiftDown<T>(cmp: (T, T) -> int, s: seq<T>, h: nat): (r: seq<T>)
    requires h <= |s|
    ensures |r| == |s|
    decreases |s| - h
  {
    if !HasChild(|s|, h) then s
    else
      var c := LargerChild(cmp, s, h);
      if cmp(s[c], s[h]) < 0 then s else SiftDown(cmp, Swap(s, h, c), c)
  }

  function SiftUp<T>(cmp: (T, T) -> int, s: seq<T>, i: nat): (r: seq<T>)
    requires i < |s|
    ensures |r| == |s|
    decreases i
  {
    if i == 0 || cmp(s[Parent(i)], s[i]) >= 0 then s else SiftUp(cmp, Swap(s, Parent(i), i), Parent(i))
  }

  /** Sifts down the parents below index `k`, the last one first. */
  function SiftAllBelow<T>(cmp: (T, T) -> int, s: seq<T>, k: nat): (r: seq<T>)
    requires k <= |s|
    ensures |r| == |s|
    decreases k
  {
    if k == 0 then s else SiftAllBelow(cmp, SiftDown(cmp, s, k - 1), k - 1)
  }

  function MakeHeap<T>(cmp: (T, T) -> int, s: seq<T>): (r: seq<T>)
    ensures |r| == |s|
  {
    SiftAllBelow(cmp, s, |s| / 2)
  }

  /** Moves the first element to the end and repairs the heap before it. */
  function Pop<T>(cmp: (T, T) -> int, s: seq<T>): (r: seq<T>)
    ensures |r| == |s|
  {
    if |s| <= 1 then s
    else
      var n := |s| - 1;
      SiftDown(cmp, Swap(s, 0, n)[..n], 0) + [s[0]]
  }

  // --------------------------------------------------------- permutation

  lemma {:induction false} SiftDownPermutes<T>(cmp: (T, T) -> int, s: seq<T>, h: nat)
    requires h <= |s|
    ensures multiset(SiftDown(cmp, s, h)) == multiset(s)
    decreases |s| - h
  {
    if HasChild(|s|, h) {
      var c := LargerChild(cmp, s, h);
      SwapPermutes(s, h, c);
      SiftDownPermutes(cmp, Swap(s, h, c), c);
    }
  }

  lemma {:induction false} SiftUpPermutes<T>(cmp: (T, T) -> int, s: seq<T>, i: nat)
    requires i < |s|
    ensures multiset(SiftUp(cmp, s, i)) == multiset(s)
    decreases i
  {
    if i > 0 {
      SwapPermutes(s, Parent(i), i);
      SiftUpPermutes(cmp, Swap(s, Parent(i), i), Parent(i));
    }
  }

  // ---------------------------------------------------------- heap order

  /** In heap order from `lo` on, but for the hole `h` and its children; the
      parent of the hole is large enough for them. */
  ghost predicate HeapButBelow<T>(cmp: (T, T) -> int, s: seq<T>, lo: nat, h: nat) {
    && (forall i | 0 < i < |s| && Parent(i) >= lo && Parent(i) != h :: cmp(s[Parent(i)], s[i]) >= 0)
    && (forall i | 0 < i < |s| && Parent(i) == h && h > 0 && Parent(h) >= lo && h < |s| :: cmp(s[Parent(h)], s[i]) >= 0)
  }

  lemma LargerChildIsLarger<T(!new)>(cmp: (T, T) -> int, s: seq<T>, h: nat, i: nat)
    requires TotalPreorder(cmp) && HasChild(|s|, h) && 0 < i < |s| && Parent(i) == h
    ensures cmp(s[LargerChild(cmp, s, h)], s[i]) >= 0
  {
    assert i == 2 * h + 1 || i == 2 * h + 2;
  }

  lemma SinkOneLevel<T(!new)>(cmp: (T, T) -> int, s: seq<T>, lo: nat, h: nat)
    requires TotalPreorder(cmp) && lo <= h && HasChild(|s|, h) && HeapButBelow(cmp, s, lo, h)
    requires cmp(s[LargerChild(cmp, s, h)], s[h]) >= 0
    ensures HeapButBelow(cmp, Swap(s, h, LargerChild(cmp, s, h)), lo, LargerChild(cmp, s, h))
  {
    var c := LargerChild(cmp, s, h);
    var s' := Swap(s, h, c);
    forall i | 0 < i < |s'| && Parent(i) >= lo && Parent(i) != c
      ensures cmp(s'[Parent(i)], s'[i]) >= 0
    {
      if Parent(i) == h {
        LargerChildIsLarger(cmp, s, h, i);
      }
    }
  }

  lemma {:induction false} SiftDownRestores<T(!new)>(cmp: (T, T) -> int, s: seq<T>, lo: nat, h: nat)
    requires TotalPreorder(cmp) && lo <= h <= |s| && HeapButBelow(cmp, s, lo, h)
    ensures HeapFrom(cmp, SiftDown(cmp, s, h), lo)
    decreases |s| - h
  {
    if HasChild(|s|, h) {
      var c := LargerChild(cmp, s, h);
      if cmp(s[c], s[h]) < 0 {
        forall i | 0 < i < |s| && Parent(i) == h
          ensures cmp(s[h], s[i]) >= 0
        {
          LargerChildIsLarger(cmp, s, h, i);
          assert cmp(s[i], s[c]) <= 0 && cmp(s[c], s[h]) <= 0;
        }
      } else {
        SinkOneLevel(cmp, s, lo, h);
        SiftDownRestores(cmp, Swap(s, h, c), lo, c);
      }
    }
  }

  /** In heap order, but for `i` and its parent; the parent is large enough for
      the children of `i`. */
  ghost predicate HeapButAbove<T>(cmp: (T, T) -> int, s: seq<T>, i: nat) {
    && (forall k | 0 < k < |s| && k != i :: cmp(s[Parent(k)], s[k]) >= 0)
    && (forall k | 0 < k < |s| && 0 < i < |s| && Parent(k) == i :: cmp(s[Parent(i)], s[k]) >= 0)
  }

  lemma RaisedOrder<T(!new)>(cmp: (T, T) -> int, s: seq<T>, i: nat, k: nat)
    requires TotalPreorder(cmp) && 0 < i < |s| && HeapButAbove(cmp, s, i) && cmp(s[Parent(i)], s[i]) < 0
    requires 0 < k < |s| && k != Parent(i)
    ensures var s' := Swap(s, Parent(i), i); cmp(s'[Parent(k)], s'[k]) >= 0
  {
    var p := Parent(i);
    if k != i && Parent(k) == p {
      assert cmp(s[k], s[p]) <= 0 && cmp(s[p], s[i]) <= 0;
    }
  }

  lemma RaisedAbove<T(!new)>(cmp: (T, T) -> int, s: seq<T>, i: nat, k: nat)
    requires TotalPreorder(cmp) && 0 < i < |s| && HeapButAbove(cmp, s, i)
    requires 0 < Parent(i) && 0 < k < |s| && Parent(k) == Parent(i)
    ensures var s' := Swap(s, Parent(i), i); cmp(s'[Parent(Parent(i))], s'[k]) >= 0
  {
    var p := Parent(i);
    assert cmp(s[p], s[Parent(p)]) <= 0;
    if k != i {
      assert cmp(s[k], s[p]) <= 0;
    }
  }

  lemma RaiseOneLevel<T(!new)>(cmp: (T, T) -> int, s: seq<T>, i: nat)
    requires TotalPreorder(cmp) && 0 < i < |s| && HeapButAbove(cmp, s, i) && cmp(s[Parent(i)], s[i]) < 0
    ensures HeapButAbove(cmp, Swap(s, Parent(i), i), Parent(i))
  {
    var p := Parent(i);
    var s' := Swap(s, p, i);
    forall k | 0 < k < |s'| && k != p {
      RaisedOrder(cmp, s, i, k);
    }
    forall k | 0 < k < |s'| && 0 < p < |s'| && Parent(k) == p {
      RaisedAbove(cmp, s, i, k);
    }
  }

  lemma {:induction false} SiftUpRestores<T(!new)>(cmp: (T, T) -> int, s: seq<T>, i: nat)
    requires TotalPreorder(cmp) && i < |s| && HeapButAbove(cmp, s, i)
    ensures IsHeap(cmp, SiftUp(cmp, s, i))
    decreases i
  {
    if i > 0 && cmp(s[Parent(i)], s[i]) < 0 {
      hide TotalPreorder;
      RaiseOneLevel(cmp, s, i);
      SiftUpRestores(cmp, Swap(s, Parent(i), i), Parent(i));
    }
  }

  lemma LastMayRise<T>(cmp: (T, T) -> int, s: seq<T>, x: T)
    requires IsHeap(cmp, s)
    ensures HeapButAbove(cmp, s + [x], |s|)
  {
    var s' := s + [x];
    forall k | 0 < k < |s'| && k != |s|
      ensures cmp(s'[Parent(k)], s'[k]) >= 0
    {
      assert s'[k] == s[k] && s'[Parent(k)] == s[Parent(k)];
    }
  }

  /** Adding an element after a heap and sifting it up gives a heap of all. */
  lemma PushSpec<T(!new)>(cmp: (T, T) -> int, s: seq<T>, x: T)
    requires TotalPreorder(cmp) && IsHeap(cmp, s)
    ensures var r := SiftUp(cmp, s + [x], |s|);
            IsHeap(cmp, r) && multiset(r) == multiset(s) + multiset{x}
  {
    hide TotalPreorder, SiftUp;
    LastMayRise(cmp, s, x);
    SiftUpRestores(cmp, s + [x], |s|);
    SiftUpPermutes(cmp, s + [x], |s|);
  }

  lemma {:induction false} SiftAllRestores<T(!new)>(cmp: (T, T) -> int, s: seq<T>, k: nat)
    requires TotalPreorder(cmp) && k <= |s| && HeapFrom(cmp, s, k)
    ensures IsHeap(cmp, SiftAllBelow(cmp, s, k)) && multiset(SiftAllBelow(cmp, s, k)) == multiset(s)
    decreases k
  {
    if k > 0 {
      assert HeapButBelow(cmp, s, k - 1, k - 1);
      hide TotalPreorder, HeapFrom, HeapButBelow, SiftDown;
      SiftDownRestores(cmp, s, k - 1, k - 1);
      SiftDownPermutes(cmp, s, k - 1);
      SiftAllRestores(cmp, SiftDown(cmp, s, k - 1), k - 1);
    }
  }

  /** Any sequence becomes a heap of the same elements. */
  lemma MakeHeapSpec<T(!new)>(cmp: (T, T) -> int, s: seq<T>)
    requires TotalPreorder(cmp)
    ensures IsHeap(cmp, MakeHeap(cmp, s)) && multiset(MakeHeap(cmp, s)) == multiset(s)
  {
    SiftAllRestores(cmp, s, |s| / 2);
  }

  /** The first element of a heap is a maximum. */
  lemma {:induction false} RootIsMaximum<T(!new)>(cmp: (T, T) -> int, s: seq<T>, i: nat)
    requires TotalPreorder(cmp) && IsHeap(cmp, s) && i < |s|
    ensures cmp(s[0], s[i]) >= 0
  {
    if i > 0 {
      RootIsMaximum(cmp, s, Parent(i));
      assert cmp(s[i], s[Parent(i)]) <= 0 && cmp(s[Parent(i)], s[0]) <= 0;
    }
  }

  lemma PoppedHeap<T(!new)>(cmp: (T, T) -> int, s: seq<T>)
    requires TotalPreorder(cmp) && IsHeap(cmp, s) && |s| >= 2
    ensures HeapButBelow(cmp, Swap(s, 0, |s| - 1)[..|s| - 1], 0, 0)
  {
  }

  lemma PopPermutes<T>(cmp: (T, T) -> int, s: seq<T>)
    requires s != []
    ensures multiset(Pop(cmp, s)) == multiset(s)
    ensures multiset(Pop(cmp, s)[..|s| - 1]) == multiset(s) - multiset{s[0]}
  {
    var r, n := Pop(cmp, s), |s| - 1;
    if n > 0 {
      var t := Swap(s, 0, n);
      SwapPermutes(s, 0, n);
      assert t == t[..n] + [s[0]];
      SiftDownPermutes(cmp, t[..n], 0);
      assert r[..n] == SiftDown(cmp, t[..n], 0);
    } else {
      assert s == [s[0]];
    }
  }

  /** Popping puts a maximum last and leaves a heap of the others before it. */
  lemma PopSpec<T(!new)>(cmp: (T, T) -> int, s: seq<T>)
    requires TotalPreorder(cmp) && IsHeap(cmp, s) && s != []
    ensures var r := Pop(cmp, s);
            var n := |s| - 1;
            && IsHeap(cmp, r[..n]) && r[n] == s[0] && forall i | 0 <= i < |s| :: cmp(r[n], s[i]) >= 0
  {
    hide TotalPreorder;
    var r, n := Pop(cmp, s), |s| - 1;
    forall i | 0 <= i < |s| {
      RootIsMaximum(cmp, s, i);
    }
    if n > 0 {
      var t := Swap(s, 0, n);
      PoppedHeap(cmp, s);
      SiftDownRestores(cmp, t[..n], 0, 0);
      assert r[..n] == SiftDown(cmp, t[..n], 0);
    }
  }

  // ------------------------------------------------------------- draining

  ghost predicate NonDecreasing<T>(cmp: (T, T) -> int, s: seq<T>) {
    forall i, j | 0 <= i < j < |s| :: cmp(s[i], s[j]) <= 0
  }

  /** Pops `heap` until it is empty, each popped element landing before `tail`:
      what repeated popping over a shrinking range leaves in the array. */
  function PopAll<T>(cmp: (T, T) -> int, heap: seq<T>, tail: seq<T>): (r: seq<T>)
    ensures |r| == |heap| + |tail|
    decreases |heap|
  {
    if heap == [] then tail
    else
      var r, n := Pop(cmp, heap), |heap| - 1;
      PopAll(cmp, r[..n], [r[n]] + tail)
  }

  /** No element of the heap exceeds one of the sorted tail. */
  ghost predicate AllBelow<T(!new)>(cmp: (T, T) -> int, heap: multiset<T>, tail: seq<T>) {
    forall x, j | x in heap && 0 <= j < |tail| :: cmp(x, tail[j]) <= 0
  }

  lemma MaximumExtendsTail<T(!new)>(cmp: (T, T) -> int, heap: seq<T>, tail: seq<T>)
    requires TotalPreorder(cmp) && IsHeap(cmp, heap) && heap != []
    requires NonDecreasing(cmp, tail) && AllBelow(cmp, multiset(heap), tail)
    ensures NonDecreasing(cmp, [heap[0]] + tail)
    ensures AllBelow(cmp, multiset(heap) - multiset{heap[0]}, [heap[0]] + tail)
  {
    assert heap[0] in multiset(heap);
    forall x | x in multiset(heap)
      ensures cmp(x, heap[0]) <= 0
    {
      var i :| 0 <= i < |heap| && heap[i] == x;
      RootIsMaximum(cmp, heap, i);
    }
  }

  /** What one pop hands to the tail. */
  lemma PopExtendsTail<T(!new)>(cmp: (T, T) -> int, heap: seq<T>, tail: seq<T>)
    requires TotalPreorder(cmp) && IsHeap(cmp, heap) && heap != []
    requires NonDecreasing(cmp, tail) && AllBelow(cmp, multiset(heap), tail)
    ensures var r, n := Pop(cmp, heap), |heap| - 1;
            && IsHeap(cmp, r[..n]) && NonDecreasing(cmp, [r[n]] + tail)
            && AllBelow(cmp, multiset(r[..n]), [r[n]] + tail)
            && multiset(r[..n]) + multiset([r[n]] + tail) == multiset(heap) + multiset(tail)
  {
    hide TotalPreorder, Pop, IsHeap, NonDecreasing, AllBelow;
    PopSpec(cmp, heap);
    PopPermutes(cmp, heap);
    MaximumExtendsTail(cmp, heap, tail);
    assert multiset([heap[0]] + tail) == multiset{heap[0]} + multiset(tail);
  }

  lemma {:induction false} PopAllSorts<T(!new)>(cmp: (T, T) -> int, heap: seq<T>, tail: seq<T>)
    requires TotalPreorder(cmp) && IsHeap(cmp, heap) && NonDecreasing(cmp, tail) && AllBelow(cmp, multiset(heap), tail)
    ensures NonDecreasing(cmp, PopAll(cmp, heap, tail))
    ensures multiset(PopAll(cmp, heap, tail)) == multiset(heap) + multiset(tail)
    decreases |heap|
  {
    hide TotalPreorder, Pop, IsHeap, NonDecreasing, AllBelow;
    if heap != [] {
      var r, n := Pop(cmp, heap), |heap| - 1;
      PopExtendsTail(cmp, heap, tail);
      PopAllSorts(cmp, r[..n], [r[n]] + tail);
    }
  }

  /** Building a heap and popping it until it is empty sorts any sequence. */
  lemma HeapSortSorts<T(!new)>(cmp: (T, T) -> int, s: seq<T>)
    requires TotalPreorder(cmp)
    ensures var r := PopAll(cmp, MakeHeap(cmp, s), []);
            NonDecreasing(cmp, r) && multiset(r) == multiset(s)
  {
    MakeHeapSpec(cmp, s);
    PopAllSorts(cmp, MakeHeap(cmp, s), []);
  }
}
