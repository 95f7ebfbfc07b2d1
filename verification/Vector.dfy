/** The growable vector: a backing array of `cap` cells of which the first `top`
    are in use, and the cost of growing it by doubling. */
module Vectors {
  import opened Common

  function Zeros<T>(zero: T, n: nat): (s: seq<T>)
    ensures |s| == n
  {
    seq(n, _ => zero)
  }

  class Vector<T> {
    var data: array<T>
    var cap: nat
    var top: nat
    const zero: T            // what a cleared element looks like
    ghost var copied: nat    // elements moved by resizes so far

    /** The capacity is that of the array. */
    ghost predicate Backed()
      reads this
    {
      data.Length == cap
    }

    ghost predicate Valid()
      reads this
    {
      Backed() && top <= cap
    }

    ghost function Contents(): seq<T>
      requires Valid()
      reads this, data
    {
      data[..top]
    }

    constructor (zero: T, cap: nat)
      ensures Valid() && fresh(data) && this.cap == cap && this.zero == zero
      ensures Contents() == [] && data[..] == Zeros(zero, cap) && copied == 0
    {
      data := new T[cap](_ => zero);
      this.cap, top, this.zero, copied := cap, 0, zero, 0;
    }

    /** Moves the vector to an array of `newcap` cells, clearing new ones. The
        vector stays usable exactly when its elements still fit. */
    method Resize(newcap: nat) returns (r: nat)
      requires Backed()
      modifies this
      ensures Backed() && fresh(data) && r == cap == newcap && top == old(top)
      ensures data[..] == if newcap <= old(cap) then old(data[..])[..newcap]
                          else old(data[..]) + Zeros(zero, newcap - old(cap))
      ensures Valid() <==> newcap >= top
      ensures copied == old(copied) + if newcap < old(cap) then newcap else old(cap)
    {
      var oldcap := cap;
      cap := newcap;
      var moved := new T[newcap](_ => zero);
      var n := if newcap < oldcap then newcap else oldcap;
      var i := 0;
      while i < n
        invariant i <= n && data == old(data) && data[..] == old(data[..])
        invariant cap == newcap && top == old(top) && copied == old(copied)
        invariant moved[..i] == data[..i]
        invariant forall k | i <= k < newcap :: moved[k] == zero
      {
        moved[i] := data[i];
        i := i + 1;
      }
      data := moved;
      copied := copied + n;
      return cap;
    }

    /** The cells once there is one at `pos`. */
    ghost function CellsWith(pos: nat): seq<T>
      requires Valid()
      reads this, data
    {
      if pos < cap then data[..] else data[..] + Zeros(zero, pos + 1 - cap)
    }

    /** Stores `elem` (or a cleared element) at `pos`, growing as needed. */
    method PutPtr(pos: nat, elem: Option<T>)
      requires Valid()
      modifies this, data
      ensures Valid() && (data == old(data) || fresh(data))
      ensures data[..] == old(CellsWith(pos))[pos := if elem.Some? then elem.value else zero]
      ensures top == if pos >= old(top) then pos + 1 else old(top)
      ensures copied == old(copied) + if pos >= old(cap) then old(cap) else 0
    {
      if pos >= cap {
        var r := Resize(pos + 1);
      }
      data[pos] := if elem.Some? then elem.value else zero;
      if pos >= top {
        top := pos + 1;
      }
    }

    /** Appends an element, doubling a full array first. */
    method PushPtr(elem: Option<T>) returns (r: nat)
      requires Valid()
      modifies this, data
      ensures Valid() && (data == old(data) || fresh(data))
      ensures Contents() == old(Contents()) + [if elem.Some? then elem.value else zero]
      ensures r == top == old(top) + 1
      ensures cap == GrownCap(old(top), old(cap)) && copied == old(copied) + GrowthCost(old(top), old(cap))
    {
      if top == cap {
        var r' := Resize(if cap != 0 then cap * 2 else 1);
      }
      PutPtr(top, elem);
      r := top;
    }

    method Get(pos: nat) returns (r: Option<T>)
      requires Valid()
      ensures r == if pos < |Contents()| then Some(Contents()[pos]) else None
    {
      if pos >= top {
        return None;
      }
      return Some(data[pos]);
    }

    /** Drops the last element and returns it; None when there is none. */
    method Pop() returns (r: Option<T>)
      requires Valid()
      modifies this`top
      ensures Valid()
      ensures old(Contents()) == [] ==> r == None && Contents() == []
      ensures old(Contents()) != [] ==> r.Some? && old(Contents()) == Contents() + [r.value]
    {
      if top > 0 {
        r := Get(top - 1);
        top := top - 1;
      } else {
        r := None;
      }
    }
  }

  // ------------------------------------------------------ cost of growing

  function GrownCap(top: nat, cap: nat): nat {
    if top == cap then if cap != 0 then cap * 2 else 1 else cap
  }

  function GrowthCost(top: nat, cap: nat): nat {
    if top == cap then cap else 0
  }

  /** The capacity, and the elements copied so far, after `n` pushes into an
      empty vector of capacity `cap`. */
  function AfterPushes(n: nat, cap: nat): (r: (nat, nat)) {
    if n == 0 then (cap, 0)
    else
      var (c, copied) := AfterPushes(n - 1, cap);
      (GrownCap(n - 1, c), copied + GrowthCost(n - 1, c))
  }

  /** Doubling is worth it: `n` pushes copy fewer than `2 * n` elements in all,
      whatever the capacity they start from. */
  lemma {:induction false} PushesCopyLittle(n: nat, cap: nat)
    ensures var (c, copied) := AfterPushes(n, cap);
            && n <= c && (c == cap || c < 2 * n)
            && (if n == 0 && cap == 0 then copied == 0 else copied == c - (if cap == 0 then 1 else cap))
            && (n >= 1 ==> copied < 2 * n)
  {
    if n > 0 {
      PushesCopyLittle(n - 1, cap);
    }
  }
}
