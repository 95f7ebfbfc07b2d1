/** Dynamic strings: a header and a buffer whose content is followed by a zero
    byte. Every operation keeps the representation sound across the five header
    layouts and does to the content what it says. */
module SdsStrings {
  import opened Common
  import opened SdsHeaders

  function ZeroBytes(n: nat): (b: Bytes)
    ensures |b| == n && forall i | 0 <= i < n :: b[i] == 0
  {
    seq(n, _ => 0)
  }

  /** The content up to its first zero byte. */
  function UpToZero(s: Bytes): (r: Bytes)
    ensures r <= s && 0 !in r && (|r| < |s| ==> s[|r|] == 0)
  {
    if s == [] || s[0] == 0 then [] else [s[0]] + UpToZero(s[1..])
  }

  lemma {:induction false} UpToZeroAt(s: Bytes, k: nat)
    requires k <= |s| && (k < |s| ==> s[k] == 0) && forall i | 0 <= i < k :: s[i] != 0
    ensures UpToZero(s) == s[..k]
  {
    if k > 0 {
      UpToZeroAt(s[1..], k - 1);
      assert s[..k] == [s[0]] + s[1..][..k - 1];
    }
  }

  /** The capacity a string is given when it has to grow to `n` bytes: twice as
      much below a megabyte, and a megabyte more from there on. */
  function Roomy(n: nat): (r: nat)
    ensures n < 1048576 ==> r == 2 * n
    ensures n >= 1048576 ==> r == n + 1048576
  {
    if n < SDS_MAX_PREALLOC then n * 2 else n + SDS_MAX_PREALLOC
  }

  /** The header of a string of length and capacity `n`. */
  function NewHeader(kind: nat, n: nat): Header
    requires kind <= SDS_TYPE_64
  {
    if kind == SDS_TYPE_5 then Header(n * 8 % 256, 0, 0)
    else Header(kind, n % (MaxLen(kind) + 1), n % (MaxLen(kind) + 1))
  }

  lemma NewHeaderSpec(kind: nat, n: nat)
    requires kind <= SDS_TYPE_64 && n <= MaxLen(kind)
    ensures var h := NewHeader(kind, n); WellFormed(h) && TypeOf(h) == kind && Len(h) == n && Alloc(h) == n
  {
    if kind == SDS_TYPE_5 {
      ShiftCut(n);
    } else {
      ModIdentity(n, MaxLen(kind) + 1);
    }
  }

  /** The header after a reallocation: a new one when the layout changes, then
      the new capacity. */
  function Retyped(h: Header, kind: nat, n: nat): Header
    requires kind <= SDS_TYPE_64
  {
    SetAlloc(if TypeOf(h) != kind then SetLen(Header(kind, 0, 0), Len(h)) else h, n)
  }

  lemma RetypedSpec(h: Header, kind: nat, n: nat)
    requires WellFormed(h) && kind <= SDS_TYPE_64 && Len(h) <= n <= MaxLen(kind)
    requires kind == SDS_TYPE_5 ==> n == Len(h)
    ensures var h' := Retyped(h, kind, n); WellFormed(h') && TypeOf(h') == kind && Len(h') == Len(h) && Alloc(h') == n
  {
    var h1 := if TypeOf(h) != kind then SetLen(Header(kind, 0, 0), Len(h)) else h;
    SetLenSpec(Header(kind, 0, 0), Len(h));
    SetAllocSpec(h1, n);
  }

  class Sds {
    var hdr: Header
    var buf: array<byte>

    ghost predicate Valid()
      reads this, buf
    {
      && WellFormed(hdr)
      && Len(hdr) <= Alloc(hdr)
      && Alloc(hdr) + 1 <= buf.Length
      && buf[Len(hdr)] == 0
    }

    ghost function Contents(): Bytes
      requires Valid()
      reads this, buf
    {
      buf[..Len(hdr)]
    }

    /** Sizes stay within size_t when this many bytes are added. */
    predicate Addable(addlen: nat)
      reads this
    {
      Len(hdr) + addlen + SDS_MAX_PREALLOC + 18 <= SIZE_MAX
    }

    /** A new string of the first `initlen` bytes of `init`, or of zeros. */
    constructor (init: Option<Bytes>, initlen: nat)
      requires initlen + 18 <= SIZE_MAX && (init.Some? ==> initlen <= |init.value|)
      ensures Valid() && fresh(buf)
      ensures Contents() == if init.Some? then init.value[..initlen] else ZeroBytes(initlen)
      ensures Avail(hdr) == 0 && TypeOf(hdr) == if initlen == 0 then SDS_TYPE_8 else ReqType(initlen)
    {
      var kind := ReqType(initlen);
      if kind == SDS_TYPE_5 && initlen == 0 {
        kind := SDS_TYPE_8;
      }
      ReqTypeFits(initlen);
      NewHeaderSpec(kind, initlen);
      hdr := NewHeader(kind, initlen);
      var b := new byte[initlen + 1](_ => 0);
      if init.Some? {
        forall i | 0 <= i < initlen {
          b[i] := init.value[i];
        }
        assert b[..initlen] == init.value[..initlen];
      } else {
        assert b[..initlen] == ZeroBytes(initlen);
      }
      b[initlen] := 0;
      buf := b;
    }

    /** Replaces the buffer by one of `n + 1` bytes that starts with the content
        and its terminator; the rest is whatever the memory held. */
    method Move(n: nat)
      requires Valid() && Len(hdr) <= n
      modifies this`buf
      ensures fresh(buf) && buf.Length == n + 1
      ensures buf[..Len(hdr)] == old(Contents()) && buf[Len(hdr)] == 0
    {
      var len := Len(hdr);
      var moved := new byte[n + 1];
      forall i | 0 <= i <= len {
        moved[i] := buf[i];
      }
      assert moved[..len] == buf[..len];
      buf := moved;
    }

    /** Changes the layout (if `kind` differs) and the capacity. */
    method Retype(kind: nat, n: nat)
      requires Valid() && kind <= SDS_TYPE_64 && Len(hdr) <= n <= MaxLen(kind)
      requires kind == SDS_TYPE_5 ==> n == Len(hdr)
      modifies this
      ensures Valid() && fresh(buf) && TypeOf(hdr) == kind
      ensures Contents() == old(Contents()) && Alloc(hdr) == n
    {
      RetypedSpec(hdr, kind, n);
      Move(n);
      hdr := Retyped(hdr, kind, n);
    }

    /** Makes sure that `addlen` more bytes fit; the content does not change. */
    method MakeRoomFor(addlen: nat)
      requires Valid() && Addable(addlen)
      modifies this
      ensures Valid() && (buf == old(buf) || fresh(buf))
      ensures Contents() == old(Contents()) && Avail(hdr) >= addlen
      ensures old(Avail(hdr)) >= addlen ==> hdr == old(hdr) && buf == old(buf)
      ensures old(Avail(hdr)) < addlen ==> Alloc(hdr) == Roomy(old(Len(hdr)) + addlen) && TypeOf(hdr) != SDS_TYPE_5
    {
      AllocIsLenPlusAvail(hdr);
      if Avail(hdr) >= addlen {
        return;
      }
      var newlen := Len(hdr) + addlen;
      if newlen < SDS_MAX_PREALLOC {
        newlen := newlen * 2;
      } else {
        newlen := newlen + SDS_MAX_PREALLOC;
      }
      var kind := ReqType(newlen);
      if kind == SDS_TYPE_5 {
        kind := SDS_TYPE_8;
      }
      ReqTypeFits(newlen);
      Retype(kind, newlen);
      AllocIsLenPlusAvail(hdr);
    }

    /** Gives the free space back. */
    method RemoveFreeSpace()
      requires Valid()
      modifies this
      ensures Valid() && fresh(buf)
      ensures Contents() == old(Contents()) && Avail(hdr) == 0 && TypeOf(hdr) == ReqType(Len(hdr))
    {
      var len := Len(hdr);
      ReqTypeFits(len);
      Retype(ReqType(len), len);
      AllocIsLenPlusAvail(hdr);
    }

    /** Sets the length to one that fits, and terminates the content there. */
    method Terminate(n: nat)
      requires WellFormed(hdr) && n <= Alloc(hdr) && Alloc(hdr) + 1 <= buf.Length
      modifies this`hdr, buf
      ensures Valid() && Len(hdr) == n && TypeOf(hdr) == old(TypeOf(hdr)) && hdr.alloc == old(hdr.alloc)
      ensures Contents() == old(buf[..n])
    {
      SetLenSpec(hdr, n);
      AllocFits(hdr);
      hdr := SetLen(hdr, n);
      buf[n] := 0;
    }

    /** Makes the string empty and keeps the buffer for later. */
    method Clear()
      requires Valid()
      modifies this`hdr, buf
      ensures Valid() && Contents() == [] && TypeOf(hdr) == old(TypeOf(hdr)) && hdr.alloc == old(hdr.alloc)
    {
      Terminate(0);
    }

    /** Cuts the content at its first zero byte. */
    method UpdateLen()
      requires Valid()
      modifies this`hdr, buf
      ensures Valid() && Contents() == UpToZero(old(Contents()))
    {
      ghost var s := Contents();
      var reallen := 0;
      while buf[reallen] != 0
        invariant reallen <= Len(hdr)
        invariant forall i | 0 <= i < reallen :: s[i] != 0
        decreases Len(hdr) - reallen
      {
        reallen := reallen + 1;
      }
      UpToZeroAt(s, reallen);
      Terminate(reallen);
    }

    /** Grows the string to `len` bytes, the new ones zero. */
    method GrowZero(len: nat)
      requires Valid() && (len > Len(hdr) ==> Addable(len - Len(hdr)))
      modifies this, buf
      ensures Valid() && (buf == old(buf) || fresh(buf))
      ensures Contents() == if len <= |old(Contents())| then old(Contents())
                            else old(Contents()) + ZeroBytes(len - |old(Contents())|)
    {
      var curlen := Len(hdr);
      if len <= curlen {
        return;
      }
      MakeRoomFor(len - curlen);
      AllocIsLenPlusAvail(hdr);
      forall i | curlen <= i <= len {
        buf[i] := 0;
      }
      assert buf[..len] == old(Contents()) + ZeroBytes(len - curlen);
      Terminate(len);
    }

    /** Appends `t`. */
    method CatLen(t: Bytes)
      requires Valid() && Addable(|t|)
      modifies this, buf
      ensures Valid() && (buf == old(buf) || fresh(buf))
      ensures Contents() == old(Contents()) + t
    {
      var curlen := Len(hdr);
      MakeRoomFor(|t|);
      AllocIsLenPlusAvail(hdr);
      forall i | 0 <= i < |t| {
        buf[curlen + i] := t[i];
      }
      assert buf[..curlen + |t|] == old(Contents()) + t;
      Terminate(curlen + |t|);
    }

    /** Overwrites the string by `t`. */
    method CpyLen(t: Bytes)
      requires Valid() && (|t| > Alloc(hdr) ==> Addable(|t| - Len(hdr)))
      modifies this, buf
      ensures Valid() && (buf == old(buf) || fresh(buf))
      ensures Contents() == t
    {
      AllocIsLenPlusAvail(hdr);
      if Alloc(hdr) < |t| {
        MakeRoomFor(|t| - Len(hdr));
        AllocIsLenPlusAvail(hdr);
      }
      forall i | 0 <= i < |t| {
        buf[i] := t[i];
      }
      assert buf[..|t|] == t;
      Terminate(|t|);
    }
  }

  lemma AllocFits(h: Header)
    requires WellFormed(h)
    ensures Alloc(h) <= MaxLen(TypeOf(h))
  {
  }
}
