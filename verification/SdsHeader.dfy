/** The header in front of a dynamic string: a flags byte whose three low bits
    name one of five layouts. The smallest keeps the length in the other five
    bits of the flags; the others have a length and a capacity field of 8, 16,
    32 or 64 bits, and what is stored in a field is cut to its width. */
module SdsHeaders {
  import opened Common

  const SDS_TYPE_5 := 0
  const SDS_TYPE_8 := 1
  const SDS_TYPE_16 := 2
  const SDS_TYPE_32 := 3
  const SDS_TYPE_64 := 4

  const SDS_MAX_PREALLOC := 1024 * 1024
  const SIZE_MAX := 0xffff_ffff_ffff_ffff

  datatype Header = Header(flags: byte, len: nat, alloc: nat)

  function TypeOf(h: Header): nat {
    h.flags % 8
  }

  /** The largest number a length of this layout can hold. */
  function MaxLen(kind: nat): nat {
    match kind
    case 0 => 31
    case 1 => 0xff
    case 2 => 0xffff
    case 3 => 0xffff_ffff
    case _ => SIZE_MAX
  }

  /** One of the five layouts, with fields within their width. */
  predicate WellFormed(h: Header) {
    TypeOf(h) <= SDS_TYPE_64 && h.len <= MaxLen(TypeOf(h)) && h.alloc <= MaxLen(TypeOf(h))
  }

  function ReqType(size: nat): nat {
    if size < 32 then SDS_TYPE_5
    else if size < 0xff then SDS_TYPE_8
    else if size < 0xffff then SDS_TYPE_16
    else if size < 0xffff_ffff then SDS_TYPE_32
    else SDS_TYPE_64
  }

  /** The layout chosen for a size can hold it, and none smaller could hold one
      more. */
  lemma ReqTypeFits(size: nat)
    requires size <= SIZE_MAX
    ensures ReqType(size) <= SDS_TYPE_64 && size <= MaxLen(ReqType(size))
    ensures forall kind: nat | kind < ReqType(size) :: MaxLen(kind) < size + 1
  {
  }

  /** Where one layout gives way to the next, and what each can hold. */
  lemma LayoutBounds(size: nat)
    ensures ReqType(size) == 0 <==> size <= 31
    ensures ReqType(size) == 1 <==> 32 <= size <= 254
    ensures ReqType(size) == 2 <==> 255 <= size <= 65534
    ensures ReqType(size) == 3 <==> 65535 <= size <= 4294967294
    ensures ReqType(size) == 4 <==> 4294967295 <= size
    ensures MaxLen(0) == 31 && MaxLen(1) == 255 && MaxLen(2) == 65535 && MaxLen(3) == 4294967295
    ensures MaxLen(4) == 18446744073709551615
  {
  }

  function Len(h: Header): nat {
    match TypeOf(h)
    case 0 => h.flags / 8
    case 1 | 2 | 3 | 4 => h.len
    case _ => 0
  }

  function Avail(h: Header): int {
    match TypeOf(h)
    case 0 => 0
    case 1 | 2 | 3 | 4 => h.alloc - h.len
    case _ => 0
  }

  function Alloc(h: Header): nat {
    match TypeOf(h)
    case 0 => h.flags / 8
    case 1 | 2 | 3 | 4 => h.alloc
    case _ => 0
  }

  function SetLen(h: Header, n: nat): Header {
    match TypeOf(h)
    case 0 => h.(flags := n * 8 % 256)
    case 1 | 2 | 3 | 4 => h.(len := n % (MaxLen(TypeOf(h)) + 1))
    case _ => h
  }

  function IncLen(h: Header, inc: nat): Header {
    match TypeOf(h)
    case 0 => h.(flags := (h.flags / 8 + inc) % 256 * 8 % 256)
    case 1 | 2 | 3 | 4 => h.(len := (h.len + inc) % (MaxLen(TypeOf(h)) + 1))
    case _ => h
  }

  function SetAlloc(h: Header, n: nat): Header {
    match TypeOf(h)
    case 1 | 2 | 3 | 4 => h.(alloc := n % (MaxLen(TypeOf(h)) + 1))
    case _ => h
  }

  /** The capacity is the length and the free space, in every layout. */
  lemma AllocIsLenPlusAvail(h: Header)
    ensures Alloc(h) == Len(h) + Avail(h)
  {
  }

  lemma ModIdentity(n: nat, m: nat)
    requires m > 0
    ensures n % m == n <==> n < m
  {
  }

  /** Storing a length and reading it back works exactly for the lengths that
      the layout can hold; the layout and the capacity field stay as they are. */
  lemma SetLenSpec(h: Header, n: nat)
    requires WellFormed(h)
    ensures WellFormed(SetLen(h, n)) && TypeOf(SetLen(h, n)) == TypeOf(h) && SetLen(h, n).alloc == h.alloc
    ensures Len(SetLen(h, n)) == n <==> n <= MaxLen(TypeOf(h))
  {
    if TypeOf(h) == SDS_TYPE_5 {
      ShiftCut(n);
      assert SetLen(h, n).flags % 8 == 0;
    } else {
      ModIdentity(n, MaxLen(TypeOf(h)) + 1);
    }
  }

  lemma CutTo256(q: nat, r: nat)
    requires r < 256
    ensures (256 * q + r) % 256 == r
  {
  }

  lemma ShiftedCut(n: nat)
    ensures n * 8 % 256 == n % 32 * 8
  {
    assert n * 8 == 256 * (n / 32) + n % 32 * 8;
    CutTo256(n / 32, n % 32 * 8);
  }

  /** Cutting to a byte before the shift loses nothing that the shift keeps. */
  lemma ShiftCut(n: nat)
    ensures n % 256 * 8 % 256 == n * 8 % 256 == n % 32 * 8
  {
    ShiftedCut(n);
    ShiftedCut(n % 256);
    assert n == 32 * (8 * (n / 256) + n % 256 / 32) + n % 256 % 32;
  }

  /** Adding to the length is setting the sum, within and beyond the width. */
  lemma IncLenIsSetLen(h: Header, inc: nat)
    requires WellFormed(h)
    ensures IncLen(h, inc) == SetLen(h, Len(h) + inc)
  {
    if TypeOf(h) == SDS_TYPE_5 {
      ShiftCut(h.flags / 8 + inc);
    }
  }

  lemma SetAllocSpec(h: Header, n: nat)
    requires WellFormed(h)
    ensures WellFormed(SetAlloc(h, n)) && TypeOf(SetAlloc(h, n)) == TypeOf(h) && Len(SetAlloc(h, n)) == Len(h)
    ensures TypeOf(h) != SDS_TYPE_5 ==> (Alloc(SetAlloc(h, n)) == n <==> n <= MaxLen(TypeOf(h)))
  {
    if TypeOf(h) != SDS_TYPE_5 {
      ModIdentity(n, MaxLen(TypeOf(h)) + 1);
    }
  }
}
