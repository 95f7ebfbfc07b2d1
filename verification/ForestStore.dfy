/** What the serializer leaves in its buffer for any tree, missing children
    included. It returns 0 for a missing node, and the caller takes that for the
    length so far: whatever comes next is written from the start of the buffer. */
module ForestStore {
  import opened Common
  import opened ForestTree
  import opened ForestRebuild
  import opened ForestCodec
  import opened ForestBytes

  /** What fresh memory holds, reallocation by reallocation. */
  type Allocator = nat -> Memory

  /** What a block that held `b` holds once it is reallocated. */
  function Held(b: Bytes, mem: Memory): Memory {
    (i: nat) => if i < |b| then b[i] else mem(i)
  }

  /** The number of nodes the serializer visits. */
  function RecordCount<D>(t: Tree<D>): nat {
    if t.Empty? then 0 else if t.info.Leaf? then 1 else 1 + RecordCount(t.left) + RecordCount(t.right)
  }

  /** The buffer once the record of one node lies behind its first `slen` bytes. */
  function WithRecord(b: Bytes, info: Label<Double>, plen: nat, path: byte, slen: nat, mem: Memory): (r: Bytes)
    requires Storable(info) && slen <= |b|
  {
    b[..slen] + Record(info, plen, path, slen, Held(b, mem))
  }

  /** The buffer and the returned length after storing `t` behind the first
      `slen` bytes of `b`, the next reallocation being number `k`. */
  function Store(b: Bytes, t: Tree<Double>, plen: nat, path: byte, slen: nat, heap: Allocator, k: nat)
    : (r: (Bytes, nat))
    requires StorableTree(t) && slen <= |b|
    ensures r.1 <= |r.0|
    ensures Check(t).Ok? ==> r.1 == |r.0|
    decreases t
  {
    if t.Empty? then (b, 0)
    else
      var b1 := WithRecord(b, t.info, plen, path, slen, heap(k));
      if t.info.Leaf? then (b1, |b1|)
      else
        var (b2, len) := Store(b1, t.left, plen + 1, Shifted(path, 0), |b1|, heap, k + 1);
        Store(b2, t.right, plen + 1, Shifted(path, 1), len, heap, k + 1 + RecordCount(t.left))
  }

  /** The bytes up to the returned length. */
  function Kept(stored: (Bytes, nat)): Bytes
    requires stored.1 <= |stored.0|
  {
    stored.0[..stored.1]
  }

  lemma CompleteIsNode(t: Tree<Double>)
    requires StorableTree(t) && Check(t).Ok?
    ensures t.Node? && Storable(t.info)
  {
  }

  lemma Children(t: Tree<Double>)
    requires StorableTree(t) && t.Node? && !t.info.Leaf?
    ensures Storable(t.info) && StorableTree(t.left) && StorableTree(t.right)
    ensures Check(t).Ok? <==> Check(t.left).Ok? && Check(t.right).Ok?
    ensures Depth(t.left) < Depth(t) && Depth(t.right) < Depth(t)
  {
  }

  lemma StoreMissing(b: Bytes, plen: nat, path: byte, slen: nat, heap: Allocator, k: nat)
    requires slen <= |b|
    ensures Store(b, Empty, plen, path, slen, heap, k) == (b, 0)
  {
  }

  lemma StoreLeaf(b: Bytes, t: Tree<Double>, plen: nat, path: byte, slen: nat, heap: Allocator, k: nat)
    requires StorableTree(t) && IsLeaf(t) && slen <= |b|
    ensures Storable(t.info)
    ensures var b1 := WithRecord(b, t.info, plen, path, slen, heap(k));
            Store(b, t, plen, path, slen, heap, k) == (b1, |b1|)
  {
    hide WithRecord;
  }

  lemma StoreSplitter(b: Bytes, t: Tree<Double>, plen: nat, path: byte, slen: nat, heap: Allocator, k: nat)
    requires StorableTree(t) && t.Node? && !t.info.Leaf? && slen <= |b|
    ensures var b1 := WithRecord(b, t.info, plen, path, slen, heap(k));
            var (b2, len) := Store(b1, t.left, plen + 1, Shifted(path, 0), |b1|, heap, k + 1);
            Store(b, t, plen, path, slen, heap, k)
            == Store(b2, t.right, plen + 1, Shifted(path, 1), len, heap, k + 1 + RecordCount(t.left))
  {
    hide WithRecord, Shifted, RecordCount;
  }

  /** The string that the save callback hands over. */
  function Saved(t: Tree<Double>, heap: Allocator): Bytes
    requires StorableTree(t)
  {
    Kept(Store([], t, 0, 0, 0, heap, 0))
  }

  // ------------------------------------------------------- complete trees

  /** Of the memory, a record depends on its unwritten path bytes only. */
  lemma SameRecord(info: Label<Double>, plen: nat, path: byte, at: nat, m1: Memory, m2: Memory)
    requires Storable(info)
    requires forall i: nat | at + 5 <= i < at + 4 + PathSize(plen) :: m1(i) == m2(i)
    ensures Record(info, plen, path, at, m1) == Record(info, plen, path, at, m2)
  {
    assert PathBytes(plen, path, at, m1) == PathBytes(plen, path, at, m2);
  }

  /** The memory that a buffer is. */
  function MemoryOf(s: Bytes): Memory {
    Held(s, _ => 0)
  }

  ghost predicate Starts(a: Bytes, s: Bytes) {
    a <= s
  }

  lemma StartsShorter(a: Bytes, b: Bytes, s: Bytes)
    requires Starts(a + b, s)
    ensures Starts(a, s)
  {
    assert a == (a + b)[..|a|] == s[..|a|];
  }

  lemma InsideConcat(before: Bytes, a: Bytes, b: Bytes, c: Bytes, s: Bytes, i: nat)
    requires Starts(before + (a + (b + c)), s) && i < |b|
    ensures |before| + |a| + i < |s| && s[|before| + |a| + i] == b[i]
  {
    assert s[|before| + |a| + i] == (before + (a + (b + c)))[|before| + |a| + i];
  }

  lemma RecordInBuffer(info: Label<Double>, plen: nat, path: byte, before: Bytes, mem: Memory, s: Bytes)
    requires Storable(info) && Starts(before + Record(info, plen, path, |before|, mem), s)
    ensures Record(info, plen, path, |before|, mem) == Record(info, plen, path, |before|, MemoryOf(s))
  {
    hide Body, EncodeInt, PathSize;
    var at, pathBytes := |before|, PathBytes(plen, path, |before|, mem);
    var rest := [Kind(info)] + (Prediction(info) + Body(info));
    forall i: nat | at + 5 <= i < at + 4 + PathSize(plen)
      ensures mem(i) == MemoryOf(s)(i)
    {
      InsideConcat(before, EncodeInt(plen), pathBytes, rest, s, i - at - 4);
    }
    SameRecord(info, plen, path, at, mem, MemoryOf(s));
  }

  lemma WholeSlice(b: Bytes)
    ensures b[..|b|] == b
  {
  }

  lemma Joined(before: Bytes, record: Bytes, left: Bytes, right: Bytes)
    ensures before + record + left + right == before + (record + (left + right))
  {
  }

  lemma RecordIsKept(b: Bytes, info: Label<Double>, plen: nat, path: byte, slen: nat, mem: Memory, s: Bytes)
    requires Storable(info) && slen <= |b| && Starts(WithRecord(b, info, plen, path, slen, mem), s)
    ensures WithRecord(b, info, plen, path, slen, mem) == b[..slen] + Record(info, plen, path, slen, MemoryOf(s))
  {
    hide Record, MemoryOf, Held, Starts;
    RecordInBuffer(info, plen, path, b[..slen], Held(b, mem), s);
  }

  /** A complete tree is added to the bytes before it as its encoding, whatever
      each reallocation handed out; `s` is any buffer that starts with the result. */
  lemma {:induction false} CompleteIsEncoded(b: Bytes, t: Tree<Double>, plen: nat, path: byte, slen: nat,
                                             heap: Allocator, k: nat, s: Bytes)
    requires StorableTree(t) && Check(t).Ok? && slen <= |b|
    requires Starts(Store(b, t, plen, path, slen, heap, k).0, s)
    ensures Store(b, t, plen, path, slen, heap, k).0 == b[..slen] + Encode(t, plen, path, slen, MemoryOf(s))
    decreases t
  {
    hide Record, Shifted, MemoryOf, Held, RecordCount, Starts, Store, Encode, StorableTree, Check, WithRecord;
    CompleteIsNode(t);
    var before, b1 := b[..slen], WithRecord(b, t.info, plen, path, slen, heap(k));
    if t.info.Leaf? {
      StoreLeaf(b, t, plen, path, slen, heap, k);
      EncodeLeaf(t, plen, path, slen, MemoryOf(s));
      RecordIsKept(b, t.info, plen, path, slen, heap(k), s);
    } else {
      StoreSplitter(b, t, plen, path, slen, heap, k);
      Children(t);
      EncodeSplitter(t, plen, path, slen, MemoryOf(s));
      var b2 := Store(b1, t.left, plen + 1, Shifted(path, 0), |b1|, heap, k + 1).0;
      var b3 := Store(b2, t.right, plen + 1, Shifted(path, 1), |b2|, heap, k + 1 + RecordCount(t.left)).0;
      var right := Encode(t.right, plen + 1, Shifted(path, 1), |b2|, MemoryOf(s));
      assert b3 == b2 + right by {
        CompleteIsEncoded(b2, t.right, plen + 1, Shifted(path, 1), |b2|, heap, k + 1 + RecordCount(t.left), s);
        WholeSlice(b2);
      }
      StartsShorter(b2, right, s);
      var left := Encode(t.left, plen + 1, Shifted(path, 0), |b1|, MemoryOf(s));
      assert b2 == b1 + left by {
        CompleteIsEncoded(b1, t.left, plen + 1, Shifted(path, 0), |b1|, heap, k + 1, s);
        WholeSlice(b1);
      }
      StartsShorter(b1, left, s);
      RecordIsKept(b, t.info, plen, path, slen, heap(k), s);
      Joined(before, Record(t.info, plen, path, slen, MemoryOf(s)), left, right);
    }
  }

  lemma EncodeLeaf(t: Tree<Double>, plen: nat, path: byte, at: nat, mem: Memory)
    requires StorableTree(t) && IsLeaf(t)
    ensures Encode(t, plen, path, at, mem) == Record(t.info, plen, path, at, mem)
  {
    hide Record;
  }

  lemma EncodeSplitter(t: Tree<Double>, plen: nat, path: byte, at: nat, mem: Memory)
    requires StorableTree(t) && Check(t).Ok? && !t.info.Leaf?
    ensures var record := Record(t.info, plen, path, at, mem);
            var left := Encode(t.left, plen + 1, Shifted(path, 0), at + |record|, mem);
            Encode(t, plen, path, at, mem)
            == record + (left + Encode(t.right, plen + 1, Shifted(path, 1), at + |record| + |left|, mem))
  {
    hide Record, Shifted;
  }

  lemma CompleteIsSaved(t: Tree<Double>, heap: Allocator) returns (mem: Memory)
    requires StorableTree(t) && Check(t).Ok?
    ensures Saved(t, heap) == Encode(t, 0, 0, 0, mem)
  {
    hide Store, Encode, MemoryOf;
    var b := Store([], t, 0, 0, 0, heap, 0).0;
    mem := MemoryOf(b);
    assert b[..|b|] == b;
    CompleteIsEncoded([], t, 0, 0, 0, heap, 0, b);
    var none: Bytes := [];
    assert none[..0] + Encode(t, 0, 0, 0, mem) == Encode(t, 0, 0, 0, mem);
  }

  /** The allocator that hands out the same memory every time. */
  function Always(mem: Memory): Allocator {
    _ => mem
  }

  lemma {:induction false} StoreFromAlways(b: Bytes, t: Tree<Double>, plen: nat, path: byte, mem: Memory, k: nat)
    requires StorableTree(t) && Check(t).Ok?
    ensures Store(b, t, plen, path, |b|, Always(mem), k).0 == b + Encode(t, plen, path, |b|, mem)
    decreases t
  {
    hide Record, Shifted, RecordCount;
    var record := Record(t.info, plen, path, |b|, Held(b, mem));
    SameRecord(t.info, plen, path, |b|, Held(b, mem), mem);
    assert b[..|b|] == b;
    if !t.info.Leaf? {
      StoreSplitter(b, t, plen, path, |b|, Always(mem), k);
      var b1 := b + record;
      StoreFromAlways(b1, t.left, plen + 1, Shifted(path, 0), mem, k + 1);
      var left := Encode(t.left, plen + 1, Shifted(path, 0), |b1|, mem);
      StoreFromAlways(b1 + left, t.right, plen + 1, Shifted(path, 1), mem, k + 1 + RecordCount(t.left));
      var right := Encode(t.right, plen + 1, Shifted(path, 1), |b1| + |left|, mem);
      Regroup(b1, left, right);
      Regroup(b, record, left + right);
    }
  }

  lemma SavedFromAlways(t: Tree<Double>, mem: Memory)
    requires StorableTree(t) && Check(t).Ok?
    ensures Saved(t, Always(mem)) == Encode(t, 0, 0, 0, mem)
  {
    hide Store, Encode;
    var none: Bytes := [];
    StoreFromAlways(none, t, 0, 0, mem, 0);
    var b := Store(none, t, 0, 0, 0, Always(mem), 0).0;
    assert b[..|b|] == b;
    assert none + Encode(t, 0, 0, 0, mem) == Encode(t, 0, 0, 0, mem);
  }

  // ----------------------------------------------------- incomplete trees

  /** No entry is for the root. */
  ghost predicate BelowRoot(entries: seq<Entry<Double>>) {
    forall i | 0 <= i < |entries| :: |entries[i].path| >= 2
  }

  ghost predicate ReadsBelowRoot(s: Bytes) {
    ParseAll(s).Some? && BelowRoot(ParseAll(s).value)
  }

  /** Put before records of nodes below the root, `s` adds only such records. */
  ghost predicate Detached(s: Bytes) {
    forall rest: Bytes | ReadsBelowRoot(rest) :: ReadsBelowRoot(s + rest)
  }

  lemma DetachedReads(s: Bytes)
    requires Detached(s)
    ensures ReadsBelowRoot(s)
  {
    var none: Bytes := [];
    assert ReadsBelowRoot(none) && s + none == s;
  }

  lemma NothingDetached(b: Bytes)
    ensures Detached(Kept((b, 0)))
  {
    assert b[..0] == [];
    forall rest: Bytes | ReadsBelowRoot(rest)
      ensures ReadsBelowRoot([] + rest)
    {
      assert [] + rest == rest;
    }
  }

  lemma DetachedConcat(a: Bytes, b: Bytes)
    requires Detached(a) && Detached(b)
    ensures Detached(a + b)
  {
    hide ReadsBelowRoot;
    forall rest: Bytes | ReadsBelowRoot(rest)
      ensures ReadsBelowRoot(a + b + rest)
    {
      Regroup(a, b, rest);
      assert ReadsBelowRoot(b + rest);
    }
  }

  lemma HeadBelowRoot(entry: Entry<Double>)
    requires |entry.path| >= 2
    ensures BelowRoot([entry])
  {
  }

  lemma BelowRootConcat(a: seq<Entry<Double>>, b: seq<Entry<Double>>)
    requires BelowRoot(a) && BelowRoot(b)
    ensures BelowRoot(a + b)
  {
  }

  lemma {:induction false} SeenBelowRoot(t: Tree<Double>, plen: nat, path: byte, at: nat, mem: Memory)
    requires StorableTree(t) && Check(t).Ok? && plen >= 1
    ensures BelowRoot(SeenEntries(t, plen, path, at, mem))
  {
    hide Record, Encode, Shifted, DecodePath, PathBytes, PathSize, BelowRoot;
    var head := [Entry(DecodePath(plen, PathBytes(plen, path, at, mem)), t.info)];
    HeadBelowRoot(head[0]);
    if !t.info.Leaf? {
      var at1 := at + |Record(t.info, plen, path, at, mem)|;
      var at2 := at1 + |Encode(t.left, plen + 1, Shifted(path, 0), at1, mem)|;
      SeenBelowRoot(t.left, plen + 1, Shifted(path, 0), at1, mem);
      SeenBelowRoot(t.right, plen + 1, Shifted(path, 1), at2, mem);
      var left := SeenEntries(t.left, plen + 1, Shifted(path, 0), at1, mem);
      var right := SeenEntries(t.right, plen + 1, Shifted(path, 1), at2, mem);
      BelowRootConcat(left, right);
      BelowRootConcat(head, left + right);
    }
  }

  lemma SubtreeIsDetached(t: Tree<Double>, plen: nat, path: byte, at: nat, mem: Memory)
    requires StorableTree(t) && Check(t).Ok? && plen >= 1 && IsInt32(plen + Depth(t))
    ensures Detached(Encode(t, plen, path, at, mem))
  {
    hide Encode, SeenEntries, ParseAll;
    SeenBelowRoot(t, plen, path, at, mem);
    forall rest: Bytes | ReadsBelowRoot(rest)
      ensures ReadsBelowRoot(Encode(t, plen, path, at, mem) + rest)
    {
      ParseEncode(t, plen, path, at, mem, rest);
    }
  }

  /** What is kept before a complete subtree below the root stays detached. */
  lemma CompleteKeepsDetached(b: Bytes, t: Tree<Double>, plen: nat, path: byte, slen: nat, heap: Allocator, k: nat)
    requires StorableTree(t) && Check(t).Ok? && plen >= 1 && IsInt32(plen + Depth(t))
    requires slen <= |b| && Detached(Kept((b, slen)))
    ensures Detached(Kept(Store(b, t, plen, path, slen, heap, k)))
  {
    hide Detached, Encode, Store;
    var (b', len) := Store(b, t, plen, path, slen, heap, k);
    assert b'[..len] == b';
    CompleteIsEncoded(b, t, plen, path, slen, heap, k, b');
    SubtreeIsDetached(t, plen, path, slen, MemoryOf(b'));
    DetachedConcat(b[..slen], Encode(t, plen, path, slen, MemoryOf(b')));
  }

  lemma IncompleteIsNoLeaf(t: Tree<Double>)
    requires StorableTree(t) && Check(t).Err?
    ensures t.Node? ==> !t.info.Leaf?
  {
  }

  /** In a tree with a missing node, the bytes kept start after the last one
      missing: they hold complete subtrees only, and none of them is the root. */
  lemma {:induction false} IncompleteIsDetached(b: Bytes, t: Tree<Double>, plen: nat, path: byte, slen: nat,
                                                heap: Allocator, k: nat)
    requires StorableTree(t) && Check(t).Err? && slen <= |b| && IsInt32(plen + Depth(t))
    ensures Detached(Kept(Store(b, t, plen, path, slen, heap, k)))
    decreases t
  {
    hide Shifted, RecordCount, WithRecord, Detached, Store, StorableTree, Check, Depth, Kept;
    IncompleteIsNoLeaf(t);
    if t.Empty? {
      StoreMissing(b, plen, path, slen, heap, k);
      NothingDetached(b);
    } else {
      StoreSplitter(b, t, plen, path, slen, heap, k);
      Children(t);
      var b1 := WithRecord(b, t.info, plen, path, slen, heap(k));
      var (b2, len) := Store(b1, t.left, plen + 1, Shifted(path, 0), |b1|, heap, k + 1);
      var k2 := k + 1 + RecordCount(t.left);
      if Check(t.right).Err? {
        IncompleteIsDetached(b2, t.right, plen + 1, Shifted(path, 1), len, heap, k2);
      } else {
        IncompleteIsDetached(b1, t.left, plen + 1, Shifted(path, 0), |b1|, heap, k + 1);
        CompleteKeepsDetached(b2, t.right, plen + 1, Shifted(path, 1), len, heap, k2);
      }
    }
  }

  lemma IncompleteReadsBelowRoot(t: Tree<Double>, heap: Allocator)
    requires StorableTree(t) && Check(t).Err? && IsInt32(Depth(t))
    ensures ReadsBelowRoot(Saved(t, heap))
  {
    hide Store, Detached, ReadsBelowRoot;
    IncompleteIsDetached([], t, 0, 0, 0, heap, 0);
    DetachedReads(Saved(t, heap));
  }
}
