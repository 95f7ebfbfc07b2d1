/** The serializer and the reader as they run: a buffer that is reallocated and
    overwritten at a moving position, and a loop over the bytes that links new
    nodes into the tree in memory. */
module ForestSerializer {
  import opened Common
  import opened ForestTree
  import opened ForestRebuild
  import opened ForestCodec
  import opened ForestBytes
  import opened ForestStore
  import opened ForestCells
  import opened ForestRoundTrip

  /** Bytes `n` to `m` of freshly allocated memory. */
  function Junk(n: nat, m: nat, mem: Memory): (b: Bytes)
    requires n <= m
    ensures |b| == m - n
  {
    seq(m - n, k requires 0 <= k => mem(n + k))
  }

  /** The serialized bytes, in a block that is reallocated for every record. */
  class Buffer {
    const heap: Allocator
    var calls: nat // reallocations so far
    var data: array<byte>

    constructor (heap: Allocator)
      ensures this.heap == heap && calls == 0 && data.Length == 0 && fresh(data)
    {
      this.heap, calls := heap, 0;
      data := new byte[0];
    }

    /** Resizes the block either way: the bytes that fit stay, and any new part
        holds whatever the allocator's memory held. */
    method Realloc(n: nat)
      modifies this
      ensures fresh(data) && data.Length == n && calls == old(calls) + 1
      ensures data[..] == Junk(0, n, Held(old(data[..]), heap(old(calls))))
    {
      var mem := heap(calls);
      var grown := new byte[n](k => mem(k));
      var i := 0;
      while i < data.Length && i < n
        invariant i <= data.Length && i <= n && data == old(data) && calls == old(calls)
        invariant grown[..i] == data[..i]
        invariant forall k | i <= k < n :: grown[k] == mem(k)
      {
        grown[i] := data[i];
        i := i + 1;
      }
      data := grown;
      calls := calls + 1;
    }

    /** Overwrites the bytes from `pos` on with `b`. */
    method Put(pos: nat, b: Bytes)
      requires pos + |b| <= data.Length
      modifies data
      ensures data[..] == old(data[..pos]) + b + old(data[pos + |b|..])
    {
      var i := 0;
      while i < |b|
        invariant i <= |b|
        invariant data[..pos + i] == old(data[..pos]) + b[..i]
        invariant data[pos + i..] == old(data[pos + i..])
      {
        data[pos + i] := b[i];
        i := i + 1;
      }
    }
  }

  /** `data` starts with `done`, and still holds fresh memory after that. */
  ghost predicate FilledTo(data: Bytes, done: Bytes, mem: Memory) {
    |done| <= |data| && data == done + Junk(|done|, |data|, mem)
  }

  /** Writes `b` at `pos`, where the fresh memory begins, and moves `pos`. */
  method Append(dst: Buffer, ghost done: Bytes, b: Bytes, pos: nat, ghost mem: Memory) returns (pos': nat)
    requires FilledTo(dst.data[..], done, mem) && pos == |done| && pos + |b| <= dst.data.Length
    modifies dst.data
    ensures pos' == pos + |b| && FilledTo(dst.data[..], done + b, mem)
  {
    dst.Put(pos, b);
    pos' := pos + |b|;
  }

  /** Resizing keeps the bytes that the new block has room for. */
  lemma ResizedStarts(data: Bytes, b: Bytes, slen: nat, n: nat, mem: Memory)
    requires slen <= |b| && slen <= n && data == Junk(0, n, Held(b, mem))
    ensures FilledTo(data, b[..slen], Held(b, mem))
  {
  }

  /** Passing over memory leaves it as it was. */
  lemma SkipOver(data: Bytes, done: Bytes, n: nat, mem: Memory)
    requires FilledTo(data, done, mem) && |done| + n <= |data|
    ensures FilledTo(data, done + Junk(|done|, |done| + n, mem), mem)
  {
  }

  /** Writes the path field: its first byte, leaving the others as they are. */
  method PutPath(dst: Buffer, ghost done: Bytes, path: byte, plen: nat, pos: nat, ghost mem: Memory)
    returns (pos': nat)
    requires FilledTo(dst.data[..], done, mem) && pos == |done| >= 4 && pos + PathSize(plen) <= dst.data.Length
    modifies dst.data
    ensures pos' == pos + PathSize(plen)
    ensures FilledTo(dst.data[..], done + PathBytes(plen, path, pos - 4, mem), mem)
  {
    pos' := pos;
    if plen != 0 {
      var written := Append(dst, done, [path], pos, mem);
      SkipOver(dst.data[..], done + [path], PathSize(plen) - 1, mem);
      pos' := pos + PathSize(plen);
      assert done + PathBytes(plen, path, pos - 4, mem)
          == done + [path] + Junk(pos + 1, pos', mem);
    } else {
      assert done + PathBytes(plen, path, pos - 4, mem) == done;
    }
  }

  lemma {:induction false} FlattenSnoc(stats: seq<Double>, i: nat)
    requires i < |stats|
    ensures Flatten(stats[..i + 1]) == Flatten(stats[..i]) + stats[i]
  {
    if i > 0 {
      FlattenSnoc(stats[1..], i - 1);
      assert stats[..i + 1][1..] == stats[1..][..i] && stats[..i][1..] == stats[1..][..i - 1];
    }
  }

  method PutStats(dst: Buffer, ghost done: Bytes, stats: seq<Double>, pos: nat, ghost mem: Memory) returns (pos': nat)
    requires FilledTo(dst.data[..], done, mem) && pos == |done| && pos + |Flatten(stats)| <= dst.data.Length
    modifies dst.data
    ensures pos' == pos + |Flatten(stats)| && FilledTo(dst.data[..], done + Flatten(stats), mem)
  {
    hide FilledTo;
    FlattenLength(stats);
    pos' := pos;
    var i := 0;
    assert done + Flatten(stats[..0]) == done;
    while i < |stats|
      invariant i <= |stats| && pos' == pos + 8 * i
      invariant dst.data == old(dst.data)
      invariant FilledTo(dst.data[..], done + Flatten(stats[..i]), mem)
    {
      FlattenLength(stats[..i]);
      pos' := Append(dst, done + Flatten(stats[..i]), stats[i], pos', mem);
      FlattenSnoc(stats, i);
      assert done + Flatten(stats[..i]) + stats[i] == done + Flatten(stats[..i + 1]);
      i := i + 1;
    }
    assert stats[..i] == stats;
  }

  method PutBody(dst: Buffer, ghost done: Bytes, info: Label<Double>, pos: nat, ghost mem: Memory) returns (pos': nat)
    requires Storable(info)
    requires FilledTo(dst.data[..], done, mem) && pos == |done| && pos + |Body(info)| <= dst.data.Length
    modifies dst.data
    ensures pos' == pos + |Body(info)| && FilledTo(dst.data[..], done + Body(info), mem)
  {
    hide EncodeInt, FilledTo, Flatten;
    match info
    case Numeric(attr, val) =>
      ghost var kind := EncodeInt(S_NUMERICAL);
      pos' := Append(dst, done, attr, pos, mem);
      pos' := Append(dst, done + attr, [0], pos', mem);
      pos' := Append(dst, done + attr + [0], EncodeInt(S_NUMERICAL), pos', mem);
      pos' := Append(dst, done + attr + [0] + kind, val, pos', mem);
      assert done + attr + [0] + kind + val == done + Body(info);
    case Leaf(_, stats, total) =>
      ghost var n, m := EncodeInt(|stats|), EncodeInt(total);
      pos' := Append(dst, done, EncodeInt(|stats|), pos, mem);
      pos' := Append(dst, done + n, EncodeInt(total), pos', mem);
      pos' := PutStats(dst, done + n + m, stats, pos', mem);
      assert done + n + m + Flatten(stats) == done + Body(info);
  }

  /** Writes the record of one node behind the first `slen` bytes of the buffer,
      and makes it the last one there. */
  method PutRecord(dst: Buffer, info: Label<Double>, path: byte, plen: nat, slen: nat) returns (len: nat)
    requires Storable(info) && slen <= dst.data.Length
    modifies dst
    ensures fresh(dst.data) && dst.calls == old(dst.calls) + 1 && len == dst.data.Length
    ensures dst.data[..] == WithRecord(old(dst.data[..]), info, plen, path, slen, dst.heap(old(dst.calls)))
  {
    hide EncodeInt, PathBytes, Body, Held;
    ghost var mem := Held(dst.data[..], dst.heap(dst.calls));
    ghost var done := dst.data[..slen];
    ghost var pathBytes := PathBytes(plen, path, slen, mem);
    len := slen + 4 + PathSize(plen) + 1 + 8 + BodySize(info);
    dst.Realloc(len);
    ResizedStarts(dst.data[..], old(dst.data[..]), slen, len, dst.heap(old(dst.calls)));
    assert old(dst.data[..])[..slen] == done;
    hide FilledTo;
    var pos := slen;
    pos := Append(dst, done, EncodeInt(plen), pos, mem);
    pos := PutPath(dst, done + EncodeInt(plen), path, plen, pos, mem);
    pos := Append(dst, done + EncodeInt(plen) + pathBytes, [Kind(info)], pos, mem);
    pos := Append(dst, done + EncodeInt(plen) + pathBytes + [Kind(info)], Prediction(info), pos, mem);
    ghost var head := done + EncodeInt(plen) + pathBytes + [Kind(info)] + Prediction(info);
    pos := PutBody(dst, head, info, pos, mem);
    assert head + Body(info) == done + Record(info, plen, path, slen, mem);
    FullyFilled(dst.data[..], head + Body(info), mem);
  }

  lemma FullyFilled(data: Bytes, done: Bytes, mem: Memory)
    requires FilledTo(data, done, mem) && |done| == |data|
    ensures data == done
  {
  }

  /** The size of a record's body as the serializer adds it up. */
  function BodySize(info: Label<Double>): (n: nat)
    requires Storable(info)
    ensures n == |Body(info)|
  {
    match info
    case Numeric(attr, _) => |attr| + 1 + 4 + 8
    case Leaf(_, stats, _) => FlattenLength(stats); |stats| * 8 + 4 + 4
  }

  /** Stores `root` and its subtrees behind the first `slen` bytes of `dst`, and
      returns the new length; 0 for a missing node. */
  method TreeSerialize(dst: Buffer, root: Tree<Double>, path: byte, plen: nat, slen: nat) returns (len: nat)
    requires StorableTree(root) && slen <= dst.data.Length
    modifies dst
    ensures dst.data == old(dst.data) || fresh(dst.data)
    ensures dst.calls == old(dst.calls) + RecordCount(root)
    ensures (dst.data[..], len) == Store(old(dst.data[..]), root, plen, path, slen, dst.heap, old(dst.calls))
    decreases root
  {
    hide WithRecord, Shifted, Store;
    ghost var b, k := dst.data[..], dst.calls;
    if root.Empty? {
      StoreMissing(b, plen, path, slen, dst.heap, k);
      return 0;
    }
    len := PutRecord(dst, root.info, path, plen, slen);
    if root.info.Leaf? {
      StoreLeaf(b, root, plen, path, slen, dst.heap, k);
    } else {
      StoreSplitter(b, root, plen, path, slen, dst.heap, k);
      var nextPath := Shifted(path, 0);
      len := TreeSerialize(dst, root.left, nextPath, plen + 1, len);
      nextPath := Shifted(path, 1);
      len := TreeSerialize(dst, root.right, nextPath, plen + 1, len);
    }
  }

  // -------------------------------------------------------------- reading

  /** Reading at a position is reading from the front of the rest. */
  lemma TakeAt(s: Bytes, pos: nat, n: nat)
    requires pos + n <= |s|
    ensures Take(s[pos..], n) == Some((s[pos..pos + n], s[pos + n..]))
  {
    assert s[pos..][..n] == s[pos..pos + n] && s[pos..][n..] == s[pos + n..];
  }

  method ReadInt(s: Bytes, pos: nat) returns (x: int)
    requires pos + 4 <= |s|
    ensures TakeInt(s[pos..]) == Some((x, s[pos + 4..]))
  {
    TakeAt(s, pos, 4);
    x := DecodeInt(s[pos..pos + 4]);
  }

  method ReadDouble(s: Bytes, pos: nat) returns (d: Double)
    requires pos + 8 <= |s|
    ensures TakeDouble(s[pos..]) == Some((d, s[pos + 8..]))
  {
    TakeAt(s, pos, 8);
    d := s[pos..pos + 8];
  }

  /** Unpacks a path: bit i of the bytes becomes the turn i from the end. */
  method ReadPath(s: Bytes, pos: nat, len: nat) returns (path: string)
    requires pos + PathSize(len) <= |s|
    ensures path == DecodePath(len, s[pos..pos + PathSize(len)])
  {
    hide Bit;
    ghost var bytes := s[pos..pos + PathSize(len)];
    var a := new char[len + 1];
    a[0] := '.';
    var i := 0;
    while i < len
      invariant i <= len && a[0] == '.'
      invariant a[len - i + 1..] == Turns(i, bytes)
    {
      assert i / 8 < PathSize(len);
      assert bytes[i / 8] == s[pos + i / 8];
      a[len - i] := if Bit(s[pos + i / 8], i % 8) then 'r' else 'l';
      assert a[len - i..] == [a[len - i]] + a[len - i + 1..];
      i := i + 1;
    }
    assert a[..] == [a[0]] + a[1..];
    path := a[..];
  }

  /** Reads the C string at `pos`. */
  method ReadString(s: Bytes, pos: nat) returns (text: Bytes, pos': nat)
    requires pos <= |s| && TakeString(s[pos..]).Some?
    ensures pos < pos' <= |s| && TakeString(s[pos..]) == Some((text, s[pos'..]))
  {
    ghost var (t, rest) := TakeString(s[pos..]).value;
    TakeStringSplits(s[pos..]);
    hide TakeString;
    ghost var stop := pos + |t|;
    assert s[stop] == s[pos..][|t|] == 0;
    var end := pos;
    while s[end] != 0
      invariant pos <= end <= stop
      decreases stop - end
    {
      end := end + 1;
    }
    assert s[end] == s[pos..][end - pos];
    assert end == stop;
    text := s[pos..end];
    pos' := end + 1;
    assert text == t && s[pos'..] == rest;
  }

  method ReadDoubles(s: Bytes, pos: nat, n: nat) returns (values: seq<Double>, pos': nat)
    requires pos <= |s| && TakeDoubles(s[pos..], n).Some?
    ensures pos <= pos' <= |s| && TakeDoubles(s[pos..], n) == Some((values, s[pos'..]))
  {
    hide TakeDouble;
    ghost var (all, rest) := TakeDoubles(s[pos..], n).value;
    pos' := pos;
    values := [];
    var i := 0;
    while i < n
      invariant i <= n == |all| && pos' == pos + 8 * i <= |s|
      invariant values == all[..i]
      invariant TakeDoubles(s[pos'..], n - i) == Some((all[i..], rest))
    {
      var d := ReadDouble(s, pos');
      assert all[i..][0] == d && all[i..][1..] == all[i + 1..];
      values := values + [d];
      pos' := pos' + 8;
      i := i + 1;
    }
    assert all[..n] == all && rest == s[pos'..];
  }

  method ReadBody(s: Bytes, pos: nat, kind: byte, predVal: Double) returns (info: Label<Double>, pos': nat)
    requires pos <= |s| && ParseBody(kind, predVal, s[pos..]).Some?
    ensures pos <= pos' <= |s|
    ensures ParseBody(kind, predVal, s[pos..]) == Some((info, s[pos'..]))
  {
    hide DecodeInt, TakeInt, TakeDouble, Take, TakeString, TakeDoubles;
    if kind != N_LEAF {
      var attr;
      attr, pos' := ReadString(s, pos);
      TakeAt(s, pos', 4);
      pos' := pos' + 4;
      var val := ReadDouble(s, pos');
      pos' := pos' + 8;
      info := Numeric(attr, val);
    } else {
      var statsLen := ReadInt(s, pos);
      var statsTotal := ReadInt(s, pos + 4);
      var stats;
      stats, pos' := ReadDoubles(s, pos + 8, statsLen);
      info := Leaf(predVal, stats, statsTotal);
    }
  }

  /** Reads one record at `pos`: the path and what the node carries. */
  method ReadNode(s: Bytes, pos: nat) returns (path: string, info: Label<Double>, pos': nat)
    requires pos <= |s| && ParseRecord(s[pos..]).Some?
    ensures pos < pos' <= |s| && |path| >= 1
    ensures ParseRecord(s[pos..]) == Some((Entry(path, info), s[pos'..]))
  {
    hide DecodeInt, TakeInt, TakeDouble, Take, ParseBody, DecodePath, PathSize;
    var len := ReadInt(s, pos);
    pos' := pos + 4;
    TakeAt(s, pos', PathSize(len));
    path := ReadPath(s, pos', len);
    pos' := pos' + PathSize(len);
    TakeAt(s, pos', 1);
    var kind := s[pos'];
    pos' := pos' + 1;
    var predVal := ReadDouble(s, pos');
    pos' := pos' + 8;
    info, pos' := ReadBody(s, pos', kind, predVal);
  }

  /** Reads every record of `s` and links its node into the tree. The position
      grows with each record and ends exactly at the end of the buffer. */
  method TreeDeserialize(s: Bytes, root: Cell?<Double>) returns (newRoot: Cell?<Double>)
    requires ParseAll(s).Some? && ValidRoot(root)
    modifies ReprOf(root)
    ensures ValidRoot(newRoot) && fresh(ReprOf(newRoot) - old(ReprOf(root)))
    ensures ModelOf(newRoot) == ReadInto(old(ModelOf(root)), s)
  {
    hide ParseRecord;
    newRoot := root;
    var pos := 0;
    assert s[pos..] == s;
    while pos < |s|
      invariant pos <= |s| && ParseAll(s[pos..]).Some?
      invariant ValidRoot(newRoot) && fresh(ReprOf(newRoot) - old(ReprOf(root)))
      invariant ReadInto(ModelOf(newRoot), s[pos..]) == ReadInto(old(ModelOf(root)), s)
    {
      var path, info;
      ghost var before := s[pos..];
      path, info, pos := ReadNode(s, pos);
      var n := new Cell(info);
      var status;
      status, newRoot := TreeAdd(newRoot, path, n);
      assert ParseAll(before).value[1..] == ParseAll(s[pos..]).value;
    }
  }

  /** Saving a tree and loading it into an empty root, as the persistence
      callbacks do. Up to depth eight a complete tree comes back without what
      hung below its leaves, and any other tree as nothing. */
  method SaveAndLoad(t: Tree<Double>, heap: Allocator) returns (root: Cell?<Double>)
    requires StorableTree(t) && IsInt32(Depth(t))
    ensures ValidRoot(root)
    ensures ModelOf(root) == ReadBack(t, heap, Empty)
    ensures Depth(t) <= 8 ==> ModelOf(root) == if Check(t).Ok? then Prune(t) else Empty
  {
    hide ParseAll, Store, Prune;
    var dst := new Buffer(heap);
    assert dst.data[..] == [];
    var len := TreeSerialize(dst, t, 0, 0, 0);
    var s := dst.data[..len];
    assert s == dst.data[..][..len] == Saved(t, heap);
    SavedIsReadable(t, heap);
    root := TreeDeserialize(s, null);
    if Check(t).Err? {
      IncompleteTreeIsLost(t, heap);
    } else if Depth(t) <= 8 {
      RoundTrip(t, heap, Empty);
    }
  }
}
