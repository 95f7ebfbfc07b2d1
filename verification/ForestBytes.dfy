/** The stored form of a tree: what the serializer writes, what the reader
    understands, and when the second undoes the first. */
module ForestBytes {
  import opened Common
  import opened ForestTree
  import opened ForestRebuild
  import opened ForestCodec

  const N_NODE: byte := 0
  const N_LEAF: byte := 1
  const S_NUMERICAL := 1
  const ZERO: Double := [0, 0, 0, 0, 0, 0, 0, 0]

  /** What memory happens to hold at each offset before it is written. */
  type Memory = nat -> byte

  // ---------------------------------------------------------------- paths

  /** Bytes that hold a path of `plen` turns. */
  function PathSize(plen: nat): nat {
    plen / 8 + if plen % 8 != 0 then 1 else 0
  }

  function Turn(bytes: Bytes, i: nat): char
    requires i / 8 < |bytes|
  {
    if Bit(bytes[i / 8], i % 8) then 'r' else 'l'
  }

  /** The turns held by bits n - 1 down to 0. */
  function Turns(n: nat, bytes: Bytes): (turns: string)
    requires |bytes| >= PathSize(n)
    ensures |turns| == n
  {
    if n == 0 then "" else [Turn(bytes, n - 1)] + Turns(n - 1, bytes)
  }

  /** The path read from `bytes`: bit i, counted from the low end, is the turn
      i levels above the node. */
  function DecodePath(plen: nat, bytes: Bytes): (path: string)
    requires |bytes| >= PathSize(plen)
    ensures |path| == plen + 1
  {
    "." + Turns(plen, bytes)
  }

  /** The path bytes of a record that starts at offset `at`: only the first is
      written, the others keep what the memory held. */
  function PathBytes(plen: nat, path: byte, at: nat, mem: Memory): (b: Bytes)
    ensures |b| == PathSize(plen)
  {
    if plen == 0 then []
    else [path] + seq(PathSize(plen) - 1, k requires 0 <= k => mem(at + 5 + k))
  }

  // -------------------------------------------------------------- writing

  /** Nodes the format can hold: numeric splitters with a C string for their
      attribute, and leaves whose counts are ints. */
  predicate Storable(info: Label<Double>) {
    match info
    case Numeric(attr, _) => 0 !in attr
    case Categorical(_, _) => false
    case Leaf(_, stats, total) => IsInt32(|stats|) && IsInt32(total)
  }

  predicate StorableTree(t: Tree<Double>) {
    t.Node? ==> Storable(t.info) && (!t.info.Leaf? ==> StorableTree(t.left) && StorableTree(t.right))
  }

  /** What follows the prediction of a splitter or a leaf. */
  function Body(info: Label<Double>): Bytes
    requires Storable(info)
  {
    match info
    case Numeric(attr, val) => attr + ([0] + (EncodeInt(S_NUMERICAL) + val))
    case Leaf(_, stats, total) => EncodeInt(|stats|) + (EncodeInt(total) + Flatten(stats))
  }

  function Kind(info: Label<Double>): byte {
    if info.Leaf? then N_LEAF else N_NODE
  }

  /** The prediction field; the constructors of splitters set it to 0. */
  function Prediction(info: Label<Double>): Double {
    if info.Leaf? then info.predVal else ZERO
  }

  function Record(info: Label<Double>, plen: nat, path: byte, at: nat, mem: Memory): Bytes
    requires Storable(info)
  {
    EncodeInt(plen) + (PathBytes(plen, path, at, mem) + ([Kind(info)] + (Prediction(info) + Body(info))))
  }

  /** The path byte of a child. */
  function Shifted(path: byte, turn: byte): byte
    requires turn < 2
  {
    2 * path % 256 + turn
  }

  /** The bytes that a complete tree takes from offset `at` on. */
  function Encode(t: Tree<Double>, plen: nat, path: byte, at: nat, mem: Memory): Bytes
    requires StorableTree(t) && Check(t).Ok?
  {
    var record := Record(t.info, plen, path, at, mem);
    if t.info.Leaf? then record
    else
      var left := Encode(t.left, plen + 1, Shifted(path, 0), at + |record|, mem);
      record + (left + Encode(t.right, plen + 1, Shifted(path, 1), at + |record| + |left|, mem))
  }

  // -------------------------------------------------------------- reading

  /** The body of a record; None where a read would leave the buffer or the
      splitter is not numeric. */
  function ParseBody(kind: byte, predVal: Double, s: Bytes): (r: Option<(Label<Double>, Bytes)>)
    ensures r.Some? ==> Leaves(s, r.value.1)
  {
    if kind != N_LEAF then
      var (attr, s1) :- TakeString(s);
      if s1 == [] || s1[0] != S_NUMERICAL then None
      else
        var (_, s2) :- Take(s1, 4);
        var (val, s3) :- TakeDouble(s2);
        Some((Numeric(attr, val), s3))
    else
      var (statsLen, s1) :- TakeInt(s);
      var (total, s2) :- TakeInt(s1);
      if statsLen < 0 then None
      else
        var (stats, s3) :- TakeDoubles(s2, statsLen);
        Some((Leaf(predVal, stats, total), s3))
  }

  /** The record at the start of `s`. */
  function ParseRecord(s: Bytes): (r: Option<(Entry<Double>, Bytes)>)
    ensures r.Some? ==> |r.value.1| < |s| && Leaves(s, r.value.1) && |r.value.0.path| >= 1
  {
    var (plen, s1) :- TakeInt(s);
    if plen < 0 then None
    else
      var (pathBytes, s2) :- Take(s1, PathSize(plen));
      var (kind, s3) :- Take(s2, 1);
      var (predVal, s4) :- TakeDouble(s3);
      var (info, s5) :- ParseBody(kind[0], predVal, s4);
      Some((Entry(DecodePath(plen, pathBytes), info), s5))
  }

  function ParseAll(s: Bytes): (r: Option<seq<Entry<Double>>>)
    ensures r.Some? ==> Rooted(r.value)
    decreases |s|
  {
    if s == [] then Some([])
    else
      var (entry, rest) :- ParseRecord(s);
      var entries :- ParseAll(rest);
      Some([entry] + entries)
  }

  /** The tree the reader builds below `root` from the bytes `s`. */
  ghost function ReadInto(root: Tree<Double>, s: Bytes): Tree<Double>
    requires ParseAll(s).Some?
  {
    InsertAll(root, ParseAll(s).value).1
  }

  // ------------------------------------------------------ reading it back

  lemma Regroup<T>(a: seq<T>, b: seq<T>, c: seq<T>)
    ensures (a + b) + c == a + (b + c)
  {
  }

  lemma Regroup4<T>(a: seq<T>, b: seq<T>, c: seq<T>, d: seq<T>)
    ensures (a + (b + c)) + d == a + (b + (c + d))
  {
  }

  lemma ReadBody(info: Label<Double>, rest: Bytes)
    requires Storable(info)
    ensures ParseBody(Kind(info), Prediction(info), Body(info) + rest) == Some((info, rest))
  {
    match info
    case Numeric(attr, val) =>
      var kind := EncodeInt(S_NUMERICAL);
      Regroup(attr, [0] + (kind + val), rest);
      Regroup([0], kind + val, rest);
      Regroup(kind, val, rest);
      TakeStringBack(attr, kind + (val + rest));
      TakeBack(kind, val + rest);
      TakeDoubleBack(val, rest);
    case Leaf(predVal, stats, total) =>
      hide EncodeInt, DecodeInt;
      var n, m := EncodeInt(|stats|), EncodeInt(total);
      Regroup(n, m + Flatten(stats), rest);
      Regroup(m, Flatten(stats), rest);
      TakeIntBack(|stats|, m + (Flatten(stats) + rest));
      TakeIntBack(total, Flatten(stats) + rest);
      TakeDoublesBack(stats, rest);
  }

  lemma ReadRecord(info: Label<Double>, plen: nat, path: byte, at: nat, mem: Memory, rest: Bytes)
    requires Storable(info) && IsInt32(plen)
    ensures ParseRecord(Record(info, plen, path, at, mem) + rest)
            == Some((Entry(DecodePath(plen, PathBytes(plen, path, at, mem)), info), rest))
  {
    hide EncodeInt, DecodeInt, PathBytes, Body, ParseBody, DecodePath;
    var pathBytes := PathBytes(plen, path, at, mem);
    var kind, pred, body := [Kind(info)], Prediction(info), Body(info);
    Regroup(EncodeInt(plen), pathBytes + (kind + (pred + body)), rest);
    Regroup(pathBytes, kind + (pred + body), rest);
    Regroup(kind, pred + body, rest);
    Regroup(pred, body, rest);
    TakeIntBack(plen, pathBytes + (kind + (pred + (body + rest))));
    TakeBack(pathBytes, kind + (pred + (body + rest)));
    TakeBack(kind, pred + (body + rest));
    TakeDoubleBack(pred, body + rest);
    ReadBody(info, rest);
  }

  /** The entries the reader sees, path bytes decoded as they lie in memory. */
  function SeenEntries(t: Tree<Double>, plen: nat, path: byte, at: nat, mem: Memory): seq<Entry<Double>>
    requires StorableTree(t) && Check(t).Ok?
  {
    var head := [Entry(DecodePath(plen, PathBytes(plen, path, at, mem)), t.info)];
    if t.info.Leaf? then head
    else
      var at1 := at + |Record(t.info, plen, path, at, mem)|;
      var at2 := at1 + |Encode(t.left, plen + 1, Shifted(path, 0), at1, mem)|;
      head + (SeenEntries(t.left, plen + 1, Shifted(path, 0), at1, mem)
              + SeenEntries(t.right, plen + 1, Shifted(path, 1), at2, mem))
  }

  function Depth<D>(t: Tree<D>): nat {
    if t.Empty? || t.info.Leaf? then 0
    else 1 + if Depth(t.left) > Depth(t.right) then Depth(t.left) else Depth(t.right)
  }

  lemma ParseAfterRecord(record: Bytes, entry: Entry<Double>, rest: Bytes)
    requires ParseRecord(record + rest) == Some((entry, rest)) && ParseAll(rest).Some?
    ensures ParseAll(record + rest) == Some([entry] + ParseAll(rest).value)
  {
  }

  lemma ParseNode(record: Bytes, left: Bytes, right: Bytes, rest: Bytes,
                  entry: Entry<Double>, seenLeft: seq<Entry<Double>>, seenRight: seq<Entry<Double>>)
    requires ParseAll(rest).Some?
    requires ParseRecord(record + (left + (right + rest))) == Some((entry, left + (right + rest)))
    requires ParseAll(left + (right + rest)) == Some(seenLeft + (seenRight + ParseAll(rest).value))
    ensures ParseAll((record + (left + right)) + rest)
            == Some(([entry] + (seenLeft + seenRight)) + ParseAll(rest).value)
  {
    hide ParseRecord, ParseAll;
    Regroup4(record, left, right, rest);
    ParseAfterRecord(record, entry, left + (right + rest));
    Regroup4([entry], seenLeft, seenRight, ParseAll(rest).value);
  }

  lemma {:induction false} ParseEncode(t: Tree<Double>, plen: nat, path: byte, at: nat, mem: Memory, rest: Bytes)
    requires StorableTree(t) && Check(t).Ok? && IsInt32(plen + Depth(t)) && ParseAll(rest).Some?
    ensures ParseAll(Encode(t, plen, path, at, mem) + rest)
            == Some(SeenEntries(t, plen, path, at, mem) + ParseAll(rest).value)
  {
    hide Record, PathBytes, DecodePath, ParseRecord, ParseAll, Shifted;
    var record := Record(t.info, plen, path, at, mem);
    var entry := Entry(DecodePath(plen, PathBytes(plen, path, at, mem)), t.info);
    if t.info.Leaf? {
      ReadRecord(t.info, plen, path, at, mem, rest);
      ParseAfterRecord(record, entry, rest);
    } else {
      var at1 := at + |record|;
      var left := Encode(t.left, plen + 1, Shifted(path, 0), at1, mem);
      var right := Encode(t.right, plen + 1, Shifted(path, 1), at1 + |left|, mem);
      ParseEncode(t.right, plen + 1, Shifted(path, 1), at1 + |left|, mem, rest);
      ParseEncode(t.left, plen + 1, Shifted(path, 0), at1, mem, right + rest);
      ReadRecord(t.info, plen, path, at, mem, left + (right + rest));
      var seenLeft := SeenEntries(t.left, plen + 1, Shifted(path, 0), at1, mem);
      var seenRight := SeenEntries(t.right, plen + 1, Shifted(path, 1), at1 + |left|, mem);
      ParseNode(record, left, right, rest, entry, seenLeft, seenRight);
    }
  }

  // -------------------------------------------------- depth eight or less

  lemma {:induction false} TurnsShift(n: nat, short: Bytes, path: byte, turn: byte)
    requires turn < 2 && n < 8 && (n > 0 ==> short == [path])
    ensures Turns(n + 1, [Shifted(path, turn)]) == Turns(n, short) + (if turn == 1 then "r" else "l")
  {
    ShiftBit(path, turn, n);
    if n > 0 {
      TurnsShift(n - 1, short, path, turn);
    }
  }

  /** One byte holds a path of up to eight turns, and shifting the next turn
      into it extends the path by that turn. */
  lemma ShiftExtendsPath(plen: nat, path: byte, turn: byte, at: nat, at': nat, mem: Memory)
    requires plen < 8 && turn < 2
    ensures DecodePath(plen + 1, PathBytes(plen + 1, Shifted(path, turn), at', mem))
            == DecodePath(plen, PathBytes(plen, path, at, mem)) + (if turn == 1 then "r" else "l")
  {
    hide Turns, Shifted;
    var short := PathBytes(plen, path, at, mem);
    TurnsShift(plen, short, path, turn);
    assert PathBytes(plen + 1, Shifted(path, turn), at', mem) == [Shifted(path, turn)];
    Regroup(".", Turns(plen, short), if turn == 1 then "r" else "l");
  }

  lemma {:induction false} SeenIsPreorder(t: Tree<Double>, plen: nat, path: byte, at: nat, mem: Memory)
    requires StorableTree(t) && Check(t).Ok? && plen + Depth(t) <= 8
    ensures SeenEntries(t, plen, path, at, mem) == Preorder(t, DecodePath(plen, PathBytes(plen, path, at, mem)))
  {
    hide Record, PathBytes, DecodePath, Shifted, Encode;
    if !t.info.Leaf? {
      var at1 := at + |Record(t.info, plen, path, at, mem)|;
      var at2 := at1 + |Encode(t.left, plen + 1, Shifted(path, 0), at1, mem)|;
      ShiftExtendsPath(plen, path, 0, at, at1, mem);
      ShiftExtendsPath(plen, path, 1, at, at2, mem);
      SeenIsPreorder(t.left, plen + 1, Shifted(path, 0), at1, mem);
      SeenIsPreorder(t.right, plen + 1, Shifted(path, 1), at2, mem);
    }
  }
}
