/** Storing a tree and reading it back. */
module ForestRoundTrip {
  import opened Common
  import opened ForestTree
  import opened ForestRebuild
  import opened ForestCodec
  import opened ForestBytes
  import opened ForestStore

  /** Every saved string can be read, whatever the shape of the tree, its depth
      and the memory. */
  lemma SavedIsReadable(t: Tree<Double>, heap: Allocator)
    requires StorableTree(t) && IsInt32(Depth(t))
    ensures ParseAll(Saved(t, heap)).Some?
  {
    hide Saved, ParseAll, Encode, SeenEntries;
    if Check(t).Ok? {
      var mem := CompleteIsSaved(t, heap);
      ParseWhole(t, mem);
    } else {
      IncompleteReadsBelowRoot(t, heap);
    }
  }

  /** What the reader sees of a complete tree. */
  lemma ParseWhole(t: Tree<Double>, mem: Memory)
    requires StorableTree(t) && Check(t).Ok? && IsInt32(Depth(t))
    ensures ParseAll(Encode(t, 0, 0, 0, mem)) == Some(SeenEntries(t, 0, 0, 0, mem))
  {
    hide Encode, SeenEntries;
    var none: Bytes := [];
    ParseEncode(t, 0, 0, 0, mem, none);
    assert Encode(t, 0, 0, 0, mem) + none == Encode(t, 0, 0, 0, mem);
    var seen := SeenEntries(t, 0, 0, 0, mem);
    assert seen + [] == seen;
  }

  /** The tree after saving `t` and reading the string into the tree `root`. */
  ghost function ReadBack(t: Tree<Double>, heap: Allocator, root: Tree<Double>): Tree<Double>
    requires StorableTree(t) && IsInt32(Depth(t))
  {
    SavedIsReadable(t, heap);
    ReadInto(root, Saved(t, heap))
  }

  /** Up to depth eight the reader sees the pre-order list of a complete tree,
      and rebuilds the tree in place of whatever the root held before. */
  lemma RoundTrip(t: Tree<Double>, heap: Allocator, root: Tree<Double>)
    requires StorableTree(t) && Check(t).Ok? && Depth(t) <= 8
    ensures ParseAll(Saved(t, heap)) == Some(Preorder(t, "."))
    ensures ReadBack(t, heap, root) == Prune(t)
    ensures ReadBack(t, heap, root) == t <==> BareLeaves(t)
  {
    hide Saved, ParseAll, Encode, SeenEntries, Prune, BareLeaves;
    var mem := CompleteIsSaved(t, heap);
    ParseWhole(t, mem);
    SeenIsPreorder(t, 0, 0, 0, mem);
    assert DecodePath(0, PathBytes(0, 0, 0, mem)) == ".";
    InsertPreorder(root, ".", t);
    PruneIdentity(t);
  }

  // ------------------------------------------------------------ the bytes

  lemma IntBytes()
    ensures EncodeInt(0) == [0, 0, 0, 0] && EncodeInt(1) == [1, 0, 0, 0] && EncodeInt(2) == [2, 0, 0, 0]
    ensures EncodeInt(0x04030201) == [1, 2, 3, 4] && EncodeInt(-2) == [254, 255, 255, 255]
  {
  }

  /** The stored form of a splitter at the root: path length, kind, an unused
      prediction of zero, attribute, kind of splitter, threshold. */
  lemma RootBytes(attr: Bytes, val: Double, mem: Memory)
    requires 0 !in attr
    ensures Record(Numeric(attr, val), 0, 0, 0, mem)
            == [0, 0, 0, 0] + ([0] + ([0, 0, 0, 0, 0, 0, 0, 0] + (attr + ([0] + ([1, 0, 0, 0] + val)))))
  {
    hide EncodeInt;
    IntBytes();
    var rest := [Kind(Numeric(attr, val))] + (Prediction(Numeric(attr, val)) + Body(Numeric(attr, val)));
    assert [] + rest == rest;
  }

  /** The stored form of a leaf one turn from the root, with one count and a total
      of two: path length, turn, kind, prediction, number of counts, total, counts. */
  lemma LeafBytes(right: bool, predVal: Double, count: Double, at: nat, mem: Memory)
    ensures Record(Leaf(predVal, [count], 2), 1, if right then 1 else 0, at, mem)
            == [1, 0, 0, 0] + ([if right then 1 else 0] + ([1] + (predVal + ([1, 0, 0, 0] + ([2, 0, 0, 0] + count)))))
  {
    hide EncodeInt;
    IntBytes();
    assert Flatten([count]) == count;
    assert PathBytes(1, if right then 1 else 0, at, mem) == [if right then 1 else 0];
  }

  /** The string saved for a splitter with two leaves, byte by byte: the record
      of the splitter, of its left leaf, and of its right leaf. */
  lemma SavedBytes(attr: Bytes, val: Double, p: Double, x: Double, q: Double, y: Double, heap: Allocator)
    requires 0 !in attr
    ensures var t := Node(Numeric(attr, val), Single(Leaf(p, [x], 2)), Single(Leaf(q, [y], 2)));
            && StorableTree(t)
            && Saved(t, heap)
               == [0, 0, 0, 0] + ([0] + ([0, 0, 0, 0, 0, 0, 0, 0] + (attr + ([0] + ([1, 0, 0, 0] + val)))))
                + ([1, 0, 0, 0] + ([0] + ([1] + (p + ([1, 0, 0, 0] + ([2, 0, 0, 0] + x)))))
                 + ([1, 0, 0, 0] + ([1] + ([1] + (q + ([1, 0, 0, 0] + ([2, 0, 0, 0] + y)))))))
  {
    hide Record, Saved;
    var t := Node(Numeric(attr, val), Single(Leaf(p, [x], 2)), Single(Leaf(q, [y], 2)));
    var mem := CompleteIsSaved(t, heap);
    EncodeSplitter(t, 0, 0, 0, mem);
    var at1 := |Record(t.info, 0, 0, 0, mem)|;
    EncodeLeaf(t.left, 1, 0, at1, mem);
    var at2 := at1 + |Encode(t.left, 1, 0, at1, mem)|;
    EncodeLeaf(t.right, 1, 1, at2, mem);
    RootBytes(attr, val, mem);
    LeafBytes(false, p, x, at1, mem);
    LeafBytes(true, q, y, at2, mem);
  }

  /** Bits are turns, 1 for right, the lowest bit being the last turn; eight
      turns fill a byte. */
  lemma PathBits()
    ensures DecodePath(3, [1]) == ".llr" && DecodePath(3, [6]) == ".rrl"
    ensures PathSize(0) == 0 && PathSize(1) == 1 && PathSize(8) == 1 && PathSize(9) == 2
  {
    assert Turns(0, [1]) == "" && Turns(0, [6]) == "";
    assert Turns(1, [1]) == "r" && Turns(1, [6]) == "l";
    assert Turns(2, [1]) == "lr" && Turns(2, [6]) == "rl";
    assert Turns(3, [1]) == "llr" && Turns(3, [6]) == "rrl";
    assert "." + "llr" == ".llr" && "." + "rrl" == ".rrl";
  }

  // ----------------------------------------------------- missing children

  lemma {:induction false} InsertBelowNothing(entries: seq<Entry<Double>>)
    requires Rooted(entries) && BelowRoot(entries)
    ensures InsertAll(Empty, entries).1 == Empty
    decreases |entries|
  {
    if entries != [] {
      InsertBelowNothing(entries[1..]);
    }
  }

  /** A tree with a missing child is lost as a whole, from every memory: the
      record of the root is overwritten, and nothing else can be put into an
      empty tree. */
  lemma IncompleteTreeIsLost(t: Tree<Double>, heap: Allocator)
    requires StorableTree(t) && Check(t).Err? && IsInt32(Depth(t))
    ensures ReadBack(t, heap, Empty) == Empty
  {
    hide Saved, ParseAll;
    SavedIsReadable(t, heap);
    IncompleteReadsBelowRoot(t, heap);
    InsertBelowNothing(ParseAll(Saved(t, heap)).value);
  }

  const LONE_LEAF: Label<Double> := Leaf(ZERO, [], 0)

  /** A splitter with a leaf on its right and nothing on its left. */
  const GAP_ON_THE_LEFT: Tree<Double> := Node(Numeric([], ZERO), Empty, Single(LONE_LEAF))

  /** The smallest such tree: the saved string is the record of its leaf, which
      the reader cannot place. */
  lemma LoneLeafIsLost(heap: Allocator)
    ensures StorableTree(GAP_ON_THE_LEFT) && Check(GAP_ON_THE_LEFT).Err? && Depth(GAP_ON_THE_LEFT) == 1
    ensures ParseAll(Saved(GAP_ON_THE_LEFT, heap)) == Some([Entry(".r", LONE_LEAF)])
    ensures ReadBack(GAP_ON_THE_LEFT, heap, Empty) == Empty
  {
    hide Record, WithRecord, ParseRecord;
    var t, leaf := GAP_ON_THE_LEFT, Single(LONE_LEAF);
    var b1 := WithRecord([], t.info, 0, 0, 0, heap(0));
    var mem := Held(b1, heap(1));
    StoreSplitter([], t, 0, 0, 0, heap, 0);
    StoreMissing(b1, 1, Shifted(0, 0), |b1|, heap, 1);
    StoreLeaf(b1, leaf, 1, 1, 0, heap, 1);
    var record := Record(LONE_LEAF, 1, 1, 0, mem);
    assert WithRecord(b1, LONE_LEAF, 1, 1, 0, heap(1)) == record by {
      FromTheStart(b1, LONE_LEAF, 1, 1, heap(1));
    }
    assert Saved(t, heap) == record;
    var none: Bytes := [];
    ReadRecord(LONE_LEAF, 1, 1, 0, mem, none);
    assert record + none == record;
    RightOfRoot(mem);
    ParseAfterRecord(record, Entry(".r", LONE_LEAF), none);
    assert ParseAll(none) == Some([]) && [Entry(".r", LONE_LEAF)] + [] == [Entry(".r", LONE_LEAF)];
    IncompleteTreeIsLost(t, heap);
  }

  lemma RightOfRoot(mem: Memory)
    ensures DecodePath(1, PathBytes(1, 1, 0, mem)) == ".r"
  {
    assert PathBytes(1, 1, 0, mem) == [1];
    assert Turns(1, [1]) == "r";
    assert "." + "r" == ".r";
  }

  lemma FromTheStart(b: Bytes, info: Label<Double>, plen: nat, path: byte, mem: Memory)
    requires Storable(info)
    ensures WithRecord(b, info, plen, path, 0, mem) == Record(info, plen, path, 0, Held(b, mem))
  {
    hide Record;
    assert b[..0] + Record(info, plen, path, 0, Held(b, mem)) == Record(info, plen, path, 0, Held(b, mem));
  }

  // --------------------------------------------------- deeper than eight

  /** Paths of more than eight turns start with the turn `c`. */
  ghost predicate DeepEntriesStart(entries: seq<Entry<Double>>, c: char) {
    forall i | 0 <= i < |entries| :: |entries[i].path| >= 10 ==> entries[i].path[1] == c
  }

  ghost predicate DeepNodesStart(t: Tree<Double>, c: char) {
    forall p: string | |p| >= 10 && Get(t, p).Node? :: p[1] == c
  }

  lemma {:induction false} AddOnlyAddsItself(t: Tree<Double>, q: string, info: Label<Double>, p: string)
    requires |q| >= 1 && |p| >= 1 && Get(Add(t, q, Single(info)).1, p).Node?
    ensures p[1..] == q[1..] || Get(t, p).Node?
    decreases |q|
  {
    if |q| > 1 && |p| > 1 && t.Node? && q[1] in {'l', 'r'} && p[1] == q[1] {
      AddOnlyAddsItself(if q[1] == 'r' then t.right else t.left, q[1..], info, p[1..]);
      assert p[1..] == [p[1]] + p[1..][1..] && q[1..] == [q[1]] + q[1..][1..];
    }
  }

  lemma {:induction false} InsertKeepsDeepStart(t: Tree<Double>, entries: seq<Entry<Double>>, c: char)
    requires Rooted(entries) && DeepEntriesStart(entries, c) && DeepNodesStart(t, c)
    ensures DeepNodesStart(InsertAll(t, entries).1, c)
    decreases |entries|
  {
    if entries != [] {
      var q, info := entries[0].path, entries[0].info;
      var t1 := Add(t, q, Single(info)).1;
      forall p: string | |p| >= 10 && Get(t1, p).Node?
        ensures p[1] == c
      {
        AddOnlyAddsItself(t, q, info, p);
        assert p[1] == p[1..][0];
        if p[1..] == q[1..] {
          assert q[1] == q[1..][0];
        }
      }
      InsertKeepsDeepStart(t1, entries[1..], c);
    }
  }

  /** The memory that holds `b` everywhere. */
  function Filled(b: byte): Memory {
    _ => b
  }

  lemma DeepPathStart(plen: nat, path: byte, at: nat, ones: bool)
    requires plen >= 9
    ensures DecodePath(plen, PathBytes(plen, path, at, Filled(if ones then 255 else 0)))[1]
            == if ones then 'r' else 'l'
  {
    var mem := Filled(if ones then 255 else 0);
    var bytes := PathBytes(plen, path, at, mem);
    var i := plen - 1;
    assert i / 8 >= 1 && bytes[i / 8] == mem(at + 5 + (i / 8 - 1));
    BitOfZero(i % 8);
    assert Pow2(8) == 256;
    BitOfOnes(8, i % 8);
  }

  lemma HeadDeepStart(info: Label<Double>, plen: nat, path: byte, at: nat, ones: bool)
    ensures var mem := Filled(if ones then 255 else 0);
            DeepEntriesStart([Entry(DecodePath(plen, PathBytes(plen, path, at, mem)), info)], if ones then 'r' else 'l')
  {
    if plen >= 9 {
      DeepPathStart(plen, path, at, ones);
    }
  }

  lemma DeepStartConcat(a: seq<Entry<Double>>, b: seq<Entry<Double>>, c: char)
    requires DeepEntriesStart(a, c) && DeepEntriesStart(b, c)
    ensures DeepEntriesStart(a + b, c)
  {
  }

  lemma {:induction false} SeenDeepStart(t: Tree<Double>, plen: nat, path: byte, at: nat, ones: bool)
    requires StorableTree(t) && Check(t).Ok?
    ensures DeepEntriesStart(SeenEntries(t, plen, path, at, Filled(if ones then 255 else 0)), if ones then 'r' else 'l')
  {
    hide DecodePath, PathBytes, Record, Encode, Shifted, DeepEntriesStart;
    var mem, c := Filled(if ones then 255 else 0), if ones then 'r' else 'l';
    var head := [Entry(DecodePath(plen, PathBytes(plen, path, at, mem)), t.info)];
    assert DeepEntriesStart(head, c) by {
      HeadDeepStart(t.info, plen, path, at, ones);
    }
    if !t.info.Leaf? {
      var at1 := at + |Record(t.info, plen, path, at, mem)|;
      var at2 := at1 + |Encode(t.left, plen + 1, Shifted(path, 0), at1, mem)|;
      SeenDeepStart(t.left, plen + 1, Shifted(path, 0), at1, ones);
      SeenDeepStart(t.right, plen + 1, Shifted(path, 1), at2, ones);
      var left := SeenEntries(t.left, plen + 1, Shifted(path, 0), at1, mem);
      var right := SeenEntries(t.right, plen + 1, Shifted(path, 1), at2, mem);
      DeepStartConcat(left, right, c);
      DeepStartConcat(head, left + right, c);
    }
  }

  lemma {:induction false} DeepestPath(t: Tree<Double>) returns (p: string)
    requires Check(t).Ok?
    ensures |p| == Depth(t) + 1 && Get(Prune(t), p).Node? && Get(t, p).Node?
  {
    p := ".";
    if !t.info.Leaf? {
      var right := Depth(t.left) <= Depth(t.right);
      var child := if right then t.right else t.left;
      var below := DeepestPath(child);
      p := (if right then ".r" else ".l") + below[1..];
      assert p[1..] == [p[1]] + below[1..];
      GetIgnoresRootChar(Prune(child), p[1..], below);
      GetIgnoresRootChar(child, p[1..], below);
    }
  }

  lemma {:induction false} GetIgnoresRootChar(t: Tree<Double>, p: string, q: string)
    requires |p| >= 1 && |q| >= 1 && p[1..] == q[1..]
    ensures Get(t, p) == Get(t, q)
  {
    if |p| > 1 {
      assert p[1] == p[1..][0] == q[1..][0] == q[1];
    }
  }

  /** With memory full of zeros every node deeper than eight can only reappear
      under the left child of the root, and with memory full of ones under the
      right child; a deeper tree is lost under one of the two. */
  lemma DeepTreeIsLost(t: Tree<Double>) returns (heap: Allocator)
    requires StorableTree(t) && Check(t).Ok? && IsInt32(Depth(t)) && Depth(t) > 8
    ensures ReadBack(t, heap, Empty) != Prune(t) && ReadBack(t, heap, Empty) != t
  {
    hide Saved, ParseAll, SeenEntries, Encode, Filled;
    var p := DeepestPath(t);
    var ones := p[1] != 'r';
    var mem := Filled(if ones then 255 else 0);
    heap := Always(mem);
    SavedFromAlways(t, mem);
    ParseWhole(t, mem);
    SeenDeepStart(t, 0, 0, 0, ones);
    InsertKeepsDeepStart(Empty, SeenEntries(t, 0, 0, 0, mem), if ones then 'r' else 'l');
    assert DeepNodesStart(ReadBack(t, heap, Empty), if ones then 'r' else 'l');
  }

  /** The trees that the byte format brings back: the empty one, and the complete
      ones without nodes below a leaf or more than eight turns from the root. */
  predicate ComesBack(t: Tree<Double>) {
    t.Empty? || (Check(t).Ok? && BareLeaves(t) && Depth(t) <= 8)
  }

  /** The exact reach of the byte format: a tree comes back from every string
      the serializer can produce if and only if it is empty, or has no missing
      child, no node below a leaf, and none more than eight turns from the root,
      which is what one path byte can tell apart. */
  lemma RoundTripIff(t: Tree<Double>)
    requires StorableTree(t) && IsInt32(Depth(t))
    ensures (forall heap :: ReadBack(t, heap, Empty) == t) <==> ComesBack(t)
  {
    hide ReadBack;
    forall heap: Allocator
      ensures Check(t).Err? ==> ReadBack(t, heap, Empty) == Empty
      ensures Check(t).Ok? && Depth(t) <= 8 ==> (ReadBack(t, heap, Empty) == t <==> BareLeaves(t))
    {
      if Check(t).Err? {
        IncompleteTreeIsLost(t, heap);
      } else if Depth(t) <= 8 {
        RoundTrip(t, heap, Empty);
      }
    }
    if Check(t).Ok? && Depth(t) > 8 {
      var heap := DeepTreeIsLost(t);
    } else {
      assert ReadBack(t, Always(Filled(0)), Empty) == t ==> ComesBack(t);
    }
  }
}
