/** The flattened form of a tree: an array of slots in pre-order whose links are
    indices, and the loop that walks it instead of the recursive classifier. */
module FastTrees {
  import opened Common
  import opened ForestTree
  import opened ForestRebuild

  datatype FastNode = FastNode(key: int, val: real, left: int, right: int)

  const FAST_TREE_SLOTS := 1024

  function Size<D>(t: Tree<D>): nat {
    if t.Empty? then 0 else 1 + Size(t.left) + Size(t.right)
  }

  /** Every splitter has a first value, as the constructors make it: splitting a
      text at colons gives at least one piece. */
  predicate HasValues(info: Label<real>) {
    info.Categorical? ==> info.vals != []
  }

  predicate Constructed(t: Tree<real>) {
    t.Node? ==> HasValues(t.info) && Constructed(t.left) && Constructed(t.right)
  }

  /** The first value of a splitter, which is the threshold of a numeric one. */
  function FirstSplitValue(info: Label<real>): real
    requires !info.Leaf? && HasValues(info)
  {
    if info.Numeric? then info.val else info.vals[0]
  }

  predicate Copied(num: Numerals, info: Label<real>, slot: FastNode)
    requires HasValues(info)
  {
    !info.Leaf? ==> slot.key == num.atoi(info.attr) && slot.val == FirstSplitValue(info)
  }

  /** `slots` hold `t` from index `i` on: the node, its left subtree, its right
      subtree, so that every link points forward. For a leaf the code reads its
      key and value through fields that no constructor sets; the model takes
      such a read to yield some number. */
  ghost predicate Laid(num: Numerals, slots: seq<FastNode>, t: Tree<real>, i: nat) {
    t.Node? ==>
      && i + Size(t) <= |slots|
      && HasValues(t.info) && Copied(num, t.info, slots[i])
      && slots[i].left == (if t.left.Empty? then -1 else i + 1)
      && slots[i].right == (if t.right.Empty? then -1 else i + 1 + Size(t.left))
      && Laid(num, slots, t.left, i + 1)
      && Laid(num, slots, t.right, i + 1 + Size(t.left))
  }

  lemma {:induction false} LaidFrame(num: Numerals, a: seq<FastNode>, b: seq<FastNode>, t: Tree<real>, i: nat)
    requires Laid(num, a, t, i) && i + Size(t) <= |a| && |a| <= |b|
    requires forall k | i <= k < i + Size(t) :: a[k] == b[k]
    ensures Laid(num, b, t, i)
  {
    if t.Node? {
      LaidFrame(num, a, b, t.left, i + 1);
      LaidFrame(num, a, b, t.right, i + 1 + Size(t.left));
    }
  }

  /** A slot after the link to a child is stored in it. */
  function Linked(slot: FastNode, isLeft: bool, child: int): FastNode {
    if isLeft then slot.(left := child) else slot.(right := child)
  }

  /** What filling the slots after `f` does to the others: only the parent of
      the new subtree changes, and only if there is one to link. */
  ghost predicate Extends(before: seq<FastNode>, after: seq<FastNode>, f: int, parent: int, isLeft: bool, linked: bool)
  {
    && |after| == |before|
    && (forall k | 0 <= k <= f && k < |before| && k != parent :: after[k] == before[k])
    && (0 <= parent < |before| ==>
          after[parent] == if linked then Linked(before[parent], isLeft, f + 1) else before[parent])
  }

  /** A node's slot and the slots of its subtrees make up the slots of the tree. */
  lemma Assemble(num: Numerals, s0: seq<FastNode>, s1: seq<FastNode>, s2: seq<FastNode>, t: Tree<real>, i: nat)
    requires t.Node? && i + Size(t) <= |s0| && s0[i].left == -1 && s0[i].right == -1
    requires HasValues(t.info) && Copied(num, t.info, s0[i])
    requires Extends(s0, s1, i, i, true, t.left.Node?) && Laid(num, s1, t.left, i + 1)
    requires Extends(s1, s2, i + Size(t.left), i, false, t.right.Node?)
    requires Laid(num, s2, t.right, i + 1 + Size(t.left))
    ensures Laid(num, s2, t, i)
  {
    LaidFrame(num, s1, s2, t.left, i + 1);
  }

  lemma ExtendsTwice(s0: seq<FastNode>, s1: seq<FastNode>, s2: seq<FastNode>, i: nat, n: nat, l: bool, r: bool)
    requires i < |s0| && Extends(s0, s1, i, i, true, l) && Extends(s1, s2, i + n, i, false, r)
    ensures |s2| == |s0| && forall k | 0 <= k < i :: s2[k] == s0[k]
  {
  }

  lemma ExtendsFurther(before: seq<FastNode>, s0: seq<FastNode>, after: seq<FastNode>,
                       f: int, parent: int, isLeft: bool)
    requires -1 <= parent <= f && f + 1 < |before|
    requires Extends(before, s0, f, parent, isLeft, true)
    requires |after| == |s0| && forall k | 0 <= k < f + 1 :: after[k] == s0[k]
    ensures Extends(before, after, f, parent, isLeft, true)
  {
  }

  /** Placing a node and then its two subtrees lays out the tree. */
  lemma Grown(num: Numerals, t: Tree<real>, before: seq<FastNode>, s0: seq<FastNode>, s1: seq<FastNode>,
              s2: seq<FastNode>, i: nat, parent: int, isLeft: bool)
    requires -1 <= parent < i && t.Node? && i + Size(t) <= |s0| == |before| && s0[i].left == -1 && s0[i].right == -1
    requires HasValues(t.info) && Copied(num, t.info, s0[i])
    requires Extends(before, s0, i - 1, parent, isLeft, true)
    requires Extends(s0, s1, i, i, true, t.left.Node?) && Laid(num, s1, t.left, i + 1)
    requires Extends(s1, s2, i + Size(t.left), i, false, t.right.Node?)
    requires Laid(num, s2, t.right, i + 1 + Size(t.left))
    ensures Laid(num, s2, t, i) && Extends(before, s2, i - 1, parent, isLeft, true)
  {
    hide Laid, Extends;
    Assemble(num, s0, s1, s2, t, i);
    ExtendsTwice(s0, s1, s2, i, Size(t.left), t.left.Node?, t.right.Node?);
    ExtendsFurther(before, s0, s2, i - 1, parent, isLeft);
  }

  class FastTree {
    var slots: array<FastNode>
    var fastIndex: int

    constructor ()
      ensures slots.Length == FAST_TREE_SLOTS && fastIndex == -1 && fresh(slots)
    {
      slots := new FastNode[FAST_TREE_SLOTS](_ => FastNode(0, 0.0, 0, 0));
      fastIndex := -1;
    }

    /** Fills the next slot from one node and links it to its parent. */
    method Place(num: Numerals, info: Label<real>, parent: int, isLeft: bool)
      requires HasValues(info)
      requires -1 <= parent <= fastIndex && fastIndex + 1 < slots.Length
      modifies this`fastIndex, slots
      ensures fastIndex == old(fastIndex) + 1
      ensures slots[fastIndex].left == -1 && slots[fastIndex].right == -1
      ensures Copied(num, info, slots[fastIndex])
      ensures Extends(old(slots[..]), slots[..], old(fastIndex), parent, isLeft, true)
    {
      fastIndex := fastIndex + 1;
      var key: int, val: real := *, *;
      if !info.Leaf? {
        key, val := num.atoi(info.attr), FirstSplitValue(info);
      }
      slots[fastIndex] := FastNode(key, val, -1, -1);
      if parent >= 0 {
        slots[parent] := Linked(slots[parent], isLeft, fastIndex);
      }
    }

    /** Copies `root` into the slots after `fastIndex` and links it to its parent. */
    method Gen(num: Numerals, root: Tree<real>, parent: int, isLeft: bool)
      requires Constructed(root)
      requires -1 <= parent <= fastIndex && fastIndex + Size(root) < slots.Length
      modifies this`fastIndex, slots
      ensures fastIndex == old(fastIndex) + Size(root)
      ensures Laid(num, slots[..], root, old(fastIndex) + 1)
      ensures Extends(old(slots[..]), slots[..], old(fastIndex), parent, isLeft, root.Node?)
      decreases root
    {
      if root.Node? {
        ghost var before := slots[..];
        Place(num, root.info, parent, isLeft);
        hide Laid, Extends, Linked;
        var nextParent := fastIndex;
        ghost var s0 := slots[..];
        Gen(num, root.left, nextParent, true);
        ghost var s1 := slots[..];
        Gen(num, root.right, nextParent, false);
        Grown(num, root, before, s0, s1, slots[..], nextParent, parent, isLeft);
      }
    }

    /** Builds the whole array, with the root in slot 0. */
    method GenFastTree(num: Numerals, root: Tree<real>)
      requires Constructed(root) && Size(root) <= FAST_TREE_SLOTS
      modifies this
      ensures fresh(slots) && slots.Length == FAST_TREE_SLOTS
      ensures Laid(num, slots[..], root, 0)
    {
      fastIndex := -1;
      slots := new FastNode[FAST_TREE_SLOTS](_ => FastNode(0, 0.0, 0, 0));
      Gen(num, root, -1, false);
    }
  }

  function NumericGetValue(fv: FeatureVec, nkey: int): real
    requires ValidFeatureVec(fv)
  {
    if 0 < nkey < MAX_NUM_FIELDS then fv.numericFields[nkey] else 0.0
  }

  // ------------------------------------------------------------ the walk

  /** The side a fast turn takes from a slot. */
  function NextSlot(fv: FeatureVec, slot: FastNode): int
    requires ValidFeatureVec(fv)
  {
    if NumericGetValue(fv, slot.key) <= slot.val then slot.left else slot.right
  }

  /** Where the fast loop stops when it starts at slot `i`; None if a link leads
      out of the array or back. */
  function Walk(fv: FeatureVec, slots: seq<FastNode>, i: nat): (r: Option<nat>)
    requires ValidFeatureVec(fv) && i < |slots|
    ensures r.Some? ==> i <= r.value < |slots|
    decreases |slots| - i
  {
    if slots[i].left <= 0 && slots[i].right <= 0 then Some(i)
    else
      var next := NextSlot(fv, slots[i]);
      if i < next < |slots| then Walk(fv, slots, next) else None
  }

  /** Walks the slots until one without children, and returns its index. */
  method FastTreeClassify(fv: FeatureVec, slots: seq<FastNode>) returns (slot: nat, val: real)
    requires ValidFeatureVec(fv) && slots != [] && Walk(fv, slots, 0).Some?
    ensures Walk(fv, slots, 0) == Some(slot) && slot < |slots| && val == slots[slot].val
  {
    var i := 0;
    while slots[i].left > 0 || slots[i].right > 0
      invariant 0 <= i < |slots| && Walk(fv, slots, i) == Walk(fv, slots, 0)
      decreases |slots| - i
    {
      var attrVal := NumericGetValue(fv, slots[i].key);
      if attrVal <= slots[i].val {
        i := slots[i].left;
      } else {
        i := slots[i].right;
      }
    }
    return i, slots[i].val;
  }

  /** Whether the fast loop turns left at a splitter. */
  predicate FastTurnsLeft(num: Numerals, fv: FeatureVec, info: Label<real>)
    requires ValidFeatureVec(fv) && !info.Leaf? && HasValues(info)
  {
    NumericGetValue(fv, num.atoi(info.attr)) <= FirstSplitValue(info)
  }

  /** The leaf that fast turns lead to. */
  function FastLeaf(num: Numerals, fv: FeatureVec, t: Tree<real>): Tree<real>
    requires ValidFeatureVec(fv) && Constructed(t)
  {
    if t.Empty? || t.info.Leaf? then t
    else if FastTurnsLeft(num, fv, t.info) then FastLeaf(num, fv, t.left)
    else FastLeaf(num, fv, t.right)
  }

  /** Its slot, for a tree that lies from slot `i` on. */
  function FastIndex(num: Numerals, fv: FeatureVec, t: Tree<real>, i: nat): (r: nat)
    requires ValidFeatureVec(fv) && Constructed(t)
    ensures i <= r
  {
    if t.Empty? || t.info.Leaf? then i
    else if FastTurnsLeft(num, fv, t.info) then FastIndex(num, fv, t.left, i + 1)
    else FastIndex(num, fv, t.right, i + 1 + Size(t.left))
  }

  /** The slot of the leaf that the recursive classifier reaches. */
  function LeafIndex(num: Numerals, fv: FeatureVec, t: Tree<real>, i: nat): nat
    requires ValidFeatureVec(fv)
  {
    if t.Empty? || t.info.Leaf? then i
    else if TurnsLeft(num, fv, t.info) then LeafIndex(num, fv, t.left, i + 1)
    else LeafIndex(num, fv, t.right, i + 1 + Size(t.left))
  }

  predicate Childless(t: Tree<real>) {
    t.Node? ==> t.left.Empty? && t.right.Empty?
  }

  /** Whatever the keys are, the loop over the slots of a checked tree stops at
      the slot of the leaf it comes to if and only if no node hangs below that
      leaf; it walks on into such nodes. */
  lemma {:induction false} WalkStopsAtLeafIff(num: Numerals, fv: FeatureVec, slots: seq<FastNode>,
                                              t: Tree<real>, i: nat)
    requires ValidFeatureVec(fv) && Constructed(t) && Check(t).Ok? && Laid(num, slots, t, i)
    ensures i < |slots|
    ensures Walk(fv, slots, i) == Some(FastIndex(num, fv, t, i)) <==> Childless(FastLeaf(num, fv, t))
  {
    if !t.info.Leaf? {
      if FastTurnsLeft(num, fv, t.info) {
        WalkStopsAtLeafIff(num, fv, slots, t.left, i + 1);
      } else {
        WalkStopsAtLeafIff(num, fv, slots, t.right, i + 1 + Size(t.left));
      }
    }
  }

  /** Both lookups see the same value at every splitter of `t`. */
  predicate LookupsAgree(num: Numerals, fv: FeatureVec, t: Tree<real>)
    requires ValidFeatureVec(fv)
  {
    t.Node? && !t.info.Leaf? ==>
      && t.info.Numeric?
      && NumericGetValue(fv, num.atoi(t.info.attr)) == GetValue(num, fv, t.info.attr)
      && LookupsAgree(num, fv, t.left)
      && LookupsAgree(num, fv, t.right)
  }

  lemma {:induction false} AgreeingTurns(num: Numerals, fv: FeatureVec, t: Tree<real>, i: nat)
    requires ValidFeatureVec(fv) && Constructed(t) && LookupsAgree(num, fv, t)
    ensures FastIndex(num, fv, t, i) == LeafIndex(num, fv, t, i)
    ensures FastLeaf(num, fv, t) == Classify(num, fv, t)
  {
    if t.Node? && !t.info.Leaf? {
      AgreeingTurns(num, fv, t.left, i + 1);
      AgreeingTurns(num, fv, t.right, i + 1 + Size(t.left));
    }
  }

  /** The fast form refines the recursive classifier: on a checked tree with
      numeric keys and bare leaves the loop stops at the slot whose number is
      the pre-order place of the leaf that the classifier returns. */
  lemma FastFormRefines(num: Numerals, fv: FeatureVec, slots: seq<FastNode>, t: Tree<real>)
    requires ValidFeatureVec(fv) && Constructed(t) && Check(t).Ok? && Laid(num, slots, t, 0)
    requires NumericKeys(num, t) && BareLeaves(t)
    ensures slots != [] && Walk(fv, slots, 0).Some? && IsLeaf(Classify(num, fv, t))
    ensures var slot := Walk(fv, slots, 0).value;
            && slot < |Preorder(t, ".")|
            && Preorder(t, ".")[slot] == Entry(ClassifyPath(num, fv, t, "."), Classify(num, fv, t).info)
  {
    hide Laid, Walk, Preorder, Check;
    NumericKeysAgree(num, fv, t);
    AgreeingTurns(num, fv, t, 0);
    BareLeafReached(num, fv, t);
    WalkStopsAtLeafIff(num, fv, slots, t, 0);
    LeafIsListed(num, fv, t, ".", 0);
  }

  lemma {:induction false} BareLeafReached(num: Numerals, fv: FeatureVec, t: Tree<real>)
    requires ValidFeatureVec(fv) && Constructed(t) && BareLeaves(t)
    ensures Childless(FastLeaf(num, fv, t))
  {
    if t.Node? && !t.info.Leaf? {
      BareLeafReached(num, fv, t.left);
      BareLeafReached(num, fv, t.right);
    }
  }

  lemma {:induction false} PreorderSize<D>(t: Tree<D>, path: string)
    requires BareLeaves(t)
    ensures |Preorder(t, path)| == Size(t)
  {
    if t.Node? && !t.info.Leaf? {
      PreorderSize(t.left, path + "l");
      PreorderSize(t.right, path + "r");
    }
  }

  /** The slot number of the leaf reached is its number in pre-order. */
  lemma {:induction false} LeafIsListed(num: Numerals, fv: FeatureVec, t: Tree<real>, path: string, i: nat)
    requires ValidFeatureVec(fv) && Check(t).Ok? && BareLeaves(t)
    ensures IsLeaf(Classify(num, fv, t))
    ensures i <= LeafIndex(num, fv, t, i) < i + |Preorder(t, path)|
    ensures Preorder(t, path)[LeafIndex(num, fv, t, i) - i]
            == Entry(ClassifyPath(num, fv, t, path), Classify(num, fv, t).info)
  {
    hide TurnsLeft, Size, Preorder;
    PreorderNode(t, path);
    if !t.info.Leaf? {
      var head, left, right := Entry(path, t.info), Preorder(t.left, path + "l"), Preorder(t.right, path + "r");
      PreorderSize(t.left, path + "l");
      if TurnsLeft(num, fv, t.info) {
        LeafIsListed(num, fv, t.left, path + "l", i + 1);
        InList(head, left, right, LeafIndex(num, fv, t.left, i + 1) - (i + 1), true);
      } else {
        var at := i + 1 + |left|;
        LeafIsListed(num, fv, t.right, path + "r", at);
        InList(head, left, right, LeafIndex(num, fv, t.right, at) - at, false);
      }
    }
  }

  lemma PreorderNode<D>(t: Tree<D>, path: string)
    requires t.Node?
    ensures Preorder(t, path)
            == if t.info.Leaf? then [Entry(path, t.info)]
               else [Entry(path, t.info)] + (Preorder(t.left, path + "l") + Preorder(t.right, path + "r"))
  {
  }

  /** Places in a list of a node, its left and its right subtree. */
  lemma InList<T>(head: T, left: seq<T>, right: seq<T>, k: nat, inLeft: bool)
    requires k < if inLeft then |left| else |right|
    ensures var all := [head] + (left + right);
            && |all| == 1 + |left| + |right|
            && (if inLeft then all[1 + k] == left[k] else all[1 + |left| + k] == right[k])
  {
  }

  // ------------------------------------------------------- numeric keys

  /** The attribute is a number from 1 to 2047 to both parsers. */
  predicate NumericKey(num: Numerals, attr: Bytes) {
    var nkey := Truncate(num.atof(attr));
    0 < nkey < MAX_NUM_FIELDS && num.atoi(attr) == nkey
  }

  lemma NumericKeyMeans(num: Numerals, attr: Bytes)
    ensures NumericKey(num, attr) <==>
              exists n: int :: 1 <= n <= 2047 && CutsTo(num.atof(attr), n) && num.atoi(attr) == n
  {
    var n := Truncate(num.atof(attr));
    if NumericKey(num, attr) {
      assert CutsTo(num.atof(attr), n);
    }
  }

  predicate NumericKeys(num: Numerals, t: Tree<real>) {
    t.Node? && !t.info.Leaf? ==>
      t.info.Numeric? && NumericKey(num, t.info.attr) && NumericKeys(num, t.left) && NumericKeys(num, t.right)
  }

  lemma {:induction false} NumericKeysAgree(num: Numerals, fv: FeatureVec, t: Tree<real>)
    requires ValidFeatureVec(fv) && NumericKeys(num, t)
    ensures LookupsAgree(num, fv, t)
  {
    if t.Node? && !t.info.Leaf? {
      NumericKeysAgree(num, fv, t.left);
      NumericKeysAgree(num, fv, t.right);
    }
  }

  /** A feature vector that the recursive lookup reads as `x`, and the fast one
      as 0 unless the attribute is a numeric key. */
  function Telltale(num: Numerals, attr: Bytes, x: real): FeatureVec {
    var nkey := Truncate(num.atof(attr));
    FeatureVec([(attr, x)], seq(MAX_NUM_FIELDS, k => if k == nkey then x else 0.0))
  }

  lemma TelltaleReads(num: Numerals, attr: Bytes, x: real)
    ensures var fv := Telltale(num, attr, x);
            && ValidFeatureVec(fv) && GetValue(num, fv, attr) == x
            && NumericGetValue(fv, num.atoi(attr)) == if NumericKey(num, attr) then x else 0.0
  {
  }

  /** Numeric keys are exactly the attributes that the two lookups always read
      alike. */
  lemma LookupsAgreeIffNumericKey(num: Numerals, attr: Bytes)
    ensures NumericKey(num, attr) <==>
              forall fv | ValidFeatureVec(fv) :: NumericGetValue(fv, num.atoi(attr)) == GetValue(num, fv, attr)
  {
    if !NumericKey(num, attr) {
      TelltaleReads(num, attr, 1.0);
      var fv := Telltale(num, attr, 1.0);
      assert NumericGetValue(fv, num.atoi(attr)) != GetValue(num, fv, attr);
    }
  }

  // ---------------------------------------------------- the exact condition

  lemma {:induction false} LeafIndexInside(num: Numerals, fv: FeatureVec, t: Tree<real>, i: nat)
    requires ValidFeatureVec(fv) && Check(t).Ok? && Constructed(t)
    ensures i <= LeafIndex(num, fv, t, i) < i + Size(t) && i <= FastIndex(num, fv, t, i) < i + Size(t)
  {
    if !t.info.Leaf? {
      LeafIndexInside(num, fv, t.left, i + 1);
      LeafIndexInside(num, fv, t.right, i + 1 + Size(t.left));
    }
  }

  /** At a splitter where the two turns differ, different slots are reached. */
  lemma TurnsTellSlots(num: Numerals, fv: FeatureVec, t: Tree<real>, i: nat)
    requires ValidFeatureVec(fv) && Check(t).Ok? && Constructed(t) && !t.info.Leaf?
    requires TurnsLeft(num, fv, t.info) != FastTurnsLeft(num, fv, t.info)
    ensures FastIndex(num, fv, t, i) != LeafIndex(num, fv, t, i)
  {
    LeafIndexInside(num, fv, t.left, i + 1);
    LeafIndexInside(num, fv, t.right, i + 1 + Size(t.left));
  }

  /** A root whose attribute is not a numeric key sends some feature vector to
      another slot, whatever the thresholds of the tree are. */
  lemma RootKeyMustBeNumeric(num: Numerals, t: Tree<real>) returns (fv: FeatureVec)
    requires Check(t).Ok? && Constructed(t) && t.info.Numeric? && !NumericKey(num, t.info.attr)
    ensures ValidFeatureVec(fv) && FastIndex(num, fv, t, 0) != LeafIndex(num, fv, t, 0)
  {
    var x := if 0.0 <= t.info.val then t.info.val + 1.0 else t.info.val;
    TelltaleReads(num, t.info.attr, x);
    fv := Telltale(num, t.info.attr, x);
    TurnsTellSlots(num, fv, t, 0);
  }

  /** The trees have the same shape, kinds of nodes and attributes; the values
      of their splitters may differ. */
  predicate SameAttributes(t: Tree<real>, u: Tree<real>) {
    if t.Empty? || t.info.Leaf? then u == t
    else
      && u.Node? && !u.info.Leaf? && u.info.attr == t.info.attr && (u.info.Numeric? <==> t.info.Numeric?)
      && SameAttributes(t.left, u.left) && SameAttributes(t.right, u.right)
  }

  lemma {:induction false} SameAttributesSelf(t: Tree<real>)
    ensures SameAttributes(t, t)
  {
    if t.Node? && !t.info.Leaf? {
      SameAttributesSelf(t.left);
      SameAttributesSelf(t.right);
    }
  }

  lemma {:induction false} SameKeys(num: Numerals, t: Tree<real>, u: Tree<real>)
    requires SameAttributes(t, u)
    ensures NumericKeys(num, u) <==> NumericKeys(num, t)
  {
    if t.Node? && !t.info.Leaf? {
      SameKeys(num, t.left, u.left);
      SameKeys(num, t.right, u.right);
    }
  }

  /** A splitter with the value `x`. */
  function WithValue(info: Label<real>, x: real): Label<real>
    requires !info.Leaf?
  {
    if info.Numeric? then Numeric(info.attr, x) else Categorical(info.attr, [x])
  }

  /** The splitter itself can tell the two forms apart. */
  lemma BadSplitter(num: Numerals, t: Tree<real>, i: nat) returns (u: Tree<real>, fv: FeatureVec)
    requires Check(t).Ok? && Constructed(t) && !t.info.Leaf?
    requires t.info.Numeric? ==> !NumericKey(num, t.info.attr)
    ensures SameAttributes(t, u) && Constructed(u) && Check(u).Ok? && ValidFeatureVec(fv)
    ensures FastIndex(num, fv, u, i) != LeafIndex(num, fv, u, i)
  {
    var x := if t.info.Numeric? then 1.0 else -1.0;
    u := t.(info := WithValue(t.info, 0.0));
    fv := Telltale(num, t.info.attr, x);
    SameAttributesSelf(t.left);
    SameAttributesSelf(t.right);
    TelltaleReads(num, t.info.attr, x);
    TurnsTellSlots(num, fv, u, i);
  }

  /** A good splitter above it can be given the threshold that leads both forms
      to the child `v`, which tells them apart for `fv`. */
  lemma GoodSplitter(num: Numerals, fv: FeatureVec, t: Tree<real>, goLeft: bool, v: Tree<real>, i: nat)
    returns (u: Tree<real>)
    requires Check(t).Ok? && Constructed(t) && t.info.Numeric? && NumericKey(num, t.info.attr) && ValidFeatureVec(fv)
    requires SameAttributes(if goLeft then t.left else t.right, v) && Constructed(v) && Check(v).Ok?
    requires var at := if goLeft then i + 1 else i + 1 + Size(t.left);
             FastIndex(num, fv, v, at) != LeafIndex(num, fv, v, at)
    ensures SameAttributes(t, u) && Constructed(u) && Check(u).Ok?
    ensures FastIndex(num, fv, u, i) != LeafIndex(num, fv, u, i)
  {
    var y := GetValue(num, fv, t.info.attr);
    SameAttributesSelf(t.left);
    SameAttributesSelf(t.right);
    if goLeft {
      u := Node(WithValue(t.info, y), v, t.right);
    } else {
      u := Node(WithValue(t.info, y - 1.0), t.left, v);
    }
  }

  /** Where a splitter is not numeric or its attribute no numeric key, there are
      values for the splitters and a feature vector on which the forms differ:
      the thresholds above the first such splitter lead both forms to it. */
  lemma {:induction false} Distinguish(num: Numerals, t: Tree<real>, i: nat) returns (u: Tree<real>, fv: FeatureVec)
    requires Check(t).Ok? && Constructed(t) && !NumericKeys(num, t)
    ensures SameAttributes(t, u) && Constructed(u) && Check(u).Ok? && ValidFeatureVec(fv)
    ensures FastIndex(num, fv, u, i) != LeafIndex(num, fv, u, i)
    decreases t
  {
    if t.info.Numeric? && NumericKey(num, t.info.attr) {
      var goLeft := !NumericKeys(num, t.left);
      var v;
      v, fv := Distinguish(num, if goLeft then t.left else t.right, if goLeft then i + 1 else i + 1 + Size(t.left));
      u := GoodSplitter(num, fv, t, goLeft, v, i);
    } else {
      u, fv := BadSplitter(num, t, i);
    }
  }

  /** The exact reach of the fast form: it leads to the classifier's leaf, for
      all values of the splitters and all feature vectors, if and only if every
      splitter is numeric and every attribute a numeric key. */
  lemma FormsAgreeIffNumericKeys(num: Numerals, t: Tree<real>)
    requires Check(t).Ok? && Constructed(t)
    ensures NumericKeys(num, t) <==>
              forall u, fv | SameAttributes(t, u) && Constructed(u) && ValidFeatureVec(fv) ::
                FastIndex(num, fv, u, 0) == LeafIndex(num, fv, u, 0)
  {
    if NumericKeys(num, t) {
      forall u, fv | SameAttributes(t, u) && Constructed(u) && ValidFeatureVec(fv)
        ensures FastIndex(num, fv, u, 0) == LeafIndex(num, fv, u, 0)
      {
        SameKeys(num, t, u);
        NumericKeysAgree(num, fv, u);
        AgreeingTurns(num, fv, u, 0);
      }
    } else {
      var u, fv := Distinguish(num, t, 0);
    }
  }
}
