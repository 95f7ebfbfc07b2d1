/** Rebuilding a tree from the pre-order list of its nodes: the order in which
    the serializer writes and the reader inserts. */
module ForestRebuild {
  import opened Common
  import opened ForestTree

  datatype Entry<+D> = Entry(path: string, info: Label<D>)

  function Single<D>(info: Label<D>): Tree<D> {
    Node(info, Empty, Empty)
  }

  /** The nodes in pre-order, each with its path; nothing below a leaf. */
  function Preorder<D>(t: Tree<D>, path: string): seq<Entry<D>> {
    if t.Empty? then []
    else if t.info.Leaf? then [Entry(path, t.info)]
    else [Entry(path, t.info)] + (Preorder(t.left, path + "l") + Preorder(t.right, path + "r"))
  }

  ghost predicate Rooted<D>(entries: seq<Entry<D>>) {
    forall i | 0 <= i < |entries| :: |entries[i].path| >= 1
  }

  /** Inserts the entries one at a time; Ok when every insertion succeeded. */
  ghost function InsertAll<D>(t: Tree<D>, entries: seq<Entry<D>>): (Status, Tree<D>)
    requires Rooted(entries)
    decreases |entries|
  {
    if entries == [] then (Ok, t)
    else
      var (first, t1) := Add(t, entries[0].path, Single(entries[0].info));
      var (rest, t2) := InsertAll(t1, entries[1..]);
      (if first.Ok? then rest else Err, t2)
  }

  /** `t` without whatever hangs below its leaves. */
  function Prune<D>(t: Tree<D>): Tree<D> {
    if t.Empty? then Empty
    else if t.info.Leaf? then Single(t.info)
    else Node(t.info, Prune(t.left), Prune(t.right))
  }

  predicate BareLeaves<D>(t: Tree<D>) {
    t.Node? ==> if t.info.Leaf? then t.left.Empty? && t.right.Empty? else BareLeaves(t.left) && BareLeaves(t.right)
  }

  lemma {:induction false} PruneIdentity<D>(t: Tree<D>)
    ensures Prune(t) == t <==> BareLeaves(t)
  {
    if t.Node? && !t.info.Leaf? {
      PruneIdentity(t.left);
      PruneIdentity(t.right);
    }
  }

  lemma {:induction false} PreorderRooted<D>(t: Tree<D>, path: string)
    requires |path| >= 1
    ensures Rooted(Preorder(t, path))
  {
    if t.Node? && !t.info.Leaf? {
      PreorderRooted(t.left, path + "l");
      PreorderRooted(t.right, path + "r");
    }
  }

  lemma {:induction false} InsertAllConcat<D>(t: Tree<D>, a: seq<Entry<D>>, b: seq<Entry<D>>)
    requires Rooted(a) && Rooted(b)
    ensures var (s1, t1) := InsertAll(t, a);
            var (s2, t2) := InsertAll(t1, b);
            InsertAll(t, a + b) == (if s1.Ok? then s2 else Err, t2)
    decreases |a|
  {
    if a == [] {
      assert a + b == b;
    } else {
      assert (a + b)[1..] == a[1..] + b;
      InsertAllConcat(Add(t, a[0].path, Single(a[0].info)).1, a[1..], b);
    }
  }

  /** Filling a child of a node just inserted is inserting the fuller node. */
  lemma {:induction false} AddBelow<D>(c: Tree<D>, p: string, info: Label<D>, a: Tree<D>, b: Tree<D>, x: Tree<D>)
    requires |p| >= 1 && Add(c, p, Node(info, a, b)).0.Ok?
    ensures var c1 := Add(c, p, Node(info, a, b)).1;
            && Add(c1, p + "l", x) == Add(c, p, Node(info, x, b))
            && Add(c1, p + "r", x) == Add(c, p, Node(info, a, x))
    decreases |p|
  {
    if |p| > 1 {
      assert (p + "l")[1..] == p[1..] + "l" && (p + "r")[1..] == p[1..] + "r";
      AddBelow(if p[1] == 'r' then c.right else c.left, p[1..], info, a, b, x);
    }
  }

  lemma {:induction false} AddStatusOnlyByPath<D>(c: Tree<D>, p: string, x: Tree<D>, y: Tree<D>)
    requires |p| >= 1
    ensures Add(c, p, x).0 == Add(c, p, y).0
    decreases |p|
  {
    if |p| > 1 && c.Node? && p[1] in {'l', 'r'} {
      AddStatusOnlyByPath(if p[1] == 'r' then c.right else c.left, p[1..], x, y);
    }
  }

  /** Inserting the pre-order list of `t` where `p` leads puts `t` there. */
  lemma {:induction false} InsertPreorder<D>(c: Tree<D>, p: string, t: Tree<D>)
    requires |p| >= 1 && t.Node? && Add(c, p, t).0.Ok?
    ensures Rooted(Preorder(t, p))
    ensures InsertAll(c, Preorder(t, p)) == Add(c, p, Prune(t))
    decreases t
  {
    PreorderRooted(t, p);
    var head := [Entry(p, t.info)];
    var c1 := Add(c, p, Single(t.info)).1;
    AddStatusOnlyByPath(c, p, t, Single(t.info));
    assert InsertAll(c1, []) == (Ok, c1);
    assert InsertAll(c, head) == (Ok, c1);
    hide InsertAll, Rooted;
    if !t.info.Leaf? {
      var left, right := Preorder(t.left, p + "l"), Preorder(t.right, p + "r");
      PreorderRooted(t.left, p + "l");
      PreorderRooted(t.right, p + "r");
      InsertAllConcat(c, head, left + right);
      InsertAllConcat(c1, left, right);
      var l, r := Prune(t.left), Prune(t.right);
      AddBelow(c, p, t.info, Empty, Empty, l);
      AddStatusOnlyByPath(c, p, t, Node(t.info, l, Empty));
      AddStatusOnlyByPath(c, p, t, Node(t.info, l, r));
      if t.left.Node? {
        AddStatusOnlyByPath(c1, p + "l", l, t.left);
        InsertPreorder(c1, p + "l", t.left);
      }
      var c2 := Add(c, p, Node(t.info, l, Empty)).1;
      assert InsertAll(c1, left) == (Ok, c2);
      AddBelow(c, p, t.info, l, Empty, r);
      if t.right.Node? {
        AddStatusOnlyByPath(c2, p + "r", r, t.right);
        InsertPreorder(c2, p + "r", t.right);
      }
    }
  }

  /** At every depth, inserting the pre-order list into an empty root succeeds
      at every step and rebuilds the tree; exactly, when no leaf has children. */
  lemma RebuildAnyDepth<D>(t: Tree<D>)
    ensures Rooted(Preorder(t, "."))
    ensures InsertAll(Empty, Preorder(t, ".")) == (Ok, Prune(t))
    ensures InsertAll(Empty, Preorder(t, ".")).1 == t <==> BareLeaves(t)
  {
    PruneIdentity(t);
    if t.Node? {
      InsertPreorder(Empty, ".", t);
    }
  }
}
