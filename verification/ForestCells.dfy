/** The tree as it lies in memory: nodes with child pointers that insertion
    overwrites in place. */
module ForestCells {
  import opened Common
  import opened ForestTree

  class Cell<D> {
    const info: Label<D>
    var left: Cell?<D>
    var right: Cell?<D>
    ghost var Repr: set<object>

    ghost predicate Valid()
      reads this, Repr
      ensures Valid() ==> this in Repr
      decreases Repr
    {
      && this in Repr
      && (left != null ==> left in Repr && left.Repr <= Repr && this !in left.Repr && left.Valid())
      && (right != null ==> right in Repr && right.Repr <= Repr && this !in right.Repr && right.Valid())
      && (left != null && right != null ==> left.Repr !! right.Repr)
    }

    /** The tree hanging off this node. */
    ghost function Model(): Tree<D>
      requires Valid()
      reads this, Repr
      decreases Repr
    {
      Node(info, if left == null then Empty else left.Model(), if right == null then Empty else right.Model())
    }

    /** A node as the constructors of the source leave it: no children. */
    constructor (info: Label<D>)
      ensures Valid() && Repr == {this}
      ensures Model() == Node(info, Empty, Empty)
    {
      this.info := info;
      left, right := null, null;
      Repr := {this};
    }
  }

  ghost predicate ValidRoot<D>(root: Cell?<D>)
    reads if root == null then {} else {root} + root.Repr
  {
    root != null ==> root.Valid()
  }

  ghost function ModelOf<D>(root: Cell?<D>): Tree<D>
    requires ValidRoot(root)
    reads if root == null then {} else {root} + root.Repr
  {
    if root == null then Empty else root.Model()
  }

  ghost function ReprOf<D>(root: Cell?<D>): set<object>
    reads if root == null then {} else {root}
  {
    if root == null then {} else root.Repr
  }

  /** Overwrites the right child pointer. */
  method LinkRight<D>(cell: Cell<D>, child: Cell?<D>)
    requires ValidRoot(cell.left) && ValidRoot(child) && cell in cell.Repr
    requires ReprOf(cell.left) <= cell.Repr && cell !in ReprOf(cell.left)
    requires cell !in ReprOf(child) && ReprOf(cell.left) !! ReprOf(child)
    modifies cell
    ensures cell.Valid() && cell.Repr == old(cell.Repr) + ReprOf(child)
    ensures cell.Model() == Node(cell.info, old(ModelOf(cell.left)), old(ModelOf(child)))
  {
    cell.right := child;
    cell.Repr := cell.Repr + ReprOf(child);
  }

  /** Overwrites the left child pointer. */
  method LinkLeft<D>(cell: Cell<D>, child: Cell?<D>)
    requires ValidRoot(cell.right) && ValidRoot(child) && cell in cell.Repr
    requires ReprOf(cell.right) <= cell.Repr && cell !in ReprOf(cell.right)
    requires cell !in ReprOf(child) && ReprOf(cell.right) !! ReprOf(child)
    modifies cell
    ensures cell.Valid() && cell.Repr == old(cell.Repr) + ReprOf(child)
    ensures cell.Model() == Node(cell.info, old(ModelOf(child)), old(ModelOf(cell.right)))
  {
    cell.left := child;
    cell.Repr := cell.Repr + ReprOf(child);
  }

  /** Links `n` into the tree below `root`, overwriting one child pointer (or
      the root itself), and returns the root. */
  method TreeAdd<D>(root: Cell?<D>, path: string, n: Cell<D>) returns (status: Status, newRoot: Cell?<D>)
    requires |path| >= 1 && ValidRoot(root) && n.Valid() && ReprOf(root) !! n.Repr
    modifies ReprOf(root)
    ensures ValidRoot(newRoot) && ReprOf(newRoot) <= old(ReprOf(root)) + n.Repr
    ensures (status, ModelOf(newRoot)) == Add(old(ModelOf(root)), path, old(n.Model()))
    decreases |path|
  {
    if |path| == 1 {
      return Ok, n;
    }
    if root == null {
      return Err, null;
    }
    newRoot := root;
    if path[1] == 'r' {
      status := AddRight(root, path, n);
    } else if path[1] == 'l' {
      status := AddLeft(root, path, n);
    } else {
      status := Err;
    }
  }

  /** The insertion goes on in the right child. */
  method AddRight<D>(root: Cell<D>, path: string, n: Cell<D>) returns (status: Status)
    requires |path| >= 2 && path[1] == 'r' && root.Valid() && n.Valid() && root.Repr !! n.Repr
    modifies root.Repr
    ensures root.Valid() && root.Repr <= old(root.Repr) + n.Repr
    ensures (status, root.Model()) == Add(old(root.Model()), path, old(n.Model()))
    decreases |path|, 0
  {
    var child;
    status, child := TreeAdd(root.right, path[1..], n);
    LinkRight(root, child);
  }

  /** The insertion goes on in the left child. */
  method AddLeft<D>(root: Cell<D>, path: string, n: Cell<D>) returns (status: Status)
    requires |path| >= 2 && path[1] == 'l' && root.Valid() && n.Valid() && root.Repr !! n.Repr
    modifies root.Repr
    ensures root.Valid() && root.Repr <= old(root.Repr) + n.Repr
    ensures (status, root.Model()) == Add(old(root.Model()), path, old(n.Model()))
    decreases |path|, 0
  {
    var child;
    status, child := TreeAdd(root.left, path[1..], n);
    LinkLeft(root, child);
  }

  method TreeGet<D>(root: Cell?<D>, path: string) returns (found: Cell?<D>)
    requires |path| >= 1 && ValidRoot(root)
    ensures ValidRoot(found) && ReprOf(found) <= ReprOf(root)
    ensures ModelOf(found) == Get(ModelOf(root), path)
    decreases |path|
  {
    if root == null {
      found := null;
    } else if |path| == 1 {
      found := root;
    } else if path[1] == 'r' {
      found := TreeGet(root.right, path[1..]);
    } else if path[1] == 'l' {
      found := TreeGet(root.left, path[1..]);
    } else {
      found := null;
    }
  }
}
