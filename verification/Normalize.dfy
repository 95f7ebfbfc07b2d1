/** Counting the leaves of a tree by class, and scaling the counts to weights. */
module Normalization {
  import opened ForestTree
  import opened ForestRebuild

  const FOREST_MAX_CLASSES := 128

  function LeafCount(t: Tree<real>): nat {
    if t.Empty? then 0 else if t.info.Leaf? then 1 else LeafCount(t.left) + LeafCount(t.right)
  }

  /** The leaves whose prediction, cut to an int, is `c`. */
  function CountClass(t: Tree<real>, c: int): nat {
    if t.Empty? then 0
    else if t.info.Leaf? then if Truncate(t.info.predVal) == c then 1 else 0
    else CountClass(t.left, c) + CountClass(t.right, c)
  }

  predicate ClassesInRange(t: Tree<real>) {
    t.Node? ==>
      if t.info.Leaf? then 0 <= Truncate(t.info.predVal) < FOREST_MAX_CLASSES
      else ClassesInRange(t.left) && ClassesInRange(t.right)
  }

  function CountUpTo(t: Tree<real>, n: nat): nat {
    if n == 0 then 0 else CountUpTo(t, n - 1) + CountClass(t, n - 1)
  }

  lemma {:induction false} CountUpToLeaf(t: Tree<real>, n: nat)
    requires IsLeaf(t) && ClassesInRange(t)
    ensures CountUpTo(t, n) == if Truncate(t.info.predVal) < n then 1 else 0
  {
    if n > 0 {
      CountUpToLeaf(t, n - 1);
    }
  }

  lemma {:induction false} CountUpToNode(t: Tree<real>, n: nat)
    requires t.Node? && !t.info.Leaf?
    ensures CountUpTo(t, n) == CountUpTo(t.left, n) + CountUpTo(t.right, n)
  {
    if n > 0 {
      CountUpToNode(t, n - 1);
    }
  }

  lemma {:induction false} CountUpToEmpty(n: nat)
    ensures CountUpTo(Empty, n) == 0
  {
    if n > 0 {
      CountUpToEmpty(n - 1);
    }
  }

  /** With all classes in range, every leaf is counted in exactly one class. */
  lemma {:induction false} EveryLeafCounted(t: Tree<real>)
    requires ClassesInRange(t)
    ensures CountUpTo(t, FOREST_MAX_CLASSES) == LeafCount(t)
  {
    if t.Empty? {
      CountUpToEmpty(FOREST_MAX_CLASSES);
    } else if t.info.Leaf? {
      CountUpToLeaf(t, FOREST_MAX_CLASSES);
    } else {
      EveryLeafCounted(t.left);
      EveryLeafCounted(t.right);
      CountUpToNode(t, FOREST_MAX_CLASSES);
    }
  }

  function Sum(s: seq<real>): real {
    if s == [] then 0.0 else Sum(s[..|s| - 1]) + s[|s| - 1]
  }

  function Share(count: nat, total: nat): real
    requires total > 0
  {
    count as real / total as real
  }

  lemma WholeShare(total: nat)
    requires total > 0
    ensures Share(total, total) == 1.0
  {
  }

  /** `s` holds the share of each class among the leaves. */
  ghost predicate Shares(t: Tree<real>, s: seq<real>) {
    LeafCount(t) > 0 && forall c | 0 <= c < |s| :: s[c] == Share(CountClass(t, c), LeafCount(t))
  }

  lemma SharesAdd(a: nat, b: nat, total: nat)
    requires total > 0
    ensures Share(a, total) + Share(b, total) == Share(a + b, total)
  {
  }

  lemma {:induction false} SharesSum(t: Tree<real>, s: seq<real>)
    requires Shares(t, s)
    ensures Sum(s) == Share(CountUpTo(t, |s|), LeafCount(t))
  {
    if s != [] {
      var n := |s| - 1;
      SharesSum(t, s[..n]);
      SharesAdd(CountUpTo(t, n), CountClass(t, n), LeafCount(t));
    }
  }

  lemma {:induction false} CheckedHasLeaf(t: Tree<real>)
    requires Check(t).Ok?
    ensures LeafCount(t) > 0
  {
    if !t.info.Leaf? {
      CheckedHasLeaf(t.left);
    }
  }

  // ------------------------------------------- weights and predictions

  /** The predictions of the leaves in a list of nodes. */
  function Predictions(entries: seq<Entry<real>>): seq<real> {
    if entries == [] then [] else Prediction(entries[0].info) + Predictions(entries[1..])
  }

  function Prediction(info: Label<real>): seq<real> {
    if info.Leaf? then [info.predVal] else []
  }

  lemma Regroup<T>(a: seq<T>, b: seq<T>, c: seq<T>)
    ensures a + (b + c) == (a + b) + c
  {
  }

  lemma {:induction false} PredictionsConcat(a: seq<Entry<real>>, b: seq<Entry<real>>)
    ensures Predictions(a + b) == Predictions(a) + Predictions(b)
  {
    if a == [] {
      assert a + b == b;
    } else {
      hide Prediction;
      PredictionsConcat(a[1..], b);
      assert (a + b)[1..] == a[1..] + b;
      Regroup(Prediction(a[0].info), Predictions(a[1..]), Predictions(b));
    }
  }

  /** How many of the numbers are cut to the int `c`. */
  function CountCut(s: seq<real>, c: int): nat {
    if s == [] then 0 else (if Truncate(s[0]) == c then 1 else 0) + CountCut(s[1..], c)
  }

  lemma {:induction false} CountCutConcat(a: seq<real>, b: seq<real>, c: int)
    ensures CountCut(a + b, c) == CountCut(a, c) + CountCut(b, c)
  {
    if a == [] {
      assert a + b == b;
    } else {
      CountCutConcat(a[1..], b, c);
      assert (a + b)[1..] == a[1..] + b;
    }
  }

  /** The counts are those of the tree's list of nodes. */
  lemma {:induction false} CountsAreOfLeaves(t: Tree<real>, path: string, c: int)
    ensures LeafCount(t) == |Predictions(Preorder(t, path))|
    ensures CountClass(t, c) == CountCut(Predictions(Preorder(t, path)), c)
  {
    if t.Node? {
      var head := Entry(path, t.info);
      assert [head][1..] == [];
      assert Predictions([head]) == Prediction(t.info);
      if t.info.Leaf? {
        assert CountCut([t.info.predVal], c) == if Truncate(t.info.predVal) == c then 1 else 0;
      } else {
        var left, right := Preorder(t.left, path + "l"), Preorder(t.right, path + "r");
        CountsAreOfLeaves(t.left, path + "l", c);
        CountsAreOfLeaves(t.right, path + "r", c);
        PredictionsConcat([head], left + right);
        PredictionsConcat(left, right);
        CountCutConcat(Predictions(left), Predictions(right), c);
        assert Predictions(Preorder(t, path)) == Predictions(left) + Predictions(right);
      }
    }
  }

  ghost predicate WholeNumbers(s: seq<real>) {
    forall i | 0 <= i < |s| :: s[i] == s[i].Floor as real
  }

  lemma {:induction false} CountOfWholeNumbers(s: seq<real>, c: int)
    requires WholeNumbers(s)
    ensures CountCut(s, c) == multiset(s)[c as real]
  {
    if s != [] {
      var rest := s[1..];
      assert forall i | 0 <= i < |rest| :: rest[i] == s[i + 1];
      CountOfWholeNumbers(rest, c);
      assert Truncate(s[0]) == s[0].Floor;
      assert s == [s[0]] + rest;
    }
  }

  lemma ShareTimesTotal(count: nat, total: nat)
    requires total > 0
    ensures Share(count, total) * total as real == count as real
  {
  }

  /** What the weights mean: the weight of a class times the number of leaves in
      the tree is the number of leaves that predict the class, cut to an int;
      with whole predictions, of those that predict exactly it. */
  lemma WeightsCountLeaves(t: Tree<real>, s: seq<real>, c: nat)
    requires Shares(t, s) && c < |s|
    ensures var all := Predictions(Preorder(t, "."));
            && s[c] * |all| as real == CountCut(all, c) as real
            && (WholeNumbers(all) ==> s[c] * |all| as real == multiset(all)[c as real] as real)
  {
    hide Share, WholeNumbers, CountCut, CountClass, LeafCount, Predictions, Preorder;
    var all := Predictions(Preorder(t, "."));
    CountsAreOfLeaves(t, ".", c);
    ShareTimesTotal(CountClass(t, c), LeafCount(t));
    if WholeNumbers(all) {
      CountOfWholeNumbers(all, c);
    }
  }

  class ClassWeights {
    var numClasses: int
    var classCoefficients: array<real>

    constructor ()
      ensures classCoefficients.Length == FOREST_MAX_CLASSES && fresh(classCoefficients)
    {
      numClasses := 0;
      classCoefficients := new real[FOREST_MAX_CLASSES](_ => 0.0);
    }

    /** Adds the leaves of `root` to the counts. */
    method CountLeaves(root: Tree<real>)
      requires classCoefficients.Length == FOREST_MAX_CLASSES
      requires Check(root).Ok? && ClassesInRange(root)
      modifies this`numClasses, classCoefficients
      ensures numClasses == old(numClasses) + LeafCount(root)
      ensures forall c | 0 <= c < FOREST_MAX_CLASSES ::
                classCoefficients[c] == old(classCoefficients[c]) + CountClass(root, c) as real
      decreases root
    {
      if root.info.Leaf? {
        var c := Truncate(root.info.predVal);
        classCoefficients[c] := classCoefficients[c] + 1.0;
        numClasses := numClasses + 1;
        return;
      }
      CountLeaves(root.left);
      CountLeaves(root.right);
    }

    /** Sets the weight of each class to its share of the leaves; the weights
        of a checked tree add up to one. */
    method NormalizeTree(root: Tree<real>)
      requires Check(root).Ok? && ClassesInRange(root)
      modifies this
      ensures fresh(classCoefficients) && classCoefficients.Length == FOREST_MAX_CLASSES
      ensures numClasses == LeafCount(root) > 0
      ensures Shares(root, classCoefficients[..]) && Sum(classCoefficients[..]) == 1.0
    {
      numClasses := 0;
      classCoefficients := new real[FOREST_MAX_CLASSES](_ => 0.0);
      var w := classCoefficients;
      CountLeaves(root);
      CheckedHasLeaf(root);
      var i := 0;
      while i < FOREST_MAX_CLASSES
        invariant 0 <= i <= FOREST_MAX_CLASSES
        invariant classCoefficients == w && numClasses == LeafCount(root)
        invariant forall c | 0 <= c < i :: w[c] == Share(CountClass(root, c), LeafCount(root))
        invariant forall c | i <= c < FOREST_MAX_CLASSES :: w[c] == CountClass(root, c) as real
      {
        w[i] := w[i] / numClasses as real;
        i := i + 1;
      }
      assert Shares(root, w[..]);
      hide Share, CountClass, CountUpTo;
      SharesSum(root, w[..]);
      EveryLeafCounted(root);
      WholeShare(LeafCount(root));
    }
  }
}
