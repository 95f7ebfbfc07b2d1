/** Decision trees: path-addressed insertion and lookup, the completeness check
    and the classifier. `D` stands for the C type double: `real` where its
    arithmetic matters, a 64-bit pattern where its bytes do. */
module ForestTree {
  import opened Common

  /** What a node carries besides its children. */
  datatype Label<+D> =
    | Numeric(attr: Bytes, val: D)
    | Categorical(attr: Bytes, vals: seq<D>)
    | Leaf(predVal: D, stats: seq<D>, statsTotal: int)

  datatype Tree<+D> = Empty | Node(info: Label<D>, left: Tree<D>, right: Tree<D>)

  predicate IsLeaf<D>(t: Tree<D>) {
    t.Node? && t.info.Leaf?
  }

  // ------------------------------------------------ insertion and lookup

  /** Puts `n` where `path` leads. A path starts with one character for the
      root, and then names a turn, 'l' or 'r', per level. */
  function Add<D>(t: Tree<D>, path: string, n: Tree<D>): (Status, Tree<D>)
    requires |path| >= 1
    decreases |path|
  {
    if |path| == 1 then (Ok, n)
    else if t.Empty? then (Err, t)
    else if path[1] == 'r' then
      var (status, right) := Add(t.right, path[1..], n);
      (status, t.(right := right))
    else if path[1] == 'l' then
      var (status, left) := Add(t.left, path[1..], n);
      (status, t.(left := left))
    else (Err, t)
  }

  function Get<D>(t: Tree<D>, path: string): Tree<D>
    requires |path| >= 1
    decreases |path|
  {
    if t.Empty? then Empty
    else if |path| == 1 then t
    else if path[1] == 'r' then Get(t.right, path[1..])
    else if path[1] == 'l' then Get(t.left, path[1..])
    else Empty
  }

  /** Insertion succeeds exactly when the path is the root or extends the path
      of an existing node by one turn; it is then found where it was put, and
      otherwise nothing changes. */
  lemma {:induction false} AddSpec<D>(t: Tree<D>, path: string, n: Tree<D>)
    requires |path| >= 1
    ensures var (status, t') := Add(t, path, n);
            && (status.Ok? <==> |path| == 1 || (Get(t, path[..|path| - 1]).Node? && path[|path| - 1] in {'l', 'r'}))
            && (status.Ok? ==> Get(t', path) == n)
            && (status.Err? ==> t' == t)
    decreases |path|
  {
    if |path| > 1 && t.Node? && path[1] in {'l', 'r'} {
      assert path[1..][..|path| - 2] == path[..|path| - 1][1..];
      AddSpec(if path[1] == 'r' then t.right else t.left, path[1..], n);
    }
  }

  /** Neither path leads through the other. */
  predicate Incomparable(p: string, q: string)
    requires |p| >= 1 && |q| >= 1
  {
    !(p[1..] <= q[1..]) && !(q[1..] <= p[1..])
  }

  /** Insertion leaves everything off the path as it was. */
  lemma {:induction false} AddFrame<D>(t: Tree<D>, path: string, n: Tree<D>, other: string)
    requires |path| >= 1 && |other| >= 1 && Incomparable(path, other)
    ensures Get(Add(t, path, n).1, other) == Get(t, other)
    decreases |path|
  {
    if t.Node? && path[1] == other[1] && path[1] in {'l', 'r'} {
      var child := if path[1] == 'r' then t.right else t.left;
      assert path[1..] == [path[1]] + path[1..][1..] && other[1..] == [other[1]] + other[1..][1..];
      AddFrame(child, path[1..], n, other[1..]);
    }
  }

  // --------------------------------------------------------------- checks

  function Check<D>(t: Tree<D>): Status {
    if t.Empty? then Err
    else if t.info.Leaf? then Ok
    else if Check(t.left).Err? then Err
    else if Check(t.right).Err? then Err
    else Ok
  }

  /** Where a series of turns (true for right) leads; a leaf is the end of it. */
  function Descend<D>(t: Tree<D>, turns: seq<bool>): Tree<D> {
    if t.Empty? || t.info.Leaf? || turns == [] then t
    else Descend(if turns[0] then t.right else t.left, turns[1..])
  }

  lemma {:induction false} CheckedDescends<D>(t: Tree<D>, turns: seq<bool>)
    requires Check(t).Ok?
    ensures Descend(t, turns).Node?
  {
    if !t.info.Leaf? && turns != [] {
      CheckedDescends(if turns[0] then t.right else t.left, turns[1..]);
    }
  }

  lemma {:induction false} UncheckedHasGap<D>(t: Tree<D>) returns (turns: seq<bool>)
    requires Check(t).Err?
    ensures Descend(t, turns).Empty?
  {
    turns := [];
    if t.Node? {
      var right := Check(t.left).Ok?;
      var rest := UncheckedHasGap(if right then t.right else t.left);
      turns := [right] + rest;
      assert turns[1..] == rest;
    }
  }

  /** The check accepts exactly the trees in which no series of turns ends at a
      missing node. */
  lemma CheckSpec<D>(t: Tree<D>)
    ensures Check(t).Ok? <==> forall turns :: Descend(t, turns).Node?
  {
    if Check(t).Ok? {
      forall turns {
        CheckedDescends(t, turns);
      }
    } else {
      var turns := UncheckedHasGap(t);
      assert !Descend(t, turns).Node?;
    }
  }

  // ------------------------------------------------------- classification

  const MAX_NUM_FIELDS := 2048

  /** The C library's number parsers, left open. */
  datatype Numerals = Numerals(atoi: Bytes -> int, atof: Bytes -> real)

  datatype FeatureVec = FeatureVec(features: seq<(Bytes, real)>, numericFields: seq<real>)

  predicate ValidFeatureVec(fv: FeatureVec) {
    |fv.numericFields| == MAX_NUM_FIELDS
  }

  /** The cast of a double to an int, towards zero. */
  function Truncate(x: real): (n: int)
    ensures CutsTo(x, n)
  {
    if x >= 0.0 then x.Floor else -(-x).Floor
  }

  /** `n` is the int next to `x` on the side of zero. */
  predicate CutsTo(x: real, n: int) {
    if x >= 0.0 then n as real <= x < n as real + 1.0 else n as real - 1.0 < x <= n as real
  }

  /** The value of the first feature with this key. */
  function FirstValue(features: seq<(Bytes, real)>, key: Bytes): real {
    if features == [] then 0.0
    else if features[0].0 == key then features[0].1
    else FirstValue(features[1..], key)
  }

  function GetValue(num: Numerals, fv: FeatureVec, key: Bytes): real
    requires ValidFeatureVec(fv)
  {
    var nkey := Truncate(num.atof(key));
    if 0 < nkey < MAX_NUM_FIELDS then fv.numericFields[nkey] else FirstValue(fv.features, key)
  }

  method FeatureVecGetValue(num: Numerals, fv: FeatureVec, key: Bytes) returns (value: real)
    requires ValidFeatureVec(fv)
    ensures value == GetValue(num, fv, key)
  {
    var nkey := Truncate(num.atof(key));
    if 0 < nkey < MAX_NUM_FIELDS {
      return fv.numericFields[nkey];
    }
    var i := 0;
    while i < |fv.features|
      invariant i <= |fv.features|
      invariant FirstValue(fv.features, key) == FirstValue(fv.features[i..], key)
    {
      if key == fv.features[i].0 {
        return fv.features[i].1;
      }
      i := i + 1;
    }
    return 0.0;
  }

  /** `value` belongs to the first feature with this key, or is 0 if none has it. */
  ghost predicate IsFirstValue(features: seq<(Bytes, real)>, key: Bytes, value: real) {
    || (exists i :: 0 <= i < |features| && features[i] == (key, value)
                    && forall j | 0 <= j < i :: features[j].0 != key)
    || (value == 0.0 && forall j | 0 <= j < |features| :: features[j].0 != key)
  }

  lemma {:induction false} FirstValueIs(features: seq<(Bytes, real)>, key: Bytes)
    ensures IsFirstValue(features, key, FirstValue(features, key))
  {
    if features != [] && features[0].0 != key {
      var rest := features[1..];
      var value := FirstValue(rest, key);
      FirstValueIs(rest, key);
      if i :| 0 <= i < |rest| && rest[i] == (key, value) && forall j | 0 <= j < i :: rest[j].0 != key {
        assert features[i + 1] == (key, value);
        assert forall j | 0 < j < i + 1 :: features[j].0 == rest[j - 1].0;
      } else {
        assert forall j | 0 < j < |features| :: features[j].0 == rest[j - 1].0;
      }
    } else if features != [] {
      assert features[0] == (key, FirstValue(features, key));
    }
  }

  /** What looking up a key must give: the numeric field that the key names when
      it is a number whose whole part is from 1 to 2047, and otherwise the value
      of the first feature with that very key, or 0. */
  ghost predicate HasValue(num: Numerals, fv: FeatureVec, key: Bytes, value: real)
    requires ValidFeatureVec(fv)
  {
    forall nkey: int | CutsTo(num.atof(key), nkey) ::
      if 0 < nkey < 2048 then value == fv.numericFields[nkey] else IsFirstValue(fv.features, key, value)
  }

  lemma IsFirstValueOnce(features: seq<(Bytes, real)>, key: Bytes, v: real, w: real)
    requires IsFirstValue(features, key, v) && IsFirstValue(features, key, w)
    ensures v == w
  {
  }

  /** The lookup gives the value that the key has, and a key has no other. */
  lemma LookupSpec(num: Numerals, fv: FeatureVec, key: Bytes, value: real)
    requires ValidFeatureVec(fv)
    ensures HasValue(num, fv, key, value) <==> value == GetValue(num, fv, key)
  {
    var nkey := Truncate(num.atof(key));
    assert CutsTo(num.atof(key), nkey);
    FirstValueIs(fv.features, key);
    if HasValue(num, fv, key, value) && !(0 < nkey < 2048) {
      IsFirstValueOnce(fv.features, key, value, FirstValue(fv.features, key));
    }
  }

  /** Whether a feature vector turns left at a splitter. */
  predicate TurnsLeft(num: Numerals, fv: FeatureVec, info: Label<real>)
    requires ValidFeatureVec(fv) && !info.Leaf?
  {
    var value := GetValue(num, fv, info.attr);
    if info.Numeric? then value <= info.val else value in info.vals
  }

  function Classify(num: Numerals, fv: FeatureVec, t: Tree<real>): Tree<real>
    requires ValidFeatureVec(fv)
  {
    if t.Empty? || t.info.Leaf? then t
    else if TurnsLeft(num, fv, t.info) then Classify(num, fv, t.left)
    else Classify(num, fv, t.right)
  }

  /** The path, extending `path`, that the classifier takes through `t`. */
  function ClassifyPath(num: Numerals, fv: FeatureVec, t: Tree<real>, path: string): string
    requires ValidFeatureVec(fv)
  {
    if t.Empty? || t.info.Leaf? then path
    else if TurnsLeft(num, fv, t.info) then ClassifyPath(num, fv, t.left, path + "l")
    else ClassifyPath(num, fv, t.right, path + "r")
  }

  method TreeClassify(num: Numerals, fv: FeatureVec, t: Tree<real>) returns (leaf: Tree<real>)
    requires ValidFeatureVec(fv)
    ensures leaf == Classify(num, fv, t)
    ensures Check(t).Ok? ==> IsLeaf(leaf)
    decreases t
  {
    if t.Empty? || t.info.Leaf? {
      return t;
    }
    var value := FeatureVecGetValue(num, fv, t.info.attr);
    if t.info.Numeric? {
      if value <= t.info.val {
        leaf := TreeClassify(num, fv, t.left);
      } else {
        leaf := TreeClassify(num, fv, t.right);
      }
    } else {
      var i := 0;
      while i < |t.info.vals|
        invariant i <= |t.info.vals|
        invariant value !in t.info.vals[..i]
      {
        if value == t.info.vals[i] {
          leaf := TreeClassify(num, fv, t.left);
          return;
        }
        i := i + 1;
      }
      leaf := TreeClassify(num, fv, t.right);
    }
  }

  lemma {:induction false} PathGrows(num: Numerals, fv: FeatureVec, t: Tree<real>, path: string)
    requires ValidFeatureVec(fv)
    ensures path <= ClassifyPath(num, fv, t, path)
  {
    if t.Node? && !t.info.Leaf? {
      PathGrows(num, fv, t.left, path + "l");
      PathGrows(num, fv, t.right, path + "r");
    }
  }

  lemma {:induction false} GetAlongPath(num: Numerals, fv: FeatureVec, t: Tree<real>, path: string, k: nat)
    requires ValidFeatureVec(fv) && k + 1 == |path|
    ensures k < |ClassifyPath(num, fv, t, path)| && Get(t, ClassifyPath(num, fv, t, path)[k..]) == Classify(num, fv, t)
  {
    PathGrows(num, fv, t, path);
    if t.Node? && !t.info.Leaf? {
      var turn := if TurnsLeft(num, fv, t.info) then "l" else "r";
      var child := if TurnsLeft(num, fv, t.info) then t.left else t.right;
      PathGrows(num, fv, child, path + turn);
      GetAlongPath(num, fv, child, path + turn, k + 1);
      var whole := ClassifyPath(num, fv, t, path);
      assert whole[k + 1] == turn[0];
      assert whole[k..][1..] == whole[k + 1..];
    }
  }

  /** A feature vector belongs on the left of a numeric splitter when the value
      of its attribute is at most the threshold, and of a categorical one when
      it is among the values. */
  ghost predicate BelongsLeft(num: Numerals, fv: FeatureVec, info: Label<real>)
    requires ValidFeatureVec(fv) && !info.Leaf?
  {
    exists value :: HasValue(num, fv, info.attr, value) &&
      match info
      case Numeric(_, val) => value <= val
      case Categorical(_, vals) => exists i :: 0 <= i < |vals| && vals[i] == value
  }

  lemma TurnsWhereItBelongs(num: Numerals, fv: FeatureVec, info: Label<real>)
    requires ValidFeatureVec(fv) && !info.Leaf?
    ensures TurnsLeft(num, fv, info) <==> BelongsLeft(num, fv, info)
  {
    hide GetValue, HasValue;
    var value := GetValue(num, fv, info.attr);
    LookupSpec(num, fv, info.attr, value);
    if BelongsLeft(num, fv, info) {
      var v :| HasValue(num, fv, info.attr, v) &&
        match info
        case Numeric(_, val) => v <= val
        case Categorical(_, vals) => exists i :: 0 <= i < |vals| && vals[i] == v;
      LookupSpec(num, fv, info.attr, v);
    }
  }

  /** At every node on the way down, the path goes on to the side where the
      feature vector belongs; `path` is the way to `t` from node `k - 1`. */
  lemma {:induction false} TurnAlongPath(num: Numerals, fv: FeatureVec, t: Tree<real>, path: string, n: nat)
    requires ValidFeatureVec(fv) && |path| >= 1
    requires |path| <= n < |ClassifyPath(num, fv, t, path)|
    ensures var whole := ClassifyPath(num, fv, t, path);
            var node := Get(t, whole[|path| - 1..n]);
            && node.Node? && !node.info.Leaf? && whole[n] in {'l', 'r'}
            && (whole[n] == 'l' <==> BelongsLeft(num, fv, node.info))
  {
    hide BelongsLeft, TurnsLeft;
    var whole, k := ClassifyPath(num, fv, t, path), |path| - 1;
    PathGrows(num, fv, t, path);
    assert t.Node? && !t.info.Leaf?;
    TurnsWhereItBelongs(num, fv, t.info);
    var left := TurnsLeft(num, fv, t.info);
    var child, longer := if left then t.left else t.right, path + if left then "l" else "r";
    PathGrows(num, fv, child, longer);
    assert whole == ClassifyPath(num, fv, child, longer) && whole[k + 1] == longer[k + 1];
    if n == |path| {
      assert |whole[k..n]| == 1;
    } else {
      TurnAlongPath(num, fv, child, longer, n);
      assert whole[k..n][1..] == whole[k + 1..n] && whole[k..n][1] == whole[k + 1];
    }
  }

  /** The classifier's answer, without the classifier: the path of the leaf it
      returns leads from the root through splitters only, and at each of them
      turns left exactly where the feature vector belongs left. */
  lemma PathFollowsSplitters(num: Numerals, fv: FeatureVec, t: Tree<real>, n: nat)
    requires ValidFeatureVec(fv) && Check(t).Ok? && 1 <= n < |ClassifyPath(num, fv, t, ".")|
    ensures var path := ClassifyPath(num, fv, t, ".");
            var node := Get(t, path[..n]);
            && node.Node? && !node.info.Leaf? && path[n] in {'l', 'r'}
            && (path[n] == 'l' <==> BelongsLeft(num, fv, node.info))
  {
    TurnAlongPath(num, fv, t, ".", n);
    var path := ClassifyPath(num, fv, t, ".");
    assert path[0..n] == path[..n];
  }

  /** The letters of a path: 'l' is the left child, 'r' the right one. */
  lemma TurnLetters<D>(info: Label<D>, left: Tree<D>, right: Tree<D>, n: Tree<D>)
    ensures Get(Node(info, left, right), ".l") == left && Get(Node(info, left, right), ".r") == right
    ensures Add(Node(info, left, right), ".l", n) == (Ok, Node(info, n, right))
    ensures Add(Node(info, left, right), ".r", n) == (Ok, Node(info, left, n))
  {
    assert ".l"[1..] == "l" && ".r"[1..] == "r";
    assert Get(left, "l") == left && Get(right, "r") == right;
  }

  /** A checked tree gives every feature vector a leaf, and it is the tree's own
      node at the path the classifier takes. */
  lemma {:induction false} CheckedTreeClassifies(num: Numerals, fv: FeatureVec, t: Tree<real>)
    requires ValidFeatureVec(fv) && Check(t).Ok?
    ensures IsLeaf(Classify(num, fv, t))
    ensures |ClassifyPath(num, fv, t, ".")| >= 1
    ensures Get(t, ClassifyPath(num, fv, t, ".")) == Classify(num, fv, t)
  {
    PathGrows(num, fv, t, ".");
    GetAlongPath(num, fv, t, ".", 0);
    LeafReached(num, fv, t);
  }

  lemma {:induction false} LeafReached(num: Numerals, fv: FeatureVec, t: Tree<real>)
    requires ValidFeatureVec(fv) && Check(t).Ok?
    ensures IsLeaf(Classify(num, fv, t))
  {
    if !t.info.Leaf? {
      LeafReached(num, fv, t.left);
      LeafReached(num, fv, t.right);
    }
  }
}
