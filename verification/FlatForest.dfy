/**
 FlatForest: decision trees, each stored as parallel node arrays, are compiled into one set of arrays in which children
 are absolute positions and a leaf points at itself; all trees are then walked together for the same number of steps.
 The result is compared with walking each tree from its root to a leaf.
 */
module FlatForest {
  import opened Basics

  // -- Trees as values -----------------------------------------------------------------------------

  datatype Tree =
    | Leaf(counts: seq<real>)
    | Node(feature: nat, threshold: real, left: Tree, right: Tree)

  function Depth(t: Tree): nat {
    match t
    case Leaf(_) => 0
    case Node(_, _, l, r) => 1 + Max(Depth(l), Depth(r))
  }

  /** Where a path of turns (true for left) leads. */
  function Follow(t: Tree, path: seq<bool>): Tree {
    if path == [] || t.Leaf? then t else Follow(if path[0] then t.left else t.right, path[1..])
  }

  /** The depth is the length of the longest path to a leaf. */
  lemma {:induction false} DepthIsLongestPath(t: Tree) returns (path: seq<bool>)
    ensures |path| == Depth(t) && Follow(t, path).Leaf? && (path != [] ==> !Follow(t, path[..|path| - 1]).Leaf?)
    ensures forall p: seq<bool> | |p| >= Depth(t) :: Follow(t, p).Leaf?
  {
    path := [];
    if t.Node? {
      var left := DepthIsLongestPath(t.left);
      var right := DepthIsLongestPath(t.right);
      var turn := Depth(t.left) >= Depth(t.right);
      var rest := if turn then left else right;
      path := [turn] + rest;
      assert path[1..] == rest;
      if rest != [] {
        assert path[..|path| - 1] == [turn] + rest[..|rest| - 1];
        assert ([turn] + rest[..|rest| - 1])[1..] == rest[..|rest| - 1];
      } else {
        assert path[..|path| - 1] == [];
      }
    }
  }

  /** Leaves hold one count per class, and every feature is a column of the input. */
  ghost predicate WellFormed(t: Tree, classes: nat, columns: nat) {
    match t
    case Leaf(counts) => |counts| == classes
    case Node(f, _, l, r) => f < columns && WellFormed(l, classes, columns) && WellFormed(r, classes, columns)
  }

  /** The share of class `col` in the counts of a leaf; a zero total counts as one. */
  function Share(counts: seq<real>, col: nat): real
    requires col < |counts|
  {
    var total := Sum(counts);
    counts[col] / (if total == 0.0 then 1.0 else total)
  }

  function Scaled(xs: seq<real>, d: real): (r: seq<real>)
    requires d != 0.0
    ensures |r| == |xs|
  {
    seq(|xs|, i requires 0 <= i < |xs| => xs[i] / d)
  }

  lemma {:induction false} SumOfScaled(xs: seq<real>, d: real)
    requires d != 0.0
    ensures Sum(Scaled(xs, d)) == Sum(xs) / d
  {
    if xs != [] {
      var front := xs[..|xs| - 1];
      SumOfScaled(front, d);
      assert Scaled(xs, d)[..|front|] == Scaled(front, d);
    }
  }

  /** The shares of a leaf are proportional to its counts and add up to one. */
  lemma SharesAddUp(counts: seq<real>)
    requires Sum(counts) != 0.0
    ensures forall i | 0 <= i < |counts| :: Share(counts, i) * Sum(counts) == counts[i]
    ensures Sum(seq(|counts|, i requires 0 <= i < |counts| => Share(counts, i))) == 1.0
  {
    var total := Sum(counts);
    SumOfScaled(counts, total);
    assert total / total == 1.0;
    hide Sum;
    assert seq(|counts|, i requires 0 <= i < |counts| => Share(counts, i)) == Scaled(counts, total);
  }

  /** The class share at the leaf that an input reaches from the root. */
  ghost function Evaluate(t: Tree, x: seq<real>, col: nat, classes: nat): real
    requires col < classes && WellFormed(t, classes, |x|)
  {
    match t
    case Leaf(counts) => Share(counts, col)
    case Node(f, th, l, r) => if x[f] <= th then Evaluate(l, x, col, classes) else Evaluate(r, x, col, classes)
  }

  /** Up to the threshold an input goes left, above it right; a leaf without counts has no share of anything. */
  lemma TurnsAtThreshold(x: seq<real>, col: nat, classes: nat, f: nat, th: real, l: Tree, r: Tree)
    requires col < classes && WellFormed(Node(f, th, l, r), classes, |x|)
    ensures x[f] < th || x[f] == th ==> Evaluate(Node(f, th, l, r), x, col, classes) == Evaluate(l, x, col, classes)
    ensures x[f] > th ==> Evaluate(Node(f, th, l, r), x, col, classes) == Evaluate(r, x, col, classes)
  {
  }

  lemma EmptyLeaf(counts: seq<real>, col: nat)
    requires col < |counts| && Sum(counts) == 0.0
    ensures Share(counts, col) == counts[col]
  {
    hide Sum;
  }

  // -- Trees as arrays -----------------------------------------------------------------------------

  /** One fitted tree: node 0 is the root, and a leaf has no left child (-1). */
  datatype TreeArrays = TreeArrays(childrenLeft: seq<int>, childrenRight: seq<int>, feature: seq<int>,
                                   threshold: seq<real>, value: seq<seq<real>>, maxDepth: nat)
  {
    ghost predicate Consistent(classes: nat) {
      && 0 < |childrenLeft| == |childrenRight| == |feature| == |threshold| == |value|
      && forall i | 0 <= i < |value| :: |value[i]| == classes
    }
  }

  /** The nodes below node i are those of t. */
  ghost predicate Encodes(a: TreeArrays, classes: nat, i: int, t: Tree)
    requires a.Consistent(classes)
    decreases t
  {
    && 0 <= i < |a.childrenLeft|
    && match t
       case Leaf(counts) => a.childrenLeft[i] == -1 && a.value[i] == counts
       case Node(f, th, l, r) =>
         && a.childrenLeft[i] != -1 && a.feature[i] == f && a.threshold[i] == th
         && Encodes(a, classes, a.childrenLeft[i], l) && Encodes(a, classes, a.childrenRight[i], r)
  }

  ghost predicate IsTree(a: TreeArrays, classes: nat, t: Tree) {
    a.Consistent(classes) && Encodes(a, classes, 0, t) && a.maxDepth == Depth(t)
  }

  /** The arrays of a fitted forest and the trees they stand for. */
  ghost predicate IsForest(forest: seq<TreeArrays>, trees: seq<Tree>, classes: nat, columns: nat) {
    && |forest| == |trees| > 0
    && (forall j: nat | j < |trees| :: WellFormed(trees[j], classes, columns))
    && (forall j: nat | j < |forest| :: IsTree(forest[j], classes, trees[j]))
  }

  // -- The compiled forest -------------------------------------------------------------------------

  datatype Threshold = Finite(value: real) | Infinity {
    predicate Admits(x: real) {
      this.Infinity? || x <= value
    }
  }

  datatype Flat = Flat(feature: seq<int>, threshold: seq<Threshold>, left: seq<int>, right: seq<int>,
                       prob: seq<real>, roots: seq<int>, maxDepth: nat)

  /** The number of nodes of the first k trees. */
  function Offset(forest: seq<TreeArrays>, k: nat): nat
    requires k <= |forest|
  {
    if k == 0 then 0 else Offset(forest, k - 1) + |forest[k - 1].childrenLeft|
  }

  /** Node i of a tree placed at offset `off`: its children are in the same tree's range, and a leaf is its own child. */
  ghost predicate NodePlaced(f: Flat, a: TreeArrays, classes: nat, col: nat, off: nat, i: nat)
    requires a.Consistent(classes) && col < classes && i < |a.childrenLeft|
  {
    var p := off + i;
    && p < |f.feature| && p < |f.threshold| && p < |f.left| && p < |f.right| && p < |f.prob|
    && f.prob[p] == Share(a.value[i], col)
    && if a.childrenLeft[i] == -1 then
         f.feature[p] == 0 && f.threshold[p] == Infinity && f.left[p] == p && f.right[p] == p
       else
         && f.feature[p] == a.feature[i] && f.threshold[p] == Finite(a.threshold[i])
         && f.left[p] == off + a.childrenLeft[i] && f.right[p] == off + a.childrenRight[i]
  }

  ghost predicate TreePlaced(f: Flat, a: TreeArrays, classes: nat, col: nat, off: nat)
    requires a.Consistent(classes) && col < classes
  {
    forall i: nat | i < |a.childrenLeft| :: NodePlaced(f, a, classes, col, off, i)
  }

  ghost predicate HoldsTree(f: Flat, forest: seq<TreeArrays>, classes: nat, col: nat, j: nat)
    requires j < |forest| && j < |f.roots| && col < classes
  {
    && f.roots[j] == Offset(forest, j)
    && forest[j].Consistent(classes)
    && TreePlaced(f, forest[j], classes, col, Offset(forest, j))
    && forest[j].maxDepth <= f.maxDepth
  }

  /** f holds the first k trees one after the other. */
  ghost predicate Compiled(f: Flat, forest: seq<TreeArrays>, classes: nat, col: nat, k: nat)
    requires k <= |forest| && col < classes
  {
    && |f.feature| == |f.threshold| == |f.left| == |f.right| == |f.prob| == Offset(forest, k)
    && |f.roots| == k
    && (forall j: nat | j < k :: HoldsTree(f, forest, classes, col, j))
    && (k == 0 ==> f.maxDepth == 0)
    && (k > 0 ==> exists j: nat | j < k :: forest[j].maxDepth == f.maxDepth)
  }

  /** The arrays of one tree, moved by an offset. */
  function Relocate(a: TreeArrays, classes: nat, col: nat, off: nat): (m: Flat)
    requires a.Consistent(classes) && col < classes
    ensures |m.feature| == |m.threshold| == |m.left| == |m.right| == |m.prob| == |a.childrenLeft|
    ensures m.maxDepth == a.maxDepth
  {
    var n := |a.childrenLeft|;
    Flat(
      seq(n, i requires 0 <= i < n => if a.childrenLeft[i] == -1 then 0 else a.feature[i]),
      seq(n, i requires 0 <= i < n => if a.childrenLeft[i] == -1 then Infinity else Finite(a.threshold[i])),
      seq(n, i requires 0 <= i < n => (if a.childrenLeft[i] == -1 then i else a.childrenLeft[i]) + off),
      seq(n, i requires 0 <= i < n => (if a.childrenLeft[i] == -1 then i else a.childrenRight[i]) + off),
      seq(n, i requires 0 <= i < n => Share(a.value[i], col)),
      [off],
      a.maxDepth)
  }

  lemma EarlierTreesStay(f: Flat, g: Flat, a: TreeArrays, classes: nat, col: nat, off: nat)
    requires a.Consistent(classes) && col < classes && TreePlaced(f, a, classes, col, off)
    requires f.feature <= g.feature && f.threshold <= g.threshold && f.left <= g.left && f.right <= g.right
    requires f.prob <= g.prob
    ensures TreePlaced(g, a, classes, col, off)
  {
    forall i: nat | i < |a.childrenLeft| ensures NodePlaced(g, a, classes, col, off, i) {
      assert NodePlaced(f, a, classes, col, off, i);
    }
  }

  lemma LastTreePlaced(f: Flat, a: TreeArrays, classes: nat, col: nat, off: nat, g: Flat)
    requires a.Consistent(classes) && col < classes
    requires |f.feature| == |f.threshold| == |f.left| == |f.right| == |f.prob| == off
    requires
      var m := Relocate(a, classes, col, off);
      && g.feature == f.feature + m.feature && g.threshold == f.threshold + m.threshold
      && g.left == f.left + m.left && g.right == f.right + m.right && g.prob == f.prob + m.prob
    ensures TreePlaced(g, a, classes, col, off)
  {
    hide Share;
  }

  lemma CompiledNext(f: Flat, g: Flat, forest: seq<TreeArrays>, classes: nat, col: nat, k: nat)
    requires k < |forest| && col < classes && forest[k].Consistent(classes) && Compiled(f, forest, classes, col, k)
    requires
      var m := Relocate(forest[k], classes, col, Offset(forest, k));
      && g.feature == f.feature + m.feature && g.threshold == f.threshold + m.threshold
      && g.left == f.left + m.left && g.right == f.right + m.right && g.prob == f.prob + m.prob
      && g.roots == f.roots + [Offset(forest, k)] && g.maxDepth == Max(f.maxDepth, m.maxDepth)
    ensures Compiled(g, forest, classes, col, k + 1)
  {
    hide Share, TreePlaced, Relocate;
    LastTreePlaced(f, forest[k], classes, col, Offset(forest, k), g);
    forall j: nat | j < k ensures HoldsTree(g, forest, classes, col, j) {
      assert HoldsTree(f, forest, classes, col, j);
      EarlierTreesStay(f, g, forest[j], classes, col, Offset(forest, j));
    }
    assert HoldsTree(g, forest, classes, col, k);
    if k > 0 && f.maxDepth > forest[k].maxDepth {
      var j: nat :| j < k && forest[j].maxDepth == f.maxDepth;
      assert j < k + 1 && forest[j].maxDepth == g.maxDepth;
    } else {
      assert forest[k].maxDepth == g.maxDepth;
    }
  }

  /** The constructor's loop over the fitted trees. */
  method Compile(forest: seq<TreeArrays>, classes: nat, col: nat) returns (f: Flat)
    requires |forest| > 0 && col < classes
    requires forall j | 0 <= j < |forest| :: forest[j].Consistent(classes)
    ensures Compiled(f, forest, classes, col, |forest|)
  {
    hide Compiled, Relocate;
    f := Flat([], [], [], [], [], [], 0);
    NothingCompiled(f, forest, classes, col);
    var offset, k := 0, 0;
    while k < |forest|
      invariant 0 <= k <= |forest| && offset == Offset(forest, k)
      invariant Compiled(f, forest, classes, col, k)
    {
      var m := Relocate(forest[k], classes, col, offset);
      var g := Flat(f.feature + m.feature, f.threshold + m.threshold, f.left + m.left, f.right + m.right,
                    f.prob + m.prob, f.roots + [offset], Max(f.maxDepth, m.maxDepth));
      CompiledNext(f, g, forest, classes, col, k);
      offset := offset + |forest[k].childrenLeft|;
      f := g;
      k := k + 1;
    }
  }

  lemma NothingCompiled(f: Flat, forest: seq<TreeArrays>, classes: nat, col: nat)
    requires col < classes && f == Flat([], [], [], [], [], [], 0)
    ensures Compiled(f, forest, classes, col, 0)
  {
  }

  // -- Walking -------------------------------------------------------------------------------------

  /** One step of every walk: `where(x[feature] <= threshold, left, right)`. */
  function Next(f: Flat, x: seq<real>, p: int): int
    requires 0 <= p < |f.feature| && |f.feature| == |f.threshold| == |f.left| == |f.right|
    requires 0 <= f.feature[p] < |x|
  {
    if f.threshold[p].Admits(x[f.feature[p]]) then f.left[p] else f.right[p]
  }

  /** The subtree left after d steps of the recursive walk; a leaf stays where it is. */
  ghost function Descend(t: Tree, x: seq<real>, classes: nat, d: nat): (s: Tree)
    requires WellFormed(t, classes, |x|)
    ensures WellFormed(s, classes, |x|)
    decreases d
  {
    if d == 0 || t.Leaf? then t
    else Descend(if x[t.feature] <= t.threshold then t.left else t.right, x, classes, d - 1)
  }

  lemma {:induction false} DescendOnce(t: Tree, x: seq<real>, classes: nat, d: nat)
    requires WellFormed(t, classes, |x|)
    ensures Descend(t, x, classes, d + 1) == Descend(Descend(t, x, classes, d), x, classes, 1)
    decreases d
  {
    if d > 0 && t.Node? {
      DescendOnce(if x[t.feature] <= t.threshold then t.left else t.right, x, classes, d - 1);
    }
  }

  /** From its depth on, a walk is parked at the leaf that the recursive evaluation reaches. */
  lemma {:induction false} DescendReachesLeaf(t: Tree, x: seq<real>, classes: nat, col: nat, d: nat)
    requires WellFormed(t, classes, |x|) && col < classes && d >= Depth(t)
    ensures Descend(t, x, classes, d).Leaf?
    ensures Share(Descend(t, x, classes, d).counts, col) == Evaluate(t, x, col, classes)
    decreases d
  {
    hide Share;
    match t
    case Leaf(_) =>
    case Node(f, th, l, r) =>
      DescendReachesLeaf(if x[f] <= th then l else r, x, classes, col, d - 1);
  }

  /** Position p, inside the range of the tree placed at `off`, is the root of subtree s. */
  ghost predicate AtSubtree(a: TreeArrays, classes: nat, off: nat, p: int, s: Tree)
    requires a.Consistent(classes)
  {
    off <= p < off + |a.childrenLeft| && Encodes(a, classes, p - off, s)
  }

  /** One step in the flat arrays is one step of the recursive walk, inside the same tree's range. */
  lemma StepSimulates(f: Flat, a: TreeArrays, classes: nat, col: nat, off: nat, x: seq<real>, p: int, s: Tree)
    requires a.Consistent(classes) && col < classes && TreePlaced(f, a, classes, col, off) && |x| > 0
    requires |f.feature| == |f.threshold| == |f.left| == |f.right|
    requires AtSubtree(a, classes, off, p, s) && WellFormed(s, classes, |x|)
    ensures p < |f.feature| && 0 <= f.feature[p] < |x|
    ensures AtSubtree(a, classes, off, Next(f, x, p), Descend(s, x, classes, 1))
  {
    hide Share;
    assert NodePlaced(f, a, classes, col, off, p - off);
    if s.Node? {
      var child := if x[s.feature] <= s.threshold then s.left else s.right;
      assert Descend(s, x, classes, 1) == Descend(child, x, classes, 0) == child;
      var i := p - off;
      var c := if x[s.feature] <= s.threshold then a.childrenLeft[i] else a.childrenRight[i];
      assert Encodes(a, classes, c, child) && Next(f, x, p) == off + c;
    }
  }

  /** All walks of one input after d steps. */
  ghost predicate Walked(nodes: seq<int>, forest: seq<TreeArrays>, trees: seq<Tree>, classes: nat, x: seq<real>, d: nat)
  {
    && |nodes| == |forest| == |trees|
    && forall j: nat | j < |forest| ::
         && WellFormed(trees[j], classes, |x|)
         && IsTree(forest[j], classes, trees[j])
         && AtSubtree(forest[j], classes, Offset(forest, j), nodes[j], Descend(trees[j], x, classes, d))
  }

  lemma WalkStep(f: Flat, p: int, x: seq<real>, forest: seq<TreeArrays>, trees: seq<Tree>, classes: nat, col: nat,
                 d: nat, j: nat)
    requires IsForest(forest, trees, classes, |x|) && col < classes && |x| > 0 && j < |forest|
    requires Compiled(f, forest, classes, col, |forest|) && WellFormed(trees[j], classes, |x|)
    requires AtSubtree(forest[j], classes, Offset(forest, j), p, Descend(trees[j], x, classes, d))
    ensures 0 <= p < |f.feature| == |f.threshold| == |f.left| == |f.right|
    ensures 0 <= f.feature[p] < |x|
    ensures AtSubtree(forest[j], classes, Offset(forest, j), Next(f, x, p), Descend(trees[j], x, classes, d + 1))
  {
    hide Encodes, WellFormed, TreePlaced, Descend, Next;
    assert HoldsTree(f, forest, classes, col, j);
    StepSimulates(f, forest[j], classes, col, Offset(forest, j), x, p, Descend(trees[j], x, classes, d));
    DescendOnce(trees[j], x, classes, d);
  }

  /** One iteration of the loop, for one row of the input. */
  method Advance(f: Flat, nodes: seq<int>, x: seq<real>, ghost forest: seq<TreeArrays>, ghost trees: seq<Tree>,
                 ghost classes: nat, ghost col: nat, ghost d: nat) returns (after: seq<int>)
    requires IsForest(forest, trees, classes, |x|) && col < classes && |x| > 0
    requires Compiled(f, forest, classes, col, |forest|) && Walked(nodes, forest, trees, classes, x, d)
    ensures Walked(after, forest, trees, classes, x, d + 1)
  {
    hide AtSubtree, WellFormed, Compiled, Next, Descend, Encodes, Depth;
    forall j: nat | j < |forest|
      ensures 0 <= nodes[j] < |f.feature| == |f.threshold| == |f.left| == |f.right|
      ensures 0 <= f.feature[nodes[j]] < |x|
      ensures AtSubtree(forest[j], classes, Offset(forest, j), Next(f, x, nodes[j]), Descend(trees[j], x, classes, d + 1))
    {
      WalkStep(f, nodes[j], x, forest, trees, classes, col, d, j);
    }
    after := seq(|nodes|, j requires 0 <= j < |nodes| => Next(f, x, nodes[j]));
  }

  /** The mean over the trees of the class share at the leaf that x reaches. */
  ghost function ForestShare(trees: seq<Tree>, x: seq<real>, col: nat, classes: nat): real
    requires |trees| > 0 && col < classes
    requires forall j: nat | j < |trees| :: WellFormed(trees[j], classes, |x|)
  {
    Mean(seq(|trees|, j requires 0 <= j < |trees| => Evaluate(trees[j], x, col, classes)))
  }

  lemma LeafShare(f: Flat, a: TreeArrays, classes: nat, col: nat, off: nat, p: int, s: Tree)
    requires a.Consistent(classes) && col < classes && TreePlaced(f, a, classes, col, off)
    requires AtSubtree(a, classes, off, p, s) && s.Leaf?
    ensures |s.counts| == classes && 0 <= p < |f.prob| && f.prob[p] == Share(s.counts, col)
  {
    hide Share;
    assert NodePlaced(f, a, classes, col, off, p - off);
  }

  lemma {:induction false} ParkedAtLeaf(f: Flat, p: int, forest: seq<TreeArrays>, trees: seq<Tree>, classes: nat,
                                        col: nat, x: seq<real>, j: nat)
    requires IsForest(forest, trees, classes, |x|) && col < classes && j < |forest|
    requires Compiled(f, forest, classes, col, |forest|)
    requires AtSubtree(forest[j], classes, Offset(forest, j), p, Descend(trees[j], x, classes, f.maxDepth))
    ensures 0 <= p < |f.prob| && f.prob[p] == Evaluate(trees[j], x, col, classes)
  {
    hide Share, Evaluate, WellFormed, Depth, Descend, Encodes, AtSubtree, TreePlaced;
    assert HoldsTree(f, forest, classes, col, j);
    DescendReachesLeaf(trees[j], x, classes, col, f.maxDepth);
    LeafShare(f, forest[j], classes, col, Offset(forest, j), p, Descend(trees[j], x, classes, f.maxDepth));
  }

  lemma MeanOfLeaves(f: Flat, nodes: seq<int>, forest: seq<TreeArrays>, trees: seq<Tree>, classes: nat, col: nat,
                     x: seq<real>)
    requires IsForest(forest, trees, classes, |x|) && col < classes
    requires Compiled(f, forest, classes, col, |forest|) && Walked(nodes, forest, trees, classes, x, f.maxDepth)
    ensures forall j | 0 <= j < |nodes| :: 0 <= nodes[j] < |f.prob|
    ensures Mean(seq(|nodes|, j requires 0 <= j < |nodes| => f.prob[nodes[j]])) == ForestShare(trees, x, col, classes)
  {
    hide Share, Evaluate, WellFormed, Mean, Compiled, Encodes, Depth, AtSubtree;
    forall j: nat | j < |forest|
      ensures 0 <= nodes[j] < |f.prob| && f.prob[nodes[j]] == Evaluate(trees[j], x, col, classes)
    {
      ParkedAtLeaf(f, nodes[j], forest, trees, classes, col, x, j);
    }
    assert seq(|nodes|, j requires 0 <= j < |nodes| => f.prob[nodes[j]])
        == seq(|trees|, j requires 0 <= j < |trees| => Evaluate(trees[j], x, col, classes));
  }

  /** The vectorised walk of every tree for every row. */
  method PredictBotProba(f: Flat, rows: seq<seq<real>>, ghost forest: seq<TreeArrays>, ghost trees: seq<Tree>,
                         ghost classes: nat, ghost col: nat, ghost columns: nat) returns (probabilities: seq<real>)
    requires IsForest(forest, trees, classes, columns) && col < classes && columns > 0
    requires forall i | 0 <= i < |rows| :: |rows[i]| == columns
    requires Compiled(f, forest, classes, col, |forest|)
    ensures |probabilities| == |rows|
    ensures forall i | 0 <= i < |rows| :: probabilities[i] == ForestShare(trees, rows[i], col, classes)
  {
    hide IsTree, WellFormed, ForestShare, Mean, Walked, Compiled;
    var nodes := seq(|rows|, _ => f.roots);
    forall i | 0 <= i < |rows| ensures Walked(nodes[i], forest, trees, classes, rows[i], 0) {
      AtRoots(f, forest, trees, classes, col, rows[i]);
    }
    var step := 0;
    while step < f.maxDepth
      invariant 0 <= step <= f.maxDepth && |nodes| == |rows|
      invariant forall i | 0 <= i < |rows| :: Walked(nodes[i], forest, trees, classes, rows[i], step)
    {
      var after := [];
      for i := 0 to |rows|
        invariant |after| == i
        invariant forall m | 0 <= m < i :: Walked(after[m], forest, trees, classes, rows[m], step + 1)
      {
        var row := Advance(f, nodes[i], rows[i], forest, trees, classes, col, step);
        after := after + [row];
      }
      nodes := after;
      step := step + 1;
    }
    probabilities := [];
    for i := 0 to |rows|
      invariant |probabilities| == i
      invariant forall m | 0 <= m < i :: probabilities[m] == ForestShare(trees, rows[m], col, classes)
    {
      var p := AverageRow(f, nodes[i], forest, trees, classes, col, rows[i]);
      probabilities := probabilities + [p];
    }
  }

  /** `prob[nodes].mean()` of one row. */
  method AverageRow(f: Flat, nodes: seq<int>, ghost forest: seq<TreeArrays>, ghost trees: seq<Tree>,
                    ghost classes: nat, ghost col: nat, ghost x: seq<real>) returns (p: real)
    requires IsForest(forest, trees, classes, |x|) && col < classes
    requires Compiled(f, forest, classes, col, |forest|) && Walked(nodes, forest, trees, classes, x, f.maxDepth)
    ensures p == ForestShare(trees, x, col, classes)
  {
    hide IsTree, WellFormed, ForestShare, Mean, Compiled;
    MeanOfLeaves(f, nodes, forest, trees, classes, col, x);
    p := Mean(seq(|nodes|, j requires 0 <= j < |nodes| => f.prob[nodes[j]]));
  }

  lemma AtRoots(f: Flat, forest: seq<TreeArrays>, trees: seq<Tree>, classes: nat, col: nat, x: seq<real>)
    requires IsForest(forest, trees, classes, |x|) && col < classes && Compiled(f, forest, classes, col, |forest|)
    ensures Walked(f.roots, forest, trees, classes, x, 0)
  {
    hide TreePlaced, WellFormed, Encodes;
    forall j: nat | j < |forest|
      ensures AtSubtree(forest[j], classes, Offset(forest, j), f.roots[j], Descend(trees[j], x, classes, 0))
    {
      assert HoldsTree(f, forest, classes, col, j);
      assert IsTree(forest[j], classes, trees[j]);
    }
  }
}
