/** The path-wise black-height invariant:
    every path from a node down to a sentinel meets the same number of black
    nodes. `Balanced`, used throughout the model, is shown equivalent. */
module BlackPaths {
  import opened Trees

  /** Black nodes met along `p` from the root of `t` until the sentinel. */
  ghost function BlackCount(t: Tree, p: Path): nat
    decreases |p|
  {
    match t
    case Leaf => 0
    case Node(c, l, _, r) =>
      (if c == Black then 1 else 0)
      + (if p == [] then 0 else BlackCount(if p[0] == GoLeft then l else r, p[1..]))
  }

  /** All root-to-sentinel paths of `t` meet the same number of black nodes. */
  ghost predicate UniformFromRoot(t: Tree) {
    forall a, b :: At(t, a).Leaf? && At(t, b).Leaf? ==> BlackCount(t, a) == BlackCount(t, b)
  }

  /** The same holds below every real node. */
  ghost predicate UniformEverywhere(t: Tree) {
    forall q :: IsNodePath(t, q) ==> UniformFromRoot(At(t, q))
  }

  /** The all-left path to a sentinel. */
  function LeafPath(t: Tree): (p: Path)
    ensures At(t, p).Leaf?
  {
    if t.Leaf? then []
    else
      var q := LeafPath(t.left);
      assert ([GoLeft] + q)[1..] == q;
      [GoLeft] + q
  }

  /** In a balanced tree every path to a sentinel counts exactly the black-height. */
  lemma {:induction false} BalancedCounts(t: Tree, p: Path)
    requires Balanced(t) && At(t, p).Leaf?
    ensures BlackCount(t, p) == BlackHeight(t)
    decreases |p|
  {
    match t
    case Leaf =>
    case Node(c, l, _, r) =>
      if p[0] == GoLeft { BalancedCounts(l, p[1..]); } else { BalancedCounts(r, p[1..]); }
  }

  /** Every subtree of a balanced tree is balanced. */
  lemma {:induction false} BalancedAt(t: Tree, q: Path)
    requires Balanced(t)
    ensures Balanced(At(t, q))
    decreases |q|
  {
    if q != [] && t.Node? {
      if q[0] == GoLeft { BalancedAt(t.left, q[1..]); } else { BalancedAt(t.right, q[1..]); }
    }
  }

  /** `Balanced` is exactly the path-wise black-height invariant. */
  lemma {:induction false} BalancedIffUniform(t: Tree)
    ensures Balanced(t) <==> UniformEverywhere(t)
  {
    if Balanced(t) {
      forall q | IsNodePath(t, q) ensures UniformFromRoot(At(t, q)) {
        BalancedAt(t, q);
        forall a, b | At(At(t, q), a).Leaf? && At(At(t, q), b).Leaf?
          ensures BlackCount(At(t, q), a) == BlackCount(At(t, q), b)
        {
          BalancedCounts(At(t, q), a);
          BalancedCounts(At(t, q), b);
        }
      }
    }
    if UniformEverywhere(t) {
      UniformBalanced(t);
    }
  }

  /** The converse direction, by induction on the tree. */
  lemma {:induction false} UniformBalanced(t: Tree)
    requires UniformEverywhere(t)
    ensures Balanced(t)
  {
    match t
    case Leaf =>
    case Node(c, l, _, r) =>
      forall q | IsNodePath(l, q) ensures UniformFromRoot(At(l, q)) {
        assert ([GoLeft] + q)[1..] == q;
        assert At(t, [GoLeft] + q) == At(l, q);
      }
      forall q | IsNodePath(r, q) ensures UniformFromRoot(At(r, q)) {
        assert ([GoRight] + q)[1..] == q;
        assert At(t, [GoRight] + q) == At(r, q);
      }
      UniformBalanced(l);
      UniformBalanced(r);
      var a, b := [GoLeft] + LeafPath(l), [GoRight] + LeafPath(r);
      assert a[1..] == LeafPath(l) && b[1..] == LeafPath(r);
      assert IsNodePath(t, []);
      assert At(t, a).Leaf? && At(t, b).Leaf?;
      BalancedCounts(l, LeafPath(l));
      BalancedCounts(r, LeafPath(r));
      assert BlackCount(t, a) == BlackCount(t, b);
  }
}
