/** `rbtree_find`, `rbtree_subtree_min`/`max` and `rbtree_min`/`max`. A tree
    value is its own root, so `rbtree_min(t)` is `SubtreeMin` of the tree. */
module Search {
  import opened SortedSeqs
  import opened Trees

  /** The all-left descent of `rbtree_subtree_min` as a path; empty for the sentinel. */
  function MinPath(t: Tree): (p: Path)
    ensures t.Node? ==> IsNodePath(t, p) && At(t, p).left.Leaf? && PathIndex(t, p) == 0
  {
    if t.Node? && t.left.Node? then
      var q := MinPath(t.left);
      assert ([GoLeft] + q)[1..] == q;
      [GoLeft] + q
    else []
  }

  /** The all-right descent of `rbtree_subtree_max` as a path; empty for the sentinel. */
  function MaxPath(t: Tree): (p: Path)
    ensures t.Node? ==> IsNodePath(t, p) && At(t, p).right.Leaf? && PathIndex(t, p) == |Keys(t)| - 1
  {
    if t.Node? && t.right.Node? then
      var q := MaxPath(t.right);
      assert ([GoRight] + q)[1..] == q;
      [GoRight] + q
    else []
  }

  /** The leftmost node: the sentinel for an empty subtree, otherwise a node
      without a left child holding the first, hence least, key. */
  function SubtreeMin(t: Tree): (m: Tree)
    ensures m.Leaf? <==> t.Leaf?
    ensures m.Node? ==> m.left.Leaf? && m.key == Keys(t)[0]
    ensures m.Node? && SearchOrdered(t) ==> forall x :: x in Keys(t) ==> m.key <= x
  {
    SortedEnds(Keys(t));
    At(t, MinPath(t))
  }

  /** The rightmost node: the sentinel for an empty subtree, otherwise a node
      without a right child holding the last, hence greatest, key. */
  function SubtreeMax(t: Tree): (m: Tree)
    ensures m.Leaf? <==> t.Leaf?
    ensures m.Node? ==> m.right.Leaf? && m.key == Keys(t)[|Keys(t)| - 1]
    ensures m.Node? && SearchOrdered(t) ==> forall x :: x in Keys(t) ==> x <= m.key
  {
    SortedEnds(Keys(t));
    At(t, MaxPath(t))
  }

  /** `p` is a prefix of the search for `key`: every node passed holds a
      different key, and each turn is left exactly when `key` is smaller. */
  ghost predicate SearchPath(t: Tree, key: int, p: Path) {
    forall i :: 0 <= i < |p| ==>
      var n := At(t, p[..i]);
      n.Node? && n.key != key && p[i] == (if key < n.key then GoLeft else GoRight)
  }

  /** Descends from the root, left when `key` is smaller, right otherwise, and
      stops at the first node holding `key`; `None` is the NULL result. */
  method Find(t: Tree, key: int) returns (r: Option<Path>)
    ensures r.Some? ==> IsNodePath(t, r.value) && At(t, r.value).key == key
    ensures r.Some? ==> SearchPath(t, key, r.value)
    ensures SearchOrdered(t) ==> (r.Some? <==> key in Keys(t))
  {
    var cur, path := t, [];
    while cur.Node?
      invariant At(t, path) == cur
      invariant SearchPath(t, key, path)
      invariant SearchOrdered(t) ==> SearchOrdered(cur) && (key in Keys(t) <==> key in Keys(cur))
      decreases cur
    {
      if cur.key == key {
        return Some(path);
      }
      if SearchOrdered(cur) {
        OrderedNode(cur);
      }
      var d := if key < cur.key then GoLeft else GoRight;
      AtExtend(t, path, d);
      assert forall i :: 0 <= i < |path| ==> (path + [d])[..i] == path[..i];
      assert (path + [d])[..|path|] == path;
      cur, path := if d == GoLeft then cur.left else cur.right, path + [d];
    }
    return None;
  }
}
