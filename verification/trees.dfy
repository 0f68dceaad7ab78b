/** The data model of src/rbtree.c: nodes, the sentinel, colours, the
    red-black invariants, and paths that stand in for node pointers. */
module Trees {
  import opened SortedSeqs

  datatype Color = Red | Black

  /** `Leaf` plays the shared sentinel `t->nil`; every `Node` is a real node.
      Parent links are implied by nesting, and a tree value is its root. */
  datatype Tree = Leaf | Node(color: Color, left: Tree, key: int, right: Tree)

  /** A successful lookup or the NULL of `rbtree_find`. */
  datatype Option<T> = None | Some(value: T)

  /** A node handle: the turns taken from the root to reach the node. */
  datatype Dir = GoLeft | GoRight
  type Path = seq<Dir>

  /** The colour the code reads; the sentinel is always black. */
  function ColorOf(t: Tree): Color {
    if t.Leaf? then Black else t.color
  }

  predicate IsRed(t: Tree) {
    t.Node? && t.color == Red
  }

  /** Recolours a real node; the sentinel stays as it is. */
  function Paint(t: Tree, c: Color): (r: Tree)
    ensures r.Leaf? <==> t.Leaf?
    ensures r.Node? ==> r.color == c && r.left == t.left && r.key == t.key && r.right == t.right
  {
    if t.Leaf? then Leaf else t.(color := c)
  }

  /** In-order key sequence (left, self, right). */
  function Keys(t: Tree): seq<int> {
    match t
    case Leaf => []
    case Node(_, l, k, r) => Keys(l) + [k] + Keys(r)
  }

  /** Binary-search-tree order, duplicates allowed. */
  ghost predicate SearchOrdered(t: Tree) {
    Sorted(Keys(t))
  }

  /** No red node has a red child. */
  ghost predicate NoRedRed(t: Tree) {
    match t
    case Leaf => true
    case Node(c, l, _, r) =>
      NoRedRed(l) && NoRedRed(r) && (c == Red ==> !IsRed(l) && !IsRed(r))
  }

  /** Black nodes on the leftmost path below and including `t`, sentinel not counted. */
  function BlackHeight(t: Tree): nat {
    match t
    case Leaf => 0
    case Node(c, l, _, _) => BlackHeight(l) + (if c == Black then 1 else 0)
  }

  /** Both children of every node have the same black-height. */
  ghost predicate Balanced(t: Tree) {
    match t
    case Leaf => true
    case Node(_, l, _, r) => Balanced(l) && Balanced(r) && BlackHeight(l) == BlackHeight(r)
  }

  /** The red-black invariants that hold after every public operation. */
  ghost predicate RedBlack(t: Tree) {
    !IsRed(t) && NoRedRed(t) && Balanced(t)
  }

  ghost predicate Valid(t: Tree) {
    SearchOrdered(t) && RedBlack(t)
  }

  /** `new_rbtree`: an empty tree, its root the sentinel, which is black. */
  function NewTree(): (t: Tree)
    ensures Keys(t) == [] && ColorOf(t) == Black
    ensures Valid(t)
  {
    Leaf
  }

  /** The subtree reached by following `p`; the sentinel once a path leaves the tree. */
  function At(t: Tree, p: Path): Tree
    decreases |p|
  {
    if p == [] then t
    else match t
      case Leaf => Leaf
      case Node(_, l, _, r) => if p[0] == GoLeft then At(l, p[1..]) else At(r, p[1..])
  }

  /** `p` designates a real node of `t`, the model of "`node` belongs to the tree". */
  predicate IsNodePath(t: Tree, p: Path) {
    At(t, p).Node?
  }

  /** Position of the node at `p` in the in-order key sequence. */
  function PathIndex(t: Tree, p: Path): (i: nat)
    requires IsNodePath(t, p)
    ensures i < |Keys(t)| && Keys(t)[i] == At(t, p).key
    decreases |p|
  {
    var Node(_, l, _, r) := t;
    if p == [] then |Keys(l)|
    else if p[0] == GoLeft then PathIndex(l, p[1..])
    else |Keys(l)| + 1 + PathIndex(r, p[1..])
  }

  /** Extending a path by one turn descends one level from where it led. */
  lemma {:induction false} AtExtend(t: Tree, p: Path, d: Dir)
    requires IsNodePath(t, p)
    ensures At(t, p + [d]) == (if d == GoLeft then At(t, p).left else At(t, p).right)
    decreases |p|
  {
    if p == [] {
      assert [d][1..] == [];
    } else {
      assert (p + [d])[1..] == p[1..] + [d];
      var Node(_, l, _, r) := t;
      if p[0] == GoLeft { AtExtend(l, p[1..], d); } else { AtExtend(r, p[1..], d); }
    }
  }

  /** In a search-ordered node, everything left is at most the key and everything right at least it. */
  lemma OrderedNode(t: Tree)
    requires t.Node? && SearchOrdered(t)
    ensures SearchOrdered(t.left) && SearchOrdered(t.right)
    ensures forall x :: x in Keys(t.left) ==> x <= t.key
    ensures forall x :: x in Keys(t.right) ==> t.key <= x
  {
    var l, r := Keys(t.left), Keys(t.right);
    var s := Keys(t);
    assert s == l + [t.key] + r;
    SortedSplit(s, |l|);
    SortedSplit(s[..|l|], |l|);
    assert s[..|l|] == l;
    SortedSplit(s, |l| + 1);
    assert s[|l| + 1..] == r;
    forall x | x in l ensures x <= t.key {
      var i :| 0 <= i < |l| && l[i] == x;
      assert s[i] == x && s[|l|] == t.key;
    }
    forall x | x in r ensures t.key <= x {
      var i :| 0 <= i < |r| && r[i] == x;
      assert s[|l| + 1 + i] == x && s[|l|] == t.key;
    }
  }

  /** Recolouring the root never disturbs the order of keys or the balance below it. */
  lemma PaintKeepsShape(t: Tree, c: Color)
    ensures Keys(Paint(t, c)) == Keys(t)
    ensures Balanced(Paint(t, c)) == Balanced(t)
    ensures t.Node? ==> NoRedRed(Paint(t, Black)) == (NoRedRed(t.left) && NoRedRed(t.right))
  {
  }
}
