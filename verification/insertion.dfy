/** `rbtree_insert` and `rbtree_insert_fixup`.

    The code descends to a sentinel, hangs a red node there and walks the
    fixup loop upwards from it. Functionally the descent is a recursion and
    the loop body runs at the grandparent level on the way back up: a red
    child holding a red grandchild is exactly the loop test "the parent of
    `n` is red", with `n` that grandchild. */
module Insertion {
  import opened SortedSeqs
  import opened Trees
  import opened Rotations

  /** One pass of the fixup loop at grandparent `Node(c, p, k, u)` when the
      parent `p` hangs on the left and `u` is the uncle. */
  function FixLeft(c: Color, p: Tree, k: int, u: Tree): (r: Tree)
    ensures Keys(r) == Keys(p) + [k] + Keys(u)
  {
    if IsRed(p) && (IsRed(p.left) || IsRed(p.right)) then
      if IsRed(u) then
        // red uncle: recolour and push the violation to the grandparent
        Node(Red, Paint(p, Black), k, Paint(u, Black))
      else if IsRed(p.left) then
        // outer grandchild: recolour, rotate right at the grandparent
        RotateRight(Node(Red, Paint(p, Black), k, u))
      else
        // inner grandchild: rotate left at the parent first
        RotateRight(Node(Red, Paint(RotateLeft(p), Black), k, u))
    else
      Node(c, p, k, u)
  }

  /** Mirror image of `FixLeft`: the parent hangs on the right. */
  function FixRight(c: Color, u: Tree, k: int, p: Tree): (r: Tree)
    ensures Keys(r) == Keys(u) + [k] + Keys(p)
  {
    if IsRed(p) && (IsRed(p.left) || IsRed(p.right)) then
      if IsRed(u) then
        Node(Red, Paint(u, Black), k, Paint(p, Black))
      else if IsRed(p.right) then
        RotateLeft(Node(Red, u, k, Paint(p, Black)))
      else
        RotateLeft(Node(Red, u, k, Paint(RotateRight(p), Black)))
    else
      Node(c, u, k, p)
  }

  /** Descent with ties going right, the new red node at the sentinel reached,
      and the fixup applied on the way back up. */
  function Ins(t: Tree, key: int): (r: Tree)
    ensures r.Node?
  {
    match t
    case Leaf => Node(Red, Leaf, key, Leaf)
    case Node(c, l, k, rt) =>
      if key < k then FixLeft(c, Ins(l, key), k, rt) else FixRight(c, l, k, Ins(rt, key))
  }

  /** `rbtree_insert`: a new node into an empty tree becomes a black root;
      otherwise insert and run the fixup, then paint the root black. The
      result is the tree's root, which is also what the code returns. */
  function Insert(t: Tree, key: int): (r: Tree)
    ensures SearchOrdered(t) ==> Keys(r) == SortedInsert(Keys(t), key)
    ensures SearchOrdered(t) ==> SearchOrdered(r)
    ensures multiset(Keys(r)) == multiset(Keys(t)) + multiset{key}
    ensures RedBlack(t) ==> RedBlack(r)
  {
    if t.Leaf? then
      Node(Black, Leaf, key, Leaf)
    else
      InsMultiset(t, key);
      InsKeepsRedBlack(t, key);
      InsOrdered(t, key);
      PaintKeepsShape(Ins(t, key), Black);
      Paint(Ins(t, key), Black)
  }

  /** The in-order sequence after `Ins` is the reference insertion of the key. */
  lemma {:induction false} InsKeys(t: Tree, key: int)
    requires SearchOrdered(t)
    ensures Keys(Ins(t, key)) == SortedInsert(Keys(t), key)
  {
    match t
    case Leaf =>
    case Node(c, l, k, r) =>
      OrderedNode(t);
      if key < k {
        InsKeys(l, key);
        SortedInsertLeftOf(Keys(l), k, Keys(r), key);
      } else {
        InsKeys(r, key);
        SortedInsertRightOf(Keys(l), k, Keys(r), key);
      }
  }

  /** On a search-ordered tree `Ins` is the reference insertion, so its result is ordered too. */
  lemma InsOrdered(t: Tree, key: int)
    ensures SearchOrdered(t) ==> Keys(Ins(t, key)) == SortedInsert(Keys(t), key)
    ensures SearchOrdered(t) ==> SearchOrdered(Ins(t, key))
  {
    if SearchOrdered(t) {
      InsKeys(t, key);
      SortedInsertSorted(Keys(t), key);
    }
  }

  /** `Ins` adds exactly one occurrence of the key, whatever the order. */
  lemma {:induction false} InsMultiset(t: Tree, key: int)
    ensures multiset(Keys(Ins(t, key))) == multiset(Keys(t)) + multiset{key}
  {
    match t
    case Leaf =>
    case Node(c, l, k, r) =>
      InsNodeKeys(c, l, k, r, key);
      if key < k {
        InsMultiset(l, key);
        MultisetGrowsLeft(Keys(l), Keys(Ins(l, key)), k, Keys(r), key);
      } else {
        InsMultiset(r, key);
        MultisetGrowsRight(Keys(l), k, Keys(r), Keys(Ins(r, key)), key);
      }
  }

  /** One level of the descent: the fixup pass keeps the key sequence of the
      node around the subtree the key went into. */
  lemma InsNodeKeys(c: Color, l: Tree, k: int, r: Tree, key: int)
    ensures Keys(Ins(Node(c, l, k, r), key))
         == if key < k then Keys(Ins(l, key)) + [k] + Keys(r) else Keys(l) + [k] + Keys(Ins(r, key))
  {
  }

  /** A red root whose only defect may be one red child: what the fixup loop
      still has to repair one level up. */
  ghost predicate RedRootDefect(t: Tree) {
    t.Node? && t.color == Red && NoRedRed(t.left) && NoRedRed(t.right)
    && !(IsRed(t.left) && IsRed(t.right))
  }

  /** `Ins` keeps the black-height; below a black (or sentinel) root it leaves
      no red-red edge, below a red root at most one, at the root. */
  lemma {:induction false} InsRedBlack(t: Tree, key: int)
    requires NoRedRed(t) && Balanced(t)
    ensures Balanced(Ins(t, key)) && BlackHeight(Ins(t, key)) == BlackHeight(t)
    ensures !IsRed(t) ==> NoRedRed(Ins(t, key))
    ensures IsRed(t) ==> RedRootDefect(Ins(t, key))
  {
    match t
    case Leaf =>
    case Node(c, l, k, r) =>
      if key < k {
        InsRedBlack(l, key);
        FixLeftRedBlack(c, Ins(l, key), k, r);
      } else {
        InsRedBlack(r, key);
        FixRightRedBlack(c, l, k, Ins(r, key));
      }
  }

  /** Below a valid root `Ins` leaves a tree that is valid once its root is painted black. */
  lemma InsKeepsRedBlack(t: Tree, key: int)
    ensures RedBlack(t) ==> Balanced(Ins(t, key)) && NoRedRed(Ins(t, key))
  {
    if RedBlack(t) {
      InsRedBlack(t, key);
    }
  }

  /** One fixup pass at a black grandparent repairs a red-red defect below it;
      at a red grandparent there is none to repair. */
  lemma FixLeftRedBlack(c: Color, p: Tree, k: int, u: Tree)
    requires Balanced(p) && Balanced(u) && BlackHeight(p) == BlackHeight(u) && NoRedRed(u)
    requires c == Black ==> NoRedRed(p) || RedRootDefect(p)
    requires c == Red ==> NoRedRed(p) && !IsRed(u)
    ensures Balanced(FixLeft(c, p, k, u))
    ensures BlackHeight(FixLeft(c, p, k, u)) == BlackHeight(Node(c, p, k, u))
    ensures c == Black ==> NoRedRed(FixLeft(c, p, k, u))
    ensures c == Red ==> RedRootDefect(FixLeft(c, p, k, u))
  {
  }

  /** Mirror image of `FixLeftRedBlack`. */
  lemma FixRightRedBlack(c: Color, u: Tree, k: int, p: Tree)
    requires Balanced(p) && Balanced(u) && BlackHeight(p) == BlackHeight(u) && NoRedRed(u)
    requires c == Black ==> NoRedRed(p) || RedRootDefect(p)
    requires c == Red ==> NoRedRed(p) && !IsRed(u)
    ensures Balanced(FixRight(c, u, k, p))
    ensures BlackHeight(FixRight(c, u, k, p)) == BlackHeight(Node(c, u, k, p))
    ensures c == Black ==> NoRedRed(FixRight(c, u, k, p))
    ensures c == Red ==> RedRootDefect(FixRight(c, u, k, p))
  {
  }
}
