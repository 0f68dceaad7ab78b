/** `rbtree_erase`, `transplant` and `rbtree_erase_fixup`.

    The code hands the "extra black" of a removed black node to `ex_node`,
    the node (possibly the sentinel) that took its place, and the fixup loop
    climbs through `ex_node->parent`. When `ex_node` is the sentinel the code
    stores that parent in the shared sentinel, both in `transplant` and when
    the successor is the right child, and reads it back at the top of the
    loop. Here the position of the deficit is carried instead by
    the recursion: `Del` returns the rebuilt subtree together with a flag
    saying whether its root is `ex_node` still owing one black, and the
    caller, which is that parent, runs one pass of the loop. */
module Erasure {
  import opened SortedSeqs
  import opened Trees
  import opened Rotations
  import opened Search

  /** A rebuilt subtree, and whether it is one black short at its root. */
  datatype Removal = Removal(tree: Tree, extraBlack: bool)

  /** Cases 2 to 4: `ex_node` = `x` is the black left child of
      `Node(c, x, k, s)` and its sibling `s` is black. */
  function BlackSiblingLeft(c: Color, x: Tree, k: int, s: Tree): (r: Removal)
    requires s.Node? && s.color == Black
    requires Balanced(x) && Balanced(s) && BlackHeight(x) + 1 == BlackHeight(s)
    ensures Keys(r.tree) == Keys(x) + [k] + Keys(s)
    ensures Balanced(r.tree)
    ensures BlackHeight(r.tree) + (if r.extraBlack then 1 else 0) == BlackHeight(s) + (if c == Black then 1 else 0)
    ensures r.extraBlack ==> r.tree.Node? && r.tree.color == c
  {
    if !IsRed(s.left) && !IsRed(s.right) then
      // both nephews black: the sibling turns red, the deficit moves to the parent
      Removal(Node(c, x, k, Paint(s, Red)), true)
    else
      // far nephew black: make it red by a right rotation at the sibling
      var u :=
        if !IsRed(s.right) then
          NearNephewRight(s);
          RotateRight(Node(Red, Paint(s.left, Black), s.key, s.right))
        else s;
      // far nephew red: the sibling takes the parent's colour, rotate left at the parent
      FarNephewLeft(c, x, k, u);
      Removal(RotateLeft(Node(Black, x, k, Node(c, u.left, u.key, Paint(u.right, Black)))), false)
  }

  /** Mirror image of `BlackSiblingLeft`. */
  function BlackSiblingRight(c: Color, s: Tree, k: int, x: Tree): (r: Removal)
    requires s.Node? && s.color == Black
    requires Balanced(x) && Balanced(s) && BlackHeight(x) + 1 == BlackHeight(s)
    ensures Keys(r.tree) == Keys(s) + [k] + Keys(x)
    ensures Balanced(r.tree)
    ensures BlackHeight(r.tree) + (if r.extraBlack then 1 else 0) == BlackHeight(s) + (if c == Black then 1 else 0)
    ensures r.extraBlack ==> r.tree.Node? && r.tree.color == c
  {
    if !IsRed(s.right) && !IsRed(s.left) then
      Removal(Node(c, Paint(s, Red), k, x), true)
    else
      var u :=
        if !IsRed(s.left) then
          NearNephewLeft(s);
          RotateLeft(Node(Red, s.left, s.key, Paint(s.right, Black)))
        else s;
      FarNephewRight(c, u, k, x);
      Removal(RotateRight(Node(Black, Node(c, Paint(u.left, Black), u.key, u.right), k, x)), false)
  }

  /** Case 3: a black sibling whose near left child is red and
      far right child black turns, by a right rotation, into a black sibling
      whose far child is red, one black level above each of its children. */
  lemma NearNephewRight(s: Tree)
    requires s.Node? && s.color == Black && Balanced(s)
    requires IsRed(s.left) && !IsRed(s.right)
    ensures var u := RotateRight(Node(Red, Paint(s.left, Black), s.key, s.right));
      Keys(u) == Keys(s) && u.color == Black && IsRed(u.right)
      && Balanced(u.left) && Balanced(u.right)
      && BlackHeight(u.left) + 1 == BlackHeight(s) && BlackHeight(u.right) + 1 == BlackHeight(s)
  {
    var v := Node(Red, Paint(s.left, Black), s.key, s.right);
    assert Keys(v) == Keys(s) by { PaintKeepsShape(s.left, Black); }
    var u := RotateRight(v);
    assert u.left == s.left.left && u.right == Node(Red, s.left.right, s.key, s.right);
    assert BlackHeight(s.left.left) == BlackHeight(s.left.right) == BlackHeight(s.right);
  }

  /** Mirror image of `NearNephewRight`. */
  lemma NearNephewLeft(s: Tree)
    requires s.Node? && s.color == Black && Balanced(s)
    requires IsRed(s.right) && !IsRed(s.left)
    ensures var u := RotateLeft(Node(Red, s.left, s.key, Paint(s.right, Black)));
      Keys(u) == Keys(s) && u.color == Black && IsRed(u.left)
      && Balanced(u.left) && Balanced(u.right)
      && BlackHeight(u.left) + 1 == BlackHeight(s) && BlackHeight(u.right) + 1 == BlackHeight(s)
  {
    var v := Node(Red, s.left, s.key, Paint(s.right, Black));
    assert Keys(v) == Keys(s) by { PaintKeepsShape(s.right, Black); }
    var u := RotateLeft(v);
    assert u.right == s.right.right && u.left == Node(Red, s.left, s.key, s.right.left);
    assert BlackHeight(s.right.left) == BlackHeight(s.right.right) == BlackHeight(s.left);
  }

  /** Case 4: with the far child of the black sibling `u` red,
      a left rotation at the parent pays the deficit. The parent's colour `c`
      moves to the new subtree root. */
  lemma FarNephewLeft(c: Color, x: Tree, k: int, u: Tree)
    requires u.Node? && u.color == Black && IsRed(u.right) && Balanced(u) && Balanced(x)
    requires BlackHeight(x) + 1 == BlackHeight(u)
    ensures var r := RotateLeft(Node(Black, x, k, Node(c, u.left, u.key, Paint(u.right, Black))));
      Keys(r) == Keys(x) + [k] + Keys(u) && Balanced(r)
      && BlackHeight(r) == BlackHeight(u) + (if c == Black then 1 else 0)
  {
    var v := Node(c, u.left, u.key, Paint(u.right, Black));
    assert Keys(v) == Keys(u) by { PaintKeepsShape(u.right, Black); }
    var r := RotateLeft(Node(Black, x, k, v));
    assert Keys(r) == Keys(x) + [k] + Keys(v);
    assert BlackHeight(u.left) == BlackHeight(x) == BlackHeight(u.right);
    assert r.left == Node(Black, x, k, u.left) && r.right == Paint(u.right, Black);
    assert Balanced(r.left) && Balanced(r.right) && BlackHeight(r.left) == BlackHeight(r.right);
  }

  /** Mirror image of `FarNephewLeft`. */
  lemma FarNephewRight(c: Color, u: Tree, k: int, x: Tree)
    requires u.Node? && u.color == Black && IsRed(u.left) && Balanced(u) && Balanced(x)
    requires BlackHeight(x) + 1 == BlackHeight(u)
    ensures var r := RotateRight(Node(Black, Node(c, Paint(u.left, Black), u.key, u.right), k, x));
      Keys(r) == Keys(u) + [k] + Keys(x) && Balanced(r)
      && BlackHeight(r) == BlackHeight(u) + (if c == Black then 1 else 0)
  {
    var v := Node(c, Paint(u.left, Black), u.key, u.right);
    assert Keys(v) == Keys(u) by { PaintKeepsShape(u.left, Black); }
    var r := RotateRight(Node(Black, v, k, x));
    assert Keys(r) == Keys(v) + [k] + Keys(x);
    assert BlackHeight(u.left) == BlackHeight(x) == BlackHeight(u.right);
    assert r.right == Node(Black, u.right, k, x) && r.left == Paint(u.left, Black);
    assert Balanced(r.left) && Balanced(r.right) && BlackHeight(r.left) == BlackHeight(r.right);
  }

  /** One pass of the loop with a black `ex_node` = `x` as
      the left child of `Node(c, x, k, s)`. A red sibling is first turned
      black by a left rotation at the parent (case 1); the pass then
      continues one level lower, where the parent is red, so a deficit moved
      to it stops the loop at once and is paid by the final repaint. */
  function FixupLeft(c: Color, x: Tree, k: int, s: Tree): (r: Removal)
    requires s.Node? && (s.color == Red ==> c == Black && s.left.Node? && s.left.color == Black)
    requires Balanced(x) && Balanced(s) && BlackHeight(x) + 1 == BlackHeight(s)
    ensures Keys(r.tree) == Keys(x) + [k] + Keys(s)
    ensures Balanced(r.tree)
    ensures BlackHeight(r.tree) + (if r.extraBlack then 1 else 0) == BlackHeight(s) + (if c == Black then 1 else 0)
  {
    if s.color == Red then
      var rotated := RotateLeft(Node(Red, x, k, Paint(s, Black)));
      var p := rotated.left;
      assert p == Node(Red, x, k, s.left);
      var below := BlackSiblingLeft(p.color, p.left, p.key, p.right);
      var lower := if below.extraBlack then Paint(below.tree, Black) else below.tree;
      assert Keys(lower) == Keys(p) && Balanced(lower) && BlackHeight(lower) == BlackHeight(s.right);
      Removal(Node(rotated.color, lower, rotated.key, rotated.right), false)
    else
      BlackSiblingLeft(c, x, k, s)
  }

  /** Mirror image of `FixupLeft`. */
  function FixupRight(c: Color, s: Tree, k: int, x: Tree): (r: Removal)
    requires s.Node? && (s.color == Red ==> c == Black && s.right.Node? && s.right.color == Black)
    requires Balanced(x) && Balanced(s) && BlackHeight(x) + 1 == BlackHeight(s)
    ensures Keys(r.tree) == Keys(s) + [k] + Keys(x)
    ensures Balanced(r.tree)
    ensures BlackHeight(r.tree) + (if r.extraBlack then 1 else 0) == BlackHeight(s) + (if c == Black then 1 else 0)
  {
    if s.color == Red then
      var rotated := RotateRight(Node(Red, Paint(s, Black), k, x));
      var p := rotated.right;
      assert p == Node(Red, s.right, k, x);
      var below := BlackSiblingRight(p.color, p.left, p.key, p.right);
      var lower := if below.extraBlack then Paint(below.tree, Black) else below.tree;
      assert Keys(lower) == Keys(p) && Balanced(lower) && BlackHeight(lower) == BlackHeight(s.left);
      Removal(Node(rotated.color, rotated.left, rotated.key, lower), false)
    else
      BlackSiblingRight(c, s, k, x)
  }

  /** The parent `Node(c, x, k, s)` receives its rebuilt left child `x`.
      Without a deficit the fixup does not run and nothing happens; a red
      `ex_node` fails the loop test and is painted black after the loop;
      otherwise one pass runs. */
  function RebalanceLeft(c: Color, x: Tree, k: int, s: Tree, extra: bool): (r: Removal)
    requires Balanced(x) && Balanced(s) && NoRedRed(s) && (c == Red ==> !IsRed(s))
    requires BlackHeight(x) + (if extra then 1 else 0) == BlackHeight(s)
    ensures !extra ==> r == Removal(Node(c, x, k, s), false)
    ensures extra && IsRed(x) ==> r == Removal(Node(c, Paint(x, Black), k, s), false)
    ensures Keys(r.tree) == Keys(x) + [k] + Keys(s)
    ensures Balanced(r.tree)
    ensures BlackHeight(r.tree) + (if r.extraBlack then 1 else 0) == BlackHeight(s) + (if c == Black then 1 else 0)
  {
    if !extra then Removal(Node(c, x, k, s), false)
    else if IsRed(x) then Removal(Node(c, Paint(x, Black), k, s), false)
    else FixupLeft(c, x, k, s)
  }

  /** Mirror image of `RebalanceLeft`. */
  function RebalanceRight(c: Color, s: Tree, k: int, x: Tree, extra: bool): (r: Removal)
    requires Balanced(x) && Balanced(s) && NoRedRed(s) && (c == Red ==> !IsRed(s))
    requires BlackHeight(x) + (if extra then 1 else 0) == BlackHeight(s)
    ensures !extra ==> r == Removal(Node(c, s, k, x), false)
    ensures extra && IsRed(x) ==> r == Removal(Node(c, s, k, Paint(x, Black)), false)
    ensures Keys(r.tree) == Keys(s) + [k] + Keys(x)
    ensures Balanced(r.tree)
    ensures BlackHeight(r.tree) + (if r.extraBlack then 1 else 0) == BlackHeight(s) + (if c == Black then 1 else 0)
  {
    if !extra then Removal(Node(c, s, k, x), false)
    else if IsRed(x) then Removal(Node(c, s, k, Paint(x, Black)), false)
    else FixupRight(c, s, k, x)
  }

  /** Removal of the node at `p` followed by the fixup passes below the point
      where the deficit is paid. With at most one real child the node is
      replaced by that child (`transplant`) and the removed
      colour is its own; with two, the minimum `sc` of the right subtree is
      cut out of it and takes the node's place and colour, and
      the removed colour is the successor's. The deficit exists exactly when
      the removed colour is black. */
  function Del(t: Tree, p: Path): (r: Removal)
    requires IsNodePath(t, p) && NoRedRed(t) && Balanced(t)
    ensures Balanced(r.tree)
    ensures BlackHeight(r.tree) + (if r.extraBlack then 1 else 0) == BlackHeight(t)
    decreases t
  {
    var Node(c, l, k, rt) := t;
    if p == [] then
      if l.Leaf? then Removal(rt, c == Black)
      else if rt.Leaf? then Removal(l, c == Black)
      else
        var sc := SubtreeMin(rt);
        var rest := Del(rt, MinPath(rt));
        RebalanceRight(c, l, sc.key, rest.tree, rest.extraBlack)
    else if p[0] == GoLeft then
      var rest := Del(l, p[1..]);
      RebalanceLeft(c, rest.tree, k, rt, rest.extraBlack)
    else
      var rest := Del(rt, p[1..]);
      RebalanceRight(c, l, k, rest.tree, rest.extraBlack)
  }

  /** `rbtree_erase` of the node at `p`. A deficit that climbed to the root
      stops the loop there, and the final repaint makes the root black. */
  function Erase(t: Tree, p: Path): (r: Tree)
    requires RedBlack(t) && IsNodePath(t, p)
    ensures RedBlack(r)
    ensures Keys(r) == RemoveAt(Keys(t), PathIndex(t, p))
    ensures multiset(Keys(r)) == multiset(Keys(t)) - multiset{At(t, p).key}
    ensures SearchOrdered(t) ==> SearchOrdered(r)
  {
    var res := Del(t, p);
    DelKeys(t, p);
    DelReds(t, p);
    RemoveAtSorted(Keys(t), PathIndex(t, p));
    if res.extraBlack then Paint(res.tree, Black) else res.tree
  }

  /** What a removal hands to the level above. Without a deficit: no red-red
      edge, and a red root only where the old root, of colour `c`, was red.
      With one: no red-red edge once the root is painted black. */
  ghost predicate RedsAccounted(c: Color, r: Removal) {
    if r.extraBlack then NoRedRed(Paint(r.tree, Black))
    else NoRedRed(r.tree) && (IsRed(r.tree) ==> c == Red)
  }

  /** The removal takes out exactly the key at the node's in-order position. */
  lemma {:induction false} DelKeys(t: Tree, p: Path)
    requires IsNodePath(t, p) && NoRedRed(t) && Balanced(t)
    ensures Keys(Del(t, p).tree) == RemoveAt(Keys(t), PathIndex(t, p))
    decreases t
  {
    var Node(c, l, k, rt) := t;
    if p == [] {
      if l.Leaf? || rt.Leaf? {
        RemoveAtMiddle(Keys(l), k, Keys(rt));
      } else {
        DelKeys(rt, MinPath(rt));
        DelSuccessorKeys(t);
      }
    } else if p[0] == GoLeft {
      DelKeys(l, p[1..]);
      RemoveAtLeftPart(Keys(l), k, Keys(rt), PathIndex(l, p[1..]));
    } else {
      DelKeys(rt, p[1..]);
      RemoveAtRightPart(Keys(l), k, Keys(rt), PathIndex(rt, p[1..]));
    }
  }

  /** With two children, the successor's key replaces the node's key and is
      itself taken out of the right subtree, at its first position. */
  lemma DelSuccessorKeys(t: Tree)
    requires t.Node? && t.left.Node? && t.right.Node? && NoRedRed(t) && Balanced(t)
    requires Keys(Del(t.right, MinPath(t.right)).tree) == RemoveAt(Keys(t.right), 0)
    ensures Keys(Del(t, []).tree) == RemoveAt(Keys(t), |Keys(t.left)|)
  {
    DelSuccessorShape(t);
    RemoveAtMiddleByFirst(Keys(t.left), t.key, Keys(t.right));
  }

  /** The two-child case rebuilds the node around the successor's key. */
  lemma DelSuccessorShape(t: Tree)
    requires t.Node? && t.left.Node? && t.right.Node? && NoRedRed(t) && Balanced(t)
    ensures Keys(Del(t, []).tree)
         == Keys(t.left) + [Keys(t.right)[0]] + Keys(Del(t.right, MinPath(t.right)).tree)
  {
    var Node(c, l, k, rt) := t;
    var sc, rest := SubtreeMin(rt), Del(rt, MinPath(rt));
    assert Del(t, []) == RebalanceRight(c, l, sc.key, rest.tree, rest.extraBlack);
  }

  /** A removal leaves no red-red edge the level above cannot settle. */
  lemma {:induction false} DelReds(t: Tree, p: Path)
    requires IsNodePath(t, p) && NoRedRed(t) && Balanced(t)
    ensures RedsAccounted(t.color, Del(t, p))
    decreases t
  {
    var Node(c, l, k, rt) := t;
    if p == [] {
      if l.Leaf? {
      } else if rt.Leaf? {
      } else {
        DelReds(rt, MinPath(rt));
        var rest := Del(rt, MinPath(rt));
        RebalanceRightReds(c, l, SubtreeMin(rt).key, rest.tree, rest.extraBlack);
      }
    } else if p[0] == GoLeft {
      DelReds(l, p[1..]);
      var rest := Del(l, p[1..]);
      RebalanceLeftReds(c, rest.tree, k, rt, rest.extraBlack);
    } else {
      DelReds(rt, p[1..]);
      var rest := Del(rt, p[1..]);
      RebalanceRightReds(c, l, k, rest.tree, rest.extraBlack);
    }
  }

  /** One level of the loop keeps the red-red accounting. */
  lemma RebalanceLeftReds(c: Color, x: Tree, k: int, s: Tree, extra: bool)
    requires Balanced(x) && Balanced(s) && NoRedRed(s) && (c == Red ==> !IsRed(s))
    requires BlackHeight(x) + (if extra then 1 else 0) == BlackHeight(s)
    requires if extra then NoRedRed(Paint(x, Black)) else NoRedRed(x) && (c == Red ==> !IsRed(x))
    ensures RedsAccounted(c, RebalanceLeft(c, x, k, s, extra))
  {
    if extra && !IsRed(x) {
      assert s.Node? && (s.color == Red ==> s.left.Node? && s.left.color == Black);
      FixupLeftReds(c, x, k, s);
    }
  }

  /** A pass with a black `ex_node` leaves no red-red edge, and a red root
      without a deficit only below a red parent. */
  lemma FixupLeftReds(c: Color, x: Tree, k: int, s: Tree)
    requires s.Node? && (s.color == Red ==> c == Black && s.left.Node? && s.left.color == Black)
    requires Balanced(x) && Balanced(s) && BlackHeight(x) + 1 == BlackHeight(s)
    requires NoRedRed(x) && NoRedRed(s)
    ensures RedsAccounted(c, FixupLeft(c, x, k, s))
  {
    if s.color == Red {
      var rotated := RotateLeft(Node(Red, x, k, Paint(s, Black)));
      var p := rotated.left;
      assert p == Node(Red, x, k, s.left);
      BlackSiblingLeftReds(p.color, p.left, p.key, p.right);
    } else {
      BlackSiblingLeftReds(c, x, k, s);
    }
  }

  /** Cases 2 to 4 keep the red-red accounting. */
  lemma BlackSiblingLeftReds(c: Color, x: Tree, k: int, s: Tree)
    requires s.Node? && s.color == Black
    requires Balanced(x) && Balanced(s) && BlackHeight(x) + 1 == BlackHeight(s)
    requires NoRedRed(x) && NoRedRed(s)
    ensures RedsAccounted(c, BlackSiblingLeft(c, x, k, s))
  {
    if IsRed(s.left) || IsRed(s.right) {
      var u :=
        if !IsRed(s.right) then RotateRight(Node(Red, Paint(s.left, Black), s.key, s.right)) else s;
      assert NoRedRed(u.left) && NoRedRed(Paint(u.right, Black));
    }
  }

  /** Mirror image of `RebalanceLeftReds`. */
  lemma RebalanceRightReds(c: Color, s: Tree, k: int, x: Tree, extra: bool)
    requires Balanced(x) && Balanced(s) && NoRedRed(s) && (c == Red ==> !IsRed(s))
    requires BlackHeight(x) + (if extra then 1 else 0) == BlackHeight(s)
    requires if extra then NoRedRed(Paint(x, Black)) else NoRedRed(x) && (c == Red ==> !IsRed(x))
    ensures RedsAccounted(c, RebalanceRight(c, s, k, x, extra))
  {
    if extra && !IsRed(x) {
      assert s.Node? && (s.color == Red ==> s.right.Node? && s.right.color == Black);
      FixupRightReds(c, s, k, x);
    }
  }

  /** Mirror image of `FixupLeftReds`. */
  lemma FixupRightReds(c: Color, s: Tree, k: int, x: Tree)
    requires s.Node? && (s.color == Red ==> c == Black && s.right.Node? && s.right.color == Black)
    requires Balanced(x) && Balanced(s) && BlackHeight(x) + 1 == BlackHeight(s)
    requires NoRedRed(x) && NoRedRed(s)
    ensures RedsAccounted(c, FixupRight(c, s, k, x))
  {
    if s.color == Red {
      var rotated := RotateRight(Node(Red, Paint(s, Black), k, x));
      var p := rotated.right;
      assert p == Node(Red, s.right, k, x);
      BlackSiblingRightReds(p.color, p.left, p.key, p.right);
    } else {
      BlackSiblingRightReds(c, s, k, x);
    }
  }

  /** Mirror image of `BlackSiblingLeftReds`. */
  lemma BlackSiblingRightReds(c: Color, s: Tree, k: int, x: Tree)
    requires s.Node? && s.color == Black
    requires Balanced(x) && Balanced(s) && BlackHeight(x) + 1 == BlackHeight(s)
    requires NoRedRed(x) && NoRedRed(s)
    ensures RedsAccounted(c, BlackSiblingRight(c, s, k, x))
  {
    if IsRed(s.left) || IsRed(s.right) {
      var u :=
        if !IsRed(s.left) then RotateLeft(Node(Red, s.left, s.key, Paint(s.right, Black))) else s;
      assert NoRedRed(u.right) && NoRedRed(Paint(u.left, Black));
    }
  }
}
