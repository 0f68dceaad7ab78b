/** `left_rotate` and `right_rotate`. On an immutable tree a rotation returns
    the new subtree; whoever held the pivot (its parent, or the tree's root
    field when the pivot had no parent) now holds the result. Colours travel
    with their nodes. */
module Rotations {
  import opened Trees

  /** The pivot's right child `c` becomes the subtree root, the pivot becomes
      `c`'s left child, and `c`'s old left subtree moves under the pivot. */
  function RotateLeft(t: Tree): (r: Tree)
    requires t.Node? && t.right.Node?
    ensures Keys(r) == Keys(t)
    ensures r.Node? && r.left.Node?
    ensures r.key == t.right.key && r.color == t.right.color
    ensures r.left.key == t.key && r.left.color == t.color
    ensures r.left.left == t.left && r.left.right == t.right.left && r.right == t.right.right
  {
    var Node(pc, a, pk, Node(cc, b, ck, d)) := t;
    Node(cc, Node(pc, a, pk, b), ck, d)
  }

  /** Mirror image of `RotateLeft`. */
  function RotateRight(t: Tree): (r: Tree)
    requires t.Node? && t.left.Node?
    ensures Keys(r) == Keys(t)
    ensures r.Node? && r.right.Node?
    ensures r.key == t.left.key && r.color == t.left.color
    ensures r.right.key == t.key && r.right.color == t.color
    ensures r.right.right == t.right && r.right.left == t.left.right && r.left == t.left.left
  {
    var Node(pc, Node(cc, a, ck, b), pk, d) := t;
    Node(cc, a, ck, Node(pc, b, pk, d))
  }

  /** The two rotations undo each other. */
  lemma RotationsInverse(t: Tree)
    ensures t.Node? && t.right.Node? ==> RotateRight(RotateLeft(t)) == t
    ensures t.Node? && t.left.Node? ==> RotateLeft(RotateRight(t)) == t
  {
  }
}
