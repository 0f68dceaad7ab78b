/** Concrete runs of the model, and the round trip of insert followed by
    erase. */
module Scenarios {
  import opened SortedSeqs
  import opened Trees
  import opened Rotations
  import opened Insertion
  import opened Search
  import opened Erasure
  import opened Export

  function R(k: int): Tree { Node(Red, Leaf, k, Leaf) }
  function B(k: int): Tree { Node(Black, Leaf, k, Leaf) }

  /** Inserting 10, 20, 30: the third insert hits an outer grandchild under a
      black uncle, so 20 is rotated up; 10 and 30 stay red. */
  lemma AscendingThree()
    ensures Insert(Insert(Insert(Leaf, 10), 20), 30) == Node(Black, R(10), 20, R(30))
  {
    AscendingThreeShape(10, 20, 30);
  }

  /** Exporting that tree: capacity 3 takes every key in order, capacity 2
      leaves the third slot of the buffer alone. */
  lemma ExportThree()
    ensures ToArray(Node(Black, R(10), 20, R(30)), [0, 0, 0], 3) == [10, 20, 30]
    ensures ToArray(Node(Black, R(10), 20, R(30)), [0, 0, 0], 2) == [10, 20, 0]
  {
    var t := Node(Black, R(10), 20, R(30));
    assert Keys(t) == [10, 20, 30];
    ToArrayContents(t, [0, 0, 0], 3);
    ToArrayContents(t, [0, 0, 0], 2);
    assert [10, 20, 30][..2] + [0, 0, 0][2..] == [10, 20, 0];
  }

  /** Any three increasing keys end up as a black middle key with two red children. */
  lemma AscendingThreeShape(a: int, b: int, c: int)
    requires a < b < c
    ensures Insert(Insert(Insert(Leaf, a), b), c) == Node(Black, R(a), b, R(c))
  {
    AscendingTwoShape(a, b);
    var t2 := Node(Black, Leaf, a, R(b));
    assert Ins(R(b), c) == Node(Red, Leaf, b, R(c));
    assert FixRight(Black, Leaf, a, Node(Red, Leaf, b, R(c)))
        == RotateLeft(Node(Red, Leaf, a, Node(Black, Leaf, b, R(c))));
    assert Ins(t2, c) == Node(Black, R(a), b, R(c));
  }

  /** A second key not below the first hangs red on the right of a black root. */
  lemma AscendingTwoShape(a: int, b: int)
    requires a <= b
    ensures Insert(Insert(Leaf, a), b) == Node(Black, Leaf, a, R(b))
  {
    assert Insert(Leaf, a) == B(a);
    assert Ins(B(a), b) == Node(Black, Leaf, a, R(b));
  }

  /** Inserting 1 to 7 in increasing order leaves 2 at the root, black-height 2. */
  lemma AscendingSeven()
    ensures Insert(Insert(Insert(Insert(Insert(Insert(Insert(Leaf, 1), 2), 3), 4), 5), 6), 7)
         == Node(Black, B(1), 2, Node(Red, B(3), 4, Node(Black, R(5), 6, R(7))))
    ensures BlackHeight(Node(Black, B(1), 2, Node(Red, B(3), 4, Node(Black, R(5), 6, R(7))))) == 2
  {
    AscendingThreeShape(1, 2, 3);
    AscendingFour();
    AscendingFive();
    AscendingSix();
    AscendingSevenLast();
  }

  /** Red uncle: 1 and 3 turn black, 2 red, and the final paint makes 2 black again. */
  lemma AscendingFour()
    ensures Insert(Node(Black, R(1), 2, R(3)), 4) == Node(Black, B(1), 2, Node(Black, Leaf, 3, R(4)))
  {
    assert Ins(R(3), 4) == Node(Red, Leaf, 3, R(4));
    assert Ins(Node(Black, R(1), 2, R(3)), 4) == Node(Red, B(1), 2, Node(Black, Leaf, 3, R(4)));
  }

  /** Black uncle, outer grandchild: a left rotation at 3 lifts 4. */
  lemma AscendingFive()
    ensures Insert(Node(Black, B(1), 2, Node(Black, Leaf, 3, R(4))), 5)
         == Node(Black, B(1), 2, Node(Black, R(3), 4, R(5)))
  {
    assert Ins(R(4), 5) == Node(Red, Leaf, 4, R(5));
    assert FixRight(Black, Leaf, 3, Node(Red, Leaf, 4, R(5)))
        == RotateLeft(Node(Red, Leaf, 3, Node(Black, Leaf, 4, R(5))));
    assert Ins(Node(Black, Leaf, 3, R(4)), 5) == Node(Black, R(3), 4, R(5));
    assert Ins(Node(Black, B(1), 2, Node(Black, Leaf, 3, R(4))), 5)
        == Node(Black, B(1), 2, Node(Black, R(3), 4, R(5)));
  }

  /** Red uncle again: the violation moves to 4, whose parent 2 is black. */
  lemma AscendingSix()
    ensures Insert(Node(Black, B(1), 2, Node(Black, R(3), 4, R(5))), 6)
         == Node(Black, B(1), 2, Node(Red, B(3), 4, Node(Black, Leaf, 5, R(6))))
  {
    assert Ins(R(5), 6) == Node(Red, Leaf, 5, R(6));
    assert Ins(Node(Black, R(3), 4, R(5)), 6) == Node(Red, B(3), 4, Node(Black, Leaf, 5, R(6)));
    assert Ins(Node(Black, B(1), 2, Node(Black, R(3), 4, R(5))), 6)
        == Node(Black, B(1), 2, Node(Red, B(3), 4, Node(Black, Leaf, 5, R(6))));
  }

  /** Black uncle, outer grandchild: a left rotation at 5 lifts 6. */
  lemma AscendingSevenLast()
    ensures Insert(Node(Black, B(1), 2, Node(Red, B(3), 4, Node(Black, Leaf, 5, R(6)))), 7)
         == Node(Black, B(1), 2, Node(Red, B(3), 4, Node(Black, R(5), 6, R(7))))
  {
    assert Ins(R(6), 7) == Node(Red, Leaf, 6, R(7));
    assert FixRight(Black, Leaf, 5, Node(Red, Leaf, 6, R(7)))
        == RotateLeft(Node(Red, Leaf, 5, Node(Black, Leaf, 6, R(7))));
    assert Ins(Node(Black, Leaf, 5, R(6)), 7) == Node(Black, R(5), 6, R(7));
    assert Ins(Node(Red, B(3), 4, Node(Black, Leaf, 5, R(6))), 7) == Node(Red, B(3), 4, Node(Black, R(5), 6, R(7)));
    assert Ins(Node(Black, B(1), 2, Node(Red, B(3), 4, Node(Black, Leaf, 5, R(6)))), 7)
        == Node(Black, B(1), 2, Node(Red, B(3), 4, Node(Black, R(5), 6, R(7))));
  }

  /** Erasing the only node empties the tree, after which the key is not found. */
  method EraseOnlyNode(k: int) returns (found: Option<Path>)
    ensures found == None
  {
    var t := Insert(Leaf, k);
    var p := Find(t, k);
    assert p.Some?;
    var e := Erase(t, p.value);
    assert e == Leaf;
    found := Find(e, k);
  }

  /** Erasing any node that holds the key just inserted gives back the old
      key sequence: equal keys sit next to each other in a sorted sequence. */
  lemma InsertEraseRoundTrip(t: Tree, k: int, p: Path)
    requires Valid(t)
    ensures IsNodePath(Insert(t, k), p) && At(Insert(t, k), p).key == k
        ==> Keys(Erase(Insert(t, k), p)) == Keys(t)
  {
    var t' := Insert(t, k);
    if IsNodePath(t', p) && At(t', p).key == k {
      RemoveInserted(Keys(t), k, PathIndex(t', p));
    }
  }
}
