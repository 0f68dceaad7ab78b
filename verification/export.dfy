/** `set_rbtree_node_to_array` and `rbtree_to_array`: an in-order walk that
    copies keys into a caller's buffer of capacity `n`. The buffer is a
    sequence at least `n` long; a write at an index the sequence does not
    have would not verify, and the contracts pin every write below `n`. */
module Export {
  import opened Trees

  function Min(a: nat, b: nat): nat {
    if a <= b then a else b
  }

  /** `after` is `before` with the first `to - from` elements of `ks` written
      from index `from` on, and every other element left as it was. */
  ghost predicate Wrote(before: seq<int>, after: seq<int>, from: nat, to: nat, ks: seq<int>) {
    |after| == |before| && from <= to && to - from <= |ks| && (from < to ==> to <= |before|)
    && (forall i :: from <= i < to ==> after[i] == ks[i - from])
    && (forall i :: 0 <= i < |before| && !(from <= i < to) ==> after[i] == before[i])
  }

  /** Writes keys of `node` in order from index `idx`, stopping at `n`.
      Returns the buffer and the next free index. */
  function FillInOrder(node: Tree, arr: seq<int>, idx: nat, n: nat): (r: (seq<int>, nat))
    requires n <= |arr|
    ensures r.1 == (if idx >= n then idx else Min(n, idx + |Keys(node)|))
    ensures Wrote(arr, r.0, idx, r.1, Keys(node))
    decreases node
  {
    if idx >= n then (arr, idx)
    else if node.Leaf? then (arr, idx)
    else
      var (a1, i1) := if node.left.Node? then FillInOrder(node.left, arr, idx, n) else (arr, idx);
      if i1 >= n then
        WroteMore(arr, a1, idx, i1, Keys(node.left), [node.key] + Keys(node.right));
        (a1, i1)
      else
        var a2 := a1[i1 := node.key];
        // the right walk returns its index whether or not it reached `n`
        var r := if node.right.Node? then FillInOrder(node.right, a2, i1 + 1, n) else (a2, i1 + 1);
        WroteAround(arr, a1, r.0, idx, i1, r.1, Keys(node.left), node.key, Keys(node.right));
        r
  }

  /** A write of a prefix of `ks` is also a write of a prefix of any extension of `ks`. */
  lemma WroteMore(before: seq<int>, after: seq<int>, from: nat, to: nat, ks: seq<int>, more: seq<int>)
    requires Wrote(before, after, from, to, ks)
    ensures Wrote(before, after, from, to, ks + more)
  {
  }

  /** Writing all of `l`, then `k` at the next index, then a prefix of `r`
      writes a prefix of `l + [k] + r`. */
  lemma WroteAround(arr: seq<int>, a1: seq<int>, a3: seq<int>, idx: nat, i1: nat, end: nat,
                    l: seq<int>, k: int, r: seq<int>)
    requires Wrote(arr, a1, idx, i1, l) && i1 == idx + |l| && i1 < |arr|
    requires Wrote(a1[i1 := k], a3, i1 + 1, end, r)
    ensures Wrote(arr, a3, idx, end, l + [k] + r)
  {
    var ks := l + [k] + r;
    forall i | idx <= i < end ensures a3[i] == ks[i - idx] {
      if i < i1 {
        assert a3[i] == a1[i] == l[i - idx];
      } else if i > i1 {
        assert a3[i] == r[i - i1 - 1];
      }
    }
  }

  /** `rbtree_to_array`: the first `min(n, size)` in-order keys land at the
      front of the buffer and nothing else in it changes. */
  function ToArray(t: Tree, arr: seq<int>, n: nat): (r: seq<int>)
    requires n <= |arr|
    ensures |r| == |arr|
    ensures r[..Min(n, |Keys(t)|)] == Keys(t)[..Min(n, |Keys(t)|)]
    ensures r[Min(n, |Keys(t)|)..] == arr[Min(n, |Keys(t)|)..]
  {
    var res := FillInOrder(t, arr, 0, n);
    assert n == 0 || res.1 == Min(n, |Keys(t)|);
    res.0
  }

  /** The whole buffer after the export: the first keys, then the untouched rest. */
  lemma ToArrayContents(t: Tree, arr: seq<int>, n: nat)
    requires n <= |arr|
    ensures ToArray(t, arr, n) == Keys(t)[..Min(n, |Keys(t)|)] + arr[Min(n, |Keys(t)|)..]
  {
    var r, m := ToArray(t, arr, n), Min(n, |Keys(t)|);
    assert r == r[..m] + r[m..];
  }
}
