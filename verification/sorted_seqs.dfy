/** Non-decreasing integer sequences. The in-order key sequence of the tree is
    compared against the operations defined here, which know nothing about trees. */
module SortedSeqs {

  /** Non-decreasing: equal keys are allowed, the tree stores duplicates. */
  ghost predicate Sorted(s: seq<int>) {
    forall i, j :: 0 <= i < j < |s| ==> s[i] <= s[j]
  }

  /** The number of leading elements not greater than `k`; for a sorted `s`
      this is the position just after the last element `<= k`. */
  function UpperBound(s: seq<int>, k: int): (i: nat)
    ensures i <= |s|
  {
    if s == [] || k < s[0] then 0 else 1 + UpperBound(s[1..], k)
  }

  /** Everything before the upper bound is at most `k`, and the element at
      it, if there is one, exceeds `k`. */
  lemma {:induction false} UpperBoundBounds(s: seq<int>, k: int)
    ensures forall j :: 0 <= j < UpperBound(s, k) ==> s[j] <= k
    ensures UpperBound(s, k) < |s| ==> k < s[UpperBound(s, k)]
  {
    if s != [] && !(k < s[0]) {
      var t := s[1..];
      UpperBoundBounds(t, k);
      forall j | 0 < j < UpperBound(s, k) ensures s[j] <= k {
        assert s[j] == t[j - 1];
      }
    }
  }

  /** Reference insertion: `k` goes after every leading element not greater
      than it, so among equal keys the new one comes last. */
  function SortedInsert(s: seq<int>, k: int): (r: seq<int>)
    ensures |r| == |s| + 1
  {
    if s == [] || k < s[0] then [k] + s else [s[0]] + SortedInsert(s[1..], k)
  }

  /** The new key lands exactly at the upper bound, with the old elements on
      either side of it kept in order. */
  lemma {:induction false} SortedInsertAtUpperBound(s: seq<int>, k: int)
    ensures SortedInsert(s, k) == s[..UpperBound(s, k)] + [k] + s[UpperBound(s, k)..]
  {
    if s == [] || k < s[0] {
    } else {
      var t, i := s[1..], UpperBound(s, k);
      assert i == 1 + UpperBound(t, k);
      assert SortedInsert(s, k) == [s[0]] + (t[..i - 1] + [k] + t[i - 1..]) by {
        SortedInsertAtUpperBound(t, k);
      }
      assert [s[0]] + (t[..i - 1] + [k] + t[i - 1..]) == s[..i] + [k] + s[i..] by {
        assert s[..i] == [s[0]] + t[..i - 1];
        assert s[i..] == t[i - 1..];
      }
    }
  }

  /** Reference removal of the element at position `i`. */
  function RemoveAt(s: seq<int>, i: nat): (r: seq<int>)
    requires i < |s|
    ensures |r| == |s| - 1
    ensures forall j :: 0 <= j < i ==> r[j] == s[j]
    ensures forall j :: i <= j < |r| ==> r[j] == s[j + 1]
  {
    s[..i] + s[i + 1..]
  }

  /** Removing a position left of the middle element of `a + [k] + b`. */
  lemma RemoveAtLeftPart(a: seq<int>, k: int, b: seq<int>, j: nat)
    requires j < |a|
    ensures RemoveAt(a + [k] + b, j) == RemoveAt(a, j) + [k] + b
  {
    var x, y := RemoveAt(a + [k] + b, j), RemoveAt(a, j) + [k] + b;
    forall m | 0 <= m < |x| ensures x[m] == y[m] {
      if m < |a| - 1 {
      } else if m == |a| - 1 {
      } else {
        assert y[m] == b[m - |a|];
      }
    }
  }

  /** Removing a position right of the middle element of `a + [k] + b`. */
  lemma RemoveAtRightPart(a: seq<int>, k: int, b: seq<int>, j: nat)
    requires j < |b|
    ensures RemoveAt(a + [k] + b, |a| + 1 + j) == a + [k] + RemoveAt(b, j)
  {
    var x, y := RemoveAt(a + [k] + b, |a| + 1 + j), a + [k] + RemoveAt(b, j);
    forall m | 0 <= m < |x| ensures x[m] == y[m] {
      if m <= |a| {
      } else {
        assert y[m] == RemoveAt(b, j)[m - |a| - 1];
      }
    }
  }

  /** Removing the middle element of `a + [k] + b`. */
  lemma RemoveAtMiddle(a: seq<int>, k: int, b: seq<int>)
    ensures RemoveAt(a + [k] + b, |a|) == a + b
  {
    assert (a + [k] + b)[..|a|] == a;
    assert (a + [k] + b)[|a| + 1..] == b;
  }

  /** Removing the middle element of `a + [k] + b` is the same as moving the
      first element of `b` into the middle and removing it from `b`. */
  lemma RemoveAtMiddleByFirst(a: seq<int>, k: int, b: seq<int>)
    requires |b| > 0
    ensures RemoveAt(a + [k] + b, |a|) == a + [b[0]] + RemoveAt(b, 0)
  {
    RemoveAtMiddle(a, k, b);
    assert b == [b[0]] + RemoveAt(b, 0);
    assert a + b == a + [b[0]] + RemoveAt(b, 0);
  }

  /** In a sorted sequence every element from the upper bound on is greater than `k`. */
  lemma UpperBoundSplits(s: seq<int>, k: int)
    requires Sorted(s)
    ensures forall j :: UpperBound(s, k) <= j < |s| ==> k < s[j]
  {
    var i := UpperBound(s, k);
    UpperBoundBounds(s, k);
    if i < |s| {
      forall j | i <= j < |s| ensures k < s[j] {
        assert s[i] <= s[j];
      }
    }
  }

  /** A key placed between a sorted run of smaller-or-equal keys and a sorted
      run of greater-or-equal keys yields a sorted sequence. */
  lemma SortedAround(a: seq<int>, k: int, b: seq<int>)
    requires Sorted(a) && Sorted(b)
    requires forall j :: 0 <= j < |a| ==> a[j] <= k
    requires forall j :: 0 <= j < |b| ==> k <= b[j]
    ensures Sorted(a + [k] + b)
  {
    var r := a + [k] + b;
    forall x, y | 0 <= x < y < |r| ensures r[x] <= r[y] {
      if y < |a| {
      } else if y == |a| {
      } else if x < |a| {
        assert r[x] <= k <= r[y];
      } else {
        assert r[y] == b[y - |a| - 1];
      }
    }
  }

  /** Both halves of a sorted sequence are sorted. */
  lemma SortedSplit(s: seq<int>, i: nat)
    requires Sorted(s) && i <= |s|
    ensures Sorted(s[..i]) && Sorted(s[i..])
  {
    var b := s[i..];
    forall x, y | 0 <= x < y < |b| ensures b[x] <= b[y] {
      assert b[x] == s[i + x];
      assert b[y] == s[i + y];
    }
  }

  /** Inserting keeps a sorted sequence sorted and adds exactly one occurrence of `k`. */
  lemma SortedInsertSorted(s: seq<int>, k: int)
    requires Sorted(s)
    ensures Sorted(SortedInsert(s, k))
    ensures multiset(SortedInsert(s, k)) == multiset(s) + multiset{k}
    ensures |SortedInsert(s, k)| == |s| + 1
  {
    SortedInsertAtUpperBound(s, k);
    SortedAtUpperBound(s, k);
    MultisetInsertAt(s, UpperBound(s, k), k);
  }

  /** Placing `k` at its upper bound keeps a sorted sequence sorted. */
  lemma SortedAtUpperBound(s: seq<int>, k: int)
    requires Sorted(s)
    ensures Sorted(s[..UpperBound(s, k)] + [k] + s[UpperBound(s, k)..])
  {
    var i := UpperBound(s, k);
    var a, b := s[..i], s[i..];
    UpperBoundBounds(s, k);
    UpperBoundSplits(s, k);
    SortedSplit(s, i);
    forall j | 0 <= j < |b| ensures k <= b[j] {
      assert b[j] == s[i + j];
    }
    SortedAround(a, k, b);
  }

  /** Placing `k` anywhere adds exactly one occurrence of it. */
  lemma MultisetInsertAt(s: seq<int>, i: nat, k: int)
    requires i <= |s|
    ensures multiset(s[..i] + [k] + s[i..]) == multiset(s) + multiset{k}
  {
    assert s == s[..i] + s[i..];
  }

  /** Adding one occurrence of `k` left of `m` in `a + [m] + b` adds it to the whole. */
  lemma MultisetGrowsLeft(a: seq<int>, a': seq<int>, m: int, b: seq<int>, k: int)
    requires multiset(a') == multiset(a) + multiset{k}
    ensures multiset(a' + [m] + b) == multiset(a + [m] + b) + multiset{k}
  {
    var x, y := multiset(a' + [m] + b), multiset(a + [m] + b) + multiset{k};
    assert x == multiset(a) + multiset{k} + multiset{m} + multiset(b);
    assert y == multiset(a) + multiset{m} + multiset(b) + multiset{k};
  }

  /** Adding one occurrence of `k` right of `m` in `a + [m] + b` adds it to the whole. */
  lemma MultisetGrowsRight(a: seq<int>, m: int, b: seq<int>, b': seq<int>, k: int)
    requires multiset(b') == multiset(b) + multiset{k}
    ensures multiset(a + [m] + b') == multiset(a + [m] + b) + multiset{k}
  {
    var x, y := multiset(a + [m] + b'), multiset(a + [m] + b) + multiset{k};
    assert x == multiset(a) + multiset{m} + multiset(b) + multiset{k};
  }

  /** When the tail starts above `k`, insertion happens inside the prefix or right before the tail. */
  lemma {:induction false} SortedInsertBefore(a: seq<int>, c: seq<int>, k: int)
    requires c != [] && k < c[0]
    ensures SortedInsert(a + c, k) == SortedInsert(a, k) + c
  {
    if a == [] {
      assert a + c == c;
    } else {
      assert (a + c)[0] == a[0];
      assert (a + c)[1..] == a[1..] + c;
      if k < a[0] {
      } else {
        SortedInsertBefore(a[1..], c, k);
      }
    }
  }

  /** When no element of the prefix exceeds `k`, insertion skips the whole prefix. */
  lemma {:induction false} SortedInsertAfter(a: seq<int>, c: seq<int>, k: int)
    requires forall j :: 0 <= j < |a| ==> a[j] <= k
    ensures SortedInsert(a + c, k) == a + SortedInsert(c, k)
  {
    if a == [] {
      assert a + c == c;
    } else {
      assert (a + c)[0] == a[0];
      assert (a + c)[1..] == a[1..] + c;
      assert !(k < (a + c)[0]);
      SortedInsertAfter(a[1..], c, k);
      assert SortedInsert(a + c, k) == [a[0]] + SortedInsert(a[1..] + c, k);
    }
  }

  /** Inserting a key below the middle element `m` of `a + [m] + b` happens within `a`. */
  lemma SortedInsertLeftOf(a: seq<int>, m: int, b: seq<int>, k: int)
    requires k < m
    ensures SortedInsert(a + [m] + b, k) == SortedInsert(a, k) + [m] + b
  {
    assert a + [m] + b == a + ([m] + b);
    SortedInsertBefore(a, [m] + b, k);
  }

  /** Inserting a key not below `m`, nor below anything in `a`, happens within `b`. */
  lemma SortedInsertRightOf(a: seq<int>, m: int, b: seq<int>, k: int)
    requires m <= k && forall x :: x in a ==> x <= k
    ensures SortedInsert(a + [m] + b, k) == a + [m] + SortedInsert(b, k)
  {
    forall j | 0 <= j < |a + [m]| ensures (a + [m])[j] <= k {
      if j < |a| { assert a[j] in a; }
    }
    SortedInsertAfter(a + [m], b, k);
  }

  /** Removing one element keeps a sorted sequence sorted and takes exactly one occurrence out. */
  lemma RemoveAtSorted(s: seq<int>, i: nat)
    requires i < |s|
    ensures Sorted(s) ==> Sorted(RemoveAt(s, i))
    ensures multiset(RemoveAt(s, i)) == multiset(s) - multiset{s[i]}
  {
    var r := RemoveAt(s, i);
    if Sorted(s) {
      forall a, b | 0 <= a < b < |r| ensures r[a] <= r[b] {
        var a' := if a < i then a else a + 1;
        var b' := if b < i then b else b + 1;
        assert r[a] == s[a'] && r[b] == s[b'];
      }
    }
    assert s == s[..i] + [s[i]] + s[i + 1..];
  }

  /** The first element of a sorted sequence is its minimum and the last its maximum. */
  lemma SortedEnds(s: seq<int>)
    ensures Sorted(s) && |s| > 0 ==> forall x :: x in s ==> s[0] <= x <= s[|s| - 1]
  {
    if Sorted(s) && |s| > 0 {
      forall x | x in s ensures s[0] <= x <= s[|s| - 1] {
        var i :| 0 <= i < |s| && s[i] == x;
        if i > 0 { assert s[0] <= s[i]; }
        if i < |s| - 1 { assert s[i] <= s[|s| - 1]; }
      }
    }
  }

  /** Taking out any occurrence of a just inserted key restores the sequence. */
  lemma RemoveInserted(s: seq<int>, k: int, j: nat)
    requires Sorted(s) && j < |SortedInsert(s, k)| && SortedInsert(s, k)[j] == k
    ensures RemoveAt(SortedInsert(s, k), j) == s
  {
    SortedInsertAtUpperBound(s, k);
    UpperBoundBounds(s, k);
    UpperBoundSplits(s, k);
    RemoveInsertedAt(s, k, UpperBound(s, k), j);
  }

  /** `RemoveInserted` with the insertion point `i` given by its defining properties. */
  lemma RemoveInsertedAt(s: seq<int>, k: int, i: nat, j: nat)
    requires Sorted(s) && i <= |s|
    requires forall x :: 0 <= x < i ==> s[x] <= k
    requires forall x :: i <= x < |s| ==> k < s[x]
    requires j <= |s| && (s[..i] + [k] + s[i..])[j] == k
    ensures RemoveAt(s[..i] + [k] + s[i..], j) == s
  {
    var a, b := s[..i], s[i..];
    assert s == a + b;
    // past the insertion point every element exceeds `k`, so `j` is at most `i`
    forall x | i < x <= |s| ensures (a + [k] + b)[x] != k {
      assert (a + [k] + b)[x] == s[x - 1];
    }
    assert j <= i;
    if j == i {
      RemoveAtMiddle(a, k, b);
    } else {
      // a[j..] is a run of copies of k
      assert a[j] == (a + [k] + b)[j] == k;
      forall x | j <= x < |a| ensures a[x] == k {
        assert a[j] == s[j] <= s[x] == a[x] <= k;
      }
      RemoveAtLeftPart(a, k, b, j);
      RemoveFromRun(a, j, k);
    }
  }

  /** Dropping one element of a trailing run of `k` and appending `k` gives
      the sequence back. */
  lemma RemoveFromRun(a: seq<int>, j: nat, k: int)
    requires j < |a| && forall x :: j <= x < |a| ==> a[x] == k
    ensures RemoveAt(a, j) + [k] == a
  {
    var q := RemoveAt(a, j) + [k];
    forall m | 0 <= m < |a| ensures q[m] == a[m] {
      if m < j {
      } else if m < |a| - 1 {
        assert q[m] == a[m + 1];
      }
    }
  }
}
