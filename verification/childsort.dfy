/**
 * The child placement of `splitChild` as the code writes it: the new right
 * half is stored at the split child's own index, the old child moves one
 * place right, and the whole child list is then stably sorted by first key.
 * When the split child starts with as many equal keys as reach past its
 * median, both halves start with the same key, the stable sort leaves the
 * right half in front, and the in-order sequence is no longer sorted.
 */
module ChildSort {
  import opened Seqs
  import opened Nodes
  import opened Insert

  /** The key children are compared by; a keyless child has none and sorts as 0. */
  function First(c: Node): int {
    if c.keys == [] then 0 else c.keys[0]
  }

  /** Children in non-decreasing order of first key. */
  predicate SortedByFirst(s: seq<Node>) {
    forall i :: 0 < i < |s| ==> First(s[i - 1]) <= First(s[i])
  }

  /** Puts `c` into a list sorted by first key, after every child whose first key is not larger. */
  function InsertByFirst(s: seq<Node>, c: Node): (r: seq<Node>)
    ensures |r| == |s| + 1
    decreases |s|
  {
    if s == [] || First(s[|s| - 1]) <= First(c) then s + [c]
    else InsertByFirst(s[..|s| - 1], c) + [s[|s| - 1]]
  }

  /** Stable insertion sort of a child list by first key. */
  function SortByFirst(s: seq<Node>): (r: seq<Node>)
    ensures |r| == |s|
    decreases |s|
  {
    if s == [] then [] else InsertByFirst(SortByFirst(s[..|s| - 1]), s[|s| - 1])
  }

  /** Appending a child whose first key is not below any other keeps the list sorted. */
  lemma InsertByFirstLast(s: seq<Node>, c: Node)
    requires SortedByFirst(s) && (s != [] ==> First(s[|s| - 1]) <= First(c))
    ensures InsertByFirst(s, c) == s + [c]
  {
  }

  /** Every prefix of a sorted list is sorted. */
  lemma SortedPrefix(s: seq<Node>, n: nat)
    requires SortedByFirst(s) && n <= |s|
    ensures SortedByFirst(s[..n])
  {
  }

  /** A list already sorted by first key is left as it is. */
  lemma {:induction false} SortSorted(s: seq<Node>)
    requires SortedByFirst(s)
    ensures SortByFirst(s) == s
    decreases |s|
  {
    if s != [] {
      var init := s[..|s| - 1];
      SortSorted(init);
      assert s == init + [s[|s| - 1]];
      InsertByFirstLast(init, s[|s| - 1]);
    }
  }

  /** `splitChild` as written: the halves are placed by the stable sort on first keys. */
  function SplitChildAsWritten(x: Node, i: nat, t: nat): (r: Node)
    requires i < |x.children| && |x.children| == |x.keys| + 1
    requires |x.children[i].keys| == MaxKeys(t)
    requires x.children[i].children != [] ==> |x.children[i].children| == MaxKeys(t) + 1
    ensures |r.keys| == |x.keys| + 1 && |r.children| == |x.children| + 1
  {
    var y := x.children[i];
    var placed := x.children[..i] + [RightPart(y, t), LeftPart(y, t)] + x.children[i + 1..];
    Node(InsertAt(x.keys, i, y.keys[t]), SortByFirst(placed))
  }

  /** The example tree: a keyless root above one full leaf with minimum key count 2. */
  const TieRoot := Node([], [Node([5, 5, 5, 5, 7], [])])

  /** The halves of the example leaf around its median. */
  lemma TieHalves()
    ensures LeftPart(TieRoot.children[0], 2) == Node([5, 5], [])
    ensures RightPart(TieRoot.children[0], 2) == Node([5, 7], [])
  {
    var y := TieRoot.children[0];
    assert y.keys[..2] == [5, 5] && y.keys[3..] == [5, 7];
  }

  /** Two children with equal first keys keep their order. */
  lemma SortTie(b: Node, a: Node)
    requires First(a) == First(b)
    ensures SortByFirst([b] + [a]) == [b, a]
  {
    SortSnoc([b], a);
    SortSorted([b]);
    InsertByFirstLast([b], a);
  }

  /** The split of the example: median 5 above the halves, right half first. */
  lemma TieSplit()
    ensures SplitChildAsWritten(TieRoot, 0, 2) == Node([5], [Node([5, 7], []), Node([5, 5], [])])
  {
    var y := TieRoot.children[0];
    var a, b := LeftPart(y, 2), RightPart(y, 2);
    TieHalves();
    assert TieRoot.children[..0] + [b, a] + TieRoot.children[1..] == [b] + [a];
    SortTie(b, a);
    assert InsertAt(TieRoot.keys, 0, y.keys[2]) == [5];
  }

  /** The in-order sequence of the split example. */
  lemma TieInOrder()
    ensures InOrder(Node([5], [Node([5, 7], []), Node([5, 5], [])])) == [5, 7, 5, 5, 5]
  {
    var a, b := Node([5, 5], []), Node([5, 7], []);
    var cs := [b, a];
    assert cs[1..] == [a] && [5][1..] == [];
    assert Interleave([5], cs) == InOrder(b) + [5] + Interleave([], [a]);
    assert [a][1..] == [];
    assert Interleave([], [a]) == InOrder(a) + Interleave([], []);
  }

  /**
   * With minimum key count 2, a new root over the leaf 5,5,5,5,7 is split into
   * the halves 5,5 and 5,7 with median 5; both start with 5, so the half 5,7
   * stays first and the tree reads 5,7,5,5,5, which is not sorted.
   */
  lemma SplitChildTie()
    ensures InOrder(TieRoot) == [5, 5, 5, 5, 7]
    ensures InOrder(SplitChildAsWritten(TieRoot, 0, 2)) == [5, 7, 5, 5, 5]
    ensures !Ordered(InOrder(SplitChildAsWritten(TieRoot, 0, 2)), false)
  {
    InOrderNewRoot(TieRoot.children[0]);
    TieSplit();
    TieInOrder();
    var s := InOrder(SplitChildAsWritten(TieRoot, 0, 2));
    assert !Le(s[1], s[2], false);
  }

  /**
   * Whenever the stable sort meets the halves in their proper order it
   * changes nothing, and the code agrees with the positional split.
   */
  lemma SplitChildAgrees(x: Node, i: nat, t: nat)
    requires i < |x.children| && |x.children| == |x.keys| + 1
    requires |x.children[i].keys| == MaxKeys(t)
    requires x.children[i].children != [] ==> |x.children[i].children| == MaxKeys(t) + 1
    requires SortedByFirst(SplitChild(x, i, t).children)
    requires First(LeftPart(x.children[i], t)) < First(RightPart(x.children[i], t))
    ensures SplitChildAsWritten(x, i, t) == SplitChild(x, i, t)
  {
    var y := x.children[i];
    var a, b := LeftPart(y, t), RightPart(y, t);
    var good := SplitChild(x, i, t).children;
    var placed := x.children[..i] + [b, a] + x.children[i + 1..];
    assert good == x.children[..i] + [a, b] + x.children[i + 1..];
    SortSorted(good);
    assert SortByFirst(placed) == good by {
      SortSwap(x.children[..i], a, b, x.children[i + 1..]);
    }
  }

  /**
   * Sorting a list that is sorted except for one adjacent pair in the wrong
   * order puts that pair back.
   */
  lemma {:induction false} SortSwap(p: seq<Node>, a: Node, b: Node, q: seq<Node>)
    requires SortedByFirst(p + [a, b] + q) && First(a) < First(b)
    ensures SortByFirst(p + [b, a] + q) == p + [a, b] + q
    decreases |q|
  {
    if q == [] {
      assert p + [a, b] + q == (p + [a]) + [b] && p + [b, a] + q == (p + [b]) + [a];
      SortedPrefix(p + [a, b] + q, |p| + 1);
      assert (p + [a, b] + q)[..|p| + 1] == p + [a];
      SortSwapEnd(p, a, b);
    } else {
      var q0, e := q[..|q| - 1], q[|q| - 1];
      var full := p + [a, b] + q;
      var front := p + [a, b] + q0;
      assert full == front + [e] by {
        assert q == q0 + [e];
      }
      assert SortedByFirst(front) by {
        assert full[..|full| - 1] == front;
        SortedPrefix(full, |full| - 1);
      }
      SortSwap(p, a, b, q0);
      SortAppendLast(p + [b, a] + q0, front, e);
      assert p + [b, a] + q == (p + [b, a] + q0) + [e] by {
        assert q == q0 + [e];
      }
    }
  }

  /** Sorting a list whose sorted front is `sorted` and whose last child comes after it appends that child. */
  lemma SortAppendLast(s: seq<Node>, sorted: seq<Node>, e: Node)
    requires SortByFirst(s) == sorted && SortedByFirst(sorted + [e])
    ensures SortByFirst(s + [e]) == sorted + [e]
  {
    SortSnoc(s, e);
    assert (sorted + [e])[..|sorted|] == sorted;
    SortedPrefix(sorted + [e], |sorted|);
    if sorted != [] {
      assert (sorted + [e])[|sorted| - 1] == sorted[|sorted| - 1];
      assert (sorted + [e])[|sorted|] == e;
    }
    InsertByFirstLast(sorted, e);
  }

  /** Sorting a list with one more child at the end inserts that child into the sorted rest. */
  lemma SortSnoc(s: seq<Node>, e: Node)
    ensures SortByFirst(s + [e]) == InsertByFirst(SortByFirst(s), e)
  {
    assert (s + [e])[..|s|] == s;
  }

  /** A child that sorts before the last one goes in front of it. */
  lemma InsertByFirstPast(s: seq<Node>, x: Node, c: Node)
    requires First(c) < First(x)
    ensures InsertByFirst(s + [x], c) == InsertByFirst(s, c) + [x]
  {
    assert (s + [x])[..|s|] == s;
  }

  /** Replacing the last child of a sorted list by one with a larger first key keeps it sorted. */
  lemma SortedRaiseLast(p: seq<Node>, a: Node, b: Node)
    requires SortedByFirst(p + [a]) && First(a) <= First(b)
    ensures SortedByFirst(p + [b])
  {
    forall i | 0 < i < |p| + 1 ensures First((p + [b])[i - 1]) <= First((p + [b])[i]) {
      assert (p + [b])[i - 1] == (p + [a])[i - 1];
      if i < |p| {
        assert (p + [b])[i] == (p + [a])[i];
      } else {
        assert (p + [a])[i] == a && (p + [b])[i] == b;
      }
    }
  }

  /** The swapped pair at the end of the list is put back. */
  lemma SortSwapEnd(p: seq<Node>, a: Node, b: Node)
    requires SortedByFirst(p + [a]) && First(a) < First(b)
    ensures SortByFirst((p + [b]) + [a]) == (p + [a]) + [b]
  {
    SortedRaiseLast(p, a, b);
    SortSnoc(p + [b], a);
    SortSorted(p + [b]);
    InsertByFirstPast(p, b, a);
    assert (p + [a])[..|p|] == p;
    SortedPrefix(p + [a], |p|);
    if p != [] {
      assert (p + [a])[|p| - 1] == p[|p| - 1];
    }
    InsertByFirstLast(p, a);
  }
}
