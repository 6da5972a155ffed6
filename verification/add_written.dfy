/**
 * `add` and `split` with the child placement the code writes: when a split
 * child's halves go back into the parent, the split child is taken out, each
 * half is appended, and the child list is stably sorted by first key after
 * each append. The halves themselves receive their children the same way.
 * A half whose first key equals the first key of a sibling to its right ends
 * up after that sibling, and the tree stops reading in order. The rest of the
 * model places the halves at the split child's position (`Grow.Absorb`).
 */
module AddAsWritten {
  import opened Seqs
  import opened Nodes
  import opened Grow
  import opened Search
  import opened Add
  import opened ChildSort

  /** Children handed to a new node one by one, each append followed by the stable sort. */
  function Adopt(cs: seq<Node>): (r: seq<Node>)
    ensures |r| == |cs|
  {
    SortByFirst(cs)
  }

  /** `split` of an overfull node around key `numberOfKeys / 2`, halves filled by `addKey` and `addChild`. */
  function OverflowAsWritten(e: Node, t: nat): (g: Grow)
    requires e.children != [] ==> |e.children| == |e.keys| + 1
    ensures g.Fit? <==> |e.keys| <= MaxKeys(t)
    ensures g.Split? ==> && |g.l.keys| == |e.keys| / 2 && |g.l.keys| + |g.r.keys| + 1 == |e.keys|
                         && (g.l.children == [] <==> e.children == []) && (g.r.children == [] <==> e.children == [])
                         && (e.children != [] ==> |g.l.children| == |g.l.keys| + 1 && |g.r.children| == |g.r.keys| + 1)
  {
    if |e.keys| <= MaxKeys(t) then Fit(e)
    else
      var j := |e.keys| / 2;
      var l := LeftPart(e, j);
      var r := RightPart(e, j);
      Split(Node(l.keys, Adopt(l.children)), e.keys[j], Node(r.keys, Adopt(r.children)))
  }

  /**
   * `split`'s parent branch: the median goes in by `addKey`, the split child
   * is removed, and the left and then the right half are added by `addChild`.
   */
  function AbsorbAsWritten(x: Node, i: nat, g: Grow): (r: Node)
    requires i < |x.children| && i <= |x.keys|
    ensures |r.keys| == if g.Fit? then |x.keys| else |x.keys| + 1
    ensures |r.children| == if g.Fit? then |x.children| else |x.children| + 1
  {
    match g
    case Fit(c) => Node(x.keys, x.children[i := c])
    case Split(l, m, r) => Node(AddKey(x.keys, m), Adopt(Adopt(RemoveAt(x.children, i) + [l]) + [r]))
  }

  /** `split`'s new-root branch: a one-key root that receives the left and then the right half by `addChild`. */
  function NewRootAsWritten(g: Grow): (r: Node)
    ensures g.Split? ==> r.keys == [g.m] && |r.children| == 2
    ensures g.Fit? ==> r == g.n
  {
    match g
    case Fit(n) => n
    case Split(l, m, r) => Node([m], Adopt(Adopt([l]) + [r]))
  }

  /** `add` below `x` as written: the route of `add`, then splits placed by the stable sort. */
  function AddRecAsWritten(x: Node, k: int, t: nat, h: nat, lo: nat): (g: Grow)
    requires Shape(x, t, h, lo) && (h > 0 ==> 1 <= lo) && 1 <= t
    ensures g.Fit? ==> |g.n.keys| <= MaxKeys(t)
    decreases h
  {
    if x.children == [] then OverflowAsWritten(Node(AddKey(x.keys, k), []), t)
    else
      var i := AddRoute(x.keys, k);
      OverflowAsWritten(AbsorbAsWritten(x, i, AddRecAsWritten(x.children[i], k, t, h - 1, t)), t)
  }

  /** `add` at a non-empty root as written. */
  function AddRootAsWritten(root: Node, k: int, t: nat): (r: Node)
    requires RootShape(root, t) && 1 <= t
    ensures r.keys != []
  {
    NewRootAsWritten(AddRecAsWritten(root, k, t, Height(root), if root.children == [] then 0 else 1))
  }

  // ---------------------------------------------------------------------------
  // The counterexample, with order 2 (minimum key count 1, at most 3 keys).

  /** The tree left by adding 5, 5, 5, 5, 9 and 5 to an empty tree. */
  const TieTree := Node([5], [Node([5, 5, 5], []), Node([5, 9], [])])

  /** The tree after adding one more 5, as the code leaves it. */
  const TieAdded := Node([5, 5], [Node([5, 9], []), Node([5, 5], []), Node([5], [])])

  /** The leaves before the first split: 5 becomes 5,5 and then 5,5,5. */
  lemma TieReachedLeaf()
    ensures RootShape(Node([5], []), 1) && AddRootAsWritten(Node([5], []), 5, 1) == Node([5, 5], [])
    ensures RootShape(Node([5, 5], []), 1) && AddRootAsWritten(Node([5, 5], []), 5, 1) == Node([5, 5, 5], [])
  {
  }

  /** The third 5 splits the root leaf 5,5,5,5 under a new root; both halves start with 5 and keep their order. */
  lemma TieReachedSplit()
    ensures RootShape(Node([5, 5, 5], []), 1)
      && AddRootAsWritten(Node([5, 5, 5], []), 5, 1) == Node([5], [Node([5, 5], []), Node([5], [])])
  {
    var e := AddKey([5, 5, 5], 5);
    assert e == [5, 5, 5, 5] && e[..2] == [5, 5] && e[3..] == [5];
    var l, r := Node([5, 5], []), Node([5], []);
    assert [l][..0] == [] && Adopt([l]) == [l];
    SortTie(l, r);
    assert Adopt(Adopt([l]) + [r]) == [l, r];
  }

  /** 9 goes into the right leaf. */
  lemma TieReachedNine()
    ensures RootShape(Node([5], [Node([5, 5], []), Node([5], [])]), 1)
      && AddRootAsWritten(Node([5], [Node([5, 5], []), Node([5], [])]), 9, 1) == Node([5], [Node([5, 5], []), Node([5, 9], [])])
  {
    var u := Node([5], [Node([5, 5], []), Node([5], [])]);
    assert Height(u) == 1 && AddRoute([5], 9) == 1 && AddKey([5], 9) == [5, 9];
    assert u.children[1 := Node([5, 9], [])] == [Node([5, 5], []), Node([5, 9], [])];
  }

  /** The next 5 goes into the left leaf. */
  lemma TieReachedFive()
    ensures RootShape(Node([5], [Node([5, 5], []), Node([5, 9], [])]), 1)
      && AddRootAsWritten(Node([5], [Node([5, 5], []), Node([5, 9], [])]), 5, 1) == TieTree
  {
    var w := Node([5], [Node([5, 5], []), Node([5, 9], [])]);
    assert Height(w) == 1 && AddRoute([5], 5) == 0 && AddKey([5, 5], 5) == [5, 5, 5];
    assert w.children[0 := Node([5, 5, 5], [])] == TieTree.children;
  }

  /** The full leaf 5,5,5,5 splits into 5,5 and 5 around median 5. */
  lemma TieLeafSplit()
    ensures AddRecAsWritten(Node([5, 5, 5], []), 5, 1, 0, 1) == Split(Node([5, 5], []), 5, Node([5], []))
  {
  }

  /** Both halves start with 5, as does the sibling 5,9, so the sort keeps 5,9 first. */
  lemma TieParent()
    ensures AbsorbAsWritten(TieTree, 0, Split(Node([5, 5], []), 5, Node([5], []))) == TieAdded
  {
    var a, l, r := Node([5, 9], []), Node([5, 5], []), Node([5], []);
    assert RemoveAt(TieTree.children, 0) == [a];
    SortTie(a, l);
    assert Adopt([a] + [l]) == [a, l];
    SortSnoc([a, l], r);
    SortSorted([a, l]);
    InsertByFirstLast([a, l], r);
    assert AddKey([5], 5) == [5, 5];
  }

  /** The in-order sequence of the tree the code leaves. */
  lemma TieAddedInOrder()
    ensures InOrder(TieAdded) == [5, 9, 5, 5, 5, 5, 5]
  {
  }

  /** The in-order sequence of the tree before the add. */
  lemma TieTreeInOrder()
    ensures InOrder(TieTree) == [5, 5, 5, 5, 5, 9]
  {
  }

  /**
   * With order 2, adding 5 to the well-formed tree 5 over 5,5,5 and 5,9 splits
   * the leaf 5,5,5,5 into halves that both start with 5; the stable sort puts
   * them after 5,9, the tree reads 5,9,5,5,5,5,5, and the search for 9 goes
   * right of the last root key into the leaf 5 and misses it.
   */
  lemma AddTie()
    ensures RootShape(TieTree, 1) && InOrder(TieTree) == [5, 5, 5, 5, 5, 9]
    ensures AddRootAsWritten(TieTree, 5, 1) == TieAdded
    ensures InOrder(TieAdded) == [5, 9, 5, 5, 5, 5, 5] && !Ordered(InOrder(TieAdded), false)
    ensures 9 in InOrder(TieAdded) && !Contains(TieAdded, 9)
  {
    assert Shape(TieTree.children[0], 1, 0, 1) && Shape(TieTree.children[1], 1, 0, 1);
    assert Height(TieTree) == 1;
    TieTreeInOrder();
    TieLeafSplit();
    TieParent();
    assert AddRoute([5], 5) == 0;
    assert AddRecAsWritten(TieTree, 5, 1, 1, 1) == Fit(TieAdded);
    TieAddedInOrder();
    var s := InOrder(TieAdded);
    assert !Le(s[1], s[2], false);
    assert s[1] == 9;
    assert Where(TieAdded, 9) == Down(2);
    assert Where(Node([5], []), 9) == Miss;
  }
}
