/**
 * Single-pass insertion: every full node met on the way down is split before
 * the descent enters it, so the leaf finally reached always has room.
 */
module Insert {
  import opened Seqs
  import opened Nodes

  /**
   * Splits the full child `i` of `x`: the child keeps its `t` smallest keys and
   * the children left of its median, a new node takes the `t` largest keys and
   * the remaining children, and the median moves up into `x` at position `i`.
   */
  function SplitChild(x: Node, i: nat, t: nat): (r: Node)
    requires i < |x.children| && |x.children| == |x.keys| + 1
    requires |x.children[i].keys| == MaxKeys(t)
    requires x.children[i].children != [] ==> |x.children[i].children| == MaxKeys(t) + 1
    ensures |r.keys| == |x.keys| + 1 && |r.children| == |x.children| + 1
    ensures |r.children[i].keys| == t && |r.children[i + 1].keys| == t
    ensures r.keys[i] == x.children[i].keys[t]
  {
    var y := x.children[i];
    Expand(x, i, LeftPart(y, t), y.keys[t], RightPart(y, t))
  }

  /** Splitting a child moves keys between levels but keeps the in-order sequence. */
  lemma SplitChildInOrder(x: Node, i: nat, t: nat)
    requires i < |x.children| && |x.children| == |x.keys| + 1
    requires |x.children[i].keys| == MaxKeys(t)
    requires x.children[i].children != [] ==> |x.children[i].children| == MaxKeys(t) + 1
    ensures InOrder(SplitChild(x, i, t)) == InOrder(x)
  {
    var y := x.children[i];
    InOrderExpand(x, i, LeftPart(y, t), y.keys[t], RightPart(y, t));
    NodeHole(x, i);
    InOrderSplit(y, t);
  }

  /** Splitting a full child of a node with room keeps the node well-shaped. */
  lemma SplitChildShape(x: Node, t: nat, h: nat, lo: nat, i: nat)
    requires Shape(x, t, h, lo) && h > 0 && |x.keys| < MaxKeys(t)
    requires i < |x.children| && |x.children[i].keys| == MaxKeys(t)
    ensures x.children[i].children != [] ==> |x.children[i].children| == MaxKeys(t) + 1
    ensures Shape(SplitChild(x, i, t), t, h, lo)
  {
    var y := x.children[i];
    assert Shape(y, t, h - 1, t);
    ShapeSplit(y, t, h - 1, t, t);
    ShapeExpand(x, t, h, lo, i, LeftPart(y, t), y.keys[t], RightPart(y, t));
  }

  /**
   * Inserts `k` below a node with room: a leaf takes it by sorted insertion; an
   * internal node routes it left of the first key not smaller than `k`,
   * splitting that child first when it is full.
   */
  function InsertNonFull(x: Node, k: int, t: nat, h: nat, lo: nat): (r: Node)
    requires Shape(x, t, h, lo) && |x.keys| < MaxKeys(t)
    ensures r.children == [] <==> x.children == []
    ensures |x.keys| <= |r.keys| <= |x.keys| + 1
    decreases h, 1
  {
    if x.children == [] then Node(AddKey(x.keys, k), [])
    else
      var i := LowerBound(x.keys, k);
      if |x.children[i].keys| == MaxKeys(t) then
        SplitChildShape(x, t, h, lo, i);
        var x1 := SplitChild(x, i, t);
        Descend(x1, if k > x1.keys[i] then i + 1 else i, k, t, h)
      else
        Descend(x, i, k, t, h)
  }

  /** Continues the insertion in child `j`, which has room. */
  function Descend(x: Node, j: nat, k: int, t: nat, h: nat): (r: Node)
    requires h > 0 && j < |x.children|
    requires Shape(x.children[j], t, h - 1, t) && |x.children[j].keys| < MaxKeys(t)
    ensures r.keys == x.keys && |r.children| == |x.children|
    decreases h, 0
  {
    Node(x.keys, x.children[j := InsertNonFull(x.children[j], k, t, h - 1, t)])
  }

  /** Insertion below a node with room keeps it a B-tree of the same height. */
  lemma {:induction false} InsertNonFullShape(x: Node, k: int, t: nat, h: nat, lo: nat)
    requires Shape(x, t, h, lo) && |x.keys| < MaxKeys(t)
    ensures Shape(InsertNonFull(x, k, t, h, lo), t, h, lo)
    decreases h, 1
  {
    if x.children != [] {
      var i := LowerBound(x.keys, k);
      if |x.children[i].keys| == MaxKeys(t) {
        SplitChildShape(x, t, h, lo, i);
        var x1 := SplitChild(x, i, t);
        DescendShape(x1, if k > x1.keys[i] then i + 1 else i, k, t, h, lo);
      } else {
        DescendShape(x, i, k, t, h, lo);
      }
    }
  }

  lemma {:induction false} DescendShape(x: Node, j: nat, k: int, t: nat, h: nat, lo: nat)
    requires Shape(x, t, h, lo) && h > 0 && j < |x.children| && |x.children[j].keys| < MaxKeys(t)
    ensures Shape(Descend(x, j, k, t, h), t, h, lo)
    decreases h, 0
  {
    InsertNonFullShape(x.children[j], k, t, h - 1, t);
    ShapeReplace(x, t, h, lo, j, InsertNonFull(x.children[j], k, t, h - 1, t));
  }

  /** After a split, the half chosen by comparing with the median is the one whose separators admit `k`. */
  lemma SplitChildRoute(x: Node, i: nat, t: nat, k: int)
    requires i < |x.children| && |x.children| == |x.keys| + 1
    requires |x.children[i].keys| == MaxKeys(t)
    requires x.children[i].children != [] ==> |x.children[i].children| == MaxKeys(t) + 1
    requires (0 < i ==> x.keys[i - 1] < k) && (i < |x.keys| ==> k <= x.keys[i])
    ensures var x1 := SplitChild(x, i, t);
            var j := if k > x1.keys[i] then i + 1 else i;
            (0 < j ==> x1.keys[j - 1] <= k) && (j < |x1.keys| ==> k <= x1.keys[j])
  {
    var x1 := SplitChild(x, i, t);
    if 0 < i {
      assert x1.keys[i - 1] == x1.keys[..i][i - 1] == x.keys[i - 1];
    }
    if i < |x.keys| {
      assert x1.keys[i + 1] == x1.keys[i + 1..][0] == x.keys[i];
    }
  }

  /**
   * Child `j` of an ordered node is a B-tree with room, and the separators
   * around it admit `k`.
   */
  predicate CanDescend(x: Node, j: nat, k: int, t: nat, h: nat) {
    && h > 0 && x.children != [] && |x.children| == |x.keys| + 1 && j < |x.children|
    && Shape(x.children[j], t, h - 1, t) && |x.children[j].keys| < MaxKeys(t)
    && Ordered(InOrder(x), false)
    && (0 < j ==> x.keys[j - 1] <= k) && (j < |x.keys| ==> k <= x.keys[j])
  }

  /** Insertion below a node with room is sorted insertion into its in-order sequence. */
  lemma {:induction false} InsertNonFullContent(x: Node, k: int, t: nat, h: nat, lo: nat)
    requires Shape(x, t, h, lo) && |x.keys| < MaxKeys(t)
    requires Ordered(InOrder(x), false)
    ensures InOrder(InsertNonFull(x, k, t, h, lo)) == AddKey(InOrder(x), k)
    decreases h, 1
  {
    if x.children != [] {
      var i := LowerBound(x.keys, k);
      if |x.children[i].keys| == MaxKeys(t) {
        SplitReady(x, i, k, t, h, lo);
        var x1 := SplitChild(x, i, t);
        DescendContent(x1, if k > x1.keys[i] then i + 1 else i, k, t, h);
      } else {
        DirectReady(x, i, k, t, h, lo);
        DescendContent(x, i, k, t, h);
      }
    }
  }

  /** After the split, the half that admits `k` is ready for the descent, and nothing was lost. */
  lemma SplitReady(x: Node, i: nat, k: int, t: nat, h: nat, lo: nat)
    requires Shape(x, t, h, lo) && |x.keys| < MaxKeys(t) && x.children != []
    requires i == LowerBound(x.keys, k) && |x.children[i].keys| == MaxKeys(t)
    requires Ordered(InOrder(x), false)
    ensures x.children[i].children != [] ==> |x.children[i].children| == MaxKeys(t) + 1
    ensures InOrder(SplitChild(x, i, t)) == InOrder(x)
    ensures var x1 := SplitChild(x, i, t);
            CanDescend(x1, if k > x1.keys[i] then i + 1 else i, k, t, h)
  {
    SplitChildShape(x, t, h, lo, i);
    SplitChildInOrder(x, i, t);
    SplitChildRoute(x, i, t, k);
  }

  /** Without a split, the child left of the first key not smaller than `k` is ready for the descent. */
  lemma DirectReady(x: Node, i: nat, k: int, t: nat, h: nat, lo: nat)
    requires Shape(x, t, h, lo) && x.children != [] && Ordered(InOrder(x), false)
    requires i == LowerBound(x.keys, k) && |x.children[i].keys| != MaxKeys(t)
    ensures CanDescend(x, i, k, t, h)
  {
  }

  /** Inserting into a child with room whose separators admit `k` is sorted insertion into the node. */
  lemma {:induction false} DescendContent(x: Node, j: nat, k: int, t: nat, h: nat)
    requires CanDescend(x, j, k, t, h)
    ensures InOrder(Descend(x, j, k, t, h)) == AddKey(InOrder(x), k)
    decreases h, 0
  {
    var c := InsertNonFull(x.children[j], k, t, h - 1, t);
    assert InOrder(c) == AddKey(InOrder(x.children[j]), k) by {
      ChildOrdered(x, j, false);
      InsertNonFullContent(x.children[j], k, t, h - 1, t);
    }
    DescendInsert(x, j, k, c);
  }

  /**
   * A full root moves below a fresh keyless root and is split there: the tree
   * becomes one level taller and its new root holds just the old median.
   */
  function GrowRoot(root: Node, t: nat, h: nat, lo: nat): (r: Node)
    requires 1 <= t && Shape(root, t, h, lo) && |root.keys| == MaxKeys(t)
    ensures r.keys == [root.keys[t]] && |r.children| == 2
  {
    SplitChild(Node([], [root]), 0, t)
  }

  /** The grown root holds the old median above the two halves of the old root. */
  lemma GrowRootParts(root: Node, t: nat, h: nat, lo: nat)
    requires 1 <= t && Shape(root, t, h, lo) && |root.keys| == MaxKeys(t)
    ensures GrowRoot(root, t, h, lo) == Node([root.keys[t]], [LeftPart(root, t), RightPart(root, t)])
  {
    var s := Node([], [root]);
    assert s.children[..0] + [LeftPart(root, t), RightPart(root, t)] + s.children[1..]
        == [LeftPart(root, t), RightPart(root, t)];
  }

  /** The grown root is a B-tree one level taller whose top holds one key. */
  lemma GrowRootShape(root: Node, t: nat, h: nat, lo: nat)
    requires 1 <= t && Shape(root, t, h, lo) && |root.keys| == MaxKeys(t)
    ensures Shape(GrowRoot(root, t, h, lo), t, h + 1, 1)
  {
    GrowRootParts(root, t, h, lo);
    ShapeSplit(root, t, h, lo, t);
  }

  /** Growing the root keeps the in-order sequence. */
  lemma GrowRootContent(root: Node, t: nat, h: nat, lo: nat)
    requires 1 <= t && Shape(root, t, h, lo) && |root.keys| == MaxKeys(t)
    ensures InOrder(GrowRoot(root, t, h, lo)) == InOrder(root)
  {
    InOrderNewRoot(root);
    SplitChildInOrder(Node([], [root]), 0, t);
  }

  /** Insertion at a non-empty root; a full root is grown first. */
  function InsertRoot(root: Node, k: int, t: nat): (r: Node)
    requires 1 <= t && RootShape(root, t)
    ensures |root.keys| == MaxKeys(t) ==> |r.keys| <= 2
  {
    var h, lo := Height(root), if root.children == [] then 0 else 1;
    if |root.keys| == MaxKeys(t) then
      GrowRootShape(root, t, h, lo);
      InsertNonFull(GrowRoot(root, t, h, lo), k, t, h + 1, 1)
    else
      InsertNonFull(root, k, t, h, lo)
  }

  /** Insertion keeps a valid root; the tree grows by one level exactly when the root was full. */
  lemma InsertRootShape(root: Node, k: int, t: nat)
    requires 1 <= t && RootShape(root, t)
    ensures RootShape(InsertRoot(root, k, t), t)
    ensures Height(InsertRoot(root, k, t)) == if |root.keys| == MaxKeys(t) then Height(root) + 1 else Height(root)
  {
    var h, lo := Height(root), if root.children == [] then 0 else 1;
    if |root.keys| == MaxKeys(t) {
      var g := GrowRoot(root, t, h, lo);
      GrowRootShape(root, t, h, lo);
      assert InsertRoot(root, k, t) == InsertNonFull(g, k, t, h + 1, 1);
      InsertNonFullShape(g, k, t, h + 1, 1);
      ShapeIsRootShape(InsertNonFull(g, k, t, h + 1, 1), t, h + 1, 1);
      ShapeHeight(InsertNonFull(g, k, t, h + 1, 1), t, h + 1, 1);
    } else {
      assert InsertRoot(root, k, t) == InsertNonFull(root, k, t, h, lo);
      InsertNonFullShape(root, k, t, h, lo);
      ShapeIsRootShape(InsertNonFull(root, k, t, h, lo), t, h, lo);
      ShapeHeight(InsertNonFull(root, k, t, h, lo), t, h, lo);
    }
  }

  /** Insertion at the root is sorted insertion into the whole in-order sequence. */
  lemma InsertRootContent(root: Node, k: int, t: nat)
    requires 1 <= t && RootShape(root, t) && Ordered(InOrder(root), false)
    ensures InOrder(InsertRoot(root, k, t)) == AddKey(InOrder(root), k)
  {
    var h, lo := Height(root), if root.children == [] then 0 else 1;
    if |root.keys| == MaxKeys(t) {
      GrowRootShape(root, t, h, lo);
      var g := GrowRoot(root, t, h, lo);
      assert InsertRoot(root, k, t) == InsertNonFull(g, k, t, h + 1, 1);
      GrowRootContent(root, t, h, lo);
      InsertNonFullContent(g, k, t, h + 1, 1);
    } else {
      assert InsertRoot(root, k, t) == InsertNonFull(root, k, t, h, lo);
      InsertNonFullContent(root, k, t, h, lo);
    }
  }
}
