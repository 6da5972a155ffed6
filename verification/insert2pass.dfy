/**
 * Two-pass insertion: the key is routed down to a leaf without changing
 * anything on the way. Only when that leaf is full are it and the unbroken run
 * of full ancestors above it split, each around its own median key `t`
 * (ancestors first), and the key then goes into the half of the leaf that
 * admits it. A full root that is reached gets a new root above it.
 */
module Insert2Pass {
  import opened Seqs
  import opened Nodes
  import opened Grow

  /** At a leaf: sorted insertion, or, when full, a split around key `t` and insertion into the half that admits `k`. */
  function Leaf2(x: Node, k: int, t: nat): (g: Grow)
    requires x.children == [] && |x.keys| <= MaxKeys(t)
    ensures g.Split? ==> |x.keys| == MaxKeys(t)
  {
    if |x.keys| < MaxKeys(t) then Fit(Node(AddKey(x.keys, k), []))
    else
      var l, m, r := LeftPart(x, t), x.keys[t], RightPart(x, t);
      if k <= m then Split(Node(AddKey(l.keys, k), []), m, r)
      else Split(l, m, Node(AddKey(r.keys, k), []))
  }

  /**
   * A parent takes in the outcome for its child `i`: directly when the child
   * still fits or the parent has room; a full parent is split around its key
   * `t` first and the child's halves go into the half that held the child.
   */
  function Absorb2(x: Node, i: nat, g: Grow, t: nat): (r: Grow)
    requires |x.children| == |x.keys| + 1 && i < |x.children| && |x.keys| <= MaxKeys(t)
    ensures r.Split? ==> g.Split? && |x.keys| == MaxKeys(t)
  {
    if g.Fit? || |x.keys| < MaxKeys(t) then Fit(Absorb(x, i, g))
    else if i <= t then Split(Absorb(LeftPart(x, t), i, g), x.keys[t], RightPart(x, t))
    else Split(LeftPart(x, t), x.keys[t], Absorb(RightPart(x, t), i - t - 1, g))
  }

  /** Inserts `k` below `x`, routing left of the first key not smaller than `k`. */
  function Insert2(x: Node, k: int, t: nat, h: nat, lo: nat): (g: Grow)
    requires Shape(x, t, h, lo)
    ensures g.Split? ==> |x.keys| == MaxKeys(t)
    decreases h
  {
    if x.children == [] then Leaf2(x, k, t)
    else Absorb2(x, LowerBound(x.keys, k), Insert2(x.children[LowerBound(x.keys, k)], k, t, h - 1, t), t)
  }

  /** Two-pass insertion at a non-empty root. */
  function Insert2Root(root: Node, k: int, t: nat): Node
    requires RootShape(root, t)
  {
    NewRoot(Insert2(root, k, t, Height(root), if root.children == [] then 0 else 1))
  }

  // ---------------------------------------------------------------------------
  // Shape.

  lemma Leaf2Shape(x: Node, k: int, t: nat, lo: nat)
    requires Shape(x, t, 0, lo)
    ensures GrowShape(Leaf2(x, k, t), t, 0, lo)
  {
  }

  lemma Absorb2Shape(x: Node, t: nat, h: nat, lo: nat, i: nat, g: Grow)
    requires Shape(x, t, h, lo) && h > 0 && i < |x.children| && GrowShape(g, t, h - 1, t)
    ensures GrowShape(Absorb2(x, i, g, t), t, h, lo)
  {
    if g.Fit? || |x.keys| < MaxKeys(t) {
      AbsorbShape(x, t, h, lo, i, g);
    } else {
      ShapeSplit(x, t, h, lo, t);
      if i <= t {
        AbsorbShape(LeftPart(x, t), t, h, t, i, g);
      } else {
        AbsorbShape(RightPart(x, t), t, h, t, i - t - 1, g);
      }
    }
  }

  /** Two-pass insertion below a B-tree node hands back well-shaped nodes of the same height. */
  lemma {:induction false} Insert2Shape(x: Node, k: int, t: nat, h: nat, lo: nat)
    requires Shape(x, t, h, lo)
    ensures GrowShape(Insert2(x, k, t, h, lo), t, h, lo)
    decreases h
  {
    if x.children == [] {
      Leaf2Shape(x, k, t, lo);
    } else {
      var i := LowerBound(x.keys, k);
      var c := x.children[i];
      assert Shape(c, t, h - 1, t);
      var g := Insert2(c, k, t, h - 1, t);
      Insert2Shape(c, k, t, h - 1, t);
      Absorb2Shape(x, t, h, lo, i, g);
      assert Insert2(x, k, t, h, lo) == Absorb2(x, i, g, t);
    }
  }

  /** Two-pass insertion keeps a valid root; the tree grows one level exactly when the root split. */
  lemma Insert2RootShape(root: Node, k: int, t: nat)
    requires 1 <= t && RootShape(root, t)
    ensures RootShape(Insert2Root(root, k, t), t)
    ensures Height(Insert2Root(root, k, t))
         == if Insert2(root, k, t, Height(root), if root.children == [] then 0 else 1).Split?
            then Height(root) + 1 else Height(root)
  {
    var h, lo := Height(root), if root.children == [] then 0 else 1;
    Insert2Shape(root, k, t, h, lo);
    NewRootShape(Insert2(root, k, t, h, lo), t, h, lo);
  }

  // ---------------------------------------------------------------------------
  // Content.

  /** At a sorted leaf the key is added to the in-order sequence, split or not. */
  lemma Leaf2Content(x: Node, k: int, t: nat)
    requires x.children == [] && |x.keys| <= MaxKeys(t) && Ordered(x.keys, false)
    ensures GrowInOrder(Leaf2(x, k, t)) == AddKey(x.keys, k)
  {
    if |x.keys| == MaxKeys(t) {
      var ks := x.keys;
      assert ks == ks[..t] + [ks[t]] + ks[t + 1..];
      if k <= ks[t] {
        AddKeyBelow(ks[..t], ks[t], ks[t + 1..], k);
      } else {
        AddKeyAbove(ks[..t], ks[t], ks[t + 1..], k);
      }
    }
  }

  /** A full parent split before taking in the halves of a child in its left half. */
  lemma Absorb2Left(x: Node, i: nat, g: Grow, t: nat, k: int)
    requires x.children != [] && |x.children| == |x.keys| + 1 && |x.keys| == MaxKeys(t) && i <= t
    requires Ordered(InOrder(x), false)
    requires (0 < i ==> x.keys[i - 1] <= k) && k <= x.keys[i]
    requires GrowInOrder(g) == AddKey(InOrder(x.children[i]), k)
    ensures InOrder(Absorb(LeftPart(x, t), i, g)) + [x.keys[t]] + InOrder(RightPart(x, t)) == AddKey(InOrder(x), k)
  {
    var pl, pm, pr := LeftPart(x, t), x.keys[t], RightPart(x, t);
    InOrderSplit(x, t);
    OrderedParts(InOrder(pl) + [pm], InOrder(pr), false);
    OrderedParts(InOrder(pl), [pm], false);
    assert pl.children[i] == x.children[i];
    if 0 < i {
      assert pl.keys[i - 1] == x.keys[i - 1];
    }
    if i < t {
      assert pl.keys[i] == x.keys[i];
    }
    AbsorbInsert(pl, i, g, k);
    assert k <= pm by {
      NodeKeys(x, false);
      assert Le(x.keys[i], x.keys[t], false) || i == t;
    }
    AddKeyBelow(InOrder(pl), pm, InOrder(pr), k);
  }

  /** A full parent split before taking in the halves of a child in its right half. */
  lemma Absorb2Right(x: Node, i: nat, g: Grow, t: nat, k: int)
    requires x.children != [] && |x.children| == |x.keys| + 1 && |x.keys| == MaxKeys(t) && t < i < |x.children|
    requires Ordered(InOrder(x), false)
    requires x.keys[i - 1] <= k && (i < |x.keys| ==> k <= x.keys[i])
    requires GrowInOrder(g) == AddKey(InOrder(x.children[i]), k)
    ensures InOrder(LeftPart(x, t)) + [x.keys[t]] + InOrder(Absorb(RightPart(x, t), i - t - 1, g)) == AddKey(InOrder(x), k)
  {
    var pl, pm, pr := LeftPart(x, t), x.keys[t], RightPart(x, t);
    InOrderSplit(x, t);
    RightHalfInsert(x, i, g, t, k);
    assert pm <= k by {
      NodeKeys(x, false);
      assert Le(x.keys[t], x.keys[i - 1], false) || i - 1 == t;
    }
    AddKeyAbove(InOrder(pl), pm, InOrder(pr), k);
  }

  /** The right half of a split full parent, taking in the child's outcome, gains `k`. */
  lemma RightHalfInsert(x: Node, i: nat, g: Grow, t: nat, k: int)
    requires x.children != [] && |x.children| == |x.keys| + 1 && |x.keys| == MaxKeys(t) && t < i < |x.children|
    requires Ordered(InOrder(x), false)
    requires x.keys[i - 1] <= k && (i < |x.keys| ==> k <= x.keys[i])
    requires GrowInOrder(g) == AddKey(InOrder(x.children[i]), k)
    ensures InOrder(Absorb(RightPart(x, t), i - t - 1, g)) == AddKey(InOrder(RightPart(x, t)), k)
  {
    var pr := RightPart(x, t);
    var j := i - t - 1;
    assert Ordered(InOrder(pr), false) by {
      InOrderSplit(x, t);
      OrderedParts(InOrder(LeftPart(x, t)) + [x.keys[t]], InOrder(pr), false);
    }
    assert pr.children[j] == x.children[i];
    assert 0 < j ==> pr.keys[j - 1] == x.keys[i - 1];
    assert j < |pr.keys| ==> pr.keys[j] == x.keys[i];
    AbsorbInsert(pr, j, g, k);
  }

  /** Taking in the child's outcome adds `k` to the parent's in-order sequence. */
  lemma Absorb2Content(x: Node, i: nat, g: Grow, t: nat, k: int)
    requires x.children != [] && |x.children| == |x.keys| + 1 && i < |x.children| && |x.keys| <= MaxKeys(t)
    requires Ordered(InOrder(x), false)
    requires (0 < i ==> x.keys[i - 1] <= k) && (i < |x.keys| ==> k <= x.keys[i])
    requires GrowInOrder(g) == AddKey(InOrder(x.children[i]), k)
    ensures GrowInOrder(Absorb2(x, i, g, t)) == AddKey(InOrder(x), k)
  {
    if g.Fit? || |x.keys| < MaxKeys(t) {
      AbsorbInsert(x, i, g, k);
    } else if i <= t {
      Absorb2Left(x, i, g, t, k);
    } else {
      Absorb2Right(x, i, g, t, k);
    }
  }

  /** Two-pass insertion below an ordered node adds `k` to its in-order sequence. */
  lemma {:induction false} Insert2Content(x: Node, k: int, t: nat, h: nat, lo: nat)
    requires Shape(x, t, h, lo) && Ordered(InOrder(x), false)
    ensures GrowInOrder(Insert2(x, k, t, h, lo)) == AddKey(InOrder(x), k)
    decreases h
  {
    if x.children == [] {
      Leaf2Content(x, k, t);
    } else {
      var i := LowerBound(x.keys, k);
      ChildOrdered(x, i, false);
      Insert2Content(x.children[i], k, t, h - 1, t);
      Absorb2Content(x, i, Insert2(x.children[i], k, t, h - 1, t), t, k);
    }
  }

  /** Two-pass insertion at the root is sorted insertion into the whole in-order sequence. */
  lemma Insert2RootContent(root: Node, k: int, t: nat)
    requires RootShape(root, t) && Ordered(InOrder(root), false)
    ensures InOrder(Insert2Root(root, k, t)) == AddKey(InOrder(root), k)
  {
    var h, lo := Height(root), if root.children == [] then 0 else 1;
    Insert2Content(root, k, t, h, lo);
    NewRootInOrder(Insert2(root, k, t, h, lo));
  }
}
