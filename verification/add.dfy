/**
 * Insertion by overflow and split (`add` and `split`): the key goes into the
 * leaf the search reaches; a node left with one key too many is split around
 * its middle key `numberOfKeys / 2`, which moves up into the parent, and the
 * split repeats while the parent overflows. A split root gets a new one-key
 * root above it.
 */
module Add {
  import opened Seqs
  import opened Nodes
  import opened Grow

  /**
   * The child `add` descends into: the first for a value not above the first
   * key, the last for a value above the last key, otherwise the child between
   * the two neighbouring keys `ks[i - 1] < v <= ks[i]`.
   */
  function AddRoute(ks: seq<int>, v: int): (i: nat)
    requires ks != []
    ensures i <= |ks|
  {
    if v <= ks[0] then 0
    else if v > ks[|ks| - 1] then |ks|
    else Gap(ks, v, 1)
  }

  /** The first `i` from `from` on with `ks[i - 1] < v <= ks[i]`; the end of the keys when there is none. */
  function Gap(ks: seq<int>, v: int, from: nat): (i: nat)
    requires 0 < from <= |ks|
    ensures from <= i <= |ks|
    ensures i < |ks| ==> ks[i - 1] < v <= ks[i]
    decreases |ks| - from
  {
    if from == |ks| then |ks|
    else if ks[from - 1] < v <= ks[from] then from
    else Gap(ks, v, from + 1)
  }

  /** On sorted keys the gap scan stops at the first key not below `v`. */
  lemma {:induction false} GapLowerBound(ks: seq<int>, v: int, from: nat)
    requires Ordered(ks, false) && 0 < from <= |ks| && ks[from - 1] < v <= ks[|ks| - 1]
    ensures Gap(ks, v, from) == LowerBound(ks, v)
    decreases |ks| - from
  {
    var lb := LowerBound(ks, v);
    LowerBoundOrdered(ks, v);
    if ks[from - 1] < v <= ks[from] {
      assert lb == from;
    } else {
      assert ks[from] < v;
      GapLowerBound(ks, v, from + 1);
    }
  }

  /** On sorted keys the route of `add` is the lower bound of `v`. */
  lemma AddRouteLowerBound(ks: seq<int>, v: int)
    requires ks != [] && Ordered(ks, false)
    ensures AddRoute(ks, v) == LowerBound(ks, v)
  {
    LowerBoundOrdered(ks, v);
    if v > ks[0] && v <= ks[|ks| - 1] {
      GapLowerBound(ks, v, 1);
    }
  }

  /** A node with more keys than the capacity is split around its middle key. */
  function Overflow(e: Node, t: nat): (g: Grow)
    requires e.children != [] ==> |e.children| == |e.keys| + 1
    ensures g.Fit? <==> |e.keys| <= MaxKeys(t)
  {
    if |e.keys| <= MaxKeys(t) then Fit(e)
    else Split(LeftPart(e, |e.keys| / 2), e.keys[|e.keys| / 2], RightPart(e, |e.keys| / 2))
  }

  /** An overflowing node splits around its middle key: the left half keeps the keys before it, the right half those after. */
  lemma OverflowHalves(e: Node, t: nat)
    requires e.children != [] ==> |e.children| == |e.keys| + 1
    requires |e.keys| > MaxKeys(t)
    ensures var g := Overflow(e, t);
      && g.m == e.keys[|e.keys| / 2]
      && g.l.keys == e.keys[..|e.keys| / 2] && g.r.keys == e.keys[|e.keys| / 2 + 1..]
  {
  }

  /** Inserts `k` below `x` by the route of `add`. */
  function AddRec(x: Node, k: int, t: nat, h: nat, lo: nat): (g: Grow)
    requires Shape(x, t, h, lo) && (h > 0 ==> 1 <= lo) && 1 <= t
    decreases h
  {
    if x.children == [] then Overflow(Node(AddKey(x.keys, k), []), t)
    else
      var i := AddRoute(x.keys, k);
      Overflow(Absorb(x, i, AddRec(x.children[i], k, t, h - 1, t)), t)
  }

  /** One level of `add` at an internal node. */
  lemma AddRecUnfold(x: Node, k: int, t: nat, h: nat, lo: nat)
    requires Shape(x, t, h, lo) && (h > 0 ==> 1 <= lo) && 1 <= t && x.children != []
    ensures var i := AddRoute(x.keys, k);
      AddRec(x, k, t, h, lo) == Overflow(Absorb(x, i, AddRec(x.children[i], k, t, h - 1, t)), t)
  {
  }

  /** `add` at a non-empty root. */
  function AddRoot(root: Node, k: int, t: nat): Node
    requires RootShape(root, t) && 1 <= t
  {
    NewRoot(AddRec(root, k, t, Height(root), if root.children == [] then 0 else 1))
  }

  // ---------------------------------------------------------------------------
  // Shape.

  /** A node at most one key over the capacity ends up as well-shaped nodes of its height. */
  lemma OverflowShape(e: Node, t: nat, h: nat, lo: nat)
    requires Loose(e, t, h, lo, MaxKeys(t) + 1) && lo <= MaxKeys(t)
    ensures GrowShape(Overflow(e, t), t, h, lo)
  {
    if |e.keys| > MaxKeys(t) {
      LooseSplit(e, t, h, lo, MaxKeys(t) + 1, t + 1);
      ShapeWeaken(LeftPart(e, t + 1), t, h, t + 1, t);
    }
  }

  /** `add` below a B-tree node hands back well-shaped nodes of the same height. */
  lemma {:induction false} AddRecShape(x: Node, k: int, t: nat, h: nat, lo: nat)
    requires Shape(x, t, h, lo) && (h > 0 ==> 1 <= lo) && 1 <= t
    ensures GrowShape(AddRec(x, k, t, h, lo), t, h, lo)
    decreases h
  {
    if x.children == [] {
      AddLeafShape(x, k, t, lo);
    } else {
      var i := AddRoute(x.keys, k);
      assert Shape(x.children[i], t, h - 1, t);
      AddRecShape(x.children[i], k, t, h - 1, t);
      AddInnerShape(x, k, t, h, lo);
    }
  }

  /** A leaf with one key added, split on overflow, is well-shaped. */
  lemma AddLeafShape(x: Node, k: int, t: nat, lo: nat)
    requires Shape(x, t, 0, lo) && 1 <= t
    ensures GrowShape(Overflow(Node(AddKey(x.keys, k), []), t), t, 0, lo)
  {
    OverflowShape(Node(AddKey(x.keys, k), []), t, 0, lo);
  }

  /** One level of `add` at an internal node keeps the shape, given that it is kept below. */
  lemma AddInnerShape(x: Node, k: int, t: nat, h: nat, lo: nat)
    requires Shape(x, t, h, lo) && (h > 0 ==> 1 <= lo) && 1 <= t && x.children != []
    requires var i := AddRoute(x.keys, k);
      GrowShape(AddRec(x.children[i], k, t, h - 1, t), t, h - 1, t)
    ensures GrowShape(AddRec(x, k, t, h, lo), t, h, lo)
  {
    var i := AddRoute(x.keys, k);
    AddStepShape(x, t, h, lo, i, AddRec(x.children[i], k, t, h - 1, t));
    AddRecUnfold(x, k, t, h, lo);
  }

  /** Taking in a well-shaped outcome and splitting on overflow hands back well-shaped nodes. */
  lemma AddStepShape(x: Node, t: nat, h: nat, lo: nat, i: nat, g: Grow)
    requires Shape(x, t, h, lo) && h > 0 && i < |x.children| && GrowShape(g, t, h - 1, t)
    ensures GrowShape(Overflow(Absorb(x, i, g), t), t, h, lo)
  {
    AbsorbShape(x, t, h, lo, i, g);
    OverflowShape(Absorb(x, i, g), t, h, lo);
  }

  /** `add` keeps a valid root; the tree grows one level exactly when the root split. */
  lemma AddRootShape(root: Node, k: int, t: nat)
    requires 1 <= t && RootShape(root, t)
    ensures RootShape(AddRoot(root, k, t), t)
    ensures Height(AddRoot(root, k, t))
         == if AddRec(root, k, t, Height(root), if root.children == [] then 0 else 1).Split?
            then Height(root) + 1 else Height(root)
  {
    var h, lo := Height(root), if root.children == [] then 0 else 1;
    AddRecShape(root, k, t, h, lo);
    NewRootShape(AddRec(root, k, t, h, lo), t, h, lo);
  }

  // ---------------------------------------------------------------------------
  // Content.

  /** Splitting an overflowing node keeps its in-order sequence. */
  lemma OverflowInOrder(e: Node, t: nat)
    requires e.children != [] ==> |e.children| == |e.keys| + 1
    ensures GrowInOrder(Overflow(e, t)) == InOrder(e)
  {
    if |e.keys| > MaxKeys(t) {
      SplitInOrder(e, |e.keys| / 2);
    }
  }

  /** `add` below an ordered node adds `k` to its in-order sequence. */
  lemma {:induction false} AddRecContent(x: Node, k: int, t: nat, h: nat, lo: nat)
    requires Shape(x, t, h, lo) && (h > 0 ==> 1 <= lo) && 1 <= t
    requires Ordered(InOrder(x), false)
    ensures GrowInOrder(AddRec(x, k, t, h, lo)) == AddKey(InOrder(x), k)
    decreases h
  {
    if x.children == [] {
      OverflowInOrder(Node(AddKey(x.keys, k), []), t);
    } else {
      var i := AddRoute(x.keys, k);
      assert Shape(x.children[i], t, h - 1, t);
      ChildOrdered(x, i, false);
      AddRecContent(x.children[i], k, t, h - 1, t);
      AddInnerContent(x, k, t, h, lo);
    }
  }

  /** One level of `add` at an internal node adds `k`, given that it adds `k` below. */
  lemma AddInnerContent(x: Node, k: int, t: nat, h: nat, lo: nat)
    requires Shape(x, t, h, lo) && (h > 0 ==> 1 <= lo) && 1 <= t && x.children != []
    requires Ordered(InOrder(x), false)
    requires var i := AddRoute(x.keys, k);
      GrowInOrder(AddRec(x.children[i], k, t, h - 1, t)) == AddKey(InOrder(x.children[i]), k)
    ensures GrowInOrder(AddRec(x, k, t, h, lo)) == AddKey(InOrder(x), k)
  {
    var i := AddRoute(x.keys, k);
    NodeKeys(x, false);
    AddRouteLowerBound(x.keys, k);
    var g := AddRec(x.children[i], k, t, h - 1, t);
    AbsorbInsert(x, i, g, k);
    OverflowInOrder(Absorb(x, i, g), t);
    AddRecUnfold(x, k, t, h, lo);
  }

  /** `add` at the root is sorted insertion into the whole in-order sequence. */
  lemma AddRootContent(root: Node, k: int, t: nat)
    requires 1 <= t && RootShape(root, t) && Ordered(InOrder(root), false)
    ensures InOrder(AddRoot(root, k, t)) == AddKey(InOrder(root), k)
  {
    var h, lo := Height(root), if root.children == [] then 0 else 1;
    AddRecContent(root, k, t, h, lo);
    NewRootInOrder(AddRec(root, k, t, h, lo));
  }
}
