/**
 * Bottom-up insertion, shared by the two-pass insertion and by `add`: the key
 * goes into a leaf, and a node that has no room splits around a median that
 * moves up into its parent; a split that reaches the root makes a new root.
 */
module Grow {
  import opened Seqs
  import opened Nodes

  /** What an insertion below a node hands back: the node still fits, or it split around a median. */
  datatype Grow = Fit(n: Node) | Split(l: Node, m: int, r: Node)

  /** The in-order sequence an outcome stands for. */
  function GrowInOrder(g: Grow): seq<int> {
    match g
    case Fit(n) => InOrder(n)
    case Split(l, m, r) => InOrder(l) + [m] + InOrder(r)
  }

  /** A fitting node is a B-tree node; split halves are B-tree nodes of the same height. */
  predicate GrowShape(g: Grow, t: nat, h: nat, lo: nat) {
    match g
    case Fit(n) => Shape(n, t, h, lo)
    case Split(l, m, r) => Shape(l, t, h, t) && Shape(r, t, h, t)
  }

  /** A node that may hold up to `hi` keys but is otherwise shaped like a B-tree node. */
  predicate Loose(n: Node, t: nat, h: nat, lo: nat, hi: nat) {
    && lo <= |n.keys| <= hi
    && (h == 0 <==> n.children == [])
    && (h > 0 ==> |n.children| == |n.keys| + 1 && forall i :: 0 <= i < |n.children| ==> Shape(n.children[i], t, h - 1, t))
  }

  /** Takes the outcome for child `i` into its parent: a replacement child, or two halves and a median. */
  function Absorb(x: Node, i: nat, g: Grow): (r: Node)
    requires i < |x.children| && i <= |x.keys|
    ensures |x.children| == |x.keys| + 1 ==> r.children != [] && |r.children| == |r.keys| + 1
    ensures |r.keys| == if g.Fit? then |x.keys| else |x.keys| + 1
  {
    match g
    case Fit(c) => Node(x.keys, x.children[i := c])
    case Split(l, m, r) => Expand(x, i, l, m, r)
  }

  /**
   * Taking in an outcome that stands for the child's sequence with `k` added,
   * at a child whose separators admit `k`, adds `k` to the node's sequence.
   */
  lemma AbsorbInsert(x: Node, i: nat, g: Grow, k: int)
    requires x.children != [] && |x.children| == |x.keys| + 1 && i < |x.children|
    requires Ordered(InOrder(x), false)
    requires (0 < i ==> x.keys[i - 1] <= k) && (i < |x.keys| ==> k <= x.keys[i])
    requires GrowInOrder(g) == AddKey(InOrder(x.children[i]), k)
    ensures InOrder(Absorb(x, i, g)) == AddKey(InOrder(x), k)
  {
    match g
    case Fit(c) =>
      DescendInsert(x, i, k, c);
    case Split(l, m, r) =>
      InOrderExpand(x, i, l, m, r);
      NodeHole(x, i);
      SlotFits(x, i, k);
      AddKeyMiddle(Before(x.keys, x.children, i), InOrder(x.children[i]), After(x.keys, x.children, i), k);
  }

  /** Taking in a well-shaped outcome leaves a node of the same height with at most one key too many. */
  lemma AbsorbShape(x: Node, t: nat, h: nat, lo: nat, i: nat, g: Grow)
    requires Shape(x, t, h, lo) && h > 0 && i < |x.children| && GrowShape(g, t, h - 1, t)
    ensures Loose(Absorb(x, i, g), t, h, lo, MaxKeys(t) + 1)
    ensures g.Fit? || |x.keys| < MaxKeys(t) ==> Shape(Absorb(x, i, g), t, h, lo)
  {
    match g
    case Fit(c) =>
      ShapeReplace(x, t, h, lo, i, c);
    case Split(l, m, r) =>
      var e := Expand(x, i, l, m, r);
      forall j | 0 <= j < |e.children| ensures Shape(e.children[j], t, h - 1, t) {
        if j < i {
          assert e.children[j] == x.children[j];
        } else if i + 1 < j {
          assert e.children[j] == x.children[j - 1];
        }
      }
  }

  /** The parts of a loose node around key `j` are B-tree nodes when each is within the capacity. */
  lemma LooseSplit(y: Node, t: nat, h: nat, lo: nat, hi: nat, j: nat)
    requires Loose(y, t, h, lo, hi) && j < |y.keys|
    requires j <= MaxKeys(t) && |y.keys| - j - 1 <= MaxKeys(t)
    ensures Shape(LeftPart(y, j), t, h, j)
    ensures Shape(RightPart(y, j), t, h, |y.keys| - j - 1)
  {
    if h > 0 {
      var b := RightPart(y, j);
      forall i | 0 <= i < |b.children| ensures Shape(b.children[i], t, h - 1, t) {
        assert b.children[i] == y.children[j + 1 + i];
      }
    }
  }

  /** Splitting a node around key `j` turns its in-order sequence into a split outcome. */
  lemma SplitInOrder(y: Node, j: nat)
    requires j < |y.keys| && (y.children != [] ==> |y.children| == |y.keys| + 1)
    ensures GrowInOrder(Split(LeftPart(y, j), y.keys[j], RightPart(y, j))) == InOrder(y)
  {
    InOrderSplit(y, j);
  }

  /** The root after an insertion: the node itself, or a new one-key root above the two halves. */
  function NewRoot(g: Grow): (r: Node)
    ensures g.Split? ==> r.keys == [g.m] && r.children == [g.l, g.r]
  {
    match g
    case Fit(n) => n
    case Split(l, m, r) => Node([m], [l, r])
  }

  /** The new root reads as the outcome it comes from. */
  lemma NewRootInOrder(g: Grow)
    ensures InOrder(NewRoot(g)) == GrowInOrder(g)
  {
    if g.Split? {
      var cs := [g.l, g.r];
      assert cs[1..] == [g.r] && [g.m][1..] == [];
      assert [g.r][1..] == [];
      assert Interleave([], [g.r]) == InOrder(g.r) + Interleave([], []);
    }
  }

  /** A well-shaped outcome at the root gives a valid root, one level taller exactly when it split. */
  lemma NewRootShape(g: Grow, t: nat, h: nat, lo: nat)
    requires 1 <= t && GrowShape(g, t, h, lo) && (h > 0 ==> 1 <= lo)
    ensures RootShape(NewRoot(g), t)
    ensures Height(NewRoot(g)) == if g.Split? then h + 1 else h
  {
    match g
    case Fit(n) =>
      ShapeIsRootShape(n, t, h, lo);
      ShapeHeight(n, t, h, lo);
    case Split(l, m, r) =>
      var n := NewRoot(g);
      assert Shape(n, t, h + 1, 1);
      ShapeIsRootShape(n, t, h + 1, 1);
      ShapeHeight(n, t, h + 1, 1);
  }
}
