/**
 * What top-down deletion does to the shape: every node it leaves behind is a
 * B-tree node of the same height, the node it started from has at most one
 * key fewer, and the tree loses a level only when the root held a single key
 * and its two children were merged.
 */
module DeleteShape {
  import opened Seqs
  import opened Nodes
  import opened Delete

  /**
   * `r`, what deletion left of `x`, is a B-tree node of the same height with
   * at most one key fewer than the bound `x` met; or `x` was an internal node
   * with a single key, and `r` is a full B-tree node one level down.
   */
  predicate Kept(r: Node, x: Node, t: nat, h: nat, lo: nat)
    requires 1 <= lo
  {
    || (Shape(r, t, h, lo - 1) && (h > 0 ==> r.keys != []))
    || (h > 0 && |x.keys| == 1 && Shape(r, t, h - 1, t))
  }

  /** Deletion from a B-tree node keeps it a B-tree node, or, from a node with a single key, hands back a B-tree node one level down. */
  lemma {:induction false} DelShape(x: Node, v: int, t: nat, h: nat, lo: nat)
    requires Shape(x, t, h, lo) && 1 <= lo && 1 <= t
    ensures Kept(Del(x, v, t, h).n, x, t, h, lo)
    decreases h, 2, 1
  {
    var idx := IndexOf(x.keys, v);
    if x.children == [] {
      if idx != -1 {
        assert |RemoveKey(x.keys, v)| == |x.keys| - 1;
      }
    } else if idx == -1 {
      DescendShape(x, v, ClosestChild(x.keys, v), t, h, lo);
    } else if |x.children[idx].keys| != t {
      PredShape(x, v, idx, t, h, lo);
    } else if |x.children[idx + 1].keys| != t {
      SuccShape(x, v, idx, t, h, lo);
    } else {
      MergeShapes(x, idx, t, h, lo);
      MergeReady(x, idx + 1, t, h);
      ContinueShape(Settle(MergeLeft(x, idx + 1), idx), x, v, t, h, lo);
    }
  }

  /** The swap with the predecessor keeps the key count, and the search goes on from the swapped node. */
  lemma {:induction false} PredShape(x: Node, v: int, idx: nat, t: nat, h: nat, lo: nat)
    requires Shape(x, t, h, lo) && 1 <= lo && 1 <= t && x.children != []
    requires IndexOf(x.keys, v) == idx && idx < |x.keys| && |x.children[idx].keys| != t
    ensures Kept(Del(x, v, t, h).n, x, t, h, lo)
    decreases h, 2, 0
  {
    var x2 := SwapPredecessor(x, idx, t, h);
    var j := ClosestChild(x2.keys, v) - 1;
    ShapeAtLeast(x2, t, h, 1, lo);
    DescendShape(x2, v, j, t, h, lo);
    PredBranch(x, v, idx, j, t, h);
  }

  /** The swap with the successor keeps the key count, and the search goes on from the swapped node. */
  lemma {:induction false} SuccShape(x: Node, v: int, idx: nat, t: nat, h: nat, lo: nat)
    requires Shape(x, t, h, lo) && 1 <= lo && 1 <= t && x.children != []
    requires IndexOf(x.keys, v) == idx && idx < |x.keys|
    requires |x.children[idx].keys| == t && |x.children[idx + 1].keys| != t
    ensures Kept(Del(x, v, t, h).n, x, t, h, lo)
    decreases h, 2, 0
  {
    var x2 := SwapSuccessor(x, idx, t, h);
    var j := ClosestChild(x2.keys, v) + 1;
    ShapeAtLeast(x2, t, h, 1, lo);
    DescendShape(x2, v, j, t, h, lo);
    SuccBranch(x, v, idx, j, t, h);
  }

  /** Entering child `j` after fixing it: nothing changes for an index out of range, otherwise the fixed child is deleted from. */
  lemma {:induction false} DescendShape(x: Node, v: int, j: int, t: nat, h: nat, lo: nat)
    requires Shape(x, t, h, lo) && h > 0 && 1 <= lo && 1 <= t
    ensures Kept(Descend(x, v, j, t, h).n, x, t, h, lo)
    decreases h, 1
  {
    if j < 0 || j >= |x.children| {
      ShapeWeaken(x, t, h, lo, lo - 1);
    } else {
      ChildrenHoldKeys(x, t, h, lo);
      FixShape(x, j, t, h, lo);
      FixReady(x, j, t, h);
      ContinueShape(Fix(x, j, t), x, v, t, h, lo);
    }
  }

  /** Deleting below the fixed child, which holds more than `t` keys, leaves it a B-tree node with at least `t`. */
  lemma {:induction false} ContinueShape(f: Fixed, x: Node, v: int, t: nat, h: nat, lo: nat)
    requires h > 0 && 1 <= lo && 1 <= t && Ready(f, t, h)
    requires f.Fixed? ==> Shape(f.p, t, h, lo - 1) && f.p.keys != [] && Shape(f.p.children[f.j], t, h - 1, t + 1)
    requires f.Collapsed? ==> |x.keys| == 1 && Shape(f.c, t, h - 1, t + 1)
    ensures Kept(Continue(f, v, t, h).n, x, t, h, lo)
    decreases h, 0
  {
    match f
    case Fixed(q, i) =>
      var c := q.children[i];
      DelShape(c, v, t, h - 1, t + 1);
      ShapeReplace(q, t, h, lo - 1, i, Del(c, v, t, h - 1).n);
    case Collapsed(c) =>
      DelShape(c, v, t, h - 1, t + 1);
  }

  /** Merging the two children around key `idx`, both at `t` keys: the parent keeps its shape with one key fewer, or is left empty when it held one key. */
  lemma MergeShapes(x: Node, idx: nat, t: nat, h: nat, lo: nat)
    requires Shape(x, t, h, lo) && h > 0 && 1 <= lo && 1 <= t && idx < |x.keys|
    requires |x.children[idx].keys| == t && |x.children[idx + 1].keys| == t
    ensures var f := Settle(MergeLeft(x, idx + 1), idx);
      && (f.Fixed? ==> Shape(f.p, t, h, lo - 1) && f.p.keys != [] && Shape(f.p.children[f.j], t, h - 1, t + 1))
      && (f.Collapsed? ==> |x.keys| == 1 && Shape(f.c, t, h - 1, t + 1))
  {
    MergeLeftShape(x, idx + 1, t, h, lo);
  }
}
