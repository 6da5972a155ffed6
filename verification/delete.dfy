/**
 * Top-down deletion (`delete`): the search for the value walks down from the
 * root and makes sure, before it enters a child, that the child holds more
 * than the minimum `t` keys, by borrowing a key from a sibling through the
 * parent (`shift_from_left`, then `shift_from_right`) or by merging it with a
 * sibling (`merge_left`, or `merge_right` for the first child). A value found
 * in an internal node changes places with its predecessor or successor when
 * the child on that side can spare a key, and otherwise the two children
 * around it are merged with it. A merge that leaves the root without keys
 * makes the merged node the root. The value is finally removed from a leaf.
 */
module Delete {
  import opened Seqs
  import opened Nodes
  import opened Rebalance

  /** The node after a deletion below it, and whether the value was found; when it was not, the code has thrown by then. */
  datatype Deleted = Deleted(n: Node, found: bool)

  /** A parent after the child the search enters has been given a spare key, or the merged node that replaces a root left without keys. */
  datatype Fixed = Fixed(p: Node, j: nat) | Collapsed(c: Node)

  /** The first `k` elements, or all of them: reading past the end gives nothing, as `getChild` gives null and `addChild` ignores it. */
  function Take<T>(s: seq<T>, k: nat): (r: seq<T>)
    ensures |r| == if k <= |s| then k else |s|
    ensures forall j :: 0 <= j < |r| ==> r[j] == s[j]
  {
    if k <= |s| then s[..k] else s
  }

  // ---------------------------------------------------------------------------
  // Borrowing and merging as the code writes them.

  /**
   * `shift_from_left`: the left child's greatest key and last child are taken
   * off; the separator is taken out of the parent by index and the left key
   * put in by sorted insertion; the separator goes into the right child by
   * sorted insertion, the taken child in front of its children.
   */
  function ShiftFromLeft(p: Node, li: nat): (q: Node)
    requires li + 1 < |p.children| && li < |p.keys| && p.children[li].keys != []
    ensures |q.keys| == |p.keys| && |q.children| == |p.children|
  {
    var l, r := p.children[li], p.children[li + 1];
    var vl := l.keys[|l.keys| - 1];
    var l2 := Node(RemoveKeyAt(l.keys, |l.keys| - 1), if l.children == [] then [] else RemoveAt(l.children, |l.children| - 1));
    var r2 := Node(AddKey(r.keys, p.keys[li]), LastKid(l) + r.children);
    Node(AddKey(RemoveKeyAt(p.keys, li), vl), p.children[li := l2][li + 1 := r2])
  }

  /**
   * `shift_from_right`: the right child's smallest key and first child are
   * taken off; the separator is taken out of the parent by index and the right
   * key put in by sorted insertion; the separator goes into the left child by
   * sorted insertion, the taken child after its children.
   */
  function ShiftFromRight(p: Node, li: nat): (q: Node)
    requires li + 1 < |p.children| && li < |p.keys| && p.children[li + 1].keys != []
    ensures |q.keys| == |p.keys| && |q.children| == |p.children|
  {
    var l, r := p.children[li], p.children[li + 1];
    var vr := r.keys[0];
    var r2 := Node(RemoveKeyAt(r.keys, 0), if r.children == [] then [] else RemoveAt(r.children, 0));
    var l2 := Node(AddKey(l.keys, p.keys[li]), l.children + FirstKid(r));
    Node(AddKey(RemoveKeyAt(p.keys, li), vr), p.children[li := l2][li + 1 := r2])
  }

  /**
   * `merge_two_nodes`: both loops run over the left node's key count, so the
   * node gets the left keys, the middle key and as many right keys as there are
   * left ones, with the children that exist at those positions.
   */
  function MergeTwo(l: Node, m: int, r: Node): (n: Node)
    requires |l.keys| <= |r.keys|
    ensures |n.keys| == 2 * |l.keys| + 1
  {
    var k := |l.keys|;
    Node(l.keys + [m] + r.keys[..k], Take(l.children, k + 1) + Take(r.children, k + 1))
  }

  /**
   * `merge_left` with `perform_merge_and_update_tree`: child `j` and its left
   * neighbour leave the parent, the separator between them is removed by
   * value, and the merged node takes their place.
   */
  function MergeLeft(p: Node, j: nat): (q: Node)
    requires 0 < j < |p.children| && j - 1 < |p.keys|
    requires |p.children[j - 1].keys| <= |p.children[j].keys|
    ensures |q.keys| == |p.keys| - 1 && |q.children| == |p.children| - 1
  {
    var m := p.keys[j - 1];
    Node(RemoveKey(p.keys, m), p.children[..j - 1] + [MergeTwo(p.children[j - 1], m, p.children[j])] + p.children[j + 1..])
  }

  /** `merge_right` with the separator taken out of the parent once, by index. */
  function MergeRight(p: Node, j: nat): (q: Node)
    requires j + 1 < |p.children| && j < |p.keys|
    requires |p.children[j].keys| <= |p.children[j + 1].keys|
    ensures |q.keys| == |p.keys| - 1 && |q.children| == |p.children| - 1
  {
    var m := p.keys[j];
    Node(RemoveKeyAt(p.keys, j), p.children[..j] + [MergeTwo(p.children[j], m, p.children[j + 1])] + p.children[j + 2..])
  }

  /**
   * `merge_right` as written: the separator is taken out by index, and
   * `perform_merge_and_update_tree` then removes the same value once more.
   */
  function MergeRightAsWritten(p: Node, j: nat): (q: Node)
    requires j + 1 < |p.children| && j < |p.keys|
    requires |p.children[j].keys| <= |p.children[j + 1].keys|
  {
    var m := p.keys[j];
    Node(RemoveKey(RemoveKeyAt(p.keys, j), m), p.children[..j] + [MergeTwo(p.children[j], m, p.children[j + 1])] + p.children[j + 2..])
  }

  /** The parent after a merge, or the merged node when the parent is left without keys. */
  function Settle(q: Node, i: nat): (f: Fixed)
    requires i < |q.children|
    ensures f.Fixed? <==> q.keys != []
  {
    if q.keys == [] then Collapsed(q.children[i]) else Fixed(q, i)
  }

  /**
   * `fix_node_size_delete` for child `j`: nothing when it holds more than `t`
   * keys; otherwise a key from the left sibling, else from the right sibling,
   * when that sibling holds more than `t`; otherwise a merge with the left
   * sibling, or with the right one for the first child.
   */
  function Fix(p: Node, j: nat, t: nat): (f: Fixed)
    requires p.children != [] && |p.children| == |p.keys| + 1 && 1 <= |p.keys| && j < |p.children|
    requires forall i :: 0 <= i < |p.children| ==> p.children[i].keys != []
    ensures f.Fixed? ==> f.j < |f.p.children|
  {
    if |p.children[j].keys| != t then Fixed(p, j)
    else if j > 0 && |p.children[j - 1].keys| != t then Fixed(ShiftFromLeft(p, j - 1), j)
    else if j < |p.children| - 1 && |p.children[j + 1].keys| != t then Fixed(ShiftFromRight(p, j), j)
    else if j != 0 then Settle(MergeLeft(p, j), j - 1)
    else Settle(MergeRight(p, 0), 0)
  }

  // ---------------------------------------------------------------------------
  // Predecessor and successor.

  /** The greatest key of a subtree: the last key of its rightmost leaf. */
  function Greatest(n: Node, t: nat, h: nat): int
    requires Shape(n, t, h, 1) && 1 <= t
    decreases h
  {
    if n.children == [] then n.keys[|n.keys| - 1]
    else
      var c := n.children[|n.children| - 1];
      ShapeWeaken(c, t, h - 1, t, 1);
      Greatest(c, t, h - 1)
  }

  /** The rightmost leaf with its last key removed and `v` added by sorted insertion. */
  function PutGreatest(n: Node, v: int, t: nat, h: nat): (r: Node)
    requires Shape(n, t, h, 1) && 1 <= t
    ensures Shape(r, t, h, |n.keys|) && |r.keys| == |n.keys|
    decreases h
  {
    if n.children == [] then Node(AddKey(RemoveKeyAt(n.keys, |n.keys| - 1), v), [])
    else
      var i := |n.children| - 1;
      var c := n.children[i];
      ShapeWeaken(c, t, h - 1, t, 1);
      var c2 := PutGreatest(c, v, t, h - 1);
      ShapeWeaken(c2, t, h - 1, |c.keys|, t);
      ShapeReplace(n, t, h, |n.keys|, i, c2);
      Node(n.keys, n.children[i := c2])
  }

  /** The least key of a subtree: the first key of its leftmost leaf. */
  function Least(n: Node, t: nat, h: nat): int
    requires Shape(n, t, h, 1) && 1 <= t
    decreases h
  {
    if n.children == [] then n.keys[0]
    else
      var c := n.children[0];
      ShapeWeaken(c, t, h - 1, t, 1);
      Least(c, t, h - 1)
  }

  /** The leftmost leaf with its first key removed and `v` added by sorted insertion. */
  function PutLeast(n: Node, v: int, t: nat, h: nat): (r: Node)
    requires Shape(n, t, h, 1) && 1 <= t
    ensures Shape(r, t, h, |n.keys|) && |r.keys| == |n.keys|
    decreases h
  {
    if n.children == [] then Node(AddKey(RemoveKeyAt(n.keys, 0), v), [])
    else
      var c := n.children[0];
      ShapeWeaken(c, t, h - 1, t, 1);
      var c2 := PutLeast(c, v, t, h - 1);
      ShapeWeaken(c2, t, h - 1, |c.keys|, t);
      ShapeReplace(n, t, h, |n.keys|, 0, c2);
      Node(n.keys, n.children[0 := c2])
  }

  /** Removal by value of a key that is there, after a sorted insertion, leaves the key count as it was. */
  lemma AddRemoveCount(ks: seq<int>, p: int, v: int)
    requires v in ks
    ensures |RemoveKey(AddKey(ks, p), v)| == |ks|
  {
    assert v in multiset(AddKey(ks, p));
  }

  /**
   * `switch_places_with_predecessor` for key `idx`: the node takes the
   * greatest key below child `idx` by sorted insertion and loses the value by
   * removal; the leaf it came from loses it and takes the value.
   */
  function SwapPredecessor(x: Node, idx: nat, t: nat, h: nat): (r: Node)
    requires Shape(x, t, h, 1) && h > 0 && idx < |x.keys| && 1 <= t
    ensures Shape(r, t, h, 1) && |r.keys| == |x.keys|
  {
    var c := x.children[idx];
    var v := x.keys[idx];
    ShapeWeaken(c, t, h - 1, t, 1);
    var c2 := PutGreatest(c, v, t, h - 1);
    AddRemoveCount(x.keys, Greatest(c, t, h - 1), v);
    ShapeWeaken(c2, t, h - 1, |c.keys|, t);
    ShapeReplace(x, t, h, 1, idx, c2);
    Node(RemoveKey(AddKey(x.keys, Greatest(c, t, h - 1)), v), x.children[idx := c2])
  }

  /**
   * `switch_places_with_successor` for key `idx`: the node takes the least
   * key below child `idx + 1` by sorted insertion and loses the value by
   * removal; the leaf it came from loses it and takes the value.
   */
  function SwapSuccessor(x: Node, idx: nat, t: nat, h: nat): (r: Node)
    requires Shape(x, t, h, 1) && h > 0 && idx < |x.keys| && 1 <= t
    ensures Shape(r, t, h, 1) && |r.keys| == |x.keys|
  {
    var c := x.children[idx + 1];
    var v := x.keys[idx];
    ShapeWeaken(c, t, h - 1, t, 1);
    var c2 := PutLeast(c, v, t, h - 1);
    AddRemoveCount(x.keys, Least(c, t, h - 1), v);
    ShapeWeaken(c2, t, h - 1, |c.keys|, t);
    ShapeReplace(x, t, h, 1, idx + 1, c2);
    Node(RemoveKey(AddKey(x.keys, Least(c, t, h - 1)), v), x.children[idx + 1 := c2])
  }

  // ---------------------------------------------------------------------------
  // The deletion loop.

  /**
   * One pass of the `delete` loop at `x`, a node holding at least one key: a
   * leaf holding the value loses it; a leaf without it ends the search (the
   * code then dereferences a missing child and throws); an internal node
   * without the value sends the search into the child the value belongs in;
   * an internal node holding it swaps it with its predecessor or successor, or
   * merges the two children around it with it, and goes on below.
   */
  function Del(x: Node, v: int, t: nat, h: nat): (r: Deleted)
    requires Shape(x, t, h, 1) && 1 <= t
    decreases h, 2
  {
    var idx := IndexOf(x.keys, v);
    if x.children == [] then
      if idx == -1 then Deleted(x, false) else Deleted(Node(RemoveKey(x.keys, v), []), true)
    else if idx == -1 then Descend(x, v, ClosestChild(x.keys, v), t, h)
    else if |x.children[idx].keys| != t then
      var x2 := SwapPredecessor(x, idx, t, h);
      Descend(x2, v, ClosestChild(x2.keys, v) - 1, t, h)
    else if |x.children[idx + 1].keys| != t then
      var x2 := SwapSuccessor(x, idx, t, h);
      Descend(x2, v, ClosestChild(x2.keys, v) + 1, t, h)
    else
      MergeReady(x, idx + 1, t, h);
      Continue(Settle(MergeLeft(x, idx + 1), idx), v, t, h)
  }

  /**
   * The search enters child `j` (computed as the code does, so possibly out of
   * range: the code then reads a missing child and throws) after fixing it.
   */
  function Descend(x: Node, v: int, j: int, t: nat, h: nat): (r: Deleted)
    requires Shape(x, t, h, 1) && h > 0 && 1 <= t
    decreases h, 1
  {
    if j < 0 || j >= |x.children| then Deleted(x, false)
    else
      FixReady(x, j, t, h);
      Continue(Fix(x, j, t), v, t, h)
  }

  /** Entering a child that holds more than `t` keys fixes nothing. */
  lemma DescendLarge(x: Node, v: int, j: nat, t: nat, h: nat)
    requires Shape(x, t, h, 1) && h > 0 && 1 <= t && j < |x.children| && |x.children[j].keys| != t
    ensures Ready(Fixed(x, j), t, h) && Descend(x, v, j, t, h) == Continue(Fixed(x, j), v, t, h)
  {
    FixReady(x, j, t, h);
    assert Fix(x, j, t) == Fixed(x, j);
  }

  /** The branch of the loop that swaps `v` with its predecessor. */
  lemma PredBranch(x: Node, v: int, idx: nat, j: int, t: nat, h: nat)
    requires Shape(x, t, h, 1) && 1 <= t && x.children != []
    requires IndexOf(x.keys, v) == idx && idx < |x.keys| && |x.children[idx].keys| != t
    requires j == ClosestChild(SwapPredecessor(x, idx, t, h).keys, v) - 1
    ensures Del(x, v, t, h) == Descend(SwapPredecessor(x, idx, t, h), v, j, t, h)
  {
    var x2 := SwapPredecessor(x, idx, t, h);
    assert IndexOf(x.keys, v) != -1;
  }

  /** The branch of the loop that swaps `v` with its successor. */
  lemma SuccBranch(x: Node, v: int, idx: nat, j: int, t: nat, h: nat)
    requires Shape(x, t, h, 1) && 1 <= t && x.children != []
    requires IndexOf(x.keys, v) == idx && idx < |x.keys|
    requires |x.children[idx].keys| == t && |x.children[idx + 1].keys| != t
    requires j == ClosestChild(SwapSuccessor(x, idx, t, h).keys, v) + 1
    ensures Del(x, v, t, h) == Descend(SwapSuccessor(x, idx, t, h), v, j, t, h)
  {
    var x2 := SwapSuccessor(x, idx, t, h);
    assert IndexOf(x.keys, v) != -1;
    assert !(|x.children[idx].keys| != t);
  }

  /** The search goes on in the fixed child, put back into its parent, or in the node that became the root. */
  function Continue(f: Fixed, v: int, t: nat, h: nat): (r: Deleted)
    requires h > 0 && 1 <= t && Ready(f, t, h)
    decreases h, 0
  {
    match f
    case Fixed(q, i) =>
      var d := Del(q.children[i], v, t, h - 1);
      Deleted(Node(q.keys, q.children[i := d.n]), d.found)
    case Collapsed(c) => Del(c, v, t, h - 1)
  }

  /** The node the search goes on in is a B-tree node one level down with at least one key. */
  predicate Ready(f: Fixed, t: nat, h: nat) {
    && h > 0
    && (f.Fixed? ==> f.j < |f.p.children| && Shape(f.p.children[f.j], t, h - 1, 1))
    && (f.Collapsed? ==> Shape(f.c, t, h - 1, 1))
  }

  // ---------------------------------------------------------------------------
  // Shapes: what the functions above need, and what deletion keeps.

  /** A node's shape depends on how many keys it has, not on which. */
  lemma ShapeKeys(n: Node, ks: seq<int>, t: nat, h: nat, lo: nat)
    requires Shape(n, t, h, lo) && |ks| == |n.keys|
    ensures Shape(Node(ks, n.children), t, h, lo)
  {
  }

  /** `merge_two_nodes` on two siblings with equal key counts joins them. */
  lemma MergeTwoIsJoin(l: Node, m: int, r: Node)
    requires Siblings(l, r) && |l.keys| == |r.keys|
    ensures MergeTwo(l, m, r) == Join(l, m, r)
  {
    assert r.keys[..|l.keys|] == r.keys;
    assert Take(l.children, |l.keys| + 1) == l.children;
    assert Take(r.children, |l.keys| + 1) == r.children;
  }

  /** Merging child `j` with its left sibling, both at `t` keys, is the positional merge up to the order of the parent's keys. */
  lemma MergeLeftShape(p: Node, j: nat, t: nat, h: nat, lo: nat)
    requires Shape(p, t, h, lo) && h > 0 && 1 <= lo && 0 < j < |p.children|
    requires |p.children[j - 1].keys| == t && |p.children[j].keys| == t
    ensures Shape(MergeLeft(p, j), t, h, lo - 1)
    ensures Shape(MergeLeft(p, j).children[j - 1], t, h - 1, t + 1)
  {
    var l, r := p.children[j - 1], p.children[j];
    MergeTwoIsJoin(l, p.keys[j - 1], r);
    ShapeOthers(p, t, h, lo, j - 1);
    MergeShape(p, t, h, lo, j - 1);
    var m := Merge(p, j - 1);
    assert MergeLeft(p, j).children == m.children;
    ShapeKeys(m, MergeLeft(p, j).keys, t, h, lo - 1);
    JoinShape(l, p.keys[j - 1], r, t, h - 1, t + 1);
  }

  /** Merging the first child with its right sibling, both at `t` keys. */
  lemma MergeRightShape(p: Node, t: nat, h: nat, lo: nat)
    requires Shape(p, t, h, lo) && h > 0 && 1 <= lo
    requires |p.children[0].keys| == t && |p.children[1].keys| == t
    ensures Shape(MergeRight(p, 0), t, h, lo - 1)
    ensures Shape(MergeRight(p, 0).children[0], t, h - 1, t + 1)
  {
    var l, r := p.children[0], p.children[1];
    MergeTwoIsJoin(l, p.keys[0], r);
    ShapeOthers(p, t, h, lo, 0);
    MergeShape(p, t, h, lo, 0);
    assert MergeRight(p, 0) == Merge(p, 0);
    JoinShape(l, p.keys[0], r, t, h - 1, t + 1);
  }

  /** The merge of the children around key `j - 1`, both at `t` keys, can be continued in. */
  lemma MergeReady(p: Node, j: nat, t: nat, h: nat)
    requires Shape(p, t, h, 1) && h > 0 && 1 <= t && 0 < j < |p.children|
    requires |p.children[j - 1].keys| == t && |p.children[j].keys| == t
    ensures Ready(Settle(MergeLeft(p, j), j - 1), t, h)
  {
    MergeLeftShape(p, j, t, h, 1);
    ShapeWeaken(MergeLeft(p, j).children[j - 1], t, h - 1, t + 1, 1);
  }

  /** The left child after `shift_from_left`: its last key and child gone. */
  lemma ShiftedLeftDonor(l: Node, t: nat, h: nat)
    requires Shape(l, t, h, t + 1)
    ensures Shape(Node(RemoveKeyAt(l.keys, |l.keys| - 1), if l.children == [] then [] else RemoveAt(l.children, |l.children| - 1)), t, h, t)
  {
    var l2 := Node(RemoveKeyAt(l.keys, |l.keys| - 1), if l.children == [] then [] else RemoveAt(l.children, |l.children| - 1));
    assert l2 == DropLast(l) by {
      assert RemoveAt(l.keys, |l.keys| - 1) == l.keys[..|l.keys| - 1];
      if l.children != [] {
        assert RemoveAt(l.children, |l.children| - 1) == l.children[..|l.children| - 1];
      }
    }
    DropLastShape(l, t, h, t);
  }

  /** The right child after `shift_from_left`: the separator and the left sibling's last child added. */
  lemma ShiftedLeftTaker(l: Node, k: int, r: Node, t: nat, h: nat)
    requires Shape(l, t, h, t + 1) && Shape(r, t, h, t) && |r.keys| == t && 1 <= t
    ensures Shape(Node(AddKey(r.keys, k), LastKid(l) + r.children), t, h, t + 1)
  {
    GrowFrontShape(l, k, r, t, h, t + 1);
    ShapeKeys(Node([k] + r.keys, LastKid(l) + r.children), AddKey(r.keys, k), t, h, t + 1);
  }

  /** The right child after `shift_from_right`: its first key and child gone. */
  lemma ShiftedRightDonor(r: Node, t: nat, h: nat)
    requires Shape(r, t, h, t + 1)
    ensures Shape(Node(RemoveKeyAt(r.keys, 0), if r.children == [] then [] else RemoveAt(r.children, 0)), t, h, t)
  {
    var r2 := Node(RemoveKeyAt(r.keys, 0), if r.children == [] then [] else RemoveAt(r.children, 0));
    assert r2 == DropFirst(r) by {
      assert RemoveAt(r.keys, 0) == r.keys[1..];
      if r.children != [] {
        assert RemoveAt(r.children, 0) == r.children[1..];
      }
    }
    DropFirstShape(r, t, h, t);
  }

  /** The left child after `shift_from_right`: the separator and the right sibling's first child added. */
  lemma ShiftedRightTaker(l: Node, k: int, r: Node, t: nat, h: nat)
    requires Shape(l, t, h, t) && Shape(r, t, h, t + 1) && |l.keys| == t && 1 <= t
    ensures Shape(Node(AddKey(l.keys, k), l.children + FirstKid(r)), t, h, t + 1)
  {
    GrowBackShape(l, k, r, t, h, t + 1);
    ShapeKeys(Node(l.keys + [k], l.children + FirstKid(r)), AddKey(l.keys, k), t, h, t + 1);
  }

  /** `shift_from_left` moves one key from child `li` to child `li + 1`, keeping the parent a B-tree node. */
  lemma ShiftFromLeftShape(p: Node, li: nat, t: nat, h: nat, lo: nat)
    requires Shape(p, t, h, lo) && h > 0 && li + 1 < |p.children|
    requires |p.children[li].keys| > t && |p.children[li + 1].keys| == t && 1 <= t
    ensures Shape(ShiftFromLeft(p, li), t, h, lo)
    ensures Shape(ShiftFromLeft(p, li).children[li + 1], t, h - 1, t + 1)
  {
    var l, r, k := p.children[li], p.children[li + 1], p.keys[li];
    var l2 := Node(RemoveKeyAt(l.keys, |l.keys| - 1), if l.children == [] then [] else RemoveAt(l.children, |l.children| - 1));
    var r2 := Node(AddKey(r.keys, k), LastKid(l) + r.children);
    ShapeAtLeast(l, t, h - 1, t, t + 1);
    ShiftedLeftDonor(l, t, h - 1);
    ShiftedLeftTaker(l, k, r, t, h - 1);
    ShapeOthers(p, t, h, lo, li);
    WindowShape(p, t, h, lo, li, l2, k, r2);
    var w := Node(p.keys[li := k], p.children[li := l2][li + 1 := r2]);
    ShapeKeys(w, ShiftFromLeft(p, li).keys, t, h, lo);
  }

  /** `shift_from_right` moves one key from child `li + 1` to child `li`, keeping the parent a B-tree node. */
  lemma ShiftFromRightShape(p: Node, li: nat, t: nat, h: nat, lo: nat)
    requires Shape(p, t, h, lo) && h > 0 && li + 1 < |p.children|
    requires |p.children[li].keys| == t && |p.children[li + 1].keys| > t && 1 <= t
    ensures Shape(ShiftFromRight(p, li), t, h, lo)
    ensures Shape(ShiftFromRight(p, li).children[li], t, h - 1, t + 1)
  {
    var l, r, k := p.children[li], p.children[li + 1], p.keys[li];
    var r2 := Node(RemoveKeyAt(r.keys, 0), if r.children == [] then [] else RemoveAt(r.children, 0));
    var l2 := Node(AddKey(l.keys, k), l.children + FirstKid(r));
    ShapeAtLeast(r, t, h - 1, t, t + 1);
    ShiftedRightDonor(r, t, h - 1);
    ShiftedRightTaker(l, k, r, t, h - 1);
    ShapeOthers(p, t, h, lo, li);
    WindowShape(p, t, h, lo, li, l2, k, r2);
    var w := Node(p.keys[li := k], p.children[li := l2][li + 1 := r2]);
    ShapeKeys(w, ShiftFromRight(p, li).keys, t, h, lo);
  }

  /** Every child of a B-tree node with `t` at least one holds a key. */
  lemma ChildrenHoldKeys(p: Node, t: nat, h: nat, lo: nat)
    requires Shape(p, t, h, lo) && h > 0 && 1 <= t
    ensures forall i :: 0 <= i < |p.children| ==> p.children[i].keys != []
  {
    forall i | 0 <= i < |p.children| ensures p.children[i].keys != [] {
      assert Shape(p.children[i], t, h - 1, t);
    }
  }

  /**
   * After `fix_node_size_delete` the child the search enters holds more than
   * `t` keys and the parent is a B-tree node with at most one key fewer; the
   * parent is left without keys, and replaced by the merged node, only when it
   * held a single key.
   */
  lemma FixShape(p: Node, j: nat, t: nat, h: nat, lo: nat)
    requires Shape(p, t, h, lo) && h > 0 && 1 <= lo && 1 <= t && j < |p.children|
    requires forall i :: 0 <= i < |p.children| ==> p.children[i].keys != []
    ensures Fix(p, j, t).Fixed? ==>
      var q, i := Fix(p, j, t).p, Fix(p, j, t).j;
      Shape(q, t, h, lo - 1) && q.keys != [] && Shape(q.children[i], t, h - 1, t + 1)
    ensures Fix(p, j, t).Collapsed? ==> |p.keys| == 1 && Shape(Fix(p, j, t).c, t, h - 1, t + 1)
  {
    var cs := p.children;
    if |cs[j].keys| != t {
      ShapeAtLeast(cs[j], t, h - 1, t, t + 1);
    } else if j > 0 && |cs[j - 1].keys| != t {
      ShiftFromLeftShape(p, j - 1, t, h, lo);
    } else if j < |cs| - 1 && |cs[j + 1].keys| != t {
      ShiftFromRightShape(p, j, t, h, lo);
    } else if j != 0 {
      MergeLeftShape(p, j, t, h, lo);
    } else {
      MergeRightShape(p, t, h, lo);
    }
  }

  /** The fixed child can be continued in. */
  lemma FixReady(p: Node, j: nat, t: nat, h: nat)
    requires Shape(p, t, h, 1) && h > 0 && 1 <= t && j < |p.children|
    ensures forall i :: 0 <= i < |p.children| ==> p.children[i].keys != []
    ensures Ready(Fix(p, j, t), t, h)
  {
    ChildrenHoldKeys(p, t, h, 1);
    FixShape(p, j, t, h, 1);
    match Fix(p, j, t)
    case Fixed(q, i) => ShapeWeaken(q.children[i], t, h - 1, t + 1, 1);
    case Collapsed(c) => ShapeWeaken(c, t, h - 1, t + 1, 1);
  }
}
