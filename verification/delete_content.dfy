/**
 * What top-down deletion does to the keys: on a tree with distinct keys in
 * order, the sorted insertions and removals the code performs while borrowing
 * and merging are the positional rotations and merges, so every fix keeps the
 * in-order sequence, and the whole deletion removes exactly the value, when it
 * is there.
 */
module DeleteContent {
  import opened Seqs
  import opened Nodes
  import opened Rebalance
  import opened Delete

  /** An internal node with one child more than keys. */
  predicate Inner(p: Node) {
    p.children != [] && |p.children| == |p.keys| + 1
  }

  /** The first and last key of child `i` lie strictly between the separators around it. */
  lemma ChildKeyBounds(p: Node, i: nat)
    requires Inner(p) && i < |p.children| && Wf(p.children[i]) && p.children[i].keys != []
    requires Ordered(InOrder(p), true)
    ensures Ordered(p.children[i].keys, true)
    ensures 0 < i ==> p.keys[i - 1] < p.children[i].keys[0]
    ensures i < |p.keys| ==> p.children[i].keys[|p.children[i].keys| - 1] < p.keys[i]
  {
    var c := p.children[i];
    ChildOrdered(p, i, true);
    ChildBounds(p, i, true);
    NodeKeys(c, true);
    assert c.keys[0] in InOrder(c);
    assert c.keys[|c.keys| - 1] in InOrder(c);
  }

  // ---------------------------------------------------------------------------
  // The code's borrowing and merging are the positional ones.

  /** On distinct ordered keys `shift_from_left` is the rotation from the left sibling. */
  lemma ShiftFromLeftRotates(p: Node, li: nat)
    requires Inner(p) && li + 1 < |p.children| && Ordered(InOrder(p), true)
    requires Siblings(p.children[li], p.children[li + 1]) && p.children[li].keys != []
    ensures ShiftFromLeft(p, li) == RotateRight(p, li)
  {
    var l := p.children[li];
    DonorLosesLast(l);
    SeparatorInFront(p, li);
    SeparatorReplaced(p, li, l.keys[|l.keys| - 1]);
  }

  /** The left sibling after `shift_from_left` is the sibling without its last key and child. */
  lemma DonorLosesLast(l: Node)
    requires l.keys != [] && Wf(l)
    ensures Node(RemoveKeyAt(l.keys, |l.keys| - 1), if l.children == [] then [] else RemoveAt(l.children, |l.children| - 1)) == DropLast(l)
  {
    assert RemoveAt(l.keys, |l.keys| - 1) == l.keys[..|l.keys| - 1];
    if l.children != [] {
      assert RemoveAt(l.children, |l.children| - 1) == l.children[..|l.children| - 1];
    }
  }

  /** The right sibling after `shift_from_right` is the sibling without its first key and child. */
  lemma DonorLosesFirst(r: Node)
    requires r.keys != [] && Wf(r)
    ensures Node(RemoveKeyAt(r.keys, 0), if r.children == [] then [] else RemoveAt(r.children, 0)) == DropFirst(r)
  {
    assert RemoveAt(r.keys, 0) == r.keys[1..];
    if r.children != [] {
      assert RemoveAt(r.children, 0) == r.children[1..];
    }
  }

  /** Separator `li`, inserted into child `li + 1` by sorted insertion, goes in front. */
  lemma SeparatorInFront(p: Node, li: nat)
    requires Inner(p) && li + 1 < |p.children| && Ordered(InOrder(p), true) && Wf(p.children[li + 1])
    ensures AddKey(p.children[li + 1].keys, p.keys[li]) == [p.keys[li]] + p.children[li + 1].keys
  {
    var r := p.children[li + 1];
    if r.keys != [] {
      ChildKeyBounds(p, li + 1);
      StrictIsOrdered(r.keys);
    }
    AddKeyFront(r.keys, p.keys[li]);
  }

  /** Separator `li`, inserted into child `li` by sorted insertion, goes at the end. */
  lemma SeparatorAtBack(p: Node, li: nat)
    requires Inner(p) && li < |p.keys| && Ordered(InOrder(p), true) && Wf(p.children[li])
    ensures AddKey(p.children[li].keys, p.keys[li]) == p.children[li].keys + [p.keys[li]]
  {
    var l := p.children[li];
    if l.keys != [] {
      ChildKeyBounds(p, li);
    }
    AddKeyBack(l.keys, p.keys[li]);
  }

  /**
   * Taking separator `li` out by index and putting in, by sorted insertion,
   * the last key of child `li` or the first key of child `li + 1` overwrites
   * the separator.
   */
  lemma SeparatorReplaced(p: Node, li: nat, w: int)
    requires Inner(p) && li + 1 < |p.children| && Ordered(InOrder(p), true)
    requires Wf(p.children[li]) && Wf(p.children[li + 1])
    requires || (p.children[li].keys != [] && w == p.children[li].keys[|p.children[li].keys| - 1])
             || (p.children[li + 1].keys != [] && w == p.children[li + 1].keys[0])
    ensures AddKey(RemoveKeyAt(p.keys, li), w) == p.keys[li := w]
  {
    NodeKeys(p, true);
    if p.children[li].keys != [] && w == p.children[li].keys[|p.children[li].keys| - 1] {
      ChildKeyBounds(p, li);
    } else {
      ChildKeyBounds(p, li + 1);
    }
    RemoveKeyOfAt(p.keys, li);
    RemoveThenAddAt(p.keys, li, w);
  }

  /** On distinct ordered keys `shift_from_right` is the rotation from the right sibling. */
  lemma ShiftFromRightRotates(p: Node, li: nat)
    requires Inner(p) && li + 1 < |p.children| && Ordered(InOrder(p), true)
    requires Siblings(p.children[li], p.children[li + 1]) && p.children[li + 1].keys != []
    ensures ShiftFromRight(p, li) == RotateLeft(p, li)
  {
    DonorLosesFirst(p.children[li + 1]);
    SeparatorAtBack(p, li);
    SeparatorReplaced(p, li, p.children[li + 1].keys[0]);
  }

  /** On distinct ordered keys `merge_left` of two equally full siblings is the positional merge. */
  lemma MergeLeftMerges(p: Node, j: nat)
    requires Inner(p) && 0 < j < |p.children| && Ordered(InOrder(p), true)
    requires Siblings(p.children[j - 1], p.children[j]) && |p.children[j - 1].keys| == |p.children[j].keys|
    ensures MergeLeft(p, j) == Merge(p, j - 1)
  {
    NodeKeys(p, true);
    RemoveKeyOfAt(p.keys, j - 1);
    MergeTwoIsJoin(p.children[j - 1], p.keys[j - 1], p.children[j]);
  }

  /** `merge_right` with a single removal of two equally full siblings is the positional merge. */
  lemma MergeRightMerges(p: Node, j: nat)
    requires j + 1 < |p.children| && j < |p.keys|
    requires Siblings(p.children[j], p.children[j + 1]) && |p.children[j].keys| == |p.children[j + 1].keys|
    ensures MergeRight(p, j) == Merge(p, j)
  {
    MergeTwoIsJoin(p.children[j], p.keys[j], p.children[j + 1]);
  }

  /** With equally full siblings the corrected `merge_right` keeps the in-order sequence, duplicates or not. */
  lemma MergeRightInOrder(p: Node, j: nat)
    requires Inner(p) && j + 1 < |p.children|
    requires Siblings(p.children[j], p.children[j + 1]) && |p.children[j].keys| == |p.children[j + 1].keys|
    ensures InOrder(MergeRight(p, j)) == InOrder(p)
  {
    MergeRightMerges(p, j);
    MergeInOrder(p, j);
  }

  /** On distinct keys `merge_right` as written agrees with the corrected one: the second removal finds nothing. */
  lemma MergeRightAgrees(p: Node, j: nat)
    requires j + 1 < |p.children| && j < |p.keys| && Ordered(p.keys, true)
    requires |p.children[j].keys| <= |p.children[j + 1].keys|
    ensures MergeRightAsWritten(p, j) == MergeRight(p, j)
  {
    var ks := p.keys;
    assert ks == ks[..j] + [ks[j]] + ks[j + 1..];
    forall i | 0 <= i < |RemoveKeyAt(ks, j)| ensures RemoveKeyAt(ks, j)[i] != ks[j] {
      if i < j {
        assert Le(ks[i], ks[j], true);
      } else {
        assert Le(ks[j], ks[i + 1], true);
      }
    }
  }

  /**
   * With a duplicated separator `merge_right` as written loses a key: for
   * `t = 1`, deleting 3 from the root [5, 5] over leaves [3], [5], [7] merges
   * the first two children and removes 5 twice from the root, which is then
   * left without keys and replaced by the merged node [3, 5, 5]; the leaf [7]
   * is gone.
   */
  lemma MergeRightLosesKey()
    ensures var p := Node([5, 5], [Node([3], []), Node([5], []), Node([7], [])]);
      && MergeRightAsWritten(p, 0).keys == []
      && MergeRightAsWritten(p, 0).children == [Node([3, 5, 5], []), Node([7], [])]
      && InOrder(MergeRight(p, 0)) == InOrder(p) == [3, 5, 5, 5, 7]
  {
    var p := Node([5, 5], [Node([3], []), Node([5], []), Node([7], [])]);
    var w := MergeRightAsWritten(p, 0);
    assert RemoveKeyAt([5, 5], 0) == [5];
    assert w.children[0] == Node([3, 5, 5], []);
    assert p.children[2..] == [Node([7], [])];
    MergeRightInOrder(p, 0);
    assert InOrder(p) == [3, 5, 5, 5, 7] by {
      assert InOrder(p) == InOrder(Node([3], [])) + [5] + Interleave([5], p.children[1..]);
      assert p.children[1..][1..] == [Node([7], [])];
      assert Interleave([5], p.children[1..]) == [5] + [5] + Interleave([], [Node([7], [])]);
    }
  }

  // ---------------------------------------------------------------------------
  // Fixing a child keeps the keys.

  /** `v` lies strictly between the separators around child `i`. */
  predicate Between(q: Node, i: nat, v: int) {
    && Inner(q) && i < |q.children|
    && (0 < i ==> q.keys[i - 1] < v)
    && (i < |q.keys| ==> v < q.keys[i])
  }

  /** Two neighbouring children of a B-tree node are of the same kind. */
  lemma ShapeSiblings(p: Node, i: nat, t: nat, h: nat, lo: nat)
    requires Shape(p, t, h, lo) && h > 0 && i + 1 < |p.children|
    ensures Siblings(p.children[i], p.children[i + 1])
  {
    assert Shape(p.children[i], t, h - 1, t);
    assert Shape(p.children[i + 1], t, h - 1, t);
  }

  /** Fixing child `j` by borrowing from the right sibling keeps the keys and the slot of `v`. */
  lemma FixRightCase(p: Node, j: nat, t: nat, v: int)
    requires Inner(p) && 1 <= |p.keys| && Kin(p) && j + 1 < |p.children|
    requires Ordered(InOrder(p), true) && Between(p, j, v)
    requires |p.children[j].keys| == t && (j > 0 ==> |p.children[j - 1].keys| == t) && |p.children[j + 1].keys| != t
    ensures Keeps(Fix(p, j, t), p, v)
  {
    KinSiblings(p, j);
    FixFromRightContent(p, j, v);
    assert Fix(p, j, t) == Fixed(ShiftFromRight(p, j), j);
  }

  /** Fixing child `j` by a merge keeps the keys and the slot of `v`. */
  lemma FixMergeCase(p: Node, j: nat, t: nat, v: int)
    requires Inner(p) && 1 <= |p.keys| && Kin(p) && j < |p.children|
    requires Ordered(InOrder(p), true) && Between(p, j, v)
    requires |p.children[j].keys| == t && (j > 0 ==> |p.children[j - 1].keys| == t)
    requires j + 1 < |p.children| ==> |p.children[j + 1].keys| == t
    ensures Keeps(Fix(p, j, t), p, v)
  {
    KinSiblings(p, if j != 0 then j - 1 else 0);
    FixMergeContent(p, j, v);
  }

  /** The outcome of fixing a child of `p`: the keys are kept, and `v` stays in the slot the search enters, or the node that replaced `p` reads as `p`. */
  predicate Keeps(f: Fixed, p: Node, v: int) {
    && (f.Fixed? ==> InOrder(f.p) == InOrder(p) && Between(f.p, f.j, v))
    && (f.Collapsed? ==> InOrder(f.c) == InOrder(p))
  }

  /** The children of a node are all of one kind, and each holds a key. */
  predicate Kin(p: Node)
    requires p.children != []
  {
    forall i :: 0 <= i < |p.children| ==>
      && Wf(p.children[i]) && p.children[i].keys != []
      && (p.children[i].children == [] <==> p.children[0].children == [])
  }

  /** The children of a B-tree node are kin. */
  lemma ShapeKin(p: Node, t: nat, h: nat, lo: nat)
    requires Shape(p, t, h, lo) && h > 0 && 1 <= t
    ensures Kin(p)
  {
    forall i | 0 <= i < |p.children| ensures Wf(p.children[i]) && p.children[i].keys != [] && (p.children[i].children == [] <==> p.children[0].children == []) {
      assert Shape(p.children[i], t, h - 1, t);
      assert Shape(p.children[0], t, h - 1, t);
    }
  }

  /** Neighbouring kin are siblings. */
  lemma KinSiblings(p: Node, i: nat)
    requires p.children != [] && Kin(p) && i + 1 < |p.children|
    ensures Siblings(p.children[i], p.children[i + 1])
  {
    assert Wf(p.children[i]) && (p.children[i].children == [] <==> p.children[0].children == []);
    assert Wf(p.children[i + 1]) && (p.children[i + 1].children == [] <==> p.children[0].children == []);
  }

  /** A node left without keys and with one child reads as that child. */
  lemma CollapsedInOrder(q: Node, i: nat)
    requires Inner(q) && q.keys == [] && i < |q.children|
    ensures InOrder(q.children[i]) == InOrder(q)
  {
    assert q.children == [q.children[i]];
    InterleaveOne(q.children[i]);
  }

  /** Borrowing from the left sibling keeps the keys and the slot of `v`. */
  lemma FixFromLeftContent(p: Node, j: nat, v: int)
    requires Inner(p) && 0 < j < |p.children| && Ordered(InOrder(p), true)
    requires Siblings(p.children[j - 1], p.children[j]) && p.children[j - 1].keys != [] && Between(p, j, v)
    ensures Keeps(Fixed(ShiftFromLeft(p, j - 1), j), p, v)
  {
    ShiftFromLeftRotates(p, j - 1);
    RotateRightInOrder(p, j - 1);
    RotateRightSlot(p, j - 1, v);
  }

  /** The rotation from the left sibling puts a key below the old separator in its place, so `v` keeps its slot. */
  lemma RotateRightSlot(p: Node, i: nat, v: int)
    requires Inner(p) && i + 1 < |p.children| && Ordered(InOrder(p), true)
    requires Wf(p.children[i]) && p.children[i].keys != [] && Between(p, i + 1, v)
    ensures Between(RotateRight(p, i), i + 1, v)
  {
    ChildKeyBounds(p, i);
    var l := p.children[i];
    assert RotateRight(p, i).keys == p.keys[i := l.keys[|l.keys| - 1]];
  }

  /** Borrowing from the right sibling keeps the keys and the slot of `v`. */
  lemma FixFromRightContent(p: Node, j: nat, v: int)
    requires Inner(p) && j + 1 < |p.children| && Ordered(InOrder(p), true)
    requires Siblings(p.children[j], p.children[j + 1]) && p.children[j + 1].keys != [] && Between(p, j, v)
    ensures Keeps(Fixed(ShiftFromRight(p, j), j), p, v)
  {
    ShiftFromRightRotates(p, j);
    RotateLeftInOrder(p, j);
    RotateLeftSlot(p, j, v);
  }

  /** The rotation from the right sibling puts a key above the old separator in its place, so `v` keeps its slot. */
  lemma RotateLeftSlot(p: Node, i: nat, v: int)
    requires Inner(p) && i + 1 < |p.children| && Ordered(InOrder(p), true)
    requires Wf(p.children[i + 1]) && p.children[i + 1].keys != [] && Between(p, i, v)
    ensures Between(RotateLeft(p, i), i, v)
  {
    ChildKeyBounds(p, i + 1);
    var r := p.children[i + 1];
    assert RotateLeft(p, i).keys == p.keys[i := r.keys[0]];
  }

  /** A merge around separator `i` keeps the keys, and `v`, between separators `i - 1` and `i + 1`, lies in the merged child's slot. */
  lemma MergedSlot(p: Node, i: nat, v: int)
    requires Inner(p) && i + 1 < |p.children| && Ordered(p.keys, true)
    requires (0 < i ==> p.keys[i - 1] < v) && (i + 1 < |p.keys| ==> v < p.keys[i + 1])
    ensures Merge(p, i).keys != [] ==> Between(Merge(p, i), i, v)
  {
    var q := Merge(p, i);
    if 0 < i {
      assert q.keys[i - 1] == p.keys[i - 1];
    }
    if i < |q.keys| {
      assert q.keys[i] == p.keys[i + 1];
    }
  }

  /** Merging child `j` with a sibling keeps the keys; `v` stays in the merged child's slot, or the merged child replaces the parent. */
  lemma FixMergeContent(p: Node, j: nat, v: int)
    requires Inner(p) && j < |p.children| && 1 < |p.children| && Ordered(InOrder(p), true) && Between(p, j, v)
    requires var i := if j != 0 then j - 1 else 0;
      Siblings(p.children[i], p.children[i + 1]) && |p.children[i].keys| == |p.children[i + 1].keys|
    ensures Keeps(if j != 0 then Settle(MergeLeft(p, j), j - 1) else Settle(MergeRight(p, 0), 0), p, v)
  {
    var i := if j != 0 then j - 1 else 0;
    if j != 0 {
      MergeLeftMerges(p, j);
    } else {
      MergeRightMerges(p, 0);
    }
    MergeInOrder(p, i);
    NodeKeys(p, true);
    if j != 0 && j < |p.keys| {
      assert Le(p.keys[j - 1], p.keys[j], true);
    }
    if j == 0 && 1 < |p.keys| {
      assert Le(p.keys[0], p.keys[1], true);
    }
    MergedSlot(p, i, v);
    if Merge(p, i).keys == [] {
      CollapsedInOrder(Merge(p, i), i);
    }
  }

  /**
   * `fix_node_size_delete` keeps the in-order sequence of the parent; the
   * child the search enters still lies between separators around `v`, or it
   * replaced the parent.
   */
  lemma FixContent(p: Node, j: nat, t: nat, v: int)
    requires Inner(p) && 1 <= |p.keys| && Kin(p) && j < |p.children|
    requires Ordered(InOrder(p), true) && Between(p, j, v)
    requires forall i :: 0 <= i < |p.children| ==> p.children[i].keys != []
    ensures Keeps(Fix(p, j, t), p, v)
  {
    var cs := p.children;
    if |cs[j].keys| != t {
    } else if j > 0 && |cs[j - 1].keys| != t {
      KinSiblings(p, j - 1);
      FixFromLeftContent(p, j, v);
      assert Fix(p, j, t) == Fixed(ShiftFromLeft(p, j - 1), j);
    } else if j < |cs| - 1 && |cs[j + 1].keys| != t {
      FixRightCase(p, j, t, v);
    } else {
      FixMergeCase(p, j, t, v);
    }
  }

  // ---------------------------------------------------------------------------
  // Predecessor and successor.

  /** What `GreatestContent` states, for subtree `n` and the value `v` put in place of its greatest key. */
  predicate GreatestFits(n: Node, v: int, t: nat, h: nat)
    requires Shape(n, t, h, 1) && 1 <= t
  {
    && InOrder(n) != [] && Greatest(n, t, h) == InOrder(n)[|InOrder(n)| - 1]
    && InOrder(PutGreatest(n, v, t, h)) == InOrder(n)[..|InOrder(n)| - 1] + [v]
  }

  /** What `LeastContent` states, for subtree `n` and the value `v` put in place of its least key. */
  predicate LeastFits(n: Node, v: int, t: nat, h: nat)
    requires Shape(n, t, h, 1) && 1 <= t
  {
    && InOrder(n) != [] && Least(n, t, h) == InOrder(n)[0]
    && InOrder(PutLeast(n, v, t, h)) == [v] + InOrder(n)[1..]
  }

  /**
   * The greatest key of a subtree is the last of its in-order sequence, and
   * putting a greater `v` in its place reads as the sequence with `v` for its
   * last element.
   */
  lemma {:induction false} GreatestContent(n: Node, v: int, t: nat, h: nat)
    requires Shape(n, t, h, 1) && 1 <= t && Ordered(InOrder(n) + [v], true)
    ensures GreatestFits(n, v, t, h)
    decreases h
  {
    if n.children == [] {
      GreatestLeaf(n.keys, v);
    } else {
      var i := |n.children| - 1;
      var c := n.children[i];
      ShapeWeaken(c, t, h - 1, t, 1);
      LastChildOrdered(n, v);
      GreatestContent(c, v, t, h - 1);
      var c2 := PutGreatest(c, v, t, h - 1);
      assert PutGreatest(n, v, t, h) == Node(n.keys, n.children[i := c2]);
      assert Greatest(n, t, h) == Greatest(c, t, h - 1);
      GreatestInner(n, c2, v);
    }
  }

  /** In a leaf the last key gives way to a greater `v`. */
  lemma GreatestLeaf(ks: seq<int>, v: int)
    requires ks != [] && Ordered(ks + [v], true)
    ensures AddKey(RemoveKeyAt(ks, |ks| - 1), v) == ks[..|ks| - 1] + [v]
  {
    assert RemoveKeyAt(ks, |ks| - 1) == ks[..|ks| - 1];
    if |ks| >= 2 {
      var w := ks + [v];
      assert Le(w[|ks| - 2], w[|ks|], true);
    }
    AddKeyBack(ks[..|ks| - 1], v);
  }

  /** A value above an ordered subtree is above its last child. */
  lemma LastChildOrdered(n: Node, v: int)
    requires Inner(n) && Ordered(InOrder(n) + [v], true)
    ensures Ordered(InOrder(n.children[|n.children| - 1]) + [v], true)
  {
    var i := |n.children| - 1;
    var b := Before(n.keys, n.children, i);
    NodeHole(n, i);
    AfterLast(n.keys, n.children);
    assert InOrder(n) + [v] == b + (InOrder(n.children[i]) + [v]);
    OrderedParts(b, InOrder(n.children[i]) + [v], true);
  }

  /** The last child ends the in-order sequence, so replacing its last element replaces the node's. */
  lemma GreatestInner(n: Node, c2: Node, v: int)
    requires Inner(n)
    requires var ic := InOrder(n.children[|n.children| - 1]);
      ic != [] && InOrder(c2) == ic[..|ic| - 1] + [v]
    ensures var i, io := |n.children| - 1, InOrder(n);
      && io != [] && io[|io| - 1] == InOrder(n.children[i])[|InOrder(n.children[i])| - 1]
      && InOrder(Node(n.keys, n.children[i := c2])) == io[..|io| - 1] + [v]
  {
    var i := |n.children| - 1;
    var b, ic := Before(n.keys, n.children, i), InOrder(n.children[i]);
    NodeHole(n, i);
    InOrderReplace(n, i, c2);
    AfterLast(n.keys, n.children);
    assert (b + ic)[..|b + ic| - 1] == b + ic[..|ic| - 1];
  }

  /**
   * The least key of a subtree is the first of its in-order sequence, and
   * putting a smaller `v` in its place reads as the sequence with `v` for its
   * first element.
   */
  lemma {:induction false} LeastContent(n: Node, v: int, t: nat, h: nat)
    requires Shape(n, t, h, 1) && 1 <= t && Ordered([v] + InOrder(n), true)
    ensures LeastFits(n, v, t, h)
    decreases h
  {
    if n.children == [] {
      LeastLeaf(n.keys, v);
    } else {
      var c := n.children[0];
      ShapeWeaken(c, t, h - 1, t, 1);
      FirstChildOrdered(n, v);
      LeastContent(c, v, t, h - 1);
      var c2 := PutLeast(c, v, t, h - 1);
      assert PutLeast(n, v, t, h) == Node(n.keys, n.children[0 := c2]);
      assert Least(n, t, h) == Least(c, t, h - 1);
      LeastInner(n, c2, v);
    }
  }

  /** In a leaf the first key gives way to a smaller `v`. */
  lemma LeastLeaf(ks: seq<int>, v: int)
    requires ks != [] && Ordered([v] + ks, true)
    ensures AddKey(RemoveKeyAt(ks, 0), v) == [v] + ks[1..]
  {
    assert RemoveKeyAt(ks, 0) == ks[1..];
    OrderedDropAfterFirst(ks, v, true);
    var u := [v] + ks[1..];
    OrderedParts([v], ks[1..], true);
    StrictIsOrdered(ks[1..]);
    if |ks| > 1 {
      assert Le(u[0], u[1], true);
    }
    AddKeyFront(ks[1..], v);
  }

  /** A value below an ordered subtree is below its first child. */
  lemma FirstChildOrdered(n: Node, v: int)
    requires Inner(n) && Ordered([v] + InOrder(n), true)
    ensures Ordered([v] + InOrder(n.children[0]), true)
  {
    var a := After(n.keys, n.children, 0);
    NodeHole(n, 0);
    SlotEmptyBefore(n);
    assert [v] + InOrder(n) == ([v] + InOrder(n.children[0])) + a;
    OrderedParts([v] + InOrder(n.children[0]), a, true);
  }

  /** The first child starts the in-order sequence, so replacing its first element replaces the node's. */
  lemma LeastInner(n: Node, c2: Node, v: int)
    requires Inner(n)
    requires var ic := InOrder(n.children[0]);
      ic != [] && InOrder(c2) == [v] + ic[1..]
    ensures var io := InOrder(n);
      && io != [] && io[0] == InOrder(n.children[0])[0]
      && InOrder(Node(n.keys, n.children[0 := c2])) == [v] + io[1..]
  {
    var a, ic := After(n.keys, n.children, 0), InOrder(n.children[0]);
    NodeHole(n, 0);
    InOrderReplace(n, 0, c2);
    SlotEmptyBefore(n);
    assert (ic + a)[1..] == ic[1..] + a;
  }

  /** Nothing comes before the first child. */
  lemma SlotEmptyBefore(n: Node)
    requires Inner(n)
    ensures Before(n.keys, n.children, 0) == []
  {
    assert n.keys[..0] == [] && n.children[..0] == [];
  }

  /** The predecessor takes the place of key `idx`, and what is left of child `idx` that of the child. */
  lemma PredWrap(x: Node, idx: nat, cn: Node, g: int)
    requires Inner(x) && idx < |x.keys| && Ordered(InOrder(x), true)
    requires InOrder(cn) + [g] == InOrder(x.children[idx])
    ensures InOrder(Node(x.keys[idx := g], x.children[idx := cn])) == RemoveKey(InOrder(x), x.keys[idx])
  {
    var k, c2 := x.keys[idx], x.children[idx + 1];
    var b, a := Before(x.keys, x.children, idx), After(x.keys, x.children, idx + 1);
    var P, Q := b + InOrder(cn) + [g], InOrder(c2) + a;
    assert InOrder(Node(x.keys[idx := g], x.children[idx := cn])) == P + Q by {
      assert x.children[idx := cn][idx + 1 := c2] == x.children[idx := cn];
      WindowReplace(x, idx, cn, g, c2);
    }
    assert InOrder(x) == P + [k] + Q by {
      NodeWindow(x, idx);
    }
    assert RemoveKey([k], k) == [];
    RemoveKeyMiddle(P, [k], Q, k);
    assert P + [] + Q == P + Q;
  }

  /** The successor takes the place of key `idx`, and what is left of child `idx + 1` that of the child. */
  lemma SuccWrap(x: Node, idx: nat, cn: Node, s: int)
    requires Inner(x) && idx < |x.keys| && Ordered(InOrder(x), true)
    requires [s] + InOrder(cn) == InOrder(x.children[idx + 1])
    ensures InOrder(Node(x.keys[idx := s], x.children[idx + 1 := cn])) == RemoveKey(InOrder(x), x.keys[idx])
  {
    var k, c := x.keys[idx], x.children[idx];
    var b, a := Before(x.keys, x.children, idx), After(x.keys, x.children, idx + 1);
    var P, Q := b + InOrder(c), [s] + InOrder(cn) + a;
    assert InOrder(Node(x.keys[idx := s], x.children[idx + 1 := cn])) == P + Q by {
      assert x.children[idx := c][idx + 1 := cn] == x.children[idx + 1 := cn];
      WindowReplace(x, idx, c, s, cn);
    }
    assert InOrder(x) == P + [k] + Q by {
      NodeWindow(x, idx);
    }
    assert RemoveKey([k], k) == [];
    RemoveKeyMiddle(P, [k], Q, k);
    assert P + [] + Q == P + Q;
  }

  /** The last key below child `idx` of a node with distinct ordered keys lies strictly between the separators around it. */
  lemma LastBelowBounds(x: Node, idx: nat)
    requires Inner(x) && idx < |x.keys| && Ordered(InOrder(x), true) && InOrder(x.children[idx]) != []
    ensures var ic := InOrder(x.children[idx]);
      && Ordered(ic + [x.keys[idx]], true)
      && (0 < idx ==> x.keys[idx - 1] < ic[|ic| - 1])
  {
    var ic := InOrder(x.children[idx]);
    ChildOrdered(x, idx, true);
    ChildBounds(x, idx, true);
    OrderedAppend(ic, [x.keys[idx]], true);
  }

  /** The first key below child `idx + 1` of a node with distinct ordered keys lies strictly between the separators around it. */
  lemma FirstBelowBounds(x: Node, idx: nat)
    requires Inner(x) && idx < |x.keys| && Ordered(InOrder(x), true) && InOrder(x.children[idx + 1]) != []
    ensures var ic := InOrder(x.children[idx + 1]);
      && Ordered([x.keys[idx]] + ic, true)
      && (idx + 1 < |x.keys| ==> ic[0] < x.keys[idx + 1])
  {
    var ic := InOrder(x.children[idx + 1]);
    ChildOrdered(x, idx + 1, true);
    ChildBounds(x, idx + 1, true);
    OrderedAppend([x.keys[idx]], ic, true);
  }

  /** Key `idx` overwritten by a key between its neighbours keeps its slot for the search. */
  lemma ReplacedKeyRoute(ks: seq<int>, idx: nat, g: int)
    requires Ordered(ks, true) && idx < |ks| && (0 < idx ==> ks[idx - 1] < g)
    ensures g < ks[idx] ==> ClosestChild(ks[idx := g], ks[idx]) == idx + 1
    ensures ks[idx] < g && (idx + 1 < |ks| ==> g < ks[idx + 1]) ==> ClosestChild(ks[idx := g], ks[idx]) == idx
  {
    var v := ks[idx];
    forall j | 0 <= j < idx ensures ks[j] < v {
      assert Le(ks[j], ks[idx], true);
    }
    if idx + 1 < |ks| {
      assert Le(ks[idx], ks[idx + 1], true);
    }
    if g < v {
      ClosestChildAt(ks[idx := g], idx + 1, v);
    } else if v < g {
      ClosestChildAt(ks[idx := g], idx, v);
    }
  }

  /**
   * `switch_places_with_predecessor` on distinct ordered keys: key `idx`
   * becomes the greatest key below child `idx`, whose in-order sequence now
   * ends with the value instead, and the search goes on in that child.
   */
  lemma PredSwapFacts(x: Node, idx: nat, t: nat, h: nat)
    requires Shape(x, t, h, 1) && h > 0 && 1 <= t && idx < |x.keys| && Ordered(InOrder(x), true)
    ensures var x2, c, v := SwapPredecessor(x, idx, t, h), x.children[idx], x.keys[idx];
      && InOrder(c) != []
      && x2.keys == x.keys[idx := InOrder(c)[|InOrder(c)| - 1]]
      && x2.children[idx := c] == x.children
      && InOrder(x2.children[idx]) == InOrder(c)[..|InOrder(c)| - 1] + [v]
      && Ordered(InOrder(x2.children[idx]), true)
      && ClosestChild(x2.keys, v) == idx + 1
  {
    ShapeWeaken(x.children[idx], t, h - 1, t, 1);
    PredSwapKeys(x, idx, t, h);
    PredSwapChild(x, idx, t, h);
  }

  /** The keys after `switch_places_with_predecessor`, and where the search goes on. */
  lemma PredSwapKeys(x: Node, idx: nat, t: nat, h: nat)
    requires Shape(x, t, h, 1) && h > 0 && 1 <= t && idx < |x.keys| && Ordered(InOrder(x), true)
    requires Shape(x.children[idx], t, h - 1, 1)
    ensures var x2, c, v := SwapPredecessor(x, idx, t, h), x.children[idx], x.keys[idx];
      && InOrder(c) != []
      && x2.keys == x.keys[idx := InOrder(c)[|InOrder(c)| - 1]]
      && ClosestChild(x2.keys, v) == idx + 1
  {
    SwapPredecessorParts(x, idx, t, h);
    PredKeyFacts(x, idx, t, h);
  }

  /** The child `switch_places_with_predecessor` changes. */
  lemma PredSwapChild(x: Node, idx: nat, t: nat, h: nat)
    requires Shape(x, t, h, 1) && h > 0 && 1 <= t && idx < |x.keys| && Ordered(InOrder(x), true)
    requires Shape(x.children[idx], t, h - 1, 1)
    ensures var x2, c, v := SwapPredecessor(x, idx, t, h), x.children[idx], x.keys[idx];
      && InOrder(c) != []
      && x2.children[idx := c] == x.children
      && InOrder(x2.children[idx]) == InOrder(c)[..|InOrder(c)| - 1] + [v]
      && Ordered(InOrder(x2.children[idx]), true)
  {
    SwapPredecessorParts(x, idx, t, h);
    PredBelow(x, idx, t, h);
  }

  /** The two parts `switch_places_with_predecessor` changes. */
  lemma SwapPredecessorParts(x: Node, idx: nat, t: nat, h: nat)
    requires Shape(x, t, h, 1) && h > 0 && 1 <= t && idx < |x.keys| && Shape(x.children[idx], t, h - 1, 1)
    ensures var c, v := x.children[idx], x.keys[idx];
      && SwapPredecessor(x, idx, t, h).keys == RemoveKey(AddKey(x.keys, Greatest(c, t, h - 1)), v)
      && SwapPredecessor(x, idx, t, h).children == x.children[idx := PutGreatest(c, v, t, h - 1)]
  {
  }

  /** The predecessor of key `idx` is the last key below child `idx`; it overwrites the key, and the value it replaces ends that child. */
  lemma PredKeyFacts(x: Node, idx: nat, t: nat, h: nat)
    requires Shape(x, t, h, 1) && h > 0 && 1 <= t && idx < |x.keys| && Ordered(InOrder(x), true)
    requires Shape(x.children[idx], t, h - 1, 1)
    ensures var c, v := x.children[idx], x.keys[idx];
      && InOrder(c) != []
      && var g := InOrder(c)[|InOrder(c)| - 1];
      && Greatest(c, t, h - 1) == g
      && RemoveKey(AddKey(x.keys, g), v) == x.keys[idx := g]
      && InOrder(PutGreatest(c, v, t, h - 1)) == InOrder(c)[..|InOrder(c)| - 1] + [v]
      && Ordered(InOrder(c)[..|InOrder(c)| - 1] + [v], true)
      && ClosestChild(x.keys[idx := g], v) == idx + 1
  {
    var c, v := x.children[idx], x.keys[idx];
    PredBelow(x, idx, t, h);
    NodeKeys(x, true);
    PredOverwrites(x.keys, idx, InOrder(c)[|InOrder(c)| - 1]);
  }

  /** Below child `idx`: the greatest key ends the in-order sequence and lies between the separators around the child. */
  lemma PredBelow(x: Node, idx: nat, t: nat, h: nat)
    requires Shape(x, t, h, 1) && h > 0 && 1 <= t && idx < |x.keys| && Ordered(InOrder(x), true)
    requires Shape(x.children[idx], t, h - 1, 1)
    ensures var c, v := x.children[idx], x.keys[idx];
      && InOrder(c) != []
      && var g := InOrder(c)[|InOrder(c)| - 1];
      && GreatestFits(c, v, t, h - 1)
      && Ordered(InOrder(c)[..|InOrder(c)| - 1] + [v], true)
      && g < v && (0 < idx ==> x.keys[idx - 1] < g)
  {
    var c, v := x.children[idx], x.keys[idx];
    ShapeInOrderNonEmpty(c, t, h - 1);
    LastBelowBounds(x, idx);
    GreatestContent(c, v, t, h - 1);
    var ic := InOrder(c);
    OrderedDropBeforeLast(ic, v, true);
    assert Le((ic + [v])[|ic| - 1], (ic + [v])[|ic|], true);
  }

  /** A key between key `idx - 1` and key `idx` overwrites key `idx` by sorted insertion and removal, and the search for the old key then goes right of it. */
  lemma PredOverwrites(ks: seq<int>, idx: nat, g: int)
    requires Ordered(ks, true) && idx < |ks| && (0 < idx ==> ks[idx - 1] < g) && g < ks[idx]
    ensures RemoveKey(AddKey(ks, g), ks[idx]) == ks[idx := g]
    ensures ClosestChild(ks[idx := g], ks[idx]) == idx + 1
  {
    if idx + 1 < |ks| {
      assert Le(ks[idx], ks[idx + 1], true);
    }
    ReplaceKey(ks, idx, g);
    ReplacedKeyRoute(ks, idx, g);
  }



  /** A subtree whose top node holds a key has a non-empty in-order sequence. */
  lemma ShapeInOrderNonEmpty(n: Node, t: nat, h: nat)
    requires Shape(n, t, h, 1)
    ensures InOrder(n) != []
  {
    if n.children != [] {
      KeysIn(n.keys, n.children);
      assert n.keys[0] in InOrder(n);
    }
  }


  /**
   * `switch_places_with_successor` on distinct ordered keys: key `idx`
   * becomes the least key below child `idx + 1`, whose in-order sequence now
   * starts with the value instead, and the search goes on in that child.
   */
  lemma SuccSwapFacts(x: Node, idx: nat, t: nat, h: nat)
    requires Shape(x, t, h, 1) && h > 0 && 1 <= t && idx < |x.keys| && Ordered(InOrder(x), true)
    ensures var x2, c, v := SwapSuccessor(x, idx, t, h), x.children[idx + 1], x.keys[idx];
      && InOrder(c) != []
      && x2.keys == x.keys[idx := InOrder(c)[0]]
      && x2.children[idx + 1 := c] == x.children
      && InOrder(x2.children[idx + 1]) == [v] + InOrder(c)[1..]
      && Ordered(InOrder(x2.children[idx + 1]), true)
      && ClosestChild(x2.keys, v) == idx
  {
    ShapeWeaken(x.children[idx + 1], t, h - 1, t, 1);
    SuccSwapKeys(x, idx, t, h);
    SuccSwapChild(x, idx, t, h);
  }

  /** The keys after `switch_places_with_successor`, and where the search goes on. */
  lemma SuccSwapKeys(x: Node, idx: nat, t: nat, h: nat)
    requires Shape(x, t, h, 1) && h > 0 && 1 <= t && idx < |x.keys| && Ordered(InOrder(x), true)
    requires Shape(x.children[idx + 1], t, h - 1, 1)
    ensures var x2, c, v := SwapSuccessor(x, idx, t, h), x.children[idx + 1], x.keys[idx];
      && InOrder(c) != []
      && x2.keys == x.keys[idx := InOrder(c)[0]]
      && ClosestChild(x2.keys, v) == idx
  {
    var c := x.children[idx + 1];
    SwapSuccessorParts(x, idx, t, h);
    SuccBelow(x, idx, t, h);
    NodeKeys(x, true);
    SuccOverwrites(x.keys, idx, InOrder(c)[0]);
  }

  /** The child `switch_places_with_successor` changes. */
  lemma SuccSwapChild(x: Node, idx: nat, t: nat, h: nat)
    requires Shape(x, t, h, 1) && h > 0 && 1 <= t && idx < |x.keys| && Ordered(InOrder(x), true)
    requires Shape(x.children[idx + 1], t, h - 1, 1)
    ensures var x2, c, v := SwapSuccessor(x, idx, t, h), x.children[idx + 1], x.keys[idx];
      && InOrder(c) != []
      && x2.children[idx + 1 := c] == x.children
      && InOrder(x2.children[idx + 1]) == [v] + InOrder(c)[1..]
      && Ordered(InOrder(x2.children[idx + 1]), true)
  {
    SwapSuccessorParts(x, idx, t, h);
    SuccBelow(x, idx, t, h);
  }

  /** The two parts `switch_places_with_successor` changes. */
  lemma SwapSuccessorParts(x: Node, idx: nat, t: nat, h: nat)
    requires Shape(x, t, h, 1) && h > 0 && 1 <= t && idx < |x.keys| && Shape(x.children[idx + 1], t, h - 1, 1)
    ensures var c, v := x.children[idx + 1], x.keys[idx];
      && SwapSuccessor(x, idx, t, h).keys == RemoveKey(AddKey(x.keys, Least(c, t, h - 1)), v)
      && SwapSuccessor(x, idx, t, h).children == x.children[idx + 1 := PutLeast(c, v, t, h - 1)]
  {
  }

  /** Below child `idx + 1`: the least key starts the in-order sequence and lies between the separators around the child. */
  lemma SuccBelow(x: Node, idx: nat, t: nat, h: nat)
    requires Shape(x, t, h, 1) && h > 0 && 1 <= t && idx < |x.keys| && Ordered(InOrder(x), true)
    requires Shape(x.children[idx + 1], t, h - 1, 1)
    ensures var c, v := x.children[idx + 1], x.keys[idx];
      && InOrder(c) != []
      && var s := InOrder(c)[0];
      && LeastFits(c, v, t, h - 1)
      && Ordered([v] + InOrder(c)[1..], true)
      && v < s && (idx + 1 < |x.keys| ==> s < x.keys[idx + 1])
  {
    var c, v := x.children[idx + 1], x.keys[idx];
    ShapeInOrderNonEmpty(c, t, h - 1);
    FirstBelowBounds(x, idx);
    LeastContent(c, v, t, h - 1);
    var ic := InOrder(c);
    OrderedDropAfterFirst(ic, v, true);
    assert Le(([v] + ic)[0], ([v] + ic)[1], true);
  }

  /** A key between key `idx` and key `idx + 1` overwrites key `idx` by sorted insertion and removal, and the search for the old key then goes left of it. */
  lemma SuccOverwrites(ks: seq<int>, idx: nat, s: int)
    requires Ordered(ks, true) && idx < |ks| && ks[idx] < s && (idx + 1 < |ks| ==> s < ks[idx + 1])
    ensures RemoveKey(AddKey(ks, s), ks[idx]) == ks[idx := s]
    ensures ClosestChild(ks[idx := s], ks[idx]) == idx
  {
    if 0 < idx {
      assert Le(ks[idx - 1], ks[idx], true);
    }
    ReplaceKey(ks, idx, s);
    ReplacedKeyRoute(ks, idx, s);
  }

  // ---------------------------------------------------------------------------
  // The whole deletion.

  /** `d` is the outcome of deleting `v` from a subtree reading `s`: `v` removed once, and found exactly when it was there. */
  predicate Meets(d: Deleted, s: seq<int>, v: int) {
    InOrder(d.n) == RemoveKey(s, v) && (d.found <==> v in s)
  }

  /** A value that is not a key lies between the separators around the child the search picks. */
  lemma AbsentBetween(x: Node, v: int)
    requires Inner(x) && v !in x.keys
    ensures Between(x, ClosestChild(x.keys, v), v)
  {
    var j := ClosestChild(x.keys, v);
    if 0 < j {
      assert x.keys[j - 1] <= v && x.keys[j - 1] in x.keys;
    }
  }

  /** Deleting `v` from the child whose slot holds `v` deletes it from the parent. */
  lemma WrapContent(q: Node, i: nat, v: int, d: Deleted)
    requires Between(q, i, v) && Ordered(InOrder(q), true) && Meets(d, InOrder(q.children[i]), v)
    ensures Meets(Deleted(Node(q.keys, q.children[i := d.n]), d.found), InOrder(q), v)
  {
    var b, c, a := Before(q.keys, q.children, i), InOrder(q.children[i]), After(q.keys, q.children, i);
    InOrderReplace(q, i, d.n);
    NodeHole(q, i);
    StrictIsOrdered(InOrder(q));
    SlotBounds(q, i);
    forall k | 0 <= k < |b| ensures b[k] != v {
      assert Le(b[k], q.keys[i - 1], false);
    }
    forall k | 0 <= k < |a| ensures a[k] != v {
      assert Le(q.keys[i], a[k], false);
    }
    assert v in b + c + a <==> v in c;
    RemoveKeyMiddle(b, c, a, v);
  }

  /** A merge of the two children around the value keeps the keys, with the value in the merged child's slot. */
  lemma DelMergeContent(x: Node, idx: nat, t: nat, h: nat)
    requires Shape(x, t, h, 1) && h > 0 && idx < |x.keys| && Ordered(InOrder(x), true)
    requires |x.children[idx].keys| == t && |x.children[idx + 1].keys| == t
    ensures var f := Settle(MergeLeft(x, idx + 1), idx);
      && (f.Fixed? ==> InOrder(f.p) == InOrder(x) && Between(f.p, f.j, x.keys[idx]))
      && (f.Collapsed? ==> InOrder(f.c) == InOrder(x))
  {
    var v := x.keys[idx];
    ShapeSiblings(x, idx, t, h, 1);
    MergeLeftMerges(x, idx + 1);
    MergeInOrder(x, idx);
    NodeKeys(x, true);
    if 0 < idx {
      assert Le(x.keys[idx - 1], x.keys[idx], true);
    }
    if idx + 1 < |x.keys| {
      assert Le(x.keys[idx], x.keys[idx + 1], true);
    }
    MergedSlot(x, idx, v);
    if Merge(x, idx).keys == [] {
      CollapsedInOrder(Merge(x, idx), idx);
    }
  }

  /**
   * Deleting `v` from a B-tree node whose keys are distinct and in order
   * removes `v` from its in-order sequence, and reports it found exactly when
   * it was there.
   */
  lemma {:induction false} DelContent(x: Node, v: int, t: nat, h: nat)
    requires Shape(x, t, h, 1) && 1 <= t && Ordered(InOrder(x), true)
    ensures Meets(Del(x, v, t, h), InOrder(x), v)
    decreases h, 2
  {
    var idx := IndexOf(x.keys, v);
    if x.children == [] {
    } else if idx == -1 {
      DelAbsent(x, v, t, h);
    } else if |x.children[idx].keys| != t {
      DelPred(x, v, idx, t, h);
    } else if |x.children[idx + 1].keys| != t {
      DelSucc(x, v, idx, t, h);
    } else {
      DelMerge(x, v, idx, t, h);
    }
  }

  /** A value that is not a key of an internal node is deleted below the fixed child it belongs in. */
  lemma {:induction false} DelAbsent(x: Node, v: int, t: nat, h: nat)
    requires Shape(x, t, h, 1) && 1 <= t && Ordered(InOrder(x), true) && x.children != [] && v !in x.keys
    ensures Meets(Del(x, v, t, h), InOrder(x), v)
    decreases h, 1
  {
    var j := ClosestChild(x.keys, v);
    AbsentBetween(x, v);
    ChildrenHoldKeys(x, t, h, 1);
    ShapeKin(x, t, h, 1);
    FixContent(x, j, t, v);
    FixReady(x, j, t, h);
    Below(Fix(x, j, t), v, t, h, InOrder(x));
    assert Del(x, v, t, h) == Descend(x, v, j, t, h);
  }

  /** A value whose left child can spare a key changes places with its predecessor and is deleted below. */
  lemma {:induction false} DelPred(x: Node, v: int, idx: nat, t: nat, h: nat)
    requires Shape(x, t, h, 1) && 1 <= t && Ordered(InOrder(x), true) && x.children != []
    requires idx < |x.keys| && IndexOf(x.keys, v) == idx && |x.children[idx].keys| != t
    ensures Meets(Del(x, v, t, h), InOrder(x), v)
    decreases h, 1
  {
    var x2 := SwapPredecessor(x, idx, t, h);
    PredUnfold(x, v, idx, t, h);
    PredSwapFacts(x, idx, t, h);
    PredDown(x, x2, v, idx, t, h);
  }

  /** A value whose right child can spare a key changes places with its successor and is deleted below. */
  lemma {:induction false} DelSucc(x: Node, v: int, idx: nat, t: nat, h: nat)
    requires Shape(x, t, h, 1) && 1 <= t && Ordered(InOrder(x), true) && x.children != []
    requires idx < |x.keys| && IndexOf(x.keys, v) == idx
    requires |x.children[idx].keys| == t && |x.children[idx + 1].keys| != t
    ensures Meets(Del(x, v, t, h), InOrder(x), v)
    decreases h, 1
  {
    var x2 := SwapSuccessor(x, idx, t, h);
    SuccUnfold(x, v, idx, t, h);
    SuccSwapFacts(x, idx, t, h);
    SuccDown(x, x2, v, idx, t, h);
  }

  /** A value between two children at the minimum is merged down with them and deleted below. */
  lemma {:induction false} DelMerge(x: Node, v: int, idx: nat, t: nat, h: nat)
    requires Shape(x, t, h, 1) && 1 <= t && Ordered(InOrder(x), true) && x.children != []
    requires idx < |x.keys| && IndexOf(x.keys, v) == idx
    requires |x.children[idx].keys| == t && |x.children[idx + 1].keys| == t
    ensures Meets(Del(x, v, t, h), InOrder(x), v)
    decreases h, 1
  {
    MergeReady(x, idx + 1, t, h);
    DelMergeContent(x, idx, t, h);
    Below(Settle(MergeLeft(x, idx + 1), idx), v, t, h, InOrder(x));
  }

  /** Going on below a fixed parent, or in the node that replaced it, deletes `v` from the whole. */
  lemma {:induction false} Below(f: Fixed, v: int, t: nat, h: nat, s: seq<int>)
    requires h > 0 && 1 <= t && Ready(f, t, h) && Ordered(s, true)
    requires f.Fixed? ==> InOrder(f.p) == s && Between(f.p, f.j, v)
    requires f.Collapsed? ==> InOrder(f.c) == s
    ensures Meets(Continue(f, v, t, h), s, v)
    decreases h, 0
  {
    match f
    case Fixed(q, i) =>
      ChildOrdered(q, i, true);
      DelContent(q.children[i], v, t, h - 1);
      WrapContent(q, i, v, Del(q.children[i], v, t, h - 1));
    case Collapsed(c) =>
      DelContent(c, v, t, h - 1);
  }

  /** Going on below child `idx` of the node after the swap with the predecessor deletes `v` from the node before the swap. */
  lemma {:induction false} PredDown(x: Node, x2: Node, v: int, idx: nat, t: nat, h: nat)
    requires Inner(x) && Ordered(InOrder(x), true) && idx < |x.keys| && x.keys[idx] == v
    requires h > 0 && 1 <= t && Ready(Fixed(x2, idx), t, h)
    requires var ic := InOrder(x.children[idx]);
      && ic != [] && x2.keys == x.keys[idx := ic[|ic| - 1]]
      && x2.children[idx := x.children[idx]] == x.children
      && InOrder(x2.children[idx]) == ic[..|ic| - 1] + [v] && Ordered(InOrder(x2.children[idx]), true)
    ensures Meets(Continue(Fixed(x2, idx), v, t, h), InOrder(x), v)
    decreases h, 0
  {
    var c2 := x2.children[idx];
    DelContent(c2, v, t, h - 1);
    PredFinish(x, v, idx, x2.keys, x2.children, Del(c2, v, t, h - 1));
  }

  /** Going on below child `idx + 1` of the node after the swap with the successor deletes `v` from the node before the swap. */
  lemma {:induction false} SuccDown(x: Node, x2: Node, v: int, idx: nat, t: nat, h: nat)
    requires Inner(x) && Ordered(InOrder(x), true) && idx < |x.keys| && x.keys[idx] == v
    requires h > 0 && 1 <= t && Ready(Fixed(x2, idx + 1), t, h)
    requires var ic := InOrder(x.children[idx + 1]);
      && ic != [] && x2.keys == x.keys[idx := ic[0]]
      && x2.children[idx + 1 := x.children[idx + 1]] == x.children
      && InOrder(x2.children[idx + 1]) == [v] + ic[1..] && Ordered(InOrder(x2.children[idx + 1]), true)
    ensures Meets(Continue(Fixed(x2, idx + 1), v, t, h), InOrder(x), v)
    decreases h, 0
  {
    var c2 := x2.children[idx + 1];
    DelContent(c2, v, t, h - 1);
    SuccFinish(x, v, idx, x2.keys, x2.children, Del(c2, v, t, h - 1));
  }

  /** The predecessor in place of `v` and `v` deleted from below child `idx`: `v` is deleted from the node. */
  lemma PredFinish(x: Node, v: int, idx: nat, ks2: seq<int>, cs2: seq<Node>, d: Deleted)
    requires Inner(x) && Ordered(InOrder(x), true) && idx < |x.keys| && x.keys[idx] == v
    requires var ic := InOrder(x.children[idx]);
      && ic != [] && ks2 == x.keys[idx := ic[|ic| - 1]]
      && idx < |cs2| && cs2[idx := x.children[idx]] == x.children
      && InOrder(cs2[idx]) == ic[..|ic| - 1] + [v] && Ordered(InOrder(cs2[idx]), true)
    requires Meets(d, InOrder(cs2[idx]), v)
    ensures Meets(Deleted(Node(ks2, cs2[idx := d.n]), d.found), InOrder(x), v)
  {
    assert cs2[idx := d.n] == x.children[idx := d.n];
    PredResult(x, v, idx, d.n);
    NodeKeys(x, true);
  }

  /** One pass of the loop at a node whose value changes places with its predecessor. */
  lemma PredUnfold(x: Node, v: int, idx: nat, t: nat, h: nat)
    requires Shape(x, t, h, 1) && h > 0 && 1 <= t && Ordered(InOrder(x), true)
    requires idx < |x.keys| && IndexOf(x.keys, v) == idx && |x.children[idx].keys| != t
    ensures var f := Fixed(SwapPredecessor(x, idx, t, h), idx);
      Ready(f, t, h) && Del(x, v, t, h) == Continue(f, v, t, h)
  {
    PredDescend(x, v, idx, t, h);
    PredDel(x, v, idx, t, h);
  }

  /** After the swap with the predecessor, the descent into child `idx` is one more pass of the loop. */
  lemma PredDescend(x: Node, v: int, idx: nat, t: nat, h: nat)
    requires Shape(x, t, h, 1) && h > 0 && 1 <= t && Ordered(InOrder(x), true)
    requires idx < |x.keys| && IndexOf(x.keys, v) == idx && |x.children[idx].keys| != t
    ensures var x2 := SwapPredecessor(x, idx, t, h);
      Ready(Fixed(x2, idx), t, h) && Descend(x2, v, idx, t, h) == Continue(Fixed(x2, idx), v, t, h)
  {
    var x2 := SwapPredecessor(x, idx, t, h);
    ShapeWeaken(x.children[idx], t, h - 1, t, 1);
    SwapPredecessorParts(x, idx, t, h);
    DescendLarge(x2, v, idx, t, h);
  }

  /** At a node holding `v` whose left child can spare a key, the loop swaps with the predecessor and descends left. */
  lemma PredDel(x: Node, v: int, idx: nat, t: nat, h: nat)
    requires Shape(x, t, h, 1) && h > 0 && 1 <= t && Ordered(InOrder(x), true)
    requires idx < |x.keys| && IndexOf(x.keys, v) == idx && |x.children[idx].keys| != t
    ensures Del(x, v, t, h) == Descend(SwapPredecessor(x, idx, t, h), v, idx, t, h)
  {
    ShapeWeaken(x.children[idx], t, h - 1, t, 1);
    PredSwapKeys(x, idx, t, h);
    PredBranch(x, v, idx, idx, t, h);
  }

  /** The node with the predecessor in place of `v` and `v` deleted from below child `idx` reads as the node without `v`. */
  lemma PredResult(x: Node, v: int, idx: nat, dn: Node)
    requires Inner(x) && Ordered(InOrder(x), true) && idx < |x.keys| && x.keys[idx] == v
    requires var ic := InOrder(x.children[idx]);
      && ic != [] && Ordered(ic[..|ic| - 1] + [v], true)
      && InOrder(dn) == RemoveKey(ic[..|ic| - 1] + [v], v)
    ensures var ic := InOrder(x.children[idx]);
      InOrder(Node(x.keys[idx := ic[|ic| - 1]], x.children[idx := dn])) == RemoveKey(InOrder(x), v)
  {
    var ic := InOrder(x.children[idx]);
    LastNotBefore(ic[..|ic| - 1], v);
    RemoveKeyLast(ic[..|ic| - 1], v);
    assert InOrder(dn) + [ic[|ic| - 1]] == ic;
    PredWrap(x, idx, dn, ic[|ic| - 1]);
  }

  /** The successor in place of `v` and `v` deleted from below child `idx + 1`: `v` is deleted from the node. */
  lemma SuccFinish(x: Node, v: int, idx: nat, ks2: seq<int>, cs2: seq<Node>, d: Deleted)
    requires Inner(x) && Ordered(InOrder(x), true) && idx < |x.keys| && x.keys[idx] == v
    requires var ic := InOrder(x.children[idx + 1]);
      && ic != [] && ks2 == x.keys[idx := ic[0]]
      && idx + 1 < |cs2| && cs2[idx + 1 := x.children[idx + 1]] == x.children
      && InOrder(cs2[idx + 1]) == [v] + ic[1..]
    requires Meets(d, InOrder(cs2[idx + 1]), v)
    ensures Meets(Deleted(Node(ks2, cs2[idx + 1 := d.n]), d.found), InOrder(x), v)
  {
    assert cs2[idx + 1 := d.n] == x.children[idx + 1 := d.n];
    SuccResult(x, v, idx, d.n);
    NodeKeys(x, true);
  }

  /** One pass of the loop at a node whose value changes places with its successor. */
  lemma SuccUnfold(x: Node, v: int, idx: nat, t: nat, h: nat)
    requires Shape(x, t, h, 1) && h > 0 && 1 <= t && Ordered(InOrder(x), true)
    requires idx < |x.keys| && IndexOf(x.keys, v) == idx
    requires |x.children[idx].keys| == t && |x.children[idx + 1].keys| != t
    ensures var f := Fixed(SwapSuccessor(x, idx, t, h), idx + 1);
      Ready(f, t, h) && Del(x, v, t, h) == Continue(f, v, t, h)
  {
    var x2 := SwapSuccessor(x, idx, t, h);
    assert Ready(Fixed(x2, idx + 1), t, h) && Descend(x2, v, idx + 1, t, h) == Continue(Fixed(x2, idx + 1), v, t, h) by {
      ShapeWeaken(x.children[idx + 1], t, h - 1, t, 1);
      SwapSuccessorParts(x, idx, t, h);
      DescendLarge(x2, v, idx + 1, t, h);
    }
    assert Del(x, v, t, h) == Descend(x2, v, idx + 1, t, h) by {
      ShapeWeaken(x.children[idx + 1], t, h - 1, t, 1);
      SuccSwapKeys(x, idx, t, h);
      SuccBranch(x, v, idx, idx + 1, t, h);
    }
  }

  /** The node with the successor in place of `v` and `v` deleted from below child `idx + 1` reads as the node without `v`. */
  lemma SuccResult(x: Node, v: int, idx: nat, dn: Node)
    requires Inner(x) && Ordered(InOrder(x), true) && idx < |x.keys| && x.keys[idx] == v
    requires var ic := InOrder(x.children[idx + 1]);
      && ic != [] && InOrder(dn) == RemoveKey([v] + ic[1..], v)
    ensures var ic := InOrder(x.children[idx + 1]);
      InOrder(Node(x.keys[idx := ic[0]], x.children[idx + 1 := dn])) == RemoveKey(InOrder(x), v)
  {
    var ic := InOrder(x.children[idx + 1]);
    RemoveKeyFirst(ic[1..], v);
    assert [ic[0]] + InOrder(dn) == ic;
    SuccWrap(x, idx, dn, ic[0]);
  }
}
