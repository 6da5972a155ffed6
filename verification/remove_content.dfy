/**
 * What bottom-up removal does to the keys: on a tree with distinct keys in
 * order, the separator `combined` finds by value is the one between the short
 * child and its sibling, the sorted insertions it performs are the positional
 * rotations and merges, and so the whole removal takes out exactly the value,
 * when it is there, and leaves everything else in order.
 */
module RemoveContent {
  import opened Seqs
  import opened Nodes
  import opened Rebalance
  import opened Search
  import opened Delete
  import opened DeleteContent
  import opened Remove
  import opened RemoveShape

  // ---------------------------------------------------------------------------
  // The separator found by value.

  /** On ordered keys `getIndexOfPreviousValue` of a value just above key `i` finds key `i`. */
  lemma PreviousIndexAt(ks: seq<int>, i: nat, w: int)
    requires Ordered(ks, false) && i < |ks| && ks[i] < w && (i + 1 < |ks| ==> w <= ks[i + 1])
    ensures PreviousIndex(ks, w) == i
  {
  }

  /** On ordered keys `getIndexOfNextValue` of a value just below key `j` finds key `j`. */
  lemma NextIndexAt(ks: seq<int>, j: nat, w: int)
    requires Ordered(ks, false) && j < |ks| && w <= ks[j] && (0 < j ==> ks[j - 1] < w)
    ensures NextIndex(ks, w) == j
  {
  }

  /** Sorted insertion of keys that belong between `A` and `B` puts them there. */
  lemma {:induction false} AddAllInsert(A: seq<int>, vs: seq<int>, B: seq<int>)
    requires Ordered(A + vs + B, false)
    ensures AddAll(A + B, vs) == A + vs + B
    decreases |vs|
  {
    if vs != [] {
      var v, rest, all := vs[0], vs[1..], A + vs + B;
      assert all == (A + [v]) + rest + B;
      assert all[|A|] == v;
      if A != [] {
        assert all[|A| - 1] == A[|A| - 1] && Le(all[|A| - 1], all[|A|], false);
      }
      if B != [] {
        assert all[|A| + |vs|] == B[0] && Le(all[|A|], all[|A| + |vs|], false);
      }
      OrderedDropMiddle(A, vs, B);
      AddKeyInsert(A + B, |A|, v);
      assert InsertAt(A + B, |A|, v) == (A + [v]) + B;
      AddAllInsert(A + [v], rest, B);
    }
  }

  /** Leaving out the middle of an ordered sequence keeps it ordered. */
  lemma OrderedDropMiddle(a: seq<int>, m: seq<int>, b: seq<int>)
    requires Ordered(a + m + b, false)
    ensures Ordered(a + b, false)
  {
    OrderedParts(a + m, b, false);
    OrderedParts(a, m, false);
    forall i, j | 0 <= i < |a| && 0 <= j < |b| ensures Le(a[i], b[j], false) {
      assert (a + m + b)[i] == a[i] && (a + m + b)[|a| + |m| + j] == b[j];
    }
    OrderedAppend(a, b, false);
  }

  // ---------------------------------------------------------------------------
  // `combined` is the positional rebalancing.

  /** The first key of child `i + 1` leads `getIndexOfPreviousValue` to separator `i`. */
  lemma SeparatorOnRight(p: Node, i: nat)
    requires Inner(p) && i + 1 < |p.children| && Ordered(InOrder(p), true)
    requires Wf(p.children[i + 1]) && p.children[i + 1].keys != []
    ensures PreviousIndex(p.keys, p.children[i + 1].keys[0]) == i
  {
    var r := p.children[i + 1];
    NodeKeys(p, true);
    StrictIsOrdered(p.keys);
    ChildKeyBounds(p, i + 1);
    if i + 1 < |p.keys| {
      assert Le(r.keys[0], r.keys[|r.keys| - 1], false) by {
        StrictIsOrdered(r.keys);
      }
    }
    PreviousIndexAt(p.keys, i, r.keys[0]);
  }

  /** The last key of child `i - 1` leads `getIndexOfNextValue` to separator `i - 1`. */
  lemma SeparatorOnLeft(p: Node, i: nat)
    requires Inner(p) && 0 < i < |p.children| && Ordered(InOrder(p), true)
    requires Wf(p.children[i - 1]) && p.children[i - 1].keys != []
    ensures NextIndex(p.keys, p.children[i - 1].keys[|p.children[i - 1].keys| - 1]) == i - 1
  {
    var l := p.children[i - 1];
    NodeKeys(p, true);
    StrictIsOrdered(p.keys);
    ChildKeyBounds(p, i - 1);
    if 1 < i {
      assert Le(l.keys[0], l.keys[|l.keys| - 1], false) by {
        StrictIsOrdered(l.keys);
      }
    }
    NextIndexAt(p.keys, i - 1, l.keys[|l.keys| - 1]);
  }

  /** On distinct ordered keys borrowing from the right sibling through separator `i` is the rotation. */
  lemma BorrowRightRotates(p: Node, i: nat)
    requires Inner(p) && i + 1 < |p.children| && Ordered(InOrder(p), true)
    requires Siblings(p.children[i], p.children[i + 1]) && p.children[i + 1].keys != []
    ensures BorrowRight(p, i, i) == RotateLeft(p, i)
  {
    assert BorrowRight(p, i, i) == ShiftFromRight(p, i);
    ShiftFromRightRotates(p, i);
  }

  /** On distinct ordered keys borrowing from the left sibling `k` through separator `k` is the rotation. */
  lemma BorrowLeftRotates(p: Node, k: nat)
    requires Inner(p) && k + 1 < |p.children| && Ordered(InOrder(p), true)
    requires Siblings(p.children[k], p.children[k + 1]) && p.children[k].keys != []
    ensures BorrowLeft(p, k + 1, k) == RotateRight(p, k)
  {
    assert BorrowLeft(p, k + 1, k) == ShiftFromLeft(p, k);
    ShiftFromLeftRotates(p, k);
  }

  /** The keys of two siblings joined around their separator are in order. */
  lemma JoinOrdered(p: Node, i: nat)
    requires Inner(p) && i + 1 < |p.children| && Ordered(InOrder(p), true)
    requires Siblings(p.children[i], p.children[i + 1])
    ensures Ordered(p.children[i].keys + [p.keys[i]] + p.children[i + 1].keys, false)
  {
    var l, k, r := p.children[i], p.keys[i], p.children[i + 1];
    var b, a := Before(p.keys, p.children, i), After(p.keys, p.children, i + 1);
    NodeWindow(p, i);
    JoinInOrder(l, k, r);
    assert InOrder(p) == b + InOrder(Join(l, k, r)) + a;
    OrderedParts(b + InOrder(Join(l, k, r)), a, true);
    OrderedParts(b, InOrder(Join(l, k, r)), true);
    NodeKeys(Join(l, k, r), true);
    StrictIsOrdered(Join(l, k, r).keys);
  }

  /** Sorted insertion of keys above all of `A` appends them. */
  lemma AddAllBack(A: seq<int>, vs: seq<int>)
    requires Ordered(A + vs, false)
    ensures AddAll(A, vs) == A + vs
  {
    assert A + vs + [] == A + vs && A + [] == A;
    AddAllInsert(A, vs, []);
  }

  /** Sorted insertion of keys below all of `B` puts them in front. */
  lemma AddAllFront(vs: seq<int>, B: seq<int>)
    requires Ordered(vs + B, false)
    ensures AddAll(B, vs) == vs + B
  {
    assert [] + vs + B == vs + B && [] + B == B;
    AddAllInsert([], vs, B);
  }

  /** On distinct ordered keys merging with the right sibling around separator `i` is the positional merge. */
  lemma CombineRightMerges(p: Node, i: nat)
    requires Inner(p) && i + 1 < |p.children| && Ordered(InOrder(p), true)
    requires Siblings(p.children[i], p.children[i + 1])
    ensures CombineRight(p, i, i) == Merge(p, i)
  {
    var n, k, r := p.children[i], p.keys[i], p.children[i + 1];
    SeparatorAtBack(p, i);
    JoinOrdered(p, i);
    AddAllBack(n.keys + [k], r.keys);
  }

  /** The keys the merged node takes from the left sibling and the separator, by sorted insertion, are the joined keys. */
  lemma LeftJoinKeys(p: Node, i: nat)
    requires Inner(p) && 0 < i < |p.children| && Ordered(InOrder(p), true)
    requires Siblings(p.children[i - 1], p.children[i])
    ensures var l, k, n := p.children[i - 1], p.keys[i - 1], p.children[i];
      AddAll(AddKey(n.keys, k), l.keys) == l.keys + [k] + n.keys
  {
    var l, k, n := p.children[i - 1], p.keys[i - 1], p.children[i];
    SeparatorInFront(p, i - 1);
    JoinOrdered(p, i - 1);
    assert l.keys + [k] + n.keys == l.keys + ([k] + n.keys);
    AddAllFront(l.keys, [k] + n.keys);
  }

  /** On distinct ordered keys merging with the left sibling around separator `i - 1` is the positional merge. */
  lemma CombineLeftMerges(p: Node, i: nat)
    requires Inner(p) && 0 < i < |p.children| && Ordered(InOrder(p), true)
    requires Siblings(p.children[i - 1], p.children[i])
    ensures CombineLeft(p, i, i - 1) == Merge(p, i - 1)
  {
    LeftJoinKeys(p, i);
  }

  /** The children of a node are well formed and all of one kind; unlike `Kin`, a child may be without keys. */
  predicate Alike(p: Node)
    requires p.children != []
  {
    forall j :: 0 <= j < |p.children| ==>
      Wf(p.children[j]) && (p.children[j].children == [] <==> p.children[0].children == [])
  }

  /** Neighbouring children that are alike are siblings. */
  lemma AlikeSiblings(p: Node, i: nat)
    requires p.children != [] && Alike(p) && i + 1 < |p.children|
    ensures Siblings(p.children[i], p.children[i + 1])
  {
    assert Wf(p.children[i]) && (p.children[i].children == [] <==> p.children[0].children == []);
    assert Wf(p.children[i + 1]) && (p.children[i + 1].children == [] <==> p.children[0].children == []);
  }

  /** The children of a node with one short child are alike. */
  lemma ShortAlike(p: Node, i: nat, t: nat, h: nat, lo: nat)
    requires Short(p, i, t, h, lo)
    ensures p.children != [] && Alike(p)
  {
    forall j | 0 <= j < |p.children|
      ensures Wf(p.children[j]) && (p.children[j].children == [] <==> p.children[0].children == [])
    {
      var g: nat := h - 1;
      assert Shape(p.children[j], t, g, if j == i then t - 1 else t);
      assert Shape(p.children[0], t, g, if 0 == i then t - 1 else t);
    }
  }

  /** On distinct ordered keys borrowing from the right sibling through the separator after the child keeps the in-order sequence. */
  lemma BorrowRightContent(p: Node, i: nat)
    requires Inner(p) && i + 1 < |p.children| && Ordered(InOrder(p), true)
    requires Siblings(p.children[i], p.children[i + 1]) && p.children[i + 1].keys != []
    ensures InOrder(BorrowRight(p, i, PreviousIndex(p.keys, p.children[i + 1].keys[0]))) == InOrder(p)
  {
    SeparatorOnRight(p, i);
    BorrowRightRotates(p, i);
    RotateLeftInOrder(p, i);
  }

  /** On distinct ordered keys borrowing from the left sibling through the separator before the child keeps the in-order sequence. */
  lemma BorrowLeftContent(p: Node, i: nat)
    requires Inner(p) && 0 < i < |p.children| && Ordered(InOrder(p), true)
    requires Siblings(p.children[i - 1], p.children[i]) && p.children[i - 1].keys != []
    ensures InOrder(BorrowLeft(p, i, NextIndex(p.keys, p.children[i - 1].keys[|p.children[i - 1].keys| - 1]))) == InOrder(p)
  {
    SeparatorOnLeft(p, i);
    BorrowLeftRotates(p, i - 1);
    RotateRightInOrder(p, i - 1);
  }

  /** On distinct ordered keys merging with the right sibling around the separator after the child keeps the in-order sequence. */
  lemma CombineRightContent(p: Node, i: nat)
    requires Inner(p) && i + 1 < |p.children| && Ordered(InOrder(p), true)
    requires Siblings(p.children[i], p.children[i + 1]) && p.children[i + 1].keys != []
    ensures InOrder(CombineRight(p, i, PreviousIndex(p.keys, p.children[i + 1].keys[0]))) == InOrder(p)
  {
    SeparatorOnRight(p, i);
    CombineRightMerges(p, i);
    MergeInOrder(p, i);
  }

  /** On distinct ordered keys merging with the left sibling around the separator before the child keeps the in-order sequence. */
  lemma CombineLeftContent(p: Node, i: nat)
    requires Inner(p) && 0 < i < |p.children| && Ordered(InOrder(p), true)
    requires Siblings(p.children[i - 1], p.children[i]) && p.children[i - 1].keys != []
    ensures InOrder(CombineLeft(p, i, NextIndex(p.keys, p.children[i - 1].keys[|p.children[i - 1].keys| - 1]))) == InOrder(p)
  {
    SeparatorOnLeft(p, i);
    CombineLeftMerges(p, i);
    MergeInOrder(p, i - 1);
  }

  /** Borrowing from or merging with the right sibling, through the separator after the child, keeps the in-order sequence. */
  lemma RightContent(p: Node, i: nat)
    requires Neighbours(p, i) && Alike(p) && Ordered(InOrder(p), true) && i + 1 < |p.children|
    ensures InOrder(BorrowRight(p, i, PreviousIndex(p.keys, p.children[i + 1].keys[0]))) == InOrder(p)
    ensures InOrder(CombineRight(p, i, PreviousIndex(p.keys, p.children[i + 1].keys[0]))) == InOrder(p)
  {
    AlikeSiblings(p, i);
    BorrowRightContent(p, i);
    CombineRightContent(p, i);
  }

  /** Borrowing from or merging with the left sibling, through the separator before the child, keeps the in-order sequence. */
  lemma LeftContent(p: Node, i: nat)
    requires Neighbours(p, i) && Alike(p) && Ordered(InOrder(p), true) && 0 < i
    ensures InOrder(BorrowLeft(p, i, NextIndex(p.keys, p.children[i - 1].keys[|p.children[i - 1].keys| - 1]))) == InOrder(p)
    ensures InOrder(CombineLeft(p, i, NextIndex(p.keys, p.children[i - 1].keys[|p.children[i - 1].keys| - 1]))) == InOrder(p)
  {
    AlikeSiblings(p, i - 1);
    BorrowLeftContent(p, i);
    CombineLeftContent(p, i);
  }

  /** Mending as the plan `TakeRight` says keeps the in-order sequence when the operation it names does. */
  lemma TakeRightContent(p: Node, i: nat, t: nat)
    requires Neighbours(p, i) && |p.children[i].keys| < t && Plan(p, i, t).TakeRight?
    requires var s := Plan(p, i, t).s; i + 1 < |p.children| && s < |p.keys| && InOrder(BorrowRight(p, i, s)) == InOrder(p)
    ensures InOrder(Mend(p, i, t)) == InOrder(p)
  {
    MendTakesRight(p, i, t);
  }

  /** Mending as the plan `TakeLeft` says keeps the in-order sequence when the operation it names does. */
  lemma TakeLeftContent(p: Node, i: nat, t: nat)
    requires Neighbours(p, i) && |p.children[i].keys| < t && Plan(p, i, t).TakeLeft?
    requires var s := Plan(p, i, t).s; 0 < i && s < |p.keys| && InOrder(BorrowLeft(p, i, s)) == InOrder(p)
    ensures InOrder(Mend(p, i, t)) == InOrder(p)
  {
    MendTakesLeft(p, i, t);
  }

  /** Mending as the plan `JoinRight` says keeps the in-order sequence when the operation it names does. */
  lemma JoinRightContent(p: Node, i: nat, t: nat)
    requires Neighbours(p, i) && |p.children[i].keys| < t && Plan(p, i, t).JoinRight?
    requires var s := Plan(p, i, t).s; i + 1 < |p.children| && s < |p.keys| && InOrder(CombineRight(p, i, s)) == InOrder(p)
    ensures InOrder(Mend(p, i, t)) == InOrder(p)
  {
    MendJoinsRight(p, i, t);
  }

  /** Mending as the plan `JoinLeft` says keeps the in-order sequence when the operation it names does. */
  lemma JoinLeftContent(p: Node, i: nat, t: nat)
    requires Neighbours(p, i) && |p.children[i].keys| < t && Plan(p, i, t).JoinLeft?
    requires var s := Plan(p, i, t).s; 0 < i && s < |p.keys| && InOrder(CombineLeft(p, i, s)) == InOrder(p)
    ensures InOrder(Mend(p, i, t)) == InOrder(p)
  {
    MendJoinsLeft(p, i, t);
  }

  /** Each way of mending child `i` that `combined` may choose keeps the in-order sequence. */
  predicate SidesKeep(p: Node, i: nat)
    requires Neighbours(p, i)
  {
    && (i + 1 < |p.children| ==>
          && InOrder(BorrowRight(p, i, PreviousIndex(p.keys, p.children[i + 1].keys[0]))) == InOrder(p)
          && InOrder(CombineRight(p, i, PreviousIndex(p.keys, p.children[i + 1].keys[0]))) == InOrder(p))
    && (0 < i ==>
          && InOrder(BorrowLeft(p, i, NextIndex(p.keys, p.children[i - 1].keys[|p.children[i - 1].keys| - 1]))) == InOrder(p)
          && InOrder(CombineLeft(p, i, NextIndex(p.keys, p.children[i - 1].keys[|p.children[i - 1].keys| - 1]))) == InOrder(p))
  }

  /** In a node with distinct ordered keys and children alike, every way of mending keeps the in-order sequence. */
  lemma SidesContent(p: Node, i: nat)
    requires Neighbours(p, i) && Alike(p) && Ordered(InOrder(p), true)
    ensures SidesKeep(p, i)
  {
    if i + 1 < |p.children| {
      RightContent(p, i);
    }
    if 0 < i {
      LeftContent(p, i);
    }
  }

  /**
   * `combined`, and so mending child `i`, keeps the in-order sequence when
   * the borrows and merges through the separators next to the child do.
   */
  lemma MendContent(p: Node, i: nat, t: nat)
    requires Neighbours(p, i) && SidesKeep(p, i)
    ensures InOrder(Mend(p, i, t)) == InOrder(p)
  {
    if |p.children[i].keys| < t {
      var f := Plan(p, i, t);
      if f.TakeRight? {
        TakeRightContent(p, i, t);
      } else if f.TakeLeft? {
        TakeLeftContent(p, i, t);
      } else if f.JoinRight? {
        JoinRightContent(p, i, t);
      } else if f.JoinLeft? {
        JoinLeftContent(p, i, t);
      }
    }
  }

  // ---------------------------------------------------------------------------
  // The whole removal.

  /** The last child ends the in-order sequence, so dropping its last element drops the node's. */
  lemma LastChildShrinks(n: Node, c2: Node)
    requires Inner(n)
    requires var ic := InOrder(n.children[|n.children| - 1]);
      ic != [] && InOrder(c2) == ic[..|ic| - 1]
    ensures var io := InOrder(n);
      io != [] && InOrder(Node(n.keys, n.children[|n.children| - 1 := c2])) == io[..|io| - 1]
  {
    var i := |n.children| - 1;
    var b, ic := Before(n.keys, n.children, i), InOrder(n.children[i]);
    NodeHole(n, i);
    InOrderReplace(n, i, c2);
    AfterLast(n.keys, n.children);
    assert (b + ic)[..|b + ic| - 1] == b + ic[..|ic| - 1];
  }

  /**
   * A B-tree node whose child `i` lost a key below it, and whose keys may have
   * been swapped for others as many, keeps its in-order sequence when mended.
   */
  lemma MendChildContent(n: Node, ks: seq<int>, t: nat, h: nat, lo: nat, i: nat, c: Node)
    requires Shape(n, t, h, lo) && 1 <= t && h > 0 && i < |n.children|
    requires |ks| == |n.keys| && Shape(c, t, h - 1, t - 1)
    requires Ordered(InOrder(Node(ks, n.children[i := c])), true)
    ensures Neighbours(Node(ks, n.children[i := c]), i)
    ensures InOrder(Mend(Node(ks, n.children[i := c]), i, t)) == InOrder(Node(ks, n.children[i := c]))
  {
    var p := Node(ks, n.children[i := c]);
    ShortReplace(n, ks, t, h, lo, i, c);
    ShortAlike(p, i, t, h, lo);
    ShortNeighbours(p, i, t, h, lo);
    SidesContent(p, i);
    MendContent(p, i, t);
  }

  /** A last child that lost its greatest key below, mended, costs the node its greatest key. */
  lemma LastChildMended(n: Node, t: nat, h: nat, c2: Node)
    requires Shape(n, t, h, 1) && 1 <= t && h > 0 && Ordered(InOrder(n), true) && Shape(c2, t, h - 1, t - 1)
    requires var ic := InOrder(n.children[|n.children| - 1]);
      ic != [] && InOrder(c2) == ic[..|ic| - 1]
    ensures var io, j := InOrder(n), |n.children| - 1;
      && Neighbours(Node(n.keys, n.children[j := c2]), j)
      && io != [] && InOrder(Mend(Node(n.keys, n.children[j := c2]), j, t)) == io[..|io| - 1]
  {
    LastChildShrinks(n, c2);
    var io := InOrder(n);
    OrderedSlice(io, 0, |io| - 1, true);
    MendChildContent(n, n.keys, t, h, 1, |n.children| - 1, c2);
  }

  /**
   * `removeGreatestValue` below a B-tree node with distinct ordered keys
   * takes the last key of its in-order sequence away and keeps the rest.
   */
  lemma {:induction false} RemoveGreatestContent(n: Node, t: nat, h: nat)
    requires Shape(n, t, h, 1) && 1 <= t && Ordered(InOrder(n), true)
    ensures var io := InOrder(n);
      io != [] && InOrder(RemoveGreatest(n, t, h)) == io[..|io| - 1]
    decreases h
  {
    if n.children == [] {
      assert RemoveAt(n.keys, |n.keys| - 1) == n.keys[..|n.keys| - 1];
    } else {
      var j := |n.children| - 1;
      var c, g: nat := n.children[j], h - 1;
      assert Shape(c, t, g, t);
      ShapeWeaken(c, t, g, t, 1);
      ChildOrdered(n, j, true);
      RemoveGreatestContent(c, t, g);
      RemoveGreatestShape(c, t, g, t);
      LastChildMended(n, t, h, RemoveGreatest(c, t, g));
    }
  }

  /**
   * The greatest key below a subtree and the subtree without it make up its
   * in-order sequence, and the subtree stays a B-tree node short of at most
   * one key.
   */
  lemma GreatestParts(c: Node, v: int, t: nat, g: nat)
    requires Shape(c, t, g, t) && 1 <= t && Ordered(InOrder(c) + [v], true)
    ensures Shape(c, t, g, 1)
    ensures Shape(RemoveGreatest(c, t, g), t, g, t - 1)
    ensures InOrder(RemoveGreatest(c, t, g)) + [Greatest(c, t, g)] == InOrder(c)
  {
    ShapeWeaken(c, t, g, t, 1);
    var ic := InOrder(c);
    GreatestContent(c, v, t, g);
    OrderedSlice(ic + [v], 0, |ic|, true);
    assert (ic + [v])[..|ic|] == ic;
    RemoveGreatestContent(c, t, g);
    RemoveGreatestShape(c, t, g, t);
    assert ic[..|ic| - 1] + [ic[|ic| - 1]] == ic;
  }

  /**
   * Key `i` of an internal node replaced by the last key `w` below child `i`,
   * and that child by `c2` which holds the rest: the node's in-order sequence
   * loses key `i`, and the new keys are the old ones with key `i` removed and
   * `w` added in order.
   */
  lemma KeyPromoted(x: Node, i: nat, c2: Node, w: int)
    requires Inner(x) && i < |x.keys| && Ordered(InOrder(x), true)
    requires InOrder(c2) + [w] == InOrder(x.children[i])
    ensures AddKey(RemoveKey(x.keys, x.keys[i]), w) == x.keys[i := w]
    ensures InOrder(Node(x.keys[i := w], x.children[i := c2])) == RemoveKey(InOrder(x), x.keys[i])
  {
    var ks, ic := x.keys, InOrder(x.children[i]);
    NodeKeys(x, true);
    LastBelowBounds(x, i);
    assert w == ic[|ic| - 1];
    assert Le((ic + [ks[i]])[|ic| - 1], (ic + [ks[i]])[|ic|], true);
    if i + 1 < |ks| {
      assert Le(ks[i], ks[i + 1], true);
    }
    ReplaceKey(ks, i, w);
    PredWrap(x, i, c2, w);
  }

  /**
   * The greatest key below child `i` of an internal node, put in place of key
   * `i` and removed below, leaves the node's in-order sequence without key `i`.
   */
  lemma GreatestMoved(x: Node, i: nat, t: nat, h: nat, g: nat)
    requires Shape(x, t, h, 0) && 1 <= t && h == g + 1 && i < |x.keys| && Ordered(InOrder(x), true)
    ensures Shape(x.children[i], t, g, 1)
    ensures var ks, c := x.keys, x.children[i];
      var c2, w := RemoveGreatest(c, t, g), Greatest(c, t, g);
      && Shape(c2, t, g, t - 1)
      && AddKey(RemoveKey(ks, ks[i]), w) == ks[i := w]
      && InOrder(Node(ks[i := w], x.children[i := c2])) == RemoveKey(InOrder(x), ks[i])
  {
    var c := x.children[i];
    assert Shape(c, t, g, t);
    ShapeWeaken(c, t, g, t, 1);
    ShapeInOrderNonEmpty(c, t, g);
    LastBelowBounds(x, i);
    GreatestParts(c, x.keys[i], t, g);
    KeyPromoted(x, i, RemoveGreatest(c, t, g), Greatest(c, t, g));
  }

  /**
   * An internal node that holds `v`: putting the greatest key below the child
   * left of `v` in its place and removing that key below leaves the node's
   * in-order sequence without `v`.
   */
  lemma ReplaceContent(x: Node, v: int, t: nat, h: nat)
    requires Shape(x, t, h, 0) && 1 <= t && h > 0 && v in x.keys && Ordered(InOrder(x), true)
    ensures InOrder(Replace(x, v, t, h)) == RemoveKey(InOrder(x), v)
  {
    var ks := x.keys;
    var i := IndexOf(ks, v) as nat;
    var c, g: nat := x.children[i], h - 1;
    ReplaceSteps(x, v, t, h, g);
    GreatestMoved(x, i, t, h, g);
    var c2, w := RemoveGreatest(c, t, g), Greatest(c, t, g);
    RemoveKeyOrdered(InOrder(x), v, true);
    MendChildContent(x, ks[i := w], t, h, 0, i, c2);
  }

  /**
   * A value that is not a key, removed from the child the search enters and
   * that child mended, is removed from the node's in-order sequence.
   */
  lemma DownMended(x: Node, j: nat, v: int, t: nat, h: nat, g: nat, c2: Node)
    requires Shape(x, t, h, 0) && 1 <= t && h == g + 1 && Ordered(InOrder(x), true)
    requires v !in x.keys && j == ClosestChild(x.keys, v) && j < |x.children|
    requires Shape(c2, t, g, t - 1) && InOrder(c2) == RemoveKey(InOrder(x.children[j]), v)
    ensures Neighbours(Node(x.keys, x.children[j := c2]), j)
    ensures InOrder(Mend(Node(x.keys, x.children[j := c2]), j, t)) == RemoveKey(InOrder(x), v)
  {
    AbsentBetween(x, v);
    WrapContent(x, j, v, Deleted(c2, v in InOrder(x.children[j])));
    RemoveKeyOrdered(InOrder(x), v, true);
    MendChildContent(x, x.keys, t, h, 0, j, c2);
  }

  /**
   * Removing `v` below a node whose keys are distinct and in order, and which
   * has keys unless it is a leaf, takes `v` out of its in-order sequence once
   * when it is there and changes nothing when it is not.
   */
  lemma {:induction false} RemoveInContent(x: Node, v: int, t: nat, h: nat)
    requires Shape(x, t, h, 0) && 1 <= t && Ordered(InOrder(x), true)
    requires x.children != [] ==> x.keys != []
    ensures InOrder(RemoveIn(x, v, t, h)) == RemoveKey(InOrder(x), v)
    decreases h
  {
    NodeKeys(x, true);
    StrictIsOrdered(x.keys);
    WhereOrdered(x, v);
    match Where(x, v)
    case Hit =>
      if x.children != [] {
        ReplaceContent(x, v, t, h);
      }
    case Down(j) =>
      var c, g: nat := x.children[j], h - 1;
      assert Shape(c, t, g, t);
      ShapeWeaken(c, t, g, t, 0);
      ChildOrdered(x, j, true);
      RemoveInContent(c, v, t, g);
      RemoveInShape(c, v, t, g, t);
      DownMended(x, j, v, t, h, g, RemoveIn(c, v, t, g));
    case Miss =>
  }

  /** A B-tree node reads as nothing exactly when it is a leaf without keys. */
  lemma EmptyTop(n: Node, t: nat, h: nat, lo: nat)
    requires Shape(n, t, h, lo) && 1 <= t
    ensures InOrder(n) == [] <==> n.keys == [] && n.children == []
  {
    if n.children != [] {
      if n.keys != [] {
        KeysIn(n.keys, n.children);
        assert n.keys[0] in InOrder(n);
      } else {
        assert n == Node([], [n.children[0]]);
        InOrderNewRoot(n.children[0]);
        ShapeInOrderNonEmpty(n.children[0], t, h - 1);
      }
    }
  }

  /**
   * `remove` on a valid tree with distinct keys: a value that is not stored
   * leaves the root as it is; otherwise the value is taken out of the keys
   * once, and the tree becomes empty exactly when the value was its only key.
   */
  lemma RemoveRootContent(root: Node, v: int, t: nat)
    requires RootShape(root, t) && 1 <= t && Ordered(InOrder(root), true)
    ensures var r := RemoveRoot(root, v, t);
      && (v !in InOrder(root) ==> r == Some(root))
      && (r.Some? ==> InOrder(r.value) == RemoveKey(InOrder(root), v))
      && (r.None? <==> InOrder(root) == [v])
  {
    var h, lo := Height(root), if root.children == [] then 0 else 1;
    StrictIsOrdered(InOrder(root));
    ContainsIff(root, v, t, h, lo);
    if Contains(root, v) {
      assert root.keys != [];
      ShapeWeaken(root, t, h, lo, 0);
      RemoveInContent(root, v, t, h);
      RemoveTopShape(root, v, t);
      var n := RemoveIn(root, v, t, h);
      EmptyTop(n, t, h, |root.keys| - 1);
      if n.keys == [] && n.children != [] {
        assert n == Node([], [n.children[0]]);
        InOrderNewRoot(n.children[0]);
      }
      var s := InOrder(root);
      assert s == [v] <==> |s| == 1 by {
        if |s| == 1 {
          assert v in s;
        }
      }
    } else {
      assert InOrder(root) != [v];
    }
  }
}
