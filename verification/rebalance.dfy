/**
 * The three ways a node with too few keys is helped by a sibling, written by
 * position: a rotation through the separator from the right sibling, one from
 * the left sibling, and the merge of two siblings around their separator.
 * Each keeps the in-order sequence of the parent; the deletion algorithms
 * reach them through the sorted insertions and removals the code performs.
 */
module Rebalance {
  import opened Seqs
  import opened Nodes

  /** A leaf, or an internal node with one child more than keys. */
  predicate Wf(n: Node) {
    n.children == [] || |n.children| == |n.keys| + 1
  }

  /** Two siblings of the same kind: both leaves, or both internal with the right child counts. */
  predicate Siblings(l: Node, r: Node) {
    Wf(l) && Wf(r) && (l.children == [] <==> r.children == [])
  }

  /** Two siblings and their separator as one node. */
  function Join(l: Node, m: int, r: Node): (n: Node)
    ensures |n.keys| == |l.keys| + |r.keys| + 1
    ensures Siblings(l, r) ==> Wf(n) && (n.children == [] <==> l.children == [])
  {
    Node(l.keys + [m] + r.keys, l.children + r.children)
  }

  /** The first child of a node as a list: empty for a leaf. */
  function FirstKid(n: Node): (s: seq<Node>)
    ensures |s| == if n.children == [] then 0 else 1
  {
    if n.children == [] then [] else [n.children[0]]
  }

  /** The last child of a node as a list: empty for a leaf. */
  function LastKid(n: Node): (s: seq<Node>)
    ensures |s| == if n.children == [] then 0 else 1
  {
    if n.children == [] then [] else [n.children[|n.children| - 1]]
  }

  /** A node without its first key and first child. */
  function DropFirst(n: Node): (r: Node)
    requires n.keys != []
    ensures |r.keys| == |n.keys| - 1 && (Wf(n) ==> Wf(r))
    ensures Wf(n) ==> (r.children == [] <==> n.children == [])
  {
    Node(n.keys[1..], if n.children == [] then [] else n.children[1..])
  }

  /** A node without its last key and last child. */
  function DropLast(n: Node): (r: Node)
    requires n.keys != []
    ensures |r.keys| == |n.keys| - 1 && (Wf(n) ==> Wf(r))
    ensures Wf(n) ==> (r.children == [] <==> n.children == [])
  {
    Node(n.keys[..|n.keys| - 1], if n.children == [] then [] else n.children[..|n.children| - 1])
  }

  /**
   * Borrowing from the right sibling: child `i` takes separator `i` as its
   * last key and the sibling's first child as its last; the sibling's first
   * key becomes the separator.
   */
  function RotateLeft(p: Node, i: nat): (q: Node)
    requires i + 1 < |p.children| && i < |p.keys| && p.children[i + 1].keys != []
    ensures |q.keys| == |p.keys| && |q.children| == |p.children|
    ensures |q.children[i].keys| == |p.children[i].keys| + 1
    ensures |q.children[i + 1].keys| == |p.children[i + 1].keys| - 1
  {
    var l, r := p.children[i], p.children[i + 1];
    var l2 := Node(l.keys + [p.keys[i]], l.children + FirstKid(r));
    Node(p.keys[i := r.keys[0]], p.children[i := l2][i + 1 := DropFirst(r)])
  }

  /**
   * Borrowing from the left sibling: child `i + 1` takes separator `i` as its
   * first key and the sibling's last child as its first; the sibling's last
   * key becomes the separator.
   */
  function RotateRight(p: Node, i: nat): (q: Node)
    requires i + 1 < |p.children| && i < |p.keys| && p.children[i].keys != []
    ensures |q.keys| == |p.keys| && |q.children| == |p.children|
    ensures |q.children[i].keys| == |p.children[i].keys| - 1
    ensures |q.children[i + 1].keys| == |p.children[i + 1].keys| + 1
  {
    var l, r := p.children[i], p.children[i + 1];
    var r2 := Node([p.keys[i]] + r.keys, LastKid(l) + r.children);
    Node(p.keys[i := l.keys[|l.keys| - 1]], p.children[i := DropLast(l)][i + 1 := r2])
  }

  /** Children `i` and `i + 1` merged around separator `i`, which leaves the parent. */
  function Merge(p: Node, i: nat): (q: Node)
    requires i + 1 < |p.children| && i < |p.keys|
    ensures |q.keys| == |p.keys| - 1 && |q.children| == |p.children| - 1
    ensures q.children[i] == Join(p.children[i], p.keys[i], p.children[i + 1])
    ensures forall j :: 0 <= j < i ==> q.children[j] == p.children[j]
    ensures forall j :: i < j < |q.children| ==> q.children[j] == p.children[j + 1]
  {
    Node(RemoveAt(p.keys, i), p.children[..i] + [Join(p.children[i], p.keys[i], p.children[i + 1])] + p.children[i + 2..])
  }

  // ---------------------------------------------------------------------------
  // In-order sequences.

  /** Interleaving joined key and child lists reads the two parts around the joining key. */
  lemma {:induction false} InterleaveJoin(k1: seq<int>, c1: seq<Node>, m: int, k2: seq<int>, c2: seq<Node>)
    requires |c1| == |k1| + 1 && |c2| == |k2| + 1
    ensures Interleave(k1 + [m] + k2, c1 + c2) == Interleave(k1, c1) + [m] + Interleave(k2, c2)
    decreases |k1|
  {
    var ks, cs := k1 + [m] + k2, c1 + c2;
    assert cs[0] == c1[0];
    if k1 == [] {
      assert ks[0] == m && ks[1..] == k2 && cs[1..] == c2;
      assert c1[1..] == [];
      assert Interleave(k1, c1) == InOrder(c1[0]) + Interleave([], []);
    } else {
      InterleaveJoin(k1[1..], c1[1..], m, k2, c2);
      assert ks[0] == k1[0] && ks[1..] == k1[1..] + [m] + k2 && cs[1..] == c1[1..] + c2;
    }
  }

  /** A single child interleaved with no keys reads as that child. */
  lemma InterleaveOne(c: Node)
    ensures Interleave([], [c]) == InOrder(c)
  {
    assert [c][1..] == [];
    assert Interleave([], [c]) == InOrder(c) + Interleave([], []);
  }

  /** Merged siblings read the left sibling, the separator, the right sibling. */
  lemma JoinInOrder(l: Node, m: int, r: Node)
    requires Siblings(l, r)
    ensures InOrder(Join(l, m, r)) == InOrder(l) + [m] + InOrder(r)
  {
    if l.children != [] {
      InterleaveJoin(l.keys, l.children, m, r.keys, r.children);
    }
  }

  /** An internal node reads its first child, its first key, and the rest. */
  lemma InOrderFront(n: Node)
    requires n.keys != [] && n.children != [] && |n.children| == |n.keys| + 1
    ensures InOrder(n) == InOrder(n.children[0]) + [n.keys[0]] + InOrder(DropFirst(n))
  {
  }

  /** An internal node reads the rest, its last key, and its last child. */
  lemma InOrderBack(n: Node)
    requires n.keys != [] && n.children != [] && |n.children| == |n.keys| + 1
    ensures InOrder(n) == InOrder(DropLast(n)) + [n.keys[|n.keys| - 1]] + InOrder(n.children[|n.children| - 1])
  {
    var ks, cs := n.keys, n.children;
    var k1, c1 := ks[..|ks| - 1], cs[..|cs| - 1];
    var last := cs[|cs| - 1];
    assert ks == k1 + [ks[|ks| - 1]] + [] && cs == c1 + [last];
    InterleaveJoin(k1, c1, ks[|ks| - 1], [], [last]);
    InterleaveOne(last);
  }

  /** Replacing two neighbouring children and their separator changes only that window of the in-order sequence. */
  lemma WindowReplace(p: Node, i: nat, l2: Node, k2: int, r2: Node)
    requires p.children != [] && |p.children| == |p.keys| + 1 && i + 1 < |p.children|
    ensures InOrder(Node(p.keys[i := k2], p.children[i := l2][i + 1 := r2]))
         == Before(p.keys, p.children, i) + InOrder(l2) + [k2] + InOrder(r2) + After(p.keys, p.children, i + 1)
  {
    var q := Node(p.keys[i := k2], p.children[i := l2][i + 1 := r2]);
    NodeWindow(q, i);
    assert q.keys[..i] == p.keys[..i] && q.children[..i] == p.children[..i];
    assert q.keys[i + 1..] == p.keys[i + 1..] && q.children[i + 2..] == p.children[i + 2..];
  }

  /** A node with a key and a last child added at its end reads its old sequence, the key, the child. */
  lemma PushBackInOrder(l: Node, k: int, c: Node)
    requires l.children != [] && |l.children| == |l.keys| + 1
    ensures InOrder(Node(l.keys + [k], l.children + [c])) == InOrder(l) + [k] + InOrder(c)
  {
    assert l.keys + [k] == l.keys + [k] + [];
    InterleaveJoin(l.keys, l.children, k, [], [c]);
    InterleaveOne(c);
  }

  /** A node with a key and a first child added at its front reads the child, the key, its old sequence. */
  lemma PushFrontInOrder(c: Node, k: int, r: Node)
    requires r.children != [] && |r.children| == |r.keys| + 1
    ensures InOrder(Node([k] + r.keys, [c] + r.children)) == InOrder(c) + [k] + InOrder(r)
  {
    assert [k] + r.keys == [] + [k] + r.keys;
    InterleaveJoin([], [c], k, r.keys, r.children);
    InterleaveOne(c);
  }

  /** Moving the separator down to the left and the right sibling's first key up keeps the window's sequence. */
  lemma BorrowFrontInOrder(l: Node, k: int, r: Node)
    requires Siblings(l, r) && r.keys != []
    ensures InOrder(Node(l.keys + [k], l.children + FirstKid(r))) + [r.keys[0]] + InOrder(DropFirst(r))
         == InOrder(l) + [k] + InOrder(r)
  {
    if l.children == [] {
      assert r.keys == [r.keys[0]] + r.keys[1..];
    } else {
      PushBackInOrder(l, k, r.children[0]);
      InOrderFront(r);
    }
  }

  /** Moving the separator down to the right and the left sibling's last key up keeps the window's sequence. */
  lemma BorrowBackInOrder(l: Node, k: int, r: Node)
    requires Siblings(l, r) && l.keys != []
    ensures InOrder(DropLast(l)) + [l.keys[|l.keys| - 1]] + InOrder(Node([k] + r.keys, LastKid(l) + r.children))
         == InOrder(l) + [k] + InOrder(r)
  {
    if l.children == [] {
      assert l.keys == l.keys[..|l.keys| - 1] + [l.keys[|l.keys| - 1]];
    } else {
      PushFrontInOrder(l.children[|l.children| - 1], k, r);
      InOrderBack(l);
    }
  }

  /** Regrouping a five-part concatenation around its middle three parts. */
  lemma Regroup(b: seq<int>, x: seq<int>, k: int, y: seq<int>, a: seq<int>)
    ensures b + x + [k] + y + a == b + (x + [k] + y) + a
  {
  }

  /** Replacing a window by one that reads the same keeps the parent's in-order sequence. */
  lemma WindowSame(p: Node, i: nat, l2: Node, k2: int, r2: Node)
    requires p.children != [] && |p.children| == |p.keys| + 1 && i + 1 < |p.children|
    requires InOrder(l2) + [k2] + InOrder(r2) == InOrder(p.children[i]) + [p.keys[i]] + InOrder(p.children[i + 1])
    ensures InOrder(Node(p.keys[i := k2], p.children[i := l2][i + 1 := r2])) == InOrder(p)
  {
    var b, a := Before(p.keys, p.children, i), After(p.keys, p.children, i + 1);
    WindowReplace(p, i, l2, k2, r2);
    NodeWindow(p, i);
    Regroup(b, InOrder(l2), k2, InOrder(r2), a);
    Regroup(b, InOrder(p.children[i]), p.keys[i], InOrder(p.children[i + 1]), a);
  }

  /** Borrowing from the right sibling keeps the parent's in-order sequence. */
  lemma RotateLeftInOrder(p: Node, i: nat)
    requires p.children != [] && |p.children| == |p.keys| + 1 && i + 1 < |p.children|
    requires Siblings(p.children[i], p.children[i + 1]) && p.children[i + 1].keys != []
    ensures InOrder(RotateLeft(p, i)) == InOrder(p)
  {
    var l, r, k := p.children[i], p.children[i + 1], p.keys[i];
    BorrowFrontInOrder(l, k, r);
    WindowSame(p, i, Node(l.keys + [k], l.children + FirstKid(r)), r.keys[0], DropFirst(r));
  }

  /** Borrowing from the left sibling keeps the parent's in-order sequence. */
  lemma RotateRightInOrder(p: Node, i: nat)
    requires p.children != [] && |p.children| == |p.keys| + 1 && i + 1 < |p.children|
    requires Siblings(p.children[i], p.children[i + 1]) && p.children[i].keys != []
    ensures InOrder(RotateRight(p, i)) == InOrder(p)
  {
    var l, r, k := p.children[i], p.children[i + 1], p.keys[i];
    BorrowBackInOrder(l, k, r);
    WindowSame(p, i, DropLast(l), l.keys[|l.keys| - 1], Node([k] + r.keys, LastKid(l) + r.children));
  }

  /** Merging two siblings around their separator keeps the parent's in-order sequence. */
  lemma MergeInOrder(p: Node, i: nat)
    requires p.children != [] && |p.children| == |p.keys| + 1 && i + 1 < |p.children|
    requires Siblings(p.children[i], p.children[i + 1])
    ensures InOrder(Merge(p, i)) == InOrder(p)
  {
    var q := Merge(p, i);
    var l, k, r := p.children[i], p.keys[i], p.children[i + 1];
    NodeHole(q, i);
    assert q.keys[..i] == p.keys[..i] && q.children[..i] == p.children[..i];
    assert q.keys[i..] == p.keys[i + 1..] && q.children[i + 1..] == p.children[i + 2..];
    var b, a := Before(p.keys, p.children, i), After(p.keys, p.children, i + 1);
    assert InOrder(q) == b + InOrder(Join(l, k, r)) + a;
    JoinInOrder(l, k, r);
    NodeWindow(p, i);
    Regroup(b, InOrder(l), k, InOrder(r), a);
  }

  // ---------------------------------------------------------------------------
  // Shapes.

  /** A parent whose children other than `i` and `i + 1` are B-tree nodes below a key count in range. */
  predicate OthersShaped(p: Node, t: nat, h: nat, lo: nat, i: nat) {
    && h > 0 && lo <= |p.keys| <= MaxKeys(t)
    && |p.children| == |p.keys| + 1 && i + 1 < |p.children|
    && forall j :: 0 <= j < |p.children| && j != i && j != i + 1 ==> Shape(p.children[j], t, h - 1, t)
  }

  /** A B-tree node has its other children shaped around any window. */
  lemma ShapeOthers(p: Node, t: nat, h: nat, lo: nat, i: nat)
    requires Shape(p, t, h, lo) && h > 0 && i + 1 < |p.children|
    ensures OthersShaped(p, t, h, lo, i)
  {
  }

  /** Replacing the window by two B-tree nodes gives a B-tree node. */
  lemma WindowShape(p: Node, t: nat, h: nat, lo: nat, i: nat, l2: Node, k2: int, r2: Node)
    requires OthersShaped(p, t, h, lo, i) && Shape(l2, t, h - 1, t) && Shape(r2, t, h - 1, t)
    ensures Shape(Node(p.keys[i := k2], p.children[i := l2][i + 1 := r2]), t, h, lo)
  {
    var q := Node(p.keys[i := k2], p.children[i := l2][i + 1 := r2]);
    forall j | 0 <= j < |q.children| ensures Shape(q.children[j], t, h - 1, t) {
      if j != i && j != i + 1 {
        assert q.children[j] == p.children[j];
      }
    }
  }

  /** Siblings of the same height for the rotations: every child below them is a B-tree node. */
  lemma DropFirstShape(n: Node, t: nat, h: nat, lo: nat)
    requires Shape(n, t, h, lo) && n.keys != [] && lo <= |n.keys| - 1
    ensures Shape(DropFirst(n), t, h, lo)
  {
    if h > 0 {
      var d := DropFirst(n);
      forall j | 0 <= j < |d.children| ensures Shape(d.children[j], t, h - 1, t) {
        assert d.children[j] == n.children[j + 1];
      }
    }
  }

  lemma DropLastShape(n: Node, t: nat, h: nat, lo: nat)
    requires Shape(n, t, h, lo) && n.keys != [] && lo <= |n.keys| - 1
    ensures Shape(DropLast(n), t, h, lo)
  {
    if h > 0 {
      var d := DropLast(n);
      forall j | 0 <= j < |d.children| ensures Shape(d.children[j], t, h - 1, t) {
        assert d.children[j] == n.children[j];
      }
    }
  }

  /** A node with one more key at its end and the first child of a same-height sibling is well-shaped. */
  lemma GrowBackShape(l: Node, k: int, r: Node, t: nat, h: nat, lo: nat)
    requires Shape(l, t, h, 0) && Shape(r, t, h, 1) && |l.keys| < MaxKeys(t) && lo <= |l.keys| + 1
    ensures Shape(Node(l.keys + [k], l.children + FirstKid(r)), t, h, lo)
  {
    if h > 0 {
      var g := Node(l.keys + [k], l.children + FirstKid(r));
      forall j | 0 <= j < |g.children| ensures Shape(g.children[j], t, h - 1, t) {
        if j < |l.children| {
          assert g.children[j] == l.children[j];
        } else {
          assert g.children[j] == r.children[0];
        }
      }
    }
  }

  /** A node with one more key at its front and the last child of a same-height sibling is well-shaped. */
  lemma GrowFrontShape(l: Node, k: int, r: Node, t: nat, h: nat, lo: nat)
    requires Shape(l, t, h, 1) && Shape(r, t, h, 0) && |r.keys| < MaxKeys(t) && lo <= |r.keys| + 1
    ensures Shape(Node([k] + r.keys, LastKid(l) + r.children), t, h, lo)
  {
    if h > 0 {
      var g := Node([k] + r.keys, LastKid(l) + r.children);
      forall j | 0 <= j < |g.children| ensures Shape(g.children[j], t, h - 1, t) {
        if j == 0 {
          assert g.children[j] == l.children[|l.children| - 1];
        } else {
          assert g.children[j] == r.children[j - 1];
        }
      }
    }
  }

  /** Two same-height siblings whose keys and separator fit in one node join into a B-tree node. */
  lemma JoinShape(l: Node, m: int, r: Node, t: nat, h: nat, lo: nat)
    requires Shape(l, t, h, 0) && Shape(r, t, h, 0) && |l.keys| + |r.keys| + 1 <= MaxKeys(t)
    requires lo <= |l.keys| + |r.keys| + 1
    ensures Shape(Join(l, m, r), t, h, lo)
  {
    if h > 0 {
      var g := Join(l, m, r);
      forall j | 0 <= j < |g.children| ensures Shape(g.children[j], t, h - 1, t) {
        if j < |l.children| {
          assert g.children[j] == l.children[j];
        } else {
          assert g.children[j] == r.children[j - |l.children|];
        }
      }
    }
  }

  /**
   * Merging two siblings that fit in one node gives a parent with one key
   * fewer whose children are B-tree nodes; the merged child holds at least
   * `t` keys when the two together with the separator do.
   */
  lemma MergeShape(p: Node, t: nat, h: nat, lo: nat, i: nat)
    requires OthersShaped(p, t, h, lo, i) && 1 <= lo
    requires Shape(p.children[i], t, h - 1, 0) && Shape(p.children[i + 1], t, h - 1, 0)
    requires t <= |p.children[i].keys| + |p.children[i + 1].keys| + 1 <= MaxKeys(t)
    ensures Shape(Merge(p, i), t, h, lo - 1)
  {
    var q := Merge(p, i);
    JoinShape(p.children[i], p.keys[i], p.children[i + 1], t, h - 1, t);
    forall j | 0 <= j < |q.children| ensures Shape(q.children[j], t, h - 1, t) {
      if j > i {
        assert q.children[j] == p.children[j + 1];
      }
    }
  }
}
