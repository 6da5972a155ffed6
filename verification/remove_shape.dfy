/**
 * What bottom-up removal keeps of the B-tree shape: a node whose child gave
 * up a key and was left one short is whole again after `combined`, with at
 * most one key fewer itself, so the removal below a node costs that node at
 * most one key and the root at most its last key or its level.
 */
module RemoveShape {
  import opened Seqs
  import opened Nodes
  import opened Rebalance
  import opened Search
  import opened Delete
  import opened DeleteContent
  import opened Remove

  /** A B-tree node of height `h` whose child `i` may be one key short of the minimum `t`. */
  predicate Short(p: Node, i: nat, t: nat, h: nat, lo: nat) {
    && 1 <= t && h > 0 && lo <= |p.keys| <= MaxKeys(t)
    && |p.children| == |p.keys| + 1 && i < |p.children|
    && Shape(p.children[i], t, h - 1, t - 1)
    && forall j :: 0 <= j < |p.children| && j != i ==> Shape(p.children[j], t, h - 1, t)
  }

  /** A B-tree node with child `i` replaced by one that may be one key short, and its keys by as many others. */
  lemma ShortReplace(n: Node, ks: seq<int>, t: nat, h: nat, lo: nat, i: nat, c: Node)
    requires Shape(n, t, h, lo) && h > 0 && 1 <= t && i < |n.children|
    requires |ks| == |n.keys| && Shape(c, t, h - 1, t - 1)
    ensures Short(Node(ks, n.children[i := c]), i, t, h, lo)
  {
    var q := Node(ks, n.children[i := c]);
    forall j | 0 <= j < |q.children| && j != i ensures Shape(q.children[j], t, h - 1, t) {
      assert q.children[j] == n.children[j];
    }
  }

  /** The siblings of the short child hold keys. */
  lemma ShortNeighbours(p: Node, i: nat, t: nat, h: nat, lo: nat)
    requires Short(p, i, t, h, lo)
    ensures Neighbours(p, i)
  {
    if 0 < i {
      assert Shape(p.children[i - 1], t, h - 1, t);
    }
    if i + 1 < |p.children| {
      assert Shape(p.children[i + 1], t, h - 1, t);
    }
  }

  /** A node whose child `i` holds at least `t` keys after all is a B-tree node. */
  lemma ShortWhole(p: Node, i: nat, t: nat, h: nat, lo: nat)
    requires Short(p, i, t, h, lo) && t <= |p.children[i].keys|
    ensures Shape(p, t, h, lo)
  {
    ShapeAtLeast(p.children[i], t, h - 1, t - 1, t);
    forall j | 0 <= j < |p.children| ensures Shape(p.children[j], t, h - 1, t) {
    }
  }

  /**
   * Mending child `i` leaves a B-tree node: the child is left alone when it
   * holds `t` keys, a borrow keeps the parent's key count, and a merge costs
   * it one key.
   */
  lemma MendShape(p: Node, i: nat, t: nat, h: nat, lo: nat)
    requires Short(p, i, t, h, lo) && 1 <= lo
    ensures Neighbours(p, i)
    ensures Shape(Mend(p, i, t), t, h, lo - 1)
  {
    ShortNeighbours(p, i, t, h, lo);
    var cs := p.children;
    if t <= |cs[i].keys| {
      ShortWhole(p, i, t, h, lo);
      ShapeWeaken(p, t, h, lo, lo - 1);
    } else {
      match Plan(p, i, t)
      case TakeRight(s) =>
        BorrowRightShape(p, i, s, t, h, lo);
        ShapeWeaken(BorrowRight(p, i, s), t, h, lo, lo - 1);
      case TakeLeft(s) =>
        BorrowLeftShape(p, i, s, t, h, lo);
        ShapeWeaken(BorrowLeft(p, i, s), t, h, lo, lo - 1);
      case JoinRight(s) => CombineRightShape(p, i, s, t, h, lo);
      case JoinLeft(s) => CombineLeftShape(p, i, s, t, h, lo);
      case Keep => assert false;
    }
  }

  /** Borrowing from a right sibling above the minimum makes the short child whole, whichever separator is used. */
  lemma BorrowRightShape(p: Node, i: nat, s: nat, t: nat, h: nat, lo: nat)
    requires Short(p, i, t, h, lo) && |p.children[i].keys| < t
    requires i + 1 < |p.children| && |p.children[i + 1].keys| > t && s < |p.keys|
    ensures Shape(BorrowRight(p, i, s), t, h, lo)
  {
    var l, r := p.children[i], p.children[i + 1];
    ShapeWeaken(l, t, h - 1, t - 1, 0);
    ShapeWeaken(r, t, h - 1, t, 1);
    GrowBackShape(l, p.keys[s], r, t, h - 1, t);
    var l2 := Node(AddKey(l.keys, p.keys[s]), l.children + FirstKid(r));
    ShapeKeys(Node(l.keys + [p.keys[s]], l.children + FirstKid(r)), l2.keys, t, h - 1, t);
    DonorLosesFirst(r);
    DropFirstShape(r, t, h - 1, t);
    var w := r.keys[0];
    WindowShape(p, t, h, lo, i, l2, w, DropFirst(r));
    ShapeKeys(Node(p.keys[i := w], p.children[i := l2][i + 1 := DropFirst(r)]), AddKey(RemoveKeyAt(p.keys, s), w), t, h, lo);
  }

  /** The left sibling that lends its last key and child is left as `DropLast` leaves it. */
  lemma BorrowLeftDrops(p: Node, i: nat, s: nat)
    requires 0 < i < |p.children| && s < |p.keys| && p.children[i - 1].keys != [] && Wf(p.children[i - 1])
    ensures var l, n := p.children[i - 1], p.children[i];
      BorrowLeft(p, i, s) == Node(AddKey(RemoveKeyAt(p.keys, s), l.keys[|l.keys| - 1]),
        p.children[i - 1 := DropLast(l)][i := Node(AddKey(n.keys, p.keys[s]), LastKid(l) + n.children)])
  {
    DonorLosesLast(p.children[i - 1]);
  }

  /** Borrowing from a left sibling above the minimum makes the short child whole, whichever separator is used. */
  lemma BorrowLeftShape(p: Node, i: nat, s: nat, t: nat, h: nat, lo: nat)
    requires Short(p, i, t, h, lo) && |p.children[i].keys| < t
    requires 0 < i && |p.children[i - 1].keys| > t && s < |p.keys|
    ensures Shape(BorrowLeft(p, i, s), t, h, lo)
  {
    var l, n := p.children[i - 1], p.children[i];
    ShapeWeaken(n, t, h - 1, t - 1, 0);
    ShapeWeaken(l, t, h - 1, t, 1);
    GrowFrontShape(l, p.keys[s], n, t, h - 1, t);
    var n2 := Node(AddKey(n.keys, p.keys[s]), LastKid(l) + n.children);
    ShapeKeys(Node([p.keys[s]] + n.keys, LastKid(l) + n.children), n2.keys, t, h - 1, t);
    DonorLosesLast(l);
    DropLastShape(l, t, h - 1, t);
    var w := l.keys[|l.keys| - 1];
    WindowShape(p, t, h, lo, i - 1, DropLast(l), w, n2);
    BorrowLeftDrops(p, i, s);
    ShapeKeys(Node(p.keys[i - 1 := w], p.children[i - 1 := DropLast(l)][i := n2]), AddKey(RemoveKeyAt(p.keys, s), w), t, h, lo);
  }

  /** Merging the short child with a right sibling at the minimum gives a B-tree node with one key fewer. */
  lemma CombineRightShape(p: Node, i: nat, s: nat, t: nat, h: nat, lo: nat)
    requires Short(p, i, t, h, lo) && |p.children[i].keys| < t && 1 <= lo
    requires i + 1 < |p.children| && |p.children[i + 1].keys| <= t && s < |p.keys|
    ensures Shape(CombineRight(p, i, s), t, h, lo - 1)
  {
    var n, r := p.children[i], p.children[i + 1];
    ShapeWeaken(n, t, h - 1, t - 1, 0);
    ShapeWeaken(r, t, h - 1, t, 0);
    JoinShape(n, p.keys[s], r, t, h - 1, t);
    var m := Node(AddAll(AddKey(n.keys, p.keys[s]), r.keys), n.children + r.children);
    ShapeKeys(Join(n, p.keys[s], r), m.keys, t, h - 1, t);
    var q := CombineRight(p, i, s);
    forall j | 0 <= j < |q.children| ensures Shape(q.children[j], t, h - 1, t) {
      if j < i {
        assert q.children[j] == p.children[j];
      } else if j == i {
        assert q.children[j] == m;
      } else {
        assert q.children[j] == p.children[j + 1];
      }
    }
  }

  /** Merging the short child with a left sibling at the minimum gives a B-tree node with one key fewer. */
  lemma CombineLeftShape(p: Node, i: nat, s: nat, t: nat, h: nat, lo: nat)
    requires Short(p, i, t, h, lo) && |p.children[i].keys| < t && 1 <= lo
    requires 0 < i && |p.children[i - 1].keys| <= t && s < |p.keys|
    ensures Shape(CombineLeft(p, i, s), t, h, lo - 1)
  {
    var l, n := p.children[i - 1], p.children[i];
    ShapeWeaken(n, t, h - 1, t - 1, 0);
    ShapeWeaken(l, t, h - 1, t, 0);
    JoinShape(l, p.keys[s], n, t, h - 1, t);
    var m := Node(AddAll(AddKey(n.keys, p.keys[s]), l.keys), l.children + n.children);
    ShapeKeys(Join(l, p.keys[s], n), m.keys, t, h - 1, t);
    var q := CombineLeft(p, i, s);
    forall j | 0 <= j < |q.children| ensures Shape(q.children[j], t, h - 1, t) {
      if j < i - 1 {
        assert q.children[j] == p.children[j];
      } else if j == i - 1 {
        assert q.children[j] == m;
      } else {
        assert q.children[j] == p.children[j + 1];
      }
    }
  }

  /** A B-tree node whose child `i` lost a key below it, and whose keys may have been swapped for others as many, is mended back to a B-tree node short of at most one key. */
  lemma MendChildShape(n: Node, ks: seq<int>, t: nat, h: nat, lo: nat, i: nat, c: Node)
    requires Shape(n, t, h, lo) && 1 <= lo && 1 <= t && h > 0 && i < |n.children|
    requires |ks| == |n.keys| && Shape(c, t, h - 1, t - 1)
    ensures Neighbours(Node(ks, n.children[i := c]), i)
    ensures Shape(Mend(Node(ks, n.children[i := c]), i, t), t, h, lo - 1)
  {
    ShortReplace(n, ks, t, h, lo, i, c);
    MendShape(Node(ks, n.children[i := c]), i, t, h, lo);
  }

  /** Removing the greatest key below a B-tree node costs the node at most one key. */
  lemma {:induction false} RemoveGreatestShape(n: Node, t: nat, h: nat, lo: nat)
    requires Shape(n, t, h, lo) && 1 <= lo && 1 <= t
    ensures Shape(RemoveGreatest(n, t, h), t, h, lo - 1)
    decreases h
  {
    if n.children != [] {
      var j := |n.children| - 1;
      var c := n.children[j];
      RemoveGreatestShape(c, t, h - 1, t);
      MendChildShape(n, n.keys, t, h, lo, j, RemoveGreatest(c, t, h - 1));
    }
  }

  /** Replacing a key of an internal node by the greatest key below it costs the node at most one key. */
  lemma ReplaceShape(x: Node, v: int, t: nat, h: nat, lo: nat)
    requires Shape(x, t, h, lo) && 1 <= lo && 1 <= t && h > 0 && v in x.keys
    ensures Shape(Replace(x, v, t, h), t, h, lo - 1)
  {
    var i := IndexOf(x.keys, v) as nat;
    var c := x.children[i];
    var g: nat := h - 1;
    RemoveGreatestShape(c, t, g, t);
    MendChildShape(x, AddKey(RemoveKey(x.keys, v), Greatest(c, t, g)), t, h, lo, i, RemoveGreatest(c, t, g));
  }

  /** Removal below a B-tree node costs the node at most one key. */
  lemma {:induction false} RemoveInShape(x: Node, v: int, t: nat, h: nat, lo: nat)
    requires Shape(x, t, h, lo) && 1 <= lo && 1 <= t
    ensures Shape(RemoveIn(x, v, t, h), t, h, lo - 1)
    decreases h
  {
    match Where(x, v)
    case Hit =>
      if x.children != [] {
        ReplaceShape(x, v, t, h, lo);
      }
    case Down(j) =>
      var c := x.children[j];
      assert h > 0 && Shape(c, t, h - 1, t);
      var g: nat := h - 1;
      ShapeWeaken(c, t, g, t, 0);
      RemoveInShape(c, v, t, g, t);
      MendChildShape(x, x.keys, t, h, lo, j, RemoveIn(c, v, t, g));
    case Miss =>
      ShapeWeaken(x, t, h, lo, lo - 1);
  }

  /** Removal below a valid root leaves a B-tree of the same height whose top node lost at most one key. */
  lemma RemoveTopShape(root: Node, v: int, t: nat)
    requires RootShape(root, t) && 1 <= t && root.keys != []
    ensures Shape(RemoveIn(root, v, t, Height(root)), t, Height(root), |root.keys| - 1)
  {
    var h := Height(root);
    ShapeAtLeast(root, t, h, if root.children == [] then 0 else 1, |root.keys|);
    RemoveInShape(root, v, t, h, |root.keys|);
  }

  /** A B-tree node that kept a key is a valid root of its height. */
  lemma KeptRootShape(n: Node, t: nat, h: nat, lo: nat)
    requires Shape(n, t, h, lo) && n.keys != []
    ensures RootShape(n, t) && Height(n) == h
  {
    ShapeAtLeast(n, t, h, lo, 1);
    ShapeIsRootShape(n, t, h, 1);
    ShapeHeight(n, t, h, 1);
  }

  /** The first child of an internal B-tree node is a valid root one level lower. */
  lemma FirstChildRootShape(n: Node, t: nat, h: nat, lo: nat)
    requires Shape(n, t, h, lo) && n.children != [] && 1 <= t
    ensures RootShape(n.children[0], t) && Height(n.children[0]) + 1 == h
  {
    var c := n.children[0];
    assert h > 0 && Shape(c, t, h - 1, t);
    var g: nat := h - 1;
    ShapeIsRootShape(c, t, g, t);
    ShapeHeight(c, t, g, t);
  }

  /**
   * `remove` keeps a valid root. The tree empties only when its root was a
   * leaf with a single key, and loses a level only when its root had a single
   * key.
   */
  lemma RemoveRootShape(root: Node, v: int, t: nat)
    requires RootShape(root, t) && 1 <= t
    ensures var r := RemoveRoot(root, v, t);
      && (r.Some? ==> RootShape(r.value, t))
      && (r.Some? ==> Height(r.value) == Height(root) || (Height(r.value) + 1 == Height(root) && |root.keys| == 1))
      && (r.None? ==> root.children == [] && |root.keys| == 1)
  {
    if Contains(root, v) {
      var h := Height(root);
      assert root.keys != [];
      RemoveTopShape(root, v, t);
      var n := RemoveIn(root, v, t, h);
      if n.keys != [] {
        KeptRootShape(n, t, h, |root.keys| - 1);
      } else if n.children != [] {
        FirstChildRootShape(n, t, h, |root.keys| - 1);
      }
    }
  }
}
