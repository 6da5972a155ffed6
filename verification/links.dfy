/**
 * The root's parent link. When `delete` collapses a one-key root into its
 * two merged children, `merge_two_nodes` gives the merged node the old root
 * as its parent and `perform_merge_and_update_tree` makes it the root without
 * clearing that link; the old root is left behind with neither keys nor
 * children. `validate` and `remove` tell the root apart by that link, so from
 * then on they treat the root as an inner node: `validate` holds it to the
 * minimum key count, and `remove` never empties the tree or lets a keyless
 * root give way to its child. `insert` clears the link when it puts a fresh
 * root above a full one, and `clear` drops the root. The rest of the model
 * reads the root as a root, as `combined` leaves it when it shortens the tree.
 */
module Links {
  import opened Seqs
  import opened Nodes
  import opened Search
  import opened Insert
  import opened DeleteContent
  import opened DeleteRoot
  import opened Remove
  import opened RemoveShape
  import opened Validate
  import opened Trees

  /** A tree and whether its root still points at a discarded parent. */
  datatype Linked = Linked(tree: BTree, stale: bool)

  /**
   * `delete` as written. It never reads the root's parent, so the tree changes
   * as `Trees.DeleteValue` says; a collapse of the root leaves the link set.
   */
  function DeleteLinked(l: Linked, v: int): (r: Linked)
    requires Valid(l.tree)
    ensures r.tree == DeleteValue(l.tree, v).tree
    ensures l.stale ==> r.stale
    ensures r.stale && !l.stale ==> l.tree.root.Some? && |l.tree.root.value.keys| == 1 && l.tree.root.value.children != []
  {
    match l.tree.root
    case None => l
    case Some(n) =>
      var d := DeleteValue(l.tree, v).tree;
      DeleteAtShape(n, v, l.tree.t);
      Linked(d, l.stale || Height(d.root.value) < Height(n))
  }

  /** `insert` as written: a full root gets a fresh root above it, whose link is clear. */
  function InsertLinked(l: Linked, v: int): (r: Linked)
    requires Valid(l.tree)
    ensures r.tree == InsertValue(l.tree, v)
    ensures r.stale ==> l.stale
    ensures l.stale && l.tree.root.Some? ==> (r.stale <==> Height(r.tree.root.value) == Height(l.tree.root.value))
  {
    match l.tree.root
    case None => Linked(InsertValue(l.tree, v), false)
    case Some(n) =>
      InsertRootShape(n, v, l.tree.t);
      Linked(InsertValue(l.tree, v), l.stale && |n.keys| != MaxKeys(l.tree.t))
  }

  /** `validate` as written: a root with its link set is checked like any inner node. */
  function ValidateLinked(l: Linked): (r: Answer)
    ensures l.tree.root.None? ==> r == Answer(true)
    ensures !l.stale ==> r == ValidateTree(l.tree.root, l.tree.t)
    ensures l.stale && l.tree.root.Some? && |l.tree.root.value.keys| < l.tree.t ==> r == Answer(false)
  {
    match l.tree.root
    case None => Answer(true)
    case Some(n) => if l.stale then ValidateNode(n, false, l.tree.t) else ValidateTree(l.tree.root, l.tree.t)
  }

  /**
   * `remove` as written. Under a set link the emptied root leaf is not
   * dropped, and `combined` looks for the root's neighbours under the discarded
   * parent, finds none, and leaves a root that lost its last key in place.
   */
  function RemoveLinked(l: Linked, v: int): (r: Linked)
    requires Valid(l.tree)
    ensures r.stale == l.stale
    ensures !l.stale ==> r.tree == RemoveValue(l.tree, v).tree
    ensures r.tree.t == l.tree.t && r.tree.size == RemoveValue(l.tree, v).tree.size
    ensures l.stale ==> r.tree.root.Some? == l.tree.root.Some?
  {
    if !l.stale then Linked(RemoveValue(l.tree, v).tree, false)
    else match l.tree.root
      case None => l
      case Some(n) =>
        if !Contains(n, v) then l
        else
          var t := l.tree.t;
          ShapeWeaken(n, t, Height(n), if n.children == [] then 0 else 1, 0);
          Linked(BTree(Some(RemoveIn(n, v, t, Height(n))), l.tree.size - 1, t), true)
  }

  /** With the link set or not, `remove` leaves the same keys in the same order. */
  lemma RemoveLinkedContents(l: Linked, v: int)
    requires Valid(l.tree)
    ensures Contents(RemoveLinked(l, v).tree) == Contents(RemoveValue(l.tree, v).tree)
  {
    if l.stale && l.tree.root.Some? {
      var n, t := l.tree.root.value, l.tree.t;
      if Contains(n, v) {
        assert n.keys != [];
        RemoveTopShape(n, v, t);
        var m := RemoveIn(n, v, t, Height(n));
        if m.keys == [] && m.children != [] {
          assert m.children == [m.children[0]];
          InOrderNewRoot(m.children[0]);
        }
      }
    }
  }

  // ---------------------------------------------------------------------------
  // The counterexample, with order 2 (minimum key count 1).

  /** The root 2 over the leaves 1 and 3, with a clear link. */
  const Three := BTree(Some(Node([2], [Node([1], []), Node([3], [])])), 3, 1)

  lemma ThreeValid()
    ensures Valid(Three) && Contents(Three) == [1, 2, 3] && Ordered(Contents(Three), true)
  {
    var n := Three.root.value;
    assert n.children[1..] == [Node([3], [])] && [2][1..] == [];
    assert Interleave([], [Node([3], [])]) == InOrder(Node([3], [])) + Interleave([], []);
    assert Shape(n.children[0], 1, 0, 1) && Shape(n.children[1], 1, 0, 1);
  }

  /** A deletion that leaves fewer than three keys, or starts from a leaf root, leaves a leaf root holding them. */
  lemma DeletedLeaf(b: BTree, v: int, s: seq<int>)
    requires Valid(b) && b.root.Some? && Ordered(Contents(b), true) && RemoveKey(Contents(b), v) == s
    requires b.root.value.children == [] || |s| < 3
    ensures var d := DeleteValue(b, v).tree; d.root == Some(Node(s, [])) && Valid(d)
  {
    var n := b.root.value;
    DeleteAtShape(n, v, b.t);
    DeleteAtContent(n, v, b.t);
    DeleteValid(b, v);
    var r := DeleteAt(n, v, b.t).n;
    if r.children != [] {
      assert Shape(r.children[0], b.t, Height(r) - 1, b.t) && Shape(r.children[1], b.t, Height(r) - 1, b.t);
      InOrderThree(r);
      assert false;
    }
  }

  /** A non-empty well-formed node reads at least one key. */
  lemma InOrderNonEmpty(c: Node)
    requires c.keys != [] && (c.children == [] || |c.children| == |c.keys| + 1)
    ensures InOrder(c) != []
  {
    if c.children != [] {
      KeysIn(c.keys, c.children);
      assert c.keys[0] in InOrder(c);
    }
  }

  /** An inner node with a key above two non-empty children reads at least three keys. */
  lemma InOrderThree(r: Node)
    requires |r.children| == |r.keys| + 1 && r.keys != []
    requires forall i | 0 <= i < 2 :: r.children[i].keys != [] && (r.children[i].children == [] || |r.children[i].children| == |r.children[i].keys| + 1)
    ensures |InOrder(r)| >= 3
  {
    InOrderNonEmpty(r.children[0]);
    InOrderNonEmpty(r.children[1]);
    var cs := r.children[1..];
    assert InOrder(r) == InOrder(r.children[0]) + [r.keys[0]] + Interleave(r.keys[1..], cs);
    InterleaveFirst(r.keys[1..], cs);
  }

  /** The trees left by deleting 1, then 2, then 3. */
  const TwoThree := BTree(Some(Node([2, 3], [])), 2, 1)
  const JustThree := BTree(Some(Node([3], [])), 1, 1)
  const Keyless := BTree(Some(Node([], [])), 0, 1)

  /** Deleting 1 merges the root with both leaves into 1,2,3, which becomes the root with its link set, and loses 1. */
  lemma StaleCollapse()
    ensures DeleteLinked(Linked(Three, false), 1) == Linked(TwoThree, true)
  {
    ThreeValid();
    assert RemoveKey([1, 2, 3], 1) == [2, 3];
    DeletedLeaf(Three, 1, [2, 3]);
  }

  /** Deleting 2 and then 3 from the leaf root 2,3 leaves a root leaf without keys; the link stays set. */
  lemma StaleDeletes()
    ensures Valid(TwoThree) && DeleteLinked(Linked(TwoThree, true), 2) == Linked(JustThree, true)
    ensures Valid(JustThree) && DeleteLinked(Linked(JustThree, true), 3) == Linked(Keyless, true)
  {
    assert RemoveKey([2, 3], 2) == [3] && RemoveKey([3], 3) == [];
    DeletedLeaf(TwoThree, 2, [3]);
    DeletedLeaf(JustThree, 3, []);
  }

  /** The keyless root leaf passes the model's check as a root and fails the code's as an inner node. */
  lemma StaleValidate()
    ensures Valid(Keyless) && Validates(Keyless) && ValidateLinked(Linked(Keyless, true)) == Answer(false)
  {
    ValidatesValid(Keyless);
  }

  /** Removing 3 from the root leaf 3 empties the tree in the model and leaves a keyless root under a set link. */
  lemma StaleRemove()
    ensures RemoveValue(JustThree, 3).tree.root.None?
    ensures RemoveLinked(Linked(JustThree, true), 3).tree == Keyless
  {
    var n := Node([3], []);
    assert Where(n, 3) == Hit && Contains(n, 3);
    assert RemoveKey([3], 3) == [];
    assert RemoveIn(n, 3, 1, 0) == Node([], []);
  }

  /**
   * With order 2, deleting 1 from the tree 2 over 1 and 3 merges the root
   * into the leaf 1,2,3 and leaves its link set. After deleting 2 and 3 the
   * root is a leaf without keys: the model's `validate` accepts the empty
   * root, the code rejects it. Removing the last key 3 instead keeps the
   * keyless root where the model empties the tree.
   */
  lemma StaleRoot()
    ensures Valid(Three) && Contents(Three) == [1, 2, 3]
    ensures DeleteLinked(Linked(Three, false), 1) == Linked(TwoThree, true)
    ensures DeleteLinked(Linked(TwoThree, true), 2) == Linked(JustThree, true)
    ensures DeleteLinked(Linked(JustThree, true), 3) == Linked(Keyless, true)
    ensures Valid(Keyless) && Validates(Keyless) && ValidateLinked(Linked(Keyless, true)) == Answer(false)
    ensures RemoveValue(JustThree, 3).tree.root.None? && RemoveLinked(Linked(JustThree, true), 3).tree == Keyless
  {
    ThreeValid();
    StaleCollapse();
    StaleDeletes();
    StaleValidate();
    StaleRemove();
  }
}
