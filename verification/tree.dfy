/**
 * The tree object: an optional root, the `size` counter kept next to it, and
 * the minimum key count of a non-root node fixed by the constructor. Every
 * public operation is modelled here on top of its node-level function, and
 * the size counter is tied to the number of stored keys.
 */
module Trees {
  import opened Seqs
  import opened Nodes
  import opened Search
  import opened Insert
  import opened Insert2Pass
  import opened Add
  import opened Delete
  import opened DeleteContent
  import opened DeleteRoot
  import opened Remove
  import opened RemoveShape
  import opened RemoveContent
  import opened Validate

  /** `root` is null for the empty tree; `t` is `minKeySize`. */
  datatype BTree = BTree(root: Option<Node>, size: int, t: nat)

  /** What `delete` and `remove` hand back: the tree after the call and the value taken out, if any. */
  datatype Removal = Removal(tree: BTree, removed: Option<int>)

  /** The keys of the tree in order. */
  function Contents(b: BTree): seq<int> {
    match b.root
    case None => []
    case Some(n) => InOrder(n)
  }

  /** A well-formed tree: every node within the key bounds, all leaves at one depth, and `size` counting the keys. */
  predicate Valid(b: BTree) {
    && 1 <= b.t
    && b.size == |Contents(b)|
    && (b.root.Some? ==> RootShape(b.root.value, b.t))
  }

  /**
   * The tree built with the given order, which is one more than the minimum
   * key count; the default constructor uses order 2.
   */
  function New(order: nat): (b: BTree)
    requires 2 <= order
    ensures Valid(b) && Contents(b) == [] && MaxKeys(b.t) + 1 == 2 * order
  {
    BTree(None, 0, order - 1)
  }

  /** `insert`: a first value becomes a one-key root, otherwise the top-down insertion runs. */
  function InsertValue(b: BTree, v: int): (r: BTree)
    requires Valid(b)
    ensures r.t == b.t && r.size == b.size + 1 && r.root.Some?
  {
    match b.root
    case None => BTree(Some(Node([v], [])), b.size + 1, b.t)
    case Some(n) => BTree(Some(InsertRoot(n, v, b.t)), b.size + 1, b.t)
  }

  /** `insert2pass`: a first value becomes a one-key root, otherwise the two-pass insertion runs. */
  function Insert2PassValue(b: BTree, v: int): (r: BTree)
    requires Valid(b)
    ensures r.t == b.t && r.size == b.size + 1 && r.root.Some?
  {
    match b.root
    case None => BTree(Some(Node([v], [])), b.size + 1, b.t)
    case Some(n) => BTree(Some(Insert2Root(n, v, b.t)), b.size + 1, b.t)
  }

  /** `add`: a first value becomes a one-key root, otherwise the bottom-up insertion runs. */
  function AddValue(b: BTree, v: int): (r: BTree)
    requires Valid(b)
    ensures r.t == b.t && r.size == b.size + 1 && r.root.Some?
  {
    match b.root
    case None => BTree(Some(Node([v], [])), b.size + 1, b.t)
    case Some(n) => BTree(Some(AddRoot(n, v, b.t)), b.size + 1, b.t)
  }

  /**
   * `delete`. The code reads the root without checking it, so on the empty
   * tree it throws; like a value it does not find, that is reported here as
   * nothing removed, with the counter unchanged.
   */
  function DeleteValue(b: BTree, v: int): (r: Removal)
    requires Valid(b)
    ensures r.tree.t == b.t
    ensures r.removed.Some? ==> r.removed.value == v && r.tree.size == b.size - 1
    ensures r.removed.None? ==> r.tree.size == b.size
  {
    match b.root
    case None => Removal(b, None)
    case Some(n) =>
      var d := DeleteAt(n, v, b.t);
      if d.found then Removal(BTree(Some(d.n), b.size - 1, b.t), Some(v))
      else Removal(BTree(Some(d.n), b.size, b.t), None)
  }

  /** `remove`: nothing happens unless the search finds the value; an emptied root leaf leaves the tree empty. */
  function RemoveValue(b: BTree, v: int): (r: Removal)
    requires Valid(b)
    ensures r.tree.t == b.t
    ensures r.removed.Some? ==> r.removed.value == v && r.tree.size == b.size - 1
    ensures r.removed.None? ==> r.tree == b
  {
    match b.root
    case None => Removal(b, None)
    case Some(n) =>
      if !Contains(n, v) then Removal(b, None)
      else Removal(BTree(RemoveRoot(n, v, b.t), b.size - 1, b.t), Some(v))
  }

  /** `contains`: whether the search from the root finds the value. */
  function Has(b: BTree, v: int): bool {
    match b.root
    case None => false
    case Some(n) => Contains(n, v)
  }

  /** `clear`: drops the root and resets the counter. */
  function Clear(b: BTree): (r: BTree)
    ensures r.t == b.t && Contents(r) == [] && r.size == 0
    ensures 1 <= b.t ==> Valid(r)
  {
    BTree(None, 0, b.t)
  }

  /** `validate` as written, an exception counting as a rejection. */
  predicate Validates(b: BTree) {
    ValidateTree(b.root, b.t) == Answer(true)
  }

  // ---------------------------------------------------------------------------
  // What the operations do to the stored keys.

  /** On a valid tree with sorted keys, the search finds exactly the stored values. */
  lemma HasIff(b: BTree, v: int)
    requires Valid(b) && Ordered(Contents(b), false)
    ensures Has(b, v) <==> v in Contents(b)
  {
    if b.root.Some? {
      var n := b.root.value;
      ContainsIff(n, v, b.t, Height(n), if n.children == [] then 0 else 1);
    }
  }

  /** The one-key root made for the first value. */
  lemma FirstRoot(v: int, t: nat)
    requires 1 <= t
    ensures RootShape(Node([v], []), t) && InOrder(Node([v], [])) == [v] == AddKey([], v)
  {
  }

  /** A valid tree with sorted keys that gains `v` in sorted position stays sorted, keeps its count and finds `v`. */
  lemma Gained(b: BTree, r: BTree, v: int)
    requires Valid(b) && Ordered(Contents(b), false)
    requires r.t == b.t && r.size == b.size + 1 && (r.root.Some? ==> RootShape(r.root.value, r.t))
    requires Contents(r) == AddKey(Contents(b), v)
    ensures Valid(r) && Ordered(Contents(r), false) && Has(r, v)
  {
    AddKeyOrdered(Contents(b), v, false);
    assert v in multiset(Contents(r));
    HasIff(r, v);
  }

  /** `insert` keeps the tree valid and sorted, adds `v` to the keys in order, counts it and finds it afterwards. */
  lemma InsertValid(b: BTree, v: int)
    requires Valid(b) && Ordered(Contents(b), false)
    ensures var r := InsertValue(b, v);
      && Valid(r) && Contents(r) == AddKey(Contents(b), v)
      && Ordered(Contents(r), false) && Has(r, v)
  {
    var r := InsertValue(b, v);
    match b.root
    case None => FirstRoot(v, b.t);
    case Some(n) =>
      InsertRootShape(n, v, b.t);
      InsertRootContent(n, v, b.t);
    Gained(b, r, v);
  }

  /** `insert2pass` keeps the tree valid and sorted, adds `v` to the keys in order, counts it and finds it afterwards. */
  lemma Insert2PassValid(b: BTree, v: int)
    requires Valid(b) && Ordered(Contents(b), false)
    ensures var r := Insert2PassValue(b, v);
      && Valid(r) && Contents(r) == AddKey(Contents(b), v)
      && Ordered(Contents(r), false) && Has(r, v)
  {
    var r := Insert2PassValue(b, v);
    match b.root
    case None => FirstRoot(v, b.t);
    case Some(n) =>
      Insert2RootShape(n, v, b.t);
      Insert2RootContent(n, v, b.t);
    Gained(b, r, v);
  }

  /** `add` keeps the tree valid and sorted, adds `v` to the keys in order, counts it and finds it afterwards. */
  lemma AddValid(b: BTree, v: int)
    requires Valid(b) && Ordered(Contents(b), false)
    ensures var r := AddValue(b, v);
      && Valid(r) && Contents(r) == AddKey(Contents(b), v)
      && Ordered(Contents(r), false) && Has(r, v)
  {
    var r := AddValue(b, v);
    match b.root
    case None => FirstRoot(v, b.t);
    case Some(n) =>
      AddRootShape(n, v, b.t);
      AddRootContent(n, v, b.t);
    Gained(b, r, v);
  }

  /**
   * `delete` on a valid tree with distinct sorted keys keeps it valid, takes
   * `v` out of the keys once, and reports it removed exactly when it was
   * stored.
   */
  lemma DeleteValid(b: BTree, v: int)
    requires Valid(b) && Ordered(Contents(b), true)
    ensures var r := DeleteValue(b, v);
      && Valid(r.tree) && Contents(r.tree) == RemoveKey(Contents(b), v)
      && (r.removed.Some? <==> v in Contents(b))
  {
    if b.root.Some? {
      var n := b.root.value;
      DeleteAtShape(n, v, b.t);
      DeleteAtContent(n, v, b.t);
    }
  }

  /**
   * `remove` on a valid tree with distinct sorted keys keeps it valid, takes
   * `v` out of the keys once, reports it removed exactly when it was stored,
   * and leaves the tree empty exactly when `v` was its only key.
   */
  lemma RemoveValid(b: BTree, v: int)
    requires Valid(b) && Ordered(Contents(b), true)
    ensures var r := RemoveValue(b, v);
      && Valid(r.tree) && Contents(r.tree) == RemoveKey(Contents(b), v)
      && (r.removed.Some? <==> v in Contents(b))
      && (r.tree.root.None? <==> b.root.None? || Contents(b) == [v])
  {
    if b.root.Some? {
      var n := b.root.value;
      StrictIsOrdered(InOrder(n));
      ContainsIff(n, v, b.t, Height(n), if n.children == [] then 0 else 1);
      RemoveRootShape(n, v, b.t);
      RemoveRootContent(n, v, b.t);
    }
  }

  /** `validate` as written accepts every valid tree with sorted keys, the empty one included. */
  lemma ValidatesValid(b: BTree)
    requires Valid(b) && Ordered(Contents(b), false)
    ensures Validates(b)
  {
    if b.root.Some? {
      ValidateAccepts(b.root.value, b.t);
    }
  }
}
