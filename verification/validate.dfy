/**
 * The structural check `validate`. As written it looks at every node once:
 * its keys are sorted, its key and child counts are within the bounds for a
 * root or a non-root node, the first child ends at most at the first key, the
 * last child starts at least at the last key, and each inner child starts at
 * least at the key left of it and ends at most at the key right of it. It
 * never compares keys deeper down with the separators above, and never
 * compares leaf depths, so it accepts trees whose in-order sequence is not
 * sorted and trees whose leaves lie at different depths. A missing key or
 * child read during the comparisons raises an exception instead of an answer.
 *
 * The corrected check passes the key range allowed by all the separators
 * above down the tree and fixes the depth of every leaf; it accepts exactly
 * the B-trees with a sorted in-order sequence.
 */
module Validate {
  import opened Seqs
  import opened Nodes

  /** What `validate` produces: an answer, or an exception raised on the way. */
  datatype Answer = Answer(valid: bool) | Throws

  /** Neighbouring keys in non-decreasing order: the first check on every node. */
  predicate Sorted(ks: seq<int>) {
    forall i :: 0 < i < |ks| ==> ks[i - 1] <= ks[i]
  }

  /** Key `i` as the code reads it: a slot outside the stored keys holds no key. */
  function KeyAt(ks: seq<int>, i: int): (r: Option<int>)
    ensures r.Some? <==> 0 <= i < |ks|
    ensures r.Some? ==> r.value == ks[i]
  {
    if 0 <= i < |ks| then Some(ks[i]) else None
  }

  /**
   * `a.compareTo(b)`: the sign of `a - b`, or no result (an exception) when
   * either key is missing.
   */
  function Compare(a: Option<int>, b: Option<int>): (r: Option<int>)
    ensures r.Some? <==> a.Some? && b.Some?
    ensures r.Some? ==> (r.value > 0 <==> a.value > b.value) && (r.value < 0 <==> a.value < b.value)
  {
    if a.None? || b.None? then None
    else if a.value < b.value then Some(-1)
    else if a.value == b.value then Some(0)
    else Some(1)
  }

  /** `validate` on a whole tree: the empty tree is valid, otherwise the root is checked as a root. */
  function ValidateTree(root: Option<Node>, t: nat): (r: Answer)
    ensures root.None? ==> r == Answer(true)
    ensures root.Some? && r == Answer(true) ==> Sorted(root.value.keys) && |root.value.keys| <= MaxKeys(t)
  {
    match root
    case None => Answer(true)
    case Some(n) => ValidateNode(n, true, t)
  }

  /** `validateNode`: checks one node against its children, then every child as a non-root node. */
  function ValidateNode(n: Node, isRoot: bool, t: nat): (r: Answer)
    ensures !Sorted(n.keys) || |n.keys| > MaxKeys(t) || (!isRoot && |n.keys| < t) ==> r == Answer(false)
    ensures isRoot && |n.children| == 1 ==> r == Answer(false)
    ensures !isRoot && n.children != [] && |n.children| != |n.keys| + 1 ==> r == Answer(false)
    ensures |n.children| > MaxKeys(t) + 1 ==> r == Answer(false)
    ensures n.children == [] ==> r.Answer?
    decreases n, 1
  {
    var ks, cs := n.keys, n.children;
    if !Sorted(ks) || |ks| > MaxKeys(t) then Answer(false)
    else if !isRoot && |ks| < t then Answer(false)
    else if cs == [] then Answer(true)
    else if isRoot && (|cs| < 2 || |cs| > MaxKeys(t) + 1) then Answer(false)
    else if !isRoot && (|ks| != |cs| - 1 || |cs| < t + 1 || |cs| > MaxKeys(t) + 1) then Answer(false)
    else
      var s := Separators(ks, cs);
      if s != Answer(true) then s else ValidateChildren(cs, 0, t)
  }

  /**
   * The comparisons of one node with its children: the last key of the first
   * child against the first key, the first key of the last child against the
   * last key, then each inner child against the keys around it.
   */
  function Separators(ks: seq<int>, cs: seq<Node>): (r: Answer)
    requires cs != []
  {
    var first, last := cs[0], cs[|cs| - 1];
    match Compare(KeyAt(first.keys, |first.keys| - 1), KeyAt(ks, 0))
    case None => Throws
    case Some(c) =>
      if c > 0 then Answer(false)
      else match Compare(KeyAt(last.keys, 0), KeyAt(ks, |ks| - 1))
        case None => Throws
        case Some(d) => if d < 0 then Answer(false) else Inner(ks, cs, 1)
  }

  /** The inner children from `i` on: child `i` starts at least at key `i - 1` and ends at most at key `i`. */
  function Inner(ks: seq<int>, cs: seq<Node>, i: nat): (r: Answer)
    decreases |ks| - i
  {
    if i >= |ks| then Answer(true)
    else if i >= |cs| then Throws
    else
      var c := cs[i];
      match Compare(KeyAt(ks, i - 1), KeyAt(c.keys, 0))
      case None => Throws
      case Some(d) =>
        if d > 0 then Answer(false)
        else match Compare(KeyAt(ks, i), KeyAt(c.keys, |c.keys| - 1))
          case None => Throws
          case Some(e) => if e < 0 then Answer(false) else Inner(ks, cs, i + 1)
  }

  /** The children from `i` on, each as a non-root node; the first one that is not valid decides. */
  function ValidateChildren(cs: seq<Node>, i: nat, t: nat): (r: Answer)
    decreases cs, 0, |cs| - i
  {
    if i >= |cs| then Answer(true)
    else
      var a := ValidateNode(cs[i], false, t);
      if a != Answer(true) then a else ValidateChildren(cs, i + 1, t)
  }

  // ---------------------------------------------------------------------------
  // The corrected check.

  /** Every element lies within the optional bounds, both inclusive. */
  predicate Within(s: seq<int>, low: Option<int>, high: Option<int>) {
    forall x | x in s :: (low.Some? ==> low.value <= x) && (high.Some? ==> x <= high.value)
  }

  /** The lower bound for child `i`: the key left of it, or the node's own bound for the first child. */
  function LoOf(ks: seq<int>, low: Option<int>, i: nat): Option<int>
    requires i <= |ks|
  {
    if i == 0 then low else Some(ks[i - 1])
  }

  /** The upper bound for child `i`: the key right of it, or the node's own bound for the last child. */
  function HiOf(ks: seq<int>, high: Option<int>, i: nat): Option<int>
    requires i <= |ks|
  {
    if i == |ks| then high else Some(ks[i])
  }

  /**
   * The corrected node check: the key count is within the bounds, the keys
   * are sorted and lie within the range the separators above allow, leaves
   * lie exactly at depth `h`, and every child passes the check for the range
   * between the keys around it.
   */
  predicate ValidNode(n: Node, t: nat, h: nat, lo: nat, low: Option<int>, high: Option<int>)
    decreases n
  {
    && lo <= |n.keys| <= MaxKeys(t)
    && Sorted(n.keys)
    && Within(n.keys, low, high)
    && (h == 0 <==> n.children == [])
    && (h > 0 ==>
          && |n.children| == |n.keys| + 1
          && forall i :: 0 <= i < |n.children| ==>
               ValidNode(n.children[i], t, h - 1, t, LoOf(n.keys, low, i), HiOf(n.keys, high, i)))
  }

  /** The corrected `validate` on a non-empty tree: the root is checked at the depth of its leftmost leaf. */
  predicate ValidTree(root: Node, t: nat) {
    ValidNode(root, t, Height(root), if root.children == [] then 0 else 1, None, None)
  }

  // ---------------------------------------------------------------------------
  // Sorted neighbours are sorted throughout.

  lemma {:induction false} SortedChain(ks: seq<int>, i: nat, j: nat)
    requires Sorted(ks) && i <= j < |ks|
    ensures ks[i] <= ks[j]
    decreases j - i
  {
    if i < j {
      SortedChain(ks, i, j - 1);
    }
  }

  /** Checking neighbouring keys is checking the whole order. */
  lemma SortedOrdered(ks: seq<int>)
    ensures Sorted(ks) <==> Ordered(ks, false)
  {
    if Sorted(ks) {
      forall i, j | 0 <= i < j < |ks| ensures Le(ks[i], ks[j], false) {
        SortedChain(ks, i, j);
      }
    }
    if Ordered(ks, false) {
      forall i | 0 < i < |ks| ensures ks[i - 1] <= ks[i] {
        assert Le(ks[i - 1], ks[i], false);
      }
    }
  }

  // ---------------------------------------------------------------------------
  // The corrected check accepts exactly the ordered B-trees.

  /** An ordered piece, a key, and an ordered piece, each within the bounds around the key, are ordered. */
  lemma PivotJoin(a: seq<int>, m: int, b: seq<int>, low: Option<int>, high: Option<int>)
    requires Ordered(a, false) && Within(a, low, Some(m))
    requires Ordered(b, false) && Within(b, Some(m), high)
    requires Within([m], low, high)
    ensures Ordered(a + [m] + b, false) && Within(a + [m] + b, low, high)
  {
    assert m in [m];
    forall i, j | 0 <= i < |a| && 0 <= j < |[m]| ensures Le(a[i], [m][j], false) {
      assert a[i] in a;
    }
    OrderedAppend(a, [m], false);
    forall i, j | 0 <= i < |a + [m]| && 0 <= j < |b| ensures Le((a + [m])[i], b[j], false) {
      assert b[j] in b;
      if i < |a| {
        assert (a + [m])[i] == a[i] && a[i] in a;
      }
    }
    OrderedAppend(a + [m], b, false);
    forall x | x in a + [m] + b ensures (low.Some? ==> low.value <= x) && (high.Some? ==> x <= high.value) {
      if x in a {
        assert low.Some? ==> low.value <= x;
        assert x <= m;
      } else if x in b {
        assert m <= x;
      }
    }
  }

  /** Children ordered within the ranges between their separators interleave with sorted keys into an ordered sequence. */
  lemma {:induction false} InterleaveWithin(ks: seq<int>, cs: seq<Node>, low: Option<int>, high: Option<int>)
    requires |cs| == |ks| + 1
    requires Ordered(ks, false) && Within(ks, low, high)
    requires forall i :: 0 <= i < |cs| ==>
      Ordered(InOrder(cs[i]), false) && Within(InOrder(cs[i]), LoOf(ks, low, i), HiOf(ks, high, i))
    ensures Ordered(Interleave(ks, cs), false) && Within(Interleave(ks, cs), low, high)
    decreases |ks|
  {
    if ks == [] {
      assert Interleave(ks, cs) == InOrder(cs[0]) + Interleave([], cs[1..]);
      assert cs[1..] == [];
      assert InOrder(cs[0]) + [] == InOrder(cs[0]);
    } else {
      var m, ks1, cs1 := ks[0], ks[1..], cs[1..];
      assert Ordered(ks1, false) by {
        OrderedSlice(ks, 1, |ks|, false);
        assert ks[1..|ks|] == ks1;
      }
      assert Within(ks1, Some(m), high) by {
        forall x | x in ks1 ensures m <= x && (high.Some? ==> x <= high.value) {
          var j :| 0 <= j < |ks1| && ks1[j] == x;
          assert ks[j + 1] == x && ks[j + 1] in ks;
          assert Le(ks[0], ks[j + 1], false);
        }
      }
      forall i | 0 <= i < |cs1|
        ensures Ordered(InOrder(cs1[i]), false) && Within(InOrder(cs1[i]), LoOf(ks1, Some(m), i), HiOf(ks1, high, i))
      {
        assert cs1[i] == cs[i + 1];
        assert LoOf(ks1, Some(m), i) == LoOf(ks, low, i + 1);
        assert HiOf(ks1, high, i) == HiOf(ks, high, i + 1);
      }
      InterleaveWithin(ks1, cs1, Some(m), high);
      assert Ordered(InOrder(cs[0]), false) && Within(InOrder(cs[0]), low, Some(m)) by {
        assert LoOf(ks, low, 0) == low && HiOf(ks, high, 0) == Some(m);
      }
      assert Within([m], low, high) by {
        assert m in ks;
      }
      PivotJoin(InOrder(cs[0]), m, Interleave(ks1, cs1), low, high);
    }
  }

  /** What the corrected check accepts is a B-tree whose in-order sequence is ordered and within the bounds. */
  lemma {:induction false} ValidNodeSound(n: Node, t: nat, h: nat, lo: nat, low: Option<int>, high: Option<int>)
    requires ValidNode(n, t, h, lo, low, high)
    ensures Shape(n, t, h, lo) && Ordered(InOrder(n), false) && Within(InOrder(n), low, high)
    decreases n
  {
    SortedOrdered(n.keys);
    if h > 0 {
      forall i | 0 <= i < |n.children|
        ensures Shape(n.children[i], t, h - 1, t)
        ensures Ordered(InOrder(n.children[i]), false)
        ensures Within(InOrder(n.children[i]), LoOf(n.keys, low, i), HiOf(n.keys, high, i))
      {
        ValidNodeSound(n.children[i], t, h - 1, t, LoOf(n.keys, low, i), HiOf(n.keys, high, i));
      }
      InterleaveWithin(n.keys, n.children, low, high);
    }
  }

  /** Child `i` of an ordered node within bounds is within the range between its separators. */
  lemma ChildWithin(n: Node, i: nat, low: Option<int>, high: Option<int>)
    requires n.children != [] && |n.children| == |n.keys| + 1 && i < |n.children|
    requires Ordered(InOrder(n), false) && Within(InOrder(n), low, high)
    ensures Within(InOrder(n.children[i]), LoOf(n.keys, low, i), HiOf(n.keys, high, i))
  {
    var c := InOrder(n.children[i]);
    NodeHole(n, i);
    ChildBounds(n, i, false);
    forall x | x in c
      ensures (LoOf(n.keys, low, i).Some? ==> LoOf(n.keys, low, i).value <= x)
      ensures (HiOf(n.keys, high, i).Some? ==> x <= HiOf(n.keys, high, i).value)
    {
      var j :| 0 <= j < |c| && c[j] == x;
      assert x in InOrder(n);
    }
  }

  /** Every ordered B-tree within bounds passes the corrected check. */
  lemma {:induction false} ValidNodeComplete(n: Node, t: nat, h: nat, lo: nat, low: Option<int>, high: Option<int>)
    requires Shape(n, t, h, lo) && Ordered(InOrder(n), false) && Within(InOrder(n), low, high)
    ensures ValidNode(n, t, h, lo, low, high)
    decreases n
  {
    var ks := n.keys;
    if h > 0 {
      NodeKeys(n, false);
      forall i | 0 <= i < |n.children|
        ensures ValidNode(n.children[i], t, h - 1, t, LoOf(ks, low, i), HiOf(ks, high, i))
      {
        ChildOrdered(n, i, false);
        ChildWithin(n, i, low, high);
        ValidNodeComplete(n.children[i], t, h - 1, t, LoOf(ks, low, i), HiOf(ks, high, i));
      }
    }
    SortedOrdered(ks);
  }

  /** The corrected `validate` accepts a tree exactly when it is a B-tree with a sorted in-order sequence. */
  lemma ValidTreeIff(root: Node, t: nat)
    ensures ValidTree(root, t) <==> RootShape(root, t) && Ordered(InOrder(root), false)
  {
    var h, lo := Height(root), if root.children == [] then 0 else 1;
    if ValidTree(root, t) {
      ValidNodeSound(root, t, h, lo, None, None);
    }
    if RootShape(root, t) && Ordered(InOrder(root), false) {
      ValidNodeComplete(root, t, h, lo, None, None);
    }
  }

  // ---------------------------------------------------------------------------
  // The check as written accepts every tree the corrected one accepts.

  /** The inner children that the corrected check accepts pass the comparisons with their separators. */
  lemma {:induction false} InnerAccepts(n: Node, t: nat, h: nat, lo: nat, low: Option<int>, high: Option<int>, i: nat)
    requires 1 <= t && ValidNode(n, t, h, lo, low, high) && h > 0 && 1 <= i
    ensures Inner(n.keys, n.children, i) == Answer(true)
    decreases |n.keys| - i
  {
    var ks, cs := n.keys, n.children;
    if i < |ks| {
      assert ValidNode(cs[i], t, h - 1, t, Some(ks[i - 1]), Some(ks[i]));
      assert cs[i].keys[0] in cs[i].keys;
      assert cs[i].keys[|cs[i].keys| - 1] in cs[i].keys;
      InnerAccepts(n, t, h, lo, low, high, i + 1);
    }
  }

  /** A node that the corrected check accepts passes the comparisons with its children. */
  lemma SeparatorsAccept(n: Node, t: nat, h: nat, lo: nat, low: Option<int>, high: Option<int>)
    requires 1 <= t && 1 <= lo && ValidNode(n, t, h, lo, low, high) && h > 0
    ensures Separators(n.keys, n.children) == Answer(true)
  {
    FirstFits(n, t, h, lo, low, high);
    LastFits(n, t, h, lo, low, high);
    InnerAccepts(n, t, h, lo, low, high, 1);
  }

  /** The first child ends at most at the first key. */
  lemma FirstFits(n: Node, t: nat, h: nat, lo: nat, low: Option<int>, high: Option<int>)
    requires 1 <= t && 1 <= lo && ValidNode(n, t, h, lo, low, high) && h > 0
    ensures var f := n.children[0];
      f.keys != [] && Compare(KeyAt(f.keys, |f.keys| - 1), KeyAt(n.keys, 0)) == Some(if f.keys[|f.keys| - 1] < n.keys[0] then -1 else 0)
  {
    var f := n.children[0];
    assert ValidNode(f, t, h - 1, t, LoOf(n.keys, low, 0), Some(n.keys[0]));
    assert f.keys[|f.keys| - 1] in f.keys;
  }

  /** The last child starts at least at the last key. */
  lemma LastFits(n: Node, t: nat, h: nat, lo: nat, low: Option<int>, high: Option<int>)
    requires 1 <= t && 1 <= lo && ValidNode(n, t, h, lo, low, high) && h > 0
    ensures var l := n.children[|n.children| - 1];
      l.keys != [] && Compare(KeyAt(l.keys, 0), KeyAt(n.keys, |n.keys| - 1)) == Some(if l.keys[0] == n.keys[|n.keys| - 1] then 0 else 1)
  {
    var ks := n.keys;
    var l := n.children[|n.children| - 1];
    assert ValidNode(l, t, h - 1, t, Some(ks[|ks| - 1]), HiOf(ks, high, |ks|));
    assert l.keys[0] in l.keys;
  }

  /** Children that all pass the check as written let the scan over them pass. */
  lemma {:induction false} ChildrenAccept(cs: seq<Node>, i: nat, t: nat)
    requires forall j :: i <= j < |cs| ==> ValidateNode(cs[j], false, t) == Answer(true)
    ensures ValidateChildren(cs, i, t) == Answer(true)
    decreases |cs| - i
  {
    if i < |cs| {
      ChildrenAccept(cs, i + 1, t);
    }
  }

  /** Every node the corrected check accepts, as a root or below one, passes the check as written. */
  lemma {:induction false} NodeAccepts(n: Node, isRoot: bool, t: nat, h: nat, lo: nat, low: Option<int>, high: Option<int>)
    requires 1 <= t && ValidNode(n, t, h, lo, low, high)
    requires if isRoot then h > 0 ==> 1 <= lo else lo == t
    ensures ValidateNode(n, isRoot, t) == Answer(true)
    decreases n
  {
    if h > 0 {
      var ks, cs := n.keys, n.children;
      forall j | 0 <= j < |cs| ensures ValidateNode(cs[j], false, t) == Answer(true) {
        NodeAccepts(cs[j], false, t, h - 1, t, LoOf(ks, low, j), HiOf(ks, high, j));
      }
      ChildrenAccept(cs, 0, t);
      SeparatorsAccept(n, t, h, lo, low, high);
    }
  }

  /** `validate` as written accepts every B-tree whose in-order sequence is sorted. */
  lemma ValidateAccepts(root: Node, t: nat)
    requires 1 <= t && RootShape(root, t) && Ordered(InOrder(root), false)
    ensures ValidateTree(Some(root), t) == Answer(true)
  {
    var h, lo := Height(root), if root.children == [] then 0 else 1;
    ValidTreeIff(root, t);
    NodeAccepts(root, true, t, h, lo, None, None);
  }

  // ---------------------------------------------------------------------------
  // Trees the check as written accepts although they are not B-trees.

  /** With minimum key count 1: a root 10 over the subtrees 5 (1, 12) and 20 (15, 25); 12 lies right of 10. */
  const Disorder := Node([10], [Node([5], [Node([1], []), Node([12], [])]), Node([20], [Node([15], []), Node([25], [])])])

  /** With minimum key count 1: a root 10 over the leaf 5 and the subtree 20 (15, 25); the leaves lie at depths 1 and 2. */
  const Unbalanced := Node([10], [Node([5], []), Node([20], [Node([15], []), Node([25], [])])])

  /** With minimum key count 1: a keyless root over two leaves; reading its first key raises an exception. */
  const Keyless := Node([], [Node([1], []), Node([2], [])])

  /** Leaves that hold one key pass as non-root nodes for minimum key count 1. */
  lemma LeafPasses(k: int)
    ensures ValidateNode(Node([k], []), false, 1) == Answer(true)
  {
  }

  /** A one-key node over two leaves whose keys do not cross it passes as a non-root node. */
  lemma TwigPasses(a: int, m: int, b: int)
    requires a <= m <= b
    ensures ValidateNode(Node([m], [Node([a], []), Node([b], [])]), false, 1) == Answer(true)
  {
    var n := Node([m], [Node([a], []), Node([b], [])]);
    LeafPasses(a);
    LeafPasses(b);
    ChildrenAccept(n.children, 0, 1);
  }

  /** The root 10 with children starting at or below it and ending at or above it passes. */
  lemma RootPasses(l: Node, r: Node)
    requires ValidateNode(l, false, 1) == Answer(true) && ValidateNode(r, false, 1) == Answer(true)
    requires l.keys == [5] && r.keys == [20]
    ensures ValidateNode(Node([10], [l, r]), true, 1) == Answer(true)
  {
    ChildrenAccept([l, r], 0, 1);
  }

  /** The disordered example passes the check as written. */
  lemma DisorderPasses()
    ensures ValidateTree(Some(Disorder), 1) == Answer(true)
  {
    TwigPasses(1, 5, 12);
    TwigPasses(15, 20, 25);
    RootPasses(Disorder.children[0], Disorder.children[1]);
  }

  /** The disordered example has the shape of a B-tree. */
  lemma DisorderShape()
    ensures RootShape(Disorder, 1)
  {
    var l, r := Disorder.children[0], Disorder.children[1];
    assert Shape(l, 1, 1, 1) && Shape(r, 1, 1, 1);
    assert Height(Disorder) == 2;
  }

  /**
   * `validate` as written accepts a tree of the right shape whose in-order
   * sequence 1, 5, 12, 10, 15, 20, 25 is not sorted: 12 sits below the left
   * separator 10 but is only compared with its own parent 5.
   */
  lemma ValidateMissesDisorder()
    ensures ValidateTree(Some(Disorder), 1) == Answer(true)
    ensures RootShape(Disorder, 1)
    ensures !Ordered(InOrder(Disorder), false)
    ensures !ValidTree(Disorder, 1)
  {
    DisorderPasses();
    DisorderShape();
    DisorderInOrder();
    var s := InOrder(Disorder);
    assert !Le(s[2], s[3], false);
    ValidTreeIff(Disorder, 1);
  }

  /** The in-order sequence of the disordered example. */
  lemma DisorderInOrder()
    ensures InOrder(Disorder) == [1, 5, 12, 10, 15, 20, 25]
  {
    var l, r := Disorder.children[0], Disorder.children[1];
    TwigInOrder(1, 5, 12);
    TwigInOrder(15, 20, 25);
    TwoChildren(10, l, r);
  }

  /** A one-key node over two children reads the first child, the key, the second child. */
  lemma TwoChildren(m: int, l: Node, r: Node)
    ensures InOrder(Node([m], [l, r])) == InOrder(l) + [m] + InOrder(r)
  {
    var cs := [l, r];
    assert cs[1..] == [r] && [m][1..] == [];
    assert [r][1..] == [];
    assert Interleave([], [r]) == InOrder(r) + Interleave([], []);
  }

  /** A one-key node over two leaves reads left leaf, key, right leaf. */
  lemma TwigInOrder(a: int, m: int, b: int)
    ensures InOrder(Node([m], [Node([a], []), Node([b], [])])) == [a, m, b]
  {
    TwoChildren(m, Node([a], []), Node([b], []));
  }

  /** `validate` as written accepts a tree of sorted keys whose leaves lie at different depths. */
  lemma ValidateMissesDepth()
    ensures ValidateTree(Some(Unbalanced), 1) == Answer(true)
    ensures !RootShape(Unbalanced, 1)
    ensures !ValidTree(Unbalanced, 1)
  {
    LeafPasses(5);
    TwigPasses(15, 20, 25);
    RootPasses(Unbalanced.children[0], Unbalanced.children[1]);
    assert Height(Unbalanced) == 1;
    assert !Shape(Unbalanced.children[1], 1, 0, 1);
    ValidTreeIff(Unbalanced, 1);
  }

  /** `validate` as written raises an exception on a keyless root with children instead of answering no. */
  lemma ValidateThrowsKeyless()
    ensures ValidateTree(Some(Keyless), 1) == Throws
    ensures !ValidTree(Keyless, 1)
  {
  }
}
