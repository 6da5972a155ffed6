/**
 * The B-tree node and the structural facts every operation relies on: the
 * in-order key sequence of a subtree, its height, and the size and fan-out
 * bounds that make it a well-formed B-tree of minimum key count `t`.
 */
module Nodes {
  import opened Seqs

  /** An optional value: an absent root is an empty tree. */
  datatype Option<T> = None | Some(value: T)

  /** A node owns its keys and its children; a leaf has no children. */
  datatype Node = Node(keys: seq<int>, children: seq<Node>)

  /** The key capacity that goes with minimum key count `t`: 2 * (t + 1) - 1. */
  function MaxKeys(t: nat): nat {
    2 * (t + 1) - 1
  }

  /**
   * Keys and the in-order sequences of children interleaved:
   * `InOrder(cs[0]) + [ks[0]] + InOrder(cs[1]) + ...`.
   * Surplus keys or children are appended so that nothing is ever dropped.
   */
  function Interleave(ks: seq<int>, cs: seq<Node>): seq<int>
    decreases cs, 0
  {
    if cs == [] then ks
    else if ks == [] then InOrder(cs[0]) + Interleave(ks, cs[1..])
    else InOrder(cs[0]) + [ks[0]] + Interleave(ks[1..], cs[1..])
  }

  /** The keys of a subtree in the order a symmetric traversal visits them. */
  function InOrder(n: Node): seq<int>
    decreases n, 1
  {
    if n.children == [] then n.keys else Interleave(n.keys, n.children)
  }

  /** The empty leaf: its in-order sequence is empty. */
  const Blank := Node([], [])

  /** The length of the leftmost path. */
  function Height(n: Node): nat
    decreases n
  {
    if n.children == [] then 0 else 1 + Height(n.children[0])
  }

  /**
   * `n` is a B-tree of height `h` for minimum key count `t` whose top node holds
   * at least `lo` keys: every node holds at most `MaxKeys(t)` keys, every node
   * below the top at least `t`, every internal node one child more than keys,
   * and all leaves lie at depth `h`.
   */
  predicate Shape(n: Node, t: nat, h: nat, lo: nat)
    decreases n
  {
    && lo <= |n.keys| <= MaxKeys(t)
    && (h == 0 <==> n.children == [])
    && (h > 0 ==>
          && |n.children| == |n.keys| + 1
          && forall i :: 0 <= i < |n.children| ==> Shape(n.children[i], t, h - 1, t))
  }

  /** A root may hold any number of keys up to the capacity, but at least one if it has children. */
  predicate RootShape(n: Node, t: nat) {
    Shape(n, t, Height(n), if n.children == [] then 0 else 1)
  }

  lemma {:induction false} ShapeHeight(n: Node, t: nat, h: nat, lo: nat)
    requires Shape(n, t, h, lo)
    ensures Height(n) == h
    decreases n
  {
    if h > 0 {
      ShapeHeight(n.children[0], t, h - 1, t);
    }
  }

  lemma ShapeWeaken(n: Node, t: nat, h: nat, lo: nat, lo2: nat)
    requires Shape(n, t, h, lo) && lo2 <= lo
    ensures Shape(n, t, h, lo2)
  {
  }

  /** The lower bound on the top node's key count may be anything it meets. */
  lemma ShapeAtLeast(n: Node, t: nat, h: nat, lo: nat, lo2: nat)
    requires Shape(n, t, h, lo) && lo2 <= |n.keys|
    ensures Shape(n, t, h, lo2)
  {
  }

  /** A well-shaped subtree is a valid root. */
  lemma ShapeIsRootShape(n: Node, t: nat, h: nat, lo: nat)
    requires Shape(n, t, h, lo) && (h > 0 ==> 1 <= lo)
    ensures RootShape(n, t)
  {
    ShapeHeight(n, t, h, lo);
  }

  // ---------------------------------------------------------------------------
  // Cutting the in-order sequence of a node around one child.

  /** Everything a symmetric traversal of a node visits before child `i`. */
  function Before(ks: seq<int>, cs: seq<Node>, i: nat): seq<int>
    requires i <= |ks| && i <= |cs|
  {
    Interleave(ks[..i], cs[..i])
  }

  /** Everything a symmetric traversal of a node visits after child `i`. */
  function After(ks: seq<int>, cs: seq<Node>, i: nat): seq<int>
    requires i <= |ks| && i < |cs|
  {
    Interleave(ks[i..], [Blank] + cs[i + 1..])
  }

  lemma {:induction false} InterleaveHole(ks: seq<int>, cs: seq<Node>, i: nat)
    requires i < |cs| && i <= |ks|
    ensures Interleave(ks, cs)
         == Interleave(ks[..i], cs[..i]) + InOrder(cs[i]) + Interleave(ks[i..], [Blank] + cs[i + 1..])
    decreases i
  {
    if i == 0 {
      InterleaveFirst(ks, cs);
    } else {
      InterleaveHole(ks[1..], cs[1..], i - 1);
      assert ks[1..][..i - 1] == ks[..i][1..];
      assert cs[1..][..i - 1] == cs[..i][1..];
      assert ks[1..][i - 1..] == ks[i..];
      assert cs[1..][i - 1 + 1..] == cs[i + 1..];
    }
  }

  lemma InterleaveFirst(ks: seq<int>, cs: seq<Node>)
    requires 0 < |cs|
    ensures Interleave(ks, cs) == InOrder(cs[0]) + Interleave(ks, [Blank] + cs[1..])
  {
    assert ([Blank] + cs[1..])[1..] == cs[1..];
    assert InOrder(Blank) == [];
  }

  /** A node's in-order sequence cut around child `i`. */
  lemma NodeHole(n: Node, i: nat)
    requires n.children != [] && |n.children| == |n.keys| + 1 && i < |n.children|
    ensures InOrder(n) == Before(n.keys, n.children, i) + InOrder(n.children[i]) + After(n.keys, n.children, i)
  {
    InterleaveHole(n.keys, n.children, i);
  }

  /** The in-order sequence before child `i` ends with the key just left of it. */
  lemma BeforeStep(ks: seq<int>, cs: seq<Node>, i: nat)
    requires 0 < i <= |ks| && i <= |cs|
    ensures Before(ks, cs, i) == Before(ks, cs, i - 1) + InOrder(cs[i - 1]) + [ks[i - 1]]
  {
    var k := ks[..i];
    var c := cs[..i];
    InterleaveHole(k, c, i - 1);
    assert k[..i - 1] == ks[..i - 1];
    assert c[..i - 1] == cs[..i - 1];
    assert k[i - 1..] == [ks[i - 1]];
    assert c[i..] == [];
    var tl := [Blank] + c[i..];
    assert tl[1..] == [];
    assert InOrder(Blank) == [];
  }

  /** After child `i` come the key right of it and the rest of the node from child `i + 1` on. */
  lemma AfterKey(ks: seq<int>, cs: seq<Node>, i: nat)
    requires i < |ks| && i < |cs|
    ensures After(ks, cs, i) == [ks[i]] + Interleave(ks[i + 1..], cs[i + 1..])
  {
    var tl := [Blank] + cs[i + 1..];
    assert tl[1..] == cs[i + 1..] && ks[i..][1..] == ks[i + 1..] && ks[i..][0] == ks[i];
    assert InOrder(Blank) == [];
  }

  /** The in-order sequence after child `i` starts with the key just right of it. */
  lemma AfterStep(ks: seq<int>, cs: seq<Node>, i: nat)
    requires i < |ks| && |cs| == |ks| + 1
    ensures After(ks, cs, i) == [ks[i]] + InOrder(cs[i + 1]) + After(ks, cs, i + 1)
  {
    var k1, c1 := ks[i + 1..], cs[i + 1..];
    AfterKey(ks, cs, i);
    var tl2 := [Blank] + cs[i + 2..];
    assert c1[0] == cs[i + 1] && c1[1..] == cs[i + 2..] && tl2[1..] == cs[i + 2..];
    if k1 == [] {
      assert Interleave(k1, c1) == InOrder(cs[i + 1]) + Interleave(k1, cs[i + 2..]);
    } else {
      assert k1[1..] == ks[i + 2..] && k1[0] == ks[i + 1];
      assert Interleave(k1, c1) == InOrder(cs[i + 1]) + [ks[i + 1]] + Interleave(ks[i + 2..], cs[i + 2..]);
    }
  }

  lemma AfterLast(ks: seq<int>, cs: seq<Node>)
    requires |cs| == |ks| + 1
    ensures After(ks, cs, |ks|) == []
  {
    assert ks[|ks|..] == [];
    assert cs[|ks| + 1..] == [];
    var one := [Blank];
    assert one[1..] == [];
    assert InOrder(Blank) == [];
    assert Interleave([], one) == InOrder(Blank) + Interleave([], one[1..]);
  }

  /** A node's in-order sequence cut around the adjacent children `i` and `i + 1`. */
  lemma NodeWindow(n: Node, i: nat)
    requires n.children != [] && |n.children| == |n.keys| + 1 && i + 1 < |n.children|
    ensures InOrder(n) == Before(n.keys, n.children, i) + InOrder(n.children[i]) + [n.keys[i]]
                          + InOrder(n.children[i + 1]) + After(n.keys, n.children, i + 1)
  {
    NodeHole(n, i);
    AfterStep(n.keys, n.children, i);
  }

  /** Replacing child `i` changes the in-order sequence only in that child's slot. */
  lemma InOrderReplace(n: Node, i: nat, c: Node)
    requires n.children != [] && |n.children| == |n.keys| + 1 && i < |n.children|
    ensures InOrder(Node(n.keys, n.children[i := c]))
         == Before(n.keys, n.children, i) + InOrder(c) + After(n.keys, n.children, i)
  {
    var m := Node(n.keys, n.children[i := c]);
    NodeHole(m, i);
    assert m.children[..i] == n.children[..i];
    assert m.children[i + 1..] == n.children[i + 1..];
  }

  /** The node `n` with child `i` replaced by `a`, new key `m` and `b`. */
  function Expand(n: Node, i: nat, a: Node, m: int, b: Node): (r: Node)
    requires i < |n.children| && i <= |n.keys|
    ensures |r.keys| == |n.keys| + 1 && |r.children| == |n.children| + 1
  {
    Node(InsertAt(n.keys, i, m), n.children[..i] + [a, b] + n.children[i + 1..])
  }

  /** Expanding child `i` into two children around a new key splices both into its slot. */
  lemma InOrderExpand(n: Node, i: nat, a: Node, m: int, b: Node)
    requires n.children != [] && |n.children| == |n.keys| + 1 && i < |n.children|
    ensures InOrder(Expand(n, i, a, m, b))
         == Before(n.keys, n.children, i) + (InOrder(a) + [m] + InOrder(b)) + After(n.keys, n.children, i)
  {
    var r := Expand(n, i, a, m, b);
    NodeWindow(r, i);
    assert r.keys[..i] == n.keys[..i];
    assert r.children[..i] == n.children[..i];
    assert r.keys[i + 1..] == n.keys[i..];
    assert r.children[i + 2..] == n.children[i + 1..];
  }

  /** Expanding keeps the shape when the node has room for one more key. */
  lemma ShapeExpand(n: Node, t: nat, h: nat, lo: nat, i: nat, a: Node, m: int, b: Node)
    requires Shape(n, t, h, lo) && h > 0 && i < |n.children| && |n.keys| < MaxKeys(t)
    requires Shape(a, t, h - 1, t) && Shape(b, t, h - 1, t)
    ensures Shape(Expand(n, i, a, m, b), t, h, lo)
  {
    var r := Expand(n, i, a, m, b);
    forall j | 0 <= j < |r.children| ensures Shape(r.children[j], t, h - 1, t) {
      if j < i {
        assert r.children[j] == n.children[j];
      } else if j > i + 1 {
        assert r.children[j] == n.children[j - 1];
      }
    }
  }

  /** Replacing a child by one of the same height keeps the shape. */
  lemma ShapeReplace(n: Node, t: nat, h: nat, lo: nat, i: nat, c: Node)
    requires Shape(n, t, h, lo) && h > 0 && i < |n.children| && Shape(c, t, h - 1, t)
    ensures Shape(Node(n.keys, n.children[i := c]), t, h, lo)
  {
  }

  /** The in-order sequence of a child is a slice of its parent's. */
  lemma ChildOrdered(n: Node, i: nat, strict: bool)
    requires n.children != [] && |n.children| == |n.keys| + 1 && i < |n.children|
    requires Ordered(InOrder(n), strict)
    ensures Ordered(InOrder(n.children[i]), strict)
  {
    NodeHole(n, i);
    var b := Before(n.keys, n.children, i);
    OrderedParts(b + InOrder(n.children[i]), After(n.keys, n.children, i), strict);
    OrderedParts(b, InOrder(n.children[i]), strict);
  }

  /** In an ordered subtree the keys of child `i` lie between the separators around it. */
  lemma ChildBounds(n: Node, i: nat, strict: bool)
    requires n.children != [] && |n.children| == |n.keys| + 1 && i < |n.children|
    requires Ordered(InOrder(n), strict)
    ensures 0 < i ==> LeAll(n.keys[i - 1], InOrder(n.children[i]), strict)
    ensures i < |n.keys| ==> AllLe(InOrder(n.children[i]), n.keys[i], strict)
  {
    var ks, cs := n.keys, n.children;
    var c := InOrder(cs[i]);
    NodeHole(n, i);
    var b := Before(ks, cs, i);
    var a := After(ks, cs, i);
    OrderedParts(b + c, a, strict);
    OrderedParts(b, c, strict);
    if 0 < i {
      BeforeStep(ks, cs, i);
      assert b[|b| - 1] == ks[i - 1];
    }
    if i < |ks| {
      AfterStep(ks, cs, i);
      assert a[0] == ks[i];
      forall j | 0 <= j < |c| ensures Le(c[j], ks[i], strict) {
        assert (b + c)[|b| + j] == c[j];
      }
    }
  }

  /**
   * A value that is not a key of an ordered internal node can only be in the
   * child the search descends into: the one left of the first greater key.
   */
  lemma Route(n: Node, v: int)
    requires n.children != [] && |n.children| == |n.keys| + 1
    requires Ordered(InOrder(n), false) && v !in n.keys
    ensures v in InOrder(n) <==> v in InOrder(n.children[ClosestChild(n.keys, v)])
  {
    var ks, cs := n.keys, n.children;
    var i := ClosestChild(ks, v);
    NodeHole(n, i);
    var b := Before(ks, cs, i);
    var c := InOrder(cs[i]);
    var a := After(ks, cs, i);
    OrderedParts(b + c, a, false);
    OrderedParts(b, c, false);
    if 0 < i {
      BeforeStep(ks, cs, i);
      assert b[|b| - 1] == ks[i - 1] < v;
      forall j | 0 <= j < |b| ensures b[j] != v {
        assert j < |b| - 1 ==> b[j] <= b[|b| - 1];
      }
    }
    if i < |ks| {
      AfterStep(ks, cs, i);
      assert a[0] == ks[i] > v;
      forall j | 0 <= j < |a| ensures a[j] != v {
        assert 0 < j ==> a[0] <= a[j];
      }
    } else {
      AfterLast(ks, cs);
    }
    assert v !in b && v !in a;
  }

  /** Every key of a node appears in its in-order sequence. */
  lemma {:induction false} KeysIn(ks: seq<int>, cs: seq<Node>)
    requires |cs| == |ks| + 1
    ensures forall x | x in ks :: x in Interleave(ks, cs)
    decreases |ks|
  {
    if ks != [] {
      KeysIn(ks[1..], cs[1..]);
      assert Interleave(ks, cs) == InOrder(cs[0]) + [ks[0]] + Interleave(ks[1..], cs[1..]);
      forall x | x in ks ensures x in Interleave(ks, cs) {
        if x != ks[0] {
          assert x in ks[1..];
        }
      }
    }
  }

  /** The keys of a node whose in-order sequence is ordered are ordered themselves. */
  lemma {:induction false} KeysOrdered(ks: seq<int>, cs: seq<Node>, strict: bool)
    requires |cs| == |ks| + 1 && Ordered(Interleave(ks, cs), strict)
    ensures Ordered(ks, strict)
    decreases |ks|
  {
    if ks != [] {
      var front := InOrder(cs[0]) + [ks[0]];
      var tl := Interleave(ks[1..], cs[1..]);
      assert Interleave(ks, cs) == front + tl;
      OrderedParts(front, tl, strict);
      KeysOrdered(ks[1..], cs[1..], strict);
      KeysIn(ks[1..], cs[1..]);
      forall j | 0 < j < |ks| ensures Le(ks[0], ks[j], strict) {
        assert ks[j] == ks[1..][j - 1] && ks[j] in ks[1..];
        assert ks[j] in tl;
        var m :| 0 <= m < |tl| && tl[m] == ks[j];
        assert front[|front| - 1] == ks[0];
      }
      forall i, j | 0 <= i < j < |ks| ensures Le(ks[i], ks[j], strict) {
        if 0 < i {
          assert ks[i] == ks[1..][i - 1] && ks[j] == ks[1..][j - 1];
        }
      }
    }
  }

  /** The keys of a node with an ordered in-order sequence are ordered and all occur in it. */
  lemma NodeKeys(n: Node, strict: bool)
    requires n.children != [] ==> |n.children| == |n.keys| + 1
    requires Ordered(InOrder(n), strict)
    ensures Ordered(n.keys, strict)
    ensures forall x | x in n.keys :: x in InOrder(n)
  {
    if n.children != [] {
      KeysIn(n.keys, n.children);
      KeysOrdered(n.keys, n.children, strict);
    }
  }

  // ---------------------------------------------------------------------------
  // Splitting a node around one of its keys.

  /** The keys left of key `j` and, for an internal node, the children left of it. */
  function LeftPart(y: Node, j: nat): (r: Node)
    requires j < |y.keys| && (y.children != [] ==> |y.children| == |y.keys| + 1)
    ensures |r.keys| == j && (r.children == [] <==> y.children == [])
  {
    Node(y.keys[..j], if y.children == [] then [] else y.children[..j + 1])
  }

  /** The keys right of key `j` and, for an internal node, the children right of it. */
  function RightPart(y: Node, j: nat): (r: Node)
    requires j < |y.keys| && (y.children != [] ==> |y.children| == |y.keys| + 1)
    ensures |r.keys| == |y.keys| - j - 1 && (r.children == [] <==> y.children == [])
  {
    Node(y.keys[j + 1..], if y.children == [] then [] else y.children[j + 1..])
  }

  /** Splitting around key `j` cuts the in-order sequence at that key. */
  lemma InOrderSplit(y: Node, j: nat)
    requires j < |y.keys| && (y.children != [] ==> |y.children| == |y.keys| + 1)
    ensures InOrder(y) == InOrder(LeftPart(y, j)) + [y.keys[j]] + InOrder(RightPart(y, j))
  {
    var ks, cs := y.keys, y.children;
    if cs == [] {
      assert ks == ks[..j] + [ks[j]] + ks[j + 1..];
    } else {
      NodeHole(y, j);
      LeftPartInOrder(y, j);
      AfterKey(ks, cs, j);
    }
  }

  lemma LeftPartInOrder(y: Node, j: nat)
    requires j < |y.keys| && y.children != [] && |y.children| == |y.keys| + 1
    ensures InOrder(LeftPart(y, j)) == Before(y.keys, y.children, j) + InOrder(y.children[j])
  {
    var a := LeftPart(y, j);
    NodeHole(a, j);
    AfterLast(a.keys, a.children);
    assert a.keys[..j] == y.keys[..j];
    assert a.children[..j] == y.children[..j];
  }

  /** Both parts of a well-shaped node are well-shaped at the same height. */
  lemma ShapeSplit(y: Node, t: nat, h: nat, lo: nat, j: nat)
    requires Shape(y, t, h, lo) && j < |y.keys|
    ensures Shape(LeftPart(y, j), t, h, j)
    ensures Shape(RightPart(y, j), t, h, |y.keys| - j - 1)
  {
    if h > 0 {
      var a := LeftPart(y, j);
      var b := RightPart(y, j);
      forall i | 0 <= i < |b.children| ensures Shape(b.children[i], t, h - 1, t) {
        assert b.children[i] == y.children[j + 1 + i];
      }
    }
  }

  // ---------------------------------------------------------------------------
  // The slot of a child in an ordered node.

  /**
   * Around child `i` of an ordered node everything before is at most the key
   * left of the child and everything after at least the key right of it; at
   * either end of the node there is nothing.
   */
  lemma SlotBounds(n: Node, i: nat)
    requires n.children != [] && |n.children| == |n.keys| + 1 && i < |n.children|
    requires Ordered(InOrder(n), false)
    ensures i == 0 ==> Before(n.keys, n.children, i) == []
    ensures 0 < i ==> AllLe(Before(n.keys, n.children, i), n.keys[i - 1], false)
    ensures i == |n.keys| ==> After(n.keys, n.children, i) == []
    ensures i < |n.keys| ==> LeAll(n.keys[i], After(n.keys, n.children, i), false)
  {
    var ks, cs := n.keys, n.children;
    var b := Before(ks, cs, i);
    var a := After(ks, cs, i);
    NodeHole(n, i);
    OrderedParts(b + InOrder(cs[i]), a, false);
    OrderedParts(b, InOrder(cs[i]), false);
    if i == 0 {
      assert ks[..0] == [] && cs[..0] == [];
    } else {
      BeforeStep(ks, cs, i);
      assert b[|b| - 1] == ks[i - 1];
      forall j | 0 <= j < |b| ensures b[j] <= ks[i - 1] {
        if j < |b| - 1 {
          assert Le(b[j], b[|b| - 1], false);
        }
      }
    }
    if i == |ks| {
      AfterLast(ks, cs);
    } else {
      AfterStep(ks, cs, i);
      assert a[0] == ks[i];
      forall j | 0 <= j < |a| ensures ks[i] <= a[j] {
        if 0 < j {
          assert Le(a[0], a[j], false);
        }
      }
    }
  }

  /** A key that fits between the separators around child `i` fits around its slot. */
  lemma SlotFits(n: Node, i: nat, k: int)
    requires n.children != [] && |n.children| == |n.keys| + 1 && i < |n.children|
    requires Ordered(InOrder(n), false)
    requires (0 < i ==> n.keys[i - 1] <= k) && (i < |n.keys| ==> k <= n.keys[i])
    ensures AllLe(Before(n.keys, n.children, i), k, false)
    ensures LeAll(k, After(n.keys, n.children, i), false)
  {
    SlotBounds(n, i);
  }

  /** Inserting below child `i` of an ordered node whose separators admit `k` is sorted insertion into the whole. */
  lemma DescendInsert(x: Node, i: nat, k: int, c: Node)
    requires x.children != [] && |x.children| == |x.keys| + 1 && i < |x.children|
    requires Ordered(InOrder(x), false)
    requires (0 < i ==> x.keys[i - 1] <= k) && (i < |x.keys| ==> k <= x.keys[i])
    requires InOrder(c) == AddKey(InOrder(x.children[i]), k)
    ensures InOrder(Node(x.keys, x.children[i := c])) == AddKey(InOrder(x), k)
  {
    InOrderReplace(x, i, c);
    NodeHole(x, i);
    SlotFits(x, i, k);
    AddKeyMiddle(Before(x.keys, x.children, i), InOrder(x.children[i]), After(x.keys, x.children, i), k);
  }

  /** A fresh keyless root above `n` has the same in-order sequence as `n`. */
  lemma InOrderNewRoot(n: Node)
    ensures InOrder(Node([], [n])) == InOrder(n)
  {
    var one := [n];
    assert one[1..] == [];
    assert Interleave([], one) == InOrder(n) + Interleave([], one[1..]);
  }
}
