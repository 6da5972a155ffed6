/**
 * Membership search. From the root, a value below the first key goes to the
 * first child and one above the last key to the last child; otherwise the keys
 * are scanned left to right for the value itself or for the gap between two
 * neighbouring keys that holds it.
 */
module Search {
  import opened Seqs
  import opened Nodes

  /** What the scan of one node's keys decides. */
  datatype Step = Hit | Down(j: nat) | Miss

  /**
   * Scans the keys from position `i`: stops at the value itself, or at the
   * first gap `ks[j - 1] < v < ks[j]`, whose child `j` the search enters.
   */
  function Scan(ks: seq<int>, v: int, i: nat): (r: Step)
    ensures r.Hit? ==> v in ks
    ensures r.Down? ==> i < r.j < |ks| && ks[r.j - 1] < v < ks[r.j]
    decreases |ks| - i
  {
    if i >= |ks| then Miss
    else if ks[i] == v then Hit
    else if i + 1 < |ks| && ks[i] < v < ks[i + 1] then Down(i + 1)
    else Scan(ks, v, i + 1)
  }

  /**
   * On sorted keys that span `v`, the scan from a key not above `v` hits
   * exactly when `v` is a key, and otherwise stops at the child left of the
   * first key above `v`.
   */
  lemma {:induction false} ScanOrdered(ks: seq<int>, v: int, i: nat)
    requires Ordered(ks, false) && i < |ks| && ks[i] <= v <= ks[|ks| - 1]
    ensures Scan(ks, v, i) == Hit <==> v in ks
    ensures v !in ks ==> Scan(ks, v, i) == Down(ClosestChild(ks, v))
    decreases |ks| - i
  {
    if ks[i] != v {
      if i + 1 < |ks| && v < ks[i + 1] {
        assert v !in ks by {
          forall j | 0 <= j < |ks| ensures ks[j] != v {
            if j <= i {
              assert Le(ks[j], ks[i], false);
            } else {
              assert Le(ks[i + 1], ks[j], false);
            }
          }
        }
      } else if i + 1 < |ks| {
        ScanOrdered(ks, v, i + 1);
      } else {
        assert false;
      }
    }
  }

  /**
   * Where the search for `v` goes at one node: a value below the first key to
   * the first child, one above the last key to the child after it, otherwise
   * where the scan of the keys stops. A child that does not exist, like a
   * keyless node (only an emptied root leaf can be one), ends the search.
   */
  function Where(n: Node, v: int): (s: Step)
    ensures s.Hit? ==> v in n.keys
    ensures s.Down? ==> s.j < |n.children|
  {
    if n.keys == [] then Miss
    else if v < n.keys[0] then (if n.children != [] then Down(0) else Miss)
    else if v > n.keys[|n.keys| - 1] then (if |n.children| > |n.keys| then Down(|n.keys|) else Miss)
    else match Scan(n.keys, v, 0)
      case Hit => Hit
      case Down(j) => if j < |n.children| then Down(j) else Miss
      case Miss => Miss
  }

  /** Whether the value is in the subtree, answered by one root-to-leaf walk. */
  function Contains(n: Node, v: int): bool
    decreases n
  {
    match Where(n, v)
    case Hit => true
    case Down(j) => Contains(n.children[j], v)
    case Miss => false
  }

  /**
   * At a node whose keys are sorted the search stops at a key, and a value
   * that is not a key goes into the child left of the first key above it, or
   * nowhere from a leaf.
   */
  lemma WhereOrdered(n: Node, v: int)
    requires Ordered(n.keys, false) && (n.children == [] || |n.children| == |n.keys| + 1)
    ensures v in n.keys <==> Where(n, v) == Hit
    ensures v !in n.keys && n.keys != [] && n.children != [] ==> Where(n, v) == Down(ClosestChild(n.keys, v))
    ensures v !in n.keys && n.children == [] ==> Where(n, v) == Miss
  {
    if n.keys != [] {
      var ks, last := n.keys, |n.keys| - 1;
      if v < ks[0] || v > ks[last] {
        assert v !in ks by {
          forall j | 0 <= j < |ks| ensures ks[j] != v {
            assert Le(ks[0], ks[j], false) && Le(ks[j], ks[last], false);
          }
        }
        if v > ks[last] {
          assert ClosestChild(ks, v) == |ks| by {
            assert ks[last] <= v;
          }
        }
      } else {
        ScanOrdered(ks, v, 0);
      }
    }
  }

  /**
   * At a node whose keys are sorted, a value that is not a key is looked for
   * in the child left of the first key above it, and a key is found at once.
   */
  lemma ContainsStep(n: Node, v: int)
    requires n.keys != [] && |n.children| == |n.keys| + 1 && Ordered(n.keys, false)
    ensures v in n.keys ==> Contains(n, v)
    ensures v !in n.keys ==> Contains(n, v) == Contains(n.children[ClosestChild(n.keys, v)], v)
  {
    WhereOrdered(n, v);
  }

  /** In an ordered B-tree the search finds a value exactly when it is stored. */
  lemma {:induction false} ContainsIff(n: Node, v: int, t: nat, h: nat, lo: nat)
    requires 1 <= t && Shape(n, t, h, lo) && (h > 0 ==> 1 <= lo)
    requires Ordered(InOrder(n), false)
    ensures Contains(n, v) <==> v in InOrder(n)
    decreases n
  {
    NodeKeys(n, false);
    if n.children == [] {
      WhereOrdered(n, v);
    } else {
      ContainsStep(n, v);
      if v !in n.keys {
        var i := ClosestChild(n.keys, v);
        Route(n, v);
        ChildOrdered(n, i, false);
        ContainsIff(n.children[i], v, t, h - 1, t);
      }
    }
  }
}
