/**
 * Bottom-up removal (`remove` and `combined`): the search finds the node that
 * holds the value; a leaf simply loses it, and an internal node takes the
 * greatest key below the child left of the value in its place. The leaf that
 * gave up a key, if left with fewer than `t` keys, borrows a key through the
 * parent from its right sibling, else from its left one, when that sibling
 * holds more than `t`; otherwise it merges with its right sibling, else its
 * left one, around the separator, and a parent left short is helped in the
 * same way in turn. A root left without keys gives way to its only child, and
 * an emptied root leaf empties the tree.
 */
module Remove {
  import opened Seqs
  import opened Nodes
  import opened Rebalance
  import opened Search
  import opened Delete

  // ---------------------------------------------------------------------------
  // Finding the separator by value.

  /**
   * `getIndexOfPreviousValue`: the index before the first key from position 1
   * on that is not below `w`, or the last index when there is none.
   */
  function PreviousIndex(ks: seq<int>, w: int): (s: int)
    ensures ks == [] ==> s == -1
    ensures ks != [] ==> 0 <= s < |ks|
    ensures forall k :: 1 <= k <= s ==> ks[k] < w
    ensures 0 <= s && s + 1 < |ks| ==> w <= ks[s + 1]
  {
    PreviousFrom(ks, w, 1)
  }

  function PreviousFrom(ks: seq<int>, w: int, i: nat): (s: int)
    requires 1 <= i
    ensures ks == [] ==> s == -1
    ensures ks != [] ==> (if i <= |ks| then i - 1 else |ks| - 1) <= s < |ks|
    ensures forall k :: i <= k <= s ==> ks[k] < w
    ensures 0 <= s && s + 1 < |ks| ==> w <= ks[s + 1]
    decreases |ks| - i
  {
    if i >= |ks| then |ks| - 1
    else if ks[i] >= w then i - 1
    else PreviousFrom(ks, w, i + 1)
  }

  /** `getIndexOfNextValue`: the index of the first key not below `w`, or the last index when there is none. */
  function NextIndex(ks: seq<int>, w: int): (s: int)
    ensures ks == [] ==> s == -1
    ensures ks != [] ==> 0 <= s < |ks|
    ensures forall k :: 0 <= k < s ==> ks[k] < w
    ensures 0 <= s && s + 1 < |ks| ==> w <= ks[s]
  {
    NextFrom(ks, w, 0)
  }

  function NextFrom(ks: seq<int>, w: int, i: nat): (s: int)
    ensures ks == [] ==> s == -1
    ensures ks != [] ==> (if i < |ks| then i else |ks| - 1) <= s < |ks|
    ensures forall k :: i <= k < s ==> ks[k] < w
    ensures 0 <= s && s + 1 < |ks| ==> w <= ks[s]
    decreases |ks| - i
  {
    if i >= |ks| then |ks| - 1
    else if ks[i] >= w then i
    else NextFrom(ks, w, i + 1)
  }

  // ---------------------------------------------------------------------------
  // `combined`, case by case.

  /** The siblings next to child `i`, where they exist, hold keys to look at. */
  predicate Neighbours(p: Node, i: nat) {
    && p.children != [] && |p.children| == |p.keys| + 1 && i < |p.children|
    && (0 < i ==> p.children[i - 1].keys != [])
    && (i + 1 < |p.children| ==> p.children[i + 1].keys != [])
  }

  /** In a B-tree node the siblings around any child hold keys, whatever that child is replaced by. */
  lemma ShapeNeighbours(n: Node, t: nat, h: nat, lo: nat, j: nat, c: Node)
    requires Shape(n, t, h, lo) && h > 0 && 1 <= t && j < |n.children|
    ensures Neighbours(Node(n.keys, n.children[j := c]), j)
  {
    if 0 < j {
      assert Shape(n.children[j - 1], t, h - 1, t);
    }
    if j + 1 < |n.children| {
      assert Shape(n.children[j + 1], t, h - 1, t);
    }
  }

  /**
   * Borrowing from the right sibling: separator `s` leaves the parent by index
   * and joins child `i` by sorted insertion; the sibling's first key goes up by
   * sorted insertion and its first child moves to the end of child `i`.
   */
  function BorrowRight(p: Node, i: nat, s: nat): (q: Node)
    requires i + 1 < |p.children| && s < |p.keys| && p.children[i + 1].keys != []
    ensures |q.keys| == |p.keys| && |q.children| == |p.children|
  {
    var l, r := p.children[i], p.children[i + 1];
    var l2 := Node(AddKey(l.keys, p.keys[s]), l.children + FirstKid(r));
    var r2 := Node(RemoveKeyAt(r.keys, 0), if r.children == [] then [] else RemoveAt(r.children, 0));
    Node(AddKey(RemoveKeyAt(p.keys, s), r.keys[0]), p.children[i := l2][i + 1 := r2])
  }

  /**
   * Borrowing from the left sibling: separator `s` leaves the parent by index
   * and joins child `i` by sorted insertion; the sibling's last key goes up by
   * sorted insertion and its last child moves to the front of child `i`.
   */
  function BorrowLeft(p: Node, i: nat, s: nat): (q: Node)
    requires 0 < i < |p.children| && s < |p.keys| && p.children[i - 1].keys != []
    ensures |q.keys| == |p.keys| && |q.children| == |p.children|
  {
    var l, n := p.children[i - 1], p.children[i];
    var l2 := Node(RemoveKeyAt(l.keys, |l.keys| - 1), if l.children == [] then [] else RemoveAt(l.children, |l.children| - 1));
    var n2 := Node(AddKey(n.keys, p.keys[s]), LastKid(l) + n.children);
    Node(AddKey(RemoveKeyAt(p.keys, s), l.keys[|l.keys| - 1]), p.children[i - 1 := l2][i := n2])
  }

  /** Sorted insertion of the keys of `vs` one after the other. */
  function AddAll(ks: seq<int>, vs: seq<int>): (r: seq<int>)
    ensures |r| == |ks| + |vs|
    decreases |vs|
  {
    if vs == [] then ks else AddAll(AddKey(ks, vs[0]), vs[1..])
  }

  /**
   * Merging with the right sibling: separator `s` leaves the parent by index,
   * the sibling leaves the children, and child `i` takes the separator, then
   * the sibling's keys, by sorted insertion, and the sibling's children after
   * its own.
   */
  function CombineRight(p: Node, i: nat, s: nat): (q: Node)
    requires i + 1 < |p.children| && s < |p.keys|
    ensures |q.keys| == |p.keys| - 1 && |q.children| == |p.children| - 1
  {
    var n, r := p.children[i], p.children[i + 1];
    var m := Node(AddAll(AddKey(n.keys, p.keys[s]), r.keys), n.children + r.children);
    Node(RemoveKeyAt(p.keys, s), p.children[..i] + [m] + p.children[i + 2..])
  }

  /**
   * Merging with the left sibling: separator `s` leaves the parent by index,
   * the sibling leaves the children, and child `i` takes the separator, then
   * the sibling's keys, by sorted insertion, and the sibling's children in
   * front of its own.
   */
  function CombineLeft(p: Node, i: nat, s: nat): (q: Node)
    requires 0 < i < |p.children| && s < |p.keys|
    ensures |q.keys| == |p.keys| - 1 && |q.children| == |p.children| - 1
  {
    var l, n := p.children[i - 1], p.children[i];
    var m := Node(AddAll(AddKey(n.keys, p.keys[s]), l.keys), l.children + n.children);
    Node(RemoveKeyAt(p.keys, s), p.children[..i - 1] + [m] + p.children[i + 1..])
  }

  /** What `combined` does for a short child: borrow or merge on one side, through separator `s`, or nothing. */
  datatype Fix = TakeRight(s: nat) | TakeLeft(s: nat) | JoinRight(s: nat) | JoinLeft(s: nat) | Keep

  /**
   * The choice `combined` makes for child `i`: borrow from the right sibling,
   * else from the left one, when it holds more than `t` keys; otherwise merge
   * with the right sibling, else the left one, provided the parent has a key
   * to bring down. The separator is found by value, from the sibling's
   * nearest key.
   */
  function Plan(p: Node, i: nat, t: nat): (f: Fix)
    requires Neighbours(p, i)
    ensures !f.Keep? ==> f.s < |p.keys|
    ensures f.TakeRight? <==> i + 1 < |p.children| && |p.children[i + 1].keys| > t
    ensures f.TakeLeft? <==> !(i + 1 < |p.children| && |p.children[i + 1].keys| > t) && 0 < i && |p.children[i - 1].keys| > t
    ensures f.JoinRight? ==> i + 1 < |p.children| && |p.children[i + 1].keys| <= t
    ensures f.JoinLeft? ==> i + 1 == |p.children| && 0 < i && |p.children[i - 1].keys| <= t
    ensures f.Keep? <==> |p.keys| == 0
    ensures (f.TakeRight? || f.JoinRight?) ==> i + 1 < |p.children| && f.s == PreviousIndex(p.keys, p.children[i + 1].keys[0])
    ensures (f.TakeLeft? || f.JoinLeft?) ==> 0 < i && f.s == NextIndex(p.keys, p.children[i - 1].keys[|p.children[i - 1].keys| - 1])
  {
    var cs := p.children;
    if i + 1 < |cs| && |cs[i + 1].keys| > t then TakeRight(PreviousIndex(p.keys, cs[i + 1].keys[0]) as nat)
    else if 0 < i && |cs[i - 1].keys| > t then TakeLeft(NextIndex(p.keys, cs[i - 1].keys[|cs[i - 1].keys| - 1]) as nat)
    else if i + 1 < |cs| && |p.keys| > 0 then JoinRight(PreviousIndex(p.keys, cs[i + 1].keys[0]) as nat)
    else if 0 < i && |p.keys| > 0 then JoinLeft(NextIndex(p.keys, cs[i - 1].keys[|cs[i - 1].keys| - 1]) as nat)
    else Keep
  }

  /** Carries out a choice `Plan` can make. */
  function Apply(p: Node, i: nat, f: Fix): Node
    requires Neighbours(p, i) && (!f.Keep? ==> f.s < |p.keys|)
    requires (f.TakeRight? || f.JoinRight?) ==> i + 1 < |p.children|
    requires (f.TakeLeft? || f.JoinLeft?) ==> 0 < i
  {
    match f
    case TakeRight(s) => BorrowRight(p, i, s)
    case TakeLeft(s) => BorrowLeft(p, i, s)
    case JoinRight(s) => CombineRight(p, i, s)
    case JoinLeft(s) => CombineLeft(p, i, s)
    case Keep => p
  }

  /** `combined` for child `i`. */
  function Combined(p: Node, i: nat, t: nat): Node
    requires Neighbours(p, i)
  {
    Apply(p, i, Plan(p, i, t))
  }

  /** After child `i` gave up a key somewhere below it: `combined` when it is left with fewer than `t` keys. */
  function Mend(p: Node, i: nat, t: nat): Node
    requires Neighbours(p, i)
  {
    if |p.children[i].keys| < t then Combined(p, i, t) else p
  }

  // ---------------------------------------------------------------------------
  // Removal.

  /**
   * `getGreatestNode` and `removeGreatestValue`: the rightmost leaf loses its
   * last key, and every node on the way back up that is left short is mended.
   */
  function RemoveGreatest(n: Node, t: nat, h: nat): Node
    requires Shape(n, t, h, 1) && 1 <= t
    decreases h
  {
    if n.children == [] then Node(RemoveKeyAt(n.keys, |n.keys| - 1), [])
    else
      var j := |n.children| - 1;
      var c := n.children[j];
      ShapeWeaken(c, t, h - 1, t, 1);
      var c2 := RemoveGreatest(c, t, h - 1);
      ShapeNeighbours(n, t, h, 1, j, c2);
      Mend(Node(n.keys, n.children[j := c2]), j, t)
  }

  /**
   * An internal node that holds `v`: `v` is removed by value, the greatest key
   * below the child left of it is added by sorted insertion, and that child,
   * which gave the key up, is mended.
   */
  function Replace(x: Node, v: int, t: nat, h: nat): Node
    requires Shape(x, t, h, 0) && 1 <= t && h > 0 && v in x.keys
  {
    var i := IndexOf(x.keys, v) as nat;
    var c := x.children[i];
    ShapeWeaken(c, t, h - 1, t, 1);
    var c2 := RemoveGreatest(c, t, h - 1);
    ShapeNeighbours(x, t, h, 0, i, c2);
    Mend(Node(AddKey(RemoveKey(x.keys, v), Greatest(c, t, h - 1)), x.children[i := c2]), i, t)
  }

  /** `Replace` with the height of the children named `g`. */
  lemma ReplaceSteps(x: Node, v: int, t: nat, h: nat, g: nat)
    requires Shape(x, t, h, 0) && 1 <= t && h == g + 1 && v in x.keys
    ensures var i := IndexOf(x.keys, v) as nat;
      var c := x.children[i];
      && Shape(c, t, g, 1)
      && Neighbours(Node(AddKey(RemoveKey(x.keys, v), Greatest(c, t, g)), x.children[i := RemoveGreatest(c, t, g)]), i)
      && Replace(x, v, t, h) == Mend(Node(AddKey(RemoveKey(x.keys, v), Greatest(c, t, g)), x.children[i := RemoveGreatest(c, t, g)]), i, t)
  {
    var i := IndexOf(x.keys, v) as nat;
    ShapeWeaken(x.children[i], t, g, t, 1);
    ShapeNeighbours(x, t, h, 0, i, RemoveGreatest(x.children[i], t, g));
  }

  /** When the plan says so, the right sibling lends a key. */
  lemma MendTakesRight(p: Node, i: nat, t: nat)
    requires Neighbours(p, i) && |p.children[i].keys| < t && Plan(p, i, t).TakeRight?
    ensures i + 1 < |p.children| && Plan(p, i, t).s < |p.keys| && Mend(p, i, t) == BorrowRight(p, i, Plan(p, i, t).s)
  {
  }

  /** When the plan says so, the left sibling lends a key. */
  lemma MendTakesLeft(p: Node, i: nat, t: nat)
    requires Neighbours(p, i) && |p.children[i].keys| < t && Plan(p, i, t).TakeLeft?
    ensures 0 < i && Plan(p, i, t).s < |p.keys| && Mend(p, i, t) == BorrowLeft(p, i, Plan(p, i, t).s)
  {
  }

  /** When the plan says so, the child merges with its right sibling. */
  lemma MendJoinsRight(p: Node, i: nat, t: nat)
    requires Neighbours(p, i) && |p.children[i].keys| < t && Plan(p, i, t).JoinRight?
    ensures i + 1 < |p.children| && Plan(p, i, t).s < |p.keys| && Mend(p, i, t) == CombineRight(p, i, Plan(p, i, t).s)
  {
  }

  /** When the plan says so, the child merges with its left sibling. */
  lemma MendJoinsLeft(p: Node, i: nat, t: nat)
    requires Neighbours(p, i) && |p.children[i].keys| < t && Plan(p, i, t).JoinLeft?
    ensures 0 < i && Plan(p, i, t).s < |p.keys| && Mend(p, i, t) == CombineLeft(p, i, Plan(p, i, t).s)
  {
  }

  /**
   * `remove` below `x` along the route of `getNode`: a leaf holding `v` loses
   * it, an internal one replaces it, and a child the removal went into is
   * mended on the way back; a search that ends nowhere changes nothing.
   */
  function RemoveIn(x: Node, v: int, t: nat, h: nat): Node
    requires Shape(x, t, h, 0) && 1 <= t
    decreases h
  {
    match Where(x, v)
    case Hit => if x.children == [] then Node(RemoveKey(x.keys, v), []) else Replace(x, v, t, h)
    case Down(j) =>
      ShapeWeaken(x.children[j], t, h - 1, t, 0);
      var c2 := RemoveIn(x.children[j], v, t, h - 1);
      ShapeNeighbours(x, t, h, 0, j, c2);
      Mend(Node(x.keys, x.children[j := c2]), j, t)
    case Miss => x
  }

  /**
   * `remove` at the root: nothing changes when the value is not found; a root
   * left without keys gives way to its only child, or empties the tree when it
   * is a leaf.
   */
  function RemoveRoot(root: Node, v: int, t: nat): Option<Node>
    requires RootShape(root, t) && 1 <= t
  {
    if !Contains(root, v) then Some(root)
    else
      ShapeWeaken(root, t, Height(root), if root.children == [] then 0 else 1, 0);
      var n := RemoveIn(root, v, t, Height(root));
      if n.keys != [] then Some(n)
      else if n.children == [] then None
      else Some(n.children[0])
  }
}
