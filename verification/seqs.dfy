/** Ordered integer sequences and the scans a B-tree node runs over its key array. */
module Seqs {

  /** `a` may stand before `b` in an ordered sequence; `strict` forbids equal neighbours. */
  predicate Le(a: int, b: int, strict: bool) {
    if strict then a < b else a <= b
  }

  /** Ascending order: non-decreasing, or strictly increasing when `strict`. */
  predicate Ordered(s: seq<int>, strict: bool) {
    forall i, j :: 0 <= i < j < |s| ==> Le(s[i], s[j], strict)
  }

  /** Every element of `s` may stand before `x`. */
  predicate AllLe(s: seq<int>, x: int, strict: bool) {
    forall i :: 0 <= i < |s| ==> Le(s[i], x, strict)
  }

  /** `x` may stand before every element of `s`. */
  predicate LeAll(x: int, s: seq<int>, strict: bool) {
    forall i :: 0 <= i < |s| ==> Le(x, s[i], strict)
  }

  lemma StrictIsOrdered(s: seq<int>)
    requires Ordered(s, true)
    ensures Ordered(s, false)
  {
  }

  lemma OrderedSlice(s: seq<int>, lo: int, hi: int, strict: bool)
    requires Ordered(s, strict) && 0 <= lo <= hi <= |s|
    ensures Ordered(s[lo..hi], strict)
  {
  }

  /** Two ordered pieces joined in the right order are ordered. */
  lemma OrderedAppend(a: seq<int>, b: seq<int>, strict: bool)
    requires Ordered(a, strict) && Ordered(b, strict)
    requires forall i, j :: 0 <= i < |a| && 0 <= j < |b| ==> Le(a[i], b[j], strict)
    ensures Ordered(a + b, strict)
  {
    forall i, j | 0 <= i < j < |a + b|
      ensures Le((a + b)[i], (a + b)[j], strict)
    {
      if j < |a| {
      } else if i >= |a| {
        assert (a + b)[i] == b[i - |a|] && (a + b)[j] == b[j - |a|];
      } else {
        assert (a + b)[i] == a[i] && (a + b)[j] == b[j - |a|];
      }
    }
  }

  /** The pieces of an ordered concatenation are ordered and bounded by each other. */
  lemma OrderedParts(a: seq<int>, b: seq<int>, strict: bool)
    requires Ordered(a + b, strict)
    ensures Ordered(a, strict) && Ordered(b, strict)
    ensures forall i, j :: 0 <= i < |a| && 0 <= j < |b| ==> Le(a[i], b[j], strict)
  {
    assert a == (a + b)[..|a|];
    assert b == (a + b)[|a|..];
    forall i, j | 0 <= i < |a| && 0 <= j < |b|
      ensures Le(a[i], b[j], strict)
    {
      assert (a + b)[i] == a[i] && (a + b)[|a| + j] == b[j];
    }
  }

  /**
   * Replacing the middle piece `s` of an ordered `P + s + Q` by an ordered `s2`
   * keeps the whole ordered when each new element either was already in `s` or
   * fits between the last element of `P` and the first element of `Q`.
   */
  lemma {:induction false} Splice(P: seq<int>, s: seq<int>, Q: seq<int>, s2: seq<int>, strict: bool)
    requires Ordered(P + s + Q, strict)
    requires Ordered(s2, strict)
    requires forall x | x in s2 ::
      x in s || ((P == [] || Le(P[|P| - 1], x, strict)) && (Q == [] || Le(x, Q[0], strict)))
    ensures Ordered(P + s2 + Q, strict)
  {
    OrderedParts(P + s, Q, strict);
    OrderedParts(P, s, strict);
    assert P + s + Q == P + (s + Q);
    OrderedParts(P, s + Q, strict);
    OrderedParts(s, Q, strict);
    forall x | x in s2
      ensures AllLe(P, x, strict) && LeAll(x, Q, strict)
    {
      if x in s {
        var m :| 0 <= m < |s| && s[m] == x;
      } else {
        forall i | 0 <= i < |P| ensures Le(P[i], x, strict) {
          if i < |P| - 1 {
            assert Le(P[i], P[|P| - 1], strict);
          }
        }
        forall i | 0 <= i < |Q| ensures Le(x, Q[i], strict) {
          if 0 < i {
            assert Le(Q[0], Q[i], strict);
          }
        }
      }
    }
    forall i, j | 0 <= i < |P| && 0 <= j < |s2|
      ensures Le(P[i], s2[j], strict)
    {
      assert s2[j] in s2;
    }
    OrderedAppend(P, s2, strict);
    forall i, j | 0 <= i < |P + s2| && 0 <= j < |Q|
      ensures Le((P + s2)[i], Q[j], strict)
    {
      if i < |P| {
        assert (P + s2)[i] == P[i];
        assert (P + s)[i] == P[i];
      } else {
        assert (P + s2)[i] == s2[i - |P|];
        assert s2[i - |P|] in s2;
      }
    }
    OrderedAppend(P + s2, Q, strict);
  }

  /** The first element of an ordered sequence is its least. */
  lemma OrderedHead(a: seq<int>)
    requires Ordered(a, false) && |a| > 0
    ensures forall x | x in multiset(a) :: a[0] <= x
  {
    forall x | x in multiset(a) ensures a[0] <= x {
      assert x in a;
      var m :| 0 <= m < |a| && a[m] == x;
      if m > 0 {
        assert Le(a[0], a[m], false);
      }
    }
  }

  /** An ordered sequence is determined by its multiset of elements. */
  lemma {:induction false} OrderedUnique(a: seq<int>, b: seq<int>)
    requires Ordered(a, false) && Ordered(b, false)
    requires multiset(a) == multiset(b)
    ensures a == b
    decreases |a|
  {
    assert |a| == |multiset(a)| == |multiset(b)| == |b|;
    if |a| != 0 {
      assert a[0] in multiset(b) && b[0] in multiset(a);
      OrderedHead(a);
      OrderedHead(b);
      assert a[0] == b[0];
      assert a == [a[0]] + a[1..];
      assert b == [b[0]] + b[1..];
      assert multiset(a[1..]) == multiset(b[1..]) by {
        assert multiset(a) == multiset{a[0]} + multiset(a[1..]);
        assert multiset(b) == multiset{b[0]} + multiset(b[1..]);
        assert multiset(a[1..]) == multiset(a) - multiset{a[0]};
        assert multiset(b[1..]) == multiset(b) - multiset{b[0]};
      }
      OrderedSlice(a, 1, |a|, false);
      OrderedSlice(b, 1, |b|, false);
      OrderedUnique(a[1..], b[1..]);
    }
  }

  /**
   * The index of the first key strictly greater than `v`, or the key count when
   * there is none: the child a search for `v` descends into.
   */
  function ClosestChild(ks: seq<int>, v: int): (i: nat)
    ensures i <= |ks|
    ensures forall j :: 0 <= j < i ==> ks[j] <= v
    ensures i < |ks| ==> v < ks[i]
  {
    if |ks| == 0 || v < ks[0] then 0 else 1 + ClosestChild(ks[1..], v)
  }

  /**
   * The backward scan that routes a value into a child during insertion: it
   * moves left over every key not smaller than `k`, so equal keys send `k` left.
   */
  function LowerBound(ks: seq<int>, k: int): (i: nat)
    ensures i <= |ks|
    ensures forall j :: i <= j < |ks| ==> k <= ks[j]
    ensures 0 < i ==> ks[i - 1] < k
    decreases |ks|
  {
    if |ks| == 0 || ks[|ks| - 1] < k then |ks| else LowerBound(ks[..|ks| - 1], k)
  }

  lemma LowerBoundOrdered(ks: seq<int>, k: int)
    requires Ordered(ks, false)
    ensures forall j :: 0 <= j < LowerBound(ks, k) ==> ks[j] < k
  {
    var i := LowerBound(ks, k);
    forall j | 0 <= j < i ensures ks[j] < k {
      assert ks[j] <= ks[i - 1];
    }
  }

  /** Position of the first key equal to `v`, or -1 (a linear scan). */
  function IndexOf(ks: seq<int>, v: int): (i: int)
    ensures -1 <= i < |ks|
    ensures i == -1 <==> v !in ks
    ensures 0 <= i ==> ks[i] == v && forall j :: 0 <= j < i ==> ks[j] != v
  {
    if |ks| == 0 then -1
    else if ks[0] == v then 0
    else if v !in ks[1..] then -1
    else 1 + IndexOf(ks[1..], v)
  }

  /** The scan finds the first occurrence. */
  lemma IndexOfFirst(ks: seq<int>, i: nat, v: int)
    requires i < |ks| && ks[i] == v && forall j :: 0 <= j < i ==> ks[j] != v
    ensures IndexOf(ks, v) == i
  {
  }

  /**
   * Sorted insertion as the leaf insertion loop does it: keys greater than `v`
   * shift one place right and `v` lands after every key not greater than it.
   */
  function AddKey(ks: seq<int>, v: int): (r: seq<int>)
    ensures |r| == |ks| + 1
    ensures multiset(r) == multiset(ks) + multiset{v}
    decreases |ks|
  {
    if |ks| == 0 then [v]
    else if v < ks[|ks| - 1] then
      assert ks == ks[..|ks| - 1] + [ks[|ks| - 1]];
      AddKey(ks[..|ks| - 1], v) + [ks[|ks| - 1]]
    else ks + [v]
  }

  /** Adding a key below a bound to keys below it keeps them all below it. */
  lemma AddKeyBelowAll(ks: seq<int>, v: int, m: int, strict: bool)
    requires (forall i :: 0 <= i < |ks| ==> Le(ks[i], m, strict)) && Le(v, m, strict)
    ensures forall i, j :: 0 <= i < |AddKey(ks, v)| && 0 <= j < 1 ==> Le(AddKey(ks, v)[i], [m][j], strict)
  {
    var a := AddKey(ks, v);
    forall i | 0 <= i < |a| ensures Le(a[i], m, strict) {
      assert a[i] in multiset(a);
      assert a[i] in ks || a[i] == v;
    }
  }

  /** Sorted insertion keeps the keys ordered (strictly, when `v` is new). */
  lemma {:induction false} AddKeyOrdered(ks: seq<int>, v: int, strict: bool)
    requires Ordered(ks, strict) && (strict ==> v !in ks)
    ensures Ordered(AddKey(ks, v), strict)
    decreases |ks|
  {
    if |ks| > 0 {
      var last := ks[|ks| - 1];
      var init := ks[..|ks| - 1];
      assert ks == init + [last];
      OrderedParts(init, [last], strict);
      if v < last {
        AddKeyOrdered(init, v, strict);
        var a := AddKey(init, v);
        AddKeyBelowAll(init, v, last, strict);
        OrderedAppend(a, [last], strict);
      } else {
        assert v != last ==> last < v;
        assert v !in ks ==> v != last;
        OrderedAppend(ks, [v], strict);
      }
    }
  }

  /** Removes the first key equal to `v`, leaving the key array unchanged when there is none. */
  function RemoveKey(ks: seq<int>, v: int): (r: seq<int>)
    ensures v !in ks ==> r == ks
    ensures v in ks ==> |r| == |ks| - 1
  {
    if |ks| == 0 then []
    else if ks[0] == v then ks[1..]
    else [ks[0]] + RemoveKey(ks[1..], v)
  }

  /** Removal by value takes exactly one copy of `v` out, when there is one. */
  lemma {:induction false} RemoveKeyContent(ks: seq<int>, v: int)
    ensures multiset(RemoveKey(ks, v)) == multiset(ks) - multiset{v}
  {
    if |ks| > 0 {
      assert ks == [ks[0]] + ks[1..];
      if ks[0] != v {
        RemoveKeyContent(ks[1..], v);
      }
    }
  }

  /** Removing a key keeps the others in order. */
  lemma RemoveKeyOrdered(ks: seq<int>, v: int, strict: bool)
    requires Ordered(ks, strict)
    ensures Ordered(RemoveKey(ks, v), strict)
  {
    if v in ks {
      RemoveKeyIsRemoveAt(ks, v);
      RemoveAtOrdered(ks, IndexOf(ks, v) as nat, strict);
    }
  }

  /** Dropping one element keeps the others in order. */
  lemma RemoveAtOrdered(ks: seq<int>, i: nat, strict: bool)
    requires Ordered(ks, strict) && i < |ks|
    ensures Ordered(RemoveAt(ks, i), strict)
  {
    var r := RemoveAt(ks, i);
    forall a, b | 0 <= a < b < |r| ensures Le(r[a], r[b], strict) {
      var a', b' := if a < i then a else a + 1, if b < i then b else b + 1;
      assert r[a] == ks[a'] && r[b] == ks[b'] && a' < b';
    }
  }

  /** Removes the key at position `i`; an index past the end changes nothing. */
  function RemoveKeyAt(ks: seq<int>, i: nat): (r: seq<int>)
    ensures i < |ks| ==> |r| == |ks| - 1
    ensures |ks| <= i ==> r == ks
  {
    if i < |ks| then RemoveAt(ks, i) else ks
  }

  /** Removal at an index takes exactly that key out of the multiset. */
  lemma RemoveKeyAtContent(ks: seq<int>, i: nat)
    requires i < |ks|
    ensures multiset(RemoveKeyAt(ks, i)) == multiset(ks) - multiset{ks[i]}
  {
    assert ks == ks[..i] + [ks[i]] + ks[i + 1..];
  }

  /** Inserts `x` so that it ends up at index `i`. */
  function InsertAt<T>(s: seq<T>, i: nat, x: T): (r: seq<T>)
    requires i <= |s|
    ensures |r| == |s| + 1 && r[i] == x
    ensures forall j :: 0 <= j < i ==> r[j] == s[j]
    ensures forall j :: i < j < |r| ==> r[j] == s[j - 1]
  {
    s[..i] + [x] + s[i..]
  }

  /** Drops the element at index `i`. */
  function RemoveAt<T>(s: seq<T>, i: nat): (r: seq<T>)
    requires i < |s|
    ensures |r| == |s| - 1
    ensures forall j :: 0 <= j < i ==> r[j] == s[j]
    ensures forall j :: i <= j < |r| ==> r[j] == s[j + 1]
  {
    s[..i] + s[i + 1..]
  }

  /** The leaf insertion puts `v` at the first key greater than it, as an append-then-sort would. */
  lemma AddKeyPosition(ks: seq<int>, v: int)
    requires Ordered(ks, false)
    ensures AddKey(ks, v) == ks[..ClosestChild(ks, v)] + [v] + ks[ClosestChild(ks, v)..]
  {
    AddKeyInsert(ks, ClosestChild(ks, v), v);
  }

  /** Removing a key just added gives back the ordered key array. */
  lemma AddThenRemoveKey(ks: seq<int>, v: int)
    requires Ordered(ks, false)
    ensures RemoveKey(AddKey(ks, v), v) == ks
  {
    var r := AddKey(ks, v);
    assert v in multiset(r);
    AddKeyOrdered(ks, v, false);
    RemoveKeyOrdered(r, v, false);
    RemoveKeyContent(r, v);
    OrderedUnique(RemoveKey(r, v), ks);
  }

  /** Adding back a key just removed gives back the ordered key array. */
  lemma RemoveThenAddKey(ks: seq<int>, v: int)
    requires Ordered(ks, false) && v in ks
    ensures AddKey(RemoveKey(ks, v), v) == ks
  {
    var r := RemoveKey(ks, v);
    RemoveKeyContent(ks, v);
    assert multiset(ks) == multiset(r) + multiset{v};
    RemoveKeyOrdered(ks, v, false);
    AddKeyOrdered(r, v, false);
    OrderedUnique(AddKey(r, v), ks);
  }


  /** Removal by value removes exactly the key `IndexOf` finds. */
  lemma {:induction false} RemoveKeyIsRemoveAt(ks: seq<int>, v: int)
    requires v in ks
    ensures RemoveKey(ks, v) == RemoveKeyAt(ks, IndexOf(ks, v) as nat)
  {
    if ks[0] == v {
      assert RemoveAt(ks, 0) == ks[1..];
    } else {
      var tl := ks[1..];
      assert v in tl;
      assert IndexOf(ks, v) == 1 + IndexOf(tl, v);
      RemoveKeyIsRemoveAt(tl, v);
      var i := IndexOf(tl, v) as nat;
      var r := [ks[0]] + RemoveAt(tl, i);
      assert RemoveKey(ks, v) == r;
      var q := RemoveAt(ks, i + 1);
      assert |r| == |q|;
      forall j | 0 <= j < |r| ensures r[j] == q[j] {
        if j > 0 {
          assert r[j] == RemoveAt(tl, i)[j - 1];
        }
      }
    }
  }

  /**
   * Inserting into the middle piece of an ordered sequence is inserting into the
   * whole, provided the new key fits between the pieces around it.
   */
  lemma AddKeyMiddle(P: seq<int>, s: seq<int>, Q: seq<int>, k: int)
    requires Ordered(P + s + Q, false)
    requires AllLe(P, k, false) && LeAll(k, Q, false)
    ensures P + AddKey(s, k) + Q == AddKey(P + s + Q, k)
  {
    var s2 := AddKey(s, k);
    OrderedParts(P + s, Q, false);
    OrderedParts(P, s, false);
    AddKeyOrdered(s, k, false);
    forall x | x in s2
      ensures x in s || ((P == [] || Le(P[|P| - 1], x, false)) && (Q == [] || Le(x, Q[0], false)))
    {
      assert x in multiset(s2);
    }
    Splice(P, s, Q, s2, false);
    AddKeyOrdered(P + s + Q, k, false);
    OrderedUnique(P + s2 + Q, AddKey(P + s + Q, k));
  }

  /** A key not above the median of an ordered sequence goes into the part before it. */
  lemma AddKeyBelow(a: seq<int>, m: int, b: seq<int>, k: int)
    requires Ordered(a + [m] + b, false) && k <= m
    ensures AddKey(a, k) + [m] + b == AddKey(a + [m] + b, k)
  {
    var mb := [m] + b;
    var s := a + [m] + b;
    assert s[|a|..|s|] == mb;
    OrderedSlice(s, |a|, |s|, false);
    HeadBelowAll(mb, k);
    assert [] + a + mb == s;
    AddKeyMiddle([], a, mb, k);
    var ak := AddKey(a, k);
    assert [] + ak + mb == ak + [m] + b;
  }

  /** A value not above the head of an ordered sequence may stand before all of it. */
  lemma HeadBelowAll(s: seq<int>, k: int)
    requires Ordered(s, false) && s != [] && k <= s[0]
    ensures LeAll(k, s, false)
  {
    forall j | 0 <= j < |s| ensures k <= s[j] {
      assert Le(s[0], s[j], false) || j == 0;
    }
  }

  /** A key not below the median of an ordered sequence goes into the part after it. */
  lemma AddKeyAbove(a: seq<int>, m: int, b: seq<int>, k: int)
    requires Ordered(a + [m] + b, false) && m <= k
    ensures a + [m] + AddKey(b, k) == AddKey(a + [m] + b, k)
  {
    OrderedParts(a + [m], b, false);
    assert AllLe(a + [m], k, false) by {
      forall j | 0 <= j < |a| ensures a[j] <= m {
        assert (a + [m])[j] == a[j] && (a + [m])[|a|] == m;
      }
    }
    assert a + [m] + b + [] == a + [m] + b;
    AddKeyMiddle(a + [m], b, [], k);
    assert a + [m] + AddKey(b, k) + [] == a + [m] + AddKey(b, k);
  }

  /**
   * Removing a key of a strictly ordered sequence from the piece that holds it
   * is removing it from the whole; so is removing a key that is nowhere.
   */
  lemma RemoveKeyMiddle(P: seq<int>, s: seq<int>, Q: seq<int>, v: int)
    requires Ordered(P + s + Q, true)
    requires v in s || v !in P + s + Q
    ensures P + RemoveKey(s, v) + Q == RemoveKey(P + s + Q, v)
  {
    if v in s {
      var s2 := RemoveKey(s, v);
      OrderedParts(P + s, Q, true);
      OrderedParts(P, s, true);
      RemoveKeyOrdered(s, v, true);
      RemoveKeyContent(s, v);
      forall x | x in s2 ensures x in s {
        assert x in multiset(s2);
      }
      Splice(P, s, Q, s2, true);
      RemoveKeyOrdered(P + s + Q, v, true);
      RemoveKeyContent(P + s + Q, v);
      StrictIsOrdered(P + s2 + Q);
      StrictIsOrdered(RemoveKey(P + s + Q, v));
      OrderedUnique(P + s2 + Q, RemoveKey(P + s + Q, v));
    }
  }

  /**
   * Swapping the key at `i` for one that fits in its place, by sorted insertion
   * and removal by value in either order, overwrites position `i`.
   */
  lemma ReplaceKey(ks: seq<int>, i: nat, p: int)
    requires Ordered(ks, true) && i < |ks|
    requires (0 < i ==> ks[i - 1] < p) && (i + 1 < |ks| ==> p < ks[i + 1]) && p != ks[i]
    ensures RemoveKey(AddKey(ks, p), ks[i]) == ks[i := p]
    ensures AddKey(RemoveKey(ks, ks[i]), p) == ks[i := p]
  {
    AddThenRemoveAt(ks, i, p);
    RemoveThenAddAt(ks, i, p);
  }

  lemma AddThenRemoveAt(ks: seq<int>, i: nat, p: int)
    requires Ordered(ks, true) && i < |ks|
    requires (0 < i ==> ks[i - 1] < p) && (i + 1 < |ks| ==> p < ks[i + 1]) && p != ks[i]
    ensures RemoveKey(AddKey(ks, p), ks[i]) == ks[i := p]
  {
    StrictIsOrdered(ks);
    if p < ks[i] {
      AddKeyInsert(ks, i, p);
      AddThenRemoveAtPos(ks, i, p, i, i + 1);
    } else {
      AddKeyInsert(ks, i + 1, p);
      AddThenRemoveAtPos(ks, i, p, i + 1, i);
    }
  }

  lemma AddThenRemoveAtPos(ks: seq<int>, i: nat, p: int, pos: nat, idx: nat)
    requires Ordered(ks, true) && i < |ks| && p != ks[i]
    requires (pos, idx) == (i, i + 1) || (pos, idx) == (i + 1, i)
    requires AddKey(ks, p) == InsertAt(ks, pos, p)
    ensures RemoveKey(AddKey(ks, p), ks[i]) == ks[i := p]
  {
    var v := ks[i];
    var a := InsertAt(ks, pos, p);
    forall j | 0 <= j < idx ensures a[j] != v {
      if j != pos {
        assert a[j] == ks[j] && Le(ks[j], ks[i], true);
      }
    }
    IndexOfFirst(a, idx, v);
    RemoveKeyIsRemoveAt(a, v);
    SwapAt(ks, i, p);
  }

  lemma RemoveThenAddAt(ks: seq<int>, i: nat, p: int)
    requires Ordered(ks, true) && i < |ks|
    requires (0 < i ==> ks[i - 1] < p) && (i + 1 < |ks| ==> p < ks[i + 1]) && p != ks[i]
    ensures AddKey(RemoveKey(ks, ks[i]), p) == ks[i := p]
  {
    var v := ks[i];
    var r := RemoveAt(ks, i);
    assert RemoveKey(ks, v) == r by {
      forall j | 0 <= j < i ensures ks[j] != v {
        assert Le(ks[j], ks[i], true);
      }
      IndexOfFirst(ks, i, v);
      RemoveKeyIsRemoveAt(ks, v);
    }
    var q := InsertAt(r, i, p);
    assert AddKey(r, p) == q by {
      RemoveAtOrdered(ks, i, true);
      StrictIsOrdered(r);
      AddKeyInsert(r, i, p);
    }
    SwapAt(ks, i, p);
  }

  /** Overwriting position `i` is an insertion next to it followed by a removal of the old element. */
  lemma SwapAt<T>(s: seq<T>, i: nat, x: T)
    requires i < |s|
    ensures RemoveAt(InsertAt(s, i, x), i + 1) == s[i := x]
    ensures RemoveAt(InsertAt(s, i + 1, x), i) == s[i := x]
    ensures InsertAt(RemoveAt(s, i), i, x) == s[i := x]
  {
    assert RemoveAt(InsertAt(s, i, x), i + 1) == s[..i] + [x] + s[i + 1..];
    assert RemoveAt(InsertAt(s, i + 1, x), i) == s[..i] + [x] + s[i + 1..];
    assert InsertAt(RemoveAt(s, i), i, x) == s[..i] + [x] + s[i + 1..];
  }

  lemma InsertAtOrdered(ks: seq<int>, i: nat, v: int)
    requires Ordered(ks, false) && i <= |ks|
    requires (0 < i ==> ks[i - 1] <= v) && (i < |ks| ==> v <= ks[i])
    ensures Ordered(InsertAt(ks, i, v), false)
  {
    var r := InsertAt(ks, i, v);
    forall a, b | 0 <= a < b < |r| ensures r[a] <= r[b] {
      if a == i {
        assert ks[i] <= ks[b - 1];
      } else if b == i {
        assert ks[a] <= ks[i - 1];
      } else if a < i < b {
        assert ks[a] <= ks[b - 1];
      }
    }
  }

  lemma InsertAtContent(ks: seq<int>, i: nat, v: int)
    requires i <= |ks|
    ensures multiset(InsertAt(ks, i, v)) == multiset(ks) + multiset{v}
  {
    assert ks == ks[..i] + ks[i..];
    assert InsertAt(ks, i, v) == ks[..i] + [v] + ks[i..];
  }

  /** Sorted insertion lands at any position where the key fits. */
  lemma AddKeyInsert(ks: seq<int>, i: nat, v: int)
    requires Ordered(ks, false) && i <= |ks|
    requires (0 < i ==> ks[i - 1] <= v) && (i < |ks| ==> v <= ks[i])
    ensures AddKey(ks, v) == InsertAt(ks, i, v)
  {
    InsertAtOrdered(ks, i, v);
    InsertAtContent(ks, i, v);
    AddKeyOrdered(ks, v, false);
    OrderedUnique(AddKey(ks, v), InsertAt(ks, i, v));
  }

  /** A key not above the first of ordered keys goes in front. */
  lemma AddKeyFront(ks: seq<int>, v: int)
    requires Ordered(ks, false) && (ks != [] ==> v <= ks[0])
    ensures AddKey(ks, v) == [v] + ks
  {
    AddKeyInsert(ks, 0, v);
  }

  /** A key not below the last one goes at the end. */
  lemma AddKeyBack(ks: seq<int>, v: int)
    requires ks != [] ==> ks[|ks| - 1] <= v
    ensures AddKey(ks, v) == ks + [v]
  {
  }

  /** In strictly ordered keys, removal by value of the key at `i` removes position `i`. */
  lemma RemoveKeyOfAt(ks: seq<int>, i: nat)
    requires Ordered(ks, true) && i < |ks|
    ensures RemoveKey(ks, ks[i]) == RemoveKeyAt(ks, i)
  {
    forall j | 0 <= j < i ensures ks[j] != ks[i] {
      assert Le(ks[j], ks[i], true);
    }
    IndexOfFirst(ks, i, ks[i]);
    RemoveKeyIsRemoveAt(ks, ks[i]);
  }

  /** The search's child index is the one whose neighbouring keys bracket `v`. */
  lemma ClosestChildAt(ks: seq<int>, i: nat, v: int)
    requires i <= |ks| && (forall j :: 0 <= j < i ==> ks[j] <= v) && (i < |ks| ==> v < ks[i])
    ensures ClosestChild(ks, v) == i
  {
  }

  /** Removing a value that ends a sequence it does not otherwise occur in leaves the rest. */
  lemma {:induction false} RemoveKeyLast(s: seq<int>, v: int)
    requires v !in s
    ensures RemoveKey(s + [v], v) == s
    decreases |s|
  {
    if s != [] {
      var w := s + [v];
      assert w[0] == s[0] && s[0] != v;
      assert w[1..] == s[1..] + [v];
      assert v !in s[1..];
      RemoveKeyLast(s[1..], v);
      assert RemoveKey(w, v) == [s[0]] + RemoveKey(w[1..], v);
      assert [s[0]] + s[1..] == s;
    }
  }

  /** Removing a value that starts a sequence removes the first element. */
  lemma RemoveKeyFirst(s: seq<int>, v: int)
    ensures RemoveKey([v] + s, v) == s
  {
  }

  /** Dropping the element before the last one keeps order. */
  lemma OrderedDropBeforeLast(s: seq<int>, v: int, strict: bool)
    requires s != [] && Ordered(s + [v], strict)
    ensures Ordered(s[..|s| - 1] + [v], strict)
  {
    var w, u := s + [v], s[..|s| - 1] + [v];
    forall i, j | 0 <= i < j < |u| ensures Le(u[i], u[j], strict) {
      if j == |u| - 1 {
        assert u[i] == w[i] && u[j] == w[|s|];
      } else {
        assert u[i] == w[i] && u[j] == w[j];
      }
    }
  }

  /** Dropping the element after the first one keeps order. */
  lemma OrderedDropAfterFirst(s: seq<int>, v: int, strict: bool)
    requires s != [] && Ordered([v] + s, strict)
    ensures Ordered([v] + s[1..], strict)
  {
    var w, u := [v] + s, [v] + s[1..];
    forall i, j | 0 <= i < j < |u| ensures Le(u[i], u[j], strict) {
      if i == 0 {
        assert u[i] == w[0] && u[j] == w[j + 1];
      } else {
        assert u[i] == w[i + 1] && u[j] == w[j + 1];
      }
    }
  }

  /** The strict maximum of a sequence does not occur before it. */
  lemma LastNotBefore(s: seq<int>, v: int)
    requires Ordered(s + [v], true)
    ensures v !in s
  {
    forall i | 0 <= i < |s| ensures s[i] != v {
      assert Le((s + [v])[i], (s + [v])[|s|], true);
    }
  }
}
