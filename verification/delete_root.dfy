/**
 * `delete` as called on the tree: the loop starts at the root, which may hold
 * fewer keys than the other nodes and is never fixed itself. A merge that
 * leaves the root without keys makes the merged node the root, and only then
 * does the tree lose a level.
 */
module DeleteRoot {
  import opened Seqs
  import opened Nodes
  import opened Delete
  import opened DeleteContent
  import opened DeleteShape

  /**
   * `delete` from a non-empty tree. A root without keys (all of a leaf root's
   * keys deleted before) holds nothing: the code then reads a missing child
   * and throws, which this model reports as not found.
   */
  function DeleteAt(root: Node, v: int, t: nat): (d: Deleted)
    requires RootShape(root, t) && 1 <= t
  {
    if root.keys == [] then Deleted(root, false) else Del(root, v, t, Height(root))
  }

  /** `delete` keeps a valid root; the tree loses a level only when an internal root with a single key collapsed into its merged children. */
  lemma DeleteAtShape(root: Node, v: int, t: nat)
    requires RootShape(root, t) && 1 <= t
    ensures var r := DeleteAt(root, v, t).n;
      && RootShape(r, t)
      && (Height(r) == Height(root) || (Height(r) + 1 == Height(root) && |root.keys| == 1))
  {
    if root.keys != [] {
      var h := Height(root);
      ShapeAtLeast(root, t, h, if root.children == [] then 0 else 1, 1);
      DelShape(root, v, t, h, 1);
      KeptRoot(Del(root, v, t, h).n, root, t, h);
    }
  }

  /** What deletion keeps of a root is a valid root, one level lower only after a collapse. */
  lemma KeptRoot(r: Node, root: Node, t: nat, h: nat)
    requires 1 <= t && Kept(r, root, t, h, 1)
    ensures RootShape(r, t)
    ensures Height(r) == h || (Height(r) + 1 == h && |root.keys| == 1)
  {
    if Shape(r, t, h, 0) && (h > 0 ==> r.keys != []) {
      ShapeAtLeast(r, t, h, 0, if h == 0 then 0 else 1);
      ShapeIsRootShape(r, t, h, if h == 0 then 0 else 1);
      ShapeHeight(r, t, h, 0);
    } else {
      ShapeIsRootShape(r, t, h - 1, t);
      ShapeHeight(r, t, h - 1, t);
    }
  }

  /** On distinct ordered keys, `delete` removes `v` from the in-order sequence, and reports it found exactly when it was there. */
  lemma DeleteAtContent(root: Node, v: int, t: nat)
    requires RootShape(root, t) && 1 <= t && Ordered(InOrder(root), true)
    ensures Meets(DeleteAt(root, v, t), InOrder(root), v)
  {
    if root.keys != [] {
      var h := Height(root);
      ShapeAtLeast(root, t, h, if root.children == [] then 0 else 1, 1);
      DelContent(root, v, t, h);
    }
  }
}
