/**
 * The binary tree the builder lays out in its node arena
 * (Source/BVHBuilder.cpp:180-243). The tree itself is a ghost value; what
 * the code stores are the `left`, `right` and `parent` indices of the arena
 * slots, and WF says when those slots encode a given tree.
 */
module BVHTree {
  import opened BVHNodes
  import opened BVHGeometry

  /** Arena ids arranged as a binary tree: leaves and internal nodes with two children. */
  datatype Tree = Leaf(id: nat) | Node(id: nat, left: Tree, right: Tree)

  function LeafIds(t: Tree): set<nat>
  {
    match t
    case Leaf(i) => {i}
    case Node(_, l, r) => LeafIds(l) + LeafIds(r)
  }

  function InternalIds(t: Tree): set<nat>
  {
    match t
    case Leaf(_) => {}
    case Node(i, l, r) => {i} + InternalIds(l) + InternalIds(r)
  }

  /** The ids lo..hi-1. */
  function Span(lo: nat, hi: nat): (r: set<nat>)
    ensures forall j :: j in r <==> lo <= j < hi
    decreases hi - lo
  {
    if lo >= hi then {} else {lo} + Span(lo + 1, hi)
  }

  lemma {:induction false} SpanSize(lo: nat, hi: nat)
    ensures |Span(lo, hi)| == if lo <= hi then hi - lo else 0
    decreases hi - lo
  {
    if lo < hi {
      SpanSize(lo + 1, hi);
      assert lo !in Span(lo + 1, hi);
    }
  }

  function Ids(t: Tree): set<nat>
  {
    LeafIds(t) + InternalIds(t)
  }

  function Size(t: Tree): nat
  {
    match t
    case Leaf(_) => 1
    case Node(_, l, r) => 1 + Size(l) + Size(r)
  }

  function LeafCount(t: Tree): nat
  {
    match t
    case Leaf(_) => 1
    case Node(_, l, r) => LeafCount(l) + LeafCount(r)
  }

  /** A tree with n leaves has 2n-1 nodes. */
  lemma {:induction false} SizeFromLeaves(t: Tree)
    ensures Size(t) == 2 * LeafCount(t) - 1
  {
    match t
    case Leaf(_) =>
    case Node(_, l, r) =>
      SizeFromLeaves(l);
      SizeFromLeaves(r);
  }

  /** The root is one of the tree's ids. */
  lemma RootInIds(t: Tree)
    ensures t.id in Ids(t)
    ensures t.Leaf? ==> t.id in LeafIds(t)
    ensures t.Node? ==> t.id in InternalIds(t)
  {
  }

  /** A node as the builder leaves it for a leaf: a primitive and no children. */
  predicate LeafShaped(n: TempNode)
  {
    n.prim != InvalidMask && n.left == InvalidMask && n.right == InvalidMask
  }

  /**
   * The arena slots named by `t` encode `t`: a leaf slot holds a primitive
   * and no children; an internal slot holds no primitive, links to the
   * roots of both subtrees, is their parent, has exactly the bounds of both
   * children together and was allocated before its internal children. No
   * slot is used twice.
   */
  ghost predicate WF(nodes: seq<TempNode>, t: Tree)
  {
    match t
    case Leaf(i) => i < |nodes| && LeafShaped(nodes[i])
    case Node(i, l, r) =>
      && i < |nodes|
      && WF(nodes, l) && WF(nodes, r)
      && nodes[i].prim == InvalidMask
      && nodes[i].left == l.id && nodes[i].right == r.id
      && nodes[l.id].parent == i && nodes[r.id].parent == i
      && BoxOf(nodes[i]) == Union(BoxOf(nodes[l.id]), BoxOf(nodes[r.id]))
      && (l.Node? ==> i < l.id) && (r.Node? ==> i < r.id)
      && i !in Ids(l) && i !in Ids(r) && Ids(l) !! Ids(r)
  }

  /** Every id of a well-formed tree is a slot of the arena. */
  lemma {:induction false} WFIdsInArena(nodes: seq<TempNode>, t: Tree)
    requires WF(nodes, t)
    ensures forall j :: j in Ids(t) ==> j < |nodes|
  {
    match t
    case Leaf(_) =>
    case Node(_, l, r) =>
      WFIdsInArena(nodes, l);
      WFIdsInArena(nodes, r);
  }

  /** A node with its traversal fields and its parent link blanked out. */
  function Skeleton(n: TempNode): TempNode
  {
    n.(visitOrder := InvalidMask, next := InvalidMask, parent := InvalidMask)
  }

  /**
   * WF survives any change that keeps the skeleton of each of the tree's
   * slots and the parent of each slot but the root.
   */
  lemma {:induction false} WFFrame(nodes: seq<TempNode>, nodes': seq<TempNode>, t: Tree)
    requires WF(nodes, t)
    requires forall j :: j in Ids(t) ==> j < |nodes| && j < |nodes'| && Skeleton(nodes'[j]) == Skeleton(nodes[j])
    requires forall j :: j in Ids(t) && j != t.id && j < |nodes| && j < |nodes'| ==> nodes'[j].parent == nodes[j].parent
    ensures WF(nodes', t)
  {
    match t
    case Leaf(i) =>
      assert i in Ids(t);
    case Node(i, l, r) =>
      RootInIds(t);
      RootInIds(l);
      RootInIds(r);
      WFFrame(nodes, nodes', l);
      WFFrame(nodes, nodes', r);
  }

  /** Below every internal node the child with the larger surface area is the left one. */
  ghost predicate LargerFirst(nodes: seq<TempNode>, t: Tree)
  {
    match t
    case Leaf(_) => true
    case Node(_, l, r) =>
      && l.id < |nodes| && r.id < |nodes|
      && SurfaceArea(BoxOf(nodes[l.id])) >= SurfaceArea(BoxOf(nodes[r.id]))
      && LargerFirst(nodes, l) && LargerFirst(nodes, r)
  }

  /** LargerFirst depends only on the bounds of the tree's slots, which are part of their skeletons. */
  lemma {:induction false} LargerFirstFrame(nodes: seq<TempNode>, nodes': seq<TempNode>, t: Tree)
    requires LargerFirst(nodes, t)
    requires forall j :: j in Ids(t) ==> j < |nodes| && j < |nodes'| && Skeleton(nodes'[j]) == Skeleton(nodes[j])
    ensures LargerFirst(nodes', t)
  {
    match t
    case Leaf(_) =>
    case Node(_, l, r) =>
      RootInIds(l);
      RootInIds(r);
      assert BoxOf(nodes'[l.id]) == BoxOf(Skeleton(nodes'[l.id])) == BoxOf(nodes[l.id]);
      assert BoxOf(nodes'[r.id]) == BoxOf(Skeleton(nodes'[r.id])) == BoxOf(nodes[r.id]);
      LargerFirstFrame(nodes, nodes', l);
      LargerFirstFrame(nodes, nodes', r);
  }

  /**
   * The subtree rooted at the k-th node of a pre-order walk of `t`: the
   * root is node 0, then come the nodes of the left subtree, then those of
   * the right subtree.
   */
  function At(t: Tree, k: nat): Tree
    requires k < Size(t)
    decreases t
  {
    if k == 0 then t
    else match t
      case Node(_, l, r) => if k <= Size(l) then At(l, k - 1) else At(r, k - 1 - Size(l))
  }

  /**
   * The subtree at position k covers positions k..k+Size-1 and stays inside
   * the walk; if it is internal, its left child comes next and its right
   * child right after the left child's subtree.
   */
  lemma {:induction false} AtChildren(t: Tree, k: nat)
    requires k < Size(t)
    ensures k + Size(At(t, k)) <= Size(t)
    ensures At(t, k).Node? ==>
      && k + 1 + Size(At(t, k).left) < Size(t)
      && At(t, k + 1) == At(t, k).left
      && At(t, k + 1 + Size(At(t, k).left)) == At(t, k).right
  {
    match t
    case Leaf(_) =>
    case Node(_, l, r) =>
      if k == 0 {
      } else if k <= Size(l) {
        AtChildren(l, k - 1);
      } else {
        AtChildren(r, k - 1 - Size(l));
      }
  }

  /**
   * Every subtree of a well-formed tree is well formed, keeps the larger
   * child first and lies inside the tree's ids; a leaf subtree's id is a
   * leaf id of the tree.
   */
  lemma {:induction false} WFAt(nodes: seq<TempNode>, t: Tree, k: nat)
    requires WF(nodes, t) && k < Size(t)
    ensures WF(nodes, At(t, k))
    ensures LargerFirst(nodes, t) ==> LargerFirst(nodes, At(t, k))
    ensures At(t, k).id in Ids(t)
    ensures At(t, k).Leaf? ==> At(t, k).id in LeafIds(t)
  {
    RootInIds(t);
    match t
    case Leaf(_) =>
    case Node(_, l, r) =>
      if k == 0 {
      } else if k <= Size(l) {
        WFAt(nodes, l, k - 1);
      } else {
        WFAt(nodes, r, k - 1 - Size(l));
      }
  }

  /** Every id of the tree roots the subtree at some position of the pre-order walk. */
  lemma {:induction false} AtCovers(t: Tree, j: nat)
    requires j in Ids(t)
    ensures exists k :: 0 <= k < Size(t) && At(t, k).id == j
  {
    match t
    case Leaf(_) =>
      assert At(t, 0).id == j;
    case Node(i, l, r) =>
      if j == i {
        assert At(t, 0).id == j;
      } else if j in Ids(l) {
        AtCovers(l, j);
        var k :| 0 <= k < Size(l) && At(l, k).id == j;
        assert At(t, k + 1) == At(l, k);
      } else {
        assert j in Ids(r);
        AtCovers(r, j);
        var k :| 0 <= k < Size(r) && At(r, k).id == j;
        assert At(t, k + 1 + Size(l)) == At(r, k);
      }
  }
}
