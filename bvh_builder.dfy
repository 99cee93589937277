/**
 * BVHBuilder::build (Source/BVHBuilder.cpp:247-369) and what its output
 * means: a binary tree listed in depth-first pre-order whose skip targets
 * point just past each node's subtree, packed into two records per node
 * and one first-vertex record per triangle.
 */
module BVH {
  import opened Wrappers
  import opened BVHNodes
  import opened BVHGeometry
  import opened BVHTree
  import opened BVHOrder
  import opened BVHBuild
  import opened BVHPack

  function NodeBox(n: BVHNode): Box3
  {
    Box3(n.bboxMin, n.bboxMax)
  }

  /**
   * Node k of a pre-order listing whose subtree sizes are `sizes`: its
   * subtree covers positions k..k+sizes[k]-1; its skip target is the first
   * position after that, or InvalidMask at the end; it is a leaf exactly
   * when its subtree is itself; an internal node has its left child next,
   * its right child just after the left child's subtree, the union of
   * their bounds as its own bounds, and the left child is the one with the
   * larger surface area.
   */
  ghost predicate LinkedAt(nodes: seq<BVHNode>, sizes: seq<nat>, k: nat)
    requires |sizes| == |nodes| && k < |nodes|
  {
    && 1 <= sizes[k] && k + sizes[k] <= |nodes|
    && nodes[k].next == (if k + sizes[k] < |nodes| then k + sizes[k] else InvalidMask)
    && (IsLeaf(nodes[k]) <==> sizes[k] == 1)
    && (sizes[k] > 1 ==>
         && k + 1 + sizes[k + 1] < |nodes|
         && sizes[k] == 1 + sizes[k + 1] + sizes[k + 1 + sizes[k + 1]]
         && NodeBox(nodes[k]) == Union(NodeBox(nodes[k + 1]), NodeBox(nodes[k + 1 + sizes[k + 1]]))
         && SurfaceArea(NodeBox(nodes[k + 1])) >= SurfaceArea(NodeBox(nodes[k + 1 + sizes[k + 1]])))
  }

  /** `nodes` is a non-empty binary tree in pre-order, node 0 the root of all of it. */
  ghost predicate PreOrderTree(nodes: seq<BVHNode>, sizes: seq<nat>)
  {
    && |sizes| == |nodes| && |nodes| > 0 && sizes[0] == |nodes|
    && forall k :: 0 <= k < |nodes| ==> LinkedAt(nodes, sizes, k)
  }

  /**
   * The leaves are the kept triangles: each leaf names a kept triangle and
   * carries that triangle's bounds, and each kept triangle has a leaf.
   */
  ghost predicate LeavesArePrimitives(m: Mesh, area: AreaFn, nodes: seq<BVHNode>)
    requires ValidMesh(m)
  {
    && (forall k :: 0 <= k < |nodes| && IsLeaf(nodes[k]) ==>
         && nodes[k].prim < m.primCount && Kept(m, area, nodes[k].prim)
         && NodeBox(nodes[k]) == TriangleBox(Corner(m, nodes[k].prim, 0), Corner(m, nodes[k].prim, 1), Corner(m, nodes[k].prim, 2)))
    && (forall p :: 0 <= p < m.primCount && Kept(m, area, p) ==>
         exists k :: 0 <= k < |nodes| && IsLeaf(nodes[k]) && nodes[k].prim == p)
  }

  /** Sizes of the subtrees at each pre-order position of `t`. */
  ghost function SubtreeSizes(t: Tree): (s: seq<nat>)
    ensures |s| == Size(t)
  {
    seq(Size(t), k requires 0 <= k < Size(t) => Size(At(t, k)))
  }

  /**
   * What the numbering and remap leave: a well-formed tree over the whole
   * arena, numbered in pre-order, with node visitOrder(j) of `out` the
   * relocated slot j.
   */
  ghost predicate Relinearised(arena: seq<TempNode>, t: Tree, out: seq<BVHNode>)
  {
    && WF(arena, t) && LargerFirst(arena, t) && Ordered(arena, t, InvalidMask, 0)
    && Ids(t) == Span(0, |arena|) && |arena| <= InvalidMask
    && Size(t) == |arena| == |out|
    && (forall j :: 0 <= j < |arena| ==> arena[j].visitOrder < |arena|)
    && (forall j :: 0 <= j < |arena| ==> arena[j].next == InvalidMask || arena[j].next < |arena|)
    && (forall j :: 0 <= j < |arena| ==> out[arena[j].visitOrder] == Relocated(arena, j))
  }

  /** Node k of the output is the relocated root of the subtree at pre-order position k. */
  lemma OutputAt(arena: seq<TempNode>, t: Tree, out: seq<BVHNode>, k: nat)
    requires Relinearised(arena, t, out) && k < |out|
    ensures At(t, k).id < |arena| && arena[At(t, k).id].visitOrder == k
    ensures out[k] == Relocated(arena, At(t, k).id)
  {
    OrderedAt(arena, t, InvalidMask, 0, k);
  }

  /** The skip target of output node k is the position just past its subtree. */
  lemma OutputNext(arena: seq<TempNode>, t: Tree, out: seq<BVHNode>, k: nat)
    requires Relinearised(arena, t, out) && k < |out|
    ensures k + Size(At(t, k)) <= |out|
    ensures out[k].next == if k + Size(At(t, k)) < |out| then k + Size(At(t, k)) else InvalidMask
  {
    OrderedAt(arena, t, InvalidMask, 0, k);
    OutputAt(arena, t, out, k);
    if k + Size(At(t, k)) < Size(t) {
      OutputAt(arena, t, out, k + Size(At(t, k)));
    }
  }

  /** Output node k is a leaf exactly when the subtree at position k is one. */
  lemma OutputShape(arena: seq<TempNode>, t: Tree, out: seq<BVHNode>, k: nat)
    requires Relinearised(arena, t, out) && k < |out|
    ensures IsLeaf(out[k]) <==> At(t, k).Leaf?
  {
    OutputAt(arena, t, out, k);
    WFAt(arena, t, k);
  }

  /**
   * An internal output node k has its children at k+1 and just past the
   * left child's subtree, the union of their boxes, and the larger child first.
   */
  lemma OutputChildren(arena: seq<TempNode>, t: Tree, out: seq<BVHNode>, k: nat)
    requires Relinearised(arena, t, out) && k < |out| && At(t, k).Node?
    ensures k + 1 + Size(At(t, k).left) < |out|
    ensures NodeBox(out[k]) == Union(NodeBox(out[k + 1]), NodeBox(out[k + 1 + Size(At(t, k).left)]))
    ensures SurfaceArea(NodeBox(out[k + 1])) >= SurfaceArea(NodeBox(out[k + 1 + Size(At(t, k).left)]))
  {
    AtChildren(t, k);
    WFAt(arena, t, k);
    var l := At(t, k).left;
    OutputAt(arena, t, out, k);
    OutputAt(arena, t, out, k + 1);
    OutputAt(arena, t, out, k + 1 + Size(l));
  }

  /** Each node of the output satisfies LinkedAt with the tree's subtree sizes. */
  lemma LinkedAtFromTree(arena: seq<TempNode>, t: Tree, out: seq<BVHNode>, k: nat)
    requires Relinearised(arena, t, out) && k < |out|
    ensures LinkedAt(out, SubtreeSizes(t), k)
  {
    var sizes := SubtreeSizes(t);
    OutputNext(arena, t, out, k);
    OutputShape(arena, t, out, k);
    match At(t, k)
    case Leaf(_) =>
    case Node(_, l, r) =>
      AtChildren(t, k);
      OutputChildren(arena, t, out, k);
      assert sizes[k + 1] == Size(l);
      assert sizes[k + 1 + Size(l)] == Size(r);
  }

  /** The whole output is the tree in pre-order. */
  lemma TreeFromArena(arena: seq<TempNode>, t: Tree, out: seq<BVHNode>)
    requires Relinearised(arena, t, out)
    ensures PreOrderTree(out, SubtreeSizes(t))
  {
    forall k | 0 <= k < |out| ensures LinkedAt(out, SubtreeSizes(t), k) {
      LinkedAtFromTree(arena, t, out, k);
    }
  }

  /**
   * Slot j below the leaf count holds, up to its parent link, one of the
   * leaves made from the mesh; numbering changed only traversal fields.
   */
  lemma LeafSlot(m: Mesh, area: AreaFn, leaves: seq<TempNode>, built: seq<TempNode>, arena: seq<TempNode>, j: nat)
    requires ValidMesh(m) && leaves == Survivors(m, area, m.primCount)
    requires |leaves| <= |built| && j < |leaves|
    requires multiset(Unlinked(built[0..|leaves|])) == multiset(leaves)
    requires |arena| == |built| && SameLinks(arena[j], built[j])
    ensures arena[j].prim < m.primCount && Kept(m, area, arena[j].prim)
    ensures BoxOf(arena[j]) == TriangleBox(Corner(m, arena[j].prim, 0), Corner(m, arena[j].prim, 1), Corner(m, arena[j].prim, 2))
  {
    SurvivorsSound(m, area, m.primCount);
    var u := Unlinked(built[0..|leaves|]);
    assert u[j] == built[j].(parent := InvalidMask);
    assert u[j] in multiset(leaves);
    var i :| 0 <= i < |leaves| && leaves[i] == u[j];
    assert Skeleton(arena[j]) == Skeleton(built[j]);
    assert BoxOf(arena[j]) == BoxOf(Skeleton(arena[j])) && arena[j].prim == Skeleton(arena[j]).prim;
  }

  /** Every kept triangle has a slot below the leaf count. */
  lemma KeptHasSlot(m: Mesh, area: AreaFn, leaves: seq<TempNode>, built: seq<TempNode>, arena: seq<TempNode>, p: nat)
    returns (j: nat)
    requires ValidMesh(m) && leaves == Survivors(m, area, m.primCount)
    requires |leaves| <= |built| && p < m.primCount && Kept(m, area, p)
    requires multiset(Unlinked(built[0..|leaves|])) == multiset(leaves)
    requires |arena| == |built| && forall i :: 0 <= i < |built| ==> SameLinks(arena[i], built[i])
    ensures j < |leaves| && arena[j].prim == p
  {
    SurvivorsComplete(m, area, m.primCount, p);
    var i :| 0 <= i < |leaves| && leaves[i].prim == p;
    var u := Unlinked(built[0..|leaves|]);
    assert leaves[i] in multiset(u);
    j :| 0 <= j < |u| && u[j] == leaves[i];
    assert u[j] == built[j].(parent := InvalidMask);
    assert Skeleton(arena[j]) == Skeleton(built[j]);
    assert arena[j].prim == Skeleton(arena[j]).prim;
  }

  /** What the leaf lemmas need of the arena before and after numbering. */
  ghost predicate LeafHistory(m: Mesh, area: AreaFn, leaves: seq<TempNode>, built: seq<TempNode>, arena: seq<TempNode>)
  {
    && ValidMesh(m) && leaves == Survivors(m, area, m.primCount)
    && |leaves| <= |built| && multiset(Unlinked(built[0..|leaves|])) == multiset(leaves)
    && |arena| == |built| && (forall i :: 0 <= i < |built| ==> SameLinks(arena[i], built[i]))
  }

  /** A leaf of the output is a kept triangle carrying that triangle's bounds. */
  lemma LeafIsKept(m: Mesh, area: AreaFn, leaves: seq<TempNode>, built: seq<TempNode>,
                   arena: seq<TempNode>, t: Tree, out: seq<BVHNode>, k: nat)
    requires LeafHistory(m, area, leaves, built, arena)
    requires Relinearised(arena, t, out) && LeafIds(t) == Span(0, |leaves|)
    requires k < |out| && IsLeaf(out[k])
    ensures out[k].prim < m.primCount && Kept(m, area, out[k].prim)
    ensures NodeBox(out[k]) == TriangleBox(Corner(m, out[k].prim, 0), Corner(m, out[k].prim, 1), Corner(m, out[k].prim, 2))
  {
    var j := LeafPosition(arena, t, out, k);
    assert j < |leaves|;
    LeafSlot(m, area, leaves, built, arena, j);
  }

  /** A leaf of the output is the relocated copy of a leaf slot of the arena. */
  lemma LeafPosition(arena: seq<TempNode>, t: Tree, out: seq<BVHNode>, k: nat) returns (j: nat)
    requires Relinearised(arena, t, out) && k < |out| && IsLeaf(out[k])
    ensures j in LeafIds(t) && j < |arena|
    ensures out[k].prim == arena[j].prim && NodeBox(out[k]) == BoxOf(arena[j])
  {
    OutputAt(arena, t, out, k);
    OutputShape(arena, t, out, k);
    WFAt(arena, t, k);
    j := At(t, k).id;
  }

  /** Every kept triangle is the primitive of some leaf of the output. */
  lemma KeptIsLeaf(m: Mesh, area: AreaFn, leaves: seq<TempNode>, built: seq<TempNode>,
                   arena: seq<TempNode>, t: Tree, out: seq<BVHNode>, p: nat)
    requires LeafHistory(m, area, leaves, built, arena) && Relinearised(arena, t, out)
    requires p < m.primCount && Kept(m, area, p)
    ensures exists k :: 0 <= k < |out| && IsLeaf(out[k]) && out[k].prim == p
  {
    var j := KeptHasSlot(m, area, leaves, built, arena, p);
    var k := arena[j].visitOrder;
    assert out[k].prim == p;
    SurvivorsSound(m, area, m.primCount);
  }

  /** The output's leaves are the kept triangles with their bounds. */
  lemma LeavesFromArena(m: Mesh, area: AreaFn, leaves: seq<TempNode>, built: seq<TempNode>,
                        arena: seq<TempNode>, t: Tree, out: seq<BVHNode>)
    requires LeafHistory(m, area, leaves, built, arena)
    requires Relinearised(arena, t, out) && LeafIds(t) == Span(0, |leaves|)
    ensures LeavesArePrimitives(m, area, out)
  {
    forall k | 0 <= k < |out| && IsLeaf(out[k])
      ensures out[k].prim < m.primCount && Kept(m, area, out[k].prim)
      ensures NodeBox(out[k]) == TriangleBox(Corner(m, out[k].prim, 0), Corner(m, out[k].prim, 1), Corner(m, out[k].prim, 2))
    {
      LeafIsKept(m, area, leaves, built, arena, t, out, k);
    }
    forall p | 0 <= p < m.primCount && Kept(m, area, p)
      ensures exists k :: 0 <= k < |out| && IsLeaf(out[k]) && out[k].prim == p
    {
      KeptIsLeaf(m, area, leaves, built, arena, t, out, p);
    }
  }

  /**
   * Leaf creation, the recursive build, the depth-first numbering and the
   * remap: n >= 1 kept triangles give 2n-1 nodes forming a binary tree in
   * pre-order whose leaves are exactly the kept triangles.
   */
  method BuildNodes(m: Mesh, area: AreaFn) returns (nodes: seq<BVHNode>, ghost sizes: seq<nat>)
    requires ValidMesh(m) && 2 * m.primCount <= InvalidMask
    requires |Survivors(m, area, m.primCount)| > 0
    ensures |nodes| == 2 * |Survivors(m, area, m.primCount)| - 1
    ensures PreOrderTree(nodes, sizes)
    ensures LeavesArePrimitives(m, area, nodes)
  {
    var leaves := CreateLeaves(m, area);
    SurvivorsSound(m, area, m.primCount);
    assert leaves[0..|leaves|] == leaves;
    var built, rootIndex, t := BuildInternal(leaves, 0, |leaves|);
    var arena := SetDepthFirstVisitOrder(built, rootIndex, t);
    ArenaNumbered(built, arena, t, |leaves|);
    nodes := Remap(arena);
    sizes := SubtreeSizes(t);
    TreeFromArena(arena, t, nodes);
    LeavesFromArena(m, area, leaves, built, arena, t, nodes);
  }

  /** After the build and the numbering, the arena satisfies what Remap needs and Relinearised describes. */
  lemma ArenaNumbered(built: seq<TempNode>, arena: seq<TempNode>, t: Tree, n: nat)
    requires 0 < n && |built| == 2 * n - 1 <= InvalidMask
    requires WF(built, t) && LargerFirst(built, t)
    requires LeafIds(t) == Span(0, n) && InternalIds(t) == Span(n, |built|)
    requires Ordered(arena, t, InvalidMask, 0) && Renumbered(built, arena, Ids(t))
    ensures Numbered(arena) && WF(arena, t) && LargerFirst(arena, t)
    ensures Ids(t) == Span(0, |arena|) && Size(t) == |arena|
    ensures forall i :: 0 <= i < |built| ==> SameLinks(arena[i], built[i])
  {
    assert Ids(t) == Span(0, |arena|);
    ArenaShape(built, arena, t);
    VisitOrderPermutes(arena, t);
    forall j | 0 <= j < |arena| ensures arena[j].next == InvalidMask || arena[j].next < |arena| {
      ArenaNext(arena, t, j);
    }
  }

  /** Numbering keeps the tree well formed and larger-first. */
  lemma ArenaShape(built: seq<TempNode>, arena: seq<TempNode>, t: Tree)
    requires WF(built, t) && LargerFirst(built, t) && Renumbered(built, arena, Ids(t))
    ensures WF(arena, t) && LargerFirst(arena, t)
  {
    WFIdsInArena(built, t);
    WFFrame(built, arena, t);
    LargerFirstFrame(built, arena, t);
  }

  /** The skip target of a numbered slot is another slot or InvalidMask. */
  lemma ArenaNext(arena: seq<TempNode>, t: Tree, j: nat)
    requires Ordered(arena, t, InvalidMask, 0) && j in Ids(t)
    ensures j < |arena| && (arena[j].next == InvalidMask || arena[j].next < |arena|)
  {
    VisitOrderOf(arena, t, j);
    var k := arena[j].visitOrder;
    OrderedAt(arena, t, InvalidMask, 0, k);
    if k + Size(At(t, k)) < Size(t) {
      OrderedAt(arena, t, InvalidMask, 0, k + Size(At(t, k)));
    }
  }

  /**
   * The builder object: `nodes` (m_nodes) holds the linearised tree of the
   * last build; `packedNodes` (m_packedNodes) accumulates packed records.
   */
  class BVHBuilder {
    var nodes: seq<BVHNode>
    var packedNodes: seq<PackedNode>
    /** Subtree sizes of the last build's tree, in visit order. */
    ghost var sizes: seq<nat>

    constructor ()
      ensures nodes == [] && packedNodes == []
    {
      nodes := [];
      packedNodes := [];
      sizes := [];
    }

    /**
     * build: replaces `nodes` with the linearised tree of the mesh's kept
     * triangles and appends its packed records, then one first-vertex
     * record per input triangle, after whatever `packedNodes` already held.
     */
    method Build(m: Mesh, area: AreaFn)
      requires ValidMesh(m) && 2 * m.primCount <= InvalidMask
      requires |Survivors(m, area, m.primCount)| > 0
      modifies this
      ensures |nodes| == 2 * |Survivors(m, area, m.primCount)| - 1
      ensures PreOrderTree(nodes, sizes) && LeavesArePrimitives(m, area, nodes)
      ensures LeavesInMesh(m, nodes)
      ensures |packedNodes| == |old(packedNodes)| + 2 * |nodes| + m.primCount
      ensures packedNodes[..|old(packedNodes)|] == old(packedNodes)
      ensures PackedLayout(m, nodes, packedNodes[|old(packedNodes)|..])
    {
      nodes := [];
      nodes, sizes := BuildNodes(m, area);
      var records := PackNodes(m, nodes);
      var tail := PackTail(m);
      ghost var before := packedNodes;
      packedNodes := packedNodes + records + tail;
      assert packedNodes[|before|..] == records + tail;
    }
  }

  /**
   * On the output of a build into an empty builder, every node reads back
   * from the packed records as itself, and each leaf's tagged id indexes
   * its own first-vertex record (for meshes small enough that the tags do
   * not wrap around 32 bits).
   */
  lemma PackedOutputDecodes(m: Mesh, area: AreaFn, nodes: seq<BVHNode>, records: seq<PackedNode>, k: nat)
    requires ValidMesh(m) && LeavesArePrimitives(m, area, nodes) && LeavesInMesh(m, nodes)
    requires PackedLayout(m, nodes, records) && k < |nodes|
    requires 2 * |nodes| + m.primCount <= InvalidMask
    ensures Unpack(records, |nodes|, k) == Some(nodes[k])
    ensures IsLeaf(nodes[k]) ==> records[2 * k].w == 2 * |nodes| + nodes[k].prim
  {
    UnpackPacked(m, nodes, records, k);
  }
}
