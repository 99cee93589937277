/**
 * The last two phases of BVHBuilder::build (Source/BVHBuilder.cpp:291-368):
 * the scratch nodes are moved to their visit-order slots with skip
 * targets translated to visit order, then every node is written as two
 * four-word records followed by one first-vertex record per triangle.
 */
module BVHPack {
  import opened Wrappers
  import opened BVHNodes
  import opened BVHGeometry
  import opened BVHBuild

  /**
   * The scratch arena after numbering: the visit orders are distinct slots
   * of the arena and every skip target is a slot or InvalidMask.
   */
  predicate Numbered(temp: seq<TempNode>)
  {
    && (forall j :: 0 <= j < |temp| ==> temp[j].visitOrder < |temp|)
    && (forall i, j :: 0 <= i < j < |temp| ==> temp[i].visitOrder != temp[j].visitOrder)
    && (forall j :: 0 <= j < |temp| ==> temp[j].next == InvalidMask || temp[j].next < |temp|)
  }

  /** The skip target of slot j as a visit order; InvalidMask stays InvalidMask. */
  function RemappedNext(temp: seq<TempNode>, j: nat): nat
    requires j < |temp| && (temp[j].next == InvalidMask || temp[j].next < |temp|)
  {
    if temp[j].next == InvalidMask then InvalidMask else temp[temp[j].next].visitOrder
  }

  /** The linearised node for slot j: its bounds and primitive, its skip target translated. */
  function Relocated(temp: seq<TempNode>, j: nat): BVHNode
    requires j < |temp| && (temp[j].next == InvalidMask || temp[j].next < |temp|)
  {
    BVHNode(temp[j].bboxMin, temp[j].prim, temp[j].bboxMax, RemappedNext(temp, j))
  }

  /**
   * The remap loop: slot j of the arena lands at position visitOrder(j)
   * of the node list, with the same bounds and primitive and its skip
   * target translated from arena index to visit order.
   */
  method Remap(temp: seq<TempNode>) returns (nodes: seq<BVHNode>)
    requires Numbered(temp)
    ensures |nodes| == |temp|
    ensures forall j :: 0 <= j < |temp| ==> nodes[temp[j].visitOrder] == Relocated(temp, j)
  {
    nodes := seq(|temp|, _ => DefaultNode());
    var oldIndex := 0;
    while oldIndex < |temp|
      invariant oldIndex <= |temp| && |nodes| == |temp|
      invariant forall j :: 0 <= j < oldIndex ==> nodes[temp[j].visitOrder] == Relocated(temp, j)
    {
      var oldNode := temp[oldIndex];
      var next := if oldNode.next == InvalidMask then InvalidMask else temp[oldNode.next].visitOrder;
      nodes := nodes[oldNode.visitOrder := BVHNode(oldNode.bboxMin, oldNode.prim, oldNode.bboxMax, next)];
      oldIndex := oldIndex + 1;
    }
  }

  function Add(a: Vec3, b: Vec3): Vec3
  {
    Vec3(a.x + b.x, a.y + b.y, a.z + b.z)
  }

  /** Every leaf names a triangle of the mesh. */
  predicate LeavesInMesh(m: Mesh, nodes: seq<BVHNode>)
  {
    forall k :: 0 <= k < |nodes| && IsLeaf(nodes[k]) ==> nodes[k].prim < m.primCount
  }

  /**
   * The two records of one node. A leaf: both edges from the first corner,
   * with the primitive id offset by twice the node count, then the skip
   * target. An internal node: its bounds, with its (invalid) primitive
   * field and then the skip target.
   */
  function NodeRecords(m: Mesh, node: BVHNode, nodeCount: nat): (r: seq<PackedNode>)
    requires ValidMesh(m) && (IsLeaf(node) ==> node.prim < m.primCount)
    ensures |r| == 2 && r[1].w == node.next
  {
    if IsLeaf(node) then
      var v0 := Corner(m, node.prim, 0);
      [PackedNode(Sub(Corner(m, node.prim, 1), v0), AddU32(node.prim, nodeCount * 2)),
       PackedNode(Sub(Corner(m, node.prim, 2), v0), node.next)]
    else
      [PackedNode(node.bboxMin, node.prim), PackedNode(node.bboxMax, node.next)]
  }

  /**
   * The first-vertex record of triangle p. The source copies sixteen bytes
   * from a twelve-byte vector, so the fourth word is unspecified; the
   * model writes 0 there.
   */
  function TailRecord(m: Mesh, p: nat): PackedNode
    requires ValidMesh(m) && p < m.primCount
  {
    PackedNode(Corner(m, p, 0), 0)
  }

  /** The node-packing loop: two records per node, in visit order. */
  method PackNodes(m: Mesh, nodes: seq<BVHNode>) returns (records: seq<PackedNode>)
    requires ValidMesh(m) && LeavesInMesh(m, nodes)
    ensures |records| == 2 * |nodes|
    ensures forall i :: 0 <= i < |nodes| ==>
      records[2 * i] == NodeRecords(m, nodes[i], |nodes|)[0] && records[2 * i + 1] == NodeRecords(m, nodes[i], |nodes|)[1]
  {
    records := [];
    var i := 0;
    while i < |nodes|
      invariant i <= |nodes| && |records| == 2 * i
      invariant forall k :: 0 <= k < i ==>
        records[2 * k] == NodeRecords(m, nodes[k], |nodes|)[0] && records[2 * k + 1] == NodeRecords(m, nodes[k], |nodes|)[1]
    {
      var node := nodes[i];
      var data0, data1;
      if node.prim != InvalidMask {
        var v0 := Corner(m, node.prim, 0);
        var v1 := Corner(m, node.prim, 1);
        var v2 := Corner(m, node.prim, 2);
        data0 := PackedNode(Sub(v1, v0), AddU32(node.prim, |nodes| * 2));
        data1 := PackedNode(Sub(v2, v0), node.next);
      } else {
        data0 := PackedNode(node.bboxMin, node.prim);
        data1 := PackedNode(node.bboxMax, node.next);
      }
      records := records + [data0, data1];
      i := i + 1;
    }
  }

  /** The tail loop: one first-vertex record for every input triangle, kept or not. */
  method PackTail(m: Mesh) returns (records: seq<PackedNode>)
    requires ValidMesh(m)
    ensures |records| == m.primCount
    ensures forall p :: 0 <= p < m.primCount ==> records[p] == TailRecord(m, p)
  {
    records := [];
    var primId := 0;
    while primId < m.primCount
      invariant primId <= m.primCount && |records| == primId
      invariant forall p :: 0 <= p < primId ==> records[p] == TailRecord(m, p)
    {
      records := records + [PackedNode(Corner(m, primId, 0), 0)];
      primId := primId + 1;
    }
  }

  /**
   * `records` is the packed output for `nodes`: two records per node, then
   * one first-vertex record per triangle of the mesh.
   */
  ghost predicate PackedLayout(m: Mesh, nodes: seq<BVHNode>, records: seq<PackedNode>)
    requires ValidMesh(m) && LeavesInMesh(m, nodes)
  {
    && |records| == 2 * |nodes| + m.primCount
    && (forall i :: 0 <= i < |nodes| ==>
         records[2 * i] == NodeRecords(m, nodes[i], |nodes|)[0] && records[2 * i + 1] == NodeRecords(m, nodes[i], |nodes|)[1])
    && (forall p :: 0 <= p < m.primCount ==> records[2 * |nodes| + p] == TailRecord(m, p))
  }

  /**
   * How a traversal kernel reads node k back: a first word whose fourth
   * component is InvalidMask starts an internal node; any other value is
   * the index of the leaf's first-vertex record, from which the corners
   * and hence the leaf's bounds are rebuilt. None when that index is not a
   * tail record.
   */
  function Unpack(records: seq<PackedNode>, nodeCount: nat, k: nat): Option<BVHNode>
    requires k < nodeCount && 2 * nodeCount <= |records|
  {
    var r0 := records[2 * k];
    var r1 := records[2 * k + 1];
    if r0.w == InvalidMask then Some(BVHNode(r0.xyz, InvalidMask, r1.xyz, r1.w))
    else if 2 * nodeCount <= r0.w < |records| then
      var v0 := records[r0.w].xyz;
      var box := TriangleBox(v0, Add(v0, r0.xyz), Add(v0, r1.xyz));
      Some(BVHNode(box.lo, r0.w - 2 * nodeCount, box.hi, r1.w))
    else None
  }

  /** A leaf's bounds are those of its triangle. */
  predicate LeafBoundsExact(m: Mesh, nodes: seq<BVHNode>)
    requires ValidMesh(m) && LeavesInMesh(m, nodes)
  {
    forall k :: 0 <= k < |nodes| && IsLeaf(nodes[k]) ==>
      TriangleBox(Corner(m, nodes[k].prim, 0), Corner(m, nodes[k].prim, 1), Corner(m, nodes[k].prim, 2))
        == Box3(nodes[k].bboxMin, nodes[k].bboxMax)
  }

  /**
   * Round trip: reading node k back out of the packed records gives the
   * node itself, provided the tagged ids did not wrap around 32 bits. In
   * particular a leaf's tagged id is the index of its own first-vertex
   * record.
   */
  lemma UnpackPacked(m: Mesh, nodes: seq<BVHNode>, records: seq<PackedNode>, k: nat)
    requires ValidMesh(m) && LeavesInMesh(m, nodes) && LeafBoundsExact(m, nodes)
    requires PackedLayout(m, nodes, records) && k < |nodes|
    requires 2 * |nodes| + m.primCount <= InvalidMask
    ensures IsLeaf(nodes[k]) ==> records[2 * k].w == 2 * |nodes| + nodes[k].prim
    ensures IsLeaf(nodes[k]) ==> records[2 * k].w < |records| && records[records[2 * k].w] == TailRecord(m, nodes[k].prim)
    ensures Unpack(records, |nodes|, k) == Some(nodes[k])
  {
    var node := nodes[k];
    assert records[2 * k] == NodeRecords(m, node, |nodes|)[0];
    assert records[2 * k + 1] == NodeRecords(m, node, |nodes|)[1];
    if IsLeaf(node) {
      var p := node.prim;
      assert records[2 * |nodes| + p] == TailRecord(m, p);
      var v0, v1, v2 := Corner(m, p, 0), Corner(m, p, 1), Corner(m, p, 2);
      assert Add(v0, Sub(v1, v0)) == v1;
      assert Add(v0, Sub(v2, v0)) == v2;
    }
  }
}
