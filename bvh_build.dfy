/**
 * Leaf creation and the top-down build of the node arena
 * (Source/BVHBuilder.cpp:180-219, 245-285).
 */
module BVHBuild {
  import opened BVHNodes
  import opened BVHGeometry
  import opened BVHSort
  import opened BVHSplit
  import opened BVHTree

  /**
   * An indexed triangle list: primitive p has corners
   * vertices[indices[3p]], vertices[indices[3p+1]], vertices[indices[3p+2]].
   */
  datatype Mesh = Mesh(vertices: seq<Vec3>, indices: seq<nat>, primCount: nat)

  /** Indices within the vertex list; the primitive count is a 32-bit unsigned value. */
  predicate ValidMesh(m: Mesh)
  {
    && m.primCount <= InvalidMask
    && |m.indices| == 3 * m.primCount
    && forall i :: 0 <= i < |m.indices| ==> m.indices[i] < |m.vertices|
  }

  /** Corner `c` of primitive `p`. */
  function Corner(m: Mesh, p: nat, c: nat): Vec3
    requires ValidMesh(m) && p < m.primCount && c < 3
  {
    m.vertices[m.indices[3 * p + c]]
  }

  /** Triangles whose area is at most this are degenerate and get no leaf. */
  const AreaThreshold: real := 0.0001

  /** Area of a triangle, as the host library computes it. */
  type AreaFn = (Vec3, Vec3, Vec3) -> real

  function PrimArea(m: Mesh, area: AreaFn, p: nat): real
    requires ValidMesh(m) && p < m.primCount
  {
    area(Corner(m, p, 0), Corner(m, p, 1), Corner(m, p, 2))
  }

  predicate Kept(m: Mesh, area: AreaFn, p: nat)
    requires ValidMesh(m) && p < m.primCount
  {
    PrimArea(m, area, p) > AreaThreshold
  }

  /** Bounds of a triangle: the component-wise min and max of its corners. */
  function TriangleBox(v0: Vec3, v1: Vec3, v2: Vec3): (box: Box3)
    ensures LessEq(box.lo, v0) && LessEq(box.lo, v1) && LessEq(box.lo, v2)
    ensures LessEq(v0, box.hi) && LessEq(v1, box.hi) && LessEq(v2, box.hi)
  {
    Box3(MinVec(MinVec(v0, v1), v2), MaxVec(MaxVec(v0, v1), v2))
  }

  /** The leaf made for primitive p. */
  function LeafFor(m: Mesh, area: AreaFn, p: nat): TempNode
    requires ValidMesh(m) && p < m.primCount
  {
    var box := TriangleBox(Corner(m, p, 0), Corner(m, p, 1), Corner(m, p, 2));
    TempNode(box.lo, p, box.hi, InvalidMask, InvalidMask, InvalidMask,
      InvalidMask, InvalidMask, Center(box), PrimArea(m, area, p))
  }

  /** The leaves made for primitives 0..k-1, in primitive order. */
  function Survivors(m: Mesh, area: AreaFn, k: nat): seq<TempNode>
    requires ValidMesh(m) && k <= m.primCount
  {
    if k == 0 then []
    else Survivors(m, area, k - 1) + (if Kept(m, area, k - 1) then [LeafFor(m, area, k - 1)] else [])
  }

  /**
   * Every leaf is the leaf of a kept primitive below k, with no children,
   * no parent and bounds holding the triangle's corners; primitive ids
   * increase strictly, so no primitive has two leaves.
   */
  lemma {:induction false} SurvivorsSound(m: Mesh, area: AreaFn, k: nat)
    requires ValidMesh(m) && k <= m.primCount
    ensures |Survivors(m, area, k)| <= k
    ensures forall j :: 0 <= j < |Survivors(m, area, k)| ==>
      var n := Survivors(m, area, k)[j];
      n.prim < k && Kept(m, area, n.prim) && n == LeafFor(m, area, n.prim)
      && LeafShaped(n) && n.parent == InvalidMask
    ensures forall i, j :: 0 <= i < j < |Survivors(m, area, k)| ==>
      Survivors(m, area, k)[i].prim < Survivors(m, area, k)[j].prim
  {
    if k > 0 {
      SurvivorsSound(m, area, k - 1);
      var s := Survivors(m, area, k - 1);
      var r := Survivors(m, area, k);
      forall j | 0 <= j < |r|
        ensures r[j].prim < k && Kept(m, area, r[j].prim) && r[j] == LeafFor(m, area, r[j].prim)
        ensures LeafShaped(r[j]) && r[j].parent == InvalidMask
      {
        if j < |s| {
          assert r[j] == s[j];
        } else {
          assert r[j] == LeafFor(m, area, k - 1);
        }
      }
      forall i, j | 0 <= i < j < |r| ensures r[i].prim < r[j].prim {
        if j < |s| {
          assert r[i] == s[i] && r[j] == s[j];
        } else {
          assert r[i] == s[i] && r[j] == LeafFor(m, area, k - 1);
        }
      }
    }
  }

  /** Every kept primitive below k has a leaf. */
  lemma {:induction false} SurvivorsComplete(m: Mesh, area: AreaFn, k: nat, p: nat)
    requires ValidMesh(m) && p < k <= m.primCount && Kept(m, area, p)
    ensures exists j :: 0 <= j < |Survivors(m, area, k)| && Survivors(m, area, k)[j].prim == p
  {
    var s := Survivors(m, area, k - 1);
    if p == k - 1 {
      assert Survivors(m, area, k)[|s|].prim == p;
    } else {
      SurvivorsComplete(m, area, k - 1, p);
      var j :| 0 <= j < |s| && s[j].prim == p;
      assert Survivors(m, area, k)[j] == s[j];
    }
  }

  /** The leaf-creation loop: one leaf per non-degenerate triangle, in order. */
  method CreateLeaves(m: Mesh, area: AreaFn) returns (leaves: seq<TempNode>)
    requires ValidMesh(m)
    ensures leaves == Survivors(m, area, m.primCount)
  {
    leaves := [];
    var primId := 0;
    while primId < m.primCount
      invariant primId <= m.primCount
      invariant leaves == Survivors(m, area, primId)
    {
      var v0 := Corner(m, primId, 0);
      var v1 := Corner(m, primId, 1);
      var v2 := Corner(m, primId, 2);
      var box := TriangleBox(v0, v1, v2);
      var primArea := area(v0, v1, v2);
      if primArea > AreaThreshold {
        var node := TempNode(box.lo, primId, box.hi, InvalidMask, InvalidMask, InvalidMask,
          InvalidMask, InvalidMask, Center(box), primArea);
        leaves := leaves + [node];
      }
      primId := primId + 1;
    }
  }

  /** A leaf not yet linked into any tree. */
  predicate FreeLeaf(n: TempNode)
  {
    LeafShaped(n) && n.parent == InvalidMask
  }

  predicate AllFreeLeaves(s: seq<TempNode>)
  {
    forall j :: 0 <= j < |s| ==> FreeLeaf(s[j])
  }

  lemma FreeLeavesPermutation(s: seq<TempNode>, t: seq<TempNode>)
    requires AllFreeLeaves(s) && multiset(s) == multiset(t)
    ensures AllFreeLeaves(t)
  {
    forall j | 0 <= j < |t| ensures FreeLeaf(t[j]) {
      assert t[j] in multiset(s);
    }
  }

  /** The run with every parent link erased. */
  function Unlinked(s: seq<TempNode>): (r: seq<TempNode>)
    ensures |r| == |s|
    ensures forall k :: 0 <= k < |s| ==> r[k] == s[k].(parent := InvalidMask)
  {
    seq(|s|, k requires 0 <= k < |s| => s[k].(parent := InvalidMask))
  }

  lemma UnlinkedConcat(a: seq<TempNode>, b: seq<TempNode>)
    ensures Unlinked(a + b) == Unlinked(a) + Unlinked(b)
  {
  }

  lemma UnlinkedFree(s: seq<TempNode>)
    requires AllFreeLeaves(s)
    ensures Unlinked(s) == s
  {
  }

  /** The arena with the parent link of slot i set to p; no skeleton changes. */
  function WithParent(nodes: seq<TempNode>, i: nat, p: nat): (r: seq<TempNode>)
    requires i < |nodes|
    ensures |r| == |nodes| && r[i] == nodes[i].(parent := p)
    ensures forall j :: 0 <= j < |nodes| ==> Skeleton(r[j]) == Skeleton(nodes[j])
    ensures forall j :: 0 <= j < |nodes| && j != i ==> r[j] == nodes[j]
  {
    nodes[i := nodes[i].(parent := p)]
  }

  /**
   * Writing an internal node over two disjoint well-formed subtrees, and
   * making it their parent, gives a well-formed tree; if the first child
   * has the larger surface area, LargerFirst holds at the new root too.
   */
  lemma Linked(nodes: seq<TempNode>, nodes': seq<TempNode>, nodeId: nat, l: Tree, r: Tree)
    requires nodeId < |nodes| == |nodes'|
    requires WF(nodes, l) && WF(nodes, r) && LargerFirst(nodes, l) && LargerFirst(nodes, r)
    requires Ids(l) !! Ids(r) && nodeId !in Ids(l) && nodeId !in Ids(r)
    requires (l.Node? ==> nodeId < l.id) && (r.Node? ==> nodeId < r.id)
    requires forall j :: 0 <= j < |nodes| && j != nodeId ==> Skeleton(nodes'[j]) == Skeleton(nodes[j])
    requires forall j :: 0 <= j < |nodes| && j != nodeId && j != l.id && j != r.id ==> nodes'[j] == nodes[j]
    requires nodes'[l.id].parent == nodeId && nodes'[r.id].parent == nodeId
    requires nodes'[nodeId].prim == InvalidMask && nodes'[nodeId].left == l.id && nodes'[nodeId].right == r.id
    requires BoxOf(nodes'[nodeId]) == Union(BoxOf(nodes[l.id]), BoxOf(nodes[r.id]))
    requires SurfaceArea(BoxOf(nodes[l.id])) >= SurfaceArea(BoxOf(nodes[r.id]))
    ensures WF(nodes', Node(nodeId, l, r)) && LargerFirst(nodes', Node(nodeId, l, r))
  {
    RootInIds(l);
    RootInIds(r);
    WFIdsInArena(nodes, l);
    WFIdsInArena(nodes, r);
    WFFrame(nodes, nodes', l);
    WFFrame(nodes, nodes', r);
    LargerFirstFrame(nodes, nodes', l);
    LargerFirstFrame(nodes, nodes', r);
    assert BoxOf(nodes'[l.id]) == BoxOf(Skeleton(nodes'[l.id])) == BoxOf(nodes[l.id]);
    assert BoxOf(nodes'[r.id]) == BoxOf(Skeleton(nodes'[r.id])) == BoxOf(nodes[r.id]);
  }

  /**
   * The tail of buildInternal: swap the two subtrees when the second has
   * the strictly larger surface area (on a tie the first half stays on the
   * left), write the internal node with the
   * range's bounds into its reserved slot and make it the children's parent.
   */
  method LinkNode(nodes: seq<TempNode>, nodeId: nat, left: nat, right: nat, bounds: Box3,
                  ghost tl: Tree, ghost tr: Tree)
    returns (nodes': seq<TempNode>, ghost t: Tree)
    requires nodeId < |nodes| && WF(nodes, tl) && WF(nodes, tr)
    requires tl.id == left && tr.id == right
    requires Ids(tl) !! Ids(tr) && nodeId !in Ids(tl) && nodeId !in Ids(tr)
    requires tl.Node? ==> nodeId < left
    requires tr.Node? ==> nodeId < right
    requires bounds == Union(BoxOf(nodes[left]), BoxOf(nodes[right]))
    requires LargerFirst(nodes, tl) && LargerFirst(nodes, tr)
    ensures |nodes'| == |nodes| && t.id == nodeId && WF(nodes', t) && LargerFirst(nodes', t)
    ensures t == if SurfaceArea(BoxOf(nodes[right])) > SurfaceArea(BoxOf(nodes[left])) then Node(nodeId, tr, tl) else Node(nodeId, tl, tr)
    ensures BoxOf(nodes'[nodeId]) == bounds && nodes'[nodeId].parent == InvalidMask
    ensures forall j :: 0 <= j < |nodes| && j != nodeId && j != left && j != right ==> nodes'[j] == nodes[j]
    ensures nodes'[left] == nodes[left].(parent := nodeId)
    ensures nodes'[right] == nodes[right].(parent := nodeId)
  {
    RootInIds(tl);
    RootInIds(tr);
    WFIdsInArena(nodes, tl);
    WFIdsInArena(nodes, tr);
    var surfaceAreaLeft := SurfaceArea(BoxOf(nodes[left]));
    var surfaceAreaRight := SurfaceArea(BoxOf(nodes[right]));
    var l, r := left, right;
    ghost var gl, gr := tl, tr;
    if surfaceAreaRight > surfaceAreaLeft {
      l, r := right, left;
      gl, gr := tr, tl;
      UnionCommutes(BoxOf(nodes[left]), BoxOf(nodes[right]));
    }
    var node := TempNode(bounds.lo, InvalidMask, bounds.hi, InvalidMask, InvalidMask, InvalidMask,
      l, r, Center(bounds), 0.0);
    nodes' := WithParent(nodes, l, nodeId);
    nodes' := WithParent(nodes', r, nodeId);
    nodes' := nodes'[nodeId := node];
    Linked(nodes, nodes', nodeId, gl, gr);
    t := Node(nodeId, gl, gr);
  }

  /** The second build leaves every slot of the first half's tree as it was, so that tree keeps its shape. */
  lemma LeftHalfKept(n3: seq<TempNode>, n4: seq<TempNode>, nodeId: nat, b: nat, mid: nat, e: nat, tl: Tree)
    requires b < mid < e <= nodeId < |n3| <= |n4|
    requires LeafIds(tl) == Span(b, mid)
    requires InternalIds(tl) == Span(nodeId + 1, |n3|)
    requires n4[0..mid] == n3[0..mid] && n4[e..|n3|] == n3[e..|n3|]
    requires WF(n3, tl) && LargerFirst(n3, tl)
    ensures WF(n4, tl) && LargerFirst(n4, tl)
    ensures tl.id < |n3| && n4[tl.id] == n3[tl.id]
  {
    RootInIds(tl);
    forall j | j in Ids(tl) ensures j < |n3| && j < |n4| && n4[j] == n3[j] {
      assert j in Span(b, mid) || j in Span(nodeId + 1, |n3|);
      if j < mid {
        assert n4[0..mid][j] == n3[0..mid][j];
      } else {
        assert n4[e..|n3|][j - e] == n3[e..|n3|][j - e];
      }
    }
    WFFrame(n3, n4, tl);
    LargerFirstFrame(n3, n4, tl);
  }

  /**
   * After both halves of a range are built, the two subtrees and the slot
   * reserved for their parent share no id.
   */
  lemma BuiltHalvesDisjoint(nodeId: nat, b: nat, mid: nat, e: nat, len3: nat, len4: nat, tl: Tree, tr: Tree)
    requires b < mid < e <= nodeId < len3 <= len4
    requires LeafIds(tl) == Span(b, mid)
    requires InternalIds(tl) == Span(nodeId + 1, len3)
    requires LeafIds(tr) == Span(mid, e)
    requires InternalIds(tr) == Span(len3, len4)
    ensures Ids(tl) !! Ids(tr) && nodeId !in Ids(tl) && nodeId !in Ids(tr)
    ensures tl.Node? ==> nodeId < tl.id
    ensures tr.Node? ==> nodeId < tr.id
  {
    RootInIds(tl);
    RootInIds(tr);
  }

  /** Linking writes only the new slot and the two children, so any range avoiding them is unchanged. */
  lemma LinkedFrame(n4: seq<TempNode>, n5: seq<TempNode>, nodeId: nat, left: nat, right: nat, lo: nat, hi: nat)
    requires |n5| == |n4| && lo <= hi <= |n4|
    requires forall j :: 0 <= j < |n4| && j != nodeId && j != left && j != right ==> n5[j] == n4[j]
    requires !(lo <= nodeId < hi) && !(lo <= left < hi) && !(lo <= right < hi)
    ensures n5[lo..hi] == n4[lo..hi]
  {
    assert forall k :: 0 <= k < hi - lo ==> n5[lo..hi][k] == n5[lo + k] && n4[lo..hi][k] == n4[lo + k];
  }

  /** Linking changes no node of a range avoiding the new slot except for parent links. */
  lemma LinkedUnlinked(n4: seq<TempNode>, n5: seq<TempNode>, nodeId: nat, left: nat, right: nat, lo: nat, hi: nat)
    requires |n5| == |n4| && lo <= hi <= |n4| && !(lo <= nodeId < hi)
    requires forall j :: 0 <= j < |n4| && j != nodeId && j != left && j != right ==> n5[j] == n4[j]
    requires left < |n4| && n5[left] == n4[left].(parent := nodeId)
    requires right < |n4| && n5[right] == n4[right].(parent := nodeId)
    ensures Unlinked(n5[lo..hi]) == Unlinked(n4[lo..hi])
  {
    var u5, u4 := Unlinked(n5[lo..hi]), Unlinked(n4[lo..hi]);
    forall k | 0 <= k < hi - lo ensures u5[k] == u4[k] {
      assert n5[lo..hi][k] == n5[lo + k] && n4[lo..hi][k] == n4[lo + k];
    }
  }

  /** The ids of a node joining two halves built over adjacent ranges. */
  lemma JoinedIds(t: Tree, tl: Tree, tr: Tree, nodeId: nat, b: nat, mid: nat, e: nat, len3: nat, len4: nat)
    requires t == Node(nodeId, tl, tr) || t == Node(nodeId, tr, tl)
    requires LeafIds(tl) == Span(b, mid)
    requires InternalIds(tl) == Span(nodeId + 1, len3)
    requires LeafIds(tr) == Span(mid, e)
    requires InternalIds(tr) == Span(len3, len4)
    requires b <= mid <= e && nodeId + 1 <= len3 <= len4
    ensures LeafIds(t) == Span(b, e)
    ensures InternalIds(t) == Span(nodeId, len4)
  {
  }

  /** Two runs that agree on a range agree on every range inside it. */
  lemma SubSlice(a: seq<TempNode>, c: seq<TempNode>, lo: nat, hi: nat, lo2: nat, hi2: nat)
    requires lo <= lo2 <= hi2 <= hi <= |a| && hi <= |c| && a[lo..hi] == c[lo..hi]
    ensures a[lo2..hi2] == c[lo2..hi2]
  {
    forall k | 0 <= k < hi2 - lo2 ensures a[lo2..hi2][k] == c[lo2..hi2][k] {
      assert a[lo..hi][lo2 - lo + k] == c[lo..hi][lo2 - lo + k];
    }
  }

  /** Every sub-run of a run of free leaves is one. */
  lemma FreeSubRun(a: seq<TempNode>, lo: nat, hi: nat, lo2: nat, hi2: nat)
    requires lo <= lo2 <= hi2 <= hi <= |a| && AllFreeLeaves(a[lo..hi])
    ensures AllFreeLeaves(a[lo2..hi2])
  {
    forall k | 0 <= k < hi2 - lo2 ensures FreeLeaf(a[lo2..hi2][k]) {
      assert a[lo2..hi2][k] == a[lo..hi][lo2 - lo + k];
    }
  }

  /**
   * The leaves of a joined range: the range is the first half followed by
   * the second, so erasing parent links from each half and putting them
   * together gives back the split range's multiset.
   */
  lemma JoinedLeaves(s: seq<TempNode>, b: nat, mid: nat, e: nat)
    requires b <= mid <= e <= |s|
    ensures multiset(Unlinked(s[b..e])) == multiset(Unlinked(s[b..mid])) + multiset(Unlinked(s[mid..e]))
  {
    assert s[b..e] == s[b..mid] + s[mid..e];
    UnlinkedConcat(s[b..mid], s[mid..e]);
  }

  /** The bounds of the joined range are the union of the bounds of its halves. */
  lemma JoinedBounds(nodes: seq<TempNode>, n1: seq<TempNode>, b: nat, mid: nat, e: nat)
    requires b < mid < e <= |nodes| == |n1|
    requires multiset(n1[b..e]) == multiset(nodes[b..e])
    ensures HullOf(nodes[b..e]) == Union(HullOf(n1[b..mid]), HullOf(n1[mid..e]))
    ensures multiset(n1[b..mid]) + multiset(n1[mid..e]) == multiset(nodes[b..e])
  {
    HullOfPermutation(nodes[b..e], n1[b..e]);
    assert n1[b..e] == n1[b..mid] + n1[mid..e];
    HullOfConcat(n1[b..mid], n1[mid..e]);
  }

  /**
   * Building both halves and linking them leaves the arena outside the
   * range, below the reserved slot, as it was.
   */
  lemma ChildrenFrame(n2: seq<TempNode>, n3: seq<TempNode>, n4: seq<TempNode>, n5: seq<TempNode>,
                      nodeId: nat, b: nat, mid: nat, e: nat, left: nat, right: nat)
    requires b < mid < e <= nodeId < |n2| <= |n3| <= |n4| == |n5|
    requires n3[0..b] == n2[0..b] && n3[mid..|n2|] == n2[mid..|n2|]
    requires n4[0..mid] == n3[0..mid] && n4[e..|n3|] == n3[e..|n3|]
    requires forall j :: 0 <= j < |n4| && j != nodeId && j != left && j != right ==> n5[j] == n4[j]
    requires b <= left && (mid <= left ==> nodeId < left)
    requires b <= right && (e <= right ==> nodeId < right)
    ensures n5[0..b] == n2[0..b] && n5[e..nodeId] == n2[e..nodeId]
  {
    LinkedFrame(n4, n5, nodeId, left, right, 0, b);
    LinkedFrame(n4, n5, nodeId, left, right, e, nodeId);
    SubSlice(n4, n3, 0, mid, 0, b);
    SubSlice(n4, n3, e, |n3|, e, nodeId);
    SubSlice(n3, n2, mid, |n2|, e, nodeId);
  }

  /**
   * The first steps of buildInternal for a range of two or more leaves:
   * its bounds, then the split. The halves are runs of free leaves that
   * together hold the range's leaves, and the bounds cover both.
   */
  method BoundAndSplit(nodes: seq<TempNode>, b: nat, e: nat) returns (n1: seq<TempNode>, mid: nat, bounds: Box3)
    requires b + 2 <= e <= |nodes| && AllFreeLeaves(nodes[b..e])
    ensures |n1| == |nodes| && b < mid < e
    ensures n1[0..b] == nodes[0..b] && n1[e..|nodes|] == nodes[e..|nodes|]
    ensures multiset(n1[b..mid]) + multiset(n1[mid..e]) == multiset(nodes[b..e])
    ensures AllFreeLeaves(n1[b..mid]) && AllFreeLeaves(n1[mid..e])
    ensures bounds == HullOf(nodes[b..e]) == Union(HullOf(n1[b..mid]), HullOf(n1[mid..e]))
  {
    bounds := CalculateBounds(nodes, b, e);
    ghost var axis;
    n1, mid, axis := Split(nodes, b, e, bounds);
    assert n1[e..|nodes|] == n1[e..];
    FreeLeavesPermutation(nodes[b..e], n1[b..e]);
    JoinedBounds(nodes, n1, b, mid, e);
    FreeSubRun(n1, b, e, b, mid);
    FreeSubRun(n1, b, e, mid, e);
  }

  /**
   * What buildInternal promises about the range b..e it built, taking the
   * arena from `before` to `after`: the slots outside the range and below
   * the old end are as they were; `t`, rooted at `id`, is a well-formed
   * tree whose leaves are exactly the range and whose internal nodes are
   * exactly the appended slots; the larger child comes first throughout;
   * the root's box bounds the range; and the range holds the same leaves
   * as before, up to their order and parent links.
   */
  ghost predicate Built(before: seq<TempNode>, after: seq<TempNode>, b: nat, e: nat, id: nat, t: Tree)
  {
    && b < e <= |before| && |after| == |before| + (e - b) - 1 && id < |after|
    && after[0..b] == before[0..b] && after[e..|before|] == before[e..|before|]
    && WF(after, t) && t.id == id && LargerFirst(after, t)
    && LeafIds(t) == Span(b, e) && InternalIds(t) == Span(|before|, |after|)
    && (e - b == 1 ==> id == b && after[b] == before[b])
    && (e - b > 1 ==> id == |before| && after[id].parent == InvalidMask)
    && BoxOf(after[id]) == HullOf(before[b..e])
    && multiset(Unlinked(after[b..e])) == multiset(before[b..e])
  }

  /**
   * Once both halves are built, the two subtrees are ready to be linked:
   * both are well formed in the final arena, they share no id, and the
   * split's bounds are the union of their roots' boxes.
   */
  lemma HalvesBuilt(n2: seq<TempNode>, n3: seq<TempNode>, n4: seq<TempNode>, nodeId: nat,
                    b: nat, mid: nat, e: nat, bounds: Box3, tl: Tree, tr: Tree)
    requires b < mid < e <= nodeId && |n2| == nodeId + 1
    requires Built(n2, n3, b, mid, tl.id, tl) && Built(n3, n4, mid, e, tr.id, tr)
    requires bounds == Union(HullOf(n2[b..mid]), HullOf(n2[mid..e]))
    ensures nodeId < |n4| && WF(n4, tl) && WF(n4, tr)
    ensures Ids(tl) !! Ids(tr) && nodeId !in Ids(tl) && nodeId !in Ids(tr)
    ensures tl.Node? ==> nodeId < tl.id
    ensures tr.Node? ==> nodeId < tr.id
    ensures bounds == Union(BoxOf(n4[tl.id]), BoxOf(n4[tr.id]))
    ensures LargerFirst(n4, tl) && LargerFirst(n4, tr)
  {
    SubSlice(n3, n2, mid, |n2|, mid, e);
    LeftHalfKept(n3, n4, nodeId, b, mid, e, tl);
    BuiltHalvesDisjoint(nodeId, b, mid, e, |n3|, |n4|, tl, tr);
  }

  /**
   * After the link, the new node roots a well-formed tree over the whole
   * range whose internal nodes are the reserved slot and everything
   * appended after it; the rest of the arena below the slot is untouched
   * and each half still holds its leaves.
   */
  lemma HalvesJoined(n2: seq<TempNode>, n3: seq<TempNode>, n4: seq<TempNode>, n5: seq<TempNode>, nodeId: nat,
                     b: nat, mid: nat, e: nat, tl: Tree, tr: Tree, t: Tree)
    requires b < mid < e <= nodeId && |n2| == nodeId + 1
    requires Built(n2, n3, b, mid, tl.id, tl) && Built(n3, n4, mid, e, tr.id, tr)
    requires |n5| == |n4| && (t == Node(nodeId, tl, tr) || t == Node(nodeId, tr, tl))
    requires forall j :: 0 <= j < |n4| && j != nodeId && j != tl.id && j != tr.id ==> n5[j] == n4[j]
    requires n5[tl.id] == n4[tl.id].(parent := nodeId)
    requires n5[tr.id] == n4[tr.id].(parent := nodeId)
    ensures |n5| == |n2| + (e - b) - 2
    ensures n5[0..b] == n2[0..b] && n5[e..nodeId] == n2[e..nodeId]
    ensures LeafIds(t) == Span(b, e)
    ensures InternalIds(t) == Span(nodeId, |n5|)
    ensures multiset(Unlinked(n5[b..mid])) == multiset(n2[b..mid])
    ensures multiset(Unlinked(n5[mid..e])) == multiset(n2[mid..e])
  {
    RootInIds(tl);
    RootInIds(tr);
    JoinedIds(t, tl, tr, nodeId, b, mid, e, |n3|, |n4|);
    SubSlice(n3, n2, mid, |n2|, mid, e);
    ChildrenFrame(n2, n3, n4, n5, nodeId, b, mid, e, tl.id, tr.id);
    LinkedUnlinked(n4, n5, nodeId, tl.id, tr.id, b, mid);
    LinkedUnlinked(n4, n5, nodeId, tl.id, tr.id, mid, e);
    SubSlice(n4, n3, 0, mid, b, mid);
  }

  /**
   * buildInternal: builds the subtree over nodes[b..e], appending one
   * internal node per split, and returns its root id. A single node is its
   * own root; a larger range gets a fresh slot at the end of the arena
   * before its two halves are built.
   */
  method BuildInternal(nodes: seq<TempNode>, b: nat, e: nat) returns (nodes': seq<TempNode>, id: nat, ghost t: Tree)
    requires b < e <= |nodes| && |nodes| + (e - b) <= InvalidMask
    requires AllFreeLeaves(nodes[b..e])
    ensures |nodes'| == |nodes| + (e - b) - 1 && id < |nodes'|
    ensures Built(nodes, nodes', b, e, id, t)
    decreases e - b, 1
  {
    if e - b == 1 {
      UnlinkedFree(nodes[b..e]);
      assert LeafIds(Leaf(b)) == Span(b, e);
      assert InternalIds(Leaf(b)) == Span(|nodes|, |nodes|);
      return nodes, b, Leaf(b);
    }
    var n1, mid, bounds := BoundAndSplit(nodes, b, e);
    var nodeId := |n1|;
    var n2 := n1 + [DefaultTempNode()];
    assert n2[0..|n1|] == n1[0..|n1|];
    SubSlice(n2, n1, 0, |n1|, b, mid);
    SubSlice(n2, n1, 0, |n1|, mid, e);
    nodes', t := BuildChildren(n2, nodeId, b, mid, e, bounds);
    id := nodeId;
    JoinedLeaves(nodes', b, mid, e);
    SubSlice(n2, n1, 0, |n1|, 0, b);
    SubSlice(n2, n1, 0, |n1|, e, |nodes|);
  }

  /**
   * The rest of buildInternal once the range is split and the slot for its
   * node reserved at the end of the arena: build both halves, then link
   * them under the new node.
   */
  method BuildChildren(n2: seq<TempNode>, nodeId: nat, b: nat, mid: nat, e: nat, bounds: Box3)
    returns (nodes': seq<TempNode>, ghost t: Tree)
    requires b < mid < e <= nodeId && |n2| == nodeId + 1 && nodeId + (e - b) <= InvalidMask
    requires AllFreeLeaves(n2[b..mid]) && AllFreeLeaves(n2[mid..e])
    requires bounds == Union(HullOf(n2[b..mid]), HullOf(n2[mid..e]))
    ensures |nodes'| == |n2| + (e - b) - 2
    ensures nodes'[0..b] == n2[0..b] && nodes'[e..nodeId] == n2[e..nodeId]
    ensures WF(nodes', t) && t.id == nodeId && LargerFirst(nodes', t)
    ensures LeafIds(t) == Span(b, e)
    ensures InternalIds(t) == Span(nodeId, |nodes'|)
    ensures nodes'[nodeId].parent == InvalidMask && BoxOf(nodes'[nodeId]) == bounds
    ensures multiset(Unlinked(nodes'[b..mid])) == multiset(n2[b..mid])
    ensures multiset(Unlinked(nodes'[mid..e])) == multiset(n2[mid..e])
    decreases e - b, 0
  {
    var n3, left, tl := BuildInternal(n2, b, mid);
    SubSlice(n3, n2, mid, |n2|, mid, e);
    var n4, right, tr := BuildInternal(n3, mid, e);
    HalvesBuilt(n2, n3, n4, nodeId, b, mid, e, bounds, tl, tr);
    nodes', t := LinkNode(n4, nodeId, left, right, bounds, tl, tr);
    HalvesJoined(n2, n3, n4, nodes', nodeId, b, mid, e, tl, tr, t);
  }
}
