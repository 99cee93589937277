/** Boxes, surface area and the builder's scratch node (Source/BVHBuilder.cpp:8-76). */
module BVHGeometry {
  import opened BVHNodes

  datatype Box3 = Box3(lo: Vec3, hi: Vec3)

  /** Smallest box holding both boxes (component-wise min of mins, max of maxes). */
  function Union(a: Box3, b: Box3): Box3
  {
    Box3(MinVec(a.lo, b.lo), MaxVec(a.hi, b.hi))
  }

  function PointBox(p: Vec3): Box3
  {
    Box3(p, p)
  }

  const ZeroBox: Box3 := Box3(Zero, Zero)

  predicate LessEq(a: Vec3, b: Vec3)
  {
    a.x <= b.x && a.y <= b.y && a.z <= b.z
  }

  predicate Inside(inner: Box3, outer: Box3)
  {
    LessEq(outer.lo, inner.lo) && LessEq(inner.hi, outer.hi)
  }

  /** Sum over the axes `a >= axis` of extent[a] times extent[(a + 1) % 3]. */
  function ExtentProducts(d: Vec3, axis: nat): real
    decreases 3 - axis
  {
    if axis >= 3 then 0.0 else Coord(d, axis) * Coord(d, (axis + 1) % 3) + ExtentProducts(d, axis + 1)
  }

  /** Surface area of a box: twice the sum of the pairwise products of its extents. */
  function SurfaceArea(b: Box3): real
  {
    ExtentProducts(Sub(b.hi, b.lo), 0) * 2.0
  }

  lemma SurfaceAreaFormula(b: Box3)
    ensures var d := Sub(b.hi, b.lo);
      SurfaceArea(b) == (d.x * d.y + d.y * d.z + d.z * d.x) * 2.0
  {
    var d := Sub(b.hi, b.lo);
    assert ExtentProducts(d, 2) == d.z * d.x;
    assert ExtentProducts(d, 1) == d.y * d.z + d.z * d.x;
  }

  function Center(b: Box3): Vec3
  {
    Vec3((b.lo.x + b.hi.x) * 0.5, (b.lo.y + b.hi.y) * 0.5, (b.lo.z + b.hi.z) * 0.5)
  }

  /**
   * The builder's scratch node. Leaves occupy the first slots of the arena,
   * internal nodes are appended after them. `left`, `right`, `parent` and
   * `next` are arena indices or InvalidMask.
   */
  datatype TempNode = TempNode(
    bboxMin: Vec3, prim: nat, bboxMax: Vec3, next: nat,
    visitOrder: nat, parent: nat, left: nat, right: nat,
    bboxCenter: Vec3, primArea: real)

  /** A value-initialised scratch node. */
  function DefaultTempNode(): (n: TempNode)
    ensures n.prim == InvalidMask && n.parent == InvalidMask && n.visitOrder == InvalidMask
  {
    TempNode(Zero, InvalidMask, Zero, InvalidMask, InvalidMask, InvalidMask, 0, 0, Zero, 0.0)
  }

  function BoxOf(n: TempNode): Box3
  {
    Box3(n.bboxMin, n.bboxMax)
  }

  /** Bounds of a non-empty run of nodes. */
  function HullOf(s: seq<TempNode>): Box3
    requires |s| > 0
  {
    if |s| == 1 then BoxOf(s[0]) else Union(BoxOf(s[0]), HullOf(s[1..]))
  }

  /**
   * `h` is the bounding box of the nodes of `s`: it holds each of them and
   * each of its six faces touches one of them. This depends only on which
   * nodes occur in `s`, not on their order.
   */
  ghost predicate IsHull(h: Box3, s: seq<TempNode>)
  {
    Encloses(h, s) && Touches(h, s)
  }

  /** `h` holds the box of each node of `s`. */
  ghost predicate Encloses(h: Box3, s: seq<TempNode>)
  {
    forall n :: n in s ==> Inside(BoxOf(n), h)
  }

  /** Each of the six faces of `h` touches the box of some node of `s`. */
  ghost predicate Touches(h: Box3, s: seq<TempNode>)
  {
    && (exists n :: n in s && n.bboxMin.x == h.lo.x)
    && (exists n :: n in s && n.bboxMin.y == h.lo.y)
    && (exists n :: n in s && n.bboxMin.z == h.lo.z)
    && (exists n :: n in s && n.bboxMax.x == h.hi.x)
    && (exists n :: n in s && n.bboxMax.y == h.hi.y)
    && (exists n :: n in s && n.bboxMax.z == h.hi.z)
  }

  lemma UnionCommutes(a: Box3, b: Box3)
    ensures Union(a, b) == Union(b, a)
  {
  }

  lemma UnionAssociates(a: Box3, b: Box3, c: Box3)
    ensures Union(a, Union(b, c)) == Union(Union(a, b), c)
  {
  }

  /** HullOf is the bounding box of its nodes. */
  lemma HullIsHull(s: seq<TempNode>)
    requires |s| > 0
    ensures IsHull(HullOf(s), s)
  {
    HullEncloses(s);
    HullTouches(s);
  }

  /** The first node of a run, and the nodes of its tail, are exactly its nodes. */
  lemma HeadAndTail(s: seq<TempNode>)
    requires |s| > 1
    ensures s[0] in s
    ensures forall n :: n in s[1..] ==> n in s
    ensures forall n :: n in s ==> n == s[0] || n in s[1..]
  {
    forall n | n in s ensures n == s[0] || n in s[1..] {
      var k :| 0 <= k < |s| && s[k] == n;
      if k > 0 { assert s[1..][k - 1] == n; }
    }
  }

  lemma {:induction false} HullEncloses(s: seq<TempNode>)
    requires |s| > 0
    ensures Encloses(HullOf(s), s)
  {
    if |s| == 1 {
      forall n | n in s ensures n == s[0] { }
    } else {
      HullEncloses(s[1..]);
      HeadAndTail(s);
    }
  }

  lemma {:induction false} HullTouches(s: seq<TempNode>)
    requires |s| > 0
    ensures Touches(HullOf(s), s)
  {
    assert s[0] in s;
    if |s| > 1 {
      HullTouches(s[1..]);
      HeadAndTail(s);
    }
  }

  /** At most one box is the bounding box of a given run of nodes. */
  lemma HullUnique(h1: Box3, h2: Box3, s: seq<TempNode>)
    requires IsHull(h1, s) && IsHull(h2, s)
    ensures h1 == h2
  {
  }

  /** Rearranging the nodes does not change their bounds. */
  lemma HullOfPermutation(s: seq<TempNode>, t: seq<TempNode>)
    requires |s| > 0 && multiset(s) == multiset(t)
    ensures |t| > 0 && HullOf(s) == HullOf(t)
  {
    assert |t| == |multiset(t)| == |multiset(s)| == |s|;
    HullIsHull(s);
    HullIsHull(t);
    forall n ensures n in s <==> n in t {
      assert n in s <==> n in multiset(s);
      assert n in t <==> n in multiset(t);
    }
    HullUnique(HullOf(s), HullOf(t), s);
  }

  /** Bounds of two adjacent runs combine by Union. */
  lemma {:induction false} HullOfConcat(a: seq<TempNode>, b: seq<TempNode>)
    requires |a| > 0 && |b| > 0
    ensures HullOf(a + b) == Union(HullOf(a), HullOf(b))
  {
    assert (a + b)[0] == a[0];
    if |a| == 1 {
      assert (a + b)[1..] == b;
    } else {
      assert (a + b)[1..] == a[1..] + b;
      HullOfConcat(a[1..], b);
      UnionAssociates(BoxOf(a[0]), HullOf(a[1..]), HullOf(b));
    }
  }

  /** Growing a run by one node at the end grows its bounds by that node's box. */
  lemma HullOfSnoc(s: seq<TempNode>, n: TempNode)
    requires |s| > 0
    ensures HullOf(s + [n]) == Union(HullOf(s), BoxOf(n))
  {
    HullOfConcat(s, [n]);
  }

  /** Bounds of the first i+1 nodes grow from those of the first i by node i. */
  lemma HullOfPrefixStep(r: seq<TempNode>, i: nat)
    requires i < |r|
    ensures i == 0 ==> HullOf(r[..i + 1]) == BoxOf(r[i])
    ensures i > 0 ==> HullOf(r[..i + 1]) == Union(HullOf(r[..i]), BoxOf(r[i]))
  {
    if i > 0 {
      assert r[..i + 1] == r[..i] + [r[i]];
      HullOfSnoc(r[..i], r[i]);
    }
  }

  /** Bounds of the nodes from i on grow from those from i+1 on by node i. */
  lemma HullOfSuffixStep(r: seq<TempNode>, i: nat)
    requires i < |r|
    ensures i == |r| - 1 ==> HullOf(r[i..]) == BoxOf(r[i])
    ensures i < |r| - 1 ==> HullOf(r[i..]) == Union(HullOf(r[i + 1..]), BoxOf(r[i]))
  {
    if i < |r| - 1 {
      assert r[i..][1..] == r[i + 1..];
      UnionCommutes(HullOf(r[i + 1..]), BoxOf(r[i]));
    }
  }
}
