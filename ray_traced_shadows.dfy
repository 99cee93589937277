/**
 * The integer and string helpers of the demo application
 * (Source/RayTracedShadows.cpp): the render-mode names, the directory of a
 * path, the FNV-1a 64-bit hash, the grouping of a shape's triangles into
 * per-material index segments, and the mip chain of a loaded texture.
 */
module RayTracedShadows {
  import opened Wrappers
  import opened BVHNodes

  // ----- toString(ShadowRenderMode) -----

  /** The two shadow techniques, and any other value the enum could hold. */
  datatype ShadowRenderMode = Compute | NVX | Other(code: nat)

  /** toString: the technique's name, "unknown" for anything else. */
  function ModeName(mode: ShadowRenderMode): (r: string)
    ensures r == "Compute" <==> mode == Compute
    ensures r == "NVX" <==> mode == NVX
    ensures r == "unknown" <==> mode.Other?
  {
    match mode
    case Compute => "Compute"
    case NVX => "NVX"
    case Other(_) => "unknown"
  }

  // ----- directoryFromFilename -----

  predicate IsSeparator(c: char)
  {
    c == '/' || c == '\\'
  }

  /** find_last_of("/\\"): the position of the last path separator, if any. */
  function FindLastSeparator(s: string): (r: Option<nat>)
    ensures r.Some? ==> r.value < |s| && IsSeparator(s[r.value])
    ensures r.Some? ==> forall i :: r.value < i < |s| ==> !IsSeparator(s[i])
    ensures r.None? ==> forall i :: 0 <= i < |s| ==> !IsSeparator(s[i])
  {
    if |s| == 0 then None
    else if IsSeparator(s[|s| - 1]) then Some(|s| - 1)
    else FindLastSeparator(s[..|s| - 1])
  }

  /**
   * directoryFromFilename: the path up to and including its last
   * separator, or the empty string when it has none. The result is a
   * prefix of the path that is empty or ends in a separator, and no
   * separator follows it in the path.
   */
  function DirectoryFromFilename(filename: string): (dir: string)
    ensures dir <= filename
    ensures dir == "" || IsSeparator(dir[|dir| - 1])
    ensures forall i :: |dir| <= i < |filename| ==> !IsSeparator(filename[i])
  {
    match FindLastSeparator(filename)
    case Some(pos) => filename[..pos + 1]
    case None => ""
  }

  /** Those three facts single the directory out: no other prefix has them. */
  lemma DirectoryUnique(filename: string, dir: string)
    requires dir <= filename
    requires dir == "" || IsSeparator(dir[|dir| - 1])
    requires forall i :: |dir| <= i < |filename| ==> !IsSeparator(filename[i])
    ensures dir == DirectoryFromFilename(filename)
  {
  }

  /** Taking the directory of a directory changes nothing. */
  lemma DirectoryIdempotent(filename: string)
    ensures DirectoryFromFilename(DirectoryFromFilename(filename)) == DirectoryFromFilename(filename)
  {
    var dir := DirectoryFromFilename(filename);
    DirectoryUnique(dir, dir);
  }

  // ----- hashFnv1a64 -----

  /** The 64-bit FNV offset basis, the default seed. */
  const FnvOffsetBasis: bv64 := 0xcbf2_9ce4_8422_2325
  /** The 64-bit FNV prime. */
  const FnvPrime: bv64 := 0x0000_0100_0000_01b3

  /** One FNV-1a round (`state ^= byte; state *= prime`), modulo 2^64. */
  function FnvStep(state: bv64, b: bv8): bv64
  {
    (state ^ (b as bv64)) * FnvPrime
  }

  /** FNV-1a of `bytes` from `state`, one round per byte, first byte first. */
  function Fnv1a(state: bv64, bytes: seq<bv8>): bv64
  {
    if |bytes| == 0 then state else FnvStep(Fnv1a(state, bytes[..|bytes| - 1]), bytes[|bytes| - 1])
  }

  /** hashFnv1a64: the message is `length` bytes, here a byte sequence. */
  method HashFnv1a64(message: seq<bv8>, state: bv64 := FnvOffsetBasis) returns (h: bv64)
    ensures h == Fnv1a(state, message)
    ensures |message| == 0 ==> h == state
  {
    h := state;
    var i := 0;
    while i < |message|
      invariant i <= |message|
      invariant h == Fnv1a(state, message[..i])
    {
      assert message[..i + 1][..i] == message[..i];
      h := FnvStep(h, message[i]);
      i := i + 1;
    }
    assert message[..i] == message;
  }

  /** Hashing a concatenation is hashing the second part seeded with the hash of the first. */
  lemma {:induction false} Fnv1aConcat(state: bv64, a: seq<bv8>, b: seq<bv8>)
    ensures Fnv1a(state, a + b) == Fnv1a(Fnv1a(state, a), b)
    decreases |b|
  {
    if |b| == 0 {
      assert a + b == a;
    } else {
      var b' := b[..|b| - 1];
      assert (a + b)[..|a + b| - 1] == a + b';
      Fnv1aConcat(state, a, b');
    }
  }

  /** The published 64-bit FNV-1a values of "a" and "foobar". */
  lemma FnvReferenceValues()
    ensures Fnv1a(FnvOffsetBasis, [0x61]) == 0xaf63_dc4c_8601_ec8c
    ensures Fnv1a(FnvOffsetBasis, [0x66, 0x6f, 0x6f, 0x62, 0x61, 0x72]) == 0x8594_4171_f739_67e8
  {
    var s: seq<bv8> := [0x66, 0x6f, 0x6f, 0x62, 0x61, 0x72];
    var h := FnvOffsetBasis;
    assert s[..0] == [];
    h := FnvStep(h, s[0]);
    assert h == 0xaf63_db4c_8601_ead9;
    assert s[..1][..0] == s[..0];
    assert Fnv1a(FnvOffsetBasis, s[..1]) == h;
    h := FnvStep(h, s[1]);
    assert s[..2][..1] == s[..1];
    assert Fnv1a(FnvOffsetBasis, s[..2]) == h;
    h := FnvStep(h, s[2]);
    assert s[..3][..2] == s[..2];
    assert Fnv1a(FnvOffsetBasis, s[..3]) == h;
    h := FnvStep(h, s[3]);
    assert s[..4][..3] == s[..3];
    assert Fnv1a(FnvOffsetBasis, s[..4]) == h;
    h := FnvStep(h, s[4]);
    assert s[..5][..4] == s[..4];
    assert Fnv1a(FnvOffsetBasis, s[..5]) == h;
    h := FnvStep(h, s[5]);
    assert s[..6][..5] == s[..5];
    assert Fnv1a(FnvOffsetBasis, s[..6]) == h;
    assert s[..6] == s;
    assert h == 0x8594_4171_f739_67e8;
  }

  // ----- the segment loop of loadModel -----

  /** MeshSegment: a run of the index list drawn with one material. */
  datatype MeshSegment = MeshSegment(material: nat, indexOffset: nat, indexCount: nat)

  /** One shape of an OBJ file: three corner indices and one material id per triangle. */
  datatype ShapeMesh = ShapeMesh(indices: seq<nat>, materialIds: seq<nat>)

  function TriangleCount(mesh: ShapeMesh): nat
  {
    |mesh.indices| / 3
  }

  /** The loader reads one material id for each triangle. */
  predicate MaterialPerTriangle(mesh: ShapeMesh)
  {
    |mesh.materialIds| >= TriangleCount(mesh)
  }

  function End(seg: MeshSegment): nat
  {
    seg.indexOffset + seg.indexCount
  }

  function Last(segs: seq<MeshSegment>): MeshSegment
    requires |segs| > 0
  {
    segs[|segs| - 1]
  }

  /**
   * Triangle t of the shape as appended to the index list: corners 0, 2, 1
   * (the winding is flipped with the mirrored x axis), each offset by the
   * shape's first vertex in 32-bit arithmetic.
   */
  function TriangleIndices(mesh: ShapeMesh, firstVertex: nat, t: nat): seq<nat>
    requires t < TriangleCount(mesh)
  {
    [AddU32(mesh.indices[3 * t], firstVertex),
     AddU32(mesh.indices[3 * t + 2], firstVertex),
     AddU32(mesh.indices[3 * t + 1], firstVertex)]
  }

  /** The indices the first n triangles of the shape append. */
  function ShapeIndices(mesh: ShapeMesh, firstVertex: nat, n: nat): (r: seq<nat>)
    requires n <= TriangleCount(mesh)
    ensures |r| == 3 * n
  {
    if n == 0 then [] else ShapeIndices(mesh, firstVertex, n - 1) + TriangleIndices(mesh, firstVertex, n - 1)
  }

  /**
   * One triangle of material `mat` is added when the index list is `len`
   * long: a new segment of three indices starting at `len`, or three more
   * indices for the last segment.
   */
  function AddTriangle(segs: seq<MeshSegment>, len: nat, mat: nat, opens: bool): (r: seq<MeshSegment>)
    requires opens || |segs| > 0
  {
    if opens then segs + [MeshSegment(mat, len, 3)]
    else segs[..|segs| - 1] + [Last(segs).(indexCount := Last(segs).indexCount + 3)]
  }

  /** The material id the loop compares with before triangle t: `initial`, then the previous triangle's. */
  function CurrentBefore(mats: seq<nat>, initial: nat, t: nat): nat
    requires t <= |mats|
  {
    if t == 0 then initial else mats[t - 1]
  }

  /**
   * The segments after the first n triangles of a shape, starting from
   * `segs` with an index list `len` long and the tracked material id set
   * to `initial`: a segment opens when the list is empty or the
   * triangle's material differs from the tracked one.
   */
  function SegmentsAfter(segs: seq<MeshSegment>, len: nat, mats: seq<nat>, initial: nat, n: nat): (r: seq<MeshSegment>)
    requires n <= |mats|
    ensures n > 0 ==> |r| > 0
  {
    if n == 0 then segs
    else
      var before := SegmentsAfter(segs, len, mats, initial, n - 1);
      var mat := mats[n - 1];
      AddTriangle(before, len + 3 * (n - 1), mat, mat != CurrentBefore(mats, initial, n - 1) || |before| == 0)
  }

  /**
   * The loop over one shape's triangles with the tracked material id
   * starting at `initial`: appends each triangle's indices and opens or
   * extends a segment for it.
   */
  method GroupTriangles(segments: seq<MeshSegment>, indices: seq<nat>, mesh: ShapeMesh, firstVertex: nat, initial: nat)
    returns (segments': seq<MeshSegment>, indices': seq<nat>)
    requires MaterialPerTriangle(mesh)
    ensures indices' == indices + ShapeIndices(mesh, firstVertex, TriangleCount(mesh))
    ensures segments' == SegmentsAfter(segments, |indices|, mesh.materialIds, initial, TriangleCount(mesh))
  {
    segments', indices' := segments, indices;
    var currentMaterialId := initial;
    var triangleCount := |mesh.indices| / 3;
    var triangleIt := 0;
    while triangleIt < triangleCount
      invariant triangleIt <= triangleCount
      invariant indices' == indices + ShapeIndices(mesh, firstVertex, triangleIt)
      invariant segments' == SegmentsAfter(segments, |indices|, mesh.materialIds, initial, triangleIt)
      invariant currentMaterialId == CurrentBefore(mesh.materialIds, initial, triangleIt)
    {
      ghost var segs0, indices0 := segments', indices';
      assert |indices0| == |indices| + 3 * triangleIt;
      var mat := mesh.materialIds[triangleIt];
      ghost var opens := mat != currentMaterialId || |segments'| == 0;
      if mat != currentMaterialId || |segments'| == 0 {
        currentMaterialId := mat;
        segments' := segments' + [MeshSegment(currentMaterialId, |indices'|, 0)];
      }
      indices' := indices' + [AddU32(mesh.indices[triangleIt * 3 + 0], firstVertex)];
      indices' := indices' + [AddU32(mesh.indices[triangleIt * 3 + 2], firstVertex)];
      indices' := indices' + [AddU32(mesh.indices[triangleIt * 3 + 1], firstVertex)];
      assert indices' == indices0 + TriangleIndices(mesh, firstVertex, triangleIt);
      ShapeIndicesStep(indices, mesh, firstVertex, triangleIt);
      var last := segments'[|segments'| - 1];
      segments' := segments'[..|segments'| - 1] + [last.(indexCount := last.indexCount + 3)];
      OpenThenExtend(segs0, |indices0|, mat, opens);
      SegmentsAfterStep(segments, |indices|, mesh.materialIds, initial, triangleIt);
      triangleIt := triangleIt + 1;
    }
  }

  /**
   * The loop body's two segment updates, opening an empty segment when
   * asked and then adding three indices to the last one, add one triangle.
   */
  lemma OpenThenExtend(segs: seq<MeshSegment>, len: nat, mat: nat, opens: bool)
    requires opens || |segs| > 0
    ensures var s := if opens then segs + [MeshSegment(mat, len, 0)] else segs;
      |s| > 0 && s[..|s| - 1] + [Last(s).(indexCount := Last(s).indexCount + 3)] == AddTriangle(segs, len, mat, opens)
  {
  }

  /** One more triangle appends that triangle's indices. */
  lemma ShapeIndicesStep(indices: seq<nat>, mesh: ShapeMesh, firstVertex: nat, n: nat)
    requires n < TriangleCount(mesh)
    ensures indices + ShapeIndices(mesh, firstVertex, n + 1)
      == (indices + ShapeIndices(mesh, firstVertex, n)) + TriangleIndices(mesh, firstVertex, n)
  {
  }

  /** One more triangle adds one triangle to the segments after the earlier ones. */
  lemma SegmentsAfterStep(segs: seq<MeshSegment>, len: nat, mats: seq<nat>, initial: nat, n: nat)
    requires n < |mats|
    ensures var before := SegmentsAfter(segs, len, mats, initial, n);
      SegmentsAfter(segs, len, mats, initial, n + 1)
        == AddTriangle(before, len + 3 * n, mats[n], mats[n] != CurrentBefore(mats, initial, n) || |before| == 0)
  {
  }

  /** The loop as written: the tracked material id starts at 0xFFFFFFFF for every shape. */
  method AppendShape(segments: seq<MeshSegment>, indices: seq<nat>, mesh: ShapeMesh, firstVertex: nat)
    returns (segments': seq<MeshSegment>, indices': seq<nat>)
    requires MaterialPerTriangle(mesh)
    ensures indices' == indices + ShapeIndices(mesh, firstVertex, TriangleCount(mesh))
    ensures segments' == SegmentsAfter(segments, |indices|, mesh.materialIds, InvalidMask, TriangleCount(mesh))
  {
    segments', indices' := GroupTriangles(segments, indices, mesh, firstVertex, InvalidMask);
  }

  /** The tracked material id the corrected loop starts from: the last segment's material. */
  function CarriedMaterial(segs: seq<MeshSegment>): nat
  {
    if |segs| == 0 then InvalidMask else Last(segs).material
  }

  /** The corrected loop: the tracked material id starts at the last segment's material. */
  method AppendShapeCarried(segments: seq<MeshSegment>, indices: seq<nat>, mesh: ShapeMesh, firstVertex: nat)
    returns (segments': seq<MeshSegment>, indices': seq<nat>)
    requires MaterialPerTriangle(mesh)
    ensures indices' == indices + ShapeIndices(mesh, firstVertex, TriangleCount(mesh))
    ensures segments' == SegmentsAfter(segments, |indices|, mesh.materialIds, CarriedMaterial(segments), TriangleCount(mesh))
  {
    segments', indices' := GroupTriangles(segments, indices, mesh, firstVertex, CarriedMaterial(segments));
  }

  /** The number of the first triangle a segment draws. */
  function FirstTriangle(seg: MeshSegment): nat
  {
    seg.indexOffset / 3
  }

  /**
   * `segs` groups the triangles whose materials are `tris`, in order: the
   * last segment draws a non-empty run of whole triangles that ends the
   * index list and all have its material, and the segments before it group
   * the triangles before that run.
   */
  ghost predicate Grouped(segs: seq<MeshSegment>, tris: seq<nat>)
    decreases |segs|
  {
    if |segs| == 0 then |tris| == 0
    else
      var last := Last(segs);
      && last.indexOffset % 3 == 0 && FirstTriangle(last) < |tris| && End(last) == 3 * |tris|
      && (forall t :: FirstTriangle(last) <= t < |tris| ==> tris[t] == last.material)
      && Grouped(segs[..|segs| - 1], tris[..FirstTriangle(last)])
  }

  /**
   * Adding a triangle keeps the grouping when it opens a segment, or when
   * it extends a last segment of its own material.
   */
  lemma AddTriangleGrouped(segs: seq<MeshSegment>, tris: seq<nat>, mat: nat, opens: bool)
    requires Grouped(segs, tris)
    requires opens || (|segs| > 0 && Last(segs).material == mat)
    ensures Grouped(AddTriangle(segs, 3 * |tris|, mat, opens), tris + [mat])
  {
    if opens {
      OpenGrouped(segs, tris, mat);
    } else {
      ExtendGrouped(segs, tris, mat);
    }
  }

  lemma OpenGrouped(segs: seq<MeshSegment>, tris: seq<nat>, mat: nat)
    requires Grouped(segs, tris)
    ensures Grouped(segs + [MeshSegment(mat, 3 * |tris|, 3)], tris + [mat])
  {
    var r := segs + [MeshSegment(mat, 3 * |tris|, 3)];
    var tris' := tris + [mat];
    assert FirstTriangle(Last(r)) == |tris|;
    assert r[..|segs|] == segs;
    assert tris'[..|tris|] == tris;
  }

  lemma ExtendGrouped(segs: seq<MeshSegment>, tris: seq<nat>, mat: nat)
    requires Grouped(segs, tris) && |segs| > 0 && Last(segs).material == mat
    ensures Grouped(segs[..|segs| - 1] + [Last(segs).(indexCount := Last(segs).indexCount + 3)], tris + [mat])
  {
    var last := Last(segs);
    var r := segs[..|segs| - 1] + [last.(indexCount := last.indexCount + 3)];
    var tris' := tris + [mat];
    var k := FirstTriangle(last);
    assert r[..|segs| - 1] == segs[..|segs| - 1];
    assert tris'[..k] == tris[..k];
  }

  /**
   * The grouping survives the triangles of a shape provided the first of
   * them does not join a last segment of another material, that is, unless
   * its material is the initial tracked id while the last segment has a
   * different material.
   */
  lemma {:induction false} SegmentsGrouped(segs: seq<MeshSegment>, tris: seq<nat>, mats: seq<nat>, initial: nat, n: nat)
    requires Grouped(segs, tris) && n <= |mats|
    requires |segs| == 0 || n == 0 || mats[0] != initial || Last(segs).material == initial
    ensures Grouped(SegmentsAfter(segs, 3 * |tris|, mats, initial, n), tris + mats[..n])
  {
    if n == 0 {
      assert tris + mats[..0] == tris;
    } else {
      SegmentsGrouped(segs, tris, mats, initial, n - 1);
      SegmentStepGrouped(segs, tris, mats, initial, n);
    }
  }

  /** The step of SegmentsGrouped: triangle n-1 keeps the grouping of the triangles before it. */
  lemma SegmentStepGrouped(segs: seq<MeshSegment>, tris: seq<nat>, mats: seq<nat>, initial: nat, n: nat)
    requires 1 <= n <= |mats|
    requires |segs| == 0 || mats[0] != initial || Last(segs).material == initial
    requires Grouped(SegmentsAfter(segs, 3 * |tris|, mats, initial, n - 1), tris + mats[..n - 1])
    ensures Grouped(SegmentsAfter(segs, 3 * |tris|, mats, initial, n), tris + mats[..n])
  {
    var before := SegmentsAfter(segs, 3 * |tris|, mats, initial, n - 1);
    var mat := mats[n - 1];
    var opens := mat != CurrentBefore(mats, initial, n - 1) || |before| == 0;
    StepJoinsOwnMaterial(segs, 3 * |tris|, mats, initial, n);
    var done := tris + mats[..n - 1];
    assert |done| == |tris| + (n - 1);
    var after := SegmentsAfter(segs, 3 * |tris|, mats, initial, n);
    assert after == AddTriangle(before, 3 * |done|, mat, opens);
    AddTriangleGrouped(before, done, mat, opens);
    assert done + [mat] == tris + mats[..n];
  }

  /** A triangle that opens no segment joins one of its own material. */
  lemma StepJoinsOwnMaterial(segs: seq<MeshSegment>, len: nat, mats: seq<nat>, initial: nat, n: nat)
    requires 1 <= n <= |mats|
    requires |segs| == 0 || mats[0] != initial || Last(segs).material == initial
    ensures var before := SegmentsAfter(segs, len, mats, initial, n - 1);
      (mats[n - 1] != CurrentBefore(mats, initial, n - 1) || |before| == 0) || Last(before).material == mats[n - 1]
  {
    if n > 1 {
      LastMaterial(segs, len, mats, initial, n - 1);
    }
  }

  /**
   * After k >= 1 triangles the last segment has the tracked material id,
   * unless the first triangle joined a segment of another material.
   */
  lemma {:induction false} LastMaterial(segs: seq<MeshSegment>, len: nat, mats: seq<nat>, initial: nat, k: nat)
    requires 1 <= k <= |mats|
    requires |segs| == 0 || mats[0] != initial || Last(segs).material == initial
    ensures |SegmentsAfter(segs, len, mats, initial, k)| > 0
    ensures Last(SegmentsAfter(segs, len, mats, initial, k)).material == CurrentBefore(mats, initial, k)
  {
    var before := SegmentsAfter(segs, len, mats, initial, k - 1);
    var mat := mats[k - 1];
    if !(mat != CurrentBefore(mats, initial, k - 1) || |before| == 0) && k > 1 {
      LastMaterial(segs, len, mats, initial, k - 1);
    }
  }

  /**
   * With the corrected starting id every shape keeps the grouping: each
   * triangle is drawn with its own material.
   */
  lemma CarriedGrouped(segs: seq<MeshSegment>, tris: seq<nat>, mats: seq<nat>, n: nat)
    requires Grouped(segs, tris) && n <= |mats|
    ensures Grouped(SegmentsAfter(segs, 3 * |tris|, mats, CarriedMaterial(segs), n), tris + mats[..n])
  {
    SegmentsGrouped(segs, tris, mats, CarriedMaterial(segs), n);
  }

  /**
   * As written, a shape whose first triangle has no material (tinyobj's -1,
   * read as 0xFFFFFFFF) after a shape with material 0 is appended to that
   * shape's segment, so it is drawn with material 0.
   */
  lemma UnmaterialledShapeJoinsPrevious()
    ensures SegmentsAfter([MeshSegment(0, 0, 3)], 3, [InvalidMask], InvalidMask, 1) == [MeshSegment(0, 0, 6)]
    ensures Grouped([MeshSegment(0, 0, 3)], [0])
    ensures !Grouped([MeshSegment(0, 0, 6)], [0, InvalidMask])
  {
    var segs := [MeshSegment(0, 0, 6)];
    var tris := [0, InvalidMask];
    assert segs[0].indexOffset <= 3 * 1 < End(segs[0]) && tris[1] != segs[0].material;
  }

  // ----- the mip loop of loadTexture -----

  /** One entry of textureData: its mip index and the size of that level. */
  datatype MipLevel = MipLevel(mip: nat, width: nat, height: nat)

  /** max<u32>(1, n / 2) */
  function Halve(n: nat): nat
  {
    if n / 2 >= 1 then n / 2 else 1
  }

  function Min(a: nat, b: nat): nat { if a <= b then a else b }

  function Max(a: nat, b: nat): nat { if a >= b then a else b }

  /** floor(log2 n): how often n can be halved before it reaches 1. */
  function Log2(n: nat): nat
    requires n >= 1
  {
    if n == 1 then 0 else 1 + Log2(n / 2)
  }

  /**
   * `levels` starts with the full image as mip 0, and each further entry
   * is the next mip index with both sides of the previous level halved.
   */
  ghost predicate HalvingChain(levels: seq<MipLevel>, w: nat, h: nat)
  {
    && |levels| > 0 && levels[0] == MipLevel(0, w, h)
    && forall i :: 0 <= i < |levels| - 1 ==>
         levels[i + 1] == MipLevel(i + 1, Halve(levels[i].width), Halve(levels[i].height))
  }

  lemma HalveMinMax(a: nat, b: nat)
    requires a >= 1 && b >= 1
    ensures Min(Halve(a), Halve(b)) == Halve(Min(a, b))
    ensures Max(Halve(a), Halve(b)) == Halve(Max(a, b))
  {
  }

  /**
   * The loop as written: halve while neither side is 1. It stops at the
   * first level with a side of 1, after floor(log2(min(w, h))) halvings.
   */
  method MipChain(w: nat, h: nat) returns (levels: seq<MipLevel>)
    requires w >= 1 && h >= 1
    ensures HalvingChain(levels, w, h)
    ensures levels[|levels| - 1].width == 1 || levels[|levels| - 1].height == 1
    ensures forall i :: 0 <= i < |levels| - 1 ==> levels[i].width != 1 && levels[i].height != 1
    ensures |levels| == 1 + Log2(Min(w, h))
  {
    levels := [MipLevel(0, w, h)];
    var mipWidth, mipHeight := w, h;
    while mipWidth != 1 && mipHeight != 1
      invariant mipWidth >= 1 && mipHeight >= 1
      invariant HalvingChain(levels, w, h)
      invariant levels[|levels| - 1] == MipLevel(|levels| - 1, mipWidth, mipHeight)
      invariant forall i :: 0 <= i < |levels| - 1 ==> levels[i].width != 1 && levels[i].height != 1
      invariant |levels| - 1 + Log2(Min(mipWidth, mipHeight)) == Log2(Min(w, h))
      decreases mipWidth + mipHeight
    {
      var nextMipWidth := Halve(mipWidth);
      var nextMipHeight := Halve(mipHeight);
      HalveMinMax(mipWidth, mipHeight);
      levels := levels + [MipLevel(|levels|, nextMipWidth, nextMipHeight)];
      mipWidth, mipHeight := nextMipWidth, nextMipHeight;
    }
  }

  /**
   * The loop with `||`: halve until both sides are 1, giving the full
   * chain of floor(log2(max(w, h))) + 1 levels that ends at 1x1.
   */
  method FullMipChain(w: nat, h: nat) returns (levels: seq<MipLevel>)
    requires w >= 1 && h >= 1
    ensures HalvingChain(levels, w, h)
    ensures levels[|levels| - 1].width == 1 && levels[|levels| - 1].height == 1
    ensures forall i :: 0 <= i < |levels| - 1 ==> levels[i].width != 1 || levels[i].height != 1
    ensures |levels| == 1 + Log2(Max(w, h))
  {
    levels := [MipLevel(0, w, h)];
    var mipWidth, mipHeight := w, h;
    while mipWidth != 1 || mipHeight != 1
      invariant mipWidth >= 1 && mipHeight >= 1
      invariant HalvingChain(levels, w, h)
      invariant levels[|levels| - 1] == MipLevel(|levels| - 1, mipWidth, mipHeight)
      invariant forall i :: 0 <= i < |levels| - 1 ==> levels[i].width != 1 || levels[i].height != 1
      invariant |levels| - 1 + Log2(Max(mipWidth, mipHeight)) == Log2(Max(w, h))
      decreases mipWidth + mipHeight
    {
      var nextMipWidth := Halve(mipWidth);
      var nextMipHeight := Halve(mipHeight);
      HalveMinMax(mipWidth, mipHeight);
      levels := levels + [MipLevel(|levels|, nextMipWidth, nextMipHeight)];
      mipWidth, mipHeight := nextMipWidth, nextMipHeight;
    }
  }

  /** A 4x2 texture: the loop as written stops at 2x1 with two levels; the full chain has three. */
  lemma FourByTwoMipChains()
    ensures 1 + Log2(Min(4, 2)) == 2
    ensures 1 + Log2(Max(4, 2)) == 3
    ensures Halve(4) == 2 && Halve(2) == 1 && Halve(1) == 1
  {
    assert Log2(2) == 1;
    assert Log2(4) == 2;
  }
}
