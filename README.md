# RayTracedShadows core in Dafny

This project models the CPU-side logic of the RayTracedShadows demo:

- **The BVH builder** (`BVHBuilder::build`). It turns each non-degenerate triangle of an indexed triangle list into a leaf, builds a binary tree top-down in a node arena, and chooses each cut with a surface-area sweep over ranges sorted by box centre. It then numbers the tree in depth-first pre-order with stackless `next` skip pointers, moves the nodes into visit order, and packs every node into two four-word records followed by one first-vertex record per triangle.
- **`MovingAverage<T, SIZE>`**: a ring buffer of the last SIZE samples with a running sum.
- **The application's helpers**: the render-mode names, `directoryFromFilename`, the 64-bit FNV-1a hash, the loop that groups a shape's triangles into per-material index segments, and the loop that computes the mip chain of a loaded texture.

Modules and files:

| file | module | models |
|---|---|---|
| `wrappers.dfy` | `Wrappers` | `Option` |
| `bvh_node.dfy` | `BVHNodes` | `BVHNode`, its constants and defaults, the packed record, 32-bit wrap |
| `bvh_geometry.dfy` | `BVHGeometry` | boxes, surface area, the scratch `TempNode`, the hull of a node run |
| `bvh_sort.dfy` | `BVHSort` | the sort of a range by box centre |
| `bvh_split.dfy` | `BVHSplit` | `calculateBounds`, `split` (surface-area and midpoint branches) |
| `bvh_tree.dfy` | `BVHTree` | the tree the arena encodes, pre-order positions |
| `bvh_build.dfy` | `BVHBuild` | leaf creation, `buildInternal` |
| `bvh_order.dfy` | `BVHOrder` | `setDepthFirstVisitOrder` |
| `bvh_pack.dfy` | `BVHPack` | the remap and packing loops, and reading a node back from the records |
| `bvh_builder.dfy` | `BVH` | `BVHBuilder` and `build` end to end, and what its output means |
| `moving_average.dfy` | `MovingAverages` | `MovingAverage` |
| `ray_traced_shadows.dfy` | `RayTracedShadows` | the application helpers |

The builder's arena (`std::vector<TempNode>&`) is passed and returned as a sequence by each function that changes it. `BVHBuilder` and `MovingAverage` are classes whose methods update their fields in place. The tree that the arena's `left`/`right`/`parent` indices encode is a ghost `Tree` value. `WF` says when the arena slots encode a given tree, and `At(t, k)` is the subtree at pre-order position `k`.

## Model

| member | source | states |
|---|---|---|
| BVHNodes.IsLeaf | Source/BVHBuilder.h:20 | a node is a leaf exactly when it names a primitive, that is, its primitive field is not InvalidMask |
| BVHNodes.DefaultNode | Source/BVHBuilder.h:14-20 | a default node has no primitive (so it is not a leaf) and no successor |
| BVHGeometry.DefaultTempNode | Source/BVHBuilder.cpp:8-22 | a fresh scratch node has no primitive, no parent and no visit order |
| BVHGeometry.SurfaceAreaFormula | Source/BVHBuilder.cpp:24-33 | surface area is twice the sum of the pairwise products of the box extents |
| BVHGeometry.HullIsHull | Source/BVHBuilder.cpp:53-76 | the min-of-mins/max-of-maxes box holds every node of the run and each of its faces touches one of them |
| BVHGeometry.HullEncloses | Source/BVHBuilder.cpp:65-71 | the hull holds the box of every node of the run |
| BVHGeometry.HullTouches | Source/BVHBuilder.cpp:65-71 | each face of the hull lies on a face of some node of the run |
| BVHGeometry.HullUnique | Source/BVHBuilder.cpp:53-76 | two boxes that both bound a run tightly are equal |
| BVHGeometry.HullOfPermutation | Source/BVHBuilder.cpp:53-76 | the bounds of a range do not depend on the order of its nodes, so sorting keeps them |
| BVHGeometry.HullOfConcat | Source/BVHBuilder.cpp:189-209 | the bounds of a range are the union of the bounds of its two halves |
| BVHSort.InsertSorted | Source/BVHBuilder.cpp:91-95 | inserting a node into a sorted run keeps it sorted and adds exactly that node |
| BVHSort.SortByCenterSorts | Source/BVHBuilder.cpp:91-95 | the sort by centre on an axis yields a sorted permutation of its input |
| BVHSort.SortRange | Source/BVHBuilder.cpp:148-152 | sorting `[begin, end)` sorts that range and leaves every slot outside it as it was |
| BVHSplit.CalculateBounds | Source/BVHBuilder.cpp:53-76 | an empty range gives the zero box; otherwise the range's hull, which holds every node of the range |
| BVHSplit.WeightedIsProduct | Source/BVHBuilder.cpp:129-130 | the weighted area of one side is its area times its primitive count |
| BVHSplit.PrefixHullIsHull | Source/BVHBuilder.cpp:103-108 | the left bounds grown node by node are the hull of the first k+1 nodes |
| BVHSplit.SuffixHullIsHull | Source/BVHBuilder.cpp:103-111 | the right bounds grown node by node from the back are the hull of the nodes from k on |
| BVHSplit.SweepAreas | Source/BVHBuilder.cpp:97-118 | the sweep stores at k the area of the first k+1 nodes and the area of the nodes from k on |
| BVHSplit.CheapestCut | Source/BVHBuilder.cpp:120-138 | the cut found costs no more than any cut and strictly less than every earlier cut |
| BVHSplit.MinCostUpToIsLeast | Source/BVHBuilder.cpp:121-138 | the least cost over cuts 1..k is attained by one of them and bounds all of them from below |
| BVHSplit.MinSplitCostUnique | Source/BVHBuilder.cpp:121-138 | a cost attained by a cut and not above any cut is the least cut cost |
| BVHSplit.EvaluateAxis | Source/BVHBuilder.cpp:97-138 | one axis: the first cut of least surface-area cost on the sorted run |
| BVHSplit.MajorAxis | Source/BVHBuilder.cpp:158-159 | the axis of the largest extent, the first one on ties |
| BVHSplit.AxisArrangementPermutes | Source/BVHBuilder.cpp:89-95 | sorting along the axes in turn permutes the run |
| BVHSplit.FirstMinimumSnoc | Source/BVHBuilder.cpp:140-145 | a later axis replaces the best only when strictly cheaper, so the first least cost is kept |
| BVHSplit.AxesEvaluatedSnoc | Source/BVHBuilder.cpp:89-146 | evaluating one more axis extends the record of least costs and first cheapest cuts |
| BVHSplit.BestAxisChosen | Source/BVHBuilder.cpp:140-145 | after three axes the remembered axis is the first cheapest and its cut is that axis's first cheapest cut |
| BVHSplit.ArrangeAndEvaluate | Source/BVHBuilder.cpp:91-138 | one pass sorts along the axis from the previous order and finds that axis's least cost and first cheapest cut |
| BVHSplit.CheapestAxis | Source/BVHBuilder.cpp:83-146 | the loop over the three axes returns the first cheapest axis with its first cheapest cut |
| BVHSplit.SahSplit | Source/BVHBuilder.cpp:83-154 | the surface-area branch cuts inside the range at the first cheapest cut of the first cheapest axis, re-sorts along that axis and touches nothing outside the range |
| BVHSplit.MidpointSplit | Source/BVHBuilder.cpp:156-177 | the fallback sorts along the major axis and cuts at the first node after the first whose centre reaches the midpoint, else before the last node |
| BVHSplit.Split | Source/BVHBuilder.cpp:78-178 | a cut strictly inside the range; the range becomes a sorted permutation of itself and nothing outside it changes; up to the surface-area limit the cut is the first cheapest cut of the first cheapest axis, above it every node before the cut (after the first) lies below the midpoint of the longest extent and the cut node reaches it unless it is the last |
| BVHTree.SizeFromLeaves | Source/BVHBuilder.cpp:180-219 | a binary tree with n leaves has 2n-1 nodes |
| BVHTree.AtChildren | Source/BVHBuilder.cpp:221-237 | in pre-order a node's left child comes next and its right child just after the left subtree |
| BVHTree.WFAt | Source/BVHBuilder.cpp:180-219 | every subtree of a well-formed larger-first tree is well formed and larger-first |
| BVHTree.AtCovers | Source/BVHBuilder.cpp:221-237 | every node of the tree is visited at some pre-order position |
| BVHTree.WFFrame | Source/BVHBuilder.cpp:213-216 | changing only traversal fields, or a root's parent link, keeps a tree well formed |
| BVHBuild.TriangleBox | Source/BVHBuilder.cpp:263-272 | a triangle's box holds its three corners |
| BVHBuild.SurvivorsSound | Source/BVHBuilder.cpp:260-285 | each leaf is made from a kept triangle, with that triangle's box, no children and no parent, in increasing primitive order |
| BVHBuild.SurvivorsComplete | Source/BVHBuilder.cpp:276-284 | every triangle above the area threshold gets a leaf |
| BVHBuild.CreateLeaves | Source/BVHBuilder.cpp:260-285 | the leaf loop makes one leaf per non-degenerate triangle, in order |
| BVHBuild.FreeLeavesPermutation | Source/BVHBuilder.cpp:191 | rearranging unlinked leaves leaves them unlinked leaves |
| BVHBuild.Linked | Source/BVHBuilder.cpp:201-216 | linking two disjoint well-formed subtrees under a new node, larger child first, gives a well-formed larger-first tree |
| BVHBuild.LinkNode | Source/BVHBuilder.cpp:201-216 | the children are swapped exactly when the second has the strictly larger surface area (on a tie the first half stays left); the node gets the range's bounds and no primitive and becomes both children's parent; no other slot changes |
| BVHBuild.BoundAndSplit | Source/BVHBuilder.cpp:189-191 | the range's bounds, and a cut into two non-empty halves that together hold the range's leaves and whose bounds join to the range's bounds |
| BVHBuild.HalvesBuilt | Source/BVHBuilder.cpp:198-199 | after both recursive calls the two subtrees are disjoint, well formed and allocated after the parent |
| BVHBuild.HalvesJoined | Source/BVHBuilder.cpp:198-216 | after the link the new node roots a tree whose leaves are the range and whose internal nodes are the slots appended since |
| BVHBuild.BuildInternal | Source/BVHBuilder.cpp:180-219 | one leaf is its own root, appends nothing and leaves its slot untouched; a larger range appends one node per split (2n-1 nodes for n leaves), with children after the parent, bounds equal to the union of the children's, parent links set and the larger child first |
| BVHBuild.BuildChildren | Source/BVHBuilder.cpp:193-216 | builds both halves and links them under the reserved slot |
| BVHOrder.SetSubtreeVisitOrder | Source/BVHBuilder.cpp:221-237 | numbers the subtree from `order` in pre-order, gives its root `nextId` and returns the order after the subtree; nothing outside the subtree's traversal fields changes |
| BVHOrder.VisitChildren | Source/BVHBuilder.cpp:228-236 | the left child is numbered with the right sibling as its skip target, the right child with the parent's |
| BVHOrder.ChildrenOrdered | Source/BVHBuilder.cpp:228-236 | numbering the left subtree and then the right one numbers the whole tree |
| BVHOrder.SetDepthFirstVisitOrder | Source/BVHBuilder.cpp:239-243 | the root gets order 0 and the tree is numbered in pre-order with no node after it |
| BVHOrder.OrderedAt | Source/BVHBuilder.cpp:221-243 | the node at pre-order position k has visit order k, and its skip target is the first node after its subtree, or InvalidMask |
| BVHOrder.VisitOrderPermutes | Source/BVHBuilder.cpp:221-243 | the visit orders are a permutation of 0..n-1 |
| BVHOrder.VisitOrderOf | Source/BVHBuilder.cpp:225 | each node's visit order is the pre-order position of the subtree it roots |
| BVHOrder.IdsCount | Source/BVHBuilder.cpp:180-219 | a well-formed tree uses as many distinct slots as it has nodes |
| BVHPack.Remap | Source/BVHBuilder.cpp:291-307 | slot j lands at position visitOrder(j) with its bounds and primitive, and its skip target is translated to visit order, with InvalidMask kept |
| BVHPack.NodeRecords | Source/BVHBuilder.cpp:315-359 | every node gives two records, the second carrying its skip target |
| BVHPack.PackNodes | Source/BVHBuilder.cpp:309-360 | two records per node in visit order: edges and tagged primitive for a leaf, bounds and InvalidMask for an internal node |
| BVHPack.PackTail | Source/BVHBuilder.cpp:362-368 | one first-vertex record for every input triangle, degenerate or not |
| BVHPack.UnpackPacked | Source/BVHBuilder.cpp:309-368 | reading node k back from the records gives the node; a leaf's tagged id is the index of its own first-vertex record |
| BVH.OutputAt | Source/BVHBuilder.cpp:291-307 | output node k is the relocated root of the subtree at pre-order position k |
| BVH.OutputNext | Source/BVHBuilder.cpp:221-243 | the skip target of output node k is the position just past its subtree, or InvalidMask at the end |
| BVH.OutputShape | Source/BVHBuilder.cpp:211 | an output node is a leaf exactly when its subtree is a single node |
| BVH.OutputChildren | Source/BVHBuilder.cpp:201-216 | an internal output node's bounds are the union of its children's, the larger child first |
| BVH.LinkedAtFromTree | Source/BVHBuilder.cpp:221-307 | every output node satisfies the pre-order layout with the tree's subtree sizes |
| BVH.TreeFromArena | Source/BVHBuilder.cpp:287-307 | the output is a binary tree in pre-order with correct skip pointers, bounds and child order |
| BVH.LeafSlot | Source/BVHBuilder.cpp:260-285 | the arena slots below the leaf count hold leaves of kept triangles with their bounds |
| BVH.KeptHasSlot | Source/BVHBuilder.cpp:260-285 | every kept triangle sits in some leaf slot of the arena |
| BVH.LeafPosition | Source/BVHBuilder.cpp:291-307 | an output leaf is the relocated copy of a leaf slot of the arena |
| BVH.LeafIsKept | Source/BVHBuilder.cpp:260-307 | an output leaf is a kept triangle carrying that triangle's bounds |
| BVH.KeptIsLeaf | Source/BVHBuilder.cpp:260-307 | every kept triangle is some output leaf's primitive |
| BVH.LeavesFromArena | Source/BVHBuilder.cpp:260-307 | the output's leaves are exactly the kept triangles, with their bounds |
| BVH.ArenaNumbered | Source/BVHBuilder.cpp:287-289 | after the build and numbering the visit orders are distinct slots and every skip target is a slot or InvalidMask |
| BVH.ArenaShape | Source/BVHBuilder.cpp:289 | numbering keeps the tree well formed and larger-first |
| BVH.ArenaNext | Source/BVHBuilder.cpp:226 | a numbered node's skip target is another slot or InvalidMask |
| BVH.BuildNodes | Source/BVHBuilder.cpp:254-307 | n >= 1 kept triangles give 2n-1 nodes forming a binary tree in pre-order whose leaves are exactly the kept triangles |
| BVH.BVHBuilder.constructor | Source/BVHBuilder.h:28-33 | a new builder holds no nodes and no packed records |
| BVH.BVHBuilder.Build | Source/BVHBuilder.cpp:247-369 | replaces the node list with the pre-order tree and appends 2*nodeCount + primCount packed records after the records already held, which are kept |
| BVH.PackedOutputDecodes | Source/BVHBuilder.cpp:309-368 | every node of a build reads back from its packed records as itself, and each leaf's tag indexes its first-vertex record |
| MovingAverages.SumUpdate | Source/MovingAverage.h:25-27 | overwriting a slot changes the sum by the new sample minus the old one |
| MovingAverages.SumZeros | Source/MovingAverage.h:16-20 | a zeroed ring sums to zero |
| MovingAverages.WindowSnoc | Source/MovingAverage.h:23-29 | adding a sample drops the oldest of the last SIZE samples and appends the new one |
| MovingAverages.RotatedSum | Source/MovingAverage.h:31-34 | the ring's layout does not change its sum |
| MovingAverages.RotatedStep | Source/MovingAverage.h:27-28 | overwriting the oldest slot and advancing the index lays out the next window |
| MovingAverages.ModSucc | Source/MovingAverage.h:28 | advancing the index modulo SIZE keeps it equal to the sample count modulo SIZE |
| MovingAverages.MovingAverage.constructor | Source/MovingAverage.h:8-11 | a new average is reset: index 0, sum 0, every slot 0, no samples |
| MovingAverages.MovingAverage.Reset | Source/MovingAverage.h:13-21 | index 0, sum 0, every slot 0, and the ring invariant holds |
| MovingAverages.MovingAverage.Add | Source/MovingAverage.h:23-29 | only slot idx changes, to v; the index advances modulo SIZE; the sum stays the sum of the ring, which holds the last SIZE samples |
| MovingAverages.MovingAverage.Get | Source/MovingAverage.h:31-34 | returns sum / SIZE, the mean of the last SIZE samples (missing ones count as 0), and changes nothing |
| RayTracedShadows.ModeName | Source/RayTracedShadows.cpp:376-386 | "Compute" exactly for Compute, "NVX" exactly for NVX, "unknown" exactly for any other value |
| RayTracedShadows.FindLastSeparator | Source/RayTracedShadows.cpp:593 | the position of the last '/' or '\\', or none when neither occurs |
| RayTracedShadows.DirectoryFromFilename | Source/RayTracedShadows.cpp:591-602 | the result is a prefix of the path that is empty or ends in a separator, and no separator follows it |
| RayTracedShadows.DirectoryUnique | Source/RayTracedShadows.cpp:591-602 | any prefix with those properties is the result |
| RayTracedShadows.DirectoryIdempotent | Source/RayTracedShadows.cpp:591-602 | applying it twice gives the same result as applying it once |
| RayTracedShadows.HashFnv1a64 | Source/RayTracedShadows.cpp:677-686 | the loop computes FNV-1a of the message from the seed; an empty message returns the seed |
| RayTracedShadows.Fnv1aConcat | Source/RayTracedShadows.cpp:680-685 | hashing a concatenation is hashing the second part seeded with the hash of the first |
| RayTracedShadows.FnvReferenceValues | Source/RayTracedShadows.cpp:677-686 | with the default seed, "a" and "foobar" hash to the published 64-bit FNV-1a values |
| RayTracedShadows.ShapeIndices | Source/RayTracedShadows.cpp:838-840 | each triangle appends three indices, so n triangles append 3n |
| RayTracedShadows.SegmentsAfter | Source/RayTracedShadows.cpp:827-843 | after at least one triangle there is a segment |
| RayTracedShadows.GroupTriangles | Source/RayTracedShadows.cpp:824-843 | the loop appends each triangle's corners 0,2,1 offset by the first vertex, opens a segment at the list's length exactly when the list of segments is empty or the material differs from the tracked one, and adds 3 to the last segment |
| RayTracedShadows.AppendShape | Source/RayTracedShadows.cpp:824-843 | the loop as written, with the tracked material reset to 0xFFFFFFFF for each shape |
| RayTracedShadows.AppendShapeCarried | Source/RayTracedShadows.cpp:824-843 | the loop with the tracked material carried over from the last segment |
| RayTracedShadows.AddTriangleGrouped | Source/RayTracedShadows.cpp:829-842 | opening a segment, or extending one of the triangle's own material, keeps every triangle drawn with its own material |
| RayTracedShadows.SegmentsGrouped | Source/RayTracedShadows.cpp:824-843 | a shape keeps the grouping unless its first triangle joins a segment of another material |
| RayTracedShadows.LastMaterial | Source/RayTracedShadows.cpp:829-836 | after a triangle the last segment has the tracked material |
| RayTracedShadows.CarriedGrouped | Source/RayTracedShadows.cpp:824-843 | with the carried material, every shape keeps each triangle in a segment of its own material |
| RayTracedShadows.UnmaterialledShapeJoinsPrevious | Source/RayTracedShadows.cpp:824-829 | as written, a shape without material after a shape with material 0 joins that shape's segment |
| RayTracedShadows.HalveMinMax | Source/RayTracedShadows.cpp:636-637 | halving both sides halves the smaller and the larger side |
| RayTracedShadows.MipChain | Source/RayTracedShadows.cpp:631-658 | the loop as written: each level halves both sides (at least 1) with the next mip index; it stops at the first level with a side of 1, after floor(log2(min(w, h))) halvings |
| RayTracedShadows.FullMipChain | Source/RayTracedShadows.cpp:631-658 | the loop with `||`: it ends at 1x1 after floor(log2(max(w, h))) halvings |
| RayTracedShadows.FourByTwoMipChains | Source/RayTracedShadows.cpp:634 | a 4x2 texture gets 2 levels as written and 3 in the full chain |

## Left out

- Floating point: coordinates, areas and costs are exact reals. Float rounding, `FLT_MAX` sentinels (modelled as "no best yet") and NaN are not modelled. The SSE min/max in `calculateBounds` is modelled as scalar min/max.
- `Triangle::calculateArea` comes from a host library that is not part of this model. The triangle area is a function parameter `area`, and only its comparison with the `1e-4` threshold matters.
- The vertex fetch through `stride` is not modelled. The mesh is a sequence of `Vec3` vertices.
- The byte reinterpretation by `memcpy` is not modelled. A `BVHPackedNode` is a `PackedNode` of three coordinates and one integer word.
- BVHPack.TailRecord: the source copies 16 bytes from a 12-byte vector, so the fourth word of a first-vertex record is unspecified; the model writes 0 there.
- BVHSplit.Split: `std::sort` is unstable, so its order for nodes with equal centres is not fixed. The model sorts by stable insertion, and the contracts of BVHSplit.Split, BVHSplit.SahSplit, BVHSplit.MidpointSplit and BVHSplit.CheapestAxis state the cut and the arrangement that this order produces. Equal centres on either side of a cut fall into different left and right bounds, so the source's costs, chosen cut and tree shape equal the model's only when the centres along each sorted axis are distinct. BVHBuild.BoundAndSplit, BVHBuild.BuildInternal and everything above them rely only on the range being a permutation of itself, cut strictly inside.
- The `surfaceAreaLeft`/`surfaceAreaRight` fields that `split` writes into the nodes are modelled as two local sequences. Nothing outside `split` reads them.
- BVH.BVHBuilder.Build: requires at least one triangle above the area threshold. With none, `buildInternal` recurses forever on an empty range and `primCount * 2 - 1` wraps around at BVHBuilder.cpp:255 and 258.
- BVH.BVHBuilder.Build: also requires `2 * primCount <= 0xFFFFFFFF`, so that arena indices never reach InvalidMask.
- BVH.BuildNodes: has the same two requirements as Build.
- BVH.PackedOutputDecodes: the round trip requires that the leaf tags `prim + 2 * nodeCount` do not wrap around 32 bits. It is stated for the records that one build appends. `m_packedNodes` is never cleared, so after a second build on the same builder the tags index records relative to the start of that build's records, not the start of the list. BVHBuilder.Build states this prefix-keeping behaviour as written.
- BVHPack.UnpackPacked: the same no-wrap requirement.
- MovingAverages.MovingAverage: the application uses `T = double` with SIZE = 60. The model uses exact reals for T, so the running-sum invariant holds exactly. Float drift of the sum is not modelled.
- RayTracedShadows.HashFnv1a64: the message is a byte sequence instead of a pointer and a length. The two statements of a round are written as one step.
- RayTracedShadows.ShadowRenderMode: the enum's declaration is not part of this model. It is modelled as its two named values plus any other value.
- RayTracedShadows.GroupTriangles: takes the segment list and the index list as values and returns them, where the source appends to `m_segments` and a local vector. The 32-bit truncation of `indexOffset` and of the index count is not modelled, but the `+ firstVertex` offset wraps at 2^32. The material ids of tinyobj are `int`; a missing material (-1) is modelled as 0xFFFFFFFF, which is the value the comparison with the `u32` current id sees.
- RayTracedShadows.MipChain: requires both sides to be at least 1, which the image loader guarantees. The pixel resizing with stb and the mip allocations are not modelled; a level is its mip index and size.
- The rest of `loadModel` is not modelled: OBJ parsing, vertex and normal generation, and the bounding box. The rest of `loadTexture` is not modelled either. Rendering, GPU resources, the ray-tracing backends, timing and UI are also out of scope.
- RayTracedShadows.ModeName: the default branch of `toString` triggers a debug break before returning "unknown"; the break is not modelled.
- BVHSplit.SweepAreas: the source grows each running box from an empty box by a node's two corners; the model takes the union with the node's box, which is the same for boxes whose min corner is below their max corner. Every node `split` sees is such a box, but the contract does not require it.
- `LeafMask` is declared as a constant but the builder never applies it, and nothing in the model uses it.

## Findings

| source | as written | input that shows it | evidently intended | confidence | as-written member | corrected member |
|---|---|---|---|---|---|---|
| Source/RayTracedShadows.cpp:634 | `while (mipWidth != 1 && mipHeight != 1)` stops as soon as either side reaches 1 | a 4x2 texture gets mips 4x2 and 2x1 only (2 levels) | halve until both sides are 1 (`\|\|`): 4x2, 2x1, 1x1 (3 levels). The `max(1, ...)` clamps only matter if one side can stay at 1 while the other shrinks | high, not executed | RayTracedShadows.MipChain, RayTracedShadows.FourByTwoMipChains | RayTracedShadows.FullMipChain |
| Source/RayTracedShadows.cpp:824-829 | the tracked material id is reset to 0xFFFFFFFF for each shape while `m_segments` keeps the previous shape's segments | shape 1 has one triangle with material 0, giving segment (0, 0, 3); shape 2's first triangle has no material (-1, read as 0xFFFFFFFF). It is added to segment (0, 0, 6) and drawn with material 0 | every triangle is drawn in a segment of its own material: carry the last segment's material (or open a segment at each shape) | medium, not executed | RayTracedShadows.AppendShape, RayTracedShadows.UnmaterialledShapeJoinsPrevious | RayTracedShadows.AppendShapeCarried, RayTracedShadows.CarriedGrouped |
