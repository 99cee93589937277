/**
 * Range bounds and the choice of a split position
 * (Source/BVHBuilder.cpp:53-178).
 */
module BVHSplit {
  import opened Wrappers
  import opened BVHNodes
  import opened BVHGeometry
  import opened BVHSort

  /** Ranges above this many primitives skip the surface-area sweep. */
  const SahLimit: nat := 1000000

  /**
   * Bounds of a node range: the zero box when the range is empty, otherwise
   * the box that holds every node of the range.
   */
  method CalculateBounds(nodes: seq<TempNode>, b: nat, e: nat) returns (bounds: Box3)
    requires b <= e <= |nodes|
    ensures b == e ==> bounds == ZeroBox
    ensures b < e ==> bounds == HullOf(nodes[b..e])
    ensures forall j :: b <= j < e ==> Inside(BoxOf(nodes[j]), bounds)
  {
    if b == e {
      bounds := ZeroBox;
    } else {
      bounds := BoxOf(nodes[b]);
      var i := b + 1;
      assert nodes[b..i] == [nodes[b]];
      while i < e
        invariant b < i <= e
        invariant bounds == HullOf(nodes[b..i])
      {
        assert nodes[b..i + 1] == nodes[b..i] + [nodes[i]];
        HullOfSnoc(nodes[b..i], nodes[i]);
        bounds := Union(bounds, BoxOf(nodes[i]));
        i := i + 1;
      }
      assert nodes[b..i] == nodes[b..e];
      HullIsHull(nodes[b..e]);
      forall j | b <= j < e ensures Inside(BoxOf(nodes[j]), bounds) {
        assert nodes[b..e][j - b] == nodes[j];
      }
    }
  }

  /**
   * Unnormalised surface-area cost of cutting the arranged run `r` before
   * offset `m`: area of the left part times its size plus area of the
   * right part times its size.
   */
  function SplitCost(r: seq<TempNode>, m: nat): real
    requires 0 < m < |r|
  {
    CutCost(SurfaceArea(HullOf(r[..m])), m, SurfaceArea(HullOf(r[m..])), |r| - m)
  }

  /** Least cost over the cut positions 1..k. */
  function MinCostUpTo(r: seq<TempNode>, k: nat): real
    requires 0 < k < |r|
  {
    if k == 1 then SplitCost(r, 1) else MinReal(MinCostUpTo(r, k - 1), SplitCost(r, k))
  }

  /** Least cost over every cut position of the run. */
  function MinSplitCost(r: seq<TempNode>): real
    requires |r| >= 2
  {
    MinCostUpTo(r, |r| - 1)
  }

  /** MinCostUpTo is attained at some position and bounds every position from below. */
  lemma {:induction false} MinCostUpToIsLeast(r: seq<TempNode>, k: nat)
    requires 0 < k < |r|
    ensures forall m :: 0 < m <= k ==> MinCostUpTo(r, k) <= SplitCost(r, m)
    ensures exists m :: 0 < m <= k && MinCostUpTo(r, k) == SplitCost(r, m)
  {
    if k == 1 {
      assert MinCostUpTo(r, k) == SplitCost(r, 1);
    } else {
      MinCostUpToIsLeast(r, k - 1);
      if SplitCost(r, k) <= MinCostUpTo(r, k - 1) {
        assert MinCostUpTo(r, k) == SplitCost(r, k);
      } else {
        var m :| 0 < m <= k - 1 && MinCostUpTo(r, k - 1) == SplitCost(r, m);
        assert MinCostUpTo(r, k) == SplitCost(r, m);
      }
    }
  }

  /** A cost attained by some cut and not above any cut is the least cost. */
  lemma MinSplitCostUnique(r: seq<TempNode>, best: nat, cost: real)
    requires 0 < best < |r| && cost == SplitCost(r, best)
    requires forall m :: 0 < m < |r| ==> cost <= SplitCost(r, m)
    ensures cost == MinSplitCost(r)
  {
    MinCostUpToIsLeast(r, |r| - 1);
  }

  /** `area` times `count`, spelled out as repeated addition. */
  function Weighted(area: real, count: nat): real
  {
    if count == 0 then 0.0 else area + Weighted(area, count - 1)
  }

  lemma {:induction false} WeightedIsProduct(area: real, count: nat)
    ensures Weighted(area, count) == area * (count as real)
  {
    if count > 0 {
      WeightedIsProduct(area, count - 1);
    }
  }

  /** Area of each side weighted by the number of primitives on that side. */
  function CutCost(areaLeft: real, countLeft: nat, areaRight: real, countRight: nat): real
  {
    Weighted(areaLeft, countLeft) + Weighted(areaRight, countRight)
  }

  /** Bounds of nodes 0..k, grown one node at a time from the front. */
  function PrefixHull(r: seq<TempNode>, k: nat): Box3
    requires k < |r|
  {
    if k == 0 then BoxOf(r[0]) else Union(PrefixHull(r, k - 1), BoxOf(r[k]))
  }

  /** Bounds of nodes k..|r|-1, grown one node at a time from the back. */
  function SuffixHull(r: seq<TempNode>, k: nat): Box3
    requires k < |r|
    decreases |r| - k
  {
    if k == |r| - 1 then BoxOf(r[k]) else Union(SuffixHull(r, k + 1), BoxOf(r[k]))
  }

  lemma {:induction false} PrefixHullIsHull(r: seq<TempNode>, k: nat)
    requires k < |r|
    ensures PrefixHull(r, k) == HullOf(r[..k + 1])
  {
    HullOfPrefixStep(r, k);
    if k > 0 {
      PrefixHullIsHull(r, k - 1);
      assert r[..k - 1 + 1] == r[..k];
    }
  }

  lemma {:induction false} SuffixHullIsHull(r: seq<TempNode>, k: nat)
    requires k < |r|
    ensures SuffixHull(r, k) == HullOf(r[k..])
    decreases |r| - k
  {
    HullOfSuffixStep(r, k);
    if k < |r| - 1 {
      SuffixHullIsHull(r, k + 1);
    }
  }

  /**
   * The prefix/suffix sweep: `areaLeft[k]` is the surface area of the first
   * k+1 nodes, `areaRight[k]` that of the nodes from k on. The source grows
   * each running box from an empty box by both corners of a node; that is
   * the union with the node's box whenever the node's min corner is below
   * its max corner, as it is for every leaf (TriangleBox) and every union of
   * leaves, the only nodes split ever sees.
   */
  method SweepAreas(r: seq<TempNode>) returns (areaLeft: seq<real>, areaRight: seq<real>)
    requires |r| >= 1
    ensures |areaLeft| == |r| && |areaRight| == |r|
    ensures forall k :: 0 <= k < |r| ==> areaLeft[k] == SurfaceArea(PrefixHull(r, k))
    ensures forall k :: 0 <= k < |r| ==> areaRight[k] == SurfaceArea(SuffixHull(r, k))
  {
    var count := |r|;
    areaLeft := seq(count, _ => 0.0);
    areaRight := seq(count, _ => 0.0);
    var boundsLeft := ZeroBox;
    var boundsRight := ZeroBox;
    var indexLeft := 0;
    while indexLeft < count
      invariant 0 <= indexLeft <= count
      invariant |areaLeft| == count && |areaRight| == count
      invariant indexLeft > 0 ==> boundsLeft == PrefixHull(r, indexLeft - 1)
      invariant indexLeft > 0 ==> boundsRight == SuffixHull(r, count - indexLeft)
      invariant forall k :: 0 <= k < indexLeft ==> areaLeft[k] == SurfaceArea(PrefixHull(r, k))
      invariant forall k :: count - indexLeft <= k < count ==> areaRight[k] == SurfaceArea(SuffixHull(r, k))
    {
      var indexRight := count - indexLeft - 1;
      if indexLeft == 0 {
        boundsLeft := BoxOf(r[indexLeft]);
        boundsRight := BoxOf(r[indexRight]);
      } else {
        boundsLeft := Union(boundsLeft, BoxOf(r[indexLeft]));
        boundsRight := Union(boundsRight, BoxOf(r[indexRight]));
      }
      areaLeft := areaLeft[indexLeft := SurfaceArea(boundsLeft)];
      areaRight := areaRight[indexRight := SurfaceArea(boundsRight)];
      indexLeft := indexLeft + 1;
    }
  }

  /** Cost of cutting before offset `m`, from the swept areas. */
  function CutCostAt(areaLeft: seq<real>, areaRight: seq<real>, m: nat): real
    requires 0 < m < |areaLeft| == |areaRight|
  {
    CutCost(areaLeft[m - 1], m, areaRight[m], |areaRight| - m)
  }

  /**
   * The scan over cut positions: the first position whose cost is strictly
   * below every earlier one and not above any later one.
   */
  method CheapestCut(areaLeft: seq<real>, areaRight: seq<real>) returns (best: nat, cost: real)
    requires 2 <= |areaLeft| == |areaRight|
    ensures 0 < best < |areaLeft| && cost == CutCostAt(areaLeft, areaRight, best)
    ensures forall m :: 0 < m < |areaLeft| ==> cost <= CutCostAt(areaLeft, areaRight, m)
    ensures forall m :: 0 < m < best ==> cost < CutCostAt(areaLeft, areaRight, m)
  {
    var count := |areaLeft|;
    var bestCost: Option<real> := None;
    best := 0;
    var mid := 1;
    while mid < count
      invariant 1 <= mid <= count
      invariant bestCost.Some? <==> mid > 1
      invariant bestCost.Some? ==> 0 < best < mid && bestCost.value == CutCostAt(areaLeft, areaRight, best)
      invariant bestCost.Some? ==> forall m :: 0 < m < mid ==> bestCost.value <= CutCostAt(areaLeft, areaRight, m)
      invariant bestCost.Some? ==> forall m :: 0 < m < best ==> bestCost.value < CutCostAt(areaLeft, areaRight, m)
    {
      var c := CutCost(areaLeft[mid - 1], mid, areaRight[mid], count - mid);
      if bestCost.None? || c < bestCost.value {
        best := mid;
        bestCost := Some(c);
      }
      mid := mid + 1;
    }
    cost := bestCost.value;
  }

  /**
   * The sweep over one sorted run followed by the scan for the first cut
   * position of least cost.
   */
  method EvaluateAxis(r: seq<TempNode>) returns (best: nat, cost: real)
    requires |r| >= 2
    ensures 0 < best < |r| && cost == SplitCost(r, best)
    ensures forall m :: 0 < m < |r| ==> cost <= SplitCost(r, m)
    ensures forall m :: 0 < m < best ==> cost < SplitCost(r, m)
    ensures cost == MinSplitCost(r)
  {
    var areaLeft, areaRight := SweepAreas(r);
    best, cost := CheapestCut(areaLeft, areaRight);
    forall m | 0 < m < |r| ensures CutCostAt(areaLeft, areaRight, m) == SplitCost(r, m) {
      PrefixHullIsHull(r, m - 1);
      SuffixHullIsHull(r, m);
      assert r[..m - 1 + 1] == r[..m];
    }
    MinSplitCostUnique(r, best, cost);
  }

  /** Index of the first largest extent, as a maximum-element search returns it. */
  function MajorAxis(bounds: Box3): (axis: nat)
    ensures axis < 3
    ensures forall a :: 0 <= a < 3 ==> Coord(Sub(bounds.hi, bounds.lo), a) <= Coord(Sub(bounds.hi, bounds.lo), axis)
    ensures forall a :: 0 <= a < axis ==> Coord(Sub(bounds.hi, bounds.lo), a) < Coord(Sub(bounds.hi, bounds.lo), axis)
  {
    var d := Sub(bounds.hi, bounds.lo);
    var first := if d.x < d.y then 1 else 0;
    if Coord(d, first) < d.z then 2 else first
  }

  /**
   * The run as the surface-area branch leaves it after sorting along axes
   * 0, 1, ..., `axis` in turn, each sort starting from the previous order.
   */
  function AxisArrangement(s: seq<TempNode>, axis: nat): seq<TempNode>
    requires axis < 3
  {
    if axis == 0 then SortByCenter(s, 0) else SortByCenter(AxisArrangement(s, axis - 1), axis)
  }

  lemma AxisArrangementPermutes(s: seq<TempNode>, axis: nat)
    requires axis < 3
    ensures multiset(AxisArrangement(s, axis)) == multiset(s)
    ensures |AxisArrangement(s, axis)| == |s|
  {
    if axis > 0 {
      AxisArrangementPermutes(s, axis - 1);
      SortByCenterSorts(AxisArrangement(s, axis - 1), axis);
    } else {
      SortByCenterSorts(s, 0);
    }
    assert |multiset(AxisArrangement(s, axis))| == |multiset(s)|;
  }

  /** The least cut cost of the run sorted along axes 0..axis. */
  ghost function AxisCost(input: seq<TempNode>, axis: nat): real
    requires |input| >= 2 && axis < 3
  {
    AxisArrangementPermutes(input, axis);
    MinSplitCost(AxisArrangement(input, axis))
  }

  /** `m` is the first cut of least cost on the run sorted along axes 0..axis. */
  ghost predicate FirstCheapestCut(input: seq<TempNode>, axis: nat, m: nat)
    requires axis < 3
  {
    AxisArrangementPermutes(input, axis);
    var r := AxisArrangement(input, axis);
    && 0 < m < |r|
    && SplitCost(r, m) == MinSplitCost(r)
    && forall k :: 0 < k < m ==> MinSplitCost(r) < SplitCost(r, k)
  }

  /** `costs[i]` is the first least element of `costs`. */
  ghost predicate FirstMinimum(costs: seq<real>, i: nat)
  {
    && i < |costs|
    && (forall a :: 0 <= a < |costs| ==> costs[i] <= costs[a])
    && (forall a :: 0 <= a < i ==> costs[i] < costs[a])
  }

  /** Appending a cost keeps the first minimum unless the new cost is strictly smaller. */
  lemma FirstMinimumSnoc(costs: seq<real>, i: nat, c: real)
    requires FirstMinimum(costs, i)
    ensures FirstMinimum(costs + [c], if c < costs[i] then |costs| else i)
  {
  }

  /** Axes 0..|costs|-1 have been evaluated: their least costs and first cheapest cuts. */
  ghost predicate AxesEvaluated(input: seq<TempNode>, costs: seq<real>, cuts: seq<nat>)
    requires |input| >= 2
  {
    && |costs| == |cuts| <= 3
    && forall a :: 0 <= a < |costs| ==> costs[a] == AxisCost(input, a) && FirstCheapestCut(input, a, cuts[a])
  }

  lemma AxesEvaluatedSnoc(input: seq<TempNode>, costs: seq<real>, cuts: seq<nat>, c: real, m: nat)
    requires |input| >= 2 && AxesEvaluated(input, costs, cuts) && |costs| < 3
    requires c == AxisCost(input, |costs|) && FirstCheapestCut(input, |costs|, m)
    ensures AxesEvaluated(input, costs + [c], cuts + [m])
  {
    var costs', cuts' := costs + [c], cuts + [m];
    forall a | 0 <= a < |costs'|
      ensures costs'[a] == AxisCost(input, a) && FirstCheapestCut(input, a, cuts'[a])
    {
      if a < |costs| {
        assert costs'[a] == costs[a] && cuts'[a] == cuts[a];
      }
    }
  }

  /** No axis is cheaper than `axis`, and every earlier axis is dearer. */
  ghost predicate FirstCheapestAxis(input: seq<TempNode>, axis: nat)
    requires |input| >= 2 && axis < 3
  {
    forall a :: 0 <= a < 3 ==>
      AxisCost(input, axis) <= AxisCost(input, a) && (a < axis ==> AxisCost(input, axis) < AxisCost(input, a))
  }

  /** Once all three axes are evaluated, the first cheapest one carries the chosen cut. */
  lemma BestAxisChosen(input: seq<TempNode>, costs: seq<real>, cuts: seq<nat>, best: nat)
    requires |input| >= 2 && AxesEvaluated(input, costs, cuts) && |costs| == 3
    requires FirstMinimum(costs, best)
    ensures best < 3 && FirstCheapestCut(input, best, cuts[best])
    ensures FirstCheapestAxis(input, best)
  {
  }

  /**
   * One pass of the surface-area loop: sort the run along `axis`, starting
   * from the order the previous pass left, and find its first cheapest cut.
   */
  method ArrangeAndEvaluate(run: seq<TempNode>, axis: nat, ghost input: seq<TempNode>)
    returns (run': seq<TempNode>, best: nat, cost: real)
    requires |run| >= 2 && axis < 3
    requires run == if axis == 0 then input else AxisArrangement(input, axis - 1)
    ensures run' == AxisArrangement(input, axis)
    ensures |input| >= 2 && cost == AxisCost(input, axis)
    ensures FirstCheapestCut(input, axis, best)
  {
    run' := SortByCenter(run, axis);
    AxisArrangementPermutes(input, axis);
    best, cost := EvaluateAxis(run');
  }

  /**
   * The loop of the surface-area branch: sort the run along each axis in
   * turn and remember the first cheapest cut of the first cheapest axis.
   */
  method CheapestAxis(run: seq<TempNode>)
    returns (run': seq<TempNode>, bestAxis: nat, bestCut: nat)
    requires |run| >= 2
    ensures |run'| == |run| && run' == AxisArrangement(run, 2)
    ensures bestAxis < 3 && 0 < bestCut < |run|
    ensures FirstCheapestCut(run, bestAxis, bestCut)
    ensures FirstCheapestAxis(run, bestAxis)
  {
    ghost var minCosts: seq<real> := [];
    ghost var cuts: seq<nat> := [];
    bestAxis := 0;
    bestCut := 0;
    var globalBestCost: Option<real> := None;
    run' := run;
    var ax := 0;
    while ax < 3
      invariant 0 <= ax <= 3 && |minCosts| == ax
      invariant run' == if ax == 0 then run else AxisArrangement(run, ax - 1)
      invariant AxesEvaluated(run, minCosts, cuts)
      invariant globalBestCost.Some? <==> ax > 0
      invariant globalBestCost.Some? ==> bestAxis < ax && 0 < bestCut < |run|
      invariant globalBestCost.Some? ==> globalBestCost.value == minCosts[bestAxis]
      invariant globalBestCost.Some? ==> bestCut == cuts[bestAxis]
      invariant globalBestCost.Some? ==> FirstMinimum(minCosts, bestAxis)
    {
      AxisArrangementPermutes(run, ax);
      var best, cost;
      run', best, cost := ArrangeAndEvaluate(run', ax, run);
      AxesEvaluatedSnoc(run, minCosts, cuts, cost, best);
      if ax > 0 {
        FirstMinimumSnoc(minCosts, bestAxis, cost);
      }
      minCosts := minCosts + [cost];
      cuts := cuts + [best];
      if globalBestCost.None? || cost < globalBestCost.value {
        bestCut := best;
        globalBestCost := Some(cost);
        bestAxis := ax;
      }
      ghost var arranged := run';
      ax := ax + 1;
      assert AxisArrangement(run, ax - 1) == arranged;
    }
    BestAxisChosen(run, minCosts, cuts, bestAxis);
    AxisArrangementPermutes(run, 2);
  }

  /**
   * The surface-area branch: the cheapest axis and cut as CheapestAxis
   * finds them, then the range sorted along that axis once more.
   */
  method SahSplit(nodes: seq<TempNode>, b: nat, e: nat)
    returns (nodes': seq<TempNode>, mid: nat, ghost axis: nat)
    requires b + 2 <= e <= |nodes|
    ensures |nodes'| == |nodes|
    ensures nodes'[..b] == nodes[..b] && nodes'[e..] == nodes[e..]
    ensures b < mid < e && axis < 3
    ensures nodes'[b..e] == SortByCenter(AxisArrangement(nodes[b..e], 2), axis)
    ensures multiset(nodes'[b..e]) == multiset(nodes[b..e]) && SortedByCenter(nodes'[b..e], axis)
    ensures FirstCheapestCut(nodes[b..e], axis, mid - b)
    ensures FirstCheapestAxis(nodes[b..e], axis)
  {
    var run, bestAxis, bestCut := CheapestAxis(nodes[b..e]);
    var arranged := nodes[..b] + run + nodes[e..];
    assert arranged[..b] == nodes[..b] && arranged[e..] == nodes[e..] && arranged[b..e] == run;
    nodes' := SortRange(arranged, b, e, bestAxis);
    mid := b + bestCut;
    axis := bestAxis;
    assert mid - b == bestCut;
    AxisArrangementPermutes(nodes[b..e], 2);
    SortByCenterSorts(AxisArrangement(nodes[b..e], 2), axis);
  }

  /**
   * The midpoint rule's cut at `mid` in `nodes[b..e]`: every node after the
   * first and before the cut has its centre below the middle of `bounds`
   * along `axis`, and the cut node reaches it unless it is the last one.
   */
  ghost predicate MidpointCut(nodes: seq<TempNode>, b: nat, mid: nat, e: nat, axis: nat, bounds: Box3)
    requires b < mid < e <= |nodes| && axis < 3
  {
    && (forall j :: b < j < mid ==> Key(nodes[j], axis) < (Coord(bounds.lo, axis) + Coord(bounds.hi, axis)) * 0.5)
    && (mid == e - 1 || Key(nodes[mid], axis) >= (Coord(bounds.lo, axis) + Coord(bounds.hi, axis)) * 0.5)
  }

  /**
   * The branch for very large ranges: sort along the longest extent and cut
   * at the first node (after the first) whose centre reaches the middle of
   * that extent, or before the last node if none does.
   */
  method MidpointSplit(nodes: seq<TempNode>, b: nat, e: nat, bounds: Box3)
    returns (nodes': seq<TempNode>, mid: nat, ghost axis: nat)
    requires b + 2 <= e <= |nodes|
    ensures |nodes'| == |nodes|
    ensures nodes'[..b] == nodes[..b] && nodes'[e..] == nodes[e..]
    ensures b < mid < e && axis == MajorAxis(bounds)
    ensures nodes'[b..e] == SortByCenter(nodes[b..e], axis)
    ensures multiset(nodes'[b..e]) == multiset(nodes[b..e]) && SortedByCenter(nodes'[b..e], axis)
    ensures MidpointCut(nodes', b, mid, e, axis, bounds)
  {
    var majorAxis := MajorAxis(bounds);
    nodes' := SortRange(nodes, b, e, majorAxis);
    axis := majorAxis;
    var splitPos := (Coord(bounds.lo, majorAxis) + Coord(bounds.hi, majorAxis)) * 0.5;
    mid := b + 1;
    while mid < e && Key(nodes'[mid], majorAxis) < splitPos
      invariant b < mid <= e
      invariant forall j :: b < j < mid ==> Key(nodes'[j], majorAxis) < splitPos
    {
      mid := mid + 1;
    }
    if mid == e {
      mid := e - 1;
    }
    SortByCenterSorts(nodes[b..e], axis);
  }

  /**
   * Chooses where to cut `nodes[b..e]` and leaves that range a permutation
   * of itself sorted along the chosen axis; nothing outside it changes and
   * both halves of the cut are non-empty. Up to SahLimit nodes the cut is
   * the first cheapest one of the first cheapest axis; above it, the first
   * node after the first whose centre reaches the middle of the longest
   * extent, or the last node.
   */
  method Split(nodes: seq<TempNode>, b: nat, e: nat, bounds: Box3)
    returns (nodes': seq<TempNode>, mid: nat, ghost axis: nat)
    requires b + 2 <= e <= |nodes|
    ensures |nodes'| == |nodes|
    ensures nodes'[..b] == nodes[..b] && nodes'[e..] == nodes[e..]
    ensures multiset(nodes'[b..e]) == multiset(nodes[b..e])
    ensures b < mid < e && axis < 3 && SortedByCenter(nodes'[b..e], axis)
    ensures e - b <= SahLimit ==> nodes'[b..e] == SortByCenter(AxisArrangement(nodes[b..e], 2), axis)
    ensures e - b > SahLimit ==> axis == MajorAxis(bounds) && nodes'[b..e] == SortByCenter(nodes[b..e], axis)
    ensures e - b <= SahLimit ==> FirstCheapestCut(nodes[b..e], axis, mid - b) && FirstCheapestAxis(nodes[b..e], axis)
    ensures e - b > SahLimit ==> MidpointCut(nodes', b, mid, e, axis, bounds)
  {
    if e - b <= SahLimit {
      nodes', mid, axis := SahSplit(nodes, b, e);
    } else {
      nodes', mid, axis := MidpointSplit(nodes, b, e, bounds);
    }
  }
}
