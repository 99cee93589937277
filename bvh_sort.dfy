/**
 * The in-place sort of a node range by box centre on one axis
 * (Source/BVHBuilder.cpp:91-95, 148-152, 161-165). The library sort is
 * unstable; this model fixes one order, and only "sorted permutation of the
 * range, nothing else touched" is relied upon.
 */
module BVHSort {
  import opened BVHNodes
  import opened BVHGeometry

  function Key(n: TempNode, axis: nat): real
    requires axis < 3
  {
    Coord(n.bboxCenter, axis)
  }

  predicate SortedByCenter(s: seq<TempNode>, axis: nat)
    requires axis < 3
  {
    forall i, j :: 0 <= i < j < |s| ==> Key(s[i], axis) <= Key(s[j], axis)
  }

  /** Places `n` in front of the first node whose centre is not below its own. */
  function Insert(n: TempNode, s: seq<TempNode>, axis: nat): (r: seq<TempNode>)
    requires axis < 3
    ensures |r| == |s| + 1
  {
    if s == [] then [n]
    else if Key(n, axis) <= Key(s[0], axis) then [n] + s
    else [s[0]] + Insert(n, s[1..], axis)
  }

  /** Inserting into a sorted run keeps it sorted and adds exactly `n`. */
  lemma {:induction false} InsertSorted(n: TempNode, s: seq<TempNode>, axis: nat)
    requires axis < 3 && SortedByCenter(s, axis)
    ensures SortedByCenter(Insert(n, s, axis), axis)
    ensures multiset(Insert(n, s, axis)) == multiset(s) + multiset{n}
    ensures Insert(n, s, axis)[0] == n || (|s| > 0 && Insert(n, s, axis)[0] == s[0])
  {
    if s != [] && Key(s[0], axis) < Key(n, axis) {
      InsertSorted(n, s[1..], axis);
      assert s == [s[0]] + s[1..];
    }
  }

  /** Sorted rearrangement of `s` by centre on `axis`. */
  function SortByCenter(s: seq<TempNode>, axis: nat): (r: seq<TempNode>)
    requires axis < 3
    ensures |r| == |s|
  {
    if s == [] then [] else Insert(s[0], SortByCenter(s[1..], axis), axis)
  }

  /** The sort yields a sorted permutation of its input. */
  lemma {:induction false} SortByCenterSorts(s: seq<TempNode>, axis: nat)
    requires axis < 3
    ensures SortedByCenter(SortByCenter(s, axis), axis)
    ensures multiset(SortByCenter(s, axis)) == multiset(s)
  {
    if s != [] {
      SortByCenterSorts(s[1..], axis);
      InsertSorted(s[0], SortByCenter(s[1..], axis), axis);
      assert s == [s[0]] + s[1..];
    }
  }

  /** Sorts `nodes[b..e]` and leaves every other slot as it was. */
  function SortRange(nodes: seq<TempNode>, b: nat, e: nat, axis: nat): (r: seq<TempNode>)
    requires b <= e <= |nodes| && axis < 3
    ensures |r| == |nodes|
    ensures r[..b] == nodes[..b] && r[e..] == nodes[e..]
    ensures r[b..e] == SortByCenter(nodes[b..e], axis)
  {
    var sorted := SortByCenter(nodes[b..e], axis);
    var r := nodes[..b] + sorted + nodes[e..];
    assert r[b..e] == sorted;
    r
  }
}
