/**
 * The depth-first numbering of the built tree (Source/BVHBuilder.cpp:221-243):
 * each node gets its position in a pre-order walk as `visitOrder`, and as
 * `next` the node the walk reaches once it skips the node's whole subtree.
 */
module BVHOrder {
  import opened BVHNodes
  import opened BVHGeometry
  import opened BVHTree

  /**
   * The traversal fields of the slots of `t` hold a pre-order walk started
   * at `order`, where `nextId` follows the whole subtree: the root comes
   * first, its left subtree is followed by its right sibling and the right
   * subtree by whatever follows the root.
   */
  ghost predicate Ordered(nodes: seq<TempNode>, t: Tree, nextId: nat, order: nat)
  {
    && t.id < |nodes|
    && nodes[t.id].visitOrder == order && nodes[t.id].next == nextId
    && match t
       case Leaf(_) => true
       case Node(_, l, r) =>
         Ordered(nodes, l, r.id, order + 1) && Ordered(nodes, r, nextId, order + 1 + Size(l))
  }

  /** Ordered reads only the traversal fields of the tree's own slots. */
  lemma {:induction false} OrderedFrame(nodes: seq<TempNode>, nodes': seq<TempNode>, t: Tree, nextId: nat, order: nat)
    requires Ordered(nodes, t, nextId, order)
    requires forall j :: j in Ids(t) ==> j < |nodes| && j < |nodes'| && nodes'[j] == nodes[j]
    ensures Ordered(nodes', t, nextId, order)
  {
    RootInIds(t);
    match t
    case Leaf(_) =>
    case Node(_, l, r) =>
      OrderedFrame(nodes, nodes', l, r.id, order + 1);
      OrderedFrame(nodes, nodes', r, nextId, order + 1 + Size(l));
  }

  /** A slot keeps its place in the tree when only its traversal fields change. */
  predicate SameLinks(a: TempNode, c: TempNode)
  {
    Skeleton(a) == Skeleton(c) && a.parent == c.parent
  }

  /**
   * `after` differs from `before` only in the traversal fields of the
   * slots in `ids`.
   */
  ghost predicate Renumbered(before: seq<TempNode>, after: seq<TempNode>, ids: set<nat>)
  {
    && |after| == |before|
    && (forall j :: 0 <= j < |before| && j !in ids ==> after[j] == before[j])
    && (forall j :: 0 <= j < |before| ==> SameLinks(after[j], before[j]))
  }

  /**
   * The recursive setDepthFirstVisitOrder: numbers the subtree rooted at
   * nodeId from `order` on, gives the root `nextId` as its skip target and
   * returns the order after the subtree. Only the traversal fields of the
   * subtree's slots change.
   */
  method SetSubtreeVisitOrder(nodes: seq<TempNode>, nodeId: nat, nextId: nat, order: nat, ghost t: Tree)
    returns (nodes': seq<TempNode>, order': nat)
    requires WF(nodes, t) && t.id == nodeId && |nodes| <= InvalidMask
    ensures order' == order + Size(t)
    ensures Ordered(nodes', t, nextId, order)
    ensures Renumbered(nodes, nodes', Ids(t))
    decreases t, 1
  {
    WFIdsInArena(nodes, t);
    RootInIds(t);
    var node := nodes[nodeId];
    nodes' := nodes[nodeId := node.(visitOrder := order, next := nextId)];
    order' := order + 1;
    ghost var n1 := nodes';
    StampKeepsShape(nodes, n1, t);
    nodes', order' := VisitChildren(nodes', nodeId, nextId, order', t);
    RenumberedTrans(nodes, n1, nodes', Ids(t), Ids(t));
  }

  /** Stamping the root's traversal fields keeps the tree well formed. */
  lemma StampKeepsShape(nodes: seq<TempNode>, nodes': seq<TempNode>, t: Tree)
    requires WF(nodes, t) && |nodes'| == |nodes| && t.id < |nodes|
    requires forall j :: 0 <= j < |nodes| && j != t.id ==> nodes'[j] == nodes[j]
    requires SameLinks(nodes'[t.id], nodes[t.id])
    ensures WF(nodes', t) && Renumbered(nodes, nodes', Ids(t))
  {
    RootInIds(t);
    WFIdsInArena(nodes, t);
    WFFrame(nodes, nodes', t);
  }

  lemma RenumberedTrans(n0: seq<TempNode>, n1: seq<TempNode>, n2: seq<TempNode>, a: set<nat>, b: set<nat>)
    requires Renumbered(n0, n1, a) && Renumbered(n1, n2, b)
    ensures Renumbered(n0, n2, a + b)
  {
  }

  /**
   * The two recursive calls of setDepthFirstVisitOrder, once the root of
   * `t` holds order-1 and nextId: the left subtree is numbered from
   * `order` with the right child as its skip target, then the right
   * subtree with nextId.
   */
  method VisitChildren(nodes: seq<TempNode>, nodeId: nat, nextId: nat, order: nat, ghost t: Tree)
    returns (nodes': seq<TempNode>, order': nat)
    requires WF(nodes, t) && t.id == nodeId && |nodes| <= InvalidMask && order >= 1
    requires nodes[nodeId].visitOrder == order - 1 && nodes[nodeId].next == nextId
    ensures order' == order - 1 + Size(t)
    ensures Ordered(nodes', t, nextId, order - 1)
    ensures Renumbered(nodes, nodes', Ids(t))
    decreases t, 0
  {
    nodes', order' := nodes, order;
    if t.Leaf? {
      assert LeafShaped(nodes[nodeId]);
    } else {
      RootInIds(t.left);
      RootInIds(t.right);
    }
    if nodes'[nodeId].left != InvalidMask {
      nodes', order' := SetSubtreeVisitOrder(nodes', nodes'[nodeId].left, nodes'[nodeId].right, order', t.left);
      ChildFrame(nodes, nodes', t, t.left);
    }
    ghost var n1 := nodes';
    if nodes'[nodeId].right != InvalidMask {
      nodes', order' := SetSubtreeVisitOrder(nodes', nodes'[nodeId].right, nextId, order', t.right);
      ChildrenOrdered(nodes, n1, nodes', t, nextId, order - 1);
    }
  }

  /**
   * Renumbering one child's subtree leaves the root's slot, and the whole
   * of the other child's subtree, as they were; the tree stays well formed.
   */
  lemma ChildFrame(nodes: seq<TempNode>, nodes': seq<TempNode>, t: Tree, c: Tree)
    requires WF(nodes, t) && t.Node? && (c == t.left || c == t.right)
    requires Renumbered(nodes, nodes', Ids(c))
    ensures WF(nodes', t)
    ensures t.id < |nodes| && nodes'[t.id] == nodes[t.id]
    ensures forall j :: j in Ids(t) && j !in Ids(c) ==> j < |nodes| && nodes'[j] == nodes[j]
  {
    WFIdsInArena(nodes, t);
    WFFrame(nodes, nodes', t);
    RootInIds(t);
  }

  /** Numbering the left subtree and then the right one numbers the whole tree. */
  lemma ChildrenOrdered(n0: seq<TempNode>, n1: seq<TempNode>, n2: seq<TempNode>, t: Tree, nextId: nat, order: nat)
    requires WF(n0, t) && t.Node?
    requires n0[t.id].visitOrder == order && n0[t.id].next == nextId
    requires Ordered(n1, t.left, t.right.id, order + 1) && Renumbered(n0, n1, Ids(t.left))
    requires Ordered(n2, t.right, nextId, order + 1 + Size(t.left)) && Renumbered(n1, n2, Ids(t.right))
    ensures Ordered(n2, t, nextId, order) && Renumbered(n0, n2, Ids(t))
  {
    RootInIds(t);
    WFIdsInArena(n0, t);
    OrderedFrame(n1, n2, t.left, t.right.id, order + 1);
    RenumberedTrans(n0, n1, n2, Ids(t.left), Ids(t.right));
  }

  /** setDepthFirstVisitOrder(nodes, root): numbers the whole tree from 0 with no node after it. */
  method SetDepthFirstVisitOrder(nodes: seq<TempNode>, root: nat, ghost t: Tree) returns (nodes': seq<TempNode>)
    requires WF(nodes, t) && t.id == root && |nodes| <= InvalidMask
    ensures Ordered(nodes', t, InvalidMask, 0) && Renumbered(nodes, nodes', Ids(t))
  {
    var order := 0;
    nodes', order := SetSubtreeVisitOrder(nodes, root, InvalidMask, order, t);
  }

  /**
   * The walk Ordered describes is the pre-order walk: the root of the
   * subtree at position k is numbered order + k, and its skip target is
   * the root of the subtree at the first position after its own subtree,
   * or nextId when that subtree runs to the end.
   */
  lemma {:induction false} OrderedAt(nodes: seq<TempNode>, t: Tree, nextId: nat, order: nat, k: nat)
    requires Ordered(nodes, t, nextId, order) && k < Size(t)
    ensures At(t, k).id < |nodes| && nodes[At(t, k).id].visitOrder == order + k
    ensures k + Size(At(t, k)) <= Size(t)
    ensures nodes[At(t, k).id].next ==
      if k + Size(At(t, k)) < Size(t) then At(t, k + Size(At(t, k))).id else nextId
  {
    AtChildren(t, k);
    match t
    case Leaf(_) =>
    case Node(i, l, r) =>
      if k == 0 {
      } else if k <= Size(l) {
        OrderedAt(nodes, l, r.id, order + 1, k - 1);
        if k + Size(At(t, k)) == 1 + Size(l) {
          assert At(t, 1 + Size(l)) == At(r, 0);
        }
      } else {
        OrderedAt(nodes, r, nextId, order + 1 + Size(l), k - 1 - Size(l));
      }
  }

  /**
   * With the whole arena in the tree, the visit orders number the slots
   * 0..|nodes|-1 without repetition: slot j gets the position of the
   * subtree it roots.
   */
  lemma VisitOrderPermutes(nodes: seq<TempNode>, t: Tree)
    requires WF(nodes, t) && Ordered(nodes, t, InvalidMask, 0)
    requires Ids(t) == Span(0, |nodes|)
    ensures Size(t) == |nodes|
    ensures forall j :: 0 <= j < |nodes| ==> nodes[j].visitOrder < |nodes| && At(t, nodes[j].visitOrder).id == j
    ensures forall i, j :: 0 <= i < j < |nodes| ==> nodes[i].visitOrder != nodes[j].visitOrder
  {
    assert Size(t) == |nodes| by {
      SpanSize(0, |nodes|);
      IdsCount(nodes, t);
    }
    forall j | 0 <= j < |nodes| ensures nodes[j].visitOrder < |nodes| && At(t, nodes[j].visitOrder).id == j {
      VisitOrderOf(nodes, t, j);
    }
  }

  /** Slot j of the tree is numbered with the position of the subtree it roots. */
  lemma VisitOrderOf(nodes: seq<TempNode>, t: Tree, j: nat)
    requires Ordered(nodes, t, InvalidMask, 0) && j in Ids(t)
    ensures j < |nodes| && nodes[j].visitOrder < Size(t) && At(t, nodes[j].visitOrder).id == j
  {
    AtCovers(t, j);
    var k :| 0 <= k < Size(t) && At(t, k).id == j;
    OrderedAt(nodes, t, InvalidMask, 0, k);
  }

  /** A well-formed tree has as many distinct ids as nodes. */
  lemma {:induction false} IdsCount(nodes: seq<TempNode>, t: Tree)
    requires WF(nodes, t)
    ensures |Ids(t)| == Size(t)
  {
    match t
    case Leaf(i) =>
      assert Ids(t) == {i};
    case Node(i, l, r) =>
      assert WF(nodes, l) && WF(nodes, r);
      assert i !in Ids(l) && i !in Ids(r) && Ids(l) !! Ids(r);
      IdsCount(nodes, l);
      IdsCount(nodes, r);
      var a, b := Ids(l), Ids(r);
      DisjointUnionSize(a, b);
      IdsNode(t);
      DisjointUnionSize(a + b, {i});
  }

  lemma IdsNode(t: Tree)
    requires t.Node?
    ensures Ids(t) == (Ids(t.left) + Ids(t.right)) + {t.id}
  {
  }

  lemma DisjointUnionSize(a: set<nat>, b: set<nat>)
    requires a !! b
    ensures |a + b| == |a| + |b|
  {
    assert a * b == {};
  }
}
