/**
 * The tree's data model (k-nn.hpp:28-48). Nodes live in an arena, a
 * sequence in creation order; a child pointer (`unique_ptr<Node>`) becomes
 * the arena position of the child, and a job's `Node *` the position of the
 * node it will fill. Node 0 is the root.
 */
module Nodes {
  import opened Common
  import opened Points

  /**
   * `struct Node`: its depth, the index of its pivot point and its children.
   * `index` is `None` until the node's job has run (the field is left
   * uninitialised by both constructors of the source).
   */
  datatype Node = Node(level: nat, index: Option<nat>, left: Option<nat>, right: Option<nat>)

  /** `struct Job`: the node to fill and the point indices of its subtree. */
  datatype Job = Job(node: nat, indices: seq<nat>)

  datatype Side = Left | Right

  function Child(n: Node, side: Side): Option<nat>
  {
    if side == Left then n.left else n.right
  }

  function WithChild(n: Node, side: Side, c: nat): Node
  {
    if side == Left then n.(left := Some(c)) else n.(right := Some(c))
  }

  predicate IsLeaf(n: Node)
  {
    n.left.None? && n.right.None?
  }

  predicate ChildAfter(nodes: seq<Node>, i: nat, c: Option<nat>)
  {
    c.Some? ==> i < c.value < |nodes|
  }

  /** Every child lies in the arena after its parent (so the links form no cycle). */
  predicate Shaped(nodes: seq<Node>)
  {
    forall i :: 0 <= i < |nodes| ==> ChildAfter(nodes, i, nodes[i].left) && ChildAfter(nodes, i, nodes[i].right)
  }

  /** Every node carries the index of a point of `pts`. */
  predicate Assigned(pts: seq<seq<int>>, nodes: seq<Node>)
  {
    forall i :: 0 <= i < |nodes| ==> nodes[i].index.Some? && nodes[i].index.value < |pts|
  }

  /** The arena positions of the subtree rooted at `n`. */
  ghost function Subtree(nodes: seq<Node>, n: nat): set<nat>
    requires Shaped(nodes) && n < |nodes|
    decreases |nodes| - n
  {
    {n}
      + (match nodes[n].left case None => {} case Some(l) => Subtree(nodes, l))
      + (match nodes[n].right case None => {} case Some(r) => Subtree(nodes, r))
  }

  lemma {:induction false} SubtreeBounds(nodes: seq<Node>, n: nat, m: nat)
    requires Shaped(nodes) && n < |nodes| && m in Subtree(nodes, n)
    ensures n <= m < |nodes|
    decreases |nodes| - n
  {
    if m != n {
      match nodes[n].left {
        case None =>
        case Some(l) => if m in Subtree(nodes, l) { SubtreeBounds(nodes, l, m); }
      }
      match nodes[n].right {
        case None =>
        case Some(r) => if m in Subtree(nodes, r) { SubtreeBounds(nodes, r, m); }
      }
    }
  }

  /** A node's subtree holds the subtrees of its children, which lie after it. */
  lemma SubtreeChild(nodes: seq<Node>, n: nat, c: Option<nat>)
    requires Shaped(nodes) && n < |nodes| && (c == nodes[n].left || c == nodes[n].right)
    ensures c.Some? ==> n < c.value < |nodes| && Subtree(nodes, c.value) <= Subtree(nodes, n)
  {
  }

  /** The subtree of an optional child: empty when there is none. */
  ghost function SubtreeOf(nodes: seq<Node>, c: Option<nat>): set<nat>
    requires Shaped(nodes) && (c.Some? ==> c.value < |nodes|)
  {
    match c case None => {} case Some(x) => Subtree(nodes, x)
  }

  /** A subtree is its root and the subtrees of its two children. */
  lemma SubtreeSplit(nodes: seq<Node>, n: nat)
    requires Shaped(nodes) && n < |nodes|
    ensures Subtree(nodes, n) == {n} + SubtreeOf(nodes, nodes[n].left) + SubtreeOf(nodes, nodes[n].right)
  {
  }

  /** A subtree contains the subtrees of all its nodes. */
  lemma {:induction false} SubtreeTransitive(nodes: seq<Node>, n: nat, p: nat, m: nat)
    requires Shaped(nodes) && n < |nodes| && p in Subtree(nodes, n)
    requires p < |nodes| && m in Subtree(nodes, p)
    ensures m in Subtree(nodes, n)
    decreases |nodes| - n
  {
    if p != n {
      match nodes[n].left {
        case None =>
        case Some(l) => if p in Subtree(nodes, l) { SubtreeTransitive(nodes, l, p, m); }
      }
      match nodes[n].right {
        case None =>
        case Some(r) => if p in Subtree(nodes, r) { SubtreeTransitive(nodes, r, p, m); }
      }
    }
  }

  /** The pivots assigned so far, in arena order. */
  function Pivots(nodes: seq<Node>): seq<nat>
  {
    if nodes == [] then []
    else
      Pivots(nodes[..|nodes| - 1]) + IndexSeq(nodes[|nodes| - 1])
  }

  function IndexSeq(n: Node): seq<nat>
  {
    match n.index case None => [] case Some(x) => [x]
  }

  function IndexBag(n: Node): multiset<nat>
  {
    multiset(IndexSeq(n))
  }

  /** Replacing one node changes the pivot bag by that node's pivot only. */
  lemma PivotsUpdate(nodes: seq<Node>, i: nat, v: Node)
    requires i < |nodes|
    ensures multiset(Pivots(nodes[i := v])) + IndexBag(nodes[i]) == multiset(Pivots(nodes)) + IndexBag(v)
  {
    PivotsUpdateCounts(nodes, i, v);
    BagExt(multiset(Pivots(nodes[i := v])) + IndexBag(nodes[i]), multiset(Pivots(nodes)) + IndexBag(v));
  }

  lemma PivotsUpdateCounts(nodes: seq<Node>, i: nat, v: Node)
    requires i < |nodes|
    ensures forall y :: multiset(Pivots(nodes[i := v]))[y] + IndexBag(nodes[i])[y]
                          == multiset(Pivots(nodes))[y] + IndexBag(v)[y]
  {
    forall y {
      PivotsUpdateAt(nodes, i, v, y);
    }
  }

  /** The count of one pivot value `y` under the replacement of node `i`. */
  lemma {:induction false} PivotsUpdateAt(nodes: seq<Node>, i: nat, v: Node, y: nat)
    requires i < |nodes|
    ensures multiset(Pivots(nodes[i := v]))[y] + IndexBag(nodes[i])[y]
              == multiset(Pivots(nodes))[y] + IndexBag(v)[y]
  {
    var last := |nodes| - 1;
    var init := nodes[..last];
    var upd := nodes[i := v];
    UpdateFront(nodes, i, v);
    assert Pivots(nodes) == Pivots(init) + IndexSeq(nodes[last]);
    assert multiset(Pivots(nodes))[y] == multiset(Pivots(init))[y] + IndexBag(nodes[last])[y];
    if i == last {
      assert upd[..last] == init && upd[last] == v;
      assert Pivots(upd) == Pivots(init) + IndexSeq(v);
      assert multiset(Pivots(upd))[y] == multiset(Pivots(init))[y] + IndexBag(v)[y];
    } else {
      PivotsUpdateAt(init, i, v, y);
      assert init[i] == nodes[i];
      assert upd[..last] == init[i := v] && upd[last] == nodes[last];
      assert Pivots(upd) == Pivots(init[i := v]) + IndexSeq(nodes[last]);
      assert multiset(Pivots(upd))[y] == multiset(Pivots(init[i := v]))[y] + IndexBag(nodes[last])[y];
    }
  }

  lemma PivotsAppend(nodes: seq<Node>, v: Node)
    ensures multiset(Pivots(nodes + [v])) == multiset(Pivots(nodes)) + IndexBag(v)
  {
    assert (nodes + [v])[..|nodes|] == nodes;
  }

  /** When every node has a pivot there is one pivot per node. */
  lemma {:induction false} PivotsAllAssigned(nodes: seq<Node>)
    requires forall i :: 0 <= i < |nodes| ==> nodes[i].index.Some?
    ensures |Pivots(nodes)| == |nodes|
    ensures forall i :: 0 <= i < |nodes| ==> nodes[i].index.value in Pivots(nodes)
  {
    if nodes != [] {
      var last := |nodes| - 1;
      PivotsAllAssigned(nodes[..last]);
      forall i | 0 <= i < |nodes| ensures nodes[i].index.value in Pivots(nodes) {
        if i < last {
          assert nodes[..last][i] == nodes[i];
        }
      }
    }
  }

  /** Every pivot belongs to some node. */
  lemma {:induction false} PivotsMember(nodes: seq<Node>, x: nat)
    requires x in Pivots(nodes)
    ensures exists m :: 0 <= m < |nodes| && nodes[m].index == Some(x)
  {
    var last := |nodes| - 1;
    if x in Pivots(nodes[..last]) {
      PivotsMember(nodes[..last], x);
      var m :| 0 <= m < last && nodes[..last][m].index == Some(x);
      assert nodes[m].index == Some(x);
    } else {
      assert nodes[last].index == Some(x);
    }
  }

  /** The indices still waiting in a queue of jobs, front first. */
  function Pending(jobs: seq<Job>): seq<nat>
  {
    if jobs == [] then [] else jobs[0].indices + Pending(jobs[1..])
  }

  lemma {:induction false} PendingAppend(a: seq<Job>, b: seq<Job>)
    ensures Pending(a + b) == Pending(a) + Pending(b)
  {
    if a == [] {
      assert a + b == b;
    } else {
      PendingAppend(a[1..], b);
      TailOfConcat(a, b);
      ConcatAssoc(a[0].indices, Pending(a[1..]), Pending(b));
    }
  }

  function Pivot(nodes: seq<Node>, i: nat): nat
    requires i < |nodes| && nodes[i].index.Some?
  {
    nodes[i].index.value
  }

  /** The coordinate every split compares: coordinate 0 of the node's pivot (k-nn.hpp:86, :201). */
  function SplitKey(pts: seq<seq<int>>, dims: nat, nodes: seq<Node>, i: nat): int
    requires PointStore(pts, dims) && Assigned(pts, nodes) && i < |nodes|
  {
    pts[Pivot(nodes, i)][0]
  }

  /**
   * The split at node `a`: every pivot in its left subtree lies below the
   * node's pivot on coordinate 0 and every pivot in its right subtree lies
   * at or above it.
   */
  ghost predicate SplitHolds(pts: seq<seq<int>>, dims: nat, nodes: seq<Node>, a: nat)
    requires PointStore(pts, dims) && Shaped(nodes) && Assigned(pts, nodes) && a < |nodes|
  {
    && (forall m :: m in SubtreeOf(nodes, nodes[a].left) ==>
          m < |nodes| && SplitKey(pts, dims, nodes, m) < SplitKey(pts, dims, nodes, a))
    && (forall m :: m in SubtreeOf(nodes, nodes[a].right) ==>
          m < |nodes| && SplitKey(pts, dims, nodes, m) >= SplitKey(pts, dims, nodes, a))
  }

  /** The partition property: every split holds. */
  ghost predicate Partitioned(pts: seq<seq<int>>, dims: nat, nodes: seq<Node>)
    requires PointStore(pts, dims) && Shaped(nodes) && Assigned(pts, nodes)
  {
    forall a :: 0 <= a < |nodes| ==> SplitHolds(pts, dims, nodes, a)
  }

  /** No node hangs from two places: a child link names exactly one parent and one side. */
  predicate OneParent(nodes: seq<Node>)
  {
    forall i, s, i', s' ::
      (0 <= i < |nodes| && 0 <= i' < |nodes| && Child(nodes[i], s).Some? && Child(nodes[i], s) == Child(nodes[i'], s'))
      ==> i == i' && s == s'
  }

  /**
   * A finished tree over `pts`: one node per point, every point the pivot of
   * exactly one node, every node reachable from the root and hanging from
   * one parent only, levels counting edges from the root, and the partition
   * property.
   */
  ghost predicate CompleteTree(pts: seq<seq<int>>, dims: nat, nodes: seq<Node>)
  {
    && PointStore(pts, dims)
    && |nodes| == |pts| >= 1
    && Shaped(nodes)
    && Assigned(pts, nodes)
    && multiset(Pivots(nodes)) == multiset(Range(0, |pts|))
    && nodes[0].level == 0
    && (forall i, side :: 0 <= i < |nodes| && Child(nodes[i], side).Some? ==>
          nodes[Child(nodes[i], side).value].level == nodes[i].level + 1)
    && (forall m :: 0 <= m < |nodes| ==> m in Subtree(nodes, 0))
    && OneParent(nodes)
    && (|nodes| >= 2 ==> !IsLeaf(nodes[0]))
    && Partitioned(pts, dims, nodes)
  }
}
