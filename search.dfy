/**
 * The query side of the tree (k-nn.hpp:223-311) as pure functions over an
 * integer model of the coordinates: `closer_node`, the bounded candidate
 * heap of `process_query`, and the recursive search itself.
 *
 * `distance` returns `sqrt` of the sum of squared differences; every use
 * of it compares two distances, so the model keeps the squared sum
 * (`SqDist`), and the pruning test `sqrt(S) > |d|` becomes `S > d * d`.
 */
module Search {
  import opened Common
  import opened Points
  import opened Nodes

  /** A built tree as the queries see it: `coor_`, `dims_` and the node arena. */
  datatype Built = Built(pts: seq<seq<int>>, dims: nat, nodes: seq<Node>)

  predicate Searchable(t: Built)
  {
    PointStore(t.pts, t.dims) && Shaped(t.nodes) && Assigned(t.pts, t.nodes)
  }

  /** `Tree::node_val` (k-nn.hpp:223-225): the coordinates of a node's pivot. */
  function NodeVal(t: Built, n: nat): (r: seq<int>)
    requires Searchable(t) && n < |t.nodes|
    ensures |r| == t.dims
  {
    t.pts[t.nodes[n].index.value]
  }

  /** The squared distance from `target` to node `n`'s pivot. */
  function D(t: Built, target: seq<int>, n: nat): nat
    requires Searchable(t) && |target| == t.dims && n < |t.nodes|
  {
    SqDist(target, NodeVal(t, n))
  }

  predicate ValidId(t: Built, n: Option<nat>)
  {
    n.Some? ==> n.value < |t.nodes|
  }

  predicate ValidIds(t: Built, heap: seq<nat>)
  {
    forall i :: 0 <= i < |heap| ==> heap[i] < |t.nodes|
  }

  /**
   * `Tree::closer_node` (k-nn.hpp:258-265): a missing node loses to any
   * node; of two nodes the first wins only when strictly closer, so ties go
   * to the second.
   */
  function Closer(t: Built, target: seq<int>, a: Option<nat>, b: Option<nat>): (r: Option<nat>)
    requires Searchable(t) && |target| == t.dims && ValidId(t, a) && ValidId(t, b)
    ensures r == a || r == b
    ensures a.None? ==> r == b
    ensures a.Some? && b.None? ==> r == a
    ensures a.Some? && b.Some? ==>
      D(t, target, r.value) <= D(t, target, a.value) && D(t, target, r.value) <= D(t, target, b.value)
    ensures a.Some? && b.Some? && a != b ==> (r == a <==> D(t, target, a.value) < D(t, target, b.value))
  {
    if a.None? then b
    else if b.None? then a
    else if D(t, target, a.value) < D(t, target, b.value) then a
    else b
  }

  /** The heap order `comp` of k-nn.hpp:271-274 puts a farthest candidate on top. */
  predicate TopIsFarthest(t: Built, target: seq<int>, heap: seq<nat>)
    requires Searchable(t) && |target| == t.dims && ValidIds(t, heap)
  {
    |heap| >= 1 ==> forall i :: 0 <= i < |heap| ==> D(t, target, heap[i]) <= D(t, target, heap[0])
  }

  /** A position of a farthest candidate. */
  function ArgFarthest(t: Built, target: seq<int>, heap: seq<nat>): (r: nat)
    requires Searchable(t) && |target| == t.dims && ValidIds(t, heap) && |heap| >= 1
    ensures r < |heap|
    ensures forall i :: 0 <= i < |heap| ==> D(t, target, heap[i]) <= D(t, target, heap[r])
  {
    if |heap| == 1 then 0
    else
      var init := heap[..|heap| - 1];
      var m := ArgFarthest(t, target, init);
      assert forall i :: 0 <= i < |init| ==> init[i] == heap[i];
      if D(t, target, heap[|heap| - 1]) > D(t, target, heap[m]) then |heap| - 1 else m
  }

  lemma SwapMultiset(s: seq<nat>, i: nat, j: nat)
    requires i < |s| && j < |s|
    ensures multiset(s[i := s[j]][j := s[i]]) == multiset(s)
  {
    var u := s[i := s[j]];
    assert multiset(u) == multiset(s) - multiset{s[i]} + multiset{s[j]};
    assert multiset(u[j := s[i]]) == multiset(u) - multiset{u[j]} + multiset{s[i]};
  }

  /**
   * `std::make_heap` with `comp`: a rearrangement of the candidates whose
   * first element is a farthest one. Only that property of the heap order
   * is used by the search.
   */
  function MakeHeap(t: Built, target: seq<int>, heap: seq<nat>): (r: seq<nat>)
    requires Searchable(t) && |target| == t.dims && ValidIds(t, heap)
    ensures |r| == |heap| && multiset(r) == multiset(heap)
    ensures ValidIds(t, r) && TopIsFarthest(t, target, r)
  {
    if heap == [] then []
    else
      var m := ArgFarthest(t, target, heap);
      SwapMultiset(heap, 0, m);
      var r := heap[0 := heap[m]][m := heap[0]];
      assert forall i :: 0 <= i < |r| ==> r[i] == heap[0] || r[i] == heap[m] || r[i] == heap[i];
      r
  }

  /**
   * An internal node offered to the candidates (k-nn.hpp:302-304): pushed
   * while there is room, otherwise put in place of the top when it is
   * strictly closer; then the heap order is restored.
   */
  function Offer(t: Built, target: seq<int>, k: nat, heap: seq<nat>, n: nat): (r: seq<nat>)
    requires Searchable(t) && |target| == t.dims && ValidIds(t, heap) && n < |t.nodes|
    requires k >= 1 && |heap| <= k
    ensures ValidIds(t, r)
    ensures |heap| <= |r| <= k && |r| >= 1
  {
    if |heap| < k then MakeHeap(t, target, heap + [n])
    else if Closer(t, target, Some(n), Some(heap[0])) == Some(n) then MakeHeap(t, target, heap[0 := n])
    else MakeHeap(t, target, heap)
  }

  /**
   * A leaf reached by the search (k-nn.hpp:276-281): it only ever takes the
   * place of the top, and only when strictly closer; it is never pushed.
   */
  function OfferLeaf(t: Built, target: seq<int>, heap: seq<nat>, n: nat): (r: seq<nat>)
    requires Searchable(t) && |target| == t.dims && ValidIds(t, heap) && n < |t.nodes|
    requires |heap| >= 1
    ensures ValidIds(t, r) && |r| == |heap|
  {
    if Closer(t, target, Some(n), Some(heap[0])) == Some(n) then MakeHeap(t, target, heap[0 := n])
    else MakeHeap(t, target, heap)
  }

  /** After an offer the farthest candidate is on top again (the `make_heap` of k-nn.hpp:280, :304). */
  lemma OfferHeapOrder(t: Built, target: seq<int>, k: nat, heap: seq<nat>, n: nat)
    requires Searchable(t) && |target| == t.dims && ValidIds(t, heap) && n < |t.nodes|
    requires k >= 1 && |heap| <= k
    ensures TopIsFarthest(t, target, Offer(t, target, k, heap, n))
    ensures |heap| >= 1 ==> TopIsFarthest(t, target, OfferLeaf(t, target, heap, n))
  {
  }

  /**
   * What an offer does to the candidates: with room, they gain `n`; when
   * full, `n` replaces the farthest one exactly when strictly closer than
   * it; the count never exceeds `k`.
   */
  lemma OfferContents(t: Built, target: seq<int>, k: nat, heap: seq<nat>, n: nat)
    requires Searchable(t) && |target| == t.dims && ValidIds(t, heap) && n < |t.nodes|
    requires k >= 1 && |heap| <= k && TopIsFarthest(t, target, heap)
    ensures var r := Offer(t, target, k, heap, n);
      && 1 <= |r| <= k
      && (|heap| < k ==> multiset(r) == multiset(heap) + multiset{n})
      && (|heap| == k && D(t, target, n) < D(t, target, heap[0]) ==>
            multiset(r) == multiset(heap) - multiset{heap[0]} + multiset{n})
      && (|heap| == k && D(t, target, n) >= D(t, target, heap[0]) ==> multiset(r) == multiset(heap))
  {
    if |heap| == k {
      assert |heap| >= 1;
      if D(t, target, n) < D(t, target, heap[0]) {
        assert n != heap[0];
      }
    }
  }

  /**
   * The bounded-candidate invariant of an offer: whatever it discards is at
   * least as far from the target as everything it keeps.
   */
  lemma OfferDiscardsFarthest(t: Built, target: seq<int>, k: nat, heap: seq<nat>, n: nat, x: nat, y: nat)
    requires Searchable(t) && |target| == t.dims && ValidIds(t, heap) && n < |t.nodes|
    requires k >= 1 && |heap| <= k && TopIsFarthest(t, target, heap)
    requires x in multiset(heap) + multiset{n} && x !in Offer(t, target, k, heap, n)
    requires y in Offer(t, target, k, heap, n)
    ensures x < |t.nodes| && y < |t.nodes| && D(t, target, x) >= D(t, target, y)
  {
    OfferContents(t, target, k, heap, n);
    var r := Offer(t, target, k, heap, n);
    assert |heap| == k;
    assert y in multiset(r);
    if D(t, target, n) < D(t, target, heap[0]) {
      assert x == heap[0];
      assert y in multiset(heap) - multiset{heap[0]} + multiset{n};
      if y != n {
        assert y in heap;
      }
    } else {
      assert x == n;
      assert y in heap;
    }
  }

  /**
   * What a leaf does to the candidates: it replaces the farthest one
   * exactly when strictly closer than it, and the count is unchanged.
   */
  lemma OfferLeafContents(t: Built, target: seq<int>, heap: seq<nat>, n: nat)
    requires Searchable(t) && |target| == t.dims && ValidIds(t, heap) && n < |t.nodes|
    requires |heap| >= 1
    ensures var r := OfferLeaf(t, target, heap, n);
      && |r| == |heap|
      && (D(t, target, n) < D(t, target, heap[0]) ==> multiset(r) == multiset(heap) - multiset{heap[0]} + multiset{n})
      && (D(t, target, n) >= D(t, target, heap[0]) ==> multiset(r) == multiset(heap))
  {
    if D(t, target, n) < D(t, target, heap[0]) {
      assert n != heap[0];
    }
  }

  /** The same invariant for a leaf, which never grows the candidates. */
  lemma OfferLeafDiscardsFarthest(t: Built, target: seq<int>, heap: seq<nat>, n: nat, x: nat, y: nat)
    requires Searchable(t) && |target| == t.dims && ValidIds(t, heap) && n < |t.nodes|
    requires |heap| >= 1 && TopIsFarthest(t, target, heap)
    requires x in multiset(heap) + multiset{n} && x !in OfferLeaf(t, target, heap, n)
    requires y in OfferLeaf(t, target, heap, n)
    ensures x < |t.nodes| && y < |t.nodes| && D(t, target, x) >= D(t, target, y)
    ensures |OfferLeaf(t, target, heap, n)| == |heap|
  {
    OfferLeafContents(t, target, heap, n);
    var r := OfferLeaf(t, target, heap, n);
    var hb, rb := multiset(heap), multiset(r);
    assert y in rb && x !in rb;
    if D(t, target, n) < D(t, target, heap[0]) {
      assert rb == hb - multiset{heap[0]} + multiset{n};
      assert rb[n] >= 1;
      assert (hb - multiset{heap[0]})[x] == 0 && hb[x] >= 1;
      assert multiset{heap[0]}[x] >= 1;
      if y != n {
        assert y in hb;
        var i :| 0 <= i < |heap| && heap[i] == y;
      }
    } else {
      assert rb == hb;
      assert x == n;
      var i :| 0 <= i < |heap| && heap[i] == y;
    }
  }

  /**
   * The branch choice of k-nn.hpp:293-301: the near branch is the left one
   * exactly when the target lies strictly below the pivot on `dim`.
   */
  function Branches(t: Built, target: seq<int>, n: nat, dim: nat): (Option<nat>, Option<nat>)
    requires Searchable(t) && |target| == t.dims && n < |t.nodes| && dim < t.dims
  {
    if target[dim] < NodeVal(t, n)[dim] then (t.nodes[n].left, t.nodes[n].right)
    else (t.nodes[n].right, t.nodes[n].left)
  }

  /** The result of `process_query`: the best node found and the heap after the call. */
  datatype Outcome = Outcome(best: Option<nat>, heap: seq<nat>)

  /** The preconditions of `process_query` on a node: a leaf needs a candidate already in the heap. */
  predicate CanVisit(t: Built, node: Option<nat>, heap: seq<nat>)
    requires Shaped(t.nodes) && ValidId(t, node)
  {
    node.Some? && IsLeaf(t.nodes[node.value]) ==> |heap| >= 1
  }

  /**
   * The pruning test of k-nn.hpp:306-309: the best distance so far exceeds
   * the distance from the target to the splitting plane of node `n` on `dim`.
   */
  predicate Crosses(t: Built, target: seq<int>, best: nat, n: nat, dim: nat)
    requires Searchable(t) && |target| == t.dims && best < |t.nodes| && n < |t.nodes| && dim < t.dims
  {
    D(t, target, best) > Square(target[dim] - NodeVal(t, n)[dim])
  }

  /**
   * `Tree::process_query` (k-nn.hpp:268-311): nothing for a missing node;
   * a leaf is offered as a leaf; an internal node is handled by `Descend`.
   */
  function Search(t: Built, target: seq<int>, node: Option<nat>, depth: nat, k: nat, heap: seq<nat>): (r: Outcome)
    requires Searchable(t) && |target| == t.dims && ValidId(t, node) && ValidIds(t, heap)
    requires k >= 1 && |heap| <= k && CanVisit(t, node, heap)
    ensures ValidIds(t, r.heap) && |heap| <= |r.heap| <= k && ValidId(t, r.best)
    ensures node.Some? ==> |r.heap| >= 1
    ensures r.best.None? <==> node.None?
    decreases if node.Some? then |t.nodes| - node.value else 0, 2
  {
    if node.None? then Outcome(None, heap)
    else if IsLeaf(t.nodes[node.value]) then
      Outcome(node, OfferLeaf(t, target, heap, node.value))
    else
      Descend(t, target, node.value, depth, k, heap)
  }

  /**
   * The internal-node case of `process_query` (k-nn.hpp:283-305): choose the
   * branches on `depth % dims`, offer the node, search the near branch and
   * take the closer of the node and the near branch's best.
   */
  function Descend(t: Built, target: seq<int>, n: nat, depth: nat, k: nat, heap: seq<nat>): (r: Outcome)
    requires Searchable(t) && |target| == t.dims && n < |t.nodes| && !IsLeaf(t.nodes[n]) && ValidIds(t, heap)
    requires k >= 1 && |heap| <= k
    ensures ValidIds(t, r.heap) && |heap| <= |r.heap| <= k && 1 <= |r.heap|
    ensures r.best.Some? && r.best.value < |t.nodes|
    decreases |t.nodes| - n, 1
  {
    var dim := DimAt(depth, t.dims);
    var br := Branches(t, target, n, dim);
    SubtreeChild(t.nodes, n, br.0);
    var h1 := Offer(t, target, k, heap, n);
    var o1 := Search(t, target, br.0, depth + 1, k, h1);
    var best := Closer(t, target, Some(n), o1.best);
    Backtrack(t, target, n, dim, depth, k, best.value, br.1, o1.heap)
  }

  /**
   * The rest of `process_query` (k-nn.hpp:306-310): the far branch is
   * searched only when the best distance so far crosses the splitting plane.
   */
  function Backtrack(t: Built, target: seq<int>, n: nat, dim: nat, depth: nat, k: nat,
                     best: nat, oppo: Option<nat>, heap: seq<nat>): (r: Outcome)
    requires Searchable(t) && |target| == t.dims && n < |t.nodes| && dim < t.dims && best < |t.nodes|
    requires oppo == t.nodes[n].left || oppo == t.nodes[n].right
    requires ValidIds(t, heap) && k >= 1 && 1 <= |heap| <= k
    ensures ValidIds(t, r.heap) && |heap| <= |r.heap| <= k
    ensures r.best.Some? && r.best.value < |t.nodes|
    decreases |t.nodes| - n, 0
  {
    SubtreeChild(t.nodes, n, oppo);
    if Crosses(t, target, best, n, dim) then
      var o2 := Search(t, target, oppo, depth + 1, k, heap);
      Outcome(Closer(t, target, Some(best), o2.best), o2.heap)
    else
      Outcome(Some(best), heap)
  }

  // ---------------------------------------------------------------------
  // Properties of the search
  // ---------------------------------------------------------------------

  /** An offer keeps candidates drawn from the old heap and the offered node. */
  lemma OfferFrom(t: Built, target: seq<int>, k: nat, heap: seq<nat>, n: nat, x: nat)
    requires Searchable(t) && |target| == t.dims && ValidIds(t, heap) && n < |t.nodes|
    requires k >= 1 && |heap| <= k && x in Offer(t, target, k, heap, n)
    ensures x in heap || x == n
  {
    var r := Offer(t, target, k, heap, n);
    assert x in multiset(r);
    if |heap| < k {
      assert x in multiset(heap + [n]);
    } else if Closer(t, target, Some(n), Some(heap[0])) == Some(n) {
      assert x in multiset(heap[0 := n]);
      assert x in heap[0 := n];
    } else {
      assert x in multiset(heap);
    }
  }

  lemma OfferLeafFrom(t: Built, target: seq<int>, heap: seq<nat>, n: nat, x: nat)
    requires Searchable(t) && |target| == t.dims && ValidIds(t, heap) && n < |t.nodes|
    requires |heap| >= 1 && x in OfferLeaf(t, target, heap, n)
    ensures x in heap || x == n
  {
    var r := OfferLeaf(t, target, heap, n);
    assert x in multiset(r);
    if Closer(t, target, Some(n), Some(heap[0])) == Some(n) {
      assert x in multiset(heap[0 := n]);
      assert x in heap[0 := n];
    } else {
      assert x in multiset(heap);
    }
  }

  /**
   * The search stays inside its subtree: the best node lies in the subtree
   * searched, and every candidate left in the heap was in the heap before
   * or lies in that subtree.
   */
  lemma {:induction false} SearchWithin(t: Built, target: seq<int>, node: Option<nat>, depth: nat, k: nat, heap: seq<nat>)
    requires Searchable(t) && |target| == t.dims && ValidId(t, node) && ValidIds(t, heap)
    requires k >= 1 && |heap| <= k && CanVisit(t, node, heap)
    ensures var r := Search(t, target, node, depth, k, heap);
      && (node.Some? ==> r.best.value in Subtree(t.nodes, node.value))
      && (forall x :: x in r.heap ==> x in heap || x in SubtreeOf(t.nodes, node))
    decreases if node.Some? then |t.nodes| - node.value else 0, 2
  {
    if node.Some? {
      var n := node.value;
      if IsLeaf(t.nodes[n]) {
        forall x | x in OfferLeaf(t, target, heap, n) ensures x in heap || x in Subtree(t.nodes, n) {
          OfferLeafFrom(t, target, heap, n, x);
        }
      } else {
        DescendWithin(t, target, n, depth, k, heap);
      }
    }
  }

  lemma {:induction false} DescendWithin(t: Built, target: seq<int>, n: nat, depth: nat, k: nat, heap: seq<nat>)
    requires Searchable(t) && |target| == t.dims && n < |t.nodes| && !IsLeaf(t.nodes[n]) && ValidIds(t, heap)
    requires k >= 1 && |heap| <= k
    ensures var r := Descend(t, target, n, depth, k, heap);
      && r.best.value in Subtree(t.nodes, n)
      && (forall x :: x in r.heap ==> x in heap || x in Subtree(t.nodes, n))
    decreases |t.nodes| - n, 1
  {
    var dim := DimAt(depth, t.dims);
    var br := Branches(t, target, n, dim);
    SubtreeChild(t.nodes, n, br.0);
    var h1 := Offer(t, target, k, heap, n);
    var o1 := Search(t, target, br.0, depth + 1, k, h1);
    var best := Closer(t, target, Some(n), o1.best);
    assert best.value in Subtree(t.nodes, n) && o1.heap == Search(t, target, br.0, depth + 1, k, h1).heap
      && (forall x :: x in o1.heap ==> x in heap || x in Subtree(t.nodes, n)) by {
      SearchWithin(t, target, br.0, depth + 1, k, h1);
      forall x | x in o1.heap ensures x in heap || x in Subtree(t.nodes, n) {
        if x in h1 {
          OfferFrom(t, target, k, heap, n, x);
        }
      }
    }
    BacktrackWithin(t, target, n, dim, depth, k, best.value, br.1, o1.heap);
  }

  lemma {:induction false} BacktrackWithin(t: Built, target: seq<int>, n: nat, dim: nat, depth: nat, k: nat,
                                           best: nat, oppo: Option<nat>, heap: seq<nat>)
    requires Searchable(t) && |target| == t.dims && n < |t.nodes| && dim < t.dims && best < |t.nodes|
    requires oppo == t.nodes[n].left || oppo == t.nodes[n].right
    requires ValidIds(t, heap) && k >= 1 && 1 <= |heap| <= k
    requires best in Subtree(t.nodes, n)
    ensures var r := Backtrack(t, target, n, dim, depth, k, best, oppo, heap);
      && r.best.value in Subtree(t.nodes, n)
      && (forall x :: x in r.heap ==> x in heap || x in Subtree(t.nodes, n))
    decreases |t.nodes| - n, 0
  {
    SubtreeChild(t.nodes, n, oppo);
    if Crosses(t, target, best, n, dim) {
      var o2 := Search(t, target, oppo, depth + 1, k, heap);
      assert Backtrack(t, target, n, dim, depth, k, best, oppo, heap)
        == Outcome(Closer(t, target, Some(best), o2.best), o2.heap);
      assert (o2.best.Some? ==> o2.best.value in Subtree(t.nodes, n))
        && forall x :: x in o2.heap ==> x in heap || x in Subtree(t.nodes, n) by {
        SearchWithin(t, target, oppo, depth + 1, k, heap);
      }
    } else {
      assert Backtrack(t, target, n, dim, depth, k, best, oppo, heap) == Outcome(Some(best), heap);
    }
  }

  /** After visiting any node the farthest candidate is on top of the heap. */
  lemma {:induction false} SearchHeapOrder(t: Built, target: seq<int>, node: Option<nat>, depth: nat, k: nat, heap: seq<nat>)
    requires Searchable(t) && |target| == t.dims && ValidId(t, node) && ValidIds(t, heap)
    requires k >= 1 && |heap| <= k && CanVisit(t, node, heap) && node.Some?
    ensures TopIsFarthest(t, target, Search(t, target, node, depth, k, heap).heap)
    decreases |t.nodes| - node.value, 2
  {
    if IsLeaf(t.nodes[node.value]) {
      OfferHeapOrder(t, target, k, heap, node.value);
    } else {
      DescendHeapOrder(t, target, node.value, depth, k, heap);
    }
  }

  lemma {:induction false} DescendHeapOrder(t: Built, target: seq<int>, n: nat, depth: nat, k: nat, heap: seq<nat>)
    requires Searchable(t) && |target| == t.dims && n < |t.nodes| && !IsLeaf(t.nodes[n]) && ValidIds(t, heap)
    requires k >= 1 && |heap| <= k
    ensures TopIsFarthest(t, target, Descend(t, target, n, depth, k, heap).heap)
    decreases |t.nodes| - n, 1
  {
    var dim := DimAt(depth, t.dims);
    var br := Branches(t, target, n, dim);
    SubtreeChild(t.nodes, n, br.0);
    var h1 := Offer(t, target, k, heap, n);
    var o1 := Search(t, target, br.0, depth + 1, k, h1);
    assert TopIsFarthest(t, target, o1.heap) by {
      if br.0.Some? {
        SearchHeapOrder(t, target, br.0, depth + 1, k, h1);
      } else {
        OfferHeapOrder(t, target, k, heap, n);
      }
    }
    var best := Closer(t, target, Some(n), o1.best);
    BacktrackHeapOrder(t, target, n, dim, depth, k, best.value, br.1, o1.heap);
  }

  lemma {:induction false} BacktrackHeapOrder(t: Built, target: seq<int>, n: nat, dim: nat, depth: nat, k: nat,
                                              best: nat, oppo: Option<nat>, heap: seq<nat>)
    requires Searchable(t) && |target| == t.dims && n < |t.nodes| && dim < t.dims && best < |t.nodes|
    requires oppo == t.nodes[n].left || oppo == t.nodes[n].right
    requires ValidIds(t, heap) && k >= 1 && 1 <= |heap| <= k && TopIsFarthest(t, target, heap)
    ensures TopIsFarthest(t, target, Backtrack(t, target, n, dim, depth, k, best, oppo, heap).heap)
    decreases |t.nodes| - n, 0
  {
    SubtreeChild(t.nodes, n, oppo);
    if Crosses(t, target, best, n, dim) && oppo.Some? {
      SearchHeapOrder(t, target, oppo, depth + 1, k, heap);
    }
  }

  /**
   * For points with one coordinate, where the search's `depth % dims` is
   * always the split coordinate 0, the best node found is a nearest one in
   * the subtree searched: pruning never discards a closer point.
   */
  lemma {:induction false} SearchNearest(t: Built, target: seq<int>, node: Option<nat>, depth: nat, k: nat, heap: seq<nat>)
    requires Searchable(t) && t.dims == 1 && Partitioned(t.pts, t.dims, t.nodes)
    requires |target| == t.dims && ValidId(t, node) && ValidIds(t, heap)
    requires k >= 1 && |heap| <= k && CanVisit(t, node, heap)
    requires node.Some?
    ensures var r := Search(t, target, node, depth, k, heap);
      && r.best.value in Subtree(t.nodes, node.value)
      && forall m :: m in Subtree(t.nodes, node.value) ==> m < |t.nodes| && D(t, target, r.best.value) <= D(t, target, m)
    decreases |t.nodes| - node.value, 2
  {
    var n := node.value;
    SearchWithin(t, target, node, depth, k, heap);
    forall m | m in Subtree(t.nodes, n) ensures m < |t.nodes| {
      SubtreeBounds(t.nodes, n, m);
    }
    if IsLeaf(t.nodes[n]) {
      assert Subtree(t.nodes, n) == {n};
    } else {
      DescendNearest(t, target, n, depth, k, heap);
    }
  }

  lemma {:induction false} DescendNearest(t: Built, target: seq<int>, n: nat, depth: nat, k: nat, heap: seq<nat>)
    requires Searchable(t) && t.dims == 1 && Partitioned(t.pts, t.dims, t.nodes)
    requires |target| == t.dims && n < |t.nodes| && !IsLeaf(t.nodes[n]) && ValidIds(t, heap)
    requires k >= 1 && |heap| <= k
    ensures var r := Descend(t, target, n, depth, k, heap);
      forall m :: m in Subtree(t.nodes, n) ==> m < |t.nodes| && D(t, target, r.best.value) <= D(t, target, m)
    decreases |t.nodes| - n, 1
  {
    var dim := DimAt(depth, t.dims);
    var br := Branches(t, target, n, dim);
    SubtreeChild(t.nodes, n, br.0);
    var h1 := Offer(t, target, k, heap, n);
    var o1 := Search(t, target, br.0, depth + 1, k, h1);
    var best := Closer(t, target, Some(n), o1.best);
    NearBest(t, target, n, depth, k, heap);
    assert Descend(t, target, n, depth, k, heap) == Backtrack(t, target, n, dim, depth, k, best.value, br.1, o1.heap);
    BacktrackNearest(t, target, n, dim, depth, k, best.value, br.1, o1.heap);
  }

  /**
   * Before backtracking: the closer of node `n` and the near branch's best
   * is a nearest node of everything in `n`'s subtree outside the far branch.
   */
  lemma {:induction false} NearBest(t: Built, target: seq<int>, n: nat, depth: nat, k: nat, heap: seq<nat>)
    requires Searchable(t) && t.dims == 1 && Partitioned(t.pts, t.dims, t.nodes)
    requires |target| == t.dims && n < |t.nodes| && !IsLeaf(t.nodes[n]) && ValidIds(t, heap)
    requires k >= 1 && |heap| <= k
    ensures var br := Branches(t, target, n, 0);
      var o1 := Search(t, target, br.0, depth + 1, k, Offer(t, target, k, heap, n));
      var best := Closer(t, target, Some(n), o1.best);
      && best.Some? && best.value < |t.nodes| && 1 <= |o1.heap|
      && forall m :: m in Subtree(t.nodes, n) && m !in SubtreeOf(t.nodes, br.1) ==>
           m < |t.nodes| && D(t, target, best.value) <= D(t, target, m)
    decreases |t.nodes| - n, 0
  {
    var br := Branches(t, target, n, 0);
    SubtreeChild(t.nodes, n, br.0);
    SubtreeSplit(t.nodes, n);
    var h1 := Offer(t, target, k, heap, n);
    var o1 := Search(t, target, br.0, depth + 1, k, h1);
    var best := Closer(t, target, Some(n), o1.best);
    if br.0.Some? {
      SearchNearest(t, target, br.0, depth + 1, k, h1);
    }
    forall m | m in Subtree(t.nodes, n) && m !in SubtreeOf(t.nodes, br.1)
      ensures m < |t.nodes| && D(t, target, best.value) <= D(t, target, m)
    {
      SubtreeBounds(t.nodes, n, m);
      assert m == n || m in SubtreeOf(t.nodes, br.0);
    }
  }

  lemma {:induction false} BacktrackNearest(t: Built, target: seq<int>, n: nat, dim: nat, depth: nat, k: nat,
                                            best: nat, oppo: Option<nat>, heap: seq<nat>)
    requires Searchable(t) && t.dims == 1 && Partitioned(t.pts, t.dims, t.nodes) && dim == 0
    requires |target| == t.dims && n < |t.nodes| && best < |t.nodes| && !IsLeaf(t.nodes[n])
    requires oppo == Branches(t, target, n, dim).1
    requires ValidIds(t, heap) && k >= 1 && 1 <= |heap| <= k
    requires forall m :: m in Subtree(t.nodes, n) && m !in SubtreeOf(t.nodes, oppo) ==>
      m < |t.nodes| && D(t, target, best) <= D(t, target, m)
    ensures var r := Backtrack(t, target, n, dim, depth, k, best, oppo, heap);
      forall m :: m in Subtree(t.nodes, n) ==> m < |t.nodes| && D(t, target, r.best.value) <= D(t, target, m)
    decreases |t.nodes| - n, 0
  {
    SubtreeChild(t.nodes, n, oppo);
    if Crosses(t, target, best, n, dim) {
      var o2 := Search(t, target, oppo, depth + 1, k, heap);
      var b2 := Closer(t, target, Some(best), o2.best);
      assert Backtrack(t, target, n, dim, depth, k, best, oppo, heap).best == b2;
      if oppo.Some? {
        SearchNearest(t, target, oppo, depth + 1, k, heap);
      }
      forall m | m in Subtree(t.nodes, n) ensures m < |t.nodes| && D(t, target, b2.value) <= D(t, target, m) {
        SubtreeBounds(t.nodes, n, m);
        if m in SubtreeOf(t.nodes, oppo) {
          assert D(t, target, o2.best.value) <= D(t, target, m);
        }
      }
    } else {
      assert Backtrack(t, target, n, dim, depth, k, best, oppo, heap).best == Some(best);
      forall m | m in Subtree(t.nodes, n) ensures m < |t.nodes| && D(t, target, best) <= D(t, target, m) {
        SubtreeBounds(t.nodes, n, m);
        if m in SubtreeOf(t.nodes, oppo) {
          FarSide(t, target, n, oppo.value, m);
        }
      }
    }
  }

  /**
   * A point on the far side of a one-dimensional split is no closer than
   * the splitting plane.
   */
  lemma FarSide(t: Built, target: seq<int>, n: nat, c: nat, m: nat)
    requires Searchable(t) && t.dims == 1 && Partitioned(t.pts, t.dims, t.nodes)
    requires |target| == t.dims && n < |t.nodes| && !IsLeaf(t.nodes[n])
    requires Branches(t, target, n, 0).1 == Some(c) && m in Subtree(t.nodes, c)
    ensures m < |t.nodes| && D(t, target, m) >= Square(target[0] - NodeVal(t, n)[0])
  {
    SubtreeBounds(t.nodes, c, m);
    assert SplitHolds(t.pts, t.dims, t.nodes, n);
    var tv, pv, q := target[0], NodeVal(t, n)[0], NodeVal(t, m)[0];
    assert SplitKey(t.pts, t.dims, t.nodes, n) == pv && SplitKey(t.pts, t.dims, t.nodes, m) == q;
    if tv < pv {
      assert t.nodes[n].right == Some(c);
      assert q >= pv;
    } else {
      assert t.nodes[n].left == Some(c);
      assert q < pv;
    }
    SquareMonotone(tv, pv, q);
    SqDistCoordinate(target, NodeVal(t, m), 0);
  }

  // ---------------------------------------------------------------------
  // The heap keeps a candidate as close as the best node
  // ---------------------------------------------------------------------

  /** Some candidate in `heap` lies within squared distance `v` of the target. */
  predicate HasWithin(t: Built, target: seq<int>, heap: seq<nat>, v: nat)
    requires Searchable(t) && |target| == t.dims && ValidIds(t, heap)
  {
    exists i :: 0 <= i < |heap| && D(t, target, heap[i]) <= v
  }

  lemma WithinMember(t: Built, target: seq<int>, heap: seq<nat>, x: nat, v: nat)
    requires Searchable(t) && |target| == t.dims && ValidIds(t, heap)
    requires x in multiset(heap) && x < |t.nodes| && D(t, target, x) <= v
    ensures HasWithin(t, target, heap, v)
  {
    assert x in heap;
    var i :| 0 <= i < |heap| && heap[i] == x;
  }

  /**
   * An internal node's offer (k-nn.hpp:302-304) leaves a candidate at least as
   * close as the node, and keeps any candidate-within bound the heap had: a
   * candidate is evicted only for a strictly closer one.
   */
  lemma OfferWithin(t: Built, target: seq<int>, k: nat, heap: seq<nat>, n: nat, v: nat)
    requires Searchable(t) && |target| == t.dims && ValidIds(t, heap) && n < |t.nodes|
    requires k >= 1 && |heap| <= k
    ensures HasWithin(t, target, Offer(t, target, k, heap, n), D(t, target, n))
    ensures HasWithin(t, target, heap, v) ==> HasWithin(t, target, Offer(t, target, k, heap, n), v)
  {
    var r := Offer(t, target, k, heap, n);
    if |heap| < k {
      var h := heap + [n];
      assert multiset(r) == multiset(h);
      assert h[|heap|] == n;
      WithinMember(t, target, r, n, D(t, target, n));
      if HasWithin(t, target, heap, v) {
        var i :| 0 <= i < |heap| && D(t, target, heap[i]) <= v;
        assert h[i] == heap[i];
        WithinMember(t, target, r, heap[i], v);
      }
    } else if Closer(t, target, Some(n), Some(heap[0])) == Some(n) {
      TopReplaced(t, target, heap, n, r, v);
    } else {
      TopKept(t, target, heap, n, r, v);
    }
  }

  /** The same for a leaf's offer (k-nn.hpp:276-280), which only ever replaces the top. */
  lemma OfferLeafWithin(t: Built, target: seq<int>, heap: seq<nat>, n: nat, v: nat)
    requires Searchable(t) && |target| == t.dims && ValidIds(t, heap) && n < |t.nodes| && |heap| >= 1
    ensures HasWithin(t, target, OfferLeaf(t, target, heap, n), D(t, target, n))
    ensures HasWithin(t, target, heap, v) ==> HasWithin(t, target, OfferLeaf(t, target, heap, n), v)
  {
    var r := OfferLeaf(t, target, heap, n);
    if Closer(t, target, Some(n), Some(heap[0])) == Some(n) {
      TopReplaced(t, target, heap, n, r, v);
    } else {
      TopKept(t, target, heap, n, r, v);
    }
  }

  /** The node, strictly closer than the top, takes the top's place (then `make_heap`). */
  lemma TopReplaced(t: Built, target: seq<int>, heap: seq<nat>, n: nat, r: seq<nat>, v: nat)
    requires Searchable(t) && |target| == t.dims && ValidIds(t, heap) && n < |t.nodes| && |heap| >= 1
    requires Closer(t, target, Some(n), Some(heap[0])) == Some(n)
    requires r == MakeHeap(t, target, heap[0 := n])
    ensures HasWithin(t, target, r, D(t, target, n))
    ensures HasWithin(t, target, heap, v) ==> HasWithin(t, target, r, v)
  {
    var h := heap[0 := n];
    assert h[0] == n;
    WithinMember(t, target, r, n, D(t, target, n));
    if HasWithin(t, target, heap, v) {
      var i :| 0 <= i < |heap| && D(t, target, heap[i]) <= v;
      if i == 0 {
        assert D(t, target, n) <= D(t, target, heap[0]);
        WithinMember(t, target, r, n, v);
      } else {
        assert h[i] == heap[i];
        WithinMember(t, target, r, heap[i], v);
      }
    }
  }

  /** The node is not strictly closer than the top, so the heap keeps its candidates. */
  lemma TopKept(t: Built, target: seq<int>, heap: seq<nat>, n: nat, r: seq<nat>, v: nat)
    requires Searchable(t) && |target| == t.dims && ValidIds(t, heap) && n < |t.nodes| && |heap| >= 1
    requires Closer(t, target, Some(n), Some(heap[0])) != Some(n)
    requires r == MakeHeap(t, target, heap)
    ensures HasWithin(t, target, r, D(t, target, n))
    ensures HasWithin(t, target, heap, v) ==> HasWithin(t, target, r, v)
  {
    assert D(t, target, heap[0]) <= D(t, target, n);
    WithinMember(t, target, r, heap[0], D(t, target, n));
    if HasWithin(t, target, heap, v) {
      var i :| 0 <= i < |heap| && D(t, target, heap[i]) <= v;
      WithinMember(t, target, r, heap[i], v);
    }
  }

  /**
   * A search keeps every candidate-within bound of its heap, and leaves a
   * candidate at least as close as the best node it returns.
   */
  lemma {:induction false} SearchKeeps(t: Built, target: seq<int>, node: Option<nat>, depth: nat, k: nat, heap: seq<nat>, v: nat)
    requires Searchable(t) && |target| == t.dims && ValidId(t, node) && ValidIds(t, heap)
    requires k >= 1 && |heap| <= k && CanVisit(t, node, heap)
    ensures var r := Search(t, target, node, depth, k, heap);
      && (HasWithin(t, target, heap, v) ==> HasWithin(t, target, r.heap, v))
      && (node.Some? ==> HasWithin(t, target, r.heap, D(t, target, r.best.value)))
    decreases if node.Some? then |t.nodes| - node.value else 0, 2
  {
    if node.Some? {
      if IsLeaf(t.nodes[node.value]) {
        OfferLeafWithin(t, target, heap, node.value, v);
      } else {
        DescendKeeps(t, target, node.value, depth, k, heap, v);
      }
    }
  }

  lemma {:induction false} DescendKeeps(t: Built, target: seq<int>, n: nat, depth: nat, k: nat, heap: seq<nat>, v: nat)
    requires Searchable(t) && |target| == t.dims && n < |t.nodes| && !IsLeaf(t.nodes[n]) && ValidIds(t, heap)
    requires k >= 1 && |heap| <= k
    ensures var r := Descend(t, target, n, depth, k, heap);
      && (HasWithin(t, target, heap, v) ==> HasWithin(t, target, r.heap, v))
      && HasWithin(t, target, r.heap, D(t, target, r.best.value))
    decreases |t.nodes| - n, 1
  {
    var dim := DimAt(depth, t.dims);
    var br := Branches(t, target, n, dim);
    SubtreeChild(t.nodes, n, br.0);
    var h1 := Offer(t, target, k, heap, n);
    var o1 := Search(t, target, br.0, depth + 1, k, h1);
    NearKeeps(t, target, n, depth, k, heap, v);
    var best := Closer(t, target, Some(n), o1.best);
    assert best.Some? && HasWithin(t, target, o1.heap, D(t, target, best.value)) by {
      CloserWithin(t, target, o1.heap, n, o1.best);
    }
    BacktrackKeeps(t, target, n, dim, depth, k, best.value, br.1, o1.heap, v);
  }

  /** Offering the node, then searching the near branch (k-nn.hpp:302-305). */
  lemma {:induction false} NearKeeps(t: Built, target: seq<int>, n: nat, depth: nat, k: nat, heap: seq<nat>, v: nat)
    requires Searchable(t) && |target| == t.dims && n < |t.nodes| && !IsLeaf(t.nodes[n]) && ValidIds(t, heap)
    requires k >= 1 && |heap| <= k
    ensures var br := Branches(t, target, n, DimAt(depth, t.dims));
      && ValidId(t, br.0) && (br.0.Some? ==> n < br.0.value)
      && var o1 := Search(t, target, br.0, depth + 1, k, Offer(t, target, k, heap, n));
      && (HasWithin(t, target, heap, v) ==> HasWithin(t, target, o1.heap, v))
      && HasWithin(t, target, o1.heap, D(t, target, n))
      && (br.0.Some? ==> HasWithin(t, target, o1.heap, D(t, target, o1.best.value)))
    decreases |t.nodes| - n, 0
  {
    var br := Branches(t, target, n, DimAt(depth, t.dims));
    SubtreeChild(t.nodes, n, br.0);
    var h1 := Offer(t, target, k, heap, n);
    OfferWithin(t, target, k, heap, n, v);
    SearchKeeps(t, target, br.0, depth + 1, k, h1, v);
    SearchKeeps(t, target, br.0, depth + 1, k, h1, D(t, target, n));
  }

  lemma {:induction false} BacktrackKeeps(t: Built, target: seq<int>, n: nat, dim: nat, depth: nat, k: nat,
                                          best: nat, oppo: Option<nat>, heap: seq<nat>, v: nat)
    requires Searchable(t) && |target| == t.dims && n < |t.nodes| && dim < t.dims && best < |t.nodes|
    requires oppo == t.nodes[n].left || oppo == t.nodes[n].right
    requires ValidIds(t, heap) && k >= 1 && 1 <= |heap| <= k
    requires HasWithin(t, target, heap, D(t, target, best))
    ensures var r := Backtrack(t, target, n, dim, depth, k, best, oppo, heap);
      && (HasWithin(t, target, heap, v) ==> HasWithin(t, target, r.heap, v))
      && HasWithin(t, target, r.heap, D(t, target, r.best.value))
    decreases |t.nodes| - n, 0
  {
    SubtreeChild(t.nodes, n, oppo);
    if Crosses(t, target, best, n, dim) {
      var o2 := Search(t, target, oppo, depth + 1, k, heap);
      SearchKeeps(t, target, oppo, depth + 1, k, heap, v);
      SearchKeeps(t, target, oppo, depth + 1, k, heap, D(t, target, best));
      CloserWithin(t, target, o2.heap, best, o2.best);
      assert Backtrack(t, target, n, dim, depth, k, best, oppo, heap) == Outcome(Closer(t, target, Some(best), o2.best), o2.heap);
    }
  }

  /** The closer of two nodes, both within reach of some candidate, is within reach of one. */
  lemma CloserWithin(t: Built, target: seq<int>, heap: seq<nat>, a: nat, b: Option<nat>)
    requires Searchable(t) && |target| == t.dims && ValidIds(t, heap) && a < |t.nodes| && ValidId(t, b)
    requires HasWithin(t, target, heap, D(t, target, a))
    requires b.Some? ==> HasWithin(t, target, heap, D(t, target, b.value))
    ensures Closer(t, target, Some(a), b).Some?
    ensures HasWithin(t, target, heap, D(t, target, Closer(t, target, Some(a), b).value))
  {
  }

  /**
   * A query from the root of a complete one-dimensional tree: the best
   * node's point is a nearest point of the whole store (k-nn.hpp:239).
   */
  lemma NearestFromRoot(pts: seq<seq<int>>, nodes: seq<Node>, target: seq<int>, k: nat)
    requires CompleteTree(pts, 1, nodes) && |pts| >= 2 && k >= 1 && |target| == 1
    ensures var t := Built(pts, 1, nodes);
      var r := Search(t, target, Some(0), 0, k, []);
      && r.best.Some? && r.best.value < |nodes|
      && forall p :: 0 <= p < |pts| ==> SqDist(target, NodeVal(t, r.best.value)) <= SqDist(target, pts[p])
  {
    var t := Built(pts, 1, nodes);
    assert Searchable(t);
    SearchNearest(t, target, Some(0), 0, k, []);
    var r := Search(t, target, Some(0), 0, k, []);
    forall p | 0 <= p < |pts| ensures SqDist(target, NodeVal(t, r.best.value)) <= SqDist(target, pts[p]) {
      RangeCount(0, |pts|, p);
      assert p in multiset(Pivots(nodes));
      PivotsMember(nodes, p);
      var m :| 0 <= m < |nodes| && nodes[m].index == Some(p);
      assert m in Subtree(nodes, 0);
      assert NodeVal(t, m) == pts[p];
    }
  }

  /**
   * The candidates a query from the root of a complete one-dimensional tree
   * leaves in its heap (what k-nn.hpp:240-241 writes out) include a nearest
   * point of the whole store.
   */
  lemma NearestInHeap(pts: seq<seq<int>>, nodes: seq<Node>, target: seq<int>, k: nat)
    requires CompleteTree(pts, 1, nodes) && |pts| >= 2 && k >= 1 && |target| == 1
    ensures var t := Built(pts, 1, nodes);
      var r := Search(t, target, Some(0), 0, k, []);
      exists j :: 0 <= j < |r.heap| && r.heap[j] < |nodes|
        && forall p :: 0 <= p < |pts| ==> SqDist(target, NodeVal(t, r.heap[j])) <= SqDist(target, pts[p])
  {
    var t := Built(pts, 1, nodes);
    assert Searchable(t);
    NearestFromRoot(pts, nodes, target, k);
    SearchKeeps(t, target, Some(0), 0, k, [], 0);
    var r := Search(t, target, Some(0), 0, k, []);
    var j :| 0 <= j < |r.heap| && D(t, target, r.heap[j]) <= D(t, target, r.best.value);
    assert forall p :: 0 <= p < |pts| ==> SqDist(target, NodeVal(t, r.heap[j])) <= SqDist(target, pts[p]);
  }
}
