/**
 * `class Tree` (k-nn.hpp:51-311) with its worker threads run one after
 * another: the constructor and `grow` build the tree through the job queue,
 * `query` and `process_query_batch` answer a batch of queries.
 */
module Knn {
  import opened Common
  import opened Points
  import opened Partition
  import opened Nodes
  import opened BuildInvariant
  import opened Search

  /** `BATCH_SIZE` (k-nn.hpp:25): queries claimed per step of `process_query_batch`. */
  const BatchSize: nat := 7

  /**
   * `std::sample` as the model sees it: any function that draws, from a
   * non-empty index list, `min(80, |indices|)` of its entries in order.
   * The build's jobs have disjoint index lists, so a function of the list
   * can stand for any sequence of random draws made by the source.
   */
  ghost predicate SamplerOk(sampler: seq<nat> -> seq<nat>)
  {
    forall indices: seq<nat> :: indices != [] ==> IsSample(Draw(sampler, indices), indices)
  }

  /** The sample `sampler` draws from `indices`. */
  function Draw(sampler: seq<nat> -> seq<nat>, indices: seq<nat>): seq<nat>
  {
    sampler(indices)
  }

  lemma StoreKeyed(pts: seq<seq<int>>, dims: nat, s: seq<nat>, dim: nat)
    requires PointStore(pts, dims) && InStore(pts, s) && dim < dims
    ensures Keyed(pts, dim, s)
  {
  }

  /** A child for a non-empty half: `make_unique<Node>(level + 1)` hung on `side` of node `n`. */
  function Grown(nodes: seq<Node>, n: nat, side: Side, half: seq<nat>): seq<Node>
    requires n < |nodes|
  {
    if |half| > 0 then AddChild(nodes, n, side) else nodes
  }

  /** The root-to-node path of that child, when there is one. */
  ghost function GrownPaths(paths: seq<seq<Step>>, n: nat, side: Side, half: seq<nat>): seq<seq<Step>>
    requires n < |paths|
  {
    if |half| > 0 then paths + [paths[n] + [Step(n, side)]] else paths
  }

  /** `job_q_.emplace(child, half)` for a non-empty half whose child sits at `c`. */
  function Queued(jobs: seq<Job>, c: nat, half: seq<nat>): seq<Job>
  {
    if |half| > 0 then jobs + [Job(c, half)] else jobs
  }

  /** The arena after a job on node `n` took pivot `median` and created a child per non-empty half. */
  function Expanded(nodes: seq<Node>, n: nat, median: nat, left: seq<nat>, right: seq<nat>): seq<Node>
    requires n < |nodes|
  {
    var a := Assign(nodes, n, median);
    Grown(Grown(a, n, Left, left), n, Right, right)
  }

  /** Expanding node `n` leaves `median` as its pivot. */
  lemma ExpandedPivot(nodes: seq<Node>, n: nat, median: nat, left: seq<nat>, right: seq<nat>)
    requires n < |nodes|
    ensures n < |Expanded(nodes, n, median, left, right)|
    ensures Expanded(nodes, n, median, left, right)[n].index == Some(median)
  {
    var a := Assign(nodes, n, median);
    var g := Grown(a, n, Left, left);
    assert g[n].index == Some(median);
  }

  ghost function ExpandedPaths(paths: seq<seq<Step>>, n: nat, left: seq<nat>, right: seq<nat>): seq<seq<Step>>
    requires n < |paths|
  {
    GrownPaths(GrownPaths(paths, n, Left, left), n, Right, right)
  }

  /** The jobs queued for those children, left first, numbered from arena position `c`. */
  function QueuedFor(c: nat, left: seq<nat>, right: seq<nat>): seq<Job>
  {
    Queued(Queued([], c, left), if |left| > 0 then c + 1 else c, right)
  }

  /** The fragment a non-empty half leaves behind before it has a child. */
  function HalfFrag(n: nat, side: Side, half: seq<nat>): seq<Frag>
  {
    if |half| > 0 then [Frag(n, side, half)] else []
  }

  /** Creating the child of one half and queueing its job keeps the build invariant. */
  lemma HalfStep(pts: seq<seq<int>>, dims: nat, nodes: seq<Node>, paths: seq<seq<Step>>,
                 jobs: seq<Job>, n: nat, side: Side, half: seq<nat>, frags: seq<Frag>)
    requires Inv(pts, dims, nodes, paths, jobs, HalfFrag(n, side, half) + frags)
    requires n < |nodes|
    ensures n < |paths| == |nodes|
    ensures Inv(pts, dims, Grown(nodes, n, side, half), GrownPaths(paths, n, side, half),
                Queued(jobs, |nodes|, half), frags)
  {
    if |half| > 0 {
      ChildStep(pts, dims, nodes, paths, jobs, Frag(n, side, half), frags);
    } else {
      assert [] + frags == frags;
    }
  }

  lemma FragsShape(n: nat, left: seq<nat>, right: seq<nat>)
    ensures SplitFrags(n, left, right) == HalfFrag(n, Left, left) + HalfFrag(n, Right, right)
    ensures HalfFrag(n, Right, right) + [] == HalfFrag(n, Right, right)
  {
  }

  lemma QueuedShape(nodes: seq<Node>, n: nat, rest: seq<Job>, left: seq<nat>, right: seq<nat>)
    requires n < |nodes|
    ensures |Grown(nodes, n, Left, left)| == if |left| > 0 then |nodes| + 1 else |nodes|
    ensures Queued(Queued(rest, |nodes|, left), |Grown(nodes, n, Left, left)|, right)
            == rest + QueuedFor(|nodes|, left, right)
  {
  }

  /**
   * One expansion keeps the build invariant: the job leaves the front of
   * the queue, its node takes `median`, and the halves of the split on
   * coordinate 0 become children whose jobs go to the back of the queue.
   */
  lemma ExpandStep(pts: seq<seq<int>>, dims: nat, nodes: seq<Node>, paths: seq<seq<Step>>,
                   j: Job, rest: seq<Job>, median: nat, left: seq<nat>, right: seq<nat>)
    requires Inv(pts, dims, nodes, paths, [j] + rest, [])
    requires median in j.indices && KeyedAt(pts, 0, median) && Keyed(pts, 0, j.indices)
    requires left == Below(pts, 0, median, j.indices) && right == AtOrAbove(pts, 0, median, j.indices)
    ensures j.node < |nodes| == |paths|
    ensures Inv(pts, dims, Expanded(nodes, j.node, median, left, right),
                ExpandedPaths(paths, j.node, left, right), rest + QueuedFor(|nodes|, left, right), [])
    ensures |left| + |right| + 1 == |j.indices|
  {
    AssignStep(pts, dims, nodes, paths, j, rest, median, left, right);
    SplitCount(pts, 0, median, j.indices);
    var n := j.node;
    var a := Assign(nodes, n, median);
    FragsShape(n, left, right);
    HalfStep(pts, dims, a, paths, rest, n, Left, left, HalfFrag(n, Right, right));
    var b := Grown(a, n, Left, left);
    var pb := GrownPaths(paths, n, Left, left);
    var qb := Queued(rest, |a|, left);
    HalfStep(pts, dims, b, pb, qb, n, Right, right, []);
    QueuedShape(a, n, rest, left, right);
  }

  /** `ExpandStep` stated for the arena, paths and queue an expansion leaves behind. */
  lemma ExpandDone(pts: seq<seq<int>>, dims: nat, nodes: seq<Node>, paths: seq<seq<Step>>,
                   j: Job, rest: seq<Job>, median: nat, left: seq<nat>, right: seq<nat>,
                   nodes': seq<Node>, paths': seq<seq<Step>>, jobs': seq<Job>)
    requires Inv(pts, dims, nodes, paths, [j] + rest, [])
    requires median in j.indices && KeyedAt(pts, 0, median) && Keyed(pts, 0, j.indices)
    requires left == Below(pts, 0, median, j.indices) && right == AtOrAbove(pts, 0, median, j.indices)
    requires j.node < |nodes| == |paths|
    requires nodes' == Expanded(nodes, j.node, median, left, right)
    requires paths' == ExpandedPaths(paths, j.node, left, right)
    requires jobs' == rest + QueuedFor(|nodes|, left, right)
    ensures Inv(pts, dims, nodes', paths', jobs', [])
    ensures |left| + |right| + 1 == |j.indices|
    ensures |Pending(jobs')| + 1 == |Pending([j] + rest)|
  {
    ExpandStep(pts, dims, nodes, paths, j, rest, median, left, right);
    QueuedPending(|nodes|, left, right);
    PendingAppend(rest, QueuedFor(|nodes|, left, right));
    FrontJob(pts, dims, nodes, paths, j, rest);
  }

  /** A one-index job makes its node a leaf and keeps the build invariant. */
  lemma LeafStep(pts: seq<seq<int>>, dims: nat, nodes: seq<Node>, paths: seq<seq<Step>>, j: Job, rest: seq<Job>)
    requires Inv(pts, dims, nodes, paths, [j] + rest, []) && |j.indices| == 1
    ensures j.node < |nodes|
    ensures Inv(pts, dims, Assign(nodes, j.node, j.indices[0]), paths, rest, [])
  {
    assert ([j] + rest)[0] == j;
    assert JobOk(pts, nodes, j);
    var x := j.indices[0];
    assert j.indices == [x];
    KeyedOnZero(pts, dims, j.indices);
    assert Below(pts, 0, x, j.indices) == [] && AtOrAbove(pts, 0, x, j.indices) == [] by {
      assert j.indices[..0] == [];
    }
    AssignStep(pts, dims, nodes, paths, j, rest, x, [], []);
    assert SplitFrags(j.node, [], []) == [];
  }

  /** `LeafStep` stated for the arena the leaf leaves behind, with the queue one job shorter. */
  lemma LeafDone(pts: seq<seq<int>>, dims: nat, nodes: seq<Node>, paths: seq<seq<Step>>, j: Job, rest: seq<Job>,
                 nodes': seq<Node>)
    requires Inv(pts, dims, nodes, paths, [j] + rest, []) && |j.indices| == 1
    requires j.node < |nodes| && nodes' == Assign(nodes, j.node, j.indices[0])
    ensures Inv(pts, dims, nodes', paths, rest, [])
    ensures |Pending(rest)| < |Pending([j] + rest)|
  {
    LeafStep(pts, dims, nodes, paths, j, rest);
    FrontJob(pts, dims, nodes, paths, j, rest);
  }

  /** Taking the front job off a non-empty queue. */
  lemma Pop(jobs: seq<Job>)
    requires jobs != []
    ensures jobs == [jobs[0]] + jobs[1..]
  {
  }

  lemma NoMoreJobs(j: Job)
    ensures [j] + [] == [j]
  {
  }

  /** The queue's front job is sound: it names an existing node and a non-empty list of point indices. */
  lemma FrontJob(pts: seq<seq<int>>, dims: nat, nodes: seq<Node>, paths: seq<seq<Step>>, j: Job, rest: seq<Job>)
    requires Inv(pts, dims, nodes, paths, [j] + rest, [])
    ensures j.node < |nodes| == |paths| && |j.indices| >= 1 && InStore(pts, j.indices) && PointStore(pts, dims)
    ensures |Pending([j] + rest)| == |j.indices| + |Pending(rest)|
  {
    assert ArenaOk(nodes, paths);
    assert ([j] + rest)[0] == j;
    assert JobOk(pts, nodes, j);
    assert ([j] + rest)[1..] == rest;
  }

  /** With the queue empty, the arena holds one node per point. */
  lemma DrainedCount(pts: seq<seq<int>>, dims: nat, nodes: seq<Node>, paths: seq<seq<Step>>)
    requires Inv(pts, dims, nodes, paths, [], [])
    ensures |nodes| == |pts|
  {
    AllAssigned(pts, dims, nodes, paths);
    CompletedCount(pts, dims, nodes, paths);
  }

  /** The queued children's jobs hold exactly the two halves. */
  lemma QueuedPending(c: nat, left: seq<nat>, right: seq<nat>)
    ensures Pending(QueuedFor(c, left, right)) == left + right
  {
    var cj := QueuedFor(c, left, right);
    if |left| > 0 && |right| > 0 {
      assert cj[1..] == [cj[1]];
      assert Pending(cj[1..]) == right + Pending([]);
    } else if cj != [] {
      assert cj[1..] == [];
    }
  }

  /**
   * The first result slot of query `i` with `k` slots per query, `i * k`
   * (see BaseIs), written as a running sum so that slot positions stay
   * linear terms for the verifier.
   */
  function Base(i: nat, k: nat): nat
  {
    if i == 0 then 0 else Base(i - 1, k) + k
  }

  lemma {:induction false} BaseIs(i: nat, k: nat)
    ensures Base(i, k) == i * k
  {
    if i > 0 {
      BaseIs(i - 1, k);
      assert (i - 1) * k + k == i * k;
    }
  }

  /** Result slot `j` of query `i` with `k` slots per query, `i * k + j` (k-nn.hpp:241). */
  function Slot(i: nat, j: nat, k: nat): nat
  {
    Base(i, k) + j
  }

  /** Every slot of a query lies inside the `q * k` result store. */
  lemma SlotBound(i: nat, j: nat, k: nat, q: nat)
    requires i < q && j < k
    ensures Slot(i, j, k) < q * k
  {
    SlotsAfter(i, q, k);
    BaseIs(q, k);
  }

  /** Different (query, slot) pairs write different results. */
  lemma SlotInjective(i: nat, j: nat, i': nat, j': nat, k: nat)
    requires j < k && j' < k && Slot(i, j, k) == Slot(i', j', k)
    ensures i == i' && j == j'
  {
    if i < i' {
      SlotsAfter(i, i', k);
    } else if i' < i {
      SlotsAfter(i', i, k);
    }
  }

  /** All slots of a later query come after all slots of an earlier one. */
  lemma {:induction false} SlotsAfter(i: nat, i': nat, k: nat)
    requires i < i'
    ensures Base(i, k) + k <= Base(i', k)
    decreases i'
  {
    if i + 1 < i' {
      SlotsAfter(i, i' - 1, k);
    }
  }

  /**
   * The queries claimed from `start` on, batch after batch: each claim
   * takes `[s, min(s + 7, q))` and moves the counter on by 7.
   */
  function Batches(start: nat, q: nat): seq<nat>
    decreases q - start
  {
    if start >= q then [] else Range(start, Min(start + BatchSize, q)) + Batches(start + BatchSize, q)
  }

  /** The batches claimed from `start` are every query from `start` on, once each and in order. */
  lemma {:induction false} BatchesCover(start: nat, q: nat)
    ensures Batches(start, q) == Range(start, q)
    decreases q - start
  {
    if start < q {
      BatchesCover(start + BatchSize, q);
      if start + BatchSize <= q {
        RangeSplit(start, start + BatchSize, q);
      } else {
        assert Range(start + BatchSize, q) == [];
      }
    }
  }

  /** One claimed batch: the queries it answers followed by the batches claimed after it. */
  lemma BatchStep(done: seq<nat>, start: nat, end: nat, q: nat)
    requires start < q && end == Min(start + BatchSize, q)
    ensures done + Range(start, end) + Batches(start + BatchSize, q) == done + Batches(start, q)
  {
  }

  /** `results_.resize(n)`: keep the first `n` entries, pad with empty vectors. */
  function Resize(results: seq<seq<int>>, n: nat): (r: seq<seq<int>>)
    ensures |r| == n
    ensures forall s :: 0 <= s < n ==> r[s] == if s < |results| then results[s] else []
  {
    if |results| >= n then results[..n] else results + seq(n - |results|, _ => [])
  }

  /**
   * What answering the queries needs (k-nn.hpp:111-113, :268-311): every
   * query has the tree's dimension and, once there is a query to answer,
   * a searchable tree whose root is internal and `k >= 1`.
   */
  predicate QueryReady(t: Built, qs: seq<seq<int>>, k: nat)
  {
    && (forall q :: 0 <= q < |qs| ==> |qs[q]| == t.dims)
    && (|qs| >= 1 ==> Searchable(t) && |t.nodes| >= 1 && !IsLeaf(t.nodes[0]) && k >= 1)
  }

  /** The candidates left in the heap by `process_query(root_, i, 0, k, {})`. */
  function Answer(t: Built, qs: seq<seq<int>>, k: nat, i: nat): (r: seq<nat>)
    requires QueryReady(t, qs, k) && i < |qs|
    ensures 1 <= |r| <= k && ValidIds(t, r)
  {
    Search.Search(t, qs[i], Some(0), 0, k, []).heap
  }

  /** `node_val` of each candidate, in heap order (k-nn.hpp:240-242). */
  function PointsOf(t: Built, heap: seq<nat>): seq<seq<int>>
    requires Searchable(t) && ValidIds(t, heap)
  {
    seq(|heap|, j requires 0 <= j < |heap| => NodeVal(t, heap[j]))
  }

  /** `results_[i * k + j] = vals[j]` for every `j < |vals|`; every other slot keeps its value. */
  function WriteAnswer(res: seq<seq<int>>, i: nat, k: nat, vals: seq<seq<int>>): seq<seq<int>>
  {
    seq(|res|, s requires 0 <= s < |res| => if Base(i, k) <= s < Base(i, k) + |vals| then vals[s - Base(i, k)] else res[s])
  }

  /** The points of each query's candidates, query by query. */
  ghost function AllAnswers(t: Built, qs: seq<seq<int>>, k: nat): (r: seq<seq<seq<int>>>)
    requires QueryReady(t, qs, k)
    ensures AnswersAre(t, qs, k, r)
  {
    var w := seq(|qs|, i requires 0 <= i < |qs| => PointsOf(t, Answer(t, qs, k, i)));
    assert AnswersAre(t, qs, k, w);
    var r :| AnswersAre(t, qs, k, r); r
  }

  /** `answers[q]` is the points of query `q`'s candidates, for every query. */
  ghost predicate AnswersAre(t: Built, qs: seq<seq<int>>, k: nat, answers: seq<seq<seq<int>>>)
    requires QueryReady(t, qs, k)
  {
    && |answers| == |qs|
    && (forall q :: 0 <= q < |qs| ==> |answers[q]| <= k)
    && forall q {:trigger Answer(t, qs, k, q)} :: 0 <= q < |qs| ==> answers[q] == PointsOf(t, Answer(t, qs, k, q))
  }

  /**
   * The result store after queries `lo` to `hi - 1` have written their
   * answers, in that order; `answers[i]` is what query `i` writes.
   */
  function Filled(answers: seq<seq<seq<int>>>, k: nat, res: seq<seq<int>>, lo: nat, hi: nat): (r: seq<seq<int>>)
    requires hi <= |answers|
    ensures |r| == |res|
    decreases hi
  {
    if hi <= lo then res
    else WriteAnswer(Filled(answers, k, res, lo, hi - 1), hi - 1, k, answers[hi - 1])
  }

  /** One more query written. */
  lemma FilledNext(answers: seq<seq<seq<int>>>, k: nat, res: seq<seq<int>>, lo: nat, hi: nat)
    requires lo <= hi < |answers|
    ensures Filled(answers, k, res, lo, hi + 1) == WriteAnswer(Filled(answers, k, res, lo, hi), hi, k, answers[hi])
  {
  }

  /**
   * What the result store holds once queries `lo` to `hi - 1` are done:
   * slot `j` of each of them holds its `j`-th candidate's point while `j`
   * is below the number of candidates; every other slot is untouched.
   */
  lemma {:induction false} FilledSlots(answers: seq<seq<seq<int>>>, k: nat, res: seq<seq<int>>,
                                       lo: nat, hi: nat, i: nat, j: nat)
    requires hi <= |answers| && |res| == |answers| * k
    requires forall q :: 0 <= q < |answers| ==> |answers[q]| <= k
    requires i < |answers| && j < k
    ensures Slot(i, j, k) < |res|
    ensures Filled(answers, k, res, lo, hi)[Slot(i, j, k)]
      == if lo <= i < hi && j < |answers[i]| then answers[i][j] else res[Slot(i, j, k)]
    decreases hi
  {
    SlotBound(i, j, k, |answers|);
    if lo < hi {
      var prev := Filled(answers, k, res, lo, hi - 1);
      FilledSlots(answers, k, res, lo, hi - 1, i, j);
      WriteSlot(prev, hi - 1, k, answers[hi - 1], i, j);
      assert Filled(answers, k, res, lo, hi) == WriteAnswer(prev, hi - 1, k, answers[hi - 1]);
    }
  }

  /** Writing query `q`'s answer changes the slots of query `q` below the answer's length, and no others. */
  lemma WriteSlot(res: seq<seq<int>>, q: nat, k: nat, vals: seq<seq<int>>, i: nat, j: nat)
    requires j < k && |vals| <= k && Slot(i, j, k) < |res|
    ensures WriteAnswer(res, q, k, vals)[Slot(i, j, k)]
      == if i == q && j < |vals| then vals[j] else res[Slot(i, j, k)]
  {
    var s := Slot(i, j, k);
    if Base(q, k) <= s < Base(q, k) + |vals| {
      SlotInjective(i, j, q, s - Base(q, k), k);
    }
  }

  /**
   * The result store once every query has run: slot `j` of query `i`
   * holds the point of the `j`-th candidate left in its heap, and keeps
   * its earlier value when the heap has fewer than `j + 1` candidates.
   */
  ghost predicate Answered(t: Built, qs: seq<seq<int>>, k: nat, before: seq<seq<int>>, res: seq<seq<int>>)
  {
    && QueryReady(t, qs, k) && |before| == |res| == |qs| * k
    && forall i, j :: 0 <= i < |qs| && 0 <= j < k ==>
         (SlotBound(i, j, k, |qs|);
          var a := Answer(t, qs, k, i);
          res[Slot(i, j, k)] == if j < |a| then NodeVal(t, a[j]) else before[Slot(i, j, k)])
  }

  /** Answering every query in order leaves every slot answered. */
  lemma FilledAnswered(t: Built, qs: seq<seq<int>>, k: nat, res: seq<seq<int>>)
    requires QueryReady(t, qs, k) && |res| == |qs| * k
    ensures Answered(t, qs, k, res, Filled(AllAnswers(t, qs, k), k, res, 0, |qs|))
  {
    var answers := AllAnswers(t, qs, k);
    forall i, j | 0 <= i < |qs| && 0 <= j < k
      ensures Slot(i, j, k) < |res| && Filled(answers, k, res, 0, |qs|)[Slot(i, j, k)] ==
        var a := Answer(t, qs, k, i);
        if j < |a| then NodeVal(t, a[j]) else res[Slot(i, j, k)]
    {
      FilledSlots(answers, k, res, 0, |qs|, i, j);
    }
  }

  /** A complete tree over two or more points can answer queries of its dimension. */
  lemma ReadyToQuery(pts: seq<seq<int>>, dims: nat, nodes: seq<Node>, qs: seq<seq<int>>, k: nat)
    requires CompleteTree(pts, dims, nodes) && |pts| >= 2 && k >= 1
    requires forall q :: 0 <= q < |qs| ==> |qs[q]| == dims
    ensures QueryReady(Built(pts, dims, nodes), qs, k)
  {
  }

  /**
   * On one-dimensional points the search is exact: query `i`'s candidates
   * include a point at least as close to it as every stored point.
   */
  lemma AnswerNearest(pts: seq<seq<int>>, nodes: seq<Node>, qs: seq<seq<int>>, k: nat, i: nat)
    requires CompleteTree(pts, 1, nodes) && |pts| >= 2 && k >= 1 && i < |qs|
    requires forall q :: 0 <= q < |qs| ==> |qs[q]| == 1
    ensures QueryReady(Built(pts, 1, nodes), qs, k)
    ensures var t := Built(pts, 1, nodes);
      var a := Answer(t, qs, k, i);
      exists j :: 0 <= j < |a|
        && forall p :: 0 <= p < |pts| ==> SqDist(qs[i], NodeVal(t, a[j])) <= SqDist(qs[i], pts[p])
  {
    ReadyToQuery(pts, 1, nodes, qs, k);
    var t := Built(pts, 1, nodes);
    NearestInHeap(pts, nodes, qs[i], k);
    var a := Answer(t, qs, k, i);
    var j :| 0 <= j < |a| && a[j] < |nodes|
      && forall p :: 0 <= p < |pts| ==> SqDist(qs[i], NodeVal(t, a[j])) <= SqDist(qs[i], pts[p]);
  }

  /**
   * What the result store says once one-dimensional queries are answered:
   * some slot of query `i` holds a nearest stored point; with `k == 1` its
   * one slot `i` does, and a query equal to a stored point gets that point.
   */
  lemma ResultsNearest(pts: seq<seq<int>>, nodes: seq<Node>, qs: seq<seq<int>>, k: nat,
                       before: seq<seq<int>>, res: seq<seq<int>>, i: nat)
    requires CompleteTree(pts, 1, nodes) && |pts| >= 2
    requires Answered(Built(pts, 1, nodes), qs, k, before, res) && i < |qs|
    ensures exists j ::
      && 0 <= j < k && Slot(i, j, k) < |res| && |res[Slot(i, j, k)]| == 1
      && forall p :: 0 <= p < |pts| ==> SqDist(qs[i], res[Slot(i, j, k)]) <= SqDist(qs[i], pts[p])
    ensures k == 1 ==> |res[i]| == 1 && forall p :: 0 <= p < |pts| ==> SqDist(qs[i], res[i]) <= SqDist(qs[i], pts[p])
    ensures k == 1 && qs[i] in pts ==> res[i] == qs[i]
  {
    var t := Built(pts, 1, nodes);
    AnswerNearest(pts, nodes, qs, k, i);
    var a := Answer(t, qs, k, i);
    var j :| 0 <= j < |a| && forall p :: 0 <= p < |pts| ==> SqDist(qs[i], NodeVal(t, a[j])) <= SqDist(qs[i], pts[p]);
    SlotBound(i, j, k, |qs|);
    assert res[Slot(i, j, k)] == NodeVal(t, a[j]);
    if k == 1 {
      BaseIs(i, k);
      assert Slot(i, j, k) == i;
      if qs[i] in pts {
        var p :| 0 <= p < |pts| && pts[p] == qs[i];
        SqDistSelf(qs[i]);
        SqDistZero(qs[i], res[i]);
      }
    }
  }

  /**
   * `Tree::process_query` (k-nn.hpp:268-311) for the query point `target`,
   * on the heap given by reference: the best node found and the heap left
   * behind are those of the `Search` model. A leaf takes the place of the
   * top of the heap when strictly closer (k-nn.hpp:276-281).
   */
  method ProcessQuery(t: Built, target: seq<int>, node: Option<nat>, depth: nat, k: nat, heap: seq<nat>)
    returns (best: Option<nat>, heap': seq<nat>)
    requires Searchable(t) && |target| == t.dims
    requires ValidId(t, node) && ValidIds(t, heap) && k >= 1 && |heap| <= k
    requires CanVisit(t, node, heap)
    ensures Outcome(best, heap') == Search.Search(t, target, node, depth, k, heap)
    decreases if node.Some? then |t.nodes| - node.value else 0, 2
  {
    if node.None? {
      return None, heap;
    }
    var n := node.value;
    if IsLeaf(t.nodes[n]) {
      heap' := heap;
      if node == Closer(t, target, node, Some(heap'[0])) {
        heap' := heap'[0 := n];
      }
      heap' := MakeHeap(t, target, heap');
      return node, heap';
    }
    best, heap' := ProcessInternal(t, target, n, depth, k, heap);
  }

  /**
   * An internal node in `process_query` (k-nn.hpp:283-305): pick the
   * branches on `depth % dims`, offer the node to the heap, search the
   * near branch and keep the closer of the node and its result.
   */
  method ProcessInternal(t: Built, target: seq<int>, n: nat, depth: nat, k: nat, heap: seq<nat>)
    returns (best: Option<nat>, heap': seq<nat>)
    requires Searchable(t) && |target| == t.dims
    requires n < |t.nodes| && !IsLeaf(t.nodes[n]) && ValidIds(t, heap) && k >= 1 && |heap| <= k
    ensures Outcome(best, heap') == Descend(t, target, n, depth, k, heap)
    decreases |t.nodes| - n, 1
  {
    var dim := DimAt(depth, t.dims);
    var next, oppo;
    if target[dim] < NodeVal(t, n)[dim] {
      next, oppo := t.nodes[n].left, t.nodes[n].right;
    } else {
      next, oppo := t.nodes[n].right, t.nodes[n].left;
    }
    assert (next, oppo) == Branches(t, target, n, dim);
    SubtreeChild(t.nodes, n, next);
    heap' := OfferNode(t, target, n, k, heap);
    var nearBest;
    nearBest, heap' := ProcessQuery(t, target, next, depth + 1, k, heap');
    best := Closer(t, target, Some(n), nearBest);
    ghost var mid := Backtrack(t, target, n, dim, depth, k, best.value, oppo, heap');
    assert Descend(t, target, n, depth, k, heap) == mid;
    best, heap' := ProcessFar(t, target, n, dim, depth, k, best.value, oppo, heap');
  }

  /**
   * An internal node offered to the heap (k-nn.hpp:302-304): pushed while
   * there is room, otherwise put in place of the top when strictly closer,
   * then `make_heap`.
   */
  method OfferNode(t: Built, target: seq<int>, n: nat, k: nat, heap: seq<nat>) returns (heap': seq<nat>)
    requires Searchable(t) && |target| == t.dims
    requires n < |t.nodes| && ValidIds(t, heap) && k >= 1 && |heap| <= k
    ensures heap' == Offer(t, target, k, heap, n)
  {
    heap' := heap;
    if |heap'| < k {
      heap' := heap' + [n];
    } else if |heap'| == k && Some(n) == Closer(t, target, Some(n), Some(heap'[0])) {
      heap' := heap'[0 := n];
    }
    heap' := MakeHeap(t, target, heap');
  }

  /**
   * The end of `process_query` (k-nn.hpp:306-310): search the far branch
   * only when the best distance so far exceeds the distance to the
   * splitting plane, and keep the closer result.
   */
  method ProcessFar(t: Built, target: seq<int>, n: nat, dim: nat, depth: nat, k: nat,
                    best0: nat, oppo: Option<nat>, heap: seq<nat>)
    returns (best: Option<nat>, heap': seq<nat>)
    requires Searchable(t) && |target| == t.dims
    requires n < |t.nodes| && dim < t.dims && best0 < |t.nodes|
    requires oppo == t.nodes[n].left || oppo == t.nodes[n].right
    requires ValidIds(t, heap) && k >= 1 && 1 <= |heap| <= k
    ensures Outcome(best, heap') == Backtrack(t, target, n, dim, depth, k, best0, oppo, heap)
    decreases |t.nodes| - n, 0
  {
    SubtreeChild(t.nodes, n, oppo);
    var distToBest := D(t, target, best0);
    var distToSplit := target[dim] - NodeVal(t, n)[dim];
    best, heap' := Some(best0), heap;
    assert Crosses(t, target, best0, n, dim) == (distToBest > Square(distToSplit));
    if distToBest > Square(distToSplit) {
      var farBest;
      farBest, heap' := ProcessQuery(t, target, oppo, depth + 1, k, heap);
      best := Closer(t, target, best, farBest);
      assert Outcome(farBest, heap') == Search.Search(t, target, oppo, depth + 1, k, heap);
    }
  }

  /** The answers of query `i` written to its slots (k-nn.hpp:240-242), one slot at a time. */
  method Store(t: Built, res: seq<seq<int>>, i: nat, k: nat, ghost nq: nat, heap: seq<nat>)
    returns (res': seq<seq<int>>)
    requires Searchable(t) && ValidIds(t, heap) && |heap| <= k
    requires i < nq && |res| == nq * k
    ensures res' == WriteAnswer(res, i, k, PointsOf(t, heap))
  {
    ghost var vals := PointsOf(t, heap);
    res' := res;
    for j := 0 to |heap|
      invariant |res'| == nq * k
      invariant res' == WriteAnswer(res, i, k, vals[..j])
    {
      SlotBound(i, j, k, nq);
      res' := res'[Slot(i, j, k) := NodeVal(t, heap[j])];
      assert res' == WriteAnswer(res, i, k, vals[..j + 1]) by {
        assert vals[..j + 1][j] == vals[j];
        assert forall s :: 0 <= s < j ==> vals[..j + 1][s] == vals[..j][s];
      }
    }
    assert vals[..|heap|] == vals;
  }

  /**
   * The inner loop of `process_query_batch` (k-nn.hpp:236-243): answer
   * queries `start` to `end - 1`, writing each one's candidates into the
   * result store and recording it as processed.
   */
  method AnswerBatch(t: Built, qs: seq<seq<int>>, k: nat, start: nat, end: nat, ghost answers: seq<seq<seq<int>>>,
                     ghost lo: nat, ghost res0: seq<seq<int>>, res: seq<seq<int>>, ghost done: seq<nat>)
    returns (res': seq<seq<int>>, ghost done': seq<nat>)
    requires QueryReady(t, qs, k) && AnswersAre(t, qs, k, answers) && lo <= start <= end <= |qs|
    requires |res0| == |qs| * k && res == Filled(answers, k, res0, lo, start)
    ensures res' == Filled(answers, k, res0, lo, end)
    ensures done' == done + Range(start, end)
  {
    res', done' := res, done;
    for i := start to end
      invariant res' == Filled(answers, k, res0, lo, i)
      invariant done' == done + Range(start, i)
    {
      res' := AnswerOne(t, qs, k, i, answers, lo, res0, res');
      assert done' + [i] == done + Range(start, i + 1) by {
        RangeAppend(done, start, i);
      }
      done' := done' + [i];
    }
  }

  /** One turn of that loop (k-nn.hpp:237-242): search from the root with an empty heap, then store. */
  method AnswerOne(t: Built, qs: seq<seq<int>>, k: nat, i: nat, ghost answers: seq<seq<seq<int>>>,
                   ghost lo: nat, ghost res0: seq<seq<int>>, res: seq<seq<int>>)
    returns (res': seq<seq<int>>)
    requires QueryReady(t, qs, k) && AnswersAre(t, qs, k, answers) && lo <= i < |qs|
    requires |res0| == |qs| * k && res == Filled(answers, k, res0, lo, i)
    ensures res' == Filled(answers, k, res0, lo, i + 1)
  {
    var best, heap := ProcessQuery(t, qs[i], Some(0), 0, k, []);
    assert heap == Answer(t, qs, k, i);
    FilledNext(answers, k, res0, lo, i);
    res' := Store(t, res, i, k, |qs|, heap);
  }

  /**
   * The claiming loop of `process_query_batch` (k-nn.hpp:230-244) for one
   * worker running alone, on the value `next` of the shared counter
   * `next_batch_`: claim `[start, min(start + BATCH_SIZE, n))` and move the
   * counter on, until a claim starts past the last query.
   */
  method ClaimBatches(t: Built, qs: seq<seq<int>>, k: nat, next: nat, ghost answers: seq<seq<seq<int>>>,
                      res: seq<seq<int>>, ghost done: seq<nat>)
    returns (next': nat, res': seq<seq<int>>, ghost done': seq<nat>)
    requires QueryReady(t, qs, k) && AnswersAre(t, qs, k, answers) && |res| == |qs| * k
    ensures next' >= |qs| && next' >= next
    ensures res' == Filled(answers, k, res, next, |qs|)
    ensures done' == done + Batches(next, |qs|)
  {
    next', res', done' := next, res, done;
    while next' < |qs|
      invariant next <= next' && |res'| == |qs| * k
      invariant res' == Filled(answers, k, res, next, Min(next', |qs|))
      invariant done' + Batches(next', |qs|) == done + Batches(next, |qs|)
      decreases |qs| - next'
    {
      var start := next';
      next' := next' + BatchSize;
      var end := Min(start + BatchSize, |qs|);
      ghost var before := done';
      res', done' := AnswerBatch(t, qs, k, start, end, answers, next, res, res', done');
      assert Min(next', |qs|) == end;
      BatchStep(before, start, end, |qs|);
    }
    assert Batches(next', |qs|) == [] && done' + [] == done';
  }

  class Tree {
    const pts: seq<seq<int>>
    const dims: nat
    const sampler: seq<nat> -> seq<nat>
    var nodes: seq<Node>
    var numNodes: nat
    var jobQ: seq<Job>
    ghost var paths: seq<seq<Step>>
    var queries: seq<seq<int>>
    var nextBatch: nat
    var results: seq<seq<int>>
    /** The queries processed so far, in processing order. */
    ghost var processed: seq<nat>

    /** The build invariant, with `num_nodes_` counting the arena. */
    ghost predicate Valid()
      reads this`nodes, this`numNodes, this`jobQ, this`paths
    {
      SamplerOk(sampler) && Inv(pts, dims, nodes, paths, jobQ, []) && numNodes == |nodes|
    }

    /** A finished tree (what the constructor leaves behind when it runs a worker). */
    ghost predicate Complete()
      reads this`nodes, this`numNodes, this`jobQ, this`paths
    {
      Valid() && jobQ == [] && numNodes == |pts| && CompleteTree(pts, dims, nodes)
    }

    /** The tree the queries search: the points and the node arena. */
    function View(): Built
      reads this`nodes
    {
      Built(pts, dims, nodes)
    }

    /** The pivot `sample_median_index` picks for job `j` on `level % dims` (k-nn.hpp:199). */
    function JobMedian(j: Job): (r: nat)
      reads this`nodes
      requires SamplerOk(sampler) && PointStore(pts, dims) && j.node < |nodes|
      requires |j.indices| >= 1 && InStore(pts, j.indices)
      ensures r in j.indices
    {
      var dim := DimAt(nodes[j.node].level, dims);
      StoreKeyed(pts, dims, j.indices, dim);
      SampleMedianIndex(pts, j.indices, dim, Draw(sampler, j.indices))
    }

    /**
     * The end of a job of two or more indices (k-nn.hpp:202-216): the node
     * takes its pivot, each non-empty half gets a child one level down,
     * counted in `num_nodes`, and then a job at the back of the queue.
     */
    method Attach(n: nat, median: nat, left: seq<nat>, right: seq<nat>)
      modifies this`nodes, this`numNodes, this`jobQ
      requires n < |nodes| == numNodes
      ensures nodes == Expanded(old(nodes), n, median, left, right) && numNodes == |nodes|
      ensures jobQ == old(jobQ) + QueuedFor(|old(nodes)|, left, right)
    {
      nodes := Assign(nodes, n, median);
      var leftNode := |nodes|;
      if |left| > 0 {
        nodes := AddChild(nodes, n, Left);
        numNodes := numNodes + 1;
      }
      var rightNode := |nodes|;
      if |right| > 0 {
        nodes := AddChild(nodes, n, Right);
        numNodes := numNodes + 1;
      }
      if |left| > 0 {
        jobQ := jobQ + [Job(leftNode, left)];
      }
      if |right| > 0 {
        jobQ := jobQ + [Job(rightNode, right)];
      }
    }

    /**
     * One job of two or more indices, and the root (k-nn.hpp:84-99,
     * 199-217): the node takes the sampled median as its pivot, the other
     * indices are split on coordinate 0, and each non-empty half gets a new
     * child one level down and a job at the back of the queue.
     */
    method Expand(j: Job)
      modifies this`nodes, this`numNodes, this`jobQ, this`paths
      requires SamplerOk(sampler) && Inv(pts, dims, nodes, paths, [j] + jobQ, []) && numNodes == |nodes|
      ensures Valid()
      ensures j.node < |old(nodes)| && |j.indices| >= 1 && InStore(pts, j.indices)
      ensures var median := old(JobMedian(j));
        var left := Below(pts, 0, median, j.indices);
        var right := AtOrAbove(pts, 0, median, j.indices);
        && nodes == Expanded(old(nodes), j.node, median, left, right)
        && jobQ == old(jobQ) + QueuedFor(|old(nodes)|, left, right)
        && |left| + |right| + 1 == |j.indices|
      ensures |Pending(jobQ)| + 1 == |Pending([j] + old(jobQ))|
    {
      FrontJob(pts, dims, nodes, paths, j, jobQ);
      var median := JobMedian(j);
      StoreKeyed(pts, dims, j.indices, 0);
      var left, right := Split(pts, median, j.indices, 0);
      ghost var nodes0, paths0, rest := nodes, paths, jobQ;
      Attach(j.node, median, left, right);
      paths := ExpandedPaths(paths, j.node, left, right);
      ExpandDone(pts, dims, nodes0, paths0, j, rest, median, left, right, nodes, paths, jobQ);
    }

    /**
     * One turn of the loop in `Tree::grow` (k-nn.hpp:185-217): take the
     * front job; a one-index job makes its node a leaf, any other job is
     * expanded. The indices still pending shrink by at least the pivot.
     */
    method RunJob()
      modifies this`nodes, this`numNodes, this`jobQ, this`paths
      requires Valid() && jobQ != []
      ensures Valid()
      ensures |Pending(jobQ)| < |Pending(old(jobQ))|
      ensures jobQ == [] ==> numNodes == |pts|
    {
      var j := jobQ[0];
      Pop(jobQ);
      jobQ := jobQ[1..];
      FrontJob(pts, dims, nodes, paths, j, jobQ);
      if |j.indices| == 1 {
        ghost var nodes0 := nodes;
        nodes := Assign(nodes, j.node, j.indices[0]);
        LeafDone(pts, dims, nodes0, paths, j, jobQ, nodes);
      } else {
        Expand(j);
      }
      if jobQ == [] {
        DrainedCount(pts, dims, nodes, paths);
      }
    }

    /**
     * `Tree::grow` (k-nn.hpp:181-220) for one worker running alone: run
     * jobs until the queue is empty and `num_nodes` has reached the number
     * of points.
     */
    method Grow(tid: nat)
      modifies this`nodes, this`numNodes, this`jobQ, this`paths
      requires Valid()
      ensures Valid() && jobQ == [] && numNodes == |pts|
    {
      if jobQ == [] {
        DrainedCount(pts, dims, nodes, paths);
      }
      while !(jobQ == [] && numNodes == |pts|)
        invariant Valid()
        invariant jobQ == [] ==> numNodes == |pts|
        decreases |Pending(jobQ)|
      {
        RunJob();
      }
    }

    /**
     * `Tree::process_query_batch` (k-nn.hpp:228-245) for one worker running
     * alone: claim batches of `BATCH_SIZE` query indices from `next_batch_`
     * until it passes the last query, answer each query of a batch from
     * an empty heap and store its candidates' points in its slots.
     */
    method ProcessQueryBatch(tid: nat, k: nat)
      modifies this`nextBatch, this`results, this`processed
      requires QueryReady(View(), queries, k) && |results| == |queries| * k
      ensures nextBatch >= |queries| && |results| == |queries| * k
      ensures results == Filled(AllAnswers(View(), queries, k), k, old(results), old(nextBatch), |queries|)
      ensures processed == old(processed) + Batches(old(nextBatch), |queries|)
    {
      nextBatch, results, processed :=
        ClaimBatches(View(), queries, k, nextBatch, AllAnswers(View(), queries, k), results, processed);
    }

    /**
     * `Tree::query` (k-nn.hpp:111-124): install the queries, reset
     * `next_batch_`, resize the result store to `k` slots per query and let
     * `numThreads` workers answer them. With at least one worker every
     * query is answered once, in order, and slot `j` of query `i` holds the
     * point of its `j`-th candidate, or what the store held there before
     * when the heap has fewer than `j + 1` candidates.
     */
    method Query(qs: seq<seq<int>>, d: nat, k: nat, numThreads: nat)
      modifies this`queries, this`nextBatch, this`results, this`processed
      requires d == dims && forall q :: 0 <= q < |qs| ==> |qs[q]| == dims
      requires numThreads >= 1 && |qs| >= 1 ==> CompleteTree(pts, dims, nodes) && |pts| >= 2 && k >= 1
      ensures queries == qs && |results| == |qs| * k
      ensures numThreads == 0 ==> results == Resize(old(results), |qs| * k) && processed == []
      ensures numThreads >= 1 ==> processed == Range(0, |qs|)
      ensures numThreads >= 1 ==> Answered(View(), qs, k, Resize(old(results), |qs| * k), results)
    {
      if numThreads >= 1 && |qs| >= 1 {
        ReadyToQuery(pts, dims, nodes, qs, k);
      }
      queries := qs;
      nextBatch := 0;
      results := Resize(results, |qs| * k);
      processed := [];
      ghost var res0 := results;
      for t := 0 to numThreads
        invariant queries == qs && |results| == |qs| * k
        invariant numThreads >= 1 ==> QueryReady(View(), qs, k)
        invariant t == 0 ==> results == res0 && processed == [] && nextBatch == 0
        invariant t >= 1 ==> results == Filled(AllAnswers(View(), qs, k), k, res0, 0, |qs|) && nextBatch >= |qs|
        invariant t >= 1 ==> processed == Range(0, |qs|)
      {
        ghost var nb := nextBatch;
        ProcessQueryBatch(t, k);
        if t == 0 {
          BatchesCover(0, |qs|);
        } else {
          assert Batches(nb, |qs|) == [];
          assert processed == Range(0, |qs|) + [];
        }
      }
      if numThreads >= 1 {
        FilledAnswered(View(), qs, k, res0);
      }
    }

    /**
     * The body of `Tree::Tree` (k-nn.hpp:85-107) on a fresh arena holding
     * only the root: the root takes the sampled median of all indices, then
     * `numThreads` workers grow the tree. With at least one worker the
     * result is a complete tree over the points; with none, the root and
     * its queued children are all there is.
     */
    method Build(numThreads: nat)
      modifies this`nodes, this`numNodes, this`jobQ, this`paths
      requires PointStore(pts, dims) && |pts| >= 1 && SamplerOk(sampler)
      requires nodes == [Node(0, None, None, None)] && numNodes == 1 && jobQ == [] && paths == [[]]
      ensures Valid() && nodes[0].index.Some?
      ensures numThreads >= 1 ==> Complete()
    {
      InitialInv(pts, dims);
      var root := Job(0, Range(0, |pts|));
      NoMoreJobs(root);
      assert [root] + jobQ == [root];
      ghost var median := JobMedian(root);
      Expand(root);
      ExpandedPivot([Node(0, None, None, None)], 0, median,
                    Below(pts, 0, median, root.indices), AtOrAbove(pts, 0, median, root.indices));
      for t := 0 to numThreads
        invariant Valid() && nodes[0].index.Some?
        invariant t >= 1 ==> jobQ == [] && numNodes == |pts|
      {
        Grow(t);
        AllAssigned(pts, dims, nodes, paths);
      }
      if numThreads >= 1 {
        Completed(pts, dims, nodes, paths);
      }
    }

    /** `Tree::Tree` (k-nn.hpp:80-108): a one-node arena, then the build. */
    constructor (p: seq<seq<int>>, d: nat, numThreads: nat, sampler: seq<nat> -> seq<nat>)
      requires PointStore(p, d) && |p| >= 1 && SamplerOk(sampler)
      ensures pts == p && dims == d && this.sampler == sampler
      ensures Valid() && nodes[0].index.Some?
      ensures numThreads >= 1 ==> Complete()
      ensures queries == [] && results == [] && processed == []
    {
      pts, dims, this.sampler := p, d, sampler;
      nodes := [Node(0, None, None, None)];
      numNodes := 1;
      jobQ := [];
      paths := [[]];
      queries, nextBatch, results, processed := [], 0, [], [];
      new;
      Build(numThreads);
    }
  }
}
