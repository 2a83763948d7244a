/**
 * The invariant of the tree build (`Tree::Tree` and `Tree::grow`,
 * k-nn.hpp:80-108, 181-220) stated over the node arena and the job queue,
 * with one lemma per kind of step the build takes.
 */
module BuildInvariant {
  import opened Common
  import opened Points
  import opened Partition
  import opened Nodes

  /** One edge on the way down from the root: the node passed and the side taken. */
  datatype Step = Step(node: nat, side: Side)

  /**
   * Indices that a job has split off for one side of its node but for which
   * no child node exists yet (between `split` and `make_unique<Node>`).
   */
  datatype Frag = Frag(parent: nat, side: Side, indices: seq<nat>)

  function FragPending(frags: seq<Frag>): seq<nat>
  {
    if frags == [] then [] else frags[0].indices + FragPending(frags[1..])
  }

  /** The fragments a split leaves: one per non-empty half, left first. */
  function SplitFrags(n: nat, left: seq<nat>, right: seq<nat>): seq<Frag>
  {
    (if |left| > 0 then [Frag(n, Left, left)] else []) + (if |right| > 0 then [Frag(n, Right, right)] else [])
  }

  /** `j.node->index_ = x`. */
  function Assign(nodes: seq<Node>, n: nat, x: nat): seq<Node>
    requires n < |nodes|
  {
    nodes[n := nodes[n].(index := Some(x))]
  }

  /** `j.node->left_ (or right_) = make_unique<Node>(j.node->level_ + 1)`. */
  function AddChild(nodes: seq<Node>, p: nat, side: Side): seq<Node>
    requires p < |nodes|
  {
    nodes[p := WithChild(nodes[p], side, |nodes|)] + [Node(nodes[p].level + 1, None, None, None)]
  }

  /** Point `x` lies on side `st.side` of the split made at node `st.node`. */
  ghost predicate Respects(pts: seq<seq<int>>, nodes: seq<Node>, st: Step, x: nat)
  {
    && st.node < |nodes| && nodes[st.node].index.Some?
    && x < |pts| && |pts[x]| > 0
    && (var a := nodes[st.node].index.value;
        a < |pts| && |pts[a]| > 0 &&
        (if st.side == Left then pts[x][0] < pts[a][0] else pts[x][0] >= pts[a][0]))
  }

  /** Point `x` lies on the right side of every split along `path`. */
  ghost predicate RespectsPath(pts: seq<seq<int>>, nodes: seq<Node>, path: seq<Step>, x: nat)
  {
    forall t :: 0 <= t < |path| ==> Respects(pts, nodes, path[t], x)
  }

  ghost predicate LinkOk(nodes: seq<Node>, paths: seq<seq<Step>>, i: nat, side: Side)
    requires i < |nodes| == |paths|
  {
    Child(nodes[i], side).Some? ==>
      var c := Child(nodes[i], side).value;
      i < c < |nodes| && paths[c] == paths[i] + [Step(i, side)]
  }

  ghost predicate ParentOk(nodes: seq<Node>, paths: seq<seq<Step>>, m: nat)
    requires m < |nodes| == |paths|
  {
    |paths[m]| > 0 &&
    var st := paths[m][|paths[m]| - 1];
    st.node < m && Child(nodes[st.node], st.side) == Some(m)
  }

  /**
   * Shape of the arena: `paths[i]` is the root-to-node path of node `i`; the
   * root has level 0 and every child is one level below its parent; each
   * non-root node hangs from exactly the parent its path names; a node
   * still waiting for its job has no children.
   */
  ghost predicate ArenaOk(nodes: seq<Node>, paths: seq<seq<Step>>)
  {
    && |nodes| >= 1 && |paths| == |nodes| && paths[0] == []
    && (forall i :: 0 <= i < |nodes| ==> nodes[i].level == |paths[i]|)
    && (forall i, side :: 0 <= i < |nodes| ==> LinkOk(nodes, paths, i, side))
    && (forall m :: 0 < m < |nodes| ==> ParentOk(nodes, paths, m))
    && (forall i :: 0 <= i < |nodes| && nodes[i].index.None? ==> IsLeaf(nodes[i]))
  }

  ghost predicate AssignedOk(pts: seq<seq<int>>, nodes: seq<Node>)
  {
    forall i :: 0 <= i < |nodes| && nodes[i].index.Some? ==> nodes[i].index.value < |pts|
  }

  ghost predicate JobOk(pts: seq<seq<int>>, nodes: seq<Node>, j: Job)
  {
    j.node < |nodes| && nodes[j.node].index.None? && |j.indices| > 0 && InStore(pts, j.indices)
  }

  ghost predicate HasJob(jobs: seq<Job>, i: nat)
  {
    exists q :: 0 <= q < |jobs| && jobs[q].node == i
  }

  /**
   * Every queued job targets a node still without a pivot and carries a
   * non-empty index list (k-nn.hpp:193); no two jobs target the same node,
   * and every node without a pivot has a job: each created child is queued
   * exactly once.
   */
  ghost predicate JobsOk(pts: seq<seq<int>>, nodes: seq<Node>, jobs: seq<Job>)
  {
    && (forall q :: 0 <= q < |jobs| ==> JobOk(pts, nodes, jobs[q]))
    && (forall a, b :: 0 <= a < b < |jobs| ==> jobs[a].node != jobs[b].node)
    && (forall i :: 0 <= i < |nodes| && nodes[i].index.None? ==> HasJob(jobs, i))
  }

  ghost predicate FragOk(pts: seq<seq<int>>, nodes: seq<Node>, f: Frag)
  {
    && f.parent < |nodes| && nodes[f.parent].index.Some? && Child(nodes[f.parent], f.side).None?
    && |f.indices| > 0 && InStore(pts, f.indices)
  }

  ghost predicate FragsOk(pts: seq<seq<int>>, nodes: seq<Node>, frags: seq<Frag>)
  {
    && (forall f :: 0 <= f < |frags| ==> FragOk(pts, nodes, frags[f]))
    && (forall a, b :: 0 <= a < b < |frags| ==>
          frags[a].parent != frags[b].parent || frags[a].side != frags[b].side)
  }

  /**
   * The assigned pivots and the indices still pending cover every point
   * index exactly once.
   */
  ghost predicate CoverOk(pts: seq<seq<int>>, nodes: seq<Node>, jobs: seq<Job>, frags: seq<Frag>)
  {
    multiset(Pivots(nodes)) + multiset(Pending(jobs)) + multiset(FragPending(frags))
      == multiset(Range(0, |pts|))
  }

  /**
   * Every pivot and every pending index lies on the correct side of every
   * split above the place it will end up in.
   */
  ghost predicate PartitionOk(pts: seq<seq<int>>, nodes: seq<Node>, paths: seq<seq<Step>>,
                              jobs: seq<Job>, frags: seq<Frag>)
  {
    && (forall m :: 0 <= m < |nodes| && m < |paths| && nodes[m].index.Some? ==>
          RespectsPath(pts, nodes, paths[m], nodes[m].index.value))
    && (forall q, x :: 0 <= q < |jobs| && jobs[q].node < |paths| && x in jobs[q].indices ==>
          RespectsPath(pts, nodes, paths[jobs[q].node], x))
    && (forall f, x :: 0 <= f < |frags| && frags[f].parent < |paths| && x in frags[f].indices ==>
          RespectsPath(pts, nodes, paths[frags[f].parent] + [Step(frags[f].parent, frags[f].side)], x))
  }

  ghost predicate Inv(pts: seq<seq<int>>, dims: nat, nodes: seq<Node>, paths: seq<seq<Step>>,
                      jobs: seq<Job>, frags: seq<Frag>)
  {
    && PointStore(pts, dims)
    && ArenaOk(nodes, paths)
    && AssignedOk(pts, nodes)
    && JobsOk(pts, nodes, jobs)
    && FragsOk(pts, nodes, frags)
    && CoverOk(pts, nodes, jobs, frags)
    && PartitionOk(pts, nodes, paths, jobs, frags)
  }

  // ---------------------------------------------------------------------
  // Helpers
  // ---------------------------------------------------------------------

  lemma KeyedOnZero(pts: seq<seq<int>>, dims: nat, s: seq<nat>)
    requires PointStore(pts, dims) && InStore(pts, s)
    ensures Keyed(pts, 0, s)
  {
  }

  /** Splits stay valid when nodes gain pivots they lacked, gain children, or are appended. */
  lemma RespectsStable(pts: seq<seq<int>>, nodes: seq<Node>, nodes': seq<Node>, path: seq<Step>, x: nat)
    requires |nodes| <= |nodes'|
    requires forall i :: 0 <= i < |nodes| && nodes[i].index.Some? ==> nodes'[i].index == nodes[i].index
    requires RespectsPath(pts, nodes, path, x)
    ensures RespectsPath(pts, nodes', path, x)
  {
    forall t | 0 <= t < |path| ensures Respects(pts, nodes', path[t], x) {
      assert Respects(pts, nodes, path[t], x);
    }
  }

  lemma FragPendingSplit(n: nat, left: seq<nat>, right: seq<nat>)
    ensures FragPending(SplitFrags(n, left, right)) == left + right
  {
    var fs := SplitFrags(n, left, right);
    if |left| > 0 && |right| > 0 {
      assert fs[1..] == [Frag(n, Right, right)];
      assert FragPending(fs[1..]) == right + FragPending([]);
    } else if |left| > 0 {
      assert FragPending(fs) == left + FragPending([]);
      assert right == [];
    } else if |right| > 0 {
      assert FragPending(fs) == right + FragPending([]);
      assert left == [];
    } else {
      assert left == [] && right == [];
    }
  }

  /** An index occurs at most once among the assigned and pending indices. */
  lemma CoverUnique(pts: seq<seq<int>>, nodes: seq<Node>, jobs: seq<Job>, frags: seq<Frag>, x: nat)
    requires CoverOk(pts, nodes, jobs, frags)
    ensures multiset(Pivots(nodes))[x] + multiset(Pending(jobs))[x] + multiset(FragPending(frags))[x] <= 1
  {
    RangeCount(0, |pts|, x);
  }

  /** The number of assigned pivots plus the number of pending indices is the number of points. */
  lemma CoverSize(pts: seq<seq<int>>, nodes: seq<Node>, jobs: seq<Job>)
    requires CoverOk(pts, nodes, jobs, [])
    ensures |Pivots(nodes)| + |Pending(jobs)| == |pts|
  {
    assert multiset(Pivots(nodes)) + multiset(Pending(jobs)) == multiset(Range(0, |pts|));
    assert |multiset(Range(0, |pts|))| == |pts|;
  }

  // ---------------------------------------------------------------------
  // The steps of the build
  // ---------------------------------------------------------------------

  /** Before the root split: one unassigned root whose job holds `0 .. N-1` (k-nn.hpp:82-83). */
  lemma InitialInv(pts: seq<seq<int>>, dims: nat)
    requires PointStore(pts, dims) && |pts| >= 1
    ensures Inv(pts, dims, [Node(0, None, None, None)], [[]], [Job(0, Range(0, |pts|))], [])
  {
    var nodes := [Node(0, None, None, None)];
    var jobs := [Job(0, Range(0, |pts|))];
    InitialArena(nodes);
    InitialJobs(pts, nodes, jobs);
    InitialCover(pts, nodes, jobs);
    InitialPartition(pts, nodes, jobs);
  }

  /** At the start the arena is the root alone, a leaf at level 0 on the empty path. */
  lemma InitialArena(nodes: seq<Node>)
    requires nodes == [Node(0, None, None, None)]
    ensures ArenaOk(nodes, [[]])
  {
    forall i, side | 0 <= i < |nodes| ensures LinkOk(nodes, [[]], i, side) {
      assert nodes[i] == Node(0, None, None, None);
    }
  }

  /** At the start the root's job is the only one, over every index. */
  lemma InitialJobs(pts: seq<seq<int>>, nodes: seq<Node>, jobs: seq<Job>)
    requires |pts| >= 1 && nodes == [Node(0, None, None, None)] && jobs == [Job(0, Range(0, |pts|))]
    ensures JobsOk(pts, nodes, jobs)
  {
    assert jobs[0].node == 0;
    assert HasJob(jobs, 0);
    assert JobOk(pts, nodes, jobs[0]);
  }

  /** At the start every index is pending in the root's job. */
  lemma InitialCover(pts: seq<seq<int>>, nodes: seq<Node>, jobs: seq<Job>)
    requires nodes == [Node(0, None, None, None)] && jobs == [Job(0, Range(0, |pts|))]
    ensures CoverOk(pts, nodes, jobs, [])
  {
    assert Pivots(nodes) == Pivots([]) + [];
    assert Pending(jobs) == Range(0, |pts|) + Pending([]);
    assert FragPending([]) == [];
  }

  /** The root's path is empty, so nothing constrains the indices of its job. */
  lemma InitialPartition(pts: seq<seq<int>>, nodes: seq<Node>, jobs: seq<Job>)
    requires nodes == [Node(0, None, None, None)] && jobs == [Job(0, Range(0, |pts|))]
    ensures PartitionOk(pts, nodes, [[]], jobs, [])
  {
  }

  /**
   * Processing the front job: its node takes the pivot `median` and the
   * rest of its indices become the fragments of the two halves. The pivot
   * occurs exactly once among the job's indices, so the count assertion of
   * `split` holds.
   */
  lemma AssignStep(pts: seq<seq<int>>, dims: nat, nodes: seq<Node>, paths: seq<seq<Step>>,
                   j: Job, rest: seq<Job>, median: nat, left: seq<nat>, right: seq<nat>)
    requires Inv(pts, dims, nodes, paths, [j] + rest, [])
    requires median in j.indices
    requires KeyedAt(pts, 0, median) && Keyed(pts, 0, j.indices)
    requires left == Below(pts, 0, median, j.indices) && right == AtOrAbove(pts, 0, median, j.indices)
    ensures multiset(j.indices)[median] == 1
    ensures j.node < |nodes|
    ensures Inv(pts, dims, Assign(nodes, j.node, median), paths, rest, SplitFrags(j.node, left, right))
  {
    assert ([j] + rest)[0] == j;
    assert JobOk(pts, nodes, j);
    AssignArena(nodes, paths, j.node, median);
    AssignJobs(pts, nodes, j, rest, median);
    AssignFrags(pts, dims, nodes, j.node, median, j.indices, left, right);
    AssignCover(pts, nodes, j, rest, median, left, right);
    AssignPartition(pts, nodes, paths, j, rest, median, left, right);
  }

  lemma AssignArena(nodes: seq<Node>, paths: seq<seq<Step>>, n: nat, median: nat)
    requires ArenaOk(nodes, paths) && n < |nodes|
    ensures ArenaOk(Assign(nodes, n, median), paths)
  {
    var nodes' := Assign(nodes, n, median);
    forall i, side | 0 <= i < |nodes'| ensures LinkOk(nodes', paths, i, side) {
      assert LinkOk(nodes, paths, i, side);
      assert Child(nodes'[i], side) == Child(nodes[i], side);
    }
    forall m | 0 < m < |nodes'| ensures ParentOk(nodes', paths, m) {
      assert ParentOk(nodes, paths, m);
      var st := paths[m][|paths[m]| - 1];
      assert Child(nodes'[st.node], st.side) == Child(nodes[st.node], st.side);
    }
    forall i | 0 <= i < |nodes'| ensures nodes'[i].level == |paths[i]| {
      assert nodes'[i].level == nodes[i].level;
    }
  }

  lemma AssignJobs(pts: seq<seq<int>>, nodes: seq<Node>, j: Job, rest: seq<Job>, median: nat)
    requires JobsOk(pts, nodes, [j] + rest)
    requires j.node < |nodes|
    ensures JobsOk(pts, Assign(nodes, j.node, median), rest)
  {
    var jobs := [j] + rest;
    var n := j.node;
    var nodes' := Assign(nodes, n, median);
    assert jobs[0] == j;
    forall q | 0 <= q < |rest| ensures JobOk(pts, nodes', rest[q]) {
      assert jobs[q + 1] == rest[q];
      assert JobOk(pts, nodes, jobs[q + 1]);
      assert jobs[0].node != jobs[q + 1].node;
    }
    forall a, b | 0 <= a < b < |rest| ensures rest[a].node != rest[b].node {
      assert jobs[a + 1] == rest[a] && jobs[b + 1] == rest[b];
    }
    forall i | 0 <= i < |nodes'| && nodes'[i].index.None? ensures HasJob(rest, i) {
      assert i != n && nodes[i].index.None?;
      assert HasJob(jobs, i);
      var q :| 0 <= q < |jobs| && jobs[q].node == i;
      assert q != 0;
      assert rest[q - 1].node == i;
    }
  }

  lemma AssignFrags(pts: seq<seq<int>>, dims: nat, nodes: seq<Node>, n: nat, median: nat,
                    J: seq<nat>, left: seq<nat>, right: seq<nat>)
    requires PointStore(pts, dims) && n < |nodes| && IsLeaf(nodes[n]) && InStore(pts, J)
    requires KeyedAt(pts, 0, median) && Keyed(pts, 0, J)
    requires left == Below(pts, 0, median, J) && right == AtOrAbove(pts, 0, median, J)
    ensures FragsOk(pts, Assign(nodes, n, median), SplitFrags(n, left, right))
  {
    forall i | 0 <= i < |left| ensures left[i] < |pts| {
      SplitMembers(pts, 0, median, J, left[i]);
    }
    forall i | 0 <= i < |right| ensures right[i] < |pts| {
      SplitMembers(pts, 0, median, J, right[i]);
    }
    var nodes' := Assign(nodes, n, median);
    var frags := SplitFrags(n, left, right);
    forall f | 0 <= f < |frags| ensures FragOk(pts, nodes', frags[f]) {
      assert frags[f].parent == n;
      assert frags[f].indices == left || frags[f].indices == right;
    }
  }

  lemma AssignCover(pts: seq<seq<int>>, nodes: seq<Node>, j: Job, rest: seq<Job>, median: nat,
                    left: seq<nat>, right: seq<nat>)
    requires CoverOk(pts, nodes, [j] + rest, [])
    requires j.node < |nodes| && nodes[j.node].index.None?
    requires median in j.indices
    requires KeyedAt(pts, 0, median) && Keyed(pts, 0, j.indices)
    requires left == Below(pts, 0, median, j.indices) && right == AtOrAbove(pts, 0, median, j.indices)
    ensures multiset(j.indices)[median] == 1
    ensures CoverOk(pts, Assign(nodes, j.node, median), rest, SplitFrags(j.node, left, right))
  {
    var n := j.node;
    var bag: multiset<nat> := multiset(j.indices);
    var one: multiset<nat> := multiset{median};
    CoverFront(pts, nodes, j, rest, median);
    SplitMultiset(pts, 0, median, j.indices);
    DropOne(bag, median);
    PivotsAssign(nodes, n, median);
    FragPendingBag(n, left, right);
    BagAlgebra(multiset(Pivots(nodes)), multiset(Pivots(Assign(nodes, n, median))), bag, multiset(Pending(rest)),
               multiset(left), multiset(right), one, multiset(Range(0, |pts|)));
  }

  /** The cover with the front job's indices taken apart; each of them is pending once. */
  lemma CoverFront(pts: seq<seq<int>>, nodes: seq<Node>, j: Job, rest: seq<Job>, x: nat)
    requires CoverOk(pts, nodes, [j] + rest, []) && x in j.indices
    ensures multiset(Pivots(nodes)) + (multiset(j.indices) + multiset(Pending(rest))) + multiset{}
      == multiset(Range(0, |pts|))
    ensures multiset(j.indices)[x] == 1 && multiset{x} <= multiset(j.indices)
  {
    assert Pending([j] + rest) == j.indices + Pending(rest);
    assert FragPending([]) == [];
    PendingOnce(multiset(Pivots(nodes)), multiset(j.indices), multiset(Pending(rest)), |pts|, x);
  }

  /** An element of one part of a partition of `0..n` is held by that part exactly once. */
  lemma PendingOnce(p: multiset<nat>, b: multiset<nat>, r: multiset<nat>, n: nat, x: nat)
    requires p + (b + r) + multiset{} == multiset(Range(0, n)) && x in b
    ensures b[x] == 1 && multiset{x} <= b
  {
    RangeCount(0, n, x);
    assert (p + (b + r) + multiset{})[x] == p[x] + b[x] + r[x];
  }

  /** Clearing the count of an element held once removes that one copy. */
  lemma DropOne(m: multiset<nat>, x: nat)
    requires m[x] == 1
    ensures m[x := 0] == m - multiset{x}
  {
    BagExt(m[x := 0], m - multiset{x});
  }

  /** Assigning a point to a node that had none adds it to the pivots. */
  lemma PivotsAssign(nodes: seq<Node>, n: nat, x: nat)
    requires n < |nodes| && nodes[n].index.None?
    ensures multiset(Pivots(Assign(nodes, n, x))) + multiset{} == multiset(Pivots(nodes)) + multiset{x}
  {
    var nodes' := Assign(nodes, n, x);
    PivotsUpdate(nodes, n, nodes'[n]);
    assert IndexBag(nodes[n]) == multiset{};
    assert IndexBag(nodes'[n]) == multiset{x};
  }

  /** The indices the fragments of a split hold are those of its two halves. */
  lemma FragPendingBag(n: nat, left: seq<nat>, right: seq<nat>)
    ensures multiset(FragPending(SplitFrags(n, left, right))) == multiset(left) + multiset(right)
  {
    FragPendingSplit(n, left, right);
  }

  lemma BagCancel(a: multiset<nat>, b: multiset<nat>, c: multiset<nat>)
    requires a + c == b + c
    ensures a == b
  {
    forall x ensures a[x] == b[x] {
      assert (a + c)[x] == (b + c)[x];
    }
  }

  /** Bookkeeping behind `AssignCover`: moving one element from a job's bag to the pivots. */
  lemma BagAlgebra(p: multiset<nat>, p': multiset<nat>, b: multiset<nat>, r: multiset<nat>,
                   l: multiset<nat>, h: multiset<nat>, one: multiset<nat>, base: multiset<nat>)
    requires p + (b + r) + multiset{} == base
    requires l + h == b - one && one <= b
    requires p' + multiset{} == p + one
    ensures p' + r + (l + h) == base
  {
    forall x ensures (p' + r + (l + h))[x] == base[x] {
      assert one[x] <= b[x];
      assert (b - one)[x] == b[x] - one[x];
      assert (p' + multiset{})[x] == p'[x] == p[x] + one[x];
      assert (p + (b + r) + multiset{})[x] == p[x] + b[x] + r[x] == base[x];
    }
  }

  lemma AssignPartition(pts: seq<seq<int>>, nodes: seq<Node>, paths: seq<seq<Step>>,
                        j: Job, rest: seq<Job>, median: nat, left: seq<nat>, right: seq<nat>)
    requires PartitionOk(pts, nodes, paths, [j] + rest, [])
    requires |paths| == |nodes| && j.node < |nodes| && nodes[j.node].index.None?
    requires median in j.indices && median < |pts| && |pts[median]| > 0
    requires KeyedAt(pts, 0, median) && Keyed(pts, 0, j.indices)
    requires left == Below(pts, 0, median, j.indices) && right == AtOrAbove(pts, 0, median, j.indices)
    ensures PartitionOk(pts, Assign(nodes, j.node, median), paths, rest, SplitFrags(j.node, left, right))
  {
    var jobs := [j] + rest;
    var n := j.node;
    var J := j.indices;
    var nodes' := Assign(nodes, n, median);
    var frags := SplitFrags(n, left, right);
    assert jobs[0] == j;
    forall m | 0 <= m < |nodes'| && m < |paths| && nodes'[m].index.Some?
      ensures RespectsPath(pts, nodes', paths[m], nodes'[m].index.value)
    {
      if m == n {
        assert RespectsPath(pts, nodes, paths[jobs[0].node], median);
      }
      RespectsStable(pts, nodes, nodes', paths[m], nodes'[m].index.value);
    }
    forall q, x | 0 <= q < |rest| && rest[q].node < |paths| && x in rest[q].indices
      ensures RespectsPath(pts, nodes', paths[rest[q].node], x)
    {
      assert jobs[q + 1] == rest[q];
      RespectsStable(pts, nodes, nodes', paths[rest[q].node], x);
    }
    forall f, x | 0 <= f < |frags| && frags[f].parent < |paths| && x in frags[f].indices
      ensures RespectsPath(pts, nodes', paths[frags[f].parent] + [Step(frags[f].parent, frags[f].side)], x)
    {
      var fr := frags[f];
      assert fr.parent == n;
      assert fr.side == Left ==> fr.indices == left;
      assert fr.side == Right ==> fr.indices == right;
      SplitMembers(pts, 0, median, J, x);
      RespectsStable(pts, nodes, nodes', paths[n], x);
      var path := paths[n] + [Step(n, fr.side)];
      forall t | 0 <= t < |path| ensures Respects(pts, nodes', path[t], x) {
        if t == |paths[n]| {
          assert path[t] == Step(n, fr.side);
          assert nodes'[n].index.value == median;
        } else {
          assert path[t] == paths[n][t];
        }
      }
    }
  }

  /**
   * Creating the child node for the first fragment and queueing its job
   * (k-nn.hpp:203-217): the arena grows by one node, one level below its
   * parent, and the queue by one job.
   */
  lemma ChildStep(pts: seq<seq<int>>, dims: nat, nodes: seq<Node>, paths: seq<seq<Step>>,
                  jobs: seq<Job>, f: Frag, frags: seq<Frag>)
    requires Inv(pts, dims, nodes, paths, jobs, [f] + frags)
    ensures f.parent < |nodes|
    ensures Inv(pts, dims, AddChild(nodes, f.parent, f.side),
                paths + [paths[f.parent] + [Step(f.parent, f.side)]],
                jobs + [Job(|nodes|, f.indices)], frags)
  {
    assert ([f] + frags)[0] == f;
    assert FragOk(pts, nodes, f);
    ChildArena(nodes, paths, f.parent, f.side);
    ChildJobs(pts, nodes, jobs, f);
    ChildFrags(pts, nodes, f, frags);
    ChildCover(pts, nodes, jobs, f, frags);
    ChildPartition(pts, nodes, paths, jobs, f, frags);
  }

  /** What `AddChild` keeps: every old node's pivot and level, and every child link but one. */
  lemma AddChildFacts(nodes: seq<Node>, p: nat, side: Side)
    requires p < |nodes|
    ensures var nodes' := AddChild(nodes, p, side);
      && |nodes'| == |nodes| + 1
      && (forall i :: 0 <= i < |nodes| ==> nodes'[i].index == nodes[i].index && nodes'[i].level == nodes[i].level)
      && (forall i, s :: 0 <= i < |nodes| && (i != p || s != side) ==> Child(nodes'[i], s) == Child(nodes[i], s))
      && Child(nodes'[p], side) == Some(|nodes|)
      && nodes'[|nodes|] == Node(nodes[p].level + 1, None, None, None)
  {
  }

  lemma ChildArena(nodes: seq<Node>, paths: seq<seq<Step>>, p: nat, side: Side)
    requires ArenaOk(nodes, paths) && p < |nodes| && Child(nodes[p], side).None?
    requires nodes[p].index.Some?
    ensures ArenaOk(AddChild(nodes, p, side), paths + [paths[p] + [Step(p, side)]])
  {
    var c := |nodes|;
    var nodes' := AddChild(nodes, p, side);
    var paths' := paths + [paths[p] + [Step(p, side)]];
    AddChildFacts(nodes, p, side);
    assert forall i :: 0 <= i < c ==> paths'[i] == paths[i];
    forall i | 0 <= i < |nodes'| ensures nodes'[i].level == |paths'[i]| {
      if i == c {
        assert nodes[p].level == |paths[p]|;
      }
    }
    forall i, s | 0 <= i < |nodes'| ensures LinkOk(nodes', paths', i, s) {
      if i < c && (i != p || s != side) {
        assert LinkOk(nodes, paths, i, s);
      }
    }
    forall m | 0 < m < |nodes'| ensures ParentOk(nodes', paths', m) {
      if m < c {
        assert ParentOk(nodes, paths, m);
        var st := paths[m][|paths[m]| - 1];
        assert !(st.node == p && st.side == side);
      } else {
        assert paths'[m][|paths'[m]| - 1] == Step(p, side);
      }
    }
    forall i | 0 <= i < |nodes'| && nodes'[i].index.None? ensures IsLeaf(nodes'[i]) {
      if i < c && i != p {
        assert nodes'[i] == nodes[i];
      }
    }
  }

  lemma ChildJobs(pts: seq<seq<int>>, nodes: seq<Node>, jobs: seq<Job>, f: Frag)
    requires JobsOk(pts, nodes, jobs) && FragOk(pts, nodes, f)
    ensures JobsOk(pts, AddChild(nodes, f.parent, f.side), jobs + [Job(|nodes|, f.indices)])
  {
    var c := |nodes|;
    var nodes' := AddChild(nodes, f.parent, f.side);
    var jobs' := jobs + [Job(c, f.indices)];
    AddChildFacts(nodes, f.parent, f.side);
    forall q | 0 <= q < |jobs'| ensures JobOk(pts, nodes', jobs'[q]) {
      if q < |jobs| {
        assert jobs'[q] == jobs[q] && JobOk(pts, nodes, jobs[q]);
      }
    }
    forall a, b | 0 <= a < b < |jobs'| ensures jobs'[a].node != jobs'[b].node {
      assert JobOk(pts, nodes, jobs[a]);
      if b < |jobs| {
        assert jobs'[a] == jobs[a] && jobs'[b] == jobs[b];
      }
    }
    forall i | 0 <= i < |nodes'| && nodes'[i].index.None? ensures HasJob(jobs', i) {
      if i < c {
        assert HasJob(jobs, i);
        var q :| 0 <= q < |jobs| && jobs[q].node == i;
        assert jobs'[q].node == i;
      } else {
        assert jobs'[|jobs|].node == i;
      }
    }
  }

  lemma ChildFrags(pts: seq<seq<int>>, nodes: seq<Node>, f: Frag, frags: seq<Frag>)
    requires FragsOk(pts, nodes, [f] + frags) && f.parent < |nodes|
    ensures FragsOk(pts, AddChild(nodes, f.parent, f.side), frags)
  {
    var all := [f] + frags;
    assert all[0] == f;
    assert FragOk(pts, nodes, f);
    var nodes' := AddChild(nodes, f.parent, f.side);
    AddChildFacts(nodes, f.parent, f.side);
    forall g | 0 <= g < |frags| ensures FragOk(pts, nodes', frags[g]) {
      assert all[g + 1] == frags[g];
      assert FragOk(pts, nodes, all[g + 1]);
      assert all[0].parent != all[g + 1].parent || all[0].side != all[g + 1].side;
    }
    forall a, b | 0 <= a < b < |frags| ensures frags[a].parent != frags[b].parent || frags[a].side != frags[b].side {
      assert all[a + 1] == frags[a] && all[b + 1] == frags[b];
    }
  }

  lemma ChildCover(pts: seq<seq<int>>, nodes: seq<Node>, jobs: seq<Job>, f: Frag, frags: seq<Frag>)
    requires CoverOk(pts, nodes, jobs, [f] + frags) && f.parent < |nodes|
    ensures CoverOk(pts, AddChild(nodes, f.parent, f.side), jobs + [Job(|nodes|, f.indices)], frags)
  {
    assert ([f] + frags)[1..] == frags;
    assert FragPending([f] + frags) == f.indices + FragPending(frags);
    PivotsAddChild(nodes, f.parent, f.side);
    PendingAppend(jobs, [Job(|nodes|, f.indices)]);
    assert Pending([Job(|nodes|, f.indices)]) == f.indices + Pending([]);
  }

  /** A new child has no pivot yet, so the pivot bag is unchanged. */
  lemma PivotsAddChild(nodes: seq<Node>, p: nat, side: Side)
    requires p < |nodes|
    ensures multiset(Pivots(AddChild(nodes, p, side))) == multiset(Pivots(nodes))
  {
    var c := |nodes|;
    var mid := nodes[p := WithChild(nodes[p], side, c)];
    PivotsUpdate(nodes, p, WithChild(nodes[p], side, c));
    assert IndexBag(WithChild(nodes[p], side, c)) == IndexBag(nodes[p]);
    BagCancel(multiset(Pivots(mid)), multiset(Pivots(nodes)), IndexBag(nodes[p]));
    PivotsAppend(mid, Node(nodes[p].level + 1, None, None, None));
    assert IndexBag(Node(nodes[p].level + 1, None, None, None)) == multiset{};
  }

  lemma ChildPartition(pts: seq<seq<int>>, nodes: seq<Node>, paths: seq<seq<Step>>,
                       jobs: seq<Job>, f: Frag, frags: seq<Frag>)
    requires PartitionOk(pts, nodes, paths, jobs, [f] + frags)
    requires |paths| == |nodes| && f.parent < |nodes|
    requires forall q :: 0 <= q < |jobs| ==> jobs[q].node < |nodes|
    requires forall g :: 0 <= g < |frags| ==> frags[g].parent < |nodes|
    ensures PartitionOk(pts, AddChild(nodes, f.parent, f.side), paths + [paths[f.parent] + [Step(f.parent, f.side)]],
                        jobs + [Job(|nodes|, f.indices)], frags)
  {
    var all := [f] + frags;
    assert all[0] == f;
    var p, side, c := f.parent, f.side, |nodes|;
    var nodes' := AddChild(nodes, p, side);
    var paths' := paths + [paths[p] + [Step(p, side)]];
    var jobs' := jobs + [Job(c, f.indices)];
    AddChildFacts(nodes, p, side);
    forall m | 0 <= m < |nodes'| && m < |paths'| && nodes'[m].index.Some?
      ensures RespectsPath(pts, nodes', paths'[m], nodes'[m].index.value)
    {
      assert m < c;
      assert paths'[m] == paths[m];
      RespectsStable(pts, nodes, nodes', paths[m], nodes'[m].index.value);
    }
    forall q, x | 0 <= q < |jobs'| && jobs'[q].node < |paths'| && x in jobs'[q].indices
      ensures RespectsPath(pts, nodes', paths'[jobs'[q].node], x)
    {
      if q < |jobs| {
        assert jobs'[q] == jobs[q];
        assert paths'[jobs[q].node] == paths[jobs[q].node];
        RespectsStable(pts, nodes, nodes', paths[jobs[q].node], x);
      } else {
        assert jobs'[q] == Job(c, f.indices);
        RespectsStable(pts, nodes, nodes', paths[p] + [Step(p, side)], x);
      }
    }
    forall g, x | 0 <= g < |frags| && frags[g].parent < |paths'| && x in frags[g].indices
      ensures RespectsPath(pts, nodes', paths'[frags[g].parent] + [Step(frags[g].parent, frags[g].side)], x)
    {
      assert all[g + 1] == frags[g];
      assert paths'[frags[g].parent] == paths[frags[g].parent];
      RespectsStable(pts, nodes, nodes', paths[frags[g].parent] + [Step(frags[g].parent, frags[g].side)], x);
    }
  }

  // ---------------------------------------------------------------------
  // The end of the build
  // ---------------------------------------------------------------------

  lemma ShapedFromArena(nodes: seq<Node>, paths: seq<seq<Step>>)
    requires ArenaOk(nodes, paths)
    ensures Shaped(nodes)
  {
    forall i | 0 <= i < |nodes| ensures ChildAfter(nodes, i, nodes[i].left) && ChildAfter(nodes, i, nodes[i].right) {
      assert LinkOk(nodes, paths, i, Left) && LinkOk(nodes, paths, i, Right);
    }
  }

  /** The path of a node is a prefix of the path of every node below it. */
  lemma {:induction false} PathPrefix(nodes: seq<Node>, paths: seq<seq<Step>>, c: nat, m: nat)
    requires ArenaOk(nodes, paths) && Shaped(nodes) && c < |nodes| && m in Subtree(nodes, c)
    ensures m < |nodes| && paths[c] <= paths[m]
    decreases |nodes| - c
  {
    SubtreeBounds(nodes, c, m);
    if m != c {
      assert LinkOk(nodes, paths, c, Left) && LinkOk(nodes, paths, c, Right);
      match nodes[c].left {
        case None =>
        case Some(l) => if m in Subtree(nodes, l) { PathPrefix(nodes, paths, l, m); }
      }
      match nodes[c].right {
        case None =>
        case Some(r) => if m in Subtree(nodes, r) { PathPrefix(nodes, paths, r, m); }
      }
    }
  }

  /** Each child link of the arena names its node's one parent and side: the last step of its path. */
  lemma OneParentFromArena(nodes: seq<Node>, paths: seq<seq<Step>>)
    requires ArenaOk(nodes, paths)
    ensures OneParent(nodes)
  {
    forall i, s, i', s' | 0 <= i < |nodes| && 0 <= i' < |nodes| && Child(nodes[i], s).Some?
      && Child(nodes[i], s) == Child(nodes[i'], s')
      ensures i == i' && s == s'
    {
      assert LinkOk(nodes, paths, i, s) && LinkOk(nodes, paths, i', s');
      var c := Child(nodes[i], s).value;
      assert paths[c][|paths[c]| - 1] == Step(i, s);
      assert paths[c][|paths[c]| - 1] == Step(i', s');
    }
  }

  /** Every node hangs, through its parents, from the root. */
  lemma {:induction false} Reachable(nodes: seq<Node>, paths: seq<seq<Step>>, m: nat)
    requires ArenaOk(nodes, paths) && Shaped(nodes) && m < |nodes|
    ensures m in Subtree(nodes, 0)
  {
    if m > 0 {
      assert ParentOk(nodes, paths, m);
      var st := paths[m][|paths[m]| - 1];
      var p := st.node;
      Reachable(nodes, paths, p);
      assert m in Subtree(nodes, p);
      SubtreeTransitive(nodes, 0, p, m);
    }
  }

  /**
   * When the queue is empty and no fragment is left (Tree::grow's exit,
   * k-nn.hpp:194-196), the arena is a complete k-d tree over the points.
   */
  lemma Completed(pts: seq<seq<int>>, dims: nat, nodes: seq<Node>, paths: seq<seq<Step>>)
    requires Inv(pts, dims, nodes, paths, [], [])
    ensures CompleteTree(pts, dims, nodes)
  {
    ShapedFromArena(nodes, paths);
    AllAssigned(pts, dims, nodes, paths);
    CompletedCount(pts, dims, nodes, paths);
    forall i, side | 0 <= i < |nodes| && Child(nodes[i], side).Some?
      ensures nodes[Child(nodes[i], side).value].level == nodes[i].level + 1
    {
      assert LinkOk(nodes, paths, i, side);
    }
    forall m | 0 <= m < |nodes| ensures m in Subtree(nodes, 0) {
      Reachable(nodes, paths, m);
    }
    OneParentFromArena(nodes, paths);
    if |nodes| >= 2 {
      assert ParentOk(nodes, paths, 1);
    }
    PartitionedAtEnd(pts, dims, nodes, paths);
  }

  lemma AllAssigned(pts: seq<seq<int>>, dims: nat, nodes: seq<Node>, paths: seq<seq<Step>>)
    requires Inv(pts, dims, nodes, paths, [], [])
    ensures Assigned(pts, nodes)
  {
    forall i | 0 <= i < |nodes| ensures nodes[i].index.Some? {
      assert nodes[i].index.None? ==> HasJob([], i);
    }
  }

  /** With nothing pending, the pivots are exactly the point indices, one node per point. */
  lemma CompletedCount(pts: seq<seq<int>>, dims: nat, nodes: seq<Node>, paths: seq<seq<Step>>)
    requires Inv(pts, dims, nodes, paths, [], []) && Assigned(pts, nodes)
    ensures multiset(Pivots(nodes)) == multiset(Range(0, |pts|))
    ensures |nodes| == |pts|
  {
    PivotsAllAssigned(nodes);
    assert Pending([]) == [] && FragPending([]) == [];
    assert multiset(Pivots(nodes)) + multiset{} + multiset{} == multiset(Range(0, |pts|));
    assert |multiset(Pivots(nodes))| == |nodes|;
  }

  lemma PartitionedAtEnd(pts: seq<seq<int>>, dims: nat, nodes: seq<Node>, paths: seq<seq<Step>>)
    requires Inv(pts, dims, nodes, paths, [], []) && Shaped(nodes) && Assigned(pts, nodes)
    ensures Partitioned(pts, dims, nodes)
  {
    forall a | 0 <= a < |nodes| ensures SplitHolds(pts, dims, nodes, a) {
      forall m | m in SubtreeOf(nodes, nodes[a].left)
        ensures m < |nodes| && SplitKey(pts, dims, nodes, m) < SplitKey(pts, dims, nodes, a)
      {
        SplitSide(pts, dims, nodes, paths, a, Left, m);
      }
      forall m | m in SubtreeOf(nodes, nodes[a].right)
        ensures m < |nodes| && SplitKey(pts, dims, nodes, m) >= SplitKey(pts, dims, nodes, a)
      {
        SplitSide(pts, dims, nodes, paths, a, Right, m);
      }
    }
  }

  lemma SplitSide(pts: seq<seq<int>>, dims: nat, nodes: seq<Node>, paths: seq<seq<Step>>, a: nat, side: Side, m: nat)
    requires Inv(pts, dims, nodes, paths, [], []) && Shaped(nodes) && Assigned(pts, nodes)
    requires a < |nodes| && Child(nodes[a], side).Some? && m in Subtree(nodes, Child(nodes[a], side).value)
    ensures m < |nodes|
    ensures side == Left ==> SplitKey(pts, dims, nodes, m) < SplitKey(pts, dims, nodes, a)
    ensures side == Right ==> SplitKey(pts, dims, nodes, m) >= SplitKey(pts, dims, nodes, a)
  {
    var c := Child(nodes[a], side).value;
    assert LinkOk(nodes, paths, a, side);
    PathPrefix(nodes, paths, c, m);
    var t := |paths[a]|;
    assert paths[c][t] == Step(a, side);
    assert paths[m][t] == Step(a, side);
    assert RespectsPath(pts, nodes, paths[m], nodes[m].index.value);
    assert Respects(pts, nodes, paths[m][t], nodes[m].index.value);
  }
}
