# A verified model of the k-d tree k-NN index

This project models, in Dafny, the index at the heart of a small k-nearest-neighbour
program. There are two parts.

The index itself (`k-nn.hpp`):

- **Pivot choice.** A node's pivot is an approximate median. It is the middle entry
  of a sample of up to 80 of the node's point indices, sorted on one coordinate.
- **Split.** The other indices are sorted into a strictly-below half and an
  at-or-above half.
- **Construction.** The tree is built through a FIFO queue of jobs. A job pairs the
  node it fills with that node's indices. A counter of created nodes decides when
  the workers stop.
- **Queries.** Queries are handed out in batches of 7 claimed from a shared counter.
  Each query runs a recursive branch-and-bound search. The search keeps a bounded
  max-heap of up to `k` candidates and writes the candidates' points into the query's
  `k` result slots.

The input decoder (`data.hpp`):

- a cursor that reads aligned little-endian fields;
- an 8-byte NUL-padded file tag;
- three or four 64-bit header fields;
- the points' coordinates as 32-bit floats, point after point.

The model is sequential. The worker threads of the build and of the query phase run
one after another. The randomness of `std::sample` becomes a sampler function the
caller supplies. This is enough once the sampler is any function that returns a
valid sample: the jobs' index lists are disjoint, so any sequence of random draws is
the sampler applied to them. Coordinates are integers, an exactly ordered stand-in
for floats. The search compares squared distances, because
`sqrt(a) < sqrt(b) <=> a < b` for non-negative reals.

Modules, one per file:

- `Common` (common.dfy): `Option`, `Range` (`iota`) and sequence and multiset helpers.
- `Points` (points.dfy): the point store and the squared distance.
- `Partition` (partition.dfy): `sample_median_index` and `split`.
- `Nodes` (nodes.dfy): `Node` and `Job` over a node arena, subtrees, and what a
  finished tree is (`CompleteTree`).
- `BuildInvariant` (buildinv.dfy): the invariant of the build and one lemma per kind
  of build step.
- `Search` (search.dfy): `node_val`, `closer_node`, the candidate heap and
  `process_query` as pure functions, with their properties.
- `Knn` (tree.dfy): `class Tree` with its constructor, `grow`, `query` and
  `process_query_batch` as imperative methods, plus the batch and result-slot
  reasoning.
- `Data` (data.dfy): `Reader`, `parse_coors` and `parse_data`,
  with a round-trip theorem against an encoder.

Quirks of the code that the model keeps as written:

- A job picks its median on coordinate `level % dims` (k-nn.hpp:199) but always
  splits on coordinate 0 (k-nn.hpp:201). The root does both on coordinate 0
  (k-nn.hpp:84, 86). So the partition property proved for the finished tree is about
  coordinate 0.
- The search, however, picks its near branch and prunes on `depth % dims`
  (k-nn.hpp:283). The exact-nearest theorem (`Search.NearestFromRoot`) is therefore
  proved for one-dimensional data, where the two agree.
- A leaf only replaces the top of the heap. It never pushes (k-nn.hpp:276-280). So
  the search needs a non-empty heap when it reaches a leaf. A query from an empty
  heap is well defined only when the root is not a leaf, which needs two or more
  points. It also needs `k >= 1`: for `k == 0`, k-nn.hpp:303 reads `heap[0]` of an
  empty heap at the first internal node.
- The node is offered to the heap before the near branch is searched
  (k-nn.hpp:302-305). The model follows the code.
- The heap is not the exact `k` nearest. It is what the code leaves in it, and the
  model proves what it does hold (see the `Offer*` and `Search*` lemmas).

## Model

| member | source | states |
|---|---|---|
| Points.DimAt | k-nn.hpp:199 | the coordinate used at a depth is below `dims`, and it is 0 when there is one dimension |
| Points.SqDistCoordinate | k-nn.hpp:248-256 | the squared distance between two points is at least the squared gap on any one coordinate, which is what makes pruning on one coordinate sound |
| Points.SquareMonotone | k-nn.hpp:306-309 | a value further beyond the plane, on the far side of the target, is at least as far from the target as the plane is |
| Common.Range | k-nn.hpp:82-83 | `iota` over `[lo, hi)`: exactly `hi - lo` entries, entry `i` being `lo + i` |
| Common.RangeCount | k-nn.hpp:82-83 | every index of `[lo, hi)` occurs in the range exactly once, and no other index occurs |
| Partition.SubsequenceMultiset | k-nn.hpp:148-150 | a sample drawn without replacement takes its entries from the indices, no more often than they occur there |
| Partition.SortByKey | k-nn.hpp:152-154 | the sort keeps exactly the sample's entries (same multiset, same length) |
| Partition.SortSorted | k-nn.hpp:152-154 | the sorted sample is ordered by the coordinate on `dim` |
| Partition.SortCounts | k-nn.hpp:152-154 | sorting changes neither how many keys lie below a value nor how many lie at or below it |
| Partition.SortedRank | k-nn.hpp:156 | in a sorted list the entry at position `m` has at most `m` keys below it and at least `m + 1` keys at or below it |
| Partition.SampleMedianIndex | k-nn.hpp:146-157 | the result is an entry of the sample (so one of the indices), and it is a median of the sample: at most `|s|/2` sample keys lie below it and more than `|s|/2` lie at or below it |
| Partition.Split | k-nn.hpp:160-171 | the loop produces exactly `Below` (non-pivot indices with key `<` the pivot's) and `AtOrAbove` (the rest), in input order |
| Partition.SplitMembers | k-nn.hpp:165-170 | an index is in the left half iff it is a non-pivot input with key below the pivot's; in the right half iff a non-pivot input with key at or above it |
| Partition.SplitMultiset | k-nn.hpp:165-171 | the two halves together are exactly the input with every copy of the pivot removed |
| Partition.SplitCountAt | k-nn.hpp:165-171 | per index: the halves hold it as often as the input does, or never when it is the pivot |
| Partition.SplitCount | k-nn.hpp:172-176 | when the pivot occurs once in the input, `|indices| == |left| + |right| + 1`, so the count assertion holds |
| Partition.SplitConcat | k-nn.hpp:165-171 | both halves keep input order: splitting a concatenation splits each part |
| Nodes.SubtreeBounds | k-nn.hpp:37-38 | a subtree holds only arena positions at or after its root |
| Nodes.SubtreeSplit | k-nn.hpp:37-38 | a subtree is its root plus its left and right subtrees |
| Nodes.SubtreeTransitive | k-nn.hpp:37-38 | a node in a subtree of a node in `n`'s subtree is in `n`'s subtree |
| Nodes.PivotsAllAssigned | k-nn.hpp:36 | when every node has a pivot there is one pivot per node and each node's pivot is listed |
| Nodes.PivotsMember | k-nn.hpp:36 | every listed pivot is the pivot of some node |
| Nodes.PendingAppend | k-nn.hpp:63 | the indices pending in two queues are those of the first followed by those of the second |
| BuildInvariant.InitialInv | k-nn.hpp:80-84 | the one-node arena with the job `(root, 0..N-1)` satisfies the build invariant |
| BuildInvariant.CoverUnique | k-nn.hpp:82-83 | under the cover invariant no index is both a pivot and pending, or pending twice |
| BuildInvariant.CoverSize | k-nn.hpp:81 | with no fragments in flight, assigned pivots plus pending indices number exactly `N` |
| BuildInvariant.AssignStep | k-nn.hpp:199-202 | giving a job's node its median keeps the invariant with the two halves in flight, and the median occurs once in the job |
| BuildInvariant.AssignCover | k-nn.hpp:199-202 | pivots, pending indices and the two halves still cover `0..N-1` exactly once after the node takes its median |
| BuildInvariant.AssignPartition | k-nn.hpp:199-202 | every pivot and pending index still lies on the right side of every split above it, the two halves on their side of the new split |
| BuildInvariant.ChildStep | k-nn.hpp:203-217 | creating the child one level down for a non-empty half and queueing its job keeps the invariant |
| BuildInvariant.ChildCover | k-nn.hpp:212-217 | moving a half from in-flight to a queued job keeps the exact cover |
| BuildInvariant.PivotsAddChild | k-nn.hpp:203-210 | a new child changes no pivot |
| BuildInvariant.Reachable | k-nn.hpp:203-210 | every node in the arena hangs below the root |
| BuildInvariant.AllAssigned | k-nn.hpp:193-196 | once the queue is empty every node has a pivot |
| BuildInvariant.CompletedCount | k-nn.hpp:181-186 | at the end the pivots are exactly the indices `0..N-1`, each exactly once, and there are exactly `N` nodes |
| BuildInvariant.PartitionedAtEnd | k-nn.hpp:199-202 | at the end every split holds: left-subtree pivots below the node's on coordinate 0, right-subtree pivots at or above |
| BuildInvariant.SplitSide | k-nn.hpp:199-202 | one split at the end, for a given side and a given node in that subtree |
| BuildInvariant.Completed | k-nn.hpp:80-220 | an empty queue with the invariant means a complete tree: `N` nodes, pivots a permutation of `0..N-1`, levels counting edges from the root, every node reachable and hanging from exactly one parent link, a non-leaf root when `N >= 2`, partition property |
| BuildInvariant.OneParentFromArena | k-nn.hpp:203-210 | in the arena built so far no node is the child of two links: each child link names exactly one parent and one side |
| Knn.ExpandedPivot | k-nn.hpp:202 | after expansion the node's pivot is the median |
| Knn.QueuedShape | k-nn.hpp:212-217 | left child's job first, then the right's, numbered by creation |
| Knn.QueuedPending | k-nn.hpp:212-217 | the queued jobs of an expansion carry exactly the left half then the right half |
| Knn.ExpandStep | k-nn.hpp:199-217 | expanding the front job keeps the invariant, leaves the queue's rest followed by the new children's jobs, and the halves plus the median are the job |
| Knn.ExpandDone | k-nn.hpp:199-217 | the same, with the pending indices shrinking by exactly one (the median) |
| Knn.LeafStep | k-nn.hpp:194-196 | a one-index job makes its node a leaf holding that index and keeps the invariant |
| Knn.LeafDone | k-nn.hpp:194-196 | a leaf job keeps the invariant and shrinks the pending indices |
| Knn.FrontJob | k-nn.hpp:189-193 | the front job targets a node of the arena and carries a non-empty list of valid indices |
| Knn.DrainedCount | k-nn.hpp:185-186 | an empty queue under the invariant means `num_nodes == N`, so a worker that finds the queue empty returns |
| Knn.Tree.JobMedian | k-nn.hpp:199 | the median of a job, on `level % dims`, is one of the job's indices |
| Knn.Tree.Attach | k-nn.hpp:202-217 | the node takes its pivot, a child per non-empty half is created and counted, and the jobs are queued left then right |
| Knn.Tree.Expand | k-nn.hpp:199-217 | the arena and queue become the expansion of the job at its sampled median, split on coordinate 0; the halves and the median make up the job, the invariant holds, and one index fewer is pending |
| Knn.Tree.RunJob | k-nn.hpp:189-217 | one turn of `grow`: the invariant holds, strictly fewer indices are pending, and an empty queue means `num_nodes == N` |
| Knn.Tree.Grow | k-nn.hpp:181-220 | when the worker returns, the queue is empty, `num_nodes == N` and the invariant still holds |
| Knn.Tree.Build | k-nn.hpp:82-107 | from the empty root: the root gets a pivot, and with one or more workers the result is a complete tree |
| Knn.Tree.constructor | k-nn.hpp:80-108 | the tree over the given points; complete when `numThreads >= 1`; no queries or results yet |
| Search.NodeVal | k-nn.hpp:223-225 | the pivot's point, of `dims` coordinates |
| Search.Closer | k-nn.hpp:258-265 | a missing node loses; of two nodes the result is no farther than either, and the first wins iff strictly closer (ties go to the second) |
| Search.ArgFarthest | k-nn.hpp:271-274 | a position of a farthest candidate |
| Search.MakeHeap | k-nn.hpp:271-280 | `make_heap` under `comp`: a permutation of the candidates with a farthest one on top |
| Search.Offer | k-nn.hpp:302-304 | an internal node's offer keeps the heap within `k` entries, never shrinking it, and leaves it non-empty |
| Search.OfferHeapOrder | k-nn.hpp:276-304 | after either kind of offer the top is a farthest candidate |
| Search.OfferContents | k-nn.hpp:302-304 | a heap with room gains the node; a full heap swaps its top for the node iff the node is strictly closer, and is otherwise unchanged |
| Search.OfferDiscardsFarthest | k-nn.hpp:302-304 | whatever an offer drops is at least as far as everything it keeps |
| Search.OfferLeafContents | k-nn.hpp:276-280 | a leaf replaces the top iff strictly closer, and the heap size never changes |
| Search.OfferLeafDiscardsFarthest | k-nn.hpp:276-280 | whatever a leaf's offer drops is at least as far as everything it keeps |
| Search.OfferFrom | k-nn.hpp:302-304 | an offer keeps only old candidates and the offered node |
| Search.Search | k-nn.hpp:268-311 | the heap stays within `k` and never shrinks; a best node is returned iff the node exists |
| Search.SearchWithin | k-nn.hpp:268-311 | the best node lies in the searched subtree, and new heap entries come from that subtree |
| Search.DescendWithin | k-nn.hpp:283-310 | the same for an internal node |
| Search.BacktrackWithin | k-nn.hpp:306-310 | the same for the far-branch step |
| Search.SearchHeapOrder | k-nn.hpp:268-311 | after any search the top of the heap is a farthest candidate |
| Search.DescendHeapOrder | k-nn.hpp:283-310 | the same for an internal node |
| Search.BacktrackHeapOrder | k-nn.hpp:306-310 | the same for the far-branch step |
| Search.FarSide | k-nn.hpp:306-309 | on one-dimensional data every point of the far subtree is at least as far as the splitting plane |
| Search.NearBest | k-nn.hpp:283-305 | after the near branch the best is no farther than any node of the subtree outside the far branch |
| Search.BacktrackNearest | k-nn.hpp:306-310 | the pruning test loses nothing on one-dimensional data: the final best is no farther than any node of the subtree |
| Search.DescendNearest | k-nn.hpp:283-310 | on one-dimensional data an internal node's search returns a nearest node of its subtree |
| Search.SearchNearest | k-nn.hpp:268-311 | on one-dimensional data the search returns a node of the subtree no farther than any node of it |
| Search.NearestFromRoot | k-nn.hpp:268-311 | on a complete one-dimensional tree of two or more points the search from the root returns a point nearest the query among all points |
| Search.WithinMember | k-nn.hpp:302-304 | a heap holding a node within `v` of the target has a candidate within `v` |
| Search.OfferWithin | k-nn.hpp:302-304 | after an internal node's offer the heap has a candidate no farther than that node, and any bound the heap met before still holds |
| Search.OfferLeafWithin | k-nn.hpp:276-280 | the same for a leaf's replace-top offer |
| Search.TopReplaced | k-nn.hpp:277-278 | replacing the top by a strictly closer node keeps a candidate within any bound the heap met and puts one within that node's distance |
| Search.TopKept | k-nn.hpp:277-280 | a kept top (the node is not strictly closer) re-heaped leaves a candidate no farther than the node not taken, and keeps every bound the heap met |
| Search.CloserWithin | k-nn.hpp:305 | `closer_node` of an existing node and a possibly missing one returns a node; when the heap has candidates within both nodes' distances it has one within the closer's |
| Search.SearchKeeps | k-nn.hpp:268-311 | a search keeps every bound the heap met, and leaves a candidate no farther than the best node it returns |
| Search.DescendKeeps | k-nn.hpp:283-310 | the same for an internal node |
| Search.NearKeeps | k-nn.hpp:283-305 | after the node's offer and the near branch, the heap keeps every bound, has a candidate within the node's distance and one within the near branch's best |
| Search.BacktrackKeeps | k-nn.hpp:306-310 | the far-branch step keeps every bound and leaves a candidate within the distance of the best it returns |
| Search.NearestInHeap | k-nn.hpp:268-311 | on a complete one-dimensional tree of two or more points, the heap left by the search from the root holds a point nearest the query among all points |
| Knn.ProcessQuery | k-nn.hpp:268-311 | the imperative `process_query` returns the best and leaves the heap that `Search` describes |
| Knn.ProcessInternal | k-nn.hpp:283-305 | the internal-node part leaves what `Descend` describes |
| Knn.OfferNode | k-nn.hpp:302-304 | the in-place push, replace-top and `make_heap` leave the `Offer` heap |
| Knn.ProcessFar | k-nn.hpp:306-310 | the far branch is searched iff the best squared distance exceeds the squared distance to the plane, as `Backtrack` describes |
| Knn.BatchesCover | k-nn.hpp:230-244 | the batches claimed from `start` in steps of 7, each clamped to the query count, are every query from `start` on, once each, in order |
| Knn.BatchStep | k-nn.hpp:231-236 | one claim answers `[s, min(s+7, Q))` and leaves the batches from `s + 7` |
| Knn.BaseIs | k-nn.hpp:241 | the first slot of query `i` is `i * k` |
| Knn.SlotBound | k-nn.hpp:241 | every slot `i * k + j` with `i < Q` and `j < k` lies inside the `Q * k` result store |
| Knn.SlotInjective | k-nn.hpp:241 | different (query, slot) pairs write different results |
| Knn.SlotsAfter | k-nn.hpp:241 | all slots of a later query come after all slots of an earlier one |
| Knn.Resize | k-nn.hpp:115 | `resize` keeps the first `n` entries and pads with empty vectors |
| Knn.Answer | k-nn.hpp:238-239 | a query from an empty heap leaves between 1 and `k` candidates |
| Knn.AnswerNearest | k-nn.hpp:237-239 | on one-dimensional points a query's candidates include a point nearest it among all stored points |
| Knn.ResultsNearest | k-nn.hpp:237-242 | on one-dimensional points some result slot of each query holds a nearest stored point; with `k == 1` slot `i` does, and a query equal to a stored point gets exactly that point |
| Knn.WriteSlot | k-nn.hpp:240-242 | writing one query's answer changes only that query's slots below the answer's length |
| Knn.FilledSlots | k-nn.hpp:237-242 | after queries `lo..hi-1` have written, each of their slots holds its candidate's point, and every other slot is untouched |
| Knn.FilledAnswered | k-nn.hpp:237-242 | after every query has written, slot `j` of query `i` holds its `j`-th candidate's point, or its earlier value past the candidates |
| Knn.Store | k-nn.hpp:240-242 | the slot loop writes exactly `WriteAnswer` of the heap's points |
| Knn.AnswerOne | k-nn.hpp:238-242 | one query searched from the root and stored extends the filled results by that query |
| Knn.AnswerBatch | k-nn.hpp:236-243 | a claimed batch fills its queries' slots and records them as processed, in order |
| Knn.ClaimBatches | k-nn.hpp:230-244 | a worker claims until the counter passes the last query; everything from the counter's value on is answered, once each, in claim order |
| Knn.Tree.ProcessQueryBatch | k-nn.hpp:228-245 | a worker leaves `next_batch_` at or past the query count and the results filled for every query from the old counter value on |
| Knn.Tree.Query | k-nn.hpp:111-124 | the tree, two or more points and `k >= 1` are needed only when a worker has a query to answer; with one or more workers every query is processed exactly once, in order, and slot `j` of query `i` holds the point of the `j`-th candidate of its search from the root (or its resized value past the candidates); with none the store is only resized |
| Data.LittleEndianOfBytes | data.hpp:28 | reading back the little-endian bytes of a value gives the value |
| Data.BytesOfLittleEndian | data.hpp:28 | writing the value read from bytes gives the bytes |
| Data.Field | data.hpp:28 | a field is read exactly when the file holds its bytes, and fits in the width |
| Data.Reader.constructor | data.hpp:23 | the cursor starts at the given offset of the file |
| Data.Reader.Read | data.hpp:25-30 | on an aligned cursor, reads the field at the cursor and advances by exactly its width |
| Data.StepAligned | data.hpp:27-29 | an aligned cursor stays aligned after a read of the same width |
| Data.WordsDefined | data.hpp:68-73 | a point's coordinates are read exactly when the file holds its `4 * d` bytes |
| Data.RowsDefined | data.hpp:65-77 | `n` points are read exactly when the file holds their `4 * n * d` bytes (or there is nothing to read) |
| Data.WordsElement | data.hpp:68-73 | coordinate `j` is the 32-bit word at `off + 4j` |
| Data.RowsElement | data.hpp:65-77 | coordinate `j` of point `i` is the 32-bit word at `off + 4(i*d + j)`: point-major order |
| Data.RowsSnoc | data.hpp:67-75 | reading `i + 1` points is reading `i` points and then one more at the cursor |
| Data.RowsNoneStays | data.hpp:67-75 | once a point cannot be read, no longer run of points can |
| Data.ParsePoint | data.hpp:68-73 | reads exactly one point's `d` words and moves the cursor past them |
| Data.ParseCoors | data.hpp:65-77 | reads exactly the `n_coors` rows of `n_dims` words and moves the cursor by `4 * n_coors * n_dims` bytes |
| Data.StrnLen | data.hpp:109 | the length before the first NUL, looking at no more than 8 bytes |
| Data.StrnLenIs | data.hpp:109 | the length before the first NUL is the one `strnlen` finds |
| Data.Tag | data.hpp:109-110 | the tag is the bytes before the first NUL among the first 8, so at most 8 characters, none NUL |
| Data.Decode | data.hpp:109-116 | what `parse_data` yields: a tag of at most 8 characters, `n_coors` points, and `k == 0` unless the tag is `QUERY` |
| Data.ParseData | data.hpp:109-116 | the sequence of cursor reads computes exactly `Decode` of the file |
| Data.TagOfEncoding | data.hpp:109-110 | a NUL-padded tag reads back as itself |
| Data.WordsOfEncoding | data.hpp:68-73 | the stored words of a point read back as the point |
| Data.RowsOfEncoding | data.hpp:65-77 | the stored points read back as the points |
| Data.DecodeEncode | data.hpp:109-116 | decoding the file laid out from a record gives back that record, so tag, id, counts, `k` and coordinates are each taken from their place |
| Data.DecodeEncodable | data.hpp:91-98 | every decoded record fits the layout: its fields fit 64 bits, and it has `n_coors` points of `n_dims` 32-bit words |

## Left out

- Threads, the mutex, the condition variable, the atomics and the retry loop of the
  compare-and-swap (k-nn.hpp:101-107, 117-122, 184-192, 231-234). Workers run one after
  another; interleavings are not modelled.
- Knn.Tree.Grow: a worker that finds the queue empty before `num_nodes == N` would
  wait for others. Run alone it never meets that state (the invariant rules it out),
  so waiting is not modelled.
- Randomness (`std::sample`, `mt19937`, `random_device`, k-nn.hpp:148-150) is a sampler
  parameter, required to return `min(80, |indices|)` indices in order.
- Floats: coordinates are integers in the tree and search, and 32-bit patterns in the
  decoder. There is no rounding, NaN or infinity, and `sqrt` is replaced by comparing
  squares.
- Search.MakeHeap: `std::make_heap`'s exact arrangement is not modelled. It is any
  permutation with a farthest candidate on top. The order of a query's result slots,
  and which of several equally far candidates sits on top, may differ from
  libstdc++'s.
- Search.NearestFromRoot: proved for one-dimensional data only. With two or more
  dimensions the search prunes on `depth % dims` while the tree is split on
  coordinate 0, so the code gives no nearest-point guarantee there.
- The 200 ms sleep (k-nn.hpp:235) and the debug `ostringstream` (k-nn.hpp:287-300).
- `Tree::write` (k-nn.hpp:126-144): file output.
- Data.Field: reading past the end of the file is undefined in the source and gives
  `None` here. When the tag scan runs past a short file, the model stops, taking the
  mapping to read as zeros there.
- Data.Reader.Read: the alignment assertion (data.hpp:27) is a precondition. A
  mapping starts on a page boundary, so address alignment is offset alignment.
- File and OS plumbing: `open`, `mmap`, `madvise`, `close`, `check_file`, `get_size`,
  `mmap_wrapper` (data.hpp:36-62, 102-108). The decoder takes the file's bytes.
- Printing (data.hpp:80-88, 121-129) and `main` (k-nn.cpp).
- Knn.Tree.Query: the `d == dims_` assertion (k-nn.hpp:112) is a precondition. When
  a worker runs and there is a query, so are a complete tree, two or more points and
  `k >= 1`. With one point the root is a leaf, and k-nn.hpp:277 reads `heap[0]` of the
  empty heap. With `k == 0` the first internal node does so at k-nn.hpp:303.
- Partition.SampleMedianIndex: the model sorts the sample with a stable insertion
  sort, while `std::sort` (k-nn.hpp:152) is not stable. Among sample entries with
  equal keys the index chosen may therefore differ from the source's. It has the same
  key and the same median property.
- Knn.ProcessQuery: the heap passed by reference (`vector<Node*> &heap`) is threaded
  through the calls as a value passed in and returned. Each query has its own heap,
  so nothing else sees it and there is no aliasing to model. The same holds for
  Knn.ProcessInternal, Knn.ProcessFar and Knn.OfferNode.
- The value `process_query` returns at the root is discarded by
  `process_query_batch`. The model computes it but only the heap is stored.
