# downsample_ex: resampling a 1-D line mesh to a target element length

`downsample_ex` reads a branching one-dimensional mesh: 2-node line
elements, each written as `parent child`, embedded in 3-D space, such as a
vascular or airway network. Each element points from a node to its
successor. The function produces a coarser mesh whose elements are about
`targetLength` long, keeping the mesh's topology.

It works in the following passes.

1. **Building the adjacency table** (`Adjacency.Topology.Build`). Every node has four child
   slots and four parent slots. An element writes its child into the first
   empty child slot of its parent and its parent into the first empty parent
   slot of its child. A fifth child or parent aborts the run
   (`TooManyChildren`, `TooManyParents`). A copy of the child table, the
   "cleared" table, records which nodes have been consumed.
2. **Classification** (`Adjacency.Topology.Classify`). A node is an end when
   child slot 0 is empty. It is a start when parent slot 0 is empty. It is a
   junction when child slot 1 or parent slot 1 is taken.
3. **The element loop** (`Run.HandleElements`). Elements are handled in file
   order.
   - An element whose parent has been consumed, or has no child, is skipped.
   - An element whose child is a junction or an end is kept as it is.
   - Otherwise the branch is walked along child slot 0
     (`Adjacency.Topology.WalkBranch`). The walk runs until it reaches a
     junction, an end, or the element's parent again. The 10000th step aborts
     the run (`TrappedInLoop`). Then:
     - the inner nodes of the branch are consumed
       (`Adjacency.Topology.ClearInterior`);
     - the cumulative arclength is computed (`Arclength.CumulativeLengths`);
     - the sample count is the length divided by the target, rounded down in
       `downsample.py` and up in `downsampleStomach.py`. A zero target is a
       division by zero (`ZeroTarget`).
     - for each sample distance `L/count * n`, the branch node whose
       cumulative length is nearest is kept; on a tie the first such node is
       kept (`Arclength.SampleNodes`).
     - the kept nodes, with the branch's start and last node, are chained
       into new elements (`Resampler.EmitPath`).
4. **Renumbering** (`Renumbering.Numbering`). Kept nodes are renumbered 1, 2,
   … in order of first use. `Renumbering.Numbering.ReverseMap` then inverts
   this numbering.

## Variants

There are two front ends, both in `Variants`:

- `Variants.DownsampleDense` models `downsample.py`. Node ids are the rows of
  the node file, numbered 1 .. N with no gaps. The sample count is rounded
  down.
- `Variants.DownsampleStomach` models `downsampleStomach.py`. Node ids may
  have gaps, so the tables are sized by the largest id. A node's coordinate
  row is found through the compression map `Variants.CompressIds`. The sample
  count is rounded up.

## Modelling choices

- **Coordinates.** They enter only through the length of a segment. That
  length is a parameter `dist: Metric`, applied to two coordinate rows and
  returning a `real`.
- **Run results.** Each run returns `Result<Output>`. On success it holds the
  reduced elements in the new numbering, plus the two directions of the
  renumbering. Ghost out-parameters describe the run: the table (`topo`), the
  branch walked for each element (`branches`) and the nodes kept for each
  element (`paths`). The predicate `Run.Reduced` ties them to the input.
- **Self-loop element.** Sample 0 sits at distance 0, and the branch start
  meets that distance exactly. So every resampled branch keeps its start
  twice, and its first new element joins the start to itself.
  `Arclength.FirstSampleIsStart` proves this.

## Model

| member | source | states |
|---|---|---|
| Slots.FirstZero | src/ex_downsample/downsample.py:118-121 | the slot scan stops at the first empty slot: every earlier slot is taken and the slot found is empty, or every slot is taken |
| Slots.FirstZeroUnique | src/ex_downsample/downsample.py:118-121 | the first empty slot is the only index with those two properties |
| Slots.InsertAppends | src/ex_downsample/downsample.py:118-128 | writing into the first empty slot appends the new neighbour to the row's neighbour list and keeps the non-empty slots a prefix |
| Slots.FullRow | src/ex_downsample/downsample.py:119-121 | the scan finds no empty slot exactly when the row holds four neighbours |
| Slots.NeighboursGrow | src/ex_downsample/downsample.py:115-128 | a node's child and parent lists only grow as more elements are read |
| Slots.ChildrenBound | src/ex_downsample/downsample.py:115-122 | every child listed for a node is the child of some element, so a bound on the elements' children bounds it |
| Slots.OverflowPersists | src/ex_downsample/downsample.py:115-128 | once an element has overflowed a row, no longer prefix of the elements fits the table |
| Slots.FirstOverflowUnique | src/ex_downsample/downsample.py:115-128 | the first overflowing element, and the error it trips, are determined by the elements |
| Slots.LoopsOverflowChildren | src/ex_downsample/downsample.py:119-127 | when every element joins a node to itself, the overflow trips the children assertion, which is checked first |
| Adjacency.FreeSlot | src/ex_downsample/downsample.py:118-121 | the scan loop returns the first empty slot of the row, or 4 when the row is full |
| Adjacency.WriteSlot | src/ex_downsample/downsample.py:122-123 | writing one slot changes that slot of that row and nothing else |
| Adjacency.Topology.constructor | src/ex_downsample/downsample.py:107-113 | child, parent and cleared tables of `rows` rows of four empty slots, and all flags clear |
| Adjacency.Topology.AddChild | src/ex_downsample/downsample.py:118-123 | fails exactly when the parent's child row is full; otherwise the child is inserted into the first empty slot of the parent's child and cleared rows, and no other row changes |
| Adjacency.Topology.AddParent | src/ex_downsample/downsample.py:124-128 | fails exactly when the child's parent row is full; otherwise the parent is inserted into the first empty slot of the child's parent row, and no other row changes |
| Adjacency.Topology.AddElement | src/ex_downsample/downsample.py:116-128 | fails exactly when the parent has four children or the child has four parents; the error names the node, and the children check comes first; otherwise both insertions are made and nothing else changes |
| Adjacency.Topology.ReadElement | src/ex_downsample/downsample.py:115-128 | a table holding the elements before es[i] then holds es[..i+1]: every row lists its node's children and parents in element order; or es[i] is the first element to overflow a row, and the error is the assertion it trips, children before parents |
| Adjacency.Topology.Build | src/ex_downsample/downsample.py:115-128 | succeeds exactly when no node is the parent, or the child, of more than four elements; on failure the error is that of the first element that overflows a row, its parent's children checked before its child's parents; on success every row lists exactly its node's children and parents, in element order and duplicates included |
| Adjacency.Topology.Classify | src/ex_downsample/downsample.py:130-143 | every node's flags are set: end iff child slot 0 is empty, junction iff child slot 1 or parent slot 1 is taken, start iff parent slot 0 is empty; an end node has no second child |
| Adjacency.Topology.EmptyRows | src/ex_downsample/downsample.py:118-123 | in a table filled by first-free-slot insertion, a node without a first child has no second child |
| Adjacency.Topology.Follow | src/ex_downsample/downsample.py:174 | following child slot 0 from a node id always reaches a node id of the table |
| Adjacency.Topology.WalkBranch | src/ex_downsample/downsample.py:164-177 | returns the branch: the parent, then the child and its slot-0 successors up to the first junction, end or return to the parent; fails with TrappedInLoop exactly when no stop is reached within 9999 steps (the 10000th step fails) |
| Adjacency.Topology.BranchShape | src/ex_downsample/downsample.py:164-177 | a walked branch is a slot-0 chain; its inner nodes are neither junctions nor ends; after the child it never meets the parent before its last node; and its last node is a junction, an end or the parent |
| Adjacency.Topology.BranchIds | src/ex_downsample/downsample.py:170-177 | every node a walk visits is a node id from 1 up to any bound on its element's ids and the table's first children, since the walk moves on only from nodes that are not ends |
| Adjacency.Topology.WalkDeterministic | src/ex_downsample/downsample.py:170-177 | an element has at most one branch, and a branch exists only when the walk does not overflow |
| Adjacency.Topology.ClearInterior | src/ex_downsample/downsample.py:179-182 | slot 0 of the cleared row of each strictly inner node of the branch becomes empty, and nothing else changes |
| Adjacency.Topology.ClearedStep | src/ex_downsample/downsample.py:179-182 | after clearing one more branch, the cleared table is the child table with slot 0 emptied for exactly the inner nodes of all branches walked so far |
| Arclength.Cumulative | src/ex_downsample/downsample.py:184-191 | the cumulative list has one entry per branch node and starts at 0 |
| Arclength.CumulativeStep | src/ex_downsample/downsample.py:187-191 | each entry adds the length of the next segment to the previous one |
| Arclength.CumulativeNondecreasing | src/ex_downsample/downsample.py:187-191 | with non-negative segment lengths the cumulative list is nondecreasing |
| Arclength.CumulativeLengths | src/ex_downsample/downsample.py:184-191 | the arclength loop produces the cumulative list, and the total length is its last entry |
| Arclength.SampleCount | src/ex_downsample/downsample.py:193 | reducedElementCount: the quotient of length and target, rounded down (downsample.py) or up (downsampleStomach.py line 230) |
| Arclength.FloorCount | src/ex_downsample/downsample.py:193-194 | the rounded-down count is not negative, and positive iff the branch is at least one target long |
| Arclength.CeilCount | src/ex_downsample/downsampleStomach.py:230-231 | the rounded-up count is not negative, and 0 iff the branch has length 0 |
| Arclength.FirstNearest | src/ex_downsample/downsample.py:198-199 | the index found is nearest to the target distance, and strictly nearer than every earlier index (the first index of the minimum) |
| Arclength.NearestIndex | src/ex_downsample/downsample.py:198-199 | the one-pass scan returns the first index of the smallest distance |
| Arclength.NearestExactHit | src/ex_downsample/downsample.py:197-199 | when some entry equals the target distance, the first such entry is found |
| Arclength.SampleDistance | src/ex_downsample/downsample.py:197 | the target distance of sample n is 0 for the first sample and lies within the branch for samples 0 .. count |
| Arclength.Retained | src/ex_downsample/downsample.py:194-212 | the kept nodes are count + 2 nodes (2 when the count is not positive); they start at the branch start, end at its last node, and are all nodes of the branch |
| Arclength.Samples | src/ex_downsample/downsample.py:196-203 | one kept node per sample, each a node of the branch |
| Arclength.SamplesIndex | src/ex_downsample/downsample.py:196-203 | sample i is the node nearest to the distance L/count * i |
| Arclength.FirstSampleIsStart | src/ex_downsample/downsample.py:196-202 | the first sample of a resampled branch is its start, so its first new element joins the start to itself |
| Arclength.SampleNodes | src/ex_downsample/downsample.py:194-212 | the sampling loop returns the kept nodes: the start, the node nearest to each sample distance, and the last node |
| Renumbering.OrderAfterSpec | src/ex_downsample/downsample.py:88-95 | requesting ids keeps the earlier order as a prefix, lists exactly the ids seen or requested, and never lists an id twice |
| Renumbering.OrderAfterStep | src/ex_downsample/downsample.py:88-95 | one more request appends the id only when it is new |
| Renumbering.PositionSpec | src/ex_downsample/downsample.py:88-95 | the new number of an id is 0 iff the id was never requested; otherwise it is at most the count and indexes that id in the order |
| Renumbering.PositionOfEntry | src/ex_downsample/downsample.py:88-91 | the id numbered k-th gets new number k |
| Renumbering.PositionSnoc | src/ex_downsample/downsample.py:88-91 | numbering a new id gives it the next number and changes no other number |
| Renumbering.PositionExtend | src/ex_downsample/downsample.py:92-93 | a number once given never changes as more ids are numbered |
| Renumbering.DistinctBound | src/ex_downsample/downsample.py:88-91 | pigeonhole: ids numbered once each from an interval are no more than the interval holds |
| Renumbering.Numbering.Bijection | src/ex_downsample/downsample.py:88-95 | the new numbers are exactly 1 .. count, each given to exactly one old id |
| Renumbering.Numbering.constructor | src/ex_downsample/downsample.py:146-148 | every id is unnumbered and the count is 0 |
| Renumbering.Numbering.Assign | src/ex_downsample/downsample.py:88-95 | on first use of an id, the count grows by one and the id gets the new count; on later uses the stored number is returned and nothing changes; numbers already given are kept |
| Renumbering.Numbering.ReverseMap | src/ex_downsample/downsample.py:216-220 | the reverse list has count + 1 entries and an unused 0 in front; it is the inverse of the numbering in both directions |
| Resampler.Links | src/ex_downsample/downsample.py:202 | one element per consecutive pair of kept nodes: one fewer than the nodes, none for fewer than two |
| Resampler.NewIds | src/ex_downsample/downsample.py:201-206 | one new id per kept node |
| Resampler.NewIdsIndex | src/ex_downsample/downsample.py:201-206 | the new id of each kept node is its number in the first-use order |
| Resampler.LinksChain | src/ex_downsample/downsample.py:194-212 | the elements emitted for a list of kept nodes join each node to the next |
| Resampler.ChainEnds | src/ex_downsample/downsample.py:194-212 | the chain of a branch has one element fewer than its kept nodes; it starts at the new id of the start, ends at the new id of the last node, and each element starts where the previous one ends |
| Resampler.Points | src/ex_downsample/downsample.py:166-176 | the nx list has one coordinate row per branch node |
| Resampler.PointsIndex | src/ex_downsample/downsample.py:166-176 | point i of the nx list is the coordinate row of branch node i, in walk order |
| Resampler.BranchPath | src/ex_downsample/downsample.py:184-212 | the kept nodes of a branch are at least two, all nodes of the branch, and keep both of its endpoints |
| Resampler.NumberNext | src/ex_downsample/downsample.py:201-204 | numbering the next kept node extends the order by that node and leaves the numbers already given unchanged |
| Resampler.NumberedStep | src/ex_downsample/downsample.py:88-95 | giving the next node its first-use number keeps the numbers of the nodes before it |
| Resampler.EmitPath | src/ex_downsample/downsample.py:194-212 | numbers the kept nodes in order of first use and emits the elements joining consecutive kept nodes in the new numbering |
| Resampler.ResampleNodes | src/ex_downsample/downsample.py:184-212 | fails with ZeroTarget exactly when the target length is 0; otherwise it returns the kept nodes of the branch |
| Resampler.TakeBranch | src/ex_downsample/downsample.py:163-212 | fails exactly when the walk overflows (TrappedInLoop) or the target is 0 (ZeroTarget); otherwise it returns the walked branch and its kept nodes, with the branch's inner nodes consumed |
| Resampler.WalkElement | src/ex_downsample/downsample.py:163-212 | the walk case of the element loop: on success the element is handled as defined and the cleared table records the new branch; on failure the element is the failing one |
| Resampler.SelectPath | src/ex_downsample/downsample.py:150-212 | each element is either skipped (consumed or childless parent), kept as it is (child a junction or an end), or walked and resampled; the cleared table tracks the consumed nodes |
| Run.OrderOfCovers | src/ex_downsample/downsample.py:150-212 | after the loop every kept node has been numbered, and no id is numbered twice |
| Run.NewIdsExtend | src/ex_downsample/downsample.py:88-95 | the new ids of numbered nodes stay fixed as the numbering grows |
| Run.ChainsExtend | src/ex_downsample/downsample.py:150-212 | elements already emitted keep their new ids as later branches are numbered |
| Run.AllHandledAt | src/ex_downsample/downsample.py:150-212 | element k was handled given exactly the branches walked before it |
| Run.SelectNext | src/ex_downsample/downsample.py:150-212 | one more element is handled, or it is the failing element |
| Run.NumberPath | src/ex_downsample/downsample.py:157-212 | numbering one more element's kept nodes appends its chain to the reduced elements |
| Run.Advance | src/ex_downsample/downsample.py:150-212 | one iteration of the element loop: the element is handled and its chain emitted, or the run stops at it |
| Run.HandleElements | src/ex_downsample/downsample.py:145-212 | the element loop handles elements in order up to the first failing one; it succeeds iff every element is handled; the reduced elements are the chains of all kept-node lists in the first-use numbering |
| Run.BuildTable | src/ex_downsample/downsample.py:106-143 | the table builds iff no node has more than four children or parents, failing with the error of the first overflowing element; it then lists every node's neighbours and is classified |
| Run.ReduceMesh | src/ex_downsample/downsample.py:145-220 | the element loop and reverse map: on success the output holds the chains, the new number of every old id, and the old id of every new number |
| Run.Resample | src/ex_downsample/downsample.py:98-220 | the whole run satisfies `Reduced`; it fails on a full row exactly when some node has more than four children or parents; ZeroTarget only for a zero target; a successful output is `Consistent` and keeps at most rows - 1 nodes |
| Run.AllHandledRange | src/ex_downsample/downsample.py:150-212 | every kept node is a node id from 1 up to any bound on the element ids and the table's first children |
| Run.OrderOfRange | src/ex_downsample/downsample.py:216-220 | every numbered id comes from a kept-node list, so bounds on the kept nodes bound the numbered ids |
| Run.ChainsInRange | src/ex_downsample/downsample.py:150-212 | every reduced element uses new ids 1 .. count only |
| Run.ResampledOutput | src/ex_downsample/downsample.py:145-220 | a successful run's output is `Consistent`: every element names new numbers that the reverse list covers, every new number names a node of the table, and the two maps invert each other |
| Run.FirstChildBound | src/ex_downsample/downsample.py:115-122 | in a table built from the elements, every first child lies below any bound on the elements' children |
| Run.NodeCountBound | src/ex_downsample/downsample.py:214-217 | a successful run keeps no node when there are no elements, and otherwise at most one node per id from 1 below any bound on the element ids: newNodeCount never exceeds the original node count |
| Variants.Max | src/ex_downsample/downsampleStomach.py:133-136 | the largest id bounds every id and is one of them |
| Variants.Compression | src/ex_downsample/downsampleStomach.py:136-141 | the compression map has the given size |
| Variants.CompressionLast | src/ex_downsample/downsampleStomach.py:138-141 | an id recorded at position i, and not later, maps to i |
| Variants.CompressionAbsent | src/ex_downsample/downsampleStomach.py:137-141 | an id never recorded maps to 0 |
| Variants.CompressIds | src/ex_downsample/downsampleStomach.py:136-141 | the compression loop builds the map of max + 2 entries with each listed id mapped to its position |
| Variants.StomachCoords | src/ex_downsample/downsampleStomach.py:203-213 | one coordinate row per table row (max + 1) |
| Variants.StomachCoordsListed | src/ex_downsample/downsampleStomach.py:203-213 | with distinct ids, the node listed at position i of the node file reads coordinate row i - 1, the row it is listed in |
| Variants.StomachCoordsMissing | src/ex_downsample/downsampleStomach.py:203-213 | an id up to the largest that the node file does not list reads row -1 |
| Variants.DownsampleDense | src/ex_downsample/downsample.py:98-220 | the dense run is `Reduced` on totalNodes + 1 rows, with each id its own coordinate row and the count rounded down; it fails on a full row exactly when some node has more than four children or parents; ZeroTarget only for a zero target; a successful output is `Consistent` and keeps at most totalNodes - 1 nodes, the original count printed at line 214 |
| Variants.DownsampleStomach | src/ex_downsample/downsampleStomach.py:125-257 | the stomach run is `Reduced` on max + 1 rows, with coordinates through the compression map and the count rounded up; it fails on a full row exactly when some node has more than four children or parents; ZeroTarget only for a zero target; a successful output is `Consistent` and keeps at most max nodes |

## Left out

- Reading and writing the textual ex mesh files is not modelled: the node, element and header parsing, and writing the reduced node and element files with their headers.
- The message printing the node counts is not modelled.
- The default `targetLength = 10` of `downsample_ex` is not modelled: every run takes the target length as an argument.
- The segment length is `math.sqrt` of squared coordinate differences in floating point. Here it is an opaque `Metric` returning exact reals, so float rounding is not modelled. This rounding can decide a floor or ceiling count, or a tie in the nearest-node search.
- The stomach variant's first- and second-derivative node files are not modelled. They only pass through `oldOf` when the output is written.
- Python's assertions abort the program. Here they are an `Err` value that ends the run. Running Python with assertions disabled (`-O`) is not modelled.
- In the stomach variant, row -1 stands for the last row of the node file under Python's negative indexing. The model passes -1 to the metric as it is.
- Variants.DownsampleDense: requires every element id to lie in 1 .. totalNodes-1, the node rows of the file.
  - An id of totalNodes fits the table but fails when its coordinates are read.
  - A larger id fails while the table is built.
  - Ids of 0 or below index the empty entry or wrap around.
  - These inputs are not modelled.
- Variants.DownsampleStomach: requires every element id to lie in 1 .. max and the node ids to be non-negative. A larger id fails while the table is built, and id 0 or negative ids index the unused or wrapped rows. These inputs are not modelled.
- The flag lists and the new-number list have one entry more than the table. That extra entry is never read or set, because every id is below the table size, so the model sizes them like the table.
- Adjacency.Topology.Classify: it writes every flag, true or false, where the source sets only the true ones. Both give the same flags, because the lists start out all 0.
- Resampler.EmitPath: a walked branch's kept nodes are chosen first and numbered afterwards, where the source numbers each one as it is chosen. The numbering depends only on the order of the requests, and that order is the same. The source asks again for the number of each kept node before using it as the next parent; this repeated request changes nothing (`Renumbering.Numbering.Assign`), so the model leaves it out.
