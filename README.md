# ArtificialBrain: the arena quadtree and the brain prototype

This project models two parts of ArtificialBrain in Dafny and proves properties of them.

**The quadtree.** A region quadtree (`Quadtree.h`, `Quadtree.cpp`) stores points with a 64-bit id and a payload:

- Nodes live in one arena vector. An internal node has four children, in quadrant order. A leaf owns a bucket of 32 record slots.
- Each point gets a 32-bit *path*: two bits per level, for sixteen levels, saying which quadrant of the bounds it falls in.
- A record's id is `path << 32 | slot`.
- `Insert` widens the bounds when a point lies outside them. It splits a full leaf before appending and returns `~0` when the leaf is still full.
- `Erase` and `GetData` follow the path half of an id.
- `Resize` and `EnsureRegion` rebuild the tree over new bounds.
- `FindNeighbours` walks the tree, prunes cells that miss the query circle, and keeps a sorted selection of at most `cap` of the in-range records it scans in a caller's buffer. A record that lands on the last entry overwrites it (OfferOverwrites), so the buffer need not hold the nearest ones. A record need not lie in the cell the traversal gives its leaf, so a pruned cell can hide a record in range (RootSplitCell).

**The brain prototype.** `ai.py` is a grid of neurons:

- `populate` lays neurons out on an n-by-n grid.
- `findNearestNeurons` lists the other neurons within a radius.
- `tick` propagates values along connections whose window holds the source's value. Each neuron whose counter reaches `connectTicks` is then linked, both ways, to its closest unlinked neighbour.

## How the model is organised

| module | file | contents |
|---|---|---|
| `QuadtreeTypes` | `quadtree_types.dfy` | Value types and constants (`Capacity` 32, `Levels` 16, the `~0ULL` sentinels). |
| `QuadtreePaths` | `quadtree_paths.dfy` | Quadrant choice, path packing and the id layout. Bit operations on disjoint ranges are written as arithmetic. |
| `QuadtreeArena` | `quadtree_arena.dfy` | The `Tree` value (bounds, node arena, buckets), its invariant `Valid`, the stored records `Contents`, and the walk of `GetPathNode`. |
| `QuadtreeTraverse` | `quadtree_traverse.dfy` | `VisitNodesInt` as a pure traversal that returns the trace of visitor calls. |
| `QuadtreeUpdate` | `quadtree_update.dfy` | `GetNewID`, `GetNodeRegion`, `SplitLeafNode`, `InsertData` and `Erase` as functions on `Tree`, with their lemmas. |
| `QuadtreeOps` | `quadtree_ops.dfy` | `Resize`, `EnsureRegion`, `Clear`, `Insert` and `GetData` as functions on `Tree`, with their lemmas. |
| `QuadtreeNeighbours` | `quadtree_neighbours.dfy` | `RectCircleOverlap`, the pruned candidate sequence and the sorted bounded buffer of `FindNeighbours`. |
| `QuadtreeIndex` | `quadtree_index.dfy` | `class Quadtree`. Its fields (`min`, `max`, `nodes`, `buckets`) are updated in place by methods that run the source's loops. Each method is proved to produce exactly the function of the layers above. |
| `BrainModel` | `brain_model.dfy` | Neurons and connections as values, plus the specification functions of `populate`, `findNearestNeurons` and `tick` and their lemmas. |
| `BrainPrototype` | `brain.dfy` | `class Brain` with the neuron list as a field, and the three methods as loops proved against `BrainModel`. |

Two modelling choices apply throughout:

- **Coordinates.** They are `real`. `FindNeighbours` compares and stores *squared* distances. The source uses `sqrtf`, which orders entries the same way and accepts the same records, because the square root is monotone and never negative.
- **Randomness.** `random.randint(5, 25)` in `populate` becomes a sequence of draws. `random.random()` in `tick` becomes a function `draw: nat -> real`, and the k-th link of a tick uses draws 6k to 6k+5.

## Model

| member | source | states |
|---|---|---|
| QuadtreeTypes.DefaultNode | ArtificialBrain/Src/Quadtree.h:26-29 | A default node is internal, and its parent and four children are all the sentinel. |
| QuadtreeTypes.NewLeaf | ArtificialBrain/Src/Quadtree.h:48-52 | A new leaf is empty and has the given parent and bucket. |
| QuadtreeTypes.EmptyRecord | ArtificialBrain/Src/Quadtree.h:61-64 | The default record has id and payload `~0` and sits at the origin. |
| QuadtreeTypes.EmptyBucket | ArtificialBrain/Src/Quadtree.h:72-75 | A new bucket is 32 default records. |
| QuadtreeTypes.PadPush | ArtificialBrain/Src/Quadtree.cpp:68 | Writing a record into the first free slot extends the used prefix by that record and keeps the rest default. |
| QuadtreeTypes.PadShift | ArtificialBrain/Src/Quadtree.cpp:90 | Moving the later records down one slot removes slot `i` and leaves the other records in order. |
| QuadtreeTypes.PadPop | ArtificialBrain/Src/Quadtree.cpp:84-87 | Clearing the last used slot shortens the used prefix by one. |
| QuadtreePaths.Quadrant | ArtificialBrain/Src/Quadtree.cpp:287-288 | The quadrant is below 4. Bit 0 is set exactly when `x >= mid.x`, and bit 1 exactly when `y >= mid.y`. |
| QuadtreePaths.Quadrants | ArtificialBrain/Src/Quadtree.cpp:285-313 | There is one quadrant choice per level, and each is below 4. |
| QuadtreePaths.Cell | ArtificialBrain/Src/Quadtree.cpp:290-313 | The cell after n levels of ComputePath's loop; CellSnoc and QuadrantsAt give its meaning. |
| QuadtreePaths.PathOf | ArtificialBrain/Src/Quadtree.cpp:276-320 | ComputePath's path for a point; PathLayout and PathOfDigits give its bit layout. |
| QuadtreePaths.Digit | ArtificialBrain/Src/Quadtree.cpp:328 | `(p >> 2i) & 3` is a quadrant below 4. |
| QuadtreePaths.PackBound | ArtificialBrain/Src/Quadtree.cpp:289 | Packed digits below 4 stay below 4^n, so sixteen levels fit in 32 bits. |
| QuadtreePaths.PackSnoc | ArtificialBrain/Src/Quadtree.cpp:289 | Or-ing `childPath << 2i` into the path adds the new digit at weight 4^i. |
| QuadtreePaths.ShrPack | ArtificialBrain/Src/Quadtree.cpp:328 | Shifting the packed path right by 2i bits leaves the digits from level i on. |
| QuadtreePaths.DigitPack | ArtificialBrain/Src/Quadtree.cpp:285-289 | The digit written for level i is the digit read back for level i. |
| QuadtreePaths.PathOfDigits | ArtificialBrain/Src/Quadtree.cpp:276-320 | The path is below 2^32, and its digit i is the quadrant chosen at level i. |
| QuadtreePaths.QuadrantsAt | ArtificialBrain/Src/Quadtree.cpp:287-313 | Level i's choice compares the point with the midpoint of the cell reached after i levels. |
| QuadtreePaths.CellSnoc | ArtificialBrain/Src/Quadtree.cpp:290-306 | One more level shrinks the cell to the quadrant of the point within it. |
| QuadtreePaths.QuadrantsSnoc | ArtificialBrain/Src/Quadtree.cpp:285-289 | One more level appends the point's quadrant in the current cell. |
| QuadtreePaths.DescendStep | ArtificialBrain/Src/Quadtree.cpp:285-313 | One round of ComputePath's loop is the step from i to i+1 levels, for both the path and the cell. |
| QuadtreePaths.PathLayout | ArtificialBrain/Src/Quadtree.cpp:276-320 | The path fits in 32 bits. Bits 2i and 2i+1 hold the quadrant of the point relative to the midpoint of the level-i cell. |
| QuadtreePaths.Pow4Levels | ArtificialBrain/Src/Quadtree.cpp:285 | 4^16 is 2^32: sixteen 2-bit levels fill the low half of an id. |
| QuadtreePaths.IdHalves | ArtificialBrain/Src/Quadtree.cpp:65 | For a slot below 2^32, `id >> 32` gives back the path and the low 32 bits give back the slot. |
| QuadtreePaths.IdNotSentinel | ArtificialBrain/Src/Quadtree.cpp:65-67 | An id built from a 32-bit path and a slot below `0xFFFFFFFF` is never `~0`. |
| QuadtreeArena.EmptyTree | ArtificialBrain/Src/Quadtree.cpp:10-19 | The constructor's tree satisfies the arena invariant, with one root leaf (its own parent, bucket 0) and one bucket. |
| QuadtreeArena.Walk | ArtificialBrain/Src/Quadtree.cpp:326-331 | The walk along path bits always stays inside the arena. |
| QuadtreeArena.PathNode | ArtificialBrain/Src/Quadtree.cpp:322-333 | GetPathNode returns an index of the arena for any path. |
| QuadtreeArena.ChildDepth | ArtificialBrain/Src/Quadtree.cpp:403-417 | A child lies one level deeper than its parent. |
| QuadtreeArena.WalkFromDepth | ArtificialBrain/Src/Quadtree.cpp:326 | Under the depth bound, the walk ends on a leaf before the 16 levels run out. |
| QuadtreeArena.PathNodeIsLeaf | ArtificialBrain/Src/Quadtree.cpp:322-333 | In a valid tree GetPathNode always returns a leaf, so the leaf casts in Insert, Erase and GetData are sound. |
| QuadtreeArena.WalkStep | ArtificialBrain/Src/Quadtree.cpp:328-330 | Each step of the walk goes to the child that the level's path digit names. |
| QuadtreeArena.SetLeafEffect | ArtificialBrain/Src/Quadtree.cpp:79-92 | Rewriting one leaf's bucket keeps the invariant and gives that leaf exactly the new records. Every other leaf is unchanged, and the contents trade the old records for the new. |
| QuadtreeTraverse.Traverse | ArtificialBrain/Src/Quadtree.cpp:240-274 | A node outside the arena yields no visit. Otherwise the first visit is the node with its rectangle, and every visit is of an arena node at or after the start. |
| QuadtreeTraverse.TraverseNoExit | ArtificialBrain/Src/Quadtree.cpp:266-271 | A traversal whose visitor never says Exit returns true. |
| QuadtreeTraverse.TraverseUnfold | ArtificialBrain/Src/Quadtree.cpp:247-266 | On Continue, an internal node is followed by its four children in quadrant order, with the quarters of its rectangle around the midpoint. |
| QuadtreeTraverse.DescSumRoot | ArtificialBrain/Src/Quadtree.cpp:193-196 | The records below the root are all the records of the arena. |
| QuadtreeTraverse.DescSumLeaf | ArtificialBrain/Src/Quadtree.cpp:203-215 | Below a leaf lie only the leaf's own records. |
| QuadtreeTraverse.SplitsEverywhere | ArtificialBrain/Src/Quadtree.cpp:255-264 | Every node strictly below an internal node lies below exactly one of its four children. |
| QuadtreeTraverse.DescSumInternal | ArtificialBrain/Src/Quadtree.cpp:255-264 | The records below an internal node are those below its four children. |
| QuadtreeTraverse.TraverseAll | ArtificialBrain/Src/Quadtree.cpp:240-274 | A traversal that always continues succeeds, and hands out each record below its start exactly once. |
| QuadtreeTraverse.TraversalContents | ArtificialBrain/Src/Quadtree.cpp:169-175 | Visiting the whole tree hands out every stored record exactly once. This is what Resize reinserts. |
| QuadtreeTraverse.TraceRecordsIn | ArtificialBrain/Src/Quadtree.cpp:198-216 | Every record that VisitDatas hands out along a trace is stored in the tree. |
| QuadtreeUpdate.NewIdBound | ArtificialBrain/Src/Quadtree.cpp:486-492 | GetNewID's scan never exceeds the leaf's record count. |
| QuadtreeUpdate.NewIdExact | ArtificialBrain/Src/Quadtree.cpp:486-492 | The scan reaches the count exactly when the slots are 0, 1, …, count-1 in order. |
| QuadtreeUpdate.NewIdRepeats | ArtificialBrain/Src/Quadtree.cpp:486-492 | With slots 1 then 0 stored, the scan yields 1 again: new slots are not unique in general. |
| QuadtreeUpdate.NewIdOf | ArtificialBrain/Src/Quadtree.cpp:486-492 | GetNewID's scan over a leaf's records; NewIdBound, NewIdExact and NewIdRepeats give its meaning. |
| QuadtreeUpdate.NewId | ArtificialBrain/Src/Quadtree.cpp:478-493 | GetNewID: `~0` for a node outside the arena or not a leaf, the scan otherwise. |
| QuadtreeUpdate.RegionStep | ArtificialBrain/Src/Quadtree.cpp:431-457 | One pass of GetNodeRegion's loop body, halving towards the child's quadrant; NodeRegionDepth and RootRegion give its effect. |
| QuadtreeUpdate.NodeRegion | ArtificialBrain/Src/Quadtree.cpp:419-476 | GetNodeRegion as written, rescaled to the bounds; NodeRegionDepth and RootRegion give its meaning. |
| QuadtreeUpdate.NodeRegionDepth | ArtificialBrain/Src/Quadtree.cpp:429-464 | GetNodeRegion reports depth 0 for the root and 1 for every other node, because its loop never advances `current`. |
| QuadtreeUpdate.RootRegion | ArtificialBrain/Src/Quadtree.cpp:424-475 | The root's reported region is (2·min − max, max), so the root splits around `min`. |
| QuadtreeUpdate.Filter | ArtificialBrain/Src/Quadtree.cpp:391-400 | A quadrant's share of the records is no larger than the whole. |
| QuadtreeUpdate.FilterMembers | ArtificialBrain/Src/Quadtree.cpp:394-399 | A record goes to child q exactly when it lies in quadrant q around the midpoint. |
| QuadtreeUpdate.FilterPartition | ArtificialBrain/Src/Quadtree.cpp:391-400 | The four children's shares together are exactly the old records. |
| QuadtreeUpdate.FilterCounts | ArtificialBrain/Src/Quadtree.cpp:391-400 | The four children's counts add up to the old count. |
| QuadtreeUpdate.SplitWithNone | ArtificialBrain/Src/Quadtree.cpp:364-390 | Before redistribution, four empty leaves are appended: the first reuses the old bucket and the others get three new buckets. The node turns internal over them. |
| QuadtreeUpdate.SplitWith | ArtificialBrain/Src/Quadtree.cpp:364-400 | SplitLeafNode's tree once the records `rs` have been placed; SplitWithNone and SplitWithPlace tie it to the source's steps. |
| QuadtreeUpdate.Split | ArtificialBrain/Src/Quadtree.cpp:347-401 | SplitLeafNode; SplitValid, SplitContents, SplitChildRecords, SplitQuadrants and SplitOthers give its meaning. |
| QuadtreeUpdate.SplitWithPlace | ArtificialBrain/Src/Quadtree.cpp:391-400 | One turn of the loop writes the record into the first free slot of its quadrant's child, found through the split node's children, and bumps that child's count. |
| QuadtreeUpdate.SplitNodes | ArtificialBrain/Src/Quadtree.cpp:347-401 | After SplitLeafNode, node by node and bucket by bucket, each child holds the quadrant filter of the old records in order. Nothing else changes. |
| QuadtreeUpdate.SplitChildRecords | ArtificialBrain/Src/Quadtree.cpp:391-400 | Child q holds exactly the old records of quadrant q, and the split node holds none. |
| QuadtreeUpdate.SplitValid | ArtificialBrain/Src/Quadtree.cpp:347-401 | Splitting a leaf that is not at depth 15 keeps the arena invariant. |
| QuadtreeUpdate.SplitOthers | ArtificialBrain/Src/Quadtree.cpp:347-401 | Every other leaf keeps its records. |
| QuadtreeUpdate.SplitContents | ArtificialBrain/Src/Quadtree.cpp:347-401 | A split loses and gains no record. |
| QuadtreeUpdate.SplitTop | ArtificialBrain/Src/Quadtree.cpp:370-389 | The split node becomes internal over four new leaves that name it as their parent. |
| QuadtreeUpdate.SplitCounts | ArtificialBrain/Src/Quadtree.cpp:391-400 | The children's counts sum to the old leaf's count. |
| QuadtreeUpdate.SplitQuadrants | ArtificialBrain/Src/Quadtree.cpp:394-399 | Every record of child q is an old record lying in quadrant q around the split midpoint. |
| QuadtreeUpdate.Settle | ArtificialBrain/Src/Quadtree.cpp:58-62 | After the optional split, the tree is valid and the node is the path's leaf in the new tree. |
| QuadtreeUpdate.SettleConserves | ArtificialBrain/Src/Quadtree.cpp:58-62 | Settling keeps every record and the bounds. |
| QuadtreeUpdate.AppendEffect | ArtificialBrain/Src/Quadtree.cpp:68 | Appending to a leaf with room keeps the invariant, adds the record to that leaf's end and to the contents, and touches no other leaf. |
| QuadtreeUpdate.InsertDataSpec | ArtificialBrain/Src/Quadtree.cpp:495-507 | The tree after InsertData is valid. |
| QuadtreeUpdate.InsertDataContents | ArtificialBrain/Src/Quadtree.cpp:495-507 | On success InsertData adds exactly the record; on failure it loses nothing. The bounds are kept either way. |
| QuadtreeUpdate.FirstIndex | ArtificialBrain/Src/Quadtree.cpp:80-83 | The result is the first slot carrying the id, or None when no slot carries it. |
| QuadtreeUpdate.EraseAt | ArtificialBrain/Src/Quadtree.cpp:84-92 | The removal of slot i; EraseAtEffect gives its meaning. |
| QuadtreeUpdate.EraseSpec | ArtificialBrain/Src/Quadtree.cpp:72-96 | Erase by id; EraseEffect gives its meaning. |
| QuadtreeUpdate.EraseAtEffect | ArtificialBrain/Src/Quadtree.cpp:84-92 | Removing slot i keeps the invariant and leaves the other records in order, with the count one lower. Other leaves are untouched, and the contents lose exactly that record. |
| QuadtreeUpdate.EraseEffect | ArtificialBrain/Src/Quadtree.cpp:72-96 | Erase removes the first record with the id from its path's leaf and keeps the rest in order. Without a match the tree is unchanged. |
| QuadtreeOps.Lower | ArtificialBrain/Src/Quadtree.cpp:47-50 | The union's lower corner is at most both points, taking one of their coordinates in each axis. |
| QuadtreeOps.Upper | ArtificialBrain/Src/Quadtree.cpp:51-54 | The union's upper corner is at least both points, taking one of their coordinates in each axis. |
| QuadtreeOps.InsertAll | ArtificialBrain/Src/Quadtree.cpp:169-175 | Reinserting records one by one, stopping at the first failure, keeps the tree valid. |
| QuadtreeOps.ResizeSpec | ArtificialBrain/Src/Quadtree.cpp:166-179 | Resize: the result is always valid; ResizeEffect gives its meaning. |
| QuadtreeOps.EnsureRegionSpec | ArtificialBrain/Src/Quadtree.cpp:148-164 | EnsureRegion: the result is always valid; EnsureRegionEffect gives its meaning. |
| QuadtreeOps.InsertAllContents | ArtificialBrain/Src/Quadtree.cpp:169-175 | The bounds are kept, and a run that succeeds throughout adds exactly its records. |
| QuadtreeOps.ResizeEffect | ArtificialBrain/Src/Quadtree.cpp:166-179 | Resize either fails and leaves the tree alone, or takes the new bounds with exactly the old records, ids unchanged. |
| QuadtreeOps.EnsureRegionEffect | ArtificialBrain/Src/Quadtree.cpp:148-164 | A region already inside the bounds returns true and changes nothing. On success the bounds cover both the old bounds and the requested region, with the same records. On failure nothing changes. |
| QuadtreeOps.EmptyContents | ArtificialBrain/Src/Quadtree.cpp:10-19 | A new tree holds no records. |
| QuadtreeOps.ClearEffect | ArtificialBrain/Src/Quadtree.cpp:181-191 | Clear leaves a valid tree with one empty root leaf, one bucket, no records and the same bounds. |
| QuadtreeOps.Prepared | ArtificialBrain/Src/Quadtree.cpp:44-56 | Insert's optional Resize, its result ignored; the tree stays valid, and PreparedEffect gives its meaning. |
| QuadtreeOps.InsertAt | ArtificialBrain/Src/Quadtree.cpp:58-69 | Insert after the resize step; the tree stays valid, and InsertEffect gives its meaning. |
| QuadtreeOps.InsertSpec | ArtificialBrain/Src/Quadtree.cpp:42-70 | Insert; the tree stays valid, and InsertEffect and InsertThenGetData give its meaning. |
| QuadtreeOps.PreparedEffect | ArtificialBrain/Src/Quadtree.cpp:44-56 | The resize step keeps every record and does nothing for a point inside the bounds. When the resize succeeds, the bounds become the union and contain the point. |
| QuadtreeOps.InsertEffect | ArtificialBrain/Src/Quadtree.cpp:42-70 | `~0` is returned exactly when the point's leaf is full, and then no record is added. Otherwise the id's high half is the point's path and its low half is GetNewID's slot. The leaf's count then grows by one, and the contents gain exactly the new record. |
| QuadtreeOps.GetDataSpec | ArtificialBrain/Src/Quadtree.cpp:225-238 | A found record carries the id and lies in the leaf of the id's path. |
| QuadtreeOps.GetDataFound | ArtificialBrain/Src/Quadtree.cpp:225-238 | GetData finds only stored records. It returns null exactly when no record of that leaf carries the id. |
| QuadtreeOps.InsertThenGetData | ArtificialBrain/Src/Quadtree.cpp:42-70 | The id a successful Insert returns leads GetData to a record with that id. |
| QuadtreeNeighbours.Dist2 | ArtificialBrain/Src/Quadtree.cpp:106-108 | A squared distance is never negative. |
| QuadtreeNeighbours.RectCircleOverlap | ArtificialBrain/Src/Quadtree.cpp:3-8 | The clamp-and-compare test; OverlapSound and OverlapInside give its meaning. |
| QuadtreeNeighbours.OverlapSound | ArtificialBrain/Src/Quadtree.cpp:3-8 | The overlap test never rejects a rectangle that holds a point within the radius. |
| QuadtreeNeighbours.OverlapInside | ArtificialBrain/Src/Quadtree.cpp:3-8 | A rectangle containing the query point always passes. |
| QuadtreeNeighbours.RootSplitCell | ArtificialBrain/Src/Quadtree.cpp:255-264 | With the default bounds, the root split sends a record at (-0.5, -0.5) to child 3, whose traversal cell (0, 0)..(1, 1) fails the overlap test for radius 0.1 around that point: FindNeighbours misses records that lie in range. |
| QuadtreeNeighbours.OverlapVisitor | ArtificialBrain/Src/Quadtree.cpp:102-104 | The node visitor never returns Exit. |
| QuadtreeNeighbours.CandidatesIn | ArtificialBrain/Src/Quadtree.cpp:102-143 | The pruned traversal runs to the end, and every record it scans is stored in the tree. |
| QuadtreeNeighbours.Within | ArtificialBrain/Src/Quadtree.cpp:106-110 | The record test `sqrtf(d2) <= maxDistance`, as a non-negative radius and a squared comparison; NegativeRadius and FindNeighboursSound use it. |
| QuadtreeNeighbours.Candidates | ArtificialBrain/Src/Quadtree.cpp:102-105 | The records the pruned traversal scans, in order; CandidatesIn gives its meaning. |
| QuadtreeNeighbours.LowerBound | ArtificialBrain/Src/Quadtree.cpp:113-115 | Every entry before the position is nearer than d, and the entry at it is not. |
| QuadtreeNeighbours.LowerBoundSplit | ArtificialBrain/Src/Quadtree.cpp:113-115 | On a sorted buffer, every entry from the lower bound on is not nearer than d. |
| QuadtreeNeighbours.Offer | ArtificialBrain/Src/Quadtree.cpp:113-138 | One accepted record offered to the buffer; OfferKeeps, OfferGrows, OfferEvicts, OfferFullFar and OfferOverwrites give its meaning. |
| QuadtreeNeighbours.OfferKeeps | ArtificialBrain/Src/Quadtree.cpp:113-138 | Offering keeps the buffer sorted and within capacity, grows it by at most one, and adds only the new entry. |
| QuadtreeNeighbours.OfferGrows | ArtificialBrain/Src/Quadtree.cpp:117-133 | Below capacity, and not at the last position, the entry is added and nothing is lost. |
| QuadtreeNeighbours.OfferEvicts | ArtificialBrain/Src/Quadtree.cpp:123-128 | At capacity, a nearer record pushes out exactly the last entry. |
| QuadtreeNeighbours.OfferFullFar | ArtificialBrain/Src/Quadtree.cpp:117-120 | At capacity, a record no nearer than every entry changes nothing. |
| QuadtreeNeighbours.OfferOverwrites | ArtificialBrain/Src/Quadtree.cpp:123-138 | A record landing at the last position overwrites that entry even when there is room, so one entry is lost. |
| QuadtreeNeighbours.Accepted | ArtificialBrain/Src/Quadtree.cpp:106-110 | The records that pass the test are no more than those scanned. |
| QuadtreeNeighbours.Gather | ArtificialBrain/Src/Quadtree.cpp:105-140 | The buffer is sorted and within capacity. Every record in range is counted, and every entry is a scanned record in range with its distance. |
| QuadtreeNeighbours.GatherSnoc | ArtificialBrain/Src/Quadtree.cpp:105-140 | One more record is counted and offered when it is in range, and ignored otherwise. |
| QuadtreeNeighbours.FindNeighboursSound | ArtificialBrain/Src/Quadtree.cpp:98-146 | FindNeighbours returns at most `cap` entries, sorted by distance, each a stored record in range with its distance. `maxNeighbours` receives the number of in-range records among those the pruned traversal scans. |
| QuadtreeNeighbours.NegativeRadius | ArtificialBrain/Src/Quadtree.cpp:108-110 | A negative radius finds nothing. |
| QuadtreeNeighbours.FindNeighboursSpec | ArtificialBrain/Src/Quadtree.cpp:98-146 | FindNeighbours as a fold over the scanned records; FindNeighboursSound gives its meaning. |
| QuadtreeIndex.Quadtree.constructor | ArtificialBrain/Src/Quadtree.cpp:10-19 | The new object is valid and holds the empty tree over the given bounds, which default to (-1, -1) and (1, 1) as in `Quadtree.h`. |
| QuadtreeIndex.Quadtree.ComputePath | ArtificialBrain/Src/Quadtree.cpp:276-320 | The loop yields the path and final cell of the specification: a 32-bit path whose digit i is the level-i quadrant. |
| QuadtreeIndex.Quadtree.GetPathNode | ArtificialBrain/Src/Quadtree.cpp:322-333 | The loop ends on the leaf the path leads to. |
| QuadtreeIndex.Quadtree.GetNodeDepth | ArtificialBrain/Src/Quadtree.cpp:403-417 | The result is the number of parent steps to the root, or `~0` outside the arena. |
| QuadtreeIndex.Quadtree.GetNodeRegion | ArtificialBrain/Src/Quadtree.cpp:419-476 | The result is `~0` outside the arena, with the caller's rectangle handed back untouched, and otherwise the as-written region with depth 0 for the root and 1 elsewhere. |
| QuadtreeIndex.Quadtree.ShouldLeafSplit | ArtificialBrain/Src/Quadtree.cpp:335-345 | True exactly for an arena leaf with 32 records that is not at depth 15. |
| QuadtreeIndex.Quadtree.GetNewID | ArtificialBrain/Src/Quadtree.cpp:478-493 | The scan's slot is at most the leaf's count. |
| QuadtreeIndex.Quadtree.SplitLeafNode | ArtificialBrain/Src/Quadtree.cpp:347-401 | The object afterwards is the split tree. |
| QuadtreeIndex.Quadtree.Redistribute | ArtificialBrain/Src/Quadtree.cpp:391-400 | Placing the old records one by one, in order, leaves each child with the quadrant filter of those records, as SplitWith describes. |
| QuadtreeIndex.Quadtree.SettleLeaf | ArtificialBrain/Src/Quadtree.cpp:58-62 | The invariant is kept, and the result is the path's leaf after the optional split. |
| QuadtreeIndex.Quadtree.InsertData | ArtificialBrain/Src/Quadtree.cpp:495-507 | The invariant is kept, and the effect is InsertDataSpec, whose contents effect InsertDataContents proves. |
| QuadtreeIndex.Quadtree.Insert | ArtificialBrain/Src/Quadtree.cpp:42-70 | The invariant is kept, and the effect and returned id are InsertSpec, whose meaning InsertEffect proves. |
| QuadtreeIndex.Quadtree.Place | ArtificialBrain/Src/Quadtree.cpp:58-69 | Within the bounds, the effect and id are those of InsertAt. |
| QuadtreeIndex.Quadtree.AppendRecord | ArtificialBrain/Src/Quadtree.cpp:68 | Writing the record into the leaf's first free slot keeps the invariant and gives the tree Append describes. |
| QuadtreeIndex.Quadtree.StoreRecord | ArtificialBrain/Src/Quadtree.cpp:68 | Only the leaf's count grows by one and only its bucket slot `count` changes. The bounds and every other node and bucket are kept. |
| QuadtreeIndex.Quadtree.Erase | ArtificialBrain/Src/Quadtree.cpp:72-96 | The invariant is kept, and the effect is EraseSpec, whose meaning EraseEffect proves. |
| QuadtreeIndex.Quadtree.RemoveRecord | ArtificialBrain/Src/Quadtree.cpp:84-92 | Shifting the later records down and clearing the freed slot gives EraseAt's tree, and the invariant is kept. |
| QuadtreeIndex.Quadtree.GetData | ArtificialBrain/Src/Quadtree.cpp:225-238 | The result is the record GetDataSpec names. |
| QuadtreeIndex.Quadtree.VisitDatas | ArtificialBrain/Src/Quadtree.cpp:198-216 | True exactly when the visitor accepts every record of the node. |
| QuadtreeIndex.VisitAll | ArtificialBrain/Src/Quadtree.cpp:210-215 | The loop returns true exactly when the visitor accepts each of the first `count` records. |
| QuadtreeIndex.Quadtree.Resize | ArtificialBrain/Src/Quadtree.cpp:166-179 | The invariant is kept, and the effect is ResizeSpec, whose meaning ResizeEffect proves. |
| QuadtreeIndex.Quadtree.EnsureRegion | ArtificialBrain/Src/Quadtree.cpp:148-164 | The invariant is kept, and the effect is EnsureRegionSpec, whose meaning EnsureRegionEffect proves. |
| QuadtreeIndex.Quadtree.FindNeighbours | ArtificialBrain/Src/Quadtree.cpp:98-146 | At most `cap` entries are written, equal to the specified sorted entries, and the found-in-range count is returned. The rest of the buffer is untouched. |
| QuadtreeIndex.Quadtree.Clear | ArtificialBrain/Src/Quadtree.cpp:181-191 | The object is back to the empty tree over its bounds. |
| QuadtreeIndex.FindRecord | ArtificialBrain/Src/Quadtree.cpp:80-83 | The scan returns the first used slot carrying the id. |
| QuadtreeIndex.GatherInto | ArtificialBrain/Src/Quadtree.cpp:105-140 | The buffer's first `count` entries and the total are those of Gather, and the tail is untouched. |
| QuadtreeIndex.OfferInto | ArtificialBrain/Src/Quadtree.cpp:113-138 | The in-place insertion gives the buffer Offer's result and leaves the tail untouched. |
| QuadtreeIndex.LowerBoundSearch | ArtificialBrain/Src/Quadtree.cpp:113-115 | The binary search finds the lower bound. |
| QuadtreeIndex.ShiftUp | ArtificialBrain/Src/Quadtree.cpp:123-133 | The memmove moves entries from..to-1 up one place and keeps the rest. |
| BrainModel.GridIndex | ai.py:29-31 | For i, j below n, the draw index `i*n + j` is below `n*n`, so every draw of the grid exists. |
| BrainModel.Coord | ai.py:31 | `(i - n/2) * 3` with true division; GridAt gives its use. |
| BrainModel.NewNeuron | ai.py:12-22 | `Neuron(x, y, connectTicks)`: unconnected, value, strength and counter 0; RowsFresh gives its meaning. |
| BrainModel.Row | ai.py:30-31 | The first j neurons of row i, j of them; GridAt gives their fields. |
| BrainModel.Rows | ai.py:29-31 | The first i rows, i*n neurons; GridAt gives their fields. |
| BrainModel.Grid | ai.py:28-31 | populate(n) appends n² neurons. |
| BrainModel.GridAt | ai.py:28-31 | Neuron `i*n+j` is at ((i − n/2)·3, (j − n/2)·3) with the `(i*n+j)`-th draw as its `connectTicks`. |
| BrainModel.RowsFresh | ai.py:11-22 | Every new neuron is unconnected, with strength 0, counter 0 and one of the draws as its period. |
| BrainModel.GridWired | ai.py:28-31 | Appending the grid keeps the connection invariant, given draws in [5, 25]. |
| BrainModel.NearestUpTo | ai.py:35-43 | Each index returned by the first m rounds is below m. |
| BrainModel.NearestExactly | ai.py:33-44 | The query neuron is never returned. An index is returned if and only if it is another neuron within the radius, in list order, each once. |
| BrainModel.NearestUpToExactly | ai.py:35-43 | The same as NearestExactly, for the first m rounds of the loop. |
| BrainModel.Nearest | ai.py:33-44 | findNearestNeurons' indices, each below the list length; NearestExactly gives its meaning. |
| BrainModel.NearestUpToMembers | ai.py:35-43 | After m rounds, an index is listed exactly when it is below m, not the query, and within the radius. |
| BrainModel.NearestUpToIncreasing | ai.py:35-43 | The indices found in the first m rounds are strictly increasing, so each appears once. |
| BrainModel.Spread | ai.py:51-53 | Spreading along connections keeps the length of `nextValues`. |
| BrainModel.SpreadAt | ai.py:51-53 | Slot k gains exactly the strength of the active connections into k. |
| BrainModel.Inflows | ai.py:49-53 | tick()'s first loop after m neurons, one entry per neuron; InflowsAt gives its meaning. |
| BrainModel.NextValues | ai.py:49-53 | tick()'s `nextValues`, one entry per neuron; NextValuesAt gives its meaning. |
| BrainModel.InflowsAt | ai.py:50-53 | After m neurons, slot k holds what those m neurons send to k. |
| BrainModel.NextValuesAt | ai.py:49-53 | A neuron's next input is the total strength of the connections into it whose window holds the source's starting value. |
| BrainModel.Pick | ai.py:60-76 | A chosen position lies within the candidate list. |
| BrainModel.PickBest | ai.py:60-79 | There is no choice exactly when every candidate is linked or at least 20 away. Otherwise the choice is unlinked, strictly nearer than 20 and nearest among unlinked candidates, and the first of the equally near. |
| BrainModel.Drawn | ai.py:81-84 | A new connection's window is ordered: min ≤ max. |
| BrainModel.Link | ai.py:81-91 | Linking keeps the number of neurons. |
| BrainModel.StepAt | ai.py:54-91 | The second loop's body for one neuron; StepLinks and StepFields give its meaning. |
| BrainModel.StepLinks | ai.py:54-91 | The counter grows by 2 iff the neuron is due and a neighbour (never itself) is chosen, and the step is then the link to it; otherwise no connection changes; the counter grows by exactly the number of connections appended. |
| BrainModel.Run | ai.py:54-91 | The second loop keeps the number of neurons. |
| BrainModel.StepCount | ai.py:54-91 | One step adds to the counter exactly the number of connections it appends. |
| BrainModel.RunConns | ai.py:54-91 | After m neurons the counter equals the number of connections the loop appended. |
| BrainModel.RunCount | ai.py:54-91 | After m neurons the counter equals the number of connections appended, and it is even and at most 2m. |
| BrainModel.TickCount | ai.py:46-93 | tick() returns the number of connections it appended, two per link formed: even and at most twice the number of neurons. |
| BrainModel.AttachFacts | ai.py:84-90 | Appending a connection makes its target linked, adds its strength to the total, and keeps targets distinct when the target was new. |
| BrainModel.Attach | ai.py:84-85 | Append one connection and add its strength to `maxStrength`; AttachFacts gives its meaning. |
| BrainModel.LinkedAt | ai.py:63-69 | A neuron is linked to j exactly when one of its connections targets j, which is what the inner `good` loop checks. |
| BrainModel.LinkShape | ai.py:81-90 | A link appends one connection on each side, using draws k..k+5, and leaves the other neurons alone. |
| BrainModel.LinkWired | ai.py:78-91 | Linking two distinct, unlinked neurons keeps the graph simple and symmetric, with windows ordered and strengths summed. |
| BrainModel.StepWired | ai.py:54-91 | One step of the second loop keeps the invariant. |
| BrainModel.RunWired | ai.py:54-91 | The second loop keeps the invariant. |
| BrainModel.TickWired | ai.py:46-93 | tick() never indexes outside the list, and keeps the invariant: no self-links or repeated targets, links in both directions, ordered windows, `maxStrength` equal to the sum of strengths, and counters in [0, connectTicks). |
| BrainModel.StepFields | ai.py:54-91 | One step sets neuron i's value and counter and no one else's. Nobody moves, and connections are only appended. |
| BrainModel.RunKeeps | ai.py:54-91 | The second loop moves no neuron and only appends connections. |
| BrainModel.RunValues | ai.py:55-58 | Once the loop has passed neuron k, its value and counter are set; before that they are unchanged. |
| BrainModel.TickFields | ai.py:46-93 | After tick(), each neuron is where it was and its counter has stepped, wrapping at `connectTicks`. Its connections are kept, and its value is its inflow from the start-of-tick values divided by max(maxStrength, 1). |
| BrainModel.TickSpec | ai.py:46-93 | tick() on the neuron list; TickFields, TickCount and TickWired give its meaning. |
| BrainPrototype.Brain.constructor | ai.py:24-26 | A new brain has no neurons and satisfies the invariant. |
| BrainPrototype.Brain.Populate | ai.py:28-31 | The loops append exactly the grid of side len(range(n)), nothing for n <= 0, and keep the invariant. |
| BrainPrototype.Brain.FindNearestNeurons | ai.py:33-44 | The loop returns the indices of the other neurons in range, in order, as NearestExactly characterises them. |
| BrainPrototype.Brain.Tick | ai.py:46-93 | The invariant is kept, and the new neurons and the returned count are TickSpec's, which TickFields, TickCount and TickWired characterise. |
| BrainPrototype.Brain.Step | ai.py:54-91 | The second loop's body leaves the list and count as StepAt says. |
| BrainPrototype.Propagate | ai.py:49-53 | The first loop computes NextValues. |
| BrainPrototype.ChooseNeighbour | ai.py:60-76 | The scan with its inner `good` loop returns the position Pick chooses. |

## Left out

**Quadtree: members not modelled**

- `GetNode` (`Quadtree.cpp:218-223`) is not modelled: it only returns a pointer into the arena.
- `GetData` returns a copy of the record rather than a pointer. The aliasing that lets a caller change a stored record through the pointer is not modelled.
- The move constructor, the move assignment and the destructor are not modelled. They carry no logic beyond ownership of the vectors.
- `VisitNodes` and `VisitDatas` take a C function pointer and a `void*` user-data argument. Here the visitor is a Dafny function value, and callers' side effects are folded over the trace of visits.
- `Brain.cpp`, `Brain.h` and `Main.cpp` are not part of this model.

**Quadtree: deliberate simplifications**

- QuadtreeIndex.Quadtree.Resize: the source reinserts each record from inside the traversal callback. Here the records are collected in traversal order and then reinserted in a loop. The result and the stop-at-first-failure behaviour are the same.
- QuadtreeIndex.Quadtree.FindNeighbours: the pruned traversal is computed as the candidate sequence (`Candidates`) and then folded through the buffer. The buffer holds the record itself instead of a pointer into the bucket, and the squared distance instead of `sqrtf`.
- QuadtreeIndex.Quadtree.Erase models the intended removal: the later records move down one slot and the freed last slot holds the empty record. The source's `memmove` copies `count - i` records starting at slot `i + 1`. The byte count uses `sizeof(QuadtreeLeaf)`, which is 24 bytes like `sizeof(QuadtreeData)`, so whole records are copied. This equals the model when the bucket is not full, because slot `count` then holds the empty record. With 32 records it reads one record past the end of the bucket; that read is not modelled.
- Node, bucket and record counts are unbounded naturals, and the 63-bit `parent` bit-field and 64-bit `size_t` wrap-around are not modelled. Paths and slots stay within 32 bits by PathLayout and NewIdBound.
- `float` arithmetic is modelled by exact `real` arithmetic. Rounding and NaN are not modelled.
- QuadtreeIndex.Quadtree.SplitLeafNode keeps `pNode` (and `leaf`) as pointers into `m_Nodes` across four `emplace_back` calls (`Quadtree.cpp:351`, `375-389`). A reallocation leaves them dangling, so the later writes to `pNode->leaf` and `pNode->children` can miss the node. The model updates the node by its index, which is the intended behaviour; the dangling writes are not modelled.

**Brain prototype**

- `main()` (`ai.py:95-112`) is not modelled: it only drives the brain and prints values.
- Randomness is modelled by parameters. `random.randint(5, 25)` becomes the `ticks` sequence of Populate. BrainPrototype.Brain.Populate requires the draws to lie in [5, 25], the range `randint` guarantees. `random.random()` becomes the `draw` function of Tick.
- A neuron is identified by its list index. `findNearestNeurons` compares neuron objects by identity, and the prototype only ever passes a member of the list. Here the query is an index into the list; a query neuron outside the list is not modelled.
- The distance test `math.sqrt(d2) <= maxDistance` is modelled as `maxDistance >= 0 and d2 <= maxDistance²`, which accepts the same neurons. The neighbour choice compares squared distances with 20², which orders and accepts the same candidates.
- Python floats (coordinates, `n/2`, values, strengths, window bounds, `math.sqrt` and the division `nextValues[i] / max(n.maxStrength, 1.0)`) are modelled by exact `real` arithmetic. Double rounding, infinities and NaN are not modelled.
- BrainModel.TickSpec requires every connection to target an index of the list. Without that, Python raises IndexError when such a connection is active; that path is not modelled. TickWired proves that the invariant Brain keeps implies it.
