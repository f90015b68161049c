# LBD in Dafny

A model of LBD, a block device that logs its writes into label-ordered segments, garbage-collects
those segments and keeps images in a compressed two-level format, and proofs about it.

- **Log algebra.** Replaying entries byte by byte (`LogReplay`) is the specification. The interval
  maps behind the live map and the extent map (`IntervalMap`, `LiveMaps`), the interval set
  (`BlockSets`), repack (`Sweep`), garbage collection (`Store`, `Retire`, `Accounting`, `Gc`, `Utilization`), any
  number of collections of a growing log (`GcRuns`), the limit on the log's size (`LogLimit`), segments that arrive late (`LateSegments`),
  incremental replay (`Incremental`) and demand paging (`DemandPaging`) are proved to agree with it, or shown exactly where they do not
  (`GcExample`, `PagingExample`, with entries from `Samples`).
- **The image.** `ImageSpace` and `FreeChain` describe the file as extents that never overlap and a
  chain of freed ones; `ImageTables` and `ImageState` say what headers, tables and entries mean;
  `Image` is the read/write/trim/flush code, and `ImageRuns` proves that it refines a flat disk.
  `ReplayImage` and `ImageTools` build on it.
- **The kernel driver.** `Lru` and `Kernel` model its caches and base layer over the same image
  code, `Overlay` the disk it presents, `KernelRuns` that the caches cannot be observed, from
  opening a file over a base to the file left behind.
- **The LZ4 block codec.** `Lz4Format` has the format as functions, `Lz4Compress`,
  `Lz4Decompress` and `Lz4FastDecode` the code on sequences and on an output array.
- **Byte formats and streams.** `Cbor`, `SegmentFormat`, `SegmentWriter`, and `Scanner`.

Loops are methods proved against specification functions; the laws are lemmas about those functions.

## Where the code and its comments differ

- *Extent order.* The comments at extentmap.go:28 and livemap.go:14 say that extents stay sorted. They do not:
  with [0,10) and [20,30) in the list, inserting [2,5) leaves [5,10) before [2,5)
  (`IntervalMap.OrderLost`). `IntervalMap.InsertedSortedIff` gives the exact condition. `Lookup` and
  `intersectRange` stop early and rely on the order, so a garbage collection can lose live data and
  demand paging can miss it: `GcExample.GcLosesData` and `PagingExample.MissLosesData` show it,
  `Retire.CollectExact`, `Payload.PreservedExactly` and `DemandPaging.HandleMiss` say exactly when it
  does not happen. The maps take a flag `repaired` for an insertion that keeps the order; with it nothing
  is ever hidden, on any run (`GcRuns.Runs`, `DemandPaging.Page`).
- *Trim chunks.* A coalesced trim of 2^32 bytes or more is cut into chunks of 2^32-1 bytes while the
  block number advances by whole blocks, so its end is missed (`Scanner.ClearedIs`);
  `Scanner.ScanDevice` says for each byte of the device whether that happens.
- *Partial blocks.* Garbage collection, repack and demand paging round an entry's length to whole
  blocks. `LogReplay.AlignedIff` says when that is exact; it is what a stored log is assumed to hold.
- *Segment totals.* The label of a garbage collection's output is not recorded as read, so its
  entries are counted again by the next run, and its reported utilization halves
  (`GcRuns.RunThenLook`). Ownership is unaffected (`Gc.RereadAgrees`). `Gc.TotalExactIff` says exactly
  when a total is right, and `GcRuns.Runs` that every total is the segment's size times the number of
  times it was counted.
- *Live and total.* A run hands over to its output all live extents of the segments it retires, but
  records as its total only the bytes it copied. Writes hidden from the copy therefore make live
  bytes exceed the total, and such a segment is not retired again: `GcExample.LiveExceedsTotal` shows a
  report of 110 live blocks out of 28. `Gc.CopyBounded` says exactly when a run keeps live at most
  total, and `GcRuns.Runs` that every run does if and only if no run loses a live write. Hidden
  trims do not matter for this.
- *Deleted segments.* A run forgets the owners whose segments others have deleted (`Gc.CleanedOwner`). If
  only the oldest were deleted, as the limit on the log's size does, the map still fits
  (`Gc.OldestLost`, `LogLimit.LimitThenCollect`). If not, a block of a deleted segment may belong to an
  older one that the map takes for dead: retiring that one loses the block (`Gc.GapLoses`). The bytes of
  owned blocks are kept all the same (`Gc.RetiredRight`), and `Gc.GapsExactly` says when the others are.
- *Label order.* A segment gets its label when it is begun (src/lbd_main.c:745) and reaches the store
  when it is complete. If a collection falls in between, its output sorts after that segment
  and older data wins. `LateSegments.LateSegment` gives the exact condition,
  `GcExample.LateSegmentLoses` an example. An image that was replayed past its label never gets
  it at all: `Incremental.LateFiled`, `GcExample.LateNeverReplayed`.
- *Incremental replay.* An image that is replayed with only the logs past its last label can miss what
  a collection lost in between. `Incremental.CurrentExactly` says exactly when it does not: an image that
  had the lost blocks already stays right (`GcExample.ImageLosesData`).
- *Table size.* The L1 table's byte size is cut to 32 bits: an image is created with any virtual
  size, but it can be opened again if and only if it has fewer than 2^29 L1 entries (`Images.Create`).
- *In-place rewrite.* A cluster rewritten in less space forgets the tail of its extent.
  `Images.Image.StoreData` states that nothing else is ever lost.
- *Discard over a base.* A discarded cluster shows the base layer's data again, not zeros
  (`Overlay.DiscardZeroIff`).
- *L1 index.* It is cut to 32 bits, so guest offsets wrap around beyond 2^32 tables
  (`FlatDisk.Wraps`). Runs are stated below that reach.

## Assumptions

- Input and output do not fail, and nobody else changes the files.
- 64-bit counters and offsets do not wrap. Image files stay below 2^62 bytes, since entries have 62
  offset bits; the methods that allocate say how much they may need.
- Log entries have whole, positive numbers of blocks, as the driver's requests do. The label of a
  collection's output is larger than those in the store; in runs, so are the labels that arrive later.
- Compression is lossless (`ImageTables.Sound`, shown for LZ4 by `ImageRuns.Lz4Sound`) and checksums
  are functions. The scanner's hash has no collisions on runs of equal length.
- Labels and segment paths are numbers in the log model; their order is what the code uses of them.
- Clocks, hash functions, hole maps and labels are parameters.

## Model

| member | source | states |
|---|---|---|
| IntervalMap.InsertedOwner | extentmap.go:38-100 | for every list and every block, `AddWrite`/`applyOp` give the new range its new owner and leave every other block's owner alone |
| IntervalMap.RemovedOwner | extentmap.go:104-140 | `RemoveTrim` erases the owner on its range and nowhere else |
| IntervalMap.InsertedCount | livemap.go:47-107 | after an insertion each block of the new range is held exactly once, every other block as often as before |
| IntervalMap.InsertedShape | extentmap.go:38-100 | disjoint extents stay disjoint, none becomes empty, and each is a piece of the new extent or of an old one |
| IntervalMap.RemovedShape | extentmap.go:104-140 | trimming keeps disjointness and order, and only leaves pieces of old extents |
| IntervalMap.InsertedSortedIff | livemap.go:47-107 | a sorted list stays sorted after an insertion if and only if no extent reaching past the new end is followed by another extent (the comments promise always) |
| IntervalMap.SpillBreaksOrder | livemap.go:81-99 | the failing branch: whenever a non-last extent spills over the new end, the result is out of order |
| IntervalMap.OrderLost | extentmap.go:38-100 | a whole family of cases: a range inserted inside the first of two extents is owned, and no query inside it reports anything |
| IntervalMap.RepairedOwner | extentmap.go:38-100 | an insertion that places the new extent after cutting has the same owners as the original one |
| IntervalMap.RepairedSorted | extentmap.go:38-100 | the repaired insertion always keeps the list sorted |
| IntervalMap.RepairedShape | extentmap.go:38-100 | the repaired insertion keeps disjointness and leaves only pieces of the new extent and of old ones |
| IntervalMap.RepairedCount | livemap.go:47-107 | the repaired insertion holds each block of the new range once and every other block as often as before |
| IntervalMap.PlacedOwner | livemap.go:47-107 | either insertion gives exactly the new range its new owner |
| IntervalMap.PlacedShape | livemap.go:47-107 | either insertion keeps disjointness; the repaired one the order too |
| IntervalMap.QueryExact | extentmap.go:144-179 | `Lookup`/`intersectRange` answer for every block of their range if and only if no overlapping extent stands behind one that starts at or after the range's end |
| IntervalMap.QueryAt | extentmap.go:144-179 | for each block of its range, `Lookup`/`intersectRange` report its owner, or nothing exactly when its extent stands behind one that starts at or after the range's end |
| IntervalMap.HiddenBlock | extentmap.go:144-179 | an overlapping extent is hidden if and only if some block of the range is |
| IntervalMap.QuerySound | livemap.go:221-242 | whatever a query reports is a non-empty piece of one extent, inside the range, from before the early exit |
| IntervalMap.SortedNeverHides | livemap.go:221-242 | on a sorted list the early exit loses nothing |
| IntervalMap.SearchLoop | extentmap.go:86-88 | the binary search by start block, as a halving loop |
| IntervalMap.InsertLoop | extentmap.go:38-100 | the insertion loop shared by `AddWrite` and `applyOp` computes the list the lemmas above are about |
| IntervalMap.PlaceLoop | extentmap.go:38-100 | the loop that the maps run, with the original or the repaired placing, computes the list the lemmas are about |
| IntervalMap.RemoveLoop | extentmap.go:104-140 | the trim loop computes the list the lemmas above are about |
| IntervalMap.QueryLoop | extentmap.go:144-179 | the query loop with its early exit computes the list the lemmas above are about |
| BlockSets.BlockSet.Add | gc.go:28-65 | the set covers exactly the old blocks and the new range; for a non-empty range the intervals stay sorted, disjoint and non-adjacent; an empty one changes nothing or leaves an empty interval |
| BlockSets.BlockSet.Uncovered | gc.go:69-92 | the gaps are a canonical list covering exactly the blocks of the range that the set lacks |
| BlockSets.BlockSet.CoversAll | gc.go:95-104 | true exactly when the set covers the whole non-empty range, that is, when `Uncovered` is empty |
| BlockSets.BlockSet.SearchLo | gc.go:43-45 | the first interval starting at or after a block |
| BlockSets.CanonicalUnique | gc.go:20-24 | a set of blocks has only one canonical interval list |
| BlockSets.AddedCanonical | gc.go:28-65 | adding a range keeps the list canonical |
| BlockSets.GapsCover | gc.go:69-92 | the gaps cover exactly what is missing |
| LogReplay.ReplayToFlat | cmd/lbdlog/main.go:318-405 | for every list of logs, each byte of the output is the last operation on it, or the old byte: the replay specification |
| LogReplay.EffectLast | cmd/lbdlog/main.go:342-397 | what happens to a byte is what the last entry touching its block does |
| LogReplay.AlignedBytes | gc.go:264-267 | for whole-block entries, touching a byte and touching its block are the same |
| LogReplay.AlignedIff | gc.go:264-267 | an entry's bytes are exactly the bytes of the blocks it is accounted for if and only if its length is a positive multiple of the block size |
| LogReplay.CutShape | cmd/lbdlog/main.go:637-656 | an entry cut to a block range does on that range what the entry did, and nothing outside |
| Sweep.ReverseSweep | cmd/lbdlog/main.go:605-617 | the backward sweep assigns to each entry exactly the blocks it is the last to touch |
| Sweep.SweepUnique | cmd/lbdlog/main.go:605-617 | that assignment is the only canonical one |
| Sweep.EmitEffect | cmd/lbdlog/main.go:637-664 | the emitted entries do to each byte what the originals do, on the blocks that were emitted |
| Sweep.EmitCount | cmd/lbdlog/main.go:637-664 | each emitted block is emitted exactly once |
| Sweep.EmitLoop | cmd/lbdlog/main.go:637-664 | the writing loop emits exactly those cuts, in order |
| Sweep.Repack | cmd/lbdlog/main.go:605-664 | repack never changes the replay of any byte over any base, and emits every touched block exactly once |
| Retire.CollectExact | gc.go:365-439 | retirement moves every live byte to the new segment if and only if no retired segment has an extent hidden from `intersectRange` |
| Retire.HiddenLoses | gc.go:486-508 | a hidden extent makes some byte fall back to an older segment |
| Retire.SortedHidesNothing | livemap.go:221-242 | on a sorted live map nothing is hidden |
| Retire.CollectPreservesReplay | gc.go:313-447 | when nothing is hidden, replaying the retained and the new segment gives the same device as replaying all original ones, over any base |
| Retire.OwnedMoves | gc.go:365-439 | over a map that names no wrong owner, when nothing is hidden: every byte of an owned block moves with its owner |
| Retire.UnownedFalls | gc.go:365-439 | a byte of a block without owner falls back to the kept segments |
| Retire.CollectedOk | gc.go:420-435 | the collected store is again a well-formed, label-ordered store |
| Retire.CopiedOwned | gc.go:367-414 | a byte owned by a retired segment is copied with that segment's effect unless its block is skipped |
| Retire.SkippedIff | gc.go:486-508 | the owned blocks that are not copied are exactly those hidden from the lookup of their run, the stretch of blocks around them with the same last toucher |
| Payload.PreservedExactly | gc.go:365-439 | retirement preserves the device for every payload if and only if the only blocks hidden from it are trims lying over a kept trim |
| LateSegments.LateSegment | gc.go:340-426 | for every payload: a segment that reaches the store after a collection, filed by its older label, is replayed as it was logged if and only if at each byte it touches no newer label will own the block or both trim it, and elsewhere the collection does no harm; all read off map and logs before the run |
| LateSegments.LateAvoids | gc.go:340-426 | when nothing is hidden and no label is newer, that is: it touches no block that a retired segment owns, but for trims of trims |
| LateSegments.OwnerAfterIs | gc.go:365-439 | who owns a block after the run, as a function of map and logs before it |
| Incremental.CurrentExactly | cmd/lbdlog/main.go:262-270 | for every payload: an image of the logs up to a label, replayed with the logs of the collected store past it, is the full replay of the original logs if and only if at each byte a lost block's label is not past the image's, or a trim was lost over a trim |
| Incremental.ImageByte | cmd/lbdlog/main.go:262-270 | each byte of that image: the original logs', or, for a block lost past the label, what a kept log past it or else the image has |
| Incremental.ReplayCommutes | cmd/lbdlog/main.go:262-270 | when nothing is hidden, that image is the full replay of the original logs for every label |
| Incremental.LateFiled | cmd/lbdlog/main.go:262-270 | for every payload: the image follows a store into which a segment is filed late if and only if its label is past the image's, or wherever it touches a byte a newer log does too or it trims what is trimmed |
| Incremental.UpToDateIs | cmd/lbdlog/main.go:262-270 | each byte of an incremental image is the last operation on it past the label, else the last one up to it, else the old byte |
| GcExample.GcLosesData | gc.go:176-448 | a run of `RunGC` on a concrete store with a fresh map, after which a written byte replays as zero (the order claimed in livemap.go:14 does not hold) |
| GcExample.LiveExceedsTotal | gc.go:428-439 | two runs of `RunGC` on that store, the second of which reports 110 live blocks and 28 in total for the first one's output |
| GcExample.LateSegmentLoses | gc.go:340-426 | a run of `RunGC` between the beginning and the completion of a segment, after which that segment's write is replayed before the older one it replaced |
| GcExample.ImageLosesData | cmd/lbdlog/main.go:262-270 | a run of `RunGC` and an image of the logs up to any label, brought up to date afterwards: the lost byte is there if and only if the label is at least that of the retired segment |
| GcExample.LateNeverReplayed | cmd/lbdlog/main.go:262-270 | a segment filed after a run of `RunGC` and after the image was brought up to date: its write is in the logs and not in the image |
| GcExample.MapAgrees | gc.go:241-280 | that map is the one a fresh run builds, disjoint and in agreement with the store |
| LiveMaps.MergeInPlace | livemap.go:156-173 | the compaction over the slice's own backing array yields the merged list, in which no two neighbours join |
| LiveMaps.MergedNoneJoin | livemap.go:156-173 | in a merged list no two neighbours have the same owner and meet |
| LiveMaps.MergedOwner | livemap.go:156-173 | merging neighbours changes neither any block's owner nor how often it is held |
| LiveMaps.MergedSorted | livemap.go:156-173 | merging keeps the order |
| LiveMaps.MergedDisjoint | livemap.go:156-173 | merging keeps disjointness |
| LiveMaps.RetaggedOwner | livemap.go:146-153 | renaming a segment renames exactly its blocks' owners |
| LiveMaps.LiveMap.ApplyOp | livemap.go:47-117 | the new extents are the insertion of the operation, original or repaired |
| LiveMaps.LiveMap.AddSegmentEntry | livemap.go:120-130 | the segment's totals grow by the entry |
| LiveMaps.LiveMap.RemoveSegment | livemap.go:133-142 | the segment's record and its extents are gone, the rest is untouched |
| LiveMaps.LiveMap.ReattributeSegment | livemap.go:146-153 | the extents are renamed, then merged |
| LiveMaps.LiveMap.SegmentLiveExtents | livemap.go:176-184 | exactly the segment's extents, in list order |
| Accounting.LiveWritesCount | livemap.go:187-216 | live blocks summed segment by segment equal the number of blocks whose last toucher is a write, on any device range that holds all touched blocks |
| Accounting.SumLiveAll | livemap.go:188-195 | the sum over the segments of the map is the number of all live blocks: no segment is counted twice or forgotten |
| Accounting.PlacedLive | livemap.go:47-107 | either insertion adds at most its own blocks, to its own segment only |
| Accounting.RemovedLive | extentmap.go:104-140 | cutting a range out never adds live blocks to a segment |
| Accounting.CopiedBytes | gc.go:409-411 | conservation: bytes copied and live write bytes lost are together the retired segments' live bytes |
| Accounting.NoneLostIff | gc.go:385-413 | no live byte is lost if and only if no live write of a retired segment is hidden |
| Accounting.AgreesBacked | gc.go:241-280 | in a map that agrees with the store, every live block is one whose last toucher in its segment is of that kind |
| Accounting.SegOutBytes | gc.go:385-413 | the copy of one segment and its lost writes are together its live bytes |
| Accounting.InsertedLive | livemap.go:47-107 | an insertion adds at most its own blocks, to its own segment only |
| Accounting.MergedLive | livemap.go:156-173 | merging keeps each segment's live blocks |
| Accounting.RetaggedLive | livemap.go:146-153 | renaming moves live blocks from the old segment to the new one |
| Accounting.EntryBounded | gc.go:264-275 | applying and counting an entry keeps live bytes at most the total, for every segment |
| Accounting.RetiredSum | gc.go:409-439 | the retired live blocks are the same counted by segment list or by store |
| Gc.ProcessLog | gc.go:254-278 | the map after reading one log: extents, totals and last label as functions of the old ones |
| Gc.NewLogs | gc.go:201-209 | exactly the logs whose label is newer than the last one, in store order |
| Gc.ProcessNewLogs | gc.go:241-280 | the map after reading all newer logs, as a function of the old map and the store; what it means is stated by the next rows |
| Gc.UpdatedAgrees | gc.go:201-280 | from any saved map that fits the store, the updated map agrees with the last toucher of every block |
| Gc.UpdatedAccounted | gc.go:241-280 | reading new logs keeps live bytes backed by the logs and at most the totals |
| Gc.TracksAccounted | gc.go:201-280 | a map within its totals that fits the store has its live bytes backed by the logs |
| Gc.UpdatedUsable | gc.go:201-280 | from any usable map, fitting or not, the updated one is disjoint, knows only segments of the store and has read all its labels; the repaired insertion keeps it sorted |
| Gc.UpdatedTotal | gc.go:241-280 | the total of every segment after an update: the old one, and its size once more if its label is newer than the last one read |
| Gc.TotalExactIff | gc.go:201-280 | a total is the segment's size after an update if and only if the segment is empty or was recorded exactly when its label was |
| Gc.ReadLayered | gc.go:241-280 | reading any list of segments overlays exactly their effect |
| Gc.RereadAgrees | gc.go:201-209 | re-reading a suffix that was already applied (the last output segment) does not disturb ownership |
| Gc.LayerSegment | gc.go:254-278 | applying one more segment overlays exactly its effect |
| Gc.TracksGrowth | gc.go:201-209 | a map that fits the store still fits it after any segments newer than its last label arrive |
| Gc.AgreesTracks | gc.go:201-209 | a map that agrees with the store fits it, whatever its last label |
| Gc.LiveTotals | livemap.go:188-195 | per-segment live bytes and extent counts in one pass |
| Gc.ComputeStats | livemap.go:187-216 | one record per known segment, in label order, with its live and total bytes |
| Gc.StatsCountWrites | livemap.go:187-216 | the live bytes of the reported statistics add up to the bytes of all blocks whose last toucher is a write |
| Gc.SortedIds | livemap.go:197-201 | the labels in ascending order |
| Gc.ChooseRetired | gc.go:294-304 | exactly the segments below the threshold, never the newest of several |
| Gc.ChosenIs | gc.go:294-304 | the retired segments as a set read off the map: utilization below the threshold, something written, not the newest of several |
| Utilization.RoundedChoice | gc.go:149-156 | with both counts, their quotient and the threshold rounded to doubles, the comparison decides like exact arithmetic whenever threshold times total is below 2^52, and beyond that retires no segment that exact arithmetic would keep if the counts are converted exactly |
| Utilization.BlockCounts | gc.go:149-156 | counts of whole 4096-byte blocks are converted exactly, up to 2^65 bytes |
| Gc.HasLive | gc.go:316-322 | true exactly when some retired segment still owns an extent |
| Gc.ClipLoop | gc.go:500-506 | every live range intersected with the segment's extents |
| Gc.ComputeRetireLiveness | gc.go:486-508 | the backward sweep intersected with the segment's extents |
| Gc.CopyOut | gc.go:367-414 | the copied entries are the live ranges of the retired segments in label order |
| Gc.DeleteAll | gc.go:428-432 | exactly the retired segments are deleted |
| Gc.ReattributeAll | gc.go:428-439 | the extents after renaming each retired segment in turn, and their records gone; other segments' records and the last label stay |
| Gc.ReattributedOwner | livemap.go:146-153 | renaming a list of segments renames exactly their blocks' owners |
| Gc.ReattributedLive | livemap.go:146-153 | renaming a list of segments moves their live blocks to the new one and keeps all others |
| Gc.CleanUp | gc.go:210-219 | exactly the segments the store no longer has are dropped; each remaining record is unchanged, and every block keeps its owner if that segment is still in the store, else it has none |
| Gc.CleanedOwner | gc.go:210-219 | for every usable map and block: the owner after the clean-up is the old one if its segment is still in the store, else none |
| Gc.LossesRemembered | gc.go:201-219 | whatever segments others delete from the store and whatever newer ones arrive, the owners the cleaned map names are right |
| Gc.OldestLost | cmd/lbdd/main.go:602-635 | if others delete the oldest segments, and newer ones arrive, the cleaned map fits what is left |
| Gc.TracksRemembers | gc.go:201-209 | a map that fits the store names no wrong owner |
| Gc.UpdatedRight | gc.go:201-280 | from a map whose owners are right but not complete, so are those of the updated map |
| Gc.RetireDead | gc.go:324-338 | the retired segments are deleted and forgotten, the extents stay |
| Gc.RetireLive | gc.go:340-447 | store, map and copied entries are those of the retirement that the next rows are about |
| Gc.DeadKeeps | gc.go:324-338 | deleting segments without extents leaves the replay and the map's agreement unchanged |
| Gc.CopyKeeps | gc.go:340-439 | after a retirement with live data the map agrees with the store if and only if nothing was hidden, and then every byte replays the same |
| Gc.CopyBounded | gc.go:340-439 | over a map whose live bytes are backed and within the totals, they are so after a run that writes an output if and only if no live write of a retired segment is hidden from the copy |
| Gc.HandedOverBytes | gc.go:409-439 | the output is given all live blocks of the retired segments; its size is at most that, and equal exactly when no live write is hidden |
| Gc.RetiredAccounted | gc.go:313-447 | the same for either retirement; if no live write is hidden, live bytes stay backed by the logs |
| Gc.RetiredKeeps | gc.go:313-447 | either retirement, if nothing is hidden, leaves a map that fits the new store, and the same replay |
| Gc.CopyRight | gc.go:340-439 | by such a map: after a retirement with live data every owner named is right if and only if nothing was hidden, and then every byte of an owned block replays the same, every other as the kept segments say |
| Gc.RetiredRight | gc.go:313-447 | the same for either retirement |
| Gc.GapsExactly | gc.go:313-447 | by such a map, when nothing is hidden, the replay stays the same if and only if every byte of a block without owner replays the same without the retired segments |
| Gc.GapLoses | gc.go:210-338 | a block that only a deleted segment owned now belongs to an older one that the map takes for dead: retiring it changes the replay |
| Gc.RetiredUsable | gc.go:313-447 | either retirement, hidden or not, leaves a well-formed store and a usable map with the same last label |
| Gc.HandedOver | gc.go:428-435 | a renamed map agrees with the collected store if and only if nothing was hidden |
| Gc.RunGC | gc.go:176-448 | one run on any well-formed store and usable map: its result, the new store and the whole new map, last label included, as functions of the old ones, the retired set read off the map; if the map fitted the store, the reported live bytes are exactly the written blocks, and unless something is hidden the device replays the same and the map fits again; if live bytes were backed and within the totals, the report is, and the new map is if and only if no live write is hidden; with the repaired insertion nothing is hidden; if others have deleted segments the map knew: when the oldest, all this still holds of what is left; when any, the owners still named are right, and unless something is hidden every byte of an owned block replays the same, and it stays so |
| Gc.Survey | gc.go:201-304 | the update, the statistics and the choice |
| Gc.Finish | gc.go:306-447 | nothing more on a dry run or without a choice; else the retirement, and what the result reports of it |
| Gc.RanUsable | gc.go:176-448 | whatever map a run starts from, it leaves a well-formed store, a usable map and the store's latest label |
| Gc.RanMeans | gc.go:176-448 | what a run means when the map fitted the store |
| Gc.RanRemembers | gc.go:176-448 | what a run means when others have deleted any segments that the map knew |
| Gc.RanFits | gc.go:176-448 | what it means when the map fits the store once it is cleaned up |
| Gc.RanAccounted | gc.go:176-448 | live bytes and totals over a run: within bounds in its report, and in the map it leaves exactly when no live write is lost |
| LogLimit.EnforceLogLimit | cmd/lbdd/main.go:602-635 | the fewest oldest segments that bring the total size down to the limit are deleted, and no others |
| LogLimit.LimitThenCollect | cmd/lbdd/main.go:602-635 | the limit and then a collection, from a map that fitted the log: unless something is hidden no byte of what the limit left changes, and the map fits again |
| GcRuns.Runs | gc.go:176-448 | safety over whole runs: after any sequence of arriving segments and collections, as long as no collection hides anything, the store replays like everything ever logged, the map fits it, and every report has exactly the written bytes of everything logged so far; live is at most total after every run if and only if no run loses a live write, and in every report until then; every total is a multiple of its segment's size, in any case; with the repaired insertion no collection ever hides anything |
| GcRuns.Arrive | gc.go:201-209 | what arriving segments keep |
| GcRuns.Leave | gc.go:313-447 | what a run keeps |
| GcRuns.LeaveAccounts | gc.go:313-447 | what a run does to live bytes and totals |
| GcRuns.BoundsOfRuns | gc.go:176-448 | every run leaves live at most total if and only if none loses a live write |
| GcRuns.RunThenLook | gc.go:428-439 | two runs in a row: the second reports the first one's output with twice its size as total and all live bytes handed over as live; within the total if and only if those are at most twice the bytes copied, and equal to the bytes copied if and only if no live write was lost |
| GcRuns.RereadOwner | gc.go:201-209 | reading a run's output again over the map the run left changes no owner, whatever was hidden |
| DemandPaging.ExtentMap.AddWrite | extentmap.go:38-100 | the new extents are the insertion of the write, original or repaired |
| DemandPaging.ExtentMap.RemoveTrim | extentmap.go:104-140 | the new extents are the old ones with the range removed |
| DemandPaging.ExtentMap.Lookup | extentmap.go:144-179 | the clipped extents; for a non-empty range, complete if and only if nothing is hidden |
| DemandPaging.ScanLog | cmd/lbdd/main.go:202-245 | after a log, every block maps into its last toucher's entry, and every extent lies inside the entry it points to; the map is that of the entries in order |
| DemandPaging.BuildMap | cmd/lbdd/main.go:384-411 | the same for all logs in order |
| DemandPaging.RepairedMapSorted | extentmap.go:28 | with the repaired insertion the map of any logs is sorted |
| DemandPaging.PointsInRange | cmd/lbdd/main.go:317-351 | after any number of splits an extent's slice stays inside its entry's data |
| DemandPaging.ReadExtentData | cmd/lbdd/main.go:317-351 | the range check never fails for such an extent, and the bytes are the entry's bytes for its blocks |
| DemandPaging.Assemble | cmd/lbdd/main.go:284-296 | every extent's data lands at its place in a zeroed cluster |
| DemandPaging.HandleMiss | cmd/lbdd/main.go:272-314 | no read fails, and the reply shows that cluster of the replayed device if and only if every byte of a block hidden from the lookup is zero; so always if nothing is hidden; the miss is passed on exactly when the lookup is empty |
| DemandPaging.LostIff | extentmap.go:144-179 | a lookup loses some block if and only if an extent is hidden |
| DemandPaging.FilledIsDevice | cmd/lbdd/main.go:284-314 | a cluster filled from the reported extents is the device's if and only if the lost bytes are zero |
| DemandPaging.Page | cmd/lbdd/main.go:202-411 | from the logs to the reply: the same condition, over the map the logs produce; with the repaired insertion every reply is the device's cluster |
| PagingExample.MissLosesData | cmd/lbdd/main.go:202-314 | three writes after which a miss in written data is passed on as if there were none |
| Lz4Format.RoundTrip | src/lz4/lz4.c:943-1351 | any block written from a parse that obeys the compressor's checks is accepted by the safe decoder with exactly the input's size as capacity, and decodes to the input |
| Lz4Format.RunDecodes | src/lz4/lz4.c:2224-2458 | the format by its bytes: for every byte and run length, the block 1F v 01 00 FF.. r 50 v v v v v decodes to the run |
| Lz4Format.BlockSize | src/lz4/lz4.h:217 | no choice of matches makes a block longer than n + n/255 + 16 |
| Lz4Format.CopyMatchExact | src/lz4/lz4.c:1964-1968 | the byte-at-a-time overlapping copy reproduces repeating bytes |
| Lz4Format.ReadExt | src/lz4/lz4.c:1992-2027 | a written 255-run length is read back below its limit |
| Lz4Compress.CountMatch | src/lz4/lz4.c:693-716 | the strided comparison finds the first difference before the limit |
| Lz4Compress.FindMatch | src/lz4/lz4.c:1026-1115 | whatever the hash function, a found match repeats four bytes at a legal distance and is at the first probed position whose table entry passes; if none is found, none of the probed positions passes and the next one is beyond the match limit |
| Lz4Compress.CatchUp | src/lz4/lz4.c:1117-1122 | backward extension keeps the distance and the repetition, and stops only at the anchor, the start or a difference |
| Lz4Compress.PutLength | src/lz4/lz4.c:1136-1141 | the literal length run is the format's encoding |
| Lz4Compress.PutMatchLength | src/lz4/lz4.c:1226-1238 | the match length written four bytes at a time is the format's encoding |
| Lz4Compress.EncodeLiterals | src/lz4/lz4.c:1124-1149 | literals are encoded; with a limit no store passes it, wild copies included |
| Lz4Compress.EncodeMatch | src/lz4/lz4.c:1151-1239 | a whole sequence is encoded for the longest match; no store passes the limit |
| Lz4Compress.LastLiterals | src/lz4/lz4.c:1315-1342 | the last literals are encoded, or the limited mode fails |
| Lz4Compress.NextMatches | src/lz4/lz4.c:1151-1308 | matches without literals in between keep the output an encoding of a parse of the input so far |
| Lz4Compress.CompressGeneric | src/lz4/lz4.c:943-1351 | for every input and hash function the block encodes a parse of the input, no store goes past it, and only the limited mode fails |
| Lz4Compress.CompressFast | src/lz4/lz4.c:1395-1416 | a returned block fits the buffer and the bound and decodes to the input; a buffer of at least the bound never fails |
| Lz4Decompress.Widened | src/lz4/lz4.c:485-486 | for every offset below eight the two tables give distances that are multiples of it and wide enough for 4- and 8-byte copies |
| Lz4Decompress.FirstEight | src/lz4/lz4.c:2419-2432 | single bytes, then the tables: the first eight bytes are those of the byte-at-a-time copy |
| Lz4Decompress.WildCopyBack | src/lz4/lz4.c:476-483 | eight-byte strides over a repeating text stay inside the buffer and copy it |
| Lz4Decompress.WildCopyIn | src/lz4/lz4.c:476-483 | eight-byte strides of literals stay inside input and buffer |
| Lz4Decompress.CopyNearEnd | src/lz4/lz4.c:2434-2442 | near the end: strides, then single bytes, nothing past the buffer |
| Lz4Decompress.CopyMatchInPlace | src/lz4/lz4.c:2419-2447 | for every offset and length the strided in-place copy equals the byte-at-a-time copy; it fails exactly when the match would reach the last five bytes |
| Lz4Decompress.CopyEighteen | src/lz4/lz4.c:2255-2269 | the shortcut's 8+8+2 copy equals the byte-at-a-time copy |
| Lz4Decompress.ReadVariable | src/lz4/lz4.c:1992-2027 | reads a length run without looking past the input |
| Lz4Decompress.LiteralPass | src/lz4/lz4.c:2229-2347 | the literals of a sequence, by shortcut, memmove or wild copy |
| Lz4Decompress.MatchPass | src/lz4/lz4.c:2349-2447 | the match of a sequence, offset checks and end-of-block rule included |
| Lz4Decompress.Decompress | src/lz4/lz4.c:2075-2458 | without the fast loop: for every input, well formed or not, all accesses stay in bounds and the result is that of the byte-at-a-time reading of the format |
| Lz4Decompress.SafeLoop | src/lz4/lz4.c:2224-2458 | the safe loop, entered at any sequence with any output so far, finishes as the byte-at-a-time reading does |
| Lz4FastDecode.WildCopy32In | src/lz4/lz4.c:535-542 | strides of 32 bytes over literals stay inside input and buffer and copy them |
| Lz4FastDecode.WildCopy32Back | src/lz4/lz4.c:535-542 | strides of twice 16 bytes over a repeating text copy it for every offset of at least 16 |
| Lz4FastDecode.RepeatPattern | src/lz4/lz4.c:553-588 | the 8-byte patterns for offsets 1, 2 and 4 continue the repetition |
| Lz4FastDecode.CopyUsingOffset | src/lz4/lz4.c:509-589 | for every offset below 16, zero included, the copy continues the repetition |
| Lz4FastDecode.FastMatch | src/lz4/lz4.c:2159-2221 | any match that ends 64 bytes before the buffer does is copied as byte by byte |
| Lz4FastDecode.CopyLiterals | src/lz4/lz4.c:2104-2131 | the literals of a sequence far from the end |
| Lz4FastDecode.FastTail | src/lz4/lz4.c:2133-2222 | offset and match of a sequence, or the jump into the safe match copy, do what the format says |
| Lz4FastDecode.DecompressFast | src/lz4/lz4.c:2036-2458 | with the fast loop in front of the safe one: for every input, well formed or not, the same result and the same bounds as without it |
| ImageSpace.SpacePut | qcow2.go:668-719 | an extent may be rewritten, shrunk and change owner without touching any other extent's bytes |
| ImageSpace.SpaceAdd | qcow2.go:546-617 | an extent created in vacant space leaves all others in place |
| FreeChain.ChainPush | qcow2.go:546-558 | freeing an extent keeps the chain finite, free of repetition, and complete |
| FreeChain.ChainTake | qcow2.go:584-593 | so does unlinking any extent of it |
| FreeChain.KeepsSplit | qcow2.go:581-605 | splitting a free extent drops no byte: the remainder is nothing or at least a page |
| FreeChain.ReadTomb | qcow2.go:573-579 | a tombstone is read back as it was written |
| BigEndian.UnBEBE | qcow2.go:97-106 | big-endian numbers are read back as they were written |
| BigEndian.BEAt | qcow2.go:97-106 | byte k of n is the value divided by 256^(n-1-k), modulo 256 |
| ImageTables.ReadL2 | qcow2.go:469-497 | a written L2 table has a matching checksum and its entries are read back |
| ImageTables.ReadHeader | qcow2.go:168-204 | a written header is read back field by field |
| ImageTables.CellsDrop | qcow2.go:392-404 | removing one cluster keeps tables, extents and disk in agreement |
| ImageTables.CellsAdd | qcow2.go:687-719 | adding one cluster keeps them in agreement |
| Images.Image.FreeExtent | qcow2.go:546-558 | the tombstone becomes the list head; extents stay apart, the chain complete |
| Images.Image.Take | qcow2.go:581-605 | unlink, keep the first part, free the rest; no byte is dropped and live extents are untouched |
| Images.Image.AllocSpace | qcow2.go:561-617 | first fit among the first eight free extents, else append; the result overlaps nothing, is page aligned and below the allocation offset |
| Images.Image.ReadTable | qcow2.go:476-493 | the table on disk, with a checksum that always matches |
| Images.Image.GetL2 | qcow2.go:469-497 | the table of an L1 entry, cached or not |
| Images.Image.AppendL2 | qcow2.go:509-523 | a zeroed, checksummed table at the end; no other extent changes |
| Images.Image.AllocateL2 | qcow2.go:500-524 | fails exactly beyond the L1 table |
| Images.Image.ReadCluster | qcow2.go:254-304 | on every valid image no read fails and the cluster is the disk's, zeros if absent |
| Images.Image.ReadEntry | qcow2.go:272-303 | compressed or plain, the extent holds the cluster |
| Images.Image.Read | qcow2.go:307-331 | any range across cluster boundaries |
| Images.Image.ReadOldAllocSize | qcow2.go:527-543 | exactly the size of the entry's extent |
| Images.Image.DropCell | qcow2.go:650-656 | the cluster is gone, its space free, nothing lost |
| Images.Image.PlaceCell | qcow2.go:670-685 | the old extent, in place, if it is large enough, else freed and newly allocated |
| Images.Image.StoreData | qcow2.go:660-719 | the cluster is stored, compressed with its length in front if and only if the codec gives something shorter than cs - 4 bytes, and its entry then has the compressed bit; the extent has just the pages for that, else a cluster; the only space ever lost is the tail of an extent rewritten in place |
| Images.Image.WriteCluster | qcow2.go:621-722 | all-zero clusters are dropped, others stored as above; fails exactly beyond the L1 table, changing nothing |
| Images.Image.Write | qcow2.go:335-367 | the disk after a write is the byte range replaced; it stops at the first byte beyond the L1 table and says how far it came |
| Images.Image.TrimCluster | qcow2.go:382-405 | a full-cluster trim removes the cluster and frees its extent |
| Images.Image.Trim | qcow2.go:371-449 | a trim is a write of zeros, also beyond the L1 table, and never fails |
| Images.Image.EncodeTable | qcow2.go:747-750 | a table in big-endian form |
| Images.Image.WriteL2 | qcow2.go:725-743 | a written-back table no longer depends on the cache |
| Images.Image.WriteL1Table | qcow2.go:746-756 | the L1 table on disk is current |
| Images.Image.WriteAllocOffset | qcow2.go:759-773 | the header's allocation offset and free list are current |
| Images.Image.Flush | qcow2.go:452-464 | afterwards the file alone determines the disk |
| Images.Create | qcow2.go:72-140 | for any virtual size an empty image of that size, in its header as in the object, with a zeroed L1 table, or an error exactly for a cluster size out of range; the file can be opened again if and only if it has fewer than 2^29 L1 entries, and then it is a valid, persisted image |
| Images.Open | qcow2.go:168-218 | succeeds exactly on files with the right magic, version and room for the L1 table, and takes size, cluster bits, L1 table, allocation offset and free list from the header's bytes; a flushed file reopens to a valid image of the same disk and size |
| FlatDisk.WriteBytesAt | qcow2.go:335-367 | a write changes exactly the bytes it names |
| FlatDisk.Located | qcow2.go:254-257 | a byte's place in its cluster, and the cluster's index into the L1 table, cut to 32 bits, and into a table of (cs - 8) / 8 entries |
| FlatDisk.ReadBytesAt | qcow2.go:307-331 | a read returns the bytes of the flat view |
| FlatDisk.LocateUnique | qcow2.go:254-256 | below 2^32 tables every byte has a place of its own |
| FlatDisk.Wraps | qcow2.go:255 | beyond that the 32-bit L1 index makes offsets wrap around |
| ImageRuns.Run | qcow2.go:72-773 | the image refines a flat disk: from any valid image, whatever it holds, every read in any sequence of reads, writes, trims, flushes and reopenings returns the bytes of the reference array at that moment, and the image stays valid, its regions apart and its free chain whole; after a flush or reopening the file alone determines it |
| ImageRuns.RunNew | qcow2.go:72-773 | the same from a newly created image: the reference array is zero-initialised |
| ImageRuns.Step | qcow2.go:168-773 | one operation: what the reference does, and the image stays valid |
| ImageRuns.WriteMeans | qcow2.go:335-367 | what a partly accepted write means for each byte |
| ImageRuns.CreateCovers | qcow2.go:77-84 | the L1 table of a new image covers its virtual size if and only if the size computation neither overflows 64 bits nor is cut to 32 |
| ImageRuns.Lz4Sound | qcow2.go:660-668 | with any LZ4 compressor and the LZ4 decoder the image's compression is lossless |
| ReplayImage.FlatIsReplay | cmd/lbdlog/main.go:440-475 | a flat disk on which the entries take effect is the replayed device |
| ReplayImage.ReplayToImage | cmd/lbdlog/main.go:407-490 | after replaying any logs into an image and reopening it, every read returns the replayed bytes |
| ReplayImage.ReplayOnto | cmd/lbdlog/main.go:407-490 | replay into an existing image file, whatever it holds: the file left behind holds, over its earlier contents, the replayed entries, and can be opened again |
| ReplayImage.BringUpToDate | cmd/lbdlog/main.go:262-490 | from file to file: an image that holds the logs of an earlier store up to a label and is replayed with the present logs past it is the incremental image that the laws above are about |
| ReplayImage.ApplyAll | cmd/lbdlog/main.go:426-483 | the entries applied to any valid image, which is then closed |
| ImageTools.ExtractTo | qcow2.go:776-796 | the extracted file is the image's flat contents, the last cluster cut off |
| ImageTools.Convert | src/lbdctl.c:1189-1411 | an image of any non-empty file, of the file's length by the header's bytes; the finished file alone determines it |
| ImageTools.ConvertThenExtract | src/lbdctl.c:1591-1675 | extract after convert is the identity on every non-empty file, its length taken from the image's header |
| ImageTools.Compact | src/lbdctl.c:1839-2017 | the rewritten image has the same size and contents, and all its regions are apart |
| ImageTools.CompactThenExtract | src/lbdctl.c:1591-2017 | extracting the rewritten image, as long as its own header says, gives the same bytes as extracting the original |
| LruCaches.Lru.Find | src/lbd_qcow2.c:450-464 | a hit is the key's only valid slot and counts as the latest use; a miss means there is none |
| LruCaches.Lru.Victim | src/lbd_qcow2.c:480-503 | a free slot, or else a least recently used one |
| LruCaches.Lru.Install | src/lbd_qcow2.c:293-346 | replacing a slot keeps each key in at most one valid slot |
| LruCaches.Lru.Invalidate | src/lbd_qcow2.c:466-478 | exactly the key's slot is dropped |
| Kernel.TableGet | src/lbd_qcow2.c:225-347 | the cached or loaded table is the one on disk, zeros if there is none; all cached tables stay equal to the disk |
| Kernel.AppendTable | src/lbd_qcow2.c:395-444 | a zeroed table and its L1 entry, both on disk |
| Kernel.UpdateCell | src/lbd_qcow2.c:1028-1154 | the cluster is replaced and its table and the header are written through |
| Kernel.ClearCell | src/lbd_qcow2.c:1192-1209 | the cluster is removed, its table and the free list written through |
| Kernel.ClusterSlotsUpdate | src/lbd_qcow2.c:1031-1138 | changing a cluster in its slot and on disk leaves every other slot correct |
| Kernel.ClusterSlotsClear | src/lbd_qcow2.c:1202-1211 | dropping a cluster from disk and cache leaves every other slot correct |
| Kernel.Device.BaseRead | src/lbd_qcow2.c:1467-1564 | the base layer's cluster byte by byte: of a raw file its bytes if it holds the whole cluster, of an image what it holds, nothing otherwise |
| Kernel.ReadCell | src/lbd_qcow2.c:1486-1564 | cluster c of an image through the table cache, if the image has it |
| Kernel.SyncedPersisted | src/lbd_qcow2.c:36-64 | once the header on disk is current, the file alone determines the disk |
| Kernel.Device.ReadThrough | src/lbd_qcow2.c:544-642 | the image's cluster, else the base's, else zeros |
| Kernel.Device.ClusterLoad | src/lbd_qcow2.c:529-642 | the slot holds what the image over its base shows, whatever was evicted |
| Kernel.Device.TableAlloc | src/lbd_qcow2.c:395-444 | fails exactly beyond the L1 table and changes no contents |
| Kernel.Device.StoreSlot | src/lbd_qcow2.c:1021-1154 | slot, table and disk change together |
| Kernel.Device.WriteCluster | src/lbd_qcow2.c:978-1157 | a partial write copies base data up |
| Kernel.Device.Write | src/lbd_qcow2.c:951-1163 | the clusters after a write; it stops at the first one beyond the L1 table |
| Kernel.Device.DiscardCluster | src/lbd_qcow2.c:1187-1211 | a whole cluster leaves image and cache |
| Kernel.Device.DiscardPart | src/lbd_qcow2.c:1212-1355 | part of a stored cluster is cleared; of any other, nothing happens |
| Kernel.Device.Discard | src/lbd_qcow2.c:1169-1364 | the clusters after a discard |
| Kernel.Device.Read | src/lbd_qcow2.c:872-945 | any range, through the caches |
| Kernel.Device.Destroy | src/lbd_qcow2.c:797-824 | afterwards the file alone determines the image, so the Go side opens it |
| Overlay.UnderByteIs | src/lbd_qcow2.c:1467-1564 | byte g of the base layer's clusters: of a raw file byte g if (g / cs + 1) * cs is within the file, else zero; of an image its byte g |
| Overlay.OverByteIs | src/lbd_qcow2.c:544-585 | byte g of the device: the image's if it has the cluster, else the base layer's |
| Overlay.OverWriteAt | src/lbd_qcow2.c:951-1163 | over any base layer a write changes exactly the bytes it names |
| Overlay.OverReadAt | src/lbd_qcow2.c:872-945 | a read returns the bytes of the overlay |
| Overlay.OverDiscardAt | src/lbd_qcow2.c:1169-1364 | exactly what a discard does to every byte: base data again for whole clusters, zeros for parts of stored ones, nothing else |
| Overlay.DiscardZeroIff | src/lbd_qcow2.c:1187-1243 | a discarded byte reads as zero if and only if the base's byte is zero or it lies in a partly discarded stored cluster |
| Overlay.DiscardExposesBase | src/lbd_qcow2.c:1187-1211 | a concrete discard after which base data reads again |
| KernelRuns.WriteHas | src/lbd_qcow2.c:1021-1138 | which clusters the image has after a write |
| KernelRuns.DiscardHas | src/lbd_qcow2.c:1187-1211 | which clusters it still has after a discard |
| KernelRuns.Run | src/lbd_qcow2.c:872-1364 | the caches are transparent: on any device over any base, whatever its image already holds, every read in any sequence of reads, writes and discards equals an uncached byte-by-byte reference that starts from the image's bytes and, where it has no cluster, the base's: byte g of a raw file if the file holds its whole cluster, else zero, or the base image's byte; no request within the device fails, and after a write the file alone determines the disk |
| KernelRuns.Step | src/lbd_qcow2.c:872-1364 | one request on the device: what the reference does, and nothing else changes |
| KernelRuns.Mount | src/lbd_qcow2.c:663-1364 | from file to file: opening an image file over a raw or image base, any requests, and closing it; all reads are that reference's, byte by byte from the two files, and the file left behind alone determines the reference's disk, of the same size |
| KernelRuns.MountNew | src/lbd_qcow2.c:663-1364 | the same on a newly created image: all reads start from the bytes of the base file |
| Cbor.HeadRoundTrip | src/cbor_enc.h:50-80 | an encoded head is decoded to the same type and value and consumed exactly, whatever surrounds it |
| Cbor.HeadLayout | src/cbor_enc.h:50-80 | the bytes of a head: type and short value in one byte, or 24 to 27 and the value in 1, 2, 4 or 8 bytes, most significant first |
| Cbor.ReadWidth | src/cbor_dec.h:33-80 | whatever is decoded was written in some width, and none is shorter than the encoder's |
| Cbor.SkipsItem | src/lbdctl.c:583-621 | an item is skipped exactly, whatever follows it |
| Cbor.SkippedIsItem | src/lbdctl.c:583-621 | whatever is skipped is exactly one definite-length item |
| Cbor.Encoder.Put | src/cbor_enc.h:35-44 | a byte is appended, or the sticky error is set and nothing is written |
| Cbor.Encoder.EncHead | src/cbor_enc.h:50-80 | the shortest head is appended, or the error is set exactly when it does not fit |
| Cbor.Encoder.EncText | src/cbor_enc.h:95-102 | head and text are appended, or the error is set exactly when they do not fit |
| Cbor.Decoder.DecHead | src/cbor_dec.h:33-80 | the head at the position, or an error exactly when there is none |
| Cbor.Decoder.DecText | src/cbor_dec.h:109-131 | the text, or an error when it is truncated or does not fit the buffer |
| Cbor.Decoder.SkipItem | src/lbdctl.c:583-621 | skips one item and terminates on every input, whatever counts it declares |
| SegmentFormat.RecordReads | src/lbdctl.c:707-793 | an encoded operation is read back from any stream that contains it |
| SegmentFormat.SegmentReads | src/lbdctl.c:627-793 | a segment is read back: its header, then exactly its records in order |
| SegmentFormat.HeaderLayout | src/lbd_main.c:577-607 | a header by its bytes: A5 01 02 02 19 10 00 03 78 18, the label, then size and path |
| SegmentFormat.RecordLayout | src/lbd_main.c:242-423 | a record by its bytes: a map of seven that ends in the data, or of five |
| SegmentFormat.CommonLayout | src/lbd_main.c:242-423 | the five shared fields by their bytes, in key order |
| SegmentFormat.RecordHeadSize | src/lbd_main.c:242-423 | entries never exceed 52 and 40 bytes, so buffers of 128 and 64 bytes cannot overflow |
| SegmentFormat.HeaderSize | src/lbd_main.c:577-607 | headers never exceed 302 bytes, so a buffer of 512 cannot overflow |
| SegmentFormat.DecodeRecord | src/lbdctl.c:713-793 | the reader's loop over an entry's map, keys in any order, unknown ones skipped |
| SegmentFormat.DecodeRecords | src/lbdctl.c:707-793 | all entries up to the end or the first unreadable one |
| SegmentWriter.EncodeWrite | src/lbd_main.c:294-319 | the encoder never runs out of room, and the bytes are the record's |
| SegmentWriter.EncodeTrim | src/lbd_main.c:406-423 | the same for a trim |
| SegmentWriter.EncodeHeader | src/lbd_main.c:577-607 | the same for the header |
| SegmentWriter.Logger.constructor | src/lbd_main.c:739-747 | an empty log of the given device with the given label |
| SegmentWriter.Logger.Flush | src/lbd_main.c:185-213 | the segment's bytes move from buffer to file, none lost |
| SegmentWriter.Logger.Append | src/lbd_main.c:215-226 | the bytes are appended to the segment; the buffer is never overrun |
| SegmentWriter.Logger.Begin | src/lbd_main.c:739-747 | a fresh segment with the new label that holds exactly its header |
| SegmentWriter.Logger.Rotate | src/lbd_main.c:749-789 | a segment with entries is completed as it stands and the next one has the new label, one without is kept; nothing logged is lost |
| SegmentWriter.Logger.MaybeRotate | src/lbd_main.c:802-809 | a segment with entries is completed exactly when it has reached the size limit, and the next one has the new label; nothing logged is lost |
| SegmentWriter.Logger.LogWrite | src/lbd_main.c:232-346 | one more record, with the next sequence number; empty requests are ignored |
| SegmentWriter.Logger.LogDiscard | src/lbd_main.c:395-442 | one more record, with the next sequence number |
| SegmentWriter.Logger.Finalize | src/lbd_main.c:811-832 | everything logged is in completed segments |
| SegmentWriter.Run | src/lbd_main.c:185-832 | on every run of writes, discards, flushes and timers, reading the completed segment files back gives exactly the logged operations, numbered in order; each file is a header and at least one entry, and its header reads back with the device's size and path and with its own label: the first one for file 0, then the one of the event that completed the file before |
| SegmentWriter.Headers | src/lbd_main.c:739-789 | after any events each completed segment has the device's size and path, and the label of the event that completed the one before |
| SegmentWriter.SizesKept | src/lbd_main.c:802-809 | after any events the current segment is below the size limit if it has an entry, and every completed one was before its last entry at the latest |
| SegmentWriter.CompletedReads | src/lbdctl.c:627-793 | every completed segment reads back as its header and exactly its records |
| Scanner.FindChanges | scan.go:199-286 | the found changes are those of the reference; their writes are exactly those of the runs that are neither zero nor what their stored hash says, with their data; nothing is found if and only if every stored hash is current; replaying them over any image that matches the stored hashes gives the device; hashes are stored for exactly the changed runs, and all are the device's then |
| Scanner.ChangesTrims | scan.go:199-286 | the trims found are exactly the stretches of zero runs that begin at a changed one and end at the next run with data |
| Scanner.ChangesWrites | scan.go:260-286 | a write is among the changes if and only if it is that of a run that is not zero and differs from its stored hash, with its data, in run order |
| Scanner.NewRunsAscend | scan.go:260-286 | those writes ascend, so each run is written once |
| Scanner.NothingFound | scan.go:242-268 | the changes are empty if and only if every run has its stored hash |
| Scanner.EmitWrites | scan.go:326-372 | emission leaves the writes as they are |
| Scanner.IsZeroRun | scan.go:226-240 | a run is taken for zero exactly when it is |
| Scanner.Emit | scan.go:326-372 | the emission loop, trims in chunks |
| Scanner.ClearedIs | scan.go:331-350 | with k further chunks and a last one of r bytes a trim ends 4095*k bytes short, or 4095*(k-1)+r if r is below 4095 |
| Scanner.ClearedAll | scan.go:331-350 | a trim is cleared to its end if and only if it is shorter than 2^32 bytes |
| Scanner.EmitReplays | scan.go:326-372 | the emitted entries do what the changes do, except on the bytes a chunked trim misses |
| Scanner.MissedIff | scan.go:199-350 | the bytes missed are exactly those that lie beyond the last chunk of a stretch of 2^32 bytes or more, as read off the device and the hashes |
| Scanner.LastByteStays | scan.go:128-398 | a scan by `ScanDevice` of a zeroed device of 2^32 bytes without stored hashes, over an image whose last byte is not zero: that byte stays |
| Scanner.ScanDevice | scan.go:128-398 | at each byte the emitted entries yield the device if and only if the byte is not beyond the chunks of its stretch or was zero already; on every device below 2^32 bytes, always; the emitted writes are exactly the new runs, and nothing is emitted when every stored hash is current |

## Left out

- I/O failures, short reads and crashes: the code does not aim at atomic updates, and no claim is made about them.
- Concurrency: the driver's requests are modelled one after the other; readers that change the caches under a shared lock are not.
- The miss handler's handshake, base swapping and the watcher ring: conditional or small state machines around the modelled paths.
- Kernel.TableGet: the flush of a dirty table on eviction is not modelled, because every change is written through and no table is dirty when a slot is taken.
- Images.Open: a header with 2^29 L1 entries or more is an error, where the source indexes past a buffer that is too short.
- Images.Image.Flush: read-only images, which skip it on closing, are not modelled.
- Lz4Decompress.Decompress: in-place decompression with overlapping buffers, and the value of the negative return code.
- Lz4FastDecode.DecompressFast: the same, and dictionaries and partial decoding.
- Lz4Compress.CompressGeneric: dictionaries, streaming, `fillOutput`, and how stale hash tables are reset between calls.
- Cbor.Encoder.EncHead: the argument's bytes are put by one loop where the source unrolls them per width.
- ImageTools.Convert: the final truncation of the file to the allocation offset, and the zeroed tables that the shared code writes before the real ones.
- ImageTools.Compact: renaming the new file over the old one.
- SegmentWriter.Logger.Rotate: file names, fsync and the notification of watchers.
- Scanner.ScanDevice: a device whose size changes between scans.
- GcRuns.Runs: only garbage collection deletes segments; one run after deletions by others is `Gc.RunGC` and `LogLimit.LimitThenCollect`.
- LogLimit.EnforceLogLimit: files that cannot be listed or removed, where it stops or skips them.
- Gc.ChooseRetired: compares in exact arithmetic where the source divides doubles; by `Utilization.RoundedChoice` that is the same below 2^52/threshold bytes, and above the source retires no other segments as long as the counts are whole 4096-byte blocks; that it still retires all of them there is not claimed.
- S3, SQLite, configuration, printing, checksumming internals and kernel interfaces.
