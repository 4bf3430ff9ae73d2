# Verified model of the hcom core

hcom keeps its shared state in a handful of hand-written structures. This project models six of them and
proves what they promise over every input, every history of calls, or every interleaving of threads:

- **The page table** (`net_pgtable`): regions of addresses are cut into aligned pages and hung into a
  16-way tree whose root span grows and shrinks. `Bits`, `PageBlocks`, `PgTree`, `PgSearch`, `PgTable`,
  `PgRuns`.
- **The red-black tree** (`net_rb_tree`): rotations and recolouring in place on nodes with parent pointers.
  `RbTree` (values: trees, paths, link maps), `NetRbTree` (the heap).
- **The memory allocator** (`net_mem_allocator`), in aligned-address mode: free areas in that tree and in
  32-bit-numbered buckets, merged on free. `FreeSpans`, `MemoryRegion`, `Tiling`, `Allocator`.
- **The subscription snapshot** of a multicast publisher: a double buffer with reader counters, as a state
  machine over single atomic accesses. `Snapshot`.
- **The multicast IO context**: one request slot shared by senders, repliers, broken-endpoint handling and the
  thread of its shard, as a state machine over single accesses. `IoContext`; `Requests` is what it promises
  without threads, `IoRefines` shows that it keeps that promise, `IoAlone` what each operation does alone,
  `IoRaces` the one race it loses.
- **The free stack of IO contexts**: many contexts under many threads, with a tagged head and weak
  compare-and-swaps. `FreeStack`.

Classes stand for objects that are updated in place; each carries a ghost value (the set of regions, the tree,
the free spans) that `Valid()` ties to its fields. Integer widths are written out: addresses below 2^64,
page counts cut to 32 bits, sums and differences modulo 2^64, the access word modulo 2^32.

`dafny verify dfyconfig.toml` checks the whole project.

## Main results

- A page table stores a region exactly when it is well formed and overlaps no stored one; a refused insert or
  remove leaves the whole tree, base, mask, shift and counts as they were, rollback included. Everything in a
  table follows from the set of its regions, so two histories that end with the same regions end with the same
  table, and after any calls a lookup answers as the plain set would.
- For every range `SearchRange` either never ends, exactly when `NeverEnds` holds, or reports a described set
  of regions once each in ascending order; that set is the right one exactly when `Exact` holds.
- Red-black insertion, erasure and replacement keep the colour and height rules and change the in-order
  sequence by that node alone.
- Free spans and handed-out blocks always tile the managed memory, no two free spans touch, free plus
  outstanding bytes add up, and freeing what was just allocated restores the free spans exactly.
- A request takes its block from the lowest bucket that holds a long enough area, and where every area is filed
  afterwards is stated.
- A reader of the subscription snapshot sees one whole version, in every interleaving; the versions are what the
  completed rebuilds were asked to publish, in order.
- Every run of an IO context whose `ReleaseIoContext` stores are careful is a run of `Requests`: only answers to the
  current request count, a request is complete when as many are in as were sent, each request has one fate,
  and its callback is run or destroyed once, as the fate says. Careful is the exact condition.
- In every run whose pops swing the head within 2^32 swings of their load, the linked free stack is a plain
  stack and each context is in one place: on the stack once, out once, or in the hands of one push. A pop comes
  back empty-handed only from an empty stack.

## Findings

Where the code does not meet what it is for, the model keeps the code, and a lemma gives the exact condition.

- **Searches that never end.** `PgTable::SearchRange` walks its stops modulo 2^64. `PgSearch.NeverEnds` says for
  which ranges they go round for ever (`PgSearch.RunsForEver`); for all others `SearchRange` is proved to end. A
  new table and the range 0..2^64-2^60 is such a case (`PgRuns.NewTableRunsForEver`).
- **Searches that report too much.** There are three ways: the range 0..0 of a table based at 0 is taken for all addresses
  (`PgRuns.ZeroRangeReportsBoth`); in a span that ends at 2^64 the end of the range is lost
  (`PgRuns.SearchOvershoots`); a range into the last granule that meets no region comes back to 0
  (`PgRuns.TopRangeComesBack`). `SearchExactness` is the if-and-only-if. No region is ever missed.
- **Free memory that is not found.** Page counts are kept in 32 bits, so an area of 2^44 bytes or more can lie in a
  bucket below the one where the scan starts. `MissedExactly` says when, in page counts and bucket numbers;
  `LargeRegionMisses` is an allocation of 8192 bytes that fails on an empty region of 2^44+4096 bytes. From 2^44
  bytes on no region that `Initialize` accepts is safe from it (`EveryLargeRegionMisses`), below none is
  touched (`SmallRegionServed`).
- **Blocks that cannot be put back.** It takes a merged run with a page count of 0 in 32 bits. In front of a single
  free area `MemoryAreaInsertPre` then computes bucket 2^32-1 (`PreIndexIs`, `LargeRegionRefuses`). Between two
  free areas it notices and gives up, but has taken both areas out of their buckets and grown one over the
  other: `Free` reports success and the whole run is lost to every request (`LargeRegionStrands`, after three
  allocations and two calls of `Free`). A lone block with that page count is refused. Right after an allocation
  the block can be put back exactly when the area it came from does not have page count 0 (`JustTaken`); below
  2^44 bytes every block can (`SmallRegionFileable`). `Initialize` fails for a region with that page count and
  still counts as done.
- **Requests that round to 0.** A request of 0 bytes, or of more than 2^64 minus the minimum block size, is rounded
  to 0 (`RoundUpIs`) and gets the address of a free area that stays free (`Allocate`).
- **Overlaps that are not noticed.** The descent of `MemoryAreaInsert` looks at one path only. An overlap is missed
  exactly when the topmost area that overlaps or touches the block only touches it (`MissedOverlapIff`); a block
  that no area ends or begins at is refused exactly when it overlaps one (`OverlapNoticed`). `OverlapMissed` is a
  concrete case. `Free` never gets there: a handed-out block is apart from all free spans.
- **A lost access count.** `ReleaseIoContext` stores the closed value over the access word although a late reply may
  have just added itself. `StoreClosedExactly`: the store is harmless exactly when the word is 1; otherwise some
  continuation destroys a callback twice. `SomeRunUsesTwice` reaches that from the first state with any two
  threads: a request times out, its late reply comes in while the second request is given up, and when none of
  the sends of the third goes out both the sender and the shard destroy its callback.
- **A tag that comes round.** The tag of the free stack has 32 bits. A pop held up for exactly 2^32 swings of the head
  hands out a context twice (`PoppedTwice`, with three contexts and two threads). `PopExactly` says when such a
  late swing does harm.

## Model

| member | source | states |
|---|---|---|
| `PageBlocks.NextPageOrderFits` | src/hcom/common/net_pgtable.cpp:299-332 | For every aligned start < end, with the 64-bit bit tricks written out, the order picked is legal, start is aligned to it and it does not reach past end |
| `PageBlocks.NextPageOrderIsLargest` | src/hcom/common/net_pgtable.cpp:299-332 | Together with NextPageOrderFits: no larger legal order fits, so the pick is the maximum (the wrapped cases are NaturalOrder, BeforeEnd and AtEnd) |
| `PgSearch.NaturalOrder` | src/hcom/common/net_pgtable.cpp:299-332 | At a stop past the end, where end - start wraps, the order picked is the largest the alignment of the stop allows |
| `PageBlocks.PlanExists` | src/hcom/common/net_pgtable.cpp:478-495 | The page loop of Insert terminates and its pages cover [start, end) exactly, end to end |
| `PageBlocks.PlanUnique` | src/hcom/common/net_pgtable.cpp:478-495 | A region has one page plan only, so Insert, rollback and Remove all walk the same pages |
| `PageBlocks.PlanCutBack` | src/hcom/common/net_pgtable.cpp:497-505 | Recomputing the pages with the end cut back to where Insert stopped gives the same pages up to there, which is what the rollback relies on |
| `PgTable.NetPgTable.PgtExpand` | src/hcom/common/net_pgtable.cpp:182-211 | The root moves one level up, exactly unless the span is the whole space, and every page and directory keeps its place |
| `PgTable.NetPgTable.PgtShrink` | src/hcom/common/net_pgtable.cpp:213-260 | Each step keeps the tree and lowers the shift; when no step is left the root is a region, or empty at 0, or a directory with two or more entries |
| `PgTable.NetPgTable.PgtEnsureCapacity` | src/hcom/common/net_pgtable.cpp:160-180 | Afterwards the span holds the address and is deep enough for the order, with the tree kept |
| `PgTable.NetPgTable.RootIsTight` | src/hcom/common/net_pgtable.cpp:213-260 | Between calls the root is the smallest legal block over all stored pages |
| `PgTree.TightRootUnique` | src/hcom/common/net_pgtable.cpp:213-260 | There is one such block only; with RootIsTight the root is a function of the pages |
| `PgTable.NetPgTable.InsertPage` | src/hcom/common/net_pgtable.cpp:341-398 | Stores the page exactly when it neither holds nor lies in a stored page; on failure no page changes and a grown root has shrunk back |
| `PgTable.NetPgTable.UnlinkRegion` | src/hcom/common/net_pgtable.cpp:400-443 | Removes exactly the page of that order that holds this very region and the directories it empties; on failure nothing is written |
| `PgTable.NetPgTable.RemovePage` | src/hcom/common/net_pgtable.cpp:445-464 | The same from the root, the span shrunk again afterwards |
| `PgTable.NetPgTable.Insert` | src/hcom/common/net_pgtable.cpp:466-506 | NN_OK if and only if the region is well formed and overlaps no stored one; then exactly it is added; otherwise tree, base, mask, shift and count are what they were |
| `PgTable.NetPgTable.Remove` | src/hcom/common/net_pgtable.cpp:508-543 | NN_OK if and only if this region is stored; then exactly it goes; otherwise the whole table is what it was |
| `PgTable.NetPgTable.Lookup` | src/hcom/common/net_pgtable.cpp:545-591 | The stored region that holds the address, and null only when none does |
| `PgTable.NetPgTable.SearchSubtree` | src/hcom/common/net_pgtable.cpp:593-648 | Adds exactly the not yet reported regions that meet the part of the subtree inside the tile, in ascending order |
| `PgTable.NetPgTable.SearchRange` | src/hcom/common/net_pgtable.cpp:650-680 | Ends for every from <= to that NeverEnds does not hold of, and reports exactly the regions that meet the addresses looked at, once each, ascending |
| `PgSearch.RunsForEver` | src/hcom/common/net_pgtable.cpp:650-680 | Where NeverEnds holds, no number of turns leaves the loop |
| `PgTable.NetPgTable.SearchExactness` | src/hcom/common/net_pgtable.cpp:650-680 | The report is exactly the regions that meet [from, to] if and only if Exact holds of the table and the range |
| `PgSearch.TileStep` | src/hcom/common/net_pgtable.cpp:664-679 | While the stops walk towards `to`, the largest aligned block around `to` that begins at or above the stop stays the same, and it is the last tile |
| `PgRuns.ZeroRangeReportsBoth` | src/hcom/common/net_pgtable.cpp:650-680 | A concrete table on which the search 0..0 reports a region at 16 |
| `PgRuns.TopRangeComesBack` | src/hcom/common/net_pgtable.cpp:650-680 | A concrete table on which the search 16..2^64-1 reports [0, 16) |
| `PgRuns.SearchOvershoots` | src/hcom/common/net_pgtable.cpp:650-680 | A concrete table on which a search reports a region above its range |
| `PgRuns.NewTableRunsForEver` | src/hcom/common/net_pgtable.cpp:650-680 | On a new table the search 0..2^64-2^60 does not end |
| `PgTable.NetPgTable.Cleanup` | src/hcom/common/net_pgtable.cpp:693-726 | Ends in the initial table from every valid one: its own search is always exact and every removal succeeds |
| `PgTable.NetPgTable.SameRegionsSameTable` | src/hcom/common/net_pgtable.cpp:466-543 | Two valid tables with the same regions are the same tree with the same base, mask, shift and counts, however they were built |
| `PgTable.NetPgTable.ViewIs` | src/hcom/common/net_pgtable.cpp:341-464 | The directory tree read back from the heap is the one a recursive reference definition builds from the stored pages |
| `PgRuns.Run` | src/hcom/common/net_pgtable.cpp:466-543 | After any sequence of inserts and removes the table is valid and stores what a plain set would |
| `PgRuns.LookupAfter` | src/hcom/common/net_pgtable.cpp:466-591 | After any sequence of calls a lookup answers as the plain set would |
| `PgRuns.SameEnd` | src/hcom/common/net_pgtable.cpp:466-543 | Two histories that end with the same plain set end with the same table |
| `RbTree.RotateAt` | src/hcom/common/net_rb_tree.h:166-219 | The link updates of a rotation, on either side and anywhere in the tree, turn the tree shape and leave all other links |
| `NetRbTree.NetRbTree.RotateLeft` | src/hcom/common/net_rb_tree.h:166-191 | The heap after the call is the link map RotateAt speaks of |
| `NetRbTree.NetRbTree.RotateRight` | src/hcom/common/net_rb_tree.h:193-219 | The same for the mirrored rotation |
| `NetRbTree.NetRbTree.InsertLeft` | src/hcom/common/net_rb_tree.h:224-262 | One turn with the parent on the left: the red conflict moves two levels up or is gone, with heights and order kept |
| `NetRbTree.NetRbTree.InsertRight` | src/hcom/common/net_rb_tree.h:264-291 | The same with the parent on the right |
| `NetRbTree.NetRbTree.Insert` | src/hcom/common/net_rb_tree.h:299-325 | The upward pass ends in a valid red-black tree with the order unchanged; below a black node it changes nothing |
| `NetRbTree.NetRbTree.Link` | src/hcom/common/net_rb_tree.h:150-159 | The node hangs as a red leaf in the empty place, between its neighbours in order |
| `NetRbTree.NetRbTree.Add` | src/hcom/common/net_rb_tree.h:150-325 | Link then Insert: from valid to valid, with the node put into the order at that place and nothing else moved |
| `NetRbTree.NetRbTree.EraseColorLeft` | src/hcom/common/net_rb_tree.h:330-381 | One turn of rebalancing with the low side on the left: settled, or still one black node short but nearer the root or red |
| `NetRbTree.NetRbTree.EraseColorRight` | src/hcom/common/net_rb_tree.h:383-424 | The same with the low side on the right |
| `NetRbTree.NetRbTree.EraseColor` | src/hcom/common/net_rb_tree.h:439-465 | A tree one black node short in one place becomes a valid red-black tree with the same order |
| `NetRbTree.NetRbTree.EraseTwoChildren` | src/hcom/common/net_rb_tree.h:470-511 | The successor takes place and colour of the node; valid again, order without the node |
| `NetRbTree.NetRbTree.Erase` | src/hcom/common/net_rb_tree.h:519-563 | From valid to valid; the order loses that node and nothing else |
| `NetRbTree.NetRbTree.Replace` | src/hcom/common/net_rb_tree.h:569-596 | From valid to valid; the new node stands where the old one stood |
| `NetRbTree.NetRbTree.Prev` | src/hcom/common/net_rb_tree.h:98-115 | The last node of the left subtree, and the node itself when there is none: the predecessor only below the node; null for a node in no tree |
| `NetRbTree.NetRbTree.Next` | src/hcom/common/net_rb_tree.h:120-145 | The in-order successor, or null after the last node and for a node in no tree |
| `MemoryRegion.MemoryRegion.MemoryAreaInsertPre` | src/hcom/common/net_mem_allocator.cpp:80-129 | A block that ends at a free area is merged with it and with an area that ends at the block, although Prev looks only below; or the merge of both is given up halfway, exactly when its page count is 0 in 32 bits |
| `MemoryRegion.MemoryRegion.MemoryAreaInsertNext` | src/hcom/common/net_mem_allocator.cpp:134-173 | A block that begins at the end of a free area is merged with it and with an area that begins where the block ends |
| `MemoryRegion.MemoryRegion.MemoryAreaInsert` | src/hcom/common/net_mem_allocator.cpp:482-550 | Exactly when it fails; on failure nothing changes; on success exactly the block becomes free, no two free areas touch, the merged run is filed by its length and no other area refiled; except that a block between two areas whose run has page count 0 leaves both in no bucket |
| `MemoryRegion.MemoryRegion.FindArea` | src/hcom/common/net_mem_allocator.cpp:405-420 | The first long enough area of the lowest bucket that holds one, from the bucket of the request on, in list order; null only if there is none |
| `MemoryRegion.MemoryRegion.ToBucket` | src/hcom/common/net_mem_allocator.cpp:453-458 | The area joins the end of its list, and the counter follows |
| `MemoryRegion.MemoryRegion.MemoryAreaRemove` | src/hcom/common/net_mem_allocator.cpp:385-475 | Succeeds if and only if some long enough area lies at or above the first bucket scanned; then exactly a block at the front of such an area in the lowest bucket stops being free, the rest is filed under its page count, and no other area is refiled |
| `FreeSpans.ServedIff` | src/hcom/common/net_mem_allocator.cpp:385-475 | Below 2^44 bytes that is: if and only if so many free addresses lie in a row |
| `FreeSpans.MissedIff` | src/hcom/common/net_mem_allocator.cpp:385-475 | In general: when a request fails although the run is there, told from 32-bit page counts and bucket numbers |
| `FreeSpans.ReachedByAll` | src/hcom/common/net_mem_allocator.cpp:385-475 | An area is reached by all requests it could serve if and only if it is below 2^44 bytes or in the last bucket |
| `FreeSpans.PreIndexIs` | src/hcom/common/net_mem_allocator.cpp:121-123 | The bucket number computed without a check is a bucket if and only if the page count is not 0 in 32 bits |
| `FreeSpans.LandGap` | src/hcom/common/net_mem_allocator.cpp:482-550 | For a block apart from all free areas the descent finds no clash, and a gap if and only if no free area touches the block |
| `FreeSpans.MissedOverlapIff` | src/hcom/common/net_mem_allocator.cpp:482-550 | For every tree and block: a clash means an overlap, and an overlap is missed if and only if the topmost area that meets the block only touches it |
| `FreeSpans.OverlapNoticed` | src/hcom/common/net_mem_allocator.cpp:482-550 | A block that no area ends or begins at clashes if and only if it overlaps an area, and lands in a gap otherwise |
| `FreeSpans.TopmostDecides` | src/hcom/common/net_mem_allocator.cpp:506-530 | The landing is decided by the topmost area that meets the block, wherever in the tree it is |
| `FreeSpans.StrandedAside` | src/hcom/common/net_mem_allocator.cpp:96-113 | After a merge that was given up every area still in a bucket is as it was and apart from the lost run |
| `MemoryRegion.MemoryRegion.MergeBoth` | src/hcom/common/net_mem_allocator.cpp:102-118 | A block between two areas: one run, or exactly for page count 0 the two areas left in no bucket and the tree as it was |
| `FreeSpans.OverlapMissed` | src/hcom/common/net_mem_allocator.cpp:482-550 | A concrete region and block whose overlap the descent does not notice |
| `Tiling.RoundUpIs` | src/hcom/common/net_mem_allocator.h:31-32 | The least multiple that covers the request, and 0 exactly for 0 and where the sum passes 2^64 |
| `Tiling.SameFreeSameSpans` | src/hcom/common/net_mem_allocator.cpp:482-550 | Separated spans are determined by the addresses that are free: merged areas have one form only |
| `Tiling.TakeKeeps` | src/hcom/common/net_mem_allocator.cpp:270-299 | Handing a block out keeps the tiling, the grid and the byte count, and never hands out a byte twice |
| `Tiling.GiveKeeps` | src/hcom/common/net_mem_allocator.cpp:301-329 | Putting it back keeps them as well |
| `Allocator.NetMemAllocator.Initialize` | src/hcom/common/net_mem_allocator.h:126-179 | Every outcome and its condition; on success the region is one free span, on a late failure nothing is managed |
| `Allocator.NetMemAllocator.RegionMallocWithMap` | src/hcom/common/net_mem_allocator.cpp:270-299 | A block at the front of an area in the lowest bucket that will do is recorded and stops being free, if and only if the scan finds one |
| `Allocator.NetMemAllocator.RegionFreeWithMap` | src/hcom/common/net_mem_allocator.cpp:301-329 | A recorded block, of length 0 too, becomes free, merged and filed by the length of the run, and is forgotten, except a lone one of page count 0; or it strands and is forgotten all the same; otherwise nothing changes |
| `Allocator.NetMemAllocator.Allocate` | src/hcom/common/net_mem_allocator.h:201-227 | Outcome by rounded size; the block is the front of an area in the lowest bucket that will do, lies in the region, on the grid, was free and did not overlap a live one |
| `Allocator.NetMemAllocator.Free` | src/hcom/common/net_mem_allocator.h:229-260 | Outcome by address; exactly the block becomes free, merged on both sides, or success is reported and the run around it lost; errors change nothing |
| `Allocator.NetMemAllocator.SmallRegionServed` | src/hcom/common/net_mem_allocator.cpp:385-475 | In a region below 2^44 bytes an allocation fails only when no free run is long enough |
| `Allocator.NetMemAllocator.SmallRegionFileable` | src/hcom/common/net_mem_allocator.cpp:80-129 | In a region below 2^44 bytes every block handed out can be put back |
| `Allocator.NetMemAllocator.MissedExactly` | src/hcom/common/net_mem_allocator.cpp:385-475 | In any region: exactly when an allocation fails although the run is there |
| `Allocator.NetMemAllocator.JustTaken` | src/hcom/common/net_mem_allocator.cpp:80-129 | A block just taken can be put back if and only if the page count of the area it came from is not 0 in 32 bits |
| `Allocator.NetMemAllocator.SmallRegionReusable` | src/hcom/common/net_mem_allocator.cpp:385-475 | Below 2^44 bytes no area that can serve a request has page count 0 |
| `Allocator.EveryLargeRegionMisses` | src/hcom/common/net_mem_allocator.cpp:385-475 | From 2^44 bytes on every region that Initialize accepts with blocks of 4096 bytes comes to a point where a request of at most three pages is missed |
| `Allocator.LargeRegionStrands` | src/hcom/common/net_mem_allocator.cpp:102-114 | A real history whose last Free reports success and after which no request of any length finds an area |
| `Allocator.NetMemAllocator.AllBack` | src/hcom/common/net_mem_allocator.cpp:482-550 | Once every block is back the region is one free span of full size, whatever came before |
| `Allocator.NetMemAllocator.AllocateAndFree` | src/hcom/common/net_mem_allocator.h:201-260 | In a region of any size: Allocate then Free restores the very free spans and counts, if no area that could serve the request has page count 0; below 2^44 bytes it succeeds if and only if a long enough free run exists |
| `Allocator.LargeRegionMisses` | src/hcom/common/net_mem_allocator.cpp:385-475 | A real region of 2^44+4096 free bytes on which an allocation of 8192 bytes fails |
| `Allocator.LargeRegionRefuses` | src/hcom/common/net_mem_allocator.cpp:80-129 | A real history after which putting a block back computes bucket 2^32-1 |
| `Snapshot.StepInv` | src/hcom/multicast/multicast_publisher.cpp:183-198 | Every atomic step of readers and the rebuild keeps: counters are the readers on that side, no one who passed the check is on the side being written |
| `Snapshot.PublishesAll` | src/hcom/multicast/multicast_publisher.cpp:386-397 | The versions ever current are the empty one and then what each completed rebuild was asked to publish, in order |
| `Snapshot.NotOlder` | src/hcom/multicast/multicast_publisher.cpp:183-193 | A reader that was outside at some point and holds a snapshot later sees a version current then or after |
| `Snapshot.AcquireAlone` | src/hcom/multicast/multicast_publisher.cpp:183-193 | Without interruption a reader gets the current version at the first try, and only its counter changes |
| `Snapshot.CheckDecides` | src/hcom/multicast/multicast_publisher.cpp:188-191 | A counted reader gets its side exactly if it is still current, and otherwise takes itself off again |
| `Snapshot.RebuildAlone` | src/hcom/multicast/multicast_publisher.cpp:386-397 | Without interruption a rebuild publishes its content on the other side |
| `Snapshot.WaitsForReaders` | src/hcom/multicast/multicast_publisher.cpp:388-390 | A rebuild waits only while a reader is on the side it is to write |
| `Snapshot.ReaderSeesOneVersion` | src/hcom/multicast/multicast_publisher.cpp:183-198 | In every interleaving a reader holds one whole published version, no older than the one current when it began |
| `Snapshot.HeldIsNotWritten` | src/hcom/multicast/multicast_publisher.cpp:386-398 | The rebuild never writes the side a reader holds |
| `Snapshot.HeldStays` | src/hcom/multicast/multicast_publisher.cpp:183-198 | From acquire to release the held content does not change, whatever the other threads do |
| `IoContext.AccessAfter` | src/hcom/multicast/include/multicast_publisher.h:536-556 | The access word counts the threads that are in, through every increment, decrement, opening and closing |
| `IoContext.UserStep` | src/hcom/multicast/multicast_publisher.cpp:208-253 | Sending, replying, completing once all sends are answered, and breaking a request keep the invariant, with at most one thread to win the move to FINISHED |
| `IoContext.FinisherStep` | src/hcom/multicast/multicast_publisher.cpp:208-253 | The thread that won uses the callback of the current generation once |
| `IoContext.PreparingStep` | src/hcom/multicast/multicast_periodic_manager.cpp:237-262 | Acquiring and preparing keep the invariant while late replies come and go |
| `IoContext.ShardOpen` | src/hcom/multicast/multicast_periodic_manager.cpp:522-561 | The shard looking at, re-queueing and closing a context keeps the invariant |
| `IoContext.ShardClosed` | src/hcom/multicast/multicast_periodic_manager.cpp:498-561 | After closing it finds a context no thread works with, and settles timeout or the outcome there is |
| `IoContext.ShardUse` | src/hcom/multicast/multicast_periodic_manager.cpp:478-520 | It runs an unused callback once and gives the context back clean |
| `IoContext.StepInv` | src/hcom/multicast/multicast_periodic_manager.cpp:237-302 | Every step of every thread keeps the invariant, but for the closing store of ReleaseIoContext, which must find the word at 1 |
| `IoContext.EachCallbackOnce` | src/hcom/multicast/multicast_periodic_manager.cpp:498-520 | In every careful run no callback is run or destroyed twice; on the free list every one ever given has been, and no thread is in |
| `IoRefines.StepRefines` | src/hcom/multicast/multicast_publisher.cpp:208-253 | Each step of a thread or of the shard, in any reachable state, is one event that Requests allows there, or none |
| `IoRefines.Refines` | src/hcom/multicast/multicast_periodic_manager.cpp:498-561 | Every careful run, under any interleaving, is a run of Requests, event by event |
| `IoRefines.FinishedWhenAnswered` | src/hcom/multicast/multicast_publisher.cpp:208-219 | In every careful run a request moves to FINISHED only when it has been posted and as many answers are in as were sent |
| `IoRefines.HoldingIsCurrent` | src/hcom/multicast/include/multicast_publisher.h:536-551 | In every careful run a thread that has got in brought the number of the current request |
| `IoRefines.FateOfEach` | src/hcom/multicast/multicast_publisher.cpp:208-253 | On the free list each callback was destroyed exactly if its request was given up in preparation or none of its sends went out and its sender won, and run exactly if it was answered, broken or timed out |
| `Requests.SpecStep` | src/hcom/multicast/multicast_publisher.cpp:208-253 | Every allowed event keeps: one fate for each request, and each used callback logged once as that fate says |
| `Requests.FateDecides` | src/hcom/multicast/multicast_publisher.cpp:208-253 | The log holds a run exactly for the fates that run, and a destruction exactly for the others |
| `IoAlone.AcquireAccessAlone` | src/hcom/multicast/include/multicast_publisher.h:536-556 | TryAcquire lets a thread in exactly when the word is open, the number current and the request open; otherwise it leaves no trace |
| `IoAlone.ReplyAlone` | src/hcom/multicast/multicast_publisher_service_imp.cpp:90-112 | A reply on its own: the whole state afterwards, with the callback run exactly if it was the last answer of a posted request |
| `IoAlone.BreakAlone` | src/hcom/multicast/multicast_periodic_manager.cpp:625-644 | A broken endpoint on its own: an open request becomes BROKEN, and nothing else changes |
| `IoAlone.PrepareAlone` | src/hcom/multicast/multicast_periodic_manager.cpp:237-262 | AcquireIoContext on its own: the whole state afterwards |
| `IoAlone.ReleaseAlone` | src/hcom/multicast/multicast_periodic_manager.cpp:287-302 | ReleaseIoContext on its own: the callback destroyed and the context free and closed |
| `IoAlone.SubmitAlone` | src/hcom/multicast/multicast_periodic_manager.cpp:276-280 | SubmitIoContext on its own: no answers yet, open, on the add stack |
| `IoAlone.SendAlone` | src/hcom/multicast/multicast_publisher.cpp:230-253 | FinishIoSend on its own: with no send out an open request fails and its callback is destroyed; otherwise it completes exactly if the answers are in |
| `IoAlone.ProcessAlone` | src/hcom/multicast/multicast_periodic_manager.cpp:498-561 | ProcessIoContext on its own: to the wheel, timed out, or given back, in every case the whole state afterwards |
| `IoRaces.StoreClosedExactly` | src/hcom/multicast/multicast_periodic_manager.cpp:287-302 | The closing store keeps the invariant if and only if the word is 1; otherwise some continuation, with replies only to requests that went out, destroys one callback twice |
| `IoRaces.SomeRunUsesTwice` | src/hcom/multicast/multicast_periodic_manager.cpp:287-302 | With any two threads a run from the first state, with replies only to requests that went out, uses the callback of its third request twice |
| `IoRaces.AloneIsCareful` | src/hcom/multicast/multicast_periodic_manager.cpp:287-302 | With at most one thread beside the shard every run is careful |
| `FreeStack.StepInv` | src/hcom/multicast/multicast_periodic_manager.cpp:213-235 | Every load, link write and swing of the head keeps: the links from the head are the plain stack, every context is in one place, and what a pop has seen is right until the head swings |
| `FreeStack.OnePlace` | src/hcom/multicast/multicast_periodic_manager.cpp:213-235 | At every point of every timely run each context is on the stack once, out once, or in the hands of one push, and none is lost |
| `FreeStack.PopsTheTop` | src/hcom/multicast/multicast_periodic_manager.cpp:213-225 | In a timely run a pop that swings the head gets the top of the plain stack, which no one holds |
| `FreeStack.EmptyHanded` | src/hcom/multicast/multicast_periodic_manager.cpp:213-225 | In a timely run a pop comes back without a context only from an empty stack |
| `FreeStack.BeatenOnlyByOthers` | src/hcom/multicast/multicast_periodic_manager.cpp:213-225 | A compare-and-swap of a pop that does not fail at will fails only if another has succeeded since its load |
| `FreeStack.Pop` | src/hcom/multicast/multicast_periodic_manager.cpp:213-225 | A pop without interruption: the whole state afterwards |
| `FreeStack.Push` | src/hcom/multicast/multicast_periodic_manager.cpp:227-235 | A push without interruption: the whole state afterwards |
| `FreeStack.PushInv` | src/hcom/multicast/multicast_periodic_manager.cpp:227-235 | A push needs no tag: an equal head makes the link it wrote right, however often the tag has come round |
| `FreeStack.PopExactly` | src/hcom/multicast/multicast_periodic_manager.cpp:213-225 | A pop that swings the head keeps the stack right if and only if the link it read is still the link |
| `FreeStack.PoppedTwice` | src/hcom/multicast/multicast_periodic_manager.cpp:213-235 | With three contexts and two threads a run whose tag comes round hands out one context twice |

## Left out

- PageBlocks.NextPageOrderIsLargest: start < end only; for the wrapped and equal cases see NaturalOrder, BeforeEnd and AtEnd.
- Allocator.NetMemAllocator.Free: does not cover the two cases of Breaks, where the code writes outside its bucket array, or the node of an entry of length 0 over the node of a free area that begins there. LargeRegionRefuses reaches the first, and SmallRegionFileable rules it out below 2^44 bytes; a request that rounds to 0 leads to the second.
- Allocator.NetMemAllocator.RegionFreeWithMap: as for Free.
- Allocator.NetMemAllocator.AllocateAndFree: does not cover sizes that round to 0 and areas with page count 0 in 32 bits; what happens there is in Allocate and JustTaken.
- MemoryRegion.MemoryRegion.MemoryAreaInsert: does not cover an overlap the descent misses, a block at whose first address a free area begins, and a bucket number outside the array; the memory is overwritten there. The allocator calls it only with blocks apart from all free areas.
- MemoryRegion.MemoryRegion.MemoryAreaInsertPre: as for MemoryAreaInsert.
- IoContext.EachCallbackOnce: one context and careful runs; where the context is is one value, and that the free stack keeps contexts apart is FreeStack. Sequentially consistent accesses only; the two count loads of TryCompleteIoContext are one step with the readiness load, and PostSendAll is one step, as are the field writes of AcquireIoContext before the access word.
- FreeStack.OnePlace: timely runs of one shard and sequentially consistent accesses only; see PoppedTwice for the others.
- Page table: allocation failure of a directory, tag bits in entry pointers, the 32-bit width of the region count, Dump and logging.
- Red-black tree: the colour bit inside the parent word; node and tree are separate objects with a colour field.
- Allocator: the other mode, which stores length and canary in front of each block; nodes live beside the free memory, not in it, so an area too short for its node is not noticed; buckets are sequences, not linked nodes; memory protection, locks and the total size.
- Multicast: the add and complete stacks as linked lists, the timing wheel, which subscriber a reply came from, publisher references, and weaker memory orders than sequential consistency.
- Endpoints, transports, TLS, worker threads, services and channels, the hash map, the memory pool and tier cache, and the splice and timeout machinery are not part of this model.
