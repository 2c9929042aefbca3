# Models of abstract-machine and kernel components

Dafny models of parts of the operating-system repository and of the libraries it carries, with proofs
of what those parts promise. `dafny verify dfyconfig.toml` checks everything.

- **Skyline packer** (`SkylineSpec`, `Skyline`): the active list of nodes, edited in place, denotes
  a column-height map; rectangles never overlap.
- **64-bit division** (`Bits`, `Division`): quotient and remainder from 32-bit halves, and the signed
  wrappers.
- **Kernel heap** (`HeapSpec`, `KernelHeap`): first fit in address order with splitting and joining,
  on a memory of headers.
- **List benchmark** (`MergeSpec`, `CoreList`, `CoreBench`): merge sort, reversal, caching, removal
  and its undoing on linked nodes; the whole function restores its list.
- **Block filesystem** (`BlkfsSpec`, `BlkfsRuns`, `BlkfsMeaning`, `Blkfs`): inodes, blocks and directories as a
  value, the invariants of every run, what each call promises, and the code on arrays that keeps it.
- **Kernel threads** (`Spinlock`, `SpinlockCalls`, `InputQueue`, `SchedulerSpec`, `Scheduler`): processors interleaved
  one memory access at a time; the input queue over its lock and semaphore; the round-robin switch.
- **Fixed point** (`FixSqrt`, `FixArith`, `FixText`, `FixLiteral`): square root, division and multiplication on 32-bit
  words, rounded to the nearest where they are, and a printer and a parser that undo each other.
- **Terminal** (`Tty`): the cooked-line ring against an edit model.
- **Key-value log** (`Kvdb`): the record format and the line scanner.
- `Basics`, `Locks` and `Sums` hold what several of these share.

Where the source changes objects or arrays step by step the model is a class or a method with loops,
proved against a function or a predicate on values; the properties are then proved of those. A ghost
parameter of a method names the values the loop invariants speak about. Processors and threads are
state machines over steps chosen in any order.

Where code, comments and promises disagree the model follows the code, and says when it keeps the promise,
exactly so unless a bullet says otherwise:

- The packer's comments say that rounding widths keeps the nodes from running out. It does so if and
  only if there is a node for every column: then the free list is never empty
  (`Skyline.Context.EnoughNodes`), and with fewer nodes unit squares use them up, and at height 2 and
  more the next one is refused although there is room (`Skyline.AlwaysRunOut`).
- With best fit and a quantum above 1 a placement can raise more columns than the rectangle has
  (`Skyline.RaisesMore`), but never more than its rounded width (`SkylineSpec.RaisedAtMost`); nothing
  overlaps all the same. `SkylineSpec.RaisedExactly` says when it raises exactly its own.
- Best fit's waste is the area left below a spot, with two exceptions. It is added up in an `int`, which it
  never leaves on a target of fewer than 2^31 units (`SkylineSpec.WasteFits`); on a larger one best fit can
  take the worse of two places (`Skyline.WastesMore`). And inside a stretch at height 0 columns left of the
  spot count too (`SkylineSpec.OffTheFloor`). Everywhere else it is the area exactly when that fits an `int`
  (`SkylineSpec.RatedByGap`); inside such a stretch the two may still agree, and when is not stated.
- The square root's adjustment for large remainders subtracts the square of half a unit as 2^15
  instead of 2^14, so some roots of numbers above 2^30 are one too small: `FixSqrt.HalfUnitTooMuch`,
  `FixSqrt.ExactWhen`.
- Fixed-point division by 16 and more starts with an estimate whose product is rounded down, so some
  quotients come out one unit too large: `FixArith.FixDivNearest`, `FixArith.OneUnitTooMuch`.
- Fixed-point multiplication adds two products in a word they need not fit, so some overflows go
  unnoticed and some products are taken for overflows: `FixArith.MulIff`, `FixArith.MiddleWraps`.
- The parser accepts 32768 after a minus for the least number; with decimals after it the negation wraps, and
  -32768.5 comes out as 32767.5: `FixLiteral.LiteralParsed`, `FixLiteral.BelowTheLeast`.
- Shift and Return together are the key NUL: the shifted key table has no entry for Return
  (src/kernel/src/devices/input/keymaps.c:56-112), and src/kernel/src/devices/input/input.c:62-63 pushes what it
  finds there. `tty_cook` takes NUL into the ring like any character, where it ends a piece, so from the
  next Return on readers no longer get the lines typed: `Tty.FaithfulIff`, `Tty.ShiftReturn`. That no
  finished line has a NUL in it is not enough: `Tty.NulStays`.
- `tty_read` returns a line's whole length even when the caller's buffer is shorter.
- A put with a newline in its key or value cannot be read back, and one with newlines in its value can
  put values under other keys: `Kvdb.PutThenGet`, `Kvdb.NewlineForges`.

## Model

| member | source | states |
|---|---|---|
| SkylineSpec.CornerCount | src/abstract-machine/libs/imgui/include/stb_rect_pack.h:263-273 | in a well-formed skyline the node x values increase from 0 to the sentinel, so at most one node per column is active, besides the sentinel |
| SkylineSpec.MaxOverLevel | src/abstract-machine/libs/imgui/include/stb_rect_pack.h:277-325 | over a stretch at one level followed by others, the highest column is the larger of the level and the rest, which is what the walk over nodes computes |
| SkylineSpec.SnapLeft | src/abstract-machine/libs/imgui/include/stb_rect_pack.h:344-370 | resting at a node's left edge is never worse than resting anywhere further right on the same stretch, so only node edges need to be tried for the bottom-left search |
| SkylineSpec.SpliceDenotes | src/abstract-machine/libs/imgui/include/stb_rect_pack.h:443-478 | linking in one corner and dropping or shortening the covered ones gives a well-formed skyline for exactly the column heights with the raised columns set to the new top |
| SkylineSpec.RaisedExactly | src/abstract-machine/libs/imgui/include/stb_rect_pack.h:464-478 | the raised columns are at least the rectangle's; they are exactly those if and only if the rectangle starts at a node or reaches the next one |
| SkylineSpec.RaisedAtMost | src/abstract-machine/libs/imgui/include/stb_rect_pack.h:464-478 | from a spot with a node at the left end of its rounded window or one at the right end, no more than the window is raised |
| SkylineSpec.PlaceKeepsPacked | src/abstract-machine/libs/imgui/include/stb_rect_pack.h:428-508 | putting a box on the highest of its columns keeps all boxes pairwise disjoint, inside the target and under the skyline |
| SkylineSpec.PlaceOnSkyline | src/abstract-machine/libs/imgui/include/stb_rect_pack.h:428-508 | both at once: after a placement the corners still denote the heights and the boxes are still packed |
| SkylineSpec.RatedByGap | src/abstract-machine/libs/imgui/include/stb_rect_pack.h:297-324 | for every spot that begins at a node or above the floor, level and waste are the resting height and what an int keeps of the area left below it; that is the area itself if and only if it fits an int, which it does when width times height is below 2^31 |
| SkylineSpec.WasteFits | src/abstract-machine/libs/imgui/include/stb_rect_pack.h:297-324 | on such a target no product and no sum of the walk leaves an int, for any spot, also where it takes columns back |
| SkylineSpec.WideWalks | src/abstract-machine/libs/imgui/include/stb_rect_pack.h:304-318 | on a larger one an area of 2170020500 is counted as a negative waste |
| SkylineSpec.OffTheFloor | src/abstract-machine/libs/imgui/include/stb_rect_pack.h:312-319 | inside a stretch at height 0 the walk also counts columns left of the spot: a window with 1 unit below it gets waste 2 |
| Skyline.QuantumCovers | src/abstract-machine/libs/imgui/include/stb_rect_pack.h:224-242 | the width quantum is the least with which the nodes cover the width |
| Skyline.PlaceableIff | src/abstract-machine/libs/imgui/include/stb_rect_pack.h:333-426 | a lowest position exists exactly when some position within the target takes the rectangle |
| Skyline.LeftmostOverall | src/abstract-machine/libs/imgui/include/stb_rect_pack.h:344-370 | the best node edge is the lowest position over all columns, and the leftmost of those |
| Skyline.LowestOverall | src/abstract-machine/libs/imgui/include/stb_rect_pack.h:344-420 | under best fit the best of left and right edges is a lowest position over all columns |
| Skyline.Context.InitTarget | src/abstract-machine/libs/imgui/include/stb_rect_pack.h:244-274 | the active list is the node at 0 and the sentinel, all caller nodes are free, every column is at height 0 |
| Skyline.Context.SetupAllowOutOfMem | src/abstract-machine/libs/imgui/include/stb_rect_pack.h:224-242 | sets the width quantum to 1 or to width over nodes rounded up; nothing else changes |
| Skyline.Context.SetupHeuristic | src/abstract-machine/libs/imgui/include/stb_rect_pack.h:212-222 | sets the heuristic and nothing else |
| Skyline.Context.FindMinY | src/abstract-machine/libs/imgui/include/stb_rect_pack.h:277-325 | the level returned is the maximum of the column heights over the window, and with the waste, added up in an int, it is the walk's rating of the spot |
| Skyline.Context.FindLeftAligned | src/abstract-machine/libs/imgui/include/stb_rect_pack.h:344-370 | first pass: bottom-left gives the lowest left edge, leftmost among equals; best fit gives a lowest fitting one whose rating no other left edge beats; with the link to the node that follows |
| Skyline.Context.FindRightAligned | src/abstract-machine/libs/imgui/include/stb_rect_pack.h:389-420 | second pass of best fit: lowest, then least waste, then leftmost among all fitting left edges and all right edges that stay below the height; the spot is at a node's edge on one side |
| Skyline.Context.FindBestPos | src/abstract-machine/libs/imgui/include/stb_rect_pack.h:333-426 | bottom-left: the lowest position over all columns, leftmost of those, at a node; best fit: a lowest fitting position, found if and only if some position fits, with the best rating of all edges; on either the window begins or ends at a node |
| Skyline.Context.TakeFree | src/abstract-machine/libs/imgui/include/stb_rect_pack.h:443-448 | the first free node becomes a node with the given corner |
| Skyline.Context.Hook | src/abstract-machine/libs/imgui/include/stb_rect_pack.h:454-462 | the new node follows the part of the skyline left of the rectangle |
| Skyline.Context.ReleaseRun | src/abstract-machine/libs/imgui/include/stb_rect_pack.h:464-472 | every node wholly under the rectangle goes to the free list, in order |
| Skyline.Context.Stitch | src/abstract-machine/libs/imgui/include/stb_rect_pack.h:464-478 | the new node is linked to the first node that survives, which is moved right if the rectangle covers its start |
| Skyline.Context.Insert | src/abstract-machine/libs/imgui/include/stb_rect_pack.h:428-482 | the active list becomes the spliced skyline; active and free nodes together stay the node pool |
| Skyline.Context.PackRectangle | src/abstract-machine/libs/imgui/include/stb_rect_pack.h:428-508 | placed if and only if a free node is left and some position takes the rectangle; then the box, the corners and the heights are those of the placement at the best position, and at least the rectangle's width and at most the rounded width is raised: exactly the rectangle's with bottom-left or a quantum of 1 |
| Skyline.WastesMore | src/abstract-machine/libs/imgui/include/stb_rect_pack.h:297-324 | a best-fit run on a target of 65535 by 65535 whose third rectangle goes where it leaves the larger area below it, at the same height as the place with the smaller one |
| Skyline.RaisesMore | src/abstract-machine/libs/imgui/include/stb_rect_pack.h:464-478 | a best-fit run with quantum 4 whose third rectangle is 5 wide and raises 6 columns |
| Skyline.Context.EnoughNodes | src/abstract-machine/libs/imgui/include/stb_rect_pack.h:126-133 | with at least as many nodes as columns the free list is never empty, whatever was packed |
| Skyline.AlwaysRunOut | src/abstract-machine/libs/imgui/include/stb_rect_pack.h:132-133 | with any smaller number of nodes, contrary to the comments there and at lines 233-234: unit squares use up all nodes of a fresh target, and one more is refused though it fits, for every width and every height of 2 and more |
| Skyline.Context.PackOne | src/abstract-machine/libs/imgui/include/stb_rect_pack.h:560-572 | one rectangle: refused if and only if it is empty, no node is free or no position takes it; otherwise its coordinates are those of its box |
| Skyline.Context.PackInOrder | src/abstract-machine/libs/imgui/include/stb_rect_pack.h:560-572 | the middle loop, turn by turn from the first state to the last: a rectangle is refused if and only if it is empty or at its turn no node is free or nothing fits, and then nothing changes; otherwise it rests at a lowest place (the leftmost, for bottom-left) and raises what is under it; whatever was refused could not be placed at the end either |
| Skyline.RefusalsLast | src/abstract-machine/libs/imgui/include/stb_rect_pack.h:560-572 | heights only grow and an empty free list stays empty, so a refusal still stands after all later rectangles |
| Skyline.Context.PackRects | src/abstract-machine/libs/imgui/include/stb_rect_pack.h:545-580 | over any number of calls and any order of the sort: ids and sizes come back unchanged at their places, flagged rectangles correspond one to one to boxes that are pairwise disjoint and inside the target; every rectangle had its turn as in the middle loop, so as long as nodes are left every rectangle that fits the final skyline is flagged |
| Division.MaskCompares | src/abstract-machine/libs/compiler-rt/udivmoddi4.c:223-224 | the sign mask of `d - r - 1` is all ones exactly when `r >= d`, for every remainder the loop can hold: below twice the divisor and, for divisors above 2^63, at least 2^63 |
| Division.CompareSubtract | src/abstract-machine/libs/compiler-rt/udivmoddi4.c:223-225 | one comparison by mask: the carry is 1 and the divisor subtracted exactly when it fits |
| Division.PairShifted | src/abstract-machine/libs/compiler-rt/udivmoddi4.c:212-215 | the four word shifts move the 128-bit pair of remainder and quotient left by one |
| Division.NextBit | src/abstract-machine/libs/compiler-rt/udivmoddi4.c:211-215 | the bit shifted into the remainder is the next bit of the dividend |
| Division.Round | src/abstract-machine/libs/compiler-rt/udivmoddi4.c:209-226 | one round of the loop keeps quotient so far times divisor plus remainder equal to the dividend's leading bits |
| Division.Restore | src/abstract-machine/libs/compiler-rt/udivmoddi4.c:208-231 | the restoring loop ends with the quotient and the remainder |
| Division.LoadShort | src/abstract-machine/libs/compiler-rt/udivmoddi4.c:112-117 | the words loaded for a shift below 32 are the dividend's upper bits as remainder and its lower bits as quotient |
| Division.LoadMiddle | src/abstract-machine/libs/compiler-rt/udivmoddi4.c:147-153 | the same for a shift of 32 |
| Division.LoadLong | src/abstract-machine/libs/compiler-rt/udivmoddi4.c:161-168 | the same for a shift above 32 |
| Division.HighShift | src/abstract-machine/libs/compiler-rt/udivmoddi4.c:102-111 | the shift from the difference of leading zeros is in range or the quotient is 0, and leaves a remainder below the divisor |
| Division.LowShift | src/abstract-machine/libs/compiler-rt/udivmoddi4.c:139-146 | the same for a divisor of one word |
| Division.DivideByHigh | src/abstract-machine/libs/compiler-rt/udivmoddi4.c:57-118 | divisors with an empty low word |
| Division.DivideByPower | src/abstract-machine/libs/compiler-rt/udivmoddi4.c:127-138 | divisors below 2^32 that are powers of two |
| Division.DivideByLow | src/abstract-machine/libs/compiler-rt/udivmoddi4.c:121-169 | divisors below 2^32 |
| Division.DivideByBoth | src/abstract-machine/libs/compiler-rt/udivmoddi4.c:170-200 | divisors with both words |
| Division.UDivMod | src/abstract-machine/libs/compiler-rt/udivmoddi4.c:23-231 | for every 64-bit dividend and every divisor but 0, on every branch: quotient and remainder of Euclidean division |
| Bits.PowerOfTwoTest | src/abstract-machine/libs/compiler-rt/udivmoddi4.c:88-98 | `(d & (d - 1)) == 0` exactly for powers of two, which then are 2 to the number of trailing zeros |
| Bits.AndMask | src/abstract-machine/libs/compiler-rt/udivmoddi4.c:129-130 | masking with 2^k - 1 is the remainder by 2^k |
| Division.TruncLaw | src/abstract-machine/libs/compiler-rt/divdi3.c:19-29 | quotient and remainder are the truncated ones if and only if dividend = quotient * divisor + remainder, the remainder is smaller than the divisor and has the dividend's sign (section 6.5.5 of ISO/IEC 9899:1999) |
| Division.DivDI3 | src/abstract-machine/libs/compiler-rt/divdi3.c:19-29 | the truncated quotient as a 64-bit word; its value is the quotient itself except for the least number divided by -1, and exactly then not |
| Division.ModDI3 | src/abstract-machine/libs/compiler-rt/moddi3.c:19-30 | the remainder with the dividend's sign |
| Division.DivModDI4 | src/abstract-machine/libs/compiler-rt/divmoddi4.c:19-25 | the quotient of `__divdi3` and the remainder of `__moddi3`, also where the quotient wraps |
| HeapSpec.AddressOrder | src/kernel/src/pmm.c:24-24 | chunks lie at strictly increasing addresses |
| HeapSpec.CarvedKeepsRow | src/kernel/src/pmm.c:162-226 | after an allocation free and live chunks still tile the memory, no two free chunks touch and one is free |
| HeapSpec.FreedKeepsRow | src/kernel/src/pmm.c:228-280 | after a free with both joins free and live chunks still tile the memory, no two free chunks touch and one is free |
| HeapSpec.CarveThenFree | src/kernel/src/pmm.c:162-280 | freeing a block just carved gives back the chunks as they were, split or not |
| HeapSpec.AllocThenFree | src/kernel/src/pmm.c:162-280 | the same for first fit: the block allocated is the one freed and everything is restored |
| HeapSpec.CarvedLive | src/kernel/src/pmm.c:162-226 | an allocation adds exactly its block to the live ones |
| HeapSpec.CarvedBlocks | src/kernel/src/pmm.c:162-226 | the new block has exactly the bytes asked for, and all other blocks keep their place and size |
| HeapSpec.FreedBlocks | src/kernel/src/pmm.c:228-280 | freeing takes away exactly that block |
| HeapSpec.BlocksApart | src/kernel/src/pmm.c:162-280 | the bytes of two blocks never overlap and never leave the heap |
| HeapSpec.FreedLive | src/kernel/src/pmm.c:228-280 | a free takes exactly its block from the live ones |
| HeapSpec.NothingLive | src/kernel/src/pmm.c:139-160 | with nothing live there is the single initial node |
| HeapSpec.FreeingAllRestores | src/kernel/src/pmm.c:228-280 | freeing all live blocks in any order yields the single initial node |
| HeapSpec.CarvedLinks | src/kernel/src/pmm.c:34-51 | splitting and unlinking leaves the headers that the new chunks ask for |
| HeapSpec.MergedLinks | src/kernel/src/pmm.c:54-65 | combining leaves the headers that the joined chunks ask for |
| KernelHeap.Heap.constructor | src/kernel/src/pmm.c:139-160 | one free node over all the memory |
| KernelHeap.Heap.NodeSplit | src/kernel/src/pmm.c:34-51 | splits exactly when the node has room for the first part and another header; the new node takes over what is left and the link |
| KernelHeap.Heap.NodeCombine | src/kernel/src/pmm.c:54-65 | joins a node with its successor exactly when they touch |
| KernelHeap.Heap.NodeFindSize | src/kernel/src/pmm.c:82-96 | the first node with enough room, and the one before it |
| KernelHeap.Heap.NodeFindPosition | src/kernel/src/pmm.c:99-112 | the last free node below an address |
| KernelHeap.Heap.Alloc | src/kernel/src/pmm.c:162-226 | fails if and only if no free node has room for the request and a header; otherwise carves the first that has, and the caller gets a block of the bytes asked for; the free list is never left empty |
| KernelHeap.Heap.Free | src/kernel/src/pmm.c:228-280 | a live block goes back, no other does, and is joined with its free neighbours; the free list is not empty |
| MergeSpec.MergeStep | src/abstract-machine/apps/coremark/src/core_list_join.c:454-477 | taking the smaller head, the first run's on a tie, keeps what is put out sorted, stable and before what is left |
| MergeSpec.BlocksAreRuns | src/abstract-machine/apps/coremark/src/core_list_join.c:439-484 | when every block of two runs is put out in order, the list has sorted runs of twice the length, earlier elements first |
| MergeSpec.TouchedThrough | src/abstract-machine/apps/coremark/src/core_list_join.c:439-484 | elements that a comparison has looked at stay so wherever a pass moves them within their blocks |
| CoreList.CalcFunc | src/abstract-machine/apps/coremark/src/core_list_join.c:63-95 | a cached value is returned and kept; otherwise the low seven bits of the data, or of one kernel call for the first two kinds, are returned and cached in the lower byte |
| CoreList.Compare | src/abstract-machine/apps/coremark/src/core_list_join.c:101-118 | by data: the difference of the two values, which are cached then; by index: the difference of indices, and without a results object both lower bytes copied from the upper ones, with one no data changed; any other function answers any number |
| MergeSpec.RunsRekeyed | src/abstract-machine/apps/coremark/src/core_list_join.c:63-95 | cached values that only become known when an item is first compared leave the runs sorted: a run of two or more has all its values known |
| CoreList.MergeBlock | src/abstract-machine/apps/coremark/src/core_list_join.c:451-478 | merges two neighbouring runs by relinking: same nodes, in order if they were, also by values that the comparisons of this block cache |
| CoreList.StepAlong | src/abstract-machine/apps/coremark/src/core_list_join.c:441-448 | steps a run's length along the list or to its end |
| CoreList.Pass | src/abstract-machine/apps/coremark/src/core_list_join.c:433-488 | one pass puts out every node once and counts at most one merge exactly when the list is one block |
| CoreList.MergeSort | src/abstract-machine/apps/coremark/src/core_list_join.c:426-496 | terminates with a permutation of the same nodes for any comparator, however it answers; by data the result is sorted by the values cached in the end and stable, by index sorted by index and stable; upper bytes stay, and with two nodes or more every item has its value cached or is regenerated, or no data changes, as the comparator has it |
| CoreBench.Reverse | src/abstract-machine/apps/coremark/src/core_list_join.c:395-404 | the links run the other way |
| CoreBench.Find | src/abstract-machine/apps/coremark/src/core_list_join.c:370-380 | the first node with the wanted index, or lower byte, if any |
| CoreBench.CacheNext | src/abstract-machine/apps/coremark/src/core_list_join.c:156-163 | the node after the found one moves to right behind the head, also when the found one is the head |
| CoreBench.Remove | src/abstract-machine/apps/coremark/src/core_list_join.c:316-327 | the following node is unlinked and carries the item's data away |
| CoreBench.UndoRemove | src/abstract-machine/apps/coremark/src/core_list_join.c:345-355 | the node is linked back in and both data return |
| CoreBench.RemoveAndPutBack | src/abstract-machine/apps/coremark/src/core_list_join.c:174-186 | links and data are as before |
| CoreBench.Round | src/abstract-machine/apps/coremark/src/core_list_join.c:143-169 | finds the first wanted item, reverses the list, and moves the item that follows the found one to right behind the head |
| CoreBench.Rounds | src/abstract-machine/apps/coremark/src/core_list_join.c:143-169 | the list after any number of searches is in exactly the order that their finds make of it, each search looking for the next index, or the next low byte, in the list as it is then |
| CoreBench.SortedShuffle | src/abstract-machine/apps/coremark/src/core_list_join.c:187-188 | sorting any shuffle of a list with increasing indices gives the list itself |
| CoreBench.BenchList | src/abstract-machine/apps/coremark/src/core_list_join.c:125-199 | on three or more nodes with increasing indices: same head, same order, same data, whatever the kernels return; lower bytes that agreed with the upper ones come back |
| BlkfsSpec.FreeBlockEmptyInode | src/kernel/src/vfs/blkfs.c:1071-1081 | there are at least as many empty inodes as free data blocks, counting also inodes that were made without a block |
| BlkfsSpec.AllocatedOwned | src/kernel/src/vfs/blkfs.c:326-375 | taking the first empty inode and the first free block, or no block if there is none, keeps every taken data block owned by exactly one inode |
| BlkfsSpec.FreedOwned | src/kernel/src/vfs/blkfs.c:377-401 | so does giving both back |
| BlkfsSpec.LinksWithEntry | src/kernel/src/vfs/blkfs.c:551-555 | overwriting one directory slot moves one link |
| BlkfsSpec.CreatedCounts | src/kernel/src/vfs/blkfs.c:517-570 | creating an entry adds one to the count and to the live entries of what it names, and to nothing else |
| BlkfsSpec.CreatedValid | src/kernel/src/vfs/blkfs.c:517-570 | creating keeps ownership, names and counts; counts are exact after it if and only if they were before |
| BlkfsSpec.DeletedLinks | src/kernel/src/vfs/blkfs.c:573-607 | deleting takes the entry's link, and never adds one |
| BlkfsSpec.RootNotDeleted | src/kernel/src/vfs/blkfs.c:573-607 | no deletion frees the root |
| BlkfsSpec.DeletedValid | src/kernel/src/vfs/blkfs.c:573-607 | deleting keeps ownership, names and counts; counts are exact after it if and only if they were before and no directory goes that has another entry |
| BlkfsSpec.DeletedLeaks | src/kernel/src/vfs/blkfs.c:573-607 | an inode whose count is above its entries keeps such a count through every deletion, and is never freed by one |
| BlkfsRuns.CreatedLookup | src/kernel/src/vfs/blkfs.c:517-570 | a new entry changes what its name stands for in its directory, a new directory is empty, every other name means what it did |
| BlkfsRuns.DeletedLookup | src/kernel/src/vfs/blkfs.c:573-607 | a deletion changes what its name stands for, and nothing else but the names in a directory that goes with it |
| BlkfsRuns.CreateThenDelete | src/kernel/src/vfs/blkfs.c:517-607 | deleting an entry just made restores the block map, the live inodes and the meaning of every name |
| BlkfsRuns.WalkKept | src/kernel/src/vfs/blkfs.c:614-660 | making an entry diverts no path |
| BlkfsRuns.MadeIsFound | src/kernel/src/vfs/blkfs.c:614-660 | what was made in a directory is found at its path, also when there was no block left for it |
| BlkfsRuns.BlockIsEnough | src/kernel/src/vfs/blkfs.c:326-375 | while a data block is free, creating in a readable directory under a short name runs into no assertion |
| BlkfsRuns.StepValid | src/kernel/src/vfs/blkfs.c:853-1022 | each of mkdir, create, link and rm keeps the filesystem well formed, error returns included; counts are exact after it if and only if they were before and nothing but empty directories and files goes |
| BlkfsRuns.RunValid | src/kernel/src/vfs/blkfs.c:853-1022 | over any sequence of them: a data block is in use if and only if exactly one live inode owns it, used entries of live directories name live inodes by distinct names, counts are at least the live entries; at the end they equal them if and only if they did at the beginning and every removal on the way is clean |
| BlkfsRuns.EnoughInodes | src/kernel/src/vfs/blkfs.c:1073-1081 | the geometry gives at least as many inodes as data blocks |
| BlkfsRuns.FromFormat | src/kernel/src/vfs/blkfs.c:1048-1136 | all that from a fresh format on: counts equal the live entries if and only if every removal was clean |
| Blkfs.FileSystem.Format | src/kernel/src/vfs/blkfs.c:1105-1133 | whatever the device held: only the root, in the first data block, empty |
| Blkfs.FileSystem.BlockAlloc | src/kernel/src/vfs/blkfs.c:177-206 | the first free data block, or -1 |
| Blkfs.FileSystem.BlockFree | src/kernel/src/vfs/blkfs.c:208-224 | one block becomes free |
| Blkfs.FileSystem.InodeGet | src/kernel/src/vfs/blkfs.c:254-281 | the inode, or nothing if it is empty |
| Blkfs.FileSystem.InodeAlloc | src/kernel/src/vfs/blkfs.c:326-375 | the first empty inode in table order, or -1, with the first free block, or -1 if there is none; a directory's slots are cleared |
| Blkfs.FileSystem.InodeBfree | src/kernel/src/vfs/blkfs.c:377-401 | the inode becomes empty and its block free, if it has one |
| Blkfs.FileSystem.DirentryFindName | src/kernel/src/vfs/blkfs.c:403-415 | the first used slot with the name, or -1 |
| Blkfs.FileSystem.GetFiledir | src/kernel/src/vfs/blkfs.c:485-514 | the inode a name stands for, or -1 |
| Blkfs.FileSystem.CreateFiledir | src/kernel/src/vfs/blkfs.c:517-570 | the new disk and return value are those of creating an entry |
| Blkfs.FileSystem.DeleteFiledir | src/kernel/src/vfs/blkfs.c:573-607 | the new disk is that of deleting an entry |
| Blkfs.FileSystem.GetPathInode | src/kernel/src/vfs/blkfs.c:614-660 | the inode at the end of the path, or nothing |
| BlkfsMeaning.StepDone | src/kernel/src/vfs/blkfs.c:691-1022 | every call returns 0 or -1, and with -1 leaves the disk as it was; mkdir and creating return 0 if and only if the directory is there, the name is new and a slot is free, and then the path leads to a new, empty inode of the right kind; link, if and only if also the old path leads somewhere, and then both paths lead to the same inode with one more count; rm, if and only if the parent is a directory, and then the name means nothing and its inode has one count less or is gone with its block; no other name and no other inode changes |
| BlkfsMeaning.MkdirDone | src/kernel/src/vfs/blkfs.c:854-914 | that for making a directory |
| BlkfsMeaning.OpenWriteDone | src/kernel/src/vfs/blkfs.c:691-739 | for opening for writing: an existing path gives 0 if and only if it leads to a file, and changes nothing |
| BlkfsMeaning.LinkDone | src/kernel/src/vfs/blkfs.c:971-1022 | for linking |
| BlkfsMeaning.RmDone | src/kernel/src/vfs/blkfs.c:916-969 | for removing |
| Blkfs.FileSystem.Mkdir | src/kernel/src/vfs/blkfs.c:854-914 | the code on arrays does and returns that, and the disk stays well formed |
| Blkfs.FileSystem.OpenWrite | src/kernel/src/vfs/blkfs.c:691-739 | so does opening for writing |
| Blkfs.FileSystem.LinkTo | src/kernel/src/vfs/blkfs.c:971-1022 | so does linking |
| Blkfs.FileSystem.Rm | src/kernel/src/vfs/blkfs.c:916-969 | so does removing |
| Spinlock.StepRefines | src/kernel/src/kmt.c:300-340 | each access refines locks that are taken only when free and released only by their holder |
| Spinlock.MovedExclusive | src/kernel/src/kmt.c:300-340 | then a lock is marked if and only if one processor holds it, and only one does |
| Spinlock.StepPasses | src/kernel/src/kmt.c:300-340 | seen from outside, a lock is left alone, taken when free by the processor that steps, or given up by it: what the input queue takes for one step |
| Spinlock.PushPopRight | src/kernel/src/kmt.c:20-50 | `pushcli` and `popcli` reach none of their panics and keep interrupts off while nested |
| Spinlock.TestsRight | src/kernel/src/kmt.c:281-287 | the two separate reads of `is_holding_spin` are right about the processor that makes them |
| Spinlock.StepSigned | src/kernel/src/kmt.c:312-335 | the lock's processor number names its holder except right after the exchange and right before the release |
| Spinlock.StepRight | src/kernel/src/kmt.c:20-340 | every step of every processor, traps and switches of tasks included, keeps all of it |
| Spinlock.RunSafe | src/kernel/src/kmt.c:20-340 | over every interleaving: no two holders, no panic, interrupts off while nested or while a lock is held |
| SpinlockCalls.CallDone | src/kernel/src/kmt.c:300-340 | a call of `spin_lock` that is back has added exactly its lock, which the caller did not hold and which is now marked and named after its processor; one of `spin_unlock` has taken exactly its lock away; other processors step and the caller is trapped and resumed in between as they will |
| SpinlockCalls.StepPending | src/kernel/src/kmt.c:300-340 | every step of any processor, trap and return keeps a call under way at its point, with nothing held or given up before its exchange |
| SpinlockCalls.LockedAlone | src/kernel/src/kmt.c:300-340 | from the start of the machine: whoever is back from `spin_lock` holds the lock alone, with interrupts off |
| SpinlockCalls.AloneReturns | src/kernel/src/kmt.c:300-340 | with nobody in the way a free lock is taken in 12 accesses and a held one given up in 10 |
| Spinlock.StepFlag | src/kernel/src/kmt.c:20-50 | no step of any processor changes a task's interrupt flag outside of its own `pushcli`, whether the task runs, is interrupted, gives up the processor or is resumed |
| Spinlock.FlagRestored | src/kernel/src/kmt.c:36-50 | between two points where a task holds no lock its interrupt flag comes back, over every run with traps, switches and returns in between |
| InputQueue.StepCounts | src/kernel/src/kmt.c:353-401 | the read and the write of a semaphore's value are never interleaved with another thread's; the value is what `sem_init` gave and the signals, less the waits, and no wait takes it below 0 |
| InputQueue.StepStored | src/kernel/src/devices/input/input.c:15-33 | the ring holds what was pushed and not popped, oldest at the front |
| InputQueue.StepBalanced | src/kernel/src/devices/input/input.c:15-33 | every event in the ring is counted by the semaphore above its start, about to be, or claimed by a reader |
| InputQueue.NeverEmpty | src/kernel/src/devices/input/input.c:27-27 | a reader let past a semaphore that started at 0, as this one does, or below finds an event |
| InputQueue.RunSafe | src/kernel/src/devices/input/input.c:15-33 | over every interleaving of any number of threads, for any start of the semaphore: the events with which readers leave are the first of those pushed, in order; each event was pushed, or is still with its pusher, as often as a push of it was asked for; "input queue empty" is unreachable from a start of 0 or below |
| InputQueue.StepHanded | src/kernel/src/devices/input/input.c:22-33 | a reader leaves with the event it took out of the ring |
| InputQueue.StepAsked | src/kernel/src/devices/input/input.c:10-20 | what enters the ring is what a pusher was called with |
| InputQueue.StartedTooHigh | src/kernel/src/kmt.c:342-351 | from any higher start a lone reader reaches it |
| SchedulerSpec.SelectedIsNext | src/kernel/src/kmt.c:173-192 | the search selects the next task pinned to the processor, going round |
| SchedulerSpec.SelectedFirst | src/kernel/src/kmt.c:173-192 | with no current task the first task pinned to the processor is selected |
| SchedulerSpec.TurnsGoRound | src/kernel/src/kmt.c:167-209 | whatever happens on other processors, a processor's turns go round its pinned tasks |
| SchedulerSpec.RoundRobin | src/kernel/src/kmt.c:167-209 | any k turns in a row of a processor with k pinned tasks select each exactly once |
| Scheduler.Kmt.Init | src/kernel/src/kmt.c:211-235 | no tasks, no current task anywhere |
| Scheduler.Kmt.GetTask | src/kernel/src/kmt.c:94-103 | the task at a position, or none past the end |
| Scheduler.Kmt.FindTaskIndex | src/kernel/src/kmt.c:105-119 | the position of a node, or -1 |
| Scheduler.Kmt.GetLastTask | src/kernel/src/kmt.c:136-150 | the last task |
| Scheduler.Kmt.Create | src/kernel/src/kmt.c:237-274 | the task is last in the list, free, and pinned to the next processor in turn |
| Scheduler.Kmt.Search | src/kernel/src/kmt.c:184-192 | the search ends when a task is pinned to the processor, at the selected one |
| Scheduler.Kmt.ContextSwitch | src/kernel/src/kmt.c:167-209 | the selected task takes over; exactly the current tasks are working, each on its own processor, so none is current on two |
| FixSqrt.DigitStep | src/abstract-machine/libs/fixmath/src/fix16_sqrt.c:36-48 | the comparison of words is the comparison of squares, and both branches leave the next digit to find |
| FixSqrt.FindDigits | src/abstract-machine/libs/fixmath/src/fix16_sqrt.c:36-48 | one pass finds the root rounded down, every value fitting its word |
| FixSqrt.StartBit | src/abstract-machine/libs/fixmath/src/fix16_sqrt.c:24-29 | the first digit tried is high enough for every number |
| FixSqrt.Widen | src/abstract-machine/libs/fixmath/src/fix16_sqrt.c:50-72 | the second pass continues the root of the number shifted up by 16 bits, or of that less 2^14 when the remainder does not fit |
| FixSqrt.Sqrt | src/abstract-machine/libs/fixmath/src/fix16_sqrt.c:12-84 | for every number the rounded root of what the second pass works on: below 2^30 in size the rounded root of 65536 times the number, in general that if and only if the condition of ExactWhen holds |
| FixSqrt.RootUnique | src/abstract-machine/libs/fixmath/src/fix16_sqrt.c:75-81 | the root rounded down is determined by the number |
| FixSqrt.RoundedUnique | src/abstract-machine/libs/fixmath/src/fix16_sqrt.c:75-81 | and so is the rounded root: there are no ties |
| FixSqrt.SmallIsExact | src/abstract-machine/libs/fixmath/src/fix16_sqrt.c:53-70 | below 2^30 in size that is 65536 times the number itself |
| FixSqrt.ExactWhen | src/abstract-machine/libs/fixmath/src/fix16_sqrt.c:53-64 | in general the root is the nearest if and only if the remainder fits in 16 bits or no midpoint between two roots falls into the 2^14 taken off |
| FixSqrt.HalfUnitTooMuch | src/abstract-machine/libs/fixmath/src/fix16_sqrt.c:57-63 | a number whose root comes out one too small |
| FixArith.DivideStep | src/abstract-machine/libs/fixmath/src/fix16.c:322-338 | one step keeps dividend = quotient * divider + rest, and reports digits that do not fit exactly when the quotient is 2^32 or more |
| FixArith.Reduce | src/abstract-machine/libs/fixmath/src/fix16.c:313-318 | taking zero digits off the divider changes nothing |
| FixArith.Quotient | src/abstract-machine/libs/fixmath/src/fix16.c:320-339 | the whole quotient added to what it starts with, or word that it does not fit |
| FixArith.WholeQuotient | src/abstract-machine/libs/fixmath/src/fix16.c:306-344 | the estimate and what the loop adds to it make up the whole quotient, and adding one to round it never wraps |
| FixArith.Div | src/abstract-machine/libs/fixmath/src/fix16.c:290-360 | for all 32-bit numbers: the overflow value if and only if the quotient is 2^15 or more, otherwise the quotient, with the slack that the estimate for large dividers leaves, rounded and signed |
| FixArith.KickStartIff | src/abstract-machine/libs/fixmath/src/fix16.c:303-311 | with a divider of 2^20 or more the result is one unit above the quotient rounded to the nearest exactly when the slack carries into an even quotient, and that quotient otherwise |
| FixArith.FixDivNearest | src/abstract-machine/libs/fixmath/src/fix16.c:290-360 | so the result is the nearest, halves away from zero, if and only if the divider is below 2^20 or the slack does not show; its sign is right in any case |
| FixArith.DivisionLimits | src/abstract-machine/libs/fixmath/src/fix16.c:290-360 | the least number, which is also the overflow value, comes out if and only if the divisor is 0 or the whole quotient needs more than 31 bits; everything else fits |
| FixArith.OneUnitTooMuch | src/abstract-machine/libs/fixmath/src/fix16.c:306-311 | a division that comes out 12239 where 12238 is nearest |
| FixArith.RoundDivNearest | src/abstract-machine/libs/fixmath/src/fix16.c:341-346 | the rounded quotient is within half a unit |
| FixArith.Mul | src/abstract-machine/libs/fixmath/src/fix16.c:113-166 | for all 32-bit numbers: what the words add up to, with the middle sum wrapped, rounded to the nearest, halves away from zero, or the overflow value |
| FixArith.RoundProduct | src/abstract-machine/libs/fixmath/src/fix16.c:139-165 | taking half a unit off with a borrow, dropping the low half and adding one rounds numbers of either sign, and the check on the upper bits is the overflow check |
| FixArith.MulIff | src/abstract-machine/libs/fixmath/src/fix16.c:124-143 | the result is the rounded product, or overflow when that does not fit, if and only if the middle sum fits its word, or is too large and the product 3 * 2^47 - 2^15 or more, or is too small and the product does not fit |
| FixArith.MiddleWraps | src/abstract-machine/libs/fixmath/src/fix16.c:128-142 | an overflow that is not noticed, and a product of 32767 taken for an overflow |
| FixArith.SmallProduct | src/abstract-machine/libs/fixmath/src/fix16_str.c:37-38 | on a fraction times a power of ten it is the rounded product |
| FixText.ItoaLoop | src/abstract-machine/libs/fixmath/src/fix16_str.c:10-26 | writes the digits at the given place, without leading zeros if asked to skip them |
| FixText.PaddedNumber | src/abstract-machine/libs/fixmath/src/fix16_str.c:10-26 | what is written are digits that stand for the number |
| FixText.ScaledIsRounded | src/abstract-machine/libs/fixmath/src/fix16_str.c:34-45 | integer part and rounded fraction with its carry are the size times a power of ten, rounded as a whole |
| FixText.ToStr | src/abstract-machine/libs/fixmath/src/fix16_str.c:28-58 | for every number of decimals and every value but the least: sign, integer part and decimals of the rounded size, terminated |
| FixText.FromStr | src/abstract-machine/libs/fixmath/src/fix16_str.c:60-113 | the code on words computes the parsed value |
| FixLiteral.LiteralParsed | src/abstract-machine/libs/fixmath/src/fix16_str.c:60-113 | spaces, an optional sign, one to five digits of at most 32767 (32768 after a minus), an optional point or comma with up to five decimals, digits beyond five ignored, and spaces: the value is the number with its decimals rounded to the nearest unit, whatever their number |
| FixLiteral.OthersOverflow | src/abstract-machine/libs/fixmath/src/fix16_str.c:82-109 | every other text gives the overflow value |
| FixLiteral.BelowTheLeast | src/abstract-machine/libs/fixmath/src/fix16_str.c:82-112 | -32768.5, accepted, comes out as 32767.5 |
| FixLiteral.FiveDecimals | src/abstract-machine/libs/fixmath/src/fix16_str.c:5-8 | rounding a fraction to five decimals and back loses nothing |
| FixLiteral.PrintedDigits | src/abstract-machine/libs/fixmath/src/fix16_str.c:26-58 | what is printed is a minus for negative numbers only, one to five digits without leading zeros, and a point with exactly the decimals asked for, if any |
| FixLiteral.PrintedParsed | src/abstract-machine/libs/fixmath/src/fix16_str.c:10-113 | parsing what was printed with any number of decimals gives the value rounded to that many, or the overflow value if that is 32768 |
| FixLiteral.RoundTrip | src/abstract-machine/libs/fixmath/src/fix16_str.c:10-113 | parsing what was printed with five decimals gives every value back but the least |
| Tty.TypedProper | src/kernel/src/devices/tty/tty.c:86-106 | finished lines are plain characters and a newline, no later key changes them, and every later Return finishes one more |
| Tty.FedSound | src/kernel/src/devices/tty/tty.c:239-263 | the pieces between terminators are never changed by later keys, hold no terminator, and there are at least as many as Returns |
| Tty.FaithfulIff | src/kernel/src/devices/tty/tty.c:86-106 | the pieces that readers get for the Returns typed are the lines of the edit model if and only if no NUL was typed before a Return |
| Tty.ShiftReturn | src/kernel/src/devices/tty/tty.c:101-102 | for all plain texts s and t: s, NUL, t and Return are one line, of which the one reader let through gets s, and the next reader the rest |
| Tty.TakenBack | src/kernel/src/devices/tty/tty.c:31-46 | backspace undoes any other plain key, in the line and, but for NUL, in the ring, and does nothing at the beginning of a line |
| Tty.NulStays | src/kernel/src/devices/tty/tty.c:31-46 | backspace does not take a NUL back: s, NUL, backspace and Return are the line s, of which the reader gets s without its newline |
| Tty.HoldsPut | src/kernel/src/devices/tty/tty.c:19-29 | while the ring does not fill, a character goes in at the end and nothing else changes |
| Tty.HoldsDrop | src/kernel/src/devices/tty/tty.c:31-46 | the last character comes out again |
| Tty.Queue.Enqueue | src/kernel/src/devices/tty/tty.c:19-29 | the ring holds one character more |
| Tty.Queue.PopBack | src/kernel/src/devices/tty/tty.c:31-46 | drops a character typed since the last terminator, and refuses exactly when there is none |
| Tty.Queue.Cook | src/kernel/src/devices/tty/tty.c:86-106 | for every key, NUL included: the queue is what all keys so far make of it, and the semaphore the Returns less the reads |
| Tty.Queue.Read | src/kernel/src/devices/tty/tty.c:239-263 | successive reads return the pieces in order, which are the lines of the edit model if no NUL came before a Return, cut to the caller's buffer, with the full length |
| Kvdb.HeaderParsed | src/libkvdb/kvdb.c:31-35 | the header that a put writes is read back as the value's length and the key |
| Kvdb.PassQuiet | src/libkvdb/kvdb.c:27-38 | a value no piece of which looks like a header is passed over, in however many pieces it is read |
| Kvdb.PassValue | src/libkvdb/kvdb.c:27-57 | so is one in a single piece that looks like a header with a length an int holds, even one for the key asked for: it takes the end of its own record for a value |
| Kvdb.PassOther | src/libkvdb/kvdb.c:27-38 | a record for another key is passed over |
| Kvdb.TakeRecord | src/libkvdb/kvdb.c:40-59 | a record for the key is taken, its last newline there or not |
| Kvdb.TornRecord | src/libkvdb/kvdb.c:41-57 | a record cut anywhere before the end of its last word is invisible, also to its own key and to keys it seems to name |
| Kvdb.TornTail | src/libkvdb/kvdb.c:14-66 | on a log of complete puts and any part of one more, the last complete record for a key is found; the part counts if and only if at most its last newline is missing |
| Kvdb.FindDb | src/libkvdb/kvdb.c:14-66 | the loop over lines computes the scan of the file, headers of unusable length passed over |
| Kvdb.Db.Put | src/libkvdb/kvdb.c:120-156 | for every key and value: appends one record, or refuses the key or the value by its length and appends nothing |
| Kvdb.Db.Get | src/libkvdb/kvdb.c:158-175 | what the scan finds; that is the last value put under the key, if keys are on one line and values are on one line and read in one piece, with a length an int holds if it looks like a header, or in pieces unlike headers |
| Kvdb.PutThenGet | src/libkvdb/kvdb.c:120-175 | after such puts, one more put of any key and value is read back under its key if and only if neither has a newline in it |
| Kvdb.NewlineForges | src/libkvdb/kvdb.c:143-144 | a value with newlines puts any value under any other key |

## Left out

- Skyline packer: the sort is any permutation, and the sort back is putting each rectangle at its saved index; best fit of a rectangle whose rounded width exceeds the target's, which walks off the list.
- Skyline.AlwaysRunOut: at height 1 the nodes run out just the same, but the next unit square is shown to fit only if the nodes and the quantum together are no more than the width.
- Skyline.Context.FindMinY: sums of the waste beyond an int, undefined in C, are taken as wrapping.
- SkylineSpec.RatedByGap: for a spot inside a stretch at height 0 there is a run in which the count is too high, not a formula for what it comes to.
- Skyline.Context.PackRects: sizes above the largest coordinate are excluded, because the sentinel would no longer bound the search.
- Kernel heap: the contents of blocks and their clearing, locking, request sizes whose sum with the header wraps 32 bits, and freeing what is not live.
- Division.DivDI3: with `Division.ModDI3`, takes the negation of the least number, undefined in C, as wrapping.
- List benchmark: empty lists, the kernels behind `calc_func` (any results), the checksums that make up the return value, and `core_list_init`.
- CoreList.MergeSort: a comparator other than the two of the file may answer anything, but is taken to change no data itself.
- Block filesystem: open handles and their cached inodes, reading and writing file data, the byte layout on the device, mounting a device that already holds a filesystem, and the parsing of path strings (paths are lists of names).
- Blkfs.FileSystem.CreateFiledir: a new entry needs an empty inode, because without one the source runs into an assertion.
- Blkfs.FileSystem.GetPathInode: paths that go through something other than a directory with a block, names of fifteen characters and more, and links into something other than such a directory run into assertions of the source and are excluded.
- Kernel threads: register contexts, assembly, logging, and creating tasks while tasks are being switched.
- Spinlock.RunSafe: callers take only locks they do not hold and release only locks they hold, and yield holding none, as the source's own panics demand; that a waiting processor gets the lock some time is not stated.
- InputQueue.RunSafe: taking a lock is one step here, which is what `Spinlock.StepPasses` justifies; "input queue full" stops the machine, as its panic does; the keyboard tables are not modelled.
- FixSqrt.Sqrt: the least number is taken as 2^31 in size; in C its negation overflows.
- FixArith.Div: the negation of the least number, undefined in C, is taken as wrapping.
- FixArith.RoundProduct: adding one to the largest number, undefined in C, is taken as wrapping; it gives the overflow value.
- Fixed point: saturating and trigonometric functions.
- FixText.ToStr: the least value, whose negation overflows in C.
- FixText.FromStr: storing 32768 shifted up and negating the least number, which C leaves to the machine or undefined, are taken as wrapping.
- Tty.Queue.Cook: requires room in the ring, because a full ring is a panic; drawing and cursor movement are not modelled.
- Kvdb.Db.Get: which puts of values in several pieces some of which look like headers disturb other keys is not stated.
- Kvdb.TornTail: puts after a torn record, file locking, syncing and failures to open the file.
- Kvdb.FindDb: headers with a negative length, or with one beyond an int once 5 is added, undefined in C, are passed over; so is a line that begins with such a number and is no header.
- Everything else in the repository: drivers, shell, games, emulator, user-level tools and platform code.
