# Allocators for non-volatile memory

This project models four allocators and proves what each of them is for. Every piece has a
specification on values (functions and invariants), a class whose methods update arrays, lists and
fields in place as the C code does and are proved equal to that specification, and theorems about the
specification over all inputs and all runs.

**NVMalloc** (`Words`, `Checksum`, `Damage`, `Tiling`, `HeapSpec`, `HeapLaws`, `HeapRuns`, `HeapQueue`,
`HeapOrder`, `Bitmap`, `Headers`, `NVMalloc`) describes the same memory three times: a bitmap with one bit for every 64 bytes,
checksummed headers in front of the blocks, and 65 lists of hints that may be stale. A freed block
waits in a timed queue, threaded through the blocks, before it is coalesced or folded back into the
untouched top. `HeapSpec.Inv` says that the views agree: blocks tile the heap, bits are set exactly
for live and quarantined blocks, the unit below `free_zone` is in use, the queue is sorted by time,
and every maximal free run of at most 4096 bytes has a hint at its first byte in the list of its
class. `HeapQueue` says who leaves the quarantine and when, `HeapOrder` which run serves a request.
Positions count units of 64 bytes.

**The clock inside one span** of HPNMalloc (`BitScan`, `SpanClock`) levels wear with a 64-bit map, a
moving hand, a de Bruijn table and a wear counter. Runs go from one `span_init` to the next, with the
wear threshold of each request as a parameter.

**The central page pool** of HPNMalloc (`CentralPool`) carves pages from regions that grow and splits
listed spans on demand. It reuses `Tiling`: live tiles are spans handed out, free tiles are listed
spans, quarantined tiles are the tails left behind when the pool grows.

**TCNVMalloc** has a resizing binary heap (`PriorityQueue`) and a heap of chunks that move between
foreground slots, background lists and a free list (`ChunkHeap` for the specification, `TCNVMalloc`
for headers, addresses and the methods). `Basics` holds what several modules share.

The tick counter is a parameter that never goes back. Mapping memory always succeeds, and a grown
mapping keeps its old contents.

Four results say where the code falls short of what one would expect. Each has a concrete case and the
exact condition, which can be read off the state before the call:

- Free runs above 4096 bytes can be forgotten: `HeapRuns.LargeRunLost` and
  `HeapRuns.LargeHoleIsReached`; `HeapRuns.ReuseIff` is the condition.
- The checksum notices every one-byte change of a live header (`Damage.OneByteIsNoticed`), but not of a
  negated one: `Damage.NegatedByteUnnoticed`. `Damage.NegatedByteIsNoticed` lists the unnoticed changes by
  size and change alone; `Damage.QuarantinedHeaders`, `Damage.FreeHeaders` and `Damage.FreePages` spell
  them out for the sizes that occur.
- A chunk reused from the free list keeps its old block size, which may be too small:
  `ChunkHeap.WrongClassIsReached`; `ChunkHeap.LargeEnoughIff` is the condition.
- Growing the page pool leaves the rest of a region behind for good, even when it is just what was asked
  for: `CentralPool.TenthRequestLoses`; `CentralPool.PagesLostIff` is the condition, and
  `CentralPool.OneTailPerRegion` bounds the loss.

## Model

| member | source | states |
|---|---|---|
| HeapRuns.MallocIsSafe | src/r1/nvmalloc/nvmalloc.c:628-654 | Every `nvmalloc` gets a block of its own: at least `size + 8` bytes, below `free_zone` and the mapped end, apart from every block that is live or still quarantined; the live blocks are the old ones plus this one. |
| HeapRuns.FreeIsSafe | src/r1/nvmalloc/nvmalloc.c:656-691 | `nvfree` of a live block takes that block, and no other, out of the live ones. |
| HeapRuns.LiveBlocksAreTheLedger | src/r1/nvmalloc/nvmalloc.c:628-691 | Over every run of requests and frees the allocator's live blocks are exactly what the callers were given and have not returned. |
| HeapRuns.NoEarlyReuse | src/r1/nvmalloc/nvmalloc.c:499-582 | After a free at tick t1, no block handed out overlaps the freed one while the last tick read is before `t1 + dont_allocate_wait`, whatever operations come in between. |
| HeapRuns.RunKeepsQuarantine | src/r1/nvmalloc/nvmalloc.c:541-582 | Over every run a quarantined block keeps its place and time until its waiting time is over; the clock never goes back. |
| HeapRuns.ReuseIff | src/r1/nvmalloc/nvmalloc.c:314-414 | `getFreeLocation` serves from a free run if and only if a hint in the class of the request or a larger one leads to enough space; otherwise `free_zone` moves up by the request. |
| HeapRuns.SmallRunsReused | src/r1/nvmalloc/nvmalloc.c:314-414 | Up to 4096 bytes no run is lost: `free_zone` does not move if a free run of the size of the request up to 4096 bytes exists. |
| HeapRuns.HintedRunReused | src/r1/nvmalloc/nvmalloc.c:314-414 | A large enough run with a hint at its first unit, in the list of its class, keeps `free_zone` where it is, for runs of any size. |
| HeapRuns.LargeRunsForgotten | src/r1/nvmalloc/nvmalloc.c:321-336 | Once a request above 4096 bytes has moved `free_zone`, the next one does so too, whatever free runs there are: the search has emptied the list. |
| HeapRuns.LargeRunLost | src/r1/nvmalloc/nvmalloc.c:321-336 | A concrete heap where a request of 66 units makes the allocator forget a free run of 65 units, so that completeness fails above 4096 bytes. |
| HeapRuns.LargeHoleIsReached | src/r1/nvmalloc/nvmalloc.c:628-691 | That heap is reached from the empty one by two requests and a free. |
| HeapRuns.TakeAdds | src/r1/nvmalloc/nvmalloc.c:297-419 | `getFreeLocation` adds one block of the size asked for to the blocks in use and changes no other. |
| HeapRuns.ReleaseRemoves | src/r1/nvmalloc/nvmalloc.c:423-491 | Releasing the head of the queue takes that block, and no other, out of the blocks in use. |
| HeapRuns.TickRemoves | src/r1/nvmalloc/nvmalloc.c:541-582 | `incrementTime` takes the head of the queue out of the blocks in use if and only if its time is up, and no other block. |
| HeapQueue.TickReleases | src/r1/nvmalloc/nvmalloc.c:541-582 | When the time of the head of the queue is up it leaves and its units are free; otherwise only the clock moves. |
| HeapQueue.StepQueue | src/r1/nvmalloc/nvmalloc.c:628-691 | A freed block goes to the end of the queue, the head leaves if and only if its time is up, and the others keep their times. |
| HeapQueue.FreedIsQueued | src/r1/nvmalloc/nvmalloc.c:656-691 | A freed block is queued with the time of the free, and leaves at once only if it is alone and the waiting time is over. |
| HeapQueue.QuietFree | src/r1/nvmalloc/nvmalloc.c:656-691 | A free that releases nothing changes the block's state, the queue and the clock only. |
| HeapQueue.QueueIsFifo | src/r1/nvmalloc/nvmalloc.c:499-582 | Over every run blocks leave in the order in which they were freed, at most one with each operation. |
| HeapQueue.LeavesInTime | src/r1/nvmalloc/nvmalloc.c:541-582 | Over every run: when the m-th block of the queue is due at the next operation, the first m blocks have left m operations later, one with each. |
| HeapOrder.HintTouches | src/r1/nvmalloc/nvmalloc.c:153-206 | A hint leads to the one maximal run it touches, and to nothing if it touches none. |
| HeapOrder.SearchServes | src/r1/nvmalloc/nvmalloc.c:314-340 | The search ends at the first hint, in the least class, that leads to enough space; the hints up to it are gone and all others stay in order. |
| HeapOrder.SomeFirst | src/r1/nvmalloc/nvmalloc.c:314-340 | If any hint from the class of the request on leads to enough space, there is such a first one. |
| HeapOrder.TakeServes | src/r1/nvmalloc/nvmalloc.c:297-419 | The request gets the front of the run that first hint leads to; the rest of the run, if any, gets one hint at the end of the list of its class. |
| HeapOrder.TakeServesTop | src/r1/nvmalloc/nvmalloc.c:406-414 | Without such a hint the request gets the units at `free_zone`, the lists from its class on are empty, and memory is mapped only if the block does not fit: 1024 pages, or just as many as it takes. |
| HeapOrder.TakeHeaders | src/r1/nvmalloc/nvmalloc.c:341-388 | If a header lies right behind the block it and those after it stay; else one header covers the rest of the run; headers outside the run stay. |
| HeapOrder.ReleaseHints | src/r1/nvmalloc/nvmalloc.c:431-477 | A block folded into the top leaves no hint; any other leaves one for its run and, if the run starts before it, a second for itself, each at the end of its list. |
| HeapOrder.ReleaseKeepsOrder | src/r1/nvmalloc/nvmalloc.c:456-477 | Releasing a block leaves all old hints in front of their lists, in order. |
| HeapOrder.ClassIs | src/r1/nvmalloc/nvmalloc.c:140-151 | One list for every size up to 4096 bytes, one for all above. |
| HeapLaws.TakeKeeps | src/r1/nvmalloc/nvmalloc.c:297-419 | `getFreeLocation` keeps bitmap, headers, hint lists and quarantine queue in agreement, on every path. |
| HeapLaws.TakenBlock | src/r1/nvmalloc/nvmalloc.c:400-418 | The block handed out is live, has the size asked for and lies below the new `free_zone`; the queue is untouched. |
| HeapLaws.CarveKeeps | src/r1/nvmalloc/nvmalloc.c:373-416 | Carving a block off the front of a maximal free run keeps the views in agreement, with and without an exact fit. |
| HeapLaws.ExtendKeeps | src/r1/nvmalloc/nvmalloc.c:406-416 | Growing at the top keeps the views in agreement. |
| HeapLaws.QuarantineKeeps | src/r1/nvmalloc/nvmalloc.c:499-537 | `putInDNAList` keeps the views in agreement, the queue sorted by time and free of duplicates. |
| HeapLaws.ReleasedRun | src/r1/nvmalloc/nvmalloc.c:482-495 | After its bits are cleared the block lies in one maximal run, and the two scans of `extendFreeLocation` measure exactly that run. |
| HeapLaws.ReleaseKeeps | src/r1/nvmalloc/nvmalloc.c:423-491 | Releasing a block keeps the views in agreement, whether it is folded into the top or coalesced; free space at the top is always folded back. |
| HeapLaws.ReleaseIsFold | src/r1/nvmalloc/nvmalloc.c:431-438 | A run that reaches `free_zone` is folded back whole, from the start of the run. |
| HeapLaws.ReleaseIsJoin | src/r1/nvmalloc/nvmalloc.c:440-477 | Any other run keeps the headers in front of the block, gets one header from the block to its end, and one or two hints. |
| HeapLaws.TickKeeps | src/r1/nvmalloc/nvmalloc.c:541-582 | `incrementTime` keeps the views in agreement. |
| HeapLaws.EmptyKeeps | src/r1/nvmalloc/nvmalloc.c:586-619 | The heap `nvmalloc_init` sets up satisfies the invariant. |
| HeapLaws.PopClassStops | src/r1/nvmalloc/nvmalloc.c:324-336 | The inner loop of the search stops at the first hint that leads to enough space, or with the list empty. |
| HeapLaws.SearchFinds | src/r1/nvmalloc/nvmalloc.c:314-403 | The search succeeds if and only if some hint in a list it may look at leads to enough space. |
| HeapLaws.SearchYieldsRun | src/r1/nvmalloc/nvmalloc.c:314-340 | What the search hands back is a whole maximal free run, whatever stale hints it came from. |
| HeapLaws.SearchKeepsHint | src/r1/nvmalloc/nvmalloc.c:314-403 | The search never loses the hint of a run of at most 4096 bytes that it does not hand back. |
| HeapLaws.NothingDrainsLists | src/r1/nvmalloc/nvmalloc.c:314-336 | An unsuccessful search leaves every list from its class on empty. |
| HeapSpec.StaleHint | src/r1/nvmalloc/nvmalloc.c:324-335 | A hint anywhere leads to zero space or to a whole maximal run below `free_zone`, given that the top unit is in use. |
| HeapSpec.HintFindsRun | src/r1/nvmalloc/nvmalloc.c:332-335 | A hint at the first unit of a run leads to that run. |
| HeapSpec.Forward | src/r1/nvmalloc/nvmalloc.c:153-172 | The forward scan counts the free units up to the first used one or `free_zone`. |
| Tiling.RunIsTiled | src/r1/nvmalloc/nvmalloc.c:342-372 | Free headers tile every maximal free run exactly: one starts where it starts, one ends where it ends, all in between are free and inside. |
| Tiling.RunsAgree | src/r1/nvmalloc/nvmalloc.c:153-206 | Two maximal free runs that touch are the same run. |
| Bitmap.IsFreeForward | src/r1/nvmalloc/nvmalloc.c:153-172 | The byte and mask loop returns the forward count of free units. |
| Bitmap.IsFreeBackward | src/r1/nvmalloc/nvmalloc.c:174-206 | The byte and mask loop returns the backward count; 0 for a hint above `free_zone` or at the start. |
| Bitmap.MakeOne | src/r1/nvmalloc/nvmalloc.c:208-222 | The loop sets exactly the bits of the interval, all others unchanged. |
| Bitmap.MakeZero | src/r1/nvmalloc/nvmalloc.c:224-238 | The loop clears exactly the bits of the interval, all others unchanged. |
| Bitmap.GrowBitmap | src/r1/nvmalloc/nvmalloc.c:282-290 | Growing the bitmap with zero bytes changes no unit. |
| Headers.WrittenWord | src/r1/nvmalloc/nvmalloc.c:640-642 | A header word for any size in range is positive, its negation negative, and both checks and size read back. |
| Headers.DecodeWord | src/r1/nvmalloc/nvmalloc.c:347-355 | Sign and size of a header word alone tell length and state of a live, free or quarantined block. |
| Headers.StoredSize | src/r1/nvmalloc/nvmalloc.c:499-521 | The sign of a header word tells live blocks from the others; the size is that of the block, or one more while it waits. |
| Headers.ScanRebuildsBitmap | src/r1/nvmalloc/nvmalloc.c:338-399 | Walking the headers from the start lands on `free_zone` and rebuilds the bitmap; the three totals are the units of live, quarantined and free blocks, those in use are the set bits, and together they are all units. |
| Checksum.XorCompute | src/r1/nvmalloc/nvmalloc.c:106-117 | The six-round loop computes the size with, in byte 6, the exclusive or of the seven low bytes of offset and size. |
| Checksum.RoundTrip | src/r1/nvmalloc/nvmalloc.c:106-122 | For every offset and 32-bit size: the size reads back, the word is accepted, it is positive for sizes above 0 and its negation negative. |
| Checksum.AcceptedIsParity | src/r1/nvmalloc/nvmalloc.c:661-665 | A word is accepted if and only if its unused bytes are zero and its seven bytes have the parity of the offset. |
| Checksum.UndetectedErrors | src/r1/nvmalloc/nvmalloc.c:661-665 | An error pattern goes unnoticed if and only if it spares the unused bytes and its own seven bytes cancel out. |
| Damage.OneByteIsNoticed | src/r1/nvmalloc/nvmalloc.c:661-665 | A positive header with any one byte changed, in any way, is refused. |
| Damage.NegatedByteIsNoticed | src/r1/nvmalloc/nvmalloc.c:351-355 | A stored negative header of any size above 0 with byte j changed by d is accepted if and only if the size and d fit a closed form: the size has nothing below byte j, and either the byte is 0 and d is the one value that hides the borrow from the bytes above, or the byte is cleared and that hides the carry into them without leaving the size. |
| Damage.QuarantinedHeaders | src/r1/nvmalloc/nvmalloc.c:560-563 | For quarantined headers (64k + 1) that means: only byte 0, equal to 1 and cleared, under bytes that end in no or in exactly sixteen set bits. |
| Damage.FreeHeaders | src/r1/nvmalloc/nvmalloc.c:351-355 | For free headers that are not a multiple of 256: only byte 0, equal to 0x80 or 0xC0 and cleared, under bytes that end in exactly fourteen or thirteen set bits. |
| Damage.FreePages | src/r1/nvmalloc/nvmalloc.c:351-355 | For free headers that are a multiple of 256: byte 0 has exactly one unnoticed change, or none when the sixteen bits above it are 0x8000. |
| Damage.NegatedByteUnnoticed | src/r1/nvmalloc/nvmalloc.c:351-355 | The stored header of a free run of 256 bytes with its lowest byte changed is accepted as the header of one byte, at every offset. |
| NVMalloc.NVMalloc.Malloc | src/r1/nvmalloc/nvmalloc.c:628-654 | Keeps bitmap array, headers in memory, lists and linked queue valid; the new abstract heap and the address are those of the specification step. |
| NVMalloc.NVMalloc.Free | src/r1/nvmalloc/nvmalloc.c:656-691 | On a live block performs the specification's free; on an address whose header does not check out it gives up and changes nothing. |
| NVMalloc.NVMalloc.IncrementTime | src/r1/nvmalloc/nvmalloc.c:541-582 | Equals the specification's tick: the queue loses its head if and only if its time is up; none of the header checks can fail. |
| NVMalloc.NVMalloc.GetFreeLocation | src/r1/nvmalloc/nvmalloc.c:297-419 | Equals the specification's take, whose run and lists `HeapOrder.TakeServes` fixes; every header but the new block's is in order afterwards. |
| NVMalloc.NVMalloc.PopHints | src/r1/nvmalloc/nvmalloc.c:324-336 | The do-while loop over one list equals the recursive search and changes no other list. |
| NVMalloc.NVMalloc.FindRun | src/r1/nvmalloc/nvmalloc.c:314-340 | The outer loop equals the recursive search. |
| NVMalloc.NVMalloc.WalkHeaders | src/r1/nvmalloc/nvmalloc.c:338-372 | The header walk ends without underflow and without a corruption exit, and reports an exact fit if and only if a header lies right behind the block. |
| NVMalloc.NVMalloc.ReadFreeHeader | src/r1/nvmalloc/nvmalloc.c:347-355 | Reading a free block's header never reports corruption and yields the block's size. |
| NVMalloc.WalkStep | src/r1/nvmalloc/nvmalloc.c:367-371 | One step of the walk reaches the next free block or the end of the run, and meets the end of the request exactly if a block starts there. |
| NVMalloc.NVMalloc.SplitRun | src/r1/nvmalloc/nvmalloc.c:373-399 | Writes one header for the rest exactly when there is none yet, and one hint in the right list. |
| NVMalloc.NVMalloc.GetMoreMemory | src/r1/nvmalloc/nvmalloc.c:243-291 | Maps at least 1024 pages and enough for the request; old memory and bitmap are kept, new bits are clear. |
| NVMalloc.BestFitIsClass | src/r1/nvmalloc/nvmalloc.c:140-151 | `getBestFit` on bytes gives the class of the rounded size. |
| NVMalloc.NVMalloc.PutInDNAList | src/r1/nvmalloc/nvmalloc.c:499-537 | Equals the specification's quarantine, with the linked queue extended at its tail; its header check cannot fail. |
| NVMalloc.NVMalloc.ExtendFreeLocation | src/r1/nvmalloc/nvmalloc.c:482-495 | Clears exactly the block's bits and returns the two counts around it. |
| NVMalloc.NVMalloc.InsertFreeLocation | src/r1/nvmalloc/nvmalloc.c:423-478 | Either lowers `free_zone` to the start of the run or writes one header and leaves the hints that `HeapOrder.ReleaseHints` fixes. |
| NVMalloc.NVMalloc.ReleaseHead | src/r1/nvmalloc/nvmalloc.c:551-580 | Equals the specification's release of the head of the queue. |
| NVMalloc.UnlinkHead | src/r1/nvmalloc/nvmalloc.c:555-560 | Unlinking the head leaves a well-formed queue of the remaining blocks. |
| NVMalloc.LiveIsAccepted | src/r1/nvmalloc/nvmalloc.c:661-665 | `nvfree` accepts the header of every live block and reads its size. |
| NVMalloc.DoubleFreeRefused | src/r1/nvmalloc/nvmalloc.c:656-665 | `nvfree` refuses a block that is quarantined or free and still has its header. |
| NVMalloc.NVMalloc.Store | src/r1/nvmalloc/nvmalloc.c:628-654 | A program that writes to its own blocks, header word excepted, cannot disturb the heap. |
| NVMalloc.NVMalloc.HeadersRebuildBitmap | src/r1/nvmalloc/nvmalloc.c:338-399 | In every valid state the header words in memory alone rebuild the bitmap and the three totals. |
| NVMalloc.NVMalloc.constructor | src/r1/nvmalloc/nvmalloc.c:586-619 | Sets up a valid empty heap: nothing in use, nothing queued, 65 empty lists, the mapped end and the waiting time as given. |
| SpanClock.Fairness | src/r2/HPN/hpnmalloc.c:667-716 | Between two hand-outs of a block every other block that was free at the first is handed out, for any interleaving of requests, frees and refusals. |
| SpanClock.WearBoundsHandOuts | src/r2/HPN/hpnmalloc.c:667-716 | Since `span_init` every block has been handed out at most the increase of `wear_count` plus one times. |
| SpanClock.WhatARequestGets | src/r2/HPN/hpnmalloc.c:674-715 | A request with a free block at or after the hand gets the first such block and costs no wear; any other costs one unit and gets the first free block of all, or nothing at the threshold. The hand then stands behind the block. |
| SpanClock.WearCountsWraps | src/r2/HPN/hpnmalloc.c:674-679 | Over every run `wear_count` grows by the number of requests made with no free block at or after the hand. |
| SpanClock.FirstRound | src/r2/HPN/hpnmalloc.c:441-452 | A span just set up hands out its blocks from the first to the last, without wear. |
| SpanClock.RefusedOnlyAtThreshold | src/r2/HPN/hpnmalloc.c:674-699 | A request is refused if and only if no free block lies at or after the hand and the wear counter reaches the threshold; then only the counter changes. |
| SpanClock.Span.ClockAllocate | src/r2/HPN/hpnmalloc.c:667-716 | The bit manipulation equals the clock step, whose block, hand, wear and refusal `SpanClock.WhatARequestGets` fixes; the address is that of the block. |
| SpanClock.Span.Lookup | src/r2/HPN/hpnmalloc.c:701-713 | Mask, isolation and table lookup find the least free block at or after the hand. |
| SpanClock.Span.Malloc | src/r2/HPN/hpnmalloc.c:755-767 | The free count stays the number of set bits, and the address lies wholly in the page. |
| SpanClock.Span.Free | src/r2/HPN/hpnmalloc.c:844-891 | The address gives the block number back; the block becomes free again and nothing else changes, unless the span leaves. |
| SpanClock.Span.Init | src/r2/HPN/hpnmalloc.c:441-452 | A fresh span has exactly its blocks free, as many as fit in the page, and the hand at the start; wear is kept. |
| SpanClock.BlocksFit | src/r2/HPN/hpnmalloc.c:715 | Every block of every category lies wholly inside the page. |
| SpanClock.PageHolds | src/r2/HPN/hpnmalloc.c:447 | A page holds between 1 and 64 blocks of every category, and no more would fit. |
| SpanClock.IndexRecovered | src/r2/HPN/hpnmalloc.c:879 | Dividing an offset by the block size gives the block number back. |
| BitScan.LookupFindsLowest | src/r2/HPN/hpnmalloc.c:703-712 | For every word with a set bit the lookup with its 32-bit split gives the lowest one. |
| BitScan.TableFindsBit | src/r2/HPN/hpnmalloc.c:20-24 | The multiplication and table give the position of every single bit. |
| BitScan.LowestAlone | src/r2/HPN/hpnmalloc.c:703 | `b & (~b + 1)` leaves exactly the lowest set bit. |
| BitScan.FullMap | src/r2/HPN/hpnmalloc.c:451 | `MASK >> (64 - n)` marks blocks 0 to n - 1 and no others. |
| BitScan.MaskBits | src/r2/HPN/hpnmalloc.c:701-702 | `MASK << h` keeps exactly the bits from h on. |
| BitScan.ClearBits | src/r2/HPN/hpnmalloc.c:714 | The mask of `span_clock_allocate` clears one bit and no other. |
| BitScan.SetBits | src/r2/HPN/hpnmalloc.c:880 | The mask of `small_free` sets one bit and no other. |
| CentralPool.AcquireKeeps | src/r1/HPN/hpnmalloc.c:460-509 | After an acquire the spans handed out, listed and stranded partition the pages carved so far, and list k holds spans of k + 1 pages only. |
| CentralPool.ReturnKeeps | src/r1/HPN/hpnmalloc.c:75-95 | After a return the same partition holds. |
| CentralPool.AcquireIsSafe | src/r1/HPN/hpnmalloc.c:460-509 | An acquired span is new, has exactly `index + 1` pages and overlaps no span handed out; pages are left behind if and only if the pool must grow, and then they are the rest of the region. |
| CentralPool.WhereFrom | src/r1/HPN/hpnmalloc.c:460-509 | The untouched region serves while it keeps a page; then the span longest in the first list that has long enough ones, whose rest goes behind its own list; then a new region. No other list moves. |
| CentralPool.WhereTo | src/r1/HPN/hpnmalloc.c:75-95 | A returned span goes behind every span in the list of its length, and nothing else moves. |
| CentralPool.PagesLostIff | src/r1/HPN/hpnmalloc.c:465-498 | Pages are lost if and only if the region has no more than `index + 1` pages left and every list from `index` on is empty; the loss is the rest of the region, 1 to `index + 1` pages. |
| CentralPool.TenthRequestLoses | src/r1/HPN/hpnmalloc.c:465 | Ten requests for 256 pages to a new pool of 2560 leave 256 pages behind: the tenth finds just what it asks for and grows the pool. |
| CentralPool.ReturnIsSafe | src/r1/HPN/hpnmalloc.c:75-95 | A returned span, and no other, leaves the ones handed out. |
| CentralPool.LiveSpansAreTheLedger | src/r1/HPN/hpnmalloc.c:460-532 | Over every run the spans handed out are exactly those acquired and not returned. |
| CentralPool.OneTailPerRegion | src/r1/HPN/hpnmalloc.c:349-382 | Each region of 2560 pages loses at most one tail, of at most 256 pages. |
| CentralPool.LastListEmpty | src/r1/HPN/hpnmalloc.c:484-487 | The last list is always empty, so the special case of `span_split` for it never arises. |
| CentralPool.SplitReady | src/r1/HPN/hpnmalloc.c:429-453 | A span found in a larger list has enough pages, and the rest starts where no span does. |
| CentralPool.HeadAddrInjective | src/r1/HPN/hpnmalloc.c:436-440 | Different pages have headers at different addresses, and stepping headers steps pages. |
| CentralPool.IndexOfPage | src/r1/HPN/hpnmalloc.c:61-65 | Any address inside a page has the region and index of that page. |
| CentralPool.PagePool.ExtractHeader | src/r1/HPN/hpnmalloc.c:31-73 | For any address in the first page of a span handed out the index leads to that span's header, across all growths. |
| CentralPool.PagePool.ResetSpanMap | src/r1/HPN/hpnmalloc.c:384-403 | One entry of the index is set; no other page loses its entry. |
| CentralPool.PagePool.SpanInit | src/r1/HPN/hpnmalloc.c:405-427 | A span just acquired is set up and entered in the index; every other page keeps its header, every other entry stays. |
| CentralPool.PagePool.SpanBack | src/r1/HPN/hpnmalloc.c:75-95 | Equals the specification's return. |
| CentralPool.PagePool.CentralPoolGrow | src/r1/HPN/hpnmalloc.c:349-382 | Equals the specification's growth; old headers and old regions of the index are kept word for word. |
| CentralPool.PagePool.SplitFirst | src/r1/HPN/hpnmalloc.c:429-453 | Equals the specification's split. |
| CentralPool.PagePool.AcquireSpan | src/r1/HPN/hpnmalloc.c:460-509 | The search over lists, split and growth equal the specification's acquire, whose source of pages `CentralPool.WhereFrom` fixes; no span set up before loses its header. |
| CentralPool.PagePool.AcquireLarge | src/r1/HPN/hpnmalloc.c:526-532 | A large span of `index + 1` pages is handed out and found through the index. |
| CentralPool.PagePool.AcquireSmall | src/r1/HPN/hpnmalloc.c:511-515 | A one-page span is handed out and found through the index. |
| PriorityQueue.Queue.Insert | src/r2/TCNVMalloc/src/pq.c:98-109 | The queue gains the item and nothing else, stays a heap, and copies the slots the cost function says. |
| PriorityQueue.Queue.DelMin | src/r2/TCNVMalloc/src/pq.c:81-96 | The item `pq_min` returns, a least one, leaves and nothing else does; an empty queue stays as it is. |
| PriorityQueue.Queue.Min | src/r2/TCNVMalloc/src/pq.c:26-32 | NULL on an empty queue, else the item in slot 1, which is a least one. |
| PriorityQueue.Queue.Swim | src/r2/TCNVMalloc/src/pq.c:59-64 | Restores heap order from a heap open at one place and keeps the items. |
| PriorityQueue.Queue.Sink | src/r2/TCNVMalloc/src/pq.c:66-79 | Restores heap order from a heap open at one place and keeps the items. |
| PriorityQueue.Queue.Resize | src/r2/TCNVMalloc/src/pq.c:34-51 | Keeps all items; the exit for a size too small is excluded by its callers. |
| PriorityQueue.Queue.constructor | src/r2/TCNVMalloc/src/pq.c:3-16 | An empty queue with one slot more than asked for. |
| PriorityQueue.RootIsLeast | src/r2/TCNVMalloc/src/pq.c:26-32 | In heap order the root is a least item. |
| PriorityQueue.Drain | src/r2/TCNVMalloc/src/pq.c:26-96 | Calling `pq_min` and `pq_delmin` until the queue is empty yields all its items, in order. |
| PriorityQueue.SwimStep | src/r2/TCNVMalloc/src/pq.c:60-62 | One exchange upwards moves the open place to the parent. |
| PriorityQueue.SinkStep | src/r2/TCNVMalloc/src/pq.c:70-76 | One exchange downwards moves the open place to the lesser child. |
| PriorityQueue.CostKeepsRoom | src/r2/TCNVMalloc/src/pq.c:81-109 | There is always a free slot, so `resize` never sees a size too small. |
| PriorityQueue.SlotsFollowItems | src/r2/TCNVMalloc/src/pq.c:81-109 | Over any sequence of operations the slots are no more than at the start, or four for every item in the queue. |
| PriorityQueue.StaysTight | src/r2/TCNVMalloc/src/pq.c:81-109 | Four slots for every item are kept once reached; a deletion that leaves items halves the slots while there are more; growing gives twice the items. |
| PriorityQueue.ResizingIsAmortized | src/r2/TCNVMalloc/src/pq.c:34-109 | Over any sequence of operations the slots copied are at most 6 per operation plus the initial capacity. |
| ChunkHeap.OneHome | src/r2/TCNVMalloc/src/tcnvmalloc.c:198-263 | Every chunk is in exactly one foreground slot, or in the background list of its own class, or in the free list, or nowhere; nowhere exactly when all its blocks are in use. |
| ChunkHeap.MallocIsSafe | src/r2/TCNVMalloc/src/tcnvmalloc.c:269-295 | Keeps that invariant; the block handed out was not in use, all others stay in use, and no chunk changes its class. |
| ChunkHeap.FreeIsSafe | src/r2/TCNVMalloc/src/tcnvmalloc.c:226-263 | Keeps that invariant; the freed block, and no other, leaves the ones in use. |
| ChunkHeap.LiveBlocksAreTheLedger | src/r2/TCNVMalloc/src/tcnvmalloc.c:226-295 | Over every run the blocks in use are exactly those handed out and not returned. |
| ChunkHeap.ReplaceKeeps | src/r2/TCNVMalloc/src/tcnvmalloc.c:198-224 | Filling a slot gives it the chunk longest in the background list of its class, else the one longest in the free list, else a new one; the chunk has a free block and no other slot or list changes. |
| ChunkHeap.ReadyKeeps | src/r2/TCNVMalloc/src/tcnvmalloc.c:273-286 | After the dummy is replaced the slot holds a chunk with a free block, so one retry is enough. |
| ChunkHeap.MallocRefills | src/r2/TCNVMalloc/src/tcnvmalloc.c:269-295 | The block comes from the chunk in the slot, or from the first it is filled with; the slot is filled once for the dummy and once when the last block leaves, from the background list, the free list and the pool in this order, each from its front. |
| ChunkHeap.MallocTakesOldest | src/r2/TCNVMalloc/src/tcnvmalloc.c:167-180 | The block handed out is the one longest free in that chunk, whose other free blocks stay in order. |
| ChunkHeap.PoolIsLast | src/r2/TCNVMalloc/src/tcnvmalloc.c:198-219 | The pool gives a chunk if and only if background list and free list do not last for the refills; then every chunk of the class with a free block is in a slot. |
| ChunkHeap.RunGrows | src/r2/TCNVMalloc/src/tcnvmalloc.c:198-219 | Over every run the pool has grown only if some request found fewer chunks in the two lists than it had to fill its slot with. |
| ChunkHeap.WhereFreed | src/r2/TCNVMalloc/src/tcnvmalloc.c:226-263 | A freed block goes behind the free ones of its chunk; a chunk that was all in use goes behind those in the background list of its class; one of that list without live blocks goes behind those in the free list. Nothing else moves. |
| ChunkHeap.ChunkHolds | src/r2/TCNVMalloc/src/tcnvmalloc.c:182-186 | A chunk has as many blocks as fit, and no more. |
| ChunkHeap.NextClass | src/r2/TCNVMalloc/src/tcnvmalloc.c:108-120 | From 16 to 65536 bytes each class is larger than the one before, by half at most. |
| ChunkHeap.ChunkIsQueue | src/r2/TCNVMalloc/src/tcnvmalloc.c:167-192 | A chunk is a first-in first-out queue of its free blocks: untouched blocks first, then recycled ones, longest free first. |
| ChunkHeap.LiveAndFree | src/r2/TCNVMalloc/src/tcnvmalloc.c:167-192 | Blocks in use plus `free_tot_cnt` make `blk_cnt`. |
| ChunkHeap.TakeBlockKeeps | src/r2/TCNVMalloc/src/tcnvmalloc.c:167-180 | A block taken was free; counters and blocks agree again. |
| ChunkHeap.PutBlockKeeps | src/r2/TCNVMalloc/src/tcnvmalloc.c:226-229 | A block put back was in use; counters and blocks agree again. |
| ChunkHeap.WearCountsHandOuts | src/r2/TCNVMalloc/src/tcnvmalloc.c:286-295 | A chunk's wear count goes up by one exactly when the chunk hands out a block, a chunk new from the pool starts at zero, and a free leaves all counts alone. |
| ChunkHeap.LargeEnoughIff | src/r2/TCNVMalloc/src/tcnvmalloc.c:208-212 | The block is smaller than its class promises if and only if the slot holds a chunk of a smaller class, or slot and background list are empty and the free list begins with such a chunk. |
| ChunkHeap.WrongClassIsReached | src/r2/TCNVMalloc/src/tcnvmalloc.c:208-212 | After two requests and two frees of 32768 bytes a request for 65536 bytes returns a block of a chunk of 32768-byte blocks. |
| ChunkHeap.ClassSizeGrows | src/r2/TCNVMalloc/src/tcnvmalloc.c:108-120 | The sizes of the 47 classes grow strictly. |
| TCNVMalloc.LocalHeap.Malloc | src/r2/TCNVMalloc/src/tcnvmalloc.c:269-295 | The retry loop equals the specification, goes round twice if the slot holds the dummy and else once, and never returns NULL. |
| TCNVMalloc.LocalHeap.Free | src/r2/TCNVMalloc/src/tcnvmalloc.c:387-401 | NULL changes nothing; otherwise the header found from the address is the block's own, and the state change equals the specification. |
| TCNVMalloc.LocalHeap.FreeSmall | src/r2/TCNVMalloc/src/tcnvmalloc.c:226-263 | The switch over the chunk's state equals the specification. |
| TCNVMalloc.LocalHeap.ReplaceForeground | src/r2/TCNVMalloc/src/tcnvmalloc.c:198-224 | Equals the specification's replacement, whose order `ChunkHeap.ReplaceKeeps` fixes; no existing chunk header is lost. |
| TCNVMalloc.LocalHeap.AcquireChunk | src/r2/TCNVMalloc/src/tcnvmalloc.c:310-349 | The pool hands out the next chunk, inside the mapping, and grows only when it no longer fits. |
| TCNVMalloc.LocalHeap.constructor | src/r2/TCNVMalloc/src/tcnvmalloc.c:411-435 | All slots hold the dummy and the pool starts at the first multiple of the chunk size in the mapping. |
| TCNVMalloc.ChunkHeader.Init | src/r2/TCNVMalloc/src/tcnvmalloc.c:182-192 | All blocks of the class are in the untouched part. |
| TCNVMalloc.ChunkHeader.AllocObj | src/r2/TCNVMalloc/src/tcnvmalloc.c:167-180 | The address is that of the block the specification takes; NULL for the dummy. |
| TCNVMalloc.HeaderFound | src/r2/TCNVMalloc/src/tcnvmalloc.c:194-196 | From any byte of any block rounding down to a multiple of the chunk size gives the address of its chunk's header. |
| TCNVMalloc.BlocksApart | src/r2/TCNVMalloc/src/tcnvmalloc.c:167-192 | Two blocks in use never share a byte. |

## Left out

- System calls: `mmap`, `mremap`, `posix_fallocate`, files, cache flushes and fences; failed mappings and failed `malloc` or `realloc`.
- The builds of NVMalloc with a CRC, without a checksum, or with a heap that moves (`_GNU_SOURCE`).
- Sizes near 2^32: NVMalloc is modelled up to `Headers.MAX_UNITS` units, where no 32-bit size overflows; the 64-bit tick counter does not wrap.
- NVMalloc.NVMalloc.Free: takes live blocks, or addresses whose header does not check out; an address whose forged or leftover header happens to check out is not covered.
- NVMalloc.DoubleFreeRefused: says nothing of a block whose header has been merged away or reused, because such a block is no longer in the heap.
- The nodes of the hint lists, span lists and chunk lists: they are sequences held by the class; the quarantine queue is the linked list it is in the source.
- Memory inside a unit: a unit is its size word, its link and its time; the program's own bytes are only the cells it may overwrite.
- Locks, threads, thread-local heaps and frees from other threads.
- The thread caches of HPNMalloc: the 16 spans fetched ahead, the lists by wear, `max_wear_page_index`, and large blocks on top of `acquire_span_from_centralpool1`.
- SpanClock.Span.Free: when the last block comes back the span is handed to another list and set up anew; where it goes is not modelled.
- The shift by 64 that `span_clock_allocate` computes when the hand stands behind block 63: its value is not used.
- Wear order of the central lists of the later HPNMalloc: the loop that would keep it sorted clears one and the same entry, so there is no order to state.
- CentralPool.PagePool.AcquireSpan: when the pool must grow, it needs room in the 512 entries of the region table, which the source does not check; the same holds for the two methods that call it.
- Span headers lie in an array of records, one for every page, with addresses computed from the page.
- NAVA chunks, `reap_chunk` and the priority queue inside the pool: the test for worn chunks compares 0 or 1 with 50000, so the queue stays empty.
- `size2cls` and its two tables; `TCNVMalloc.LocalHeap.Malloc` starts from the class. `large_malloc` and `page_free` are system calls around one header.
- The cost formulas in `wtcpa.c`, the copies of these allocators in other directories, the benchmarks and the tools.
