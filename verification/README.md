# Data structures, allocators and protocols of a C++ study repository

This project models the parts of the repository that carry real invariants and proves what they are for. Each `.dfy` file
is one module and one component.

- **Market data cache** (`MarketCache`, `Buckets`, `Histogram`, `SegmentTree`, `Fenwick`, `Modular`): a sliding window of
  n 100 ms buckets in a circular buffer, indexed by a segment tree and one Fenwick tree per histogram bin. The number of
  buckets and of bins are parameters (36,000 and 100 in the program). A class holds the arrays and is updated in place;
  every query is proved equal to a naive scan over the entries that survive.
- **Limit order book** (`OrderBook`, `OrderArena`, `Matching`): order cells are addressable memory shared by intrusive
  doubly linked level queues and the allocator's free list. `Matching` is the reference: one resting order at a time,
  best price first, oldest first. The class methods are proved to trade, rest, cancel and modify exactly as it says.
- **First-fit heap allocator** (`HeapAllocator`, `HeapBlocks`, `HeapMemory`): block headers over an address range that
  `sbrk` extends contiguously. Headers are a map and at the same time bytes in raw memory; the two always agree, and
  `get_block`, the free flag, and the size behind an unknown pointer are read from the bytes. The split test is read as an
  integer comparison, which is what the guard in `split_block` is meant to be (see below).
- **Concurrent protocols**, each a step system over any number of threads, with sequentially consistent interleavings and
  one step per atomic access or critical section: the tagged lock-free stack (`LockFreeStack`), `SharedPtr` and `WeakPtr`
  counts (`SharedPtr`), the bounded blocking queue (`BoundedQueue`), the writer-priority mutex (`WriterPriorityLock`),
  the hierarchical mutex (`HierarchicalMutex`) and the single-producer single-consumer ring (`SpscRing`). The steps are
  functions on a state value, and theorems speak of every run. Beside each step system stands a class that updates its
  fields in place. For the stack, the two mutexes and the queue its methods may be called by any thread in any order, and
  each is proved to be its step. For the control block and the ring they are whole undisturbed calls, proved by the lemmas
  about the steps to keep the same counters or invariant and to return what they should.
- **TCP chat framing** (`ChatFraming`): the length-prefixed serializer and the incremental reassembly loop.
- **Vector** (`Vector`): a buffer whose slots are raw or live, shifted in place, growing by doubling.

Assumptions: counters and times do not overflow their fixed widths (level totals below 2^32, request sizes plus header
below 2^64, Fenwick nodes, reference counts and stack tags, times away from the int64 limits); spreads, prices and
averages are reals without rounding, spreads lie within 2^31 bin widths of the histogram's minimum, and the infinities
that stand for "no minimum" and "no maximum" are an absent value; `sbrk` is contiguous and starts 8-aligned, and bytes
that the allocator reads at a pointer or through a header that is none are mapped; clients pass `unlock` only a mutex they
hold (for a hierarchical mutex: unless its own check already refuses), and keep a handle alive while they copy or lock it.
Releases of handles that lie in an object being deleted are steps of another thread of the model. Each order book has an
allocator of its own where the program has one for all. `nth_element` and `memcpy` are used by their library contracts.

## Where the code does less than it is meant to

Each of these is proved, with the exact condition under which the code does what it should:

- `split_block` guards its split with a `size_t` that wraps. It keeps the block list intact, and then splits as intended,
  if and only if the block has room for the request and a second header (`HeapBlocks.CSplitTilesIff`). For a request that
  makes the heap grow this holds if and only if it is at most 4032 bytes (`HeapBlocks.ExtendThenCSplitIff`);
  `HeapBlocks.ExactFitBreaksC` is a first request that breaks the list. The allocator class uses the intended test.
- `my_realloc` does not look at the free flag. For a pointer at a block of the list, or at bytes that pass for a header, a
  non-null answer is a live block if and only if the pointer was one or the size read there is too small for the request,
  as long as no stray write happens (`HeapAllocator.Heap.Realloc`); `HeapAllocator.FreedBlockComesBack` is a freed block
  that comes back still free. At a block of the list there never is a stray write. At a header that a merge has swallowed
  there is one exactly when `ReallocsAstray` says so: among others when the header is too small and the block it still
  names as its successor is free and makes up for the rest (`HeapAllocator.SwallowedAbsorbs`), and none when the swallowing
  block is too small for the request and no free successor is read (`HeapAllocator.StaleInSmallBlockMoves`). `my_free` refuses a free block, and a swallowed header
  for as long as its bytes are untouched (`HeapAllocator.SwallowedReads`).
- `size()` of the ring is exact at the load of the head if and only if the pushes since the load of the tail are none or whole
  laps, and exact at the load of the tail if and only if the pops are (`SpscRing.SizeIsExactIff`); `SpscRing.SizeCanBeWrong`
  is a run in which it reports 2 for a ring that never held more than one value.
- The bounded queue with capacity zero puts producers and consumers to sleep for good; it never does if and only if the
  capacity is positive (`BoundedQueue.NeverAllAsleepIff`, `BoundedQueue.CapacityZeroStalls`).
- A chat message survives framing if and only if its body is shorter than 2^32 bytes (`ChatFraming.RoundTripIff`,
  `ChatFraming.TooLongIsTruncated`).
- `insert` of zero copies in front of existing elements move-assigns each of them to itself, after which the value of a
  general element type is unspecified; such an element counts as moved-from. Insertion is right if and only if there is a
  copy to insert or the position is the end (`Vector.Vector.Insert`, `Vector.NoCopiesLoseTheElement`).
- Copy assignment of `SharedPtr` resets its target before it reads its source. It is safe if and only if nobody releases the
  source handle between the two, the destructor of the target's object included (`SharedPtr.AssignmentIsSafeIff`);
  `SharedPtr.SourceInsideDies` is an assignment that is not.
- `spread_to_bin` casts to int before it clamps. The cast is sure to find the bin if and only if the quotient fits an int
  (`Histogram.CastFindsBinIff`, `Histogram.HugeSpreadMayGoFirst`); the cache takes it to do so.

## Model

| member | source | states |
|---|---|---|
| MarketCache.MarketDataCache.Create | prep_interview/assignments/Pulsar/market_cache/src/market_data_cache.cpp:201-208 | an empty histogram range is refused, any other gives a consistent cache over exactly that range |
| MarketCache.MarketDataCache.constructor | prep_interview/assignments/Pulsar/market_cache/src/market_data_cache.cpp:201-208 | a new cache of any bucket count and bin count is consistent and stands for an empty window |
| MarketCache.MarketDataCache.Insert | prep_interview/assignments/Pulsar/market_cache/src/market_data_cache.cpp:430-489 | insertion takes the cache from the old window and entries to exactly those of the abstract step: missing spreads and entries older than the window change nothing, an empty window is put around the bucket, a newer bucket becomes the end and drags the start to within n buckets, evicting what falls out |
| MarketCache.MarketDataCache.RemoveUpTo | prep_interview/assignments/Pulsar/market_cache/src/market_data_cache.cpp:495-527 | removal drops exactly the entries of the buckets up to the limit; the window then starts right behind the limit, is empty when nothing is left, and stays as it is when the limit lies before it |
| MarketCache.RunStaysInWindow | prep_interview/assignments/Pulsar/market_cache/src/market_data_cache.cpp:430-527 | after any run of insertions and removals all entries lie in a window of at most n buckets, and an empty window holds none |
| MarketCache.StepCountsExactly | prep_interview/assignments/Pulsar/market_cache/src/market_data_cache.cpp:430-527 | as multisets: an accepted insertion adds exactly one copy of its entry, a refused one and a missing spread none; entries at least n buckets old, or at most the removal limit, are all gone and every other is kept as often as before |
| MarketCache.RefusedAfterRemovalIff | prep_interview/assignments/Pulsar/market_cache/src/market_data_cache.cpp:430-527 | after a removal an insertion is refused if and only if the removal left the window something and the insertion is older than the window or not newer than the limit; after a removal of everything, every insertion is taken |
| MarketCache.MarketDataCache.AdvanceWindow | prep_interview/assignments/Pulsar/market_cache/src/market_data_cache.cpp:443-459 | moving the window end evicts exactly the entries older than the new start, whether slot by slot or a whole lap at once |
| MarketCache.MarketDataCache.EvictBefore | prep_interview/assignments/Pulsar/market_cache/src/market_data_cache.cpp:445-457 | every slot keeps its bucket or is cleared according to its absolute bucket only, on both eviction branches |
| MarketCache.MarketDataCache.ClearBucketAt | prep_interview/assignments/Pulsar/market_cache/src/market_data_cache.cpp:277-291 | clearing a bucket takes out of total, Fenwick trees and segment tree exactly what its insertions put in |
| MarketCache.MarketDataCache.Store | prep_interview/assignments/Pulsar/market_cache/src/market_data_cache.cpp:464-488 | storing a spread appends one entry and leaves every index consistent; the stale-bucket branch is never taken |
| MarketCache.SegRangeIsNaive | prep_interview/assignments/Pulsar/market_cache/src/market_data_cache.cpp:356-381 | the segment-tree range query, straight or wrapped, is the count, lowest and highest of a naive scan over surviving entries |
| MarketCache.RowWindowIsNaive | prep_interview/assignments/Pulsar/market_cache/src/market_data_cache.cpp:383-405 | the Fenwick sums over the slots of a range count the surviving spreads of that bin, wrapped or not |
| MarketCache.MarketDataCache.QueryFwRange | prep_interview/assignments/Pulsar/market_cache/src/market_data_cache.cpp:383-405 | for every bin and range the answer is the number of surviving spreads of that bin in the range |
| MarketCache.MarketDataCache.CountRange | prep_interview/assignments/Pulsar/market_cache/src/market_data_cache.cpp:538-545 | equals the number of surviving entries a naive scan finds in the range |
| MarketCache.MarketDataCache.MinSpread | prep_interview/assignments/Pulsar/market_cache/src/market_data_cache.cpp:551-559 | is the least surviving spread of the range, absent exactly when there is none |
| MarketCache.MarketDataCache.MaxSpread | prep_interview/assignments/Pulsar/market_cache/src/market_data_cache.cpp:561-569 | is the greatest surviving spread of the range, absent exactly when there is none |
| MarketCache.MarketDataCache.EntryCount | prep_interview/assignments/Pulsar/market_cache/src/market_data_cache.cpp:533-536 | the running total is the number of surviving entries |
| MarketCache.TotalIsEntryCount | prep_interview/assignments/Pulsar/market_cache/src/market_data_cache.cpp:533-536 | bucket counts over the whole buffer add up to the surviving entries |
| MarketCache.MarketDataCache.CollectSpreads | prep_interview/assignments/Pulsar/market_cache/src/market_data_cache.cpp:407-424 | collects exactly the surviving spreads of the range, as a multiset |
| MarketCache.MarketDataCache.SpreadPercentiles | prep_interview/assignments/Pulsar/market_cache/src/market_data_cache.cpp:575-621 | each answer, for p of 10, 50 and 90 percent, is the midpoint of a bin with less than p of all spreads below it and at least p up to and including it; the bin loop always reaches the 90% rank |
| MarketCache.MarketDataCache.SpreadPercentilesExact | prep_interview/assignments/Pulsar/market_cache/src/market_data_cache.cpp:627-667 | each answer, for p of 10, 50 and 90 percent, is a spread of the range with less than p of all spreads below it and at least p at or below it, after three successive partial selections of one buffer |
| MarketCache.SelectRank | prep_interview/assignments/Pulsar/market_cache/src/market_data_cache.cpp:654-664 | a partial selection of the buffer's tail still yields the rank over the whole multiset |
| MarketCache.ApproximateNearExact | prep_interview/assignments/Pulsar/market_cache/src/market_data_cache.cpp:575-667 | the approximate percentile is the midpoint of the bin holding the exact one of the same rank, and within half a bin of it inside the histogram range |
| Fenwick.LowBitBounds | prep_interview/assignments/Pulsar/market_cache/src/market_data_cache.cpp:334-344 | p & -p on two's complement is positive and at most p |
| Fenwick.LowBitDoubles | prep_interview/assignments/Pulsar/market_cache/src/market_data_cache.cpp:334-337 | p + (p & -p) has at least twice the low bit of p, so the update walk is logarithmic |
| Fenwick.NextCoveringNode | prep_interview/assignments/Pulsar/market_cache/src/market_data_cache.cpp:334-337 | p += p & -p visits exactly the nodes that cover a position: none in between does |
| Fenwick.Update | prep_interview/assignments/Pulsar/market_cache/src/market_data_cache.cpp:334-337 | restores 'node p sums (p - lowbit(p), p]' for the changed row and touches no other bin's nodes |
| Fenwick.Prefix | prep_interview/assignments/Pulsar/market_cache/src/market_data_cache.cpp:339-344 | is the sum of the row up to a position |
| Fenwick.Range | prep_interview/assignments/Pulsar/market_cache/src/market_data_cache.cpp:346-350 | for every l and r equals the sum of the row over l..r, and 0 when l > r |
| SegmentTree.RootFits | prep_interview/assignments/Pulsar/market_cache/include/market_data_cache.h:38-38 | started at (1, 0, n - 1), every node index the recursion can visit is below 4n, for every n |
| SegmentTree.Update | prep_interview/assignments/Pulsar/market_cache/src/market_data_cache.cpp:297-315 | after one leaf changed, repairs every node on its path and writes nothing outside the subtree |
| SegmentTree.QueryIsFold | prep_interview/assignments/Pulsar/market_cache/src/market_data_cache.cpp:317-328 | on a consistent tree the query is the fold of the leaves in the intersection of node range and query range |
| SegmentTree.CombineMeaning | prep_interview/assignments/Pulsar/market_cache/src/market_data_cache.cpp:310-314 | the combined node counts both sides and takes the extremes over both |
| Histogram.BinMonotone | prep_interview/assignments/Pulsar/market_cache/include/market_data_cache.h:90-97 | the bin of the truncated quotient is monotone, clamping included |
| Histogram.CastFindsBinIff | prep_interview/assignments/Pulsar/market_cache/include/market_data_cache.h:90-97 | the cast to int is sure to yield that bin if and only if the quotient fits an int |
| Histogram.HugeSpreadMayGoFirst | prep_interview/assignments/Pulsar/market_cache/include/market_data_cache.h:90-97 | concretely, with the default histogram a spread of 3e9 belongs to the last bin and may be counted in the first |
| Histogram.BinHoldsItsInterval | prep_interview/assignments/Pulsar/market_cache/include/market_data_cache.h:90-97 | a bin holds the spreads of its half-open interval, the outer bins everything beyond as well |
| Histogram.BinMidIsClose | prep_interview/assignments/Pulsar/market_cache/include/market_data_cache.h:90-100 | inside the histogram range a bin midpoint is within half a bin width |
| Histogram.BinCountsAddUp | prep_interview/assignments/Pulsar/market_cache/src/market_data_cache.cpp:601-618 | bin counts accumulate from none to all spreads |
| Histogram.RankFixesBin | prep_interview/assignments/Pulsar/market_cache/src/market_data_cache.cpp:601-618 | the bin in which the cumulative count reaches a rank is the bin of the element of that rank |
| Histogram.NthElement | prep_interview/assignments/Pulsar/market_cache/src/market_data_cache.cpp:654-655 | the library contract of nth_element: a permutation of the tail with everything before k no larger and after k no smaller |
| Histogram.RanksOrdered | prep_interview/assignments/Pulsar/market_cache/src/market_data_cache.cpp:590-595 | the ranks of 10, 50 and 90 percent are p * n rounded up, and lie in 1..n and in order |
| Histogram.RankIsCeiling | prep_interview/assignments/Pulsar/market_cache/src/market_data_cache.cpp:644-649 | for every positive fraction and count the rank is at least 1 and p * n rounded up |
| Histogram.QuantileIsUnique | prep_interview/assignments/Pulsar/market_cache/src/market_data_cache.cpp:627-667 | there is only one spread with less than p of all below it and at least p at or below it, so the exact answers are determined |
| Histogram.SummaryMeaning | prep_interview/assignments/Pulsar/market_cache/src/market_data_cache.cpp:475-479 | a bucket's count, least and greatest describe its spreads |
| Buckets.ToAbsBucketIsFloor | prep_interview/assignments/Pulsar/market_cache/src/market_data_cache.cpp:264-268 | time to bucket is floor division by 100 ms on both sides of the epoch, from truncating division |
| Buckets.ToLocal | prep_interview/assignments/Pulsar/market_cache/src/market_data_cache.cpp:270-275 | the slot is the true remainder also for negative buckets, from the truncating one |
| Buckets.SlotHoldsOwnBucket | prep_interview/assignments/Pulsar/market_cache/src/market_data_cache.cpp:417-422 | in a window of at most n buckets each slot holds its own bucket or nothing |
| Buckets.SpreadsAreTheRange | prep_interview/assignments/Pulsar/market_cache/src/market_data_cache.cpp:538-545 | the naive scan that every query is compared with finds each spread as often as there are entries with it whose bucket lies in the range, both ends included |
| Buckets.RangeSlotsAreWindow | prep_interview/assignments/Pulsar/market_cache/src/market_data_cache.cpp:366-380 | whole buffer, straight run or wrapped pair of slots hold exactly the buckets of the range |
| Buckets.EvictionKeepsNewer | prep_interview/assignments/Pulsar/market_cache/src/market_data_cache.cpp:445-457 | eviction by absolute bucket number leaves exactly the entries not older than the new start |
| Matching.SweepLevel | prep_interview/trading-systems/order-book/OrderBook.cc:119-129 | taking a whole level at once equals matching its orders one after the other |
| Matching.MatchGuarantees | prep_interview/trading-systems/order-book/OrderBook.cc:105-161 | the incoming quantity is what is matched and what is left, prices only disappear, and quantity stays unmatched only when no crossing price is left |
| Matching.FillsWithinLimit | prep_interview/trading-systems/order-book/OrderBook.cc:105-148 | in plain numbers: against an incoming bid asks trade at or below its limit and lowest first, against an incoming ask bids at or above it and highest first; each fill names an order resting at its price; what stays unmatched meets only prices beyond the limit |
| Matching.RestingConserved | prep_interview/trading-systems/order-book/OrderBook.cc:105-161 | on the resting side, for every price and for every order at it, the quantity left and the quantity filled add up to the quantity before |
| Matching.HeldIsTotal | prep_interview/trading-systems/order-book/OrderBook.cc:105-161 | counting all orders of a queue gives its total, so the row above speaks of level totals as well |
| Matching.PricePriority | prep_interview/trading-systems/order-book/OrderBook.cc:105-148 | a price is touched only after every better one, lower for asks and higher for bids, is gone |
| Matching.TimePriority | prep_interview/trading-systems/order-book/OrderBook.cc:131-146 | at each price the orders left are a suffix of the queue, only its oldest reduced |
| Matching.PartialLevelWorth | prep_interview/trading-systems/order-book/OrderBook.cc:186-190 | a quantity smaller than the best level trades entirely at that price |
| OrderBook.OrderBook.MatchOrder | prep_interview/trading-systems/order-book/OrderBook.cc:105-161 | whole-level sweeps plus per-order fills give the same fills (a drained level in any order), resting book and matched quantity as the one-order-at-a-time matcher; the rest is queued last at its price; all invariants kept |
| OrderBook.OrderBook.MatchLoop | prep_interview/trading-systems/order-book/OrderBook.cc:106-148 | the loop terminates where the matcher stops, with the same fills |
| OrderBook.OrderBook.DrainLevel | prep_interview/trading-systems/order-book/OrderBook.cc:119-128 | walking a level from its youngest order removes every order, frees every cell, forgets every id |
| OrderBook.OrderBook.FillFromTail | prep_interview/trading-systems/order-book/OrderBook.cc:130-146 | filling from the oldest order with a partial last fill is a run of the one-by-one matcher |
| OrderBook.OrderBook.AddOrder | prep_interview/trading-systems/order-book/OrderBook.cc:196-205 | a known id is refused without effect, any other order is matched; what is left is appended to the queue at its price, and its side is otherwise as it was |
| OrderBook.OrderBook.CancelOrder | prep_interview/trading-systems/order-book/OrderBook.cc:207-231 | takes item i, the order of that id, out of its queue, or the whole price when it was the last one, and leaves all other prices as they were; unknown ids change nothing |
| OrderBook.OrderBook.ModifyOrder | prep_interview/trading-systems/order-book/OrderBook.cc:233-256 | to zero takes the order out, downwards writes the quantity at the same position, upwards takes it out and appends it behind all others with the new quantity; all other prices stay as they were |
| OrderBook.OrderBook.PushOrder | prep_interview/trading-systems/order-book/OrderBook.cc:68-80 | appends one order to its price on one side and changes nothing else in either book |
| OrderBook.OrderBook.RemoveOrder | prep_interview/trading-systems/order-book/OrderBook.cc:82-97 | takes exactly one order out of its queue, keeps the others in order, and gives its cell back |
| OrderBook.OrderBook.Reduce | prep_interview/trading-systems/order-book/OrderBook.cc:141-142 | lowers one order in place and its level total by as much |
| OrderBook.OrderBook.CellsPartitioned | prep_interview/trading-systems/order-book/OrderBook.cc:26-98 | in a valid book the free list and the level queues partition the carved cells; queues are proper lists with positive quantities and exact totals; no level is empty |
| OrderBook.OrderBook.MapKnowsTheBook | prep_interview/trading-systems/order-book/OrderBook.cc:100-161 | the id map knows exactly the resting orders, and each id rests in one place only |
| OrderBook.StillUncrossed | prep_interview/trading-systems/order-book/OrderBook.cc:149-159 | after matching and resting what is left, best bid stays below best ask |
| OrderBook.OrderBook.GetBest | prep_interview/trading-systems/order-book/OrderBook.cc:258-271 | the highest bid or lowest ask and the quantity resting there, absent exactly for an empty side |
| OrderBook.OrderBook.GetVWAP | prep_interview/trading-systems/order-book/OrderBook.cc:172-193 | filled quantity and average price of taking the target from a side, as the unlimited one-by-one matcher would trade |
| OrderBook.Allocator.Extend | prep_interview/trading-systems/order-book/OrderBook.cc:31-39 | carves a chunk, all of it on the free list, leaving cells in use untouched, and doubles the chunk size up to its cap |
| OrderBook.Allocator.Allocate | prep_interview/trading-systems/order-book/OrderBook.cc:48-55 | hands out a cell that was not in use and leaves cells in use untouched |
| OrderBook.Allocator.Deallocate | prep_interview/trading-systems/order-book/OrderBook.cc:56-59 | returns a cell to the free list, writing only its link |
| OrderArena.PushKeepsLevel | prep_interview/trading-systems/order-book/OrderBook.cc:68-80 | the pointer writes of adding keep prev, next, head, tail and total right, with the new order youngest |
| OrderArena.UnlinkKeepsLevel | prep_interview/trading-systems/order-book/OrderBook.cc:82-96 | the pointer writes of removing, at either end or in the middle, keep the list and total right for the remaining orders |
| OrderArena.FreeTail | prep_interview/trading-systems/order-book/OrderBook.cc:48-54 | popping the free list leaves a proper free list without the popped cell |
| OrderArena.FreePush | prep_interview/trading-systems/order-book/OrderBook.cc:56-59 | pushing a cell leaves a proper free list |
| HeapAllocator.Heap.Malloc | c_and_cpp/wangdao_c/day11/allocator/my_allocator.c:163-198 | returns an aligned block of at least the requested size, at the first block that fits or at the break, leaving every live payload's bytes alone; fails, and then changes nothing, exactly for size 0 or when nothing fits and sbrk fails; the break moves exactly when nothing fits |
| HeapAllocator.Heap.MyFree | c_and_cpp/wangdao_c/day11/allocator/my_allocator.c:274-295 | releases exactly an allocated block, other payloads intact, and all blocks but it and its neighbours as they were; the block then lies in a free one, and headers that were swallowed stay in memory; null, a double free and a pointer without the magic number change nothing; stray exactly when bytes at no block read as an allocated one, and only then nothing is promised |
| HeapAllocator.Heap.Realloc | c_and_cpp/wangdao_c/day11/allocator/my_allocator.c:215-272 | for every pointer: a live block keeps its bytes whether it stays, absorbs or moves; it stays when it is large enough or the free successor makes up for the rest, its new size exceeds the request by less than a header and 16 bytes, and the blocks not involved are as before; anything else that passes for a block comes back as it is when the size read is large enough and is replaced by a new block otherwise, so that the answer is live if and only if the pointer was or the size read is too small; stray exactly when the code, at no block, releases, absorbs, or copies or frees astray after its malloc |
| HeapAllocator.Heap.ReallocKnown | c_and_cpp/wangdao_c/day11/allocator/my_allocator.c:230-272 | at a block of the list: the same three outcomes, each with the size bound, the condition under which it happens and what the other blocks are afterwards; a failed realloc changes nothing |
| HeapAllocator.Heap.ReallocStale | c_and_cpp/wangdao_c/day11/allocator/my_allocator.c:230-271 | bytes that pass for a header too small: absorb what they name as a free successor, which is astray, or malloc, memcpy of the size read by then, and free by what is read by then |
| HeapAllocator.StaleMoves | c_and_cpp/wangdao_c/day11/allocator/my_allocator.c:122-271 | a swallowed header inside a block that malloc does not choose survives malloc and memcpy, so the copy fits and the free is refused |
| HeapAllocator.StaleInSmallBlockMoves | c_and_cpp/wangdao_c/day11/allocator/my_allocator.c:122-271 | if the swallowing block is too small for the request and the stale header names no free successor, realloc of it writes nothing astray |
| HeapAllocator.FreedBlockComesBack | c_and_cpp/wangdao_c/day11/allocator/my_allocator.c:234-238 | concretely, a block of 100 bytes freed and reallocated to 50 comes back and is not live |
| HeapAllocator.Heap.GetBlock | c_and_cpp/wangdao_c/day11/allocator/my_allocator.c:149-159 | reads the magic number from memory, finds it at every block of the list, and reads the flag that the list has |
| HeapAllocator.SwallowedReads | c_and_cpp/wangdao_c/day11/allocator/my_allocator.c:122-159 | a header swallowed by a merge still reads as a block with its old flag and size while nobody writes there; my_free and realloc to 0 write there if and only if the flag was not free |
| HeapAllocator.SwallowedAbsorbs | c_and_cpp/wangdao_c/day11/allocator/my_allocator.c:240-259 | realloc of a swallowed header that is too small absorbs astray if and only if the block that it names as its successor is free and the two sizes suffice |
| HeapAllocator.Heap.MergeNext | c_and_cpp/wangdao_c/day11/allocator/my_allocator.c:122-146 | merging rewrites list and links and leaves the swallowed header's bytes where they were |
| HeapAllocator.Heap.ClientWrites | c_and_cpp/wangdao_c/day11/allocator/my_allocator.c:163-198 | a client writing inside a live payload disturbs no header, no list and no other payload |
| HeapMemory.MemoryHoldsTheList | c_and_cpp/wangdao_c/day11/allocator/my_allocator.c:8-14 | raw memory is the list: every field of every listed header reads back little-endian as the list has it |
| HeapMemory.WordRoundTrip | c_and_cpp/wangdao_c/day11/allocator/my_allocator.c:8-14 | k little-endian bytes read back as the number they were written from |
| HeapAllocator.Heap.Move | c_and_cpp/wangdao_c/day11/allocator/my_allocator.c:262-271 | malloc, memcpy and free together move a payload without touching any other |
| HeapAllocator.Heap.Absorb | c_and_cpp/wangdao_c/day11/allocator/my_allocator.c:241-259 | absorbing the free successor and splitting keeps the tiling, the quiet list and all payload bytes; what the request does not need, if a header and 16 bytes fit, is a free block again, and all other blocks are as before |
| HeapAllocator.Moved | c_and_cpp/wangdao_c/day11/allocator/my_allocator.c:262-271 | the copy lands only in the new block and survives the free of the old one |
| HeapAllocator.MovedKeepsOthers | c_and_cpp/wangdao_c/day11/allocator/my_allocator.c:262-271 | all blocks but the old one, its neighbours and the new one keep size and flag, and the new one is no larger than it must be |
| HeapAllocator.Heap.ExtendHeap | c_and_cpp/wangdao_c/day11/allocator/my_allocator.c:52-77 | appends one free block behind the last block, moving the break by the larger of 4 KiB and the request plus header |
| HeapAllocator.Heap.FindFreeBlock | c_and_cpp/wangdao_c/day11/allocator/my_allocator.c:80-91 | returns the first free block that is large enough, or none exactly when none is |
| HeapAllocator.Heap.SplitBlock | c_and_cpp/wangdao_c/day11/allocator/my_allocator.c:94-119 | with the remainder read as an integer, splits off a free tail exactly when it can hold a header and 16 bytes, keeping list and payloads |
| HeapAllocator.Heap.Coalesce | c_and_cpp/wangdao_c/day11/allocator/my_allocator.c:122-146 | merging with both free neighbours leaves no two adjacent free blocks and all blocks but these as they were |
| HeapAllocator.Heap.AllocatorInit | c_and_cpp/wangdao_c/day11/allocator/my_allocator.c:27-49 | the first call sets up one free block over 64 KiB; later calls change nothing |
| HeapAllocator.Heap.HeapBytes | c_and_cpp/wangdao_c/day11/allocator/my_allocator.c:327-353 | my_heap_used is the sum over the allocated blocks, my_heap_free what the blocks' headers and that sum leave of the heap |
| HeapBlocks.UsedBytes | c_and_cpp/wangdao_c/day11/allocator/my_allocator.c:327-339 | walking the list and adding up the blocks that are not free is the sum over the allocated blocks, in any order |
| HeapAllocator.UsedBytesChange | c_and_cpp/wangdao_c/day11/allocator/my_allocator.c:163-295 | malloc raises the used bytes by the size of its block, free lowers them by the size of the block given back |
| HeapAllocator.Heap.HeapAddsUp | c_and_cpp/wangdao_c/day11/allocator/my_allocator.c:327-353 | used bytes, free bytes and 32 bytes per block make up the sbrk'd range |
| HeapAllocator.Heap.PayloadsDisjoint | c_and_cpp/wangdao_c/day11/allocator/my_allocator.c:163-198 | live payloads are 8-aligned, inside the heap and pairwise disjoint |
| HeapBlocks.SplitKeeps | c_and_cpp/wangdao_c/day11/allocator/my_allocator.c:102-118 | splitting keeps the list tiling the heap with correct prev and next |
| HeapBlocks.MergeKeeps | c_and_cpp/wangdao_c/day11/allocator/my_allocator.c:122-146 | merging keeps the list tiling the heap with correct prev and next |
| HeapBlocks.ExtendKeeps | c_and_cpp/wangdao_c/day11/allocator/my_allocator.c:60-74 | extending keeps the list tiling the larger heap |
| HeapBlocks.CSplitsAgrees | c_and_cpp/wangdao_c/day11/allocator/my_allocator.c:95-100 | the size_t test agrees with the intended integer test exactly when the block can hold the request and one more header |
| HeapBlocks.CSplitTilesIff | c_and_cpp/wangdao_c/day11/allocator/my_allocator.c:94-119 | split_block as written in C keeps the list tiling the heap if and only if block->size >= size + BLOCK_SIZE, and then leaves the headers and list of the intended split |
| HeapBlocks.ExtendThenCSplitIff | c_and_cpp/wangdao_c/day11/allocator/my_allocator.c:52-119 | for a request served by extend_heap the C split keeps the list if and only if the request is at most 4032 bytes; from 4064 bytes on the new block is exactly as large as the request |
| HeapBlocks.ExactFitBreaksC | c_and_cpp/wangdao_c/day11/allocator/my_allocator.c:94-119 | concretely, a first request for the whole initial heap enters the C split and breaks the list |
| HeapBlocks.Accounting | c_and_cpp/wangdao_c/day11/allocator/my_allocator.c:327-353 | for every list prefix, used, free and header bytes add up to the distance covered |
| HeapBlocks.Disjoint | c_and_cpp/wangdao_c/day11/allocator/my_allocator.c:94-146 | two different blocks share no byte |
| LockFreeStack.StepKeeps | prep_interview/multi-threading/impl/lock-free-stack/lockfree_stack.cc:17-38 | every atomic step of any thread keeps chain, private nodes and history consistent |
| LockFreeStack.EveryRunIsLinearizable | prep_interview/multi-threading/impl/lock-free-stack/lockfree_stack.cc:17-38 | in every interleaving each operation takes effect once between call and return, in an order that is a run of the sequential stack, whose content is the acyclic chain from head |
| LockFreeStack.OnlyCasChanges | prep_interview/multi-threading/impl/lock-free-stack/lockfree_stack.cc:20-34 | the abstract stack changes only at a successful CAS, by one element at the top, and pop returns the then-top value |
| LockFreeStack.NoAba | prep_interview/multi-threading/impl/lock-free-stack/lockfree_stack.cc:19-34 | along every run the tag of head grows with each successful exchange and with nothing else, so at two points with equal tags nothing has been exchanged in between and the stack is the same |
| LockFreeStack.ExchangeIffUndisturbed | prep_interview/multi-threading/impl/lock-free-stack/lockfree_stack.cc:18-34 | lock-freedom: an exchange that does not fail spuriously succeeds if and only if no other thread's exchange has succeeded since this thread loaded head, and then finds the stack of that moment |
| LockFreeStack.SoloPush | prep_interview/multi-threading/impl/lock-free-stack/lockfree_stack.cc:17-25 | a push left alone ends after three steps with its value on top |
| LockFreeStack.SoloPop | prep_interview/multi-threading/impl/lock-free-stack/lockfree_stack.cc:27-38 | a pop left alone reports an empty stack, or takes the top and returns its value |
| LockFreeStack.StepOfOthers | prep_interview/multi-threading/impl/lock-free-stack/lockfree_stack.cc:17-38 | a step moves no other thread and never writes a node that has been published |
| LockFreeStack.PushedIsPoppedAndRemaining | prep_interview/multi-threading/impl/lock-free-stack/lockfree_stack.cc:17-38 | pushed values are the popped ones and the remaining ones, as multisets |
| LockFreeStack.NoStepFaults | prep_interview/multi-threading/impl/lock-free-stack/lockfree_stack.cc:17-38 | no step dereferences a node that does not exist |
| LockFreeStack.PopCasKeeps | prep_interview/multi-threading/impl/lock-free-stack/lockfree_stack.cc:29-34 | the next pointer read before a successful CAS is still the head's next |
| LockFreeStack.Stack.PushBegin | prep_interview/multi-threading/impl/lock-free-stack/lockfree_stack.cc:18-19 | loading head and filling the new node, which links to it, is that step, with any threads in between; the content stays as it is and the call is logged |
| LockFreeStack.Stack.PopBegin | prep_interview/multi-threading/impl/lock-free-stack/lockfree_stack.cc:28-31 | loading head is that step; the pop goes on with that head, or is on its way to false exactly when the stack is empty at that moment |
| LockFreeStack.Stack.PushCas | prep_interview/multi-threading/impl/lock-free-stack/lockfree_stack.cc:20-24 | one exchange attempt is that step: when head is still what was loaded and the attempt does not fail spuriously, it puts the value on top of whatever the stack holds by then; else it leaves the content alone and relinks the new node to the head just seen |
| LockFreeStack.Stack.PopCas | prep_interview/multi-threading/impl/lock-free-stack/lockfree_stack.cc:29-34 | one exchange attempt is that step: when head is still what was loaded and the attempt does not fail spuriously, it takes the value that is the top by then; else it leaves the content alone and goes on with the head just seen |
| LockFreeStack.Stack.PopReturn | prep_interview/multi-threading/impl/lock-free-stack/lockfree_stack.cc:35-37 | the value read after the exchange, however much later, is the one with which the operation took effect |
| SharedPtr.StepKeeps | prep_interview/impl/shared_ptr/my_shared_ptr_multithreading.h:22-35 | every step keeps strong_count equal to the owning handles and weak_count equal to the weak handles plus one until the last owner drops it |
| SharedPtr.OwnersAfter | prep_interview/impl/shared_ptr/my_shared_ptr_multithreading.h:22-176 | for every step: a new pointer, a copy and a successful lock add exactly their handle to the owners, a release removes exactly its own, nothing else changes any owner; lock succeeds unless spuriously failing or overtaken |
| SharedPtr.WeaksAfter | prep_interview/impl/shared_ptr/my_shared_ptr_multithreading.h:110-183 | the same for weak handles |
| SharedPtr.ThreadAfter | prep_interview/impl/shared_ptr/my_shared_ptr_multithreading.h:22-183 | a release goes on to delete the object exactly when nobody owns it any more, and the block exactly when nobody holds it; lock() goes on exactly while there is an owner |
| SharedPtr.NoUseAfterFree | prep_interview/impl/shared_ptr/my_shared_ptr_multithreading.h:22-29 | no step touches a freed block, deletes the object or the block twice, or takes a counter below zero |
| SharedPtr.OwnersSeeTheObject | prep_interview/impl/shared_ptr/my_shared_ptr_multithreading.h:64-73 | while a handle exists its block does, and while an owner exists the object does |
| SharedPtr.ZeroIsFinal | prep_interview/impl/shared_ptr/my_shared_ptr_multithreading.h:161-176 | a strong count that has reached zero stays there; lock() then fails |
| SharedPtr.AssignmentIsSafeIff | prep_interview/impl/shared_ptr/my_shared_ptr_multithreading.h:37-45 | when the thread is through with the reset, copying the source is a legal step on a living object if and only if nobody has released the source handle meanwhile |
| SharedPtr.OwnsIffNotReleased | prep_interview/impl/shared_ptr/my_shared_ptr_multithreading.h:23-45 | along any run a handle still owns its block if and only if nobody has released it, names not being reused |
| SharedPtr.SourceInsideDies | prep_interview/impl/shared_ptr/my_shared_ptr_multithreading.h:37-45 | concretely, for head = head->next of a sole owner the source and its block are gone before the copy |
| SharedPtr.AssignmentResetsFirst | prep_interview/impl/shared_ptr/my_shared_ptr_multithreading.h:37-45 | the destructor of the old object comes between reset and copy if and only if the target was its only owner |
| SharedPtr.LockAddsAnOwner | prep_interview/impl/shared_ptr/my_shared_ptr_multithreading.h:165-174 | lock() succeeds only on an object still owned and adds exactly one owner, else changes nothing |
| SharedPtr.DeletedExactlyOnce | prep_interview/impl/shared_ptr/my_shared_ptr_multithreading.h:64-73 | in every run object and block are deleted at most once, and exactly once when all handles are gone and all operations finished |
| SharedPtr.WeaksCount | prep_interview/impl/shared_ptr/my_shared_ptr_multithreading.h:110-118 | weak handles come and go with weak_count, and whoever takes it to zero deletes the block |
| SharedPtr.TeardownCounts | prep_interview/impl/shared_ptr/my_shared_ptr_multithreading.h:178-183 | the steps of the last owner and of the last weak handle keep the counts right |
| SharedPtr.ControlBlock.ReleaseShared | prep_interview/impl/shared_ptr/my_shared_ptr_multithreading.h:22-29 | a whole destructor or reset call: one owner fewer, and the last one completes the teardown |
| SharedPtr.ControlBlock.ReleaseWeak | prep_interview/impl/shared_ptr/my_shared_ptr_multithreading.h:178-183 | one weak handle fewer, deleting the block after the last holder of any kind |
| SharedPtr.ControlBlock.CopyShared | prep_interview/impl/shared_ptr/my_shared_ptr_multithreading.h:31-35 | one owner more |
| SharedPtr.ControlBlock.CopyWeak | prep_interview/impl/shared_ptr/my_shared_ptr_multithreading.h:110-118 | one weak handle more |
| SharedPtr.ControlBlock.Lock | prep_interview/impl/shared_ptr/my_shared_ptr_multithreading.h:161-176 | succeeds exactly while the object is owned, through any number of spurious failures |
| SharedPtr.ControlBlock.DeletedWhenUnused | prep_interview/impl/shared_ptr/my_shared_ptr_multithreading.h:22-29 | between calls the object is gone exactly when nobody owns it and the block exactly when nobody holds it |
| BoundedQueue.EveryRunIsFifo | prep_interview/multi-threading/impl/threadsafe-data-structures/threadsafe_bounded_queue.cc:36-102 | in every run popped followed by queued is pushed, never above capacity, and no wake-up is lost on either side |
| BoundedQueue.NeverAllAsleepIff | prep_interview/multi-threading/impl/threadsafe-data-structures/threadsafe_bounded_queue.cc:36-71 | producers and consumers are never all asleep if and only if the capacity is at least 1 |
| BoundedQueue.CapacityZeroStalls | prep_interview/multi-threading/impl/threadsafe-data-structures/threadsafe_bounded_queue.cc:36-71 | with capacity 0 a producer and a consumer fall asleep for good |
| BoundedQueue.AfterShutdown | prep_interview/multi-threading/impl/threadsafe-data-structures/threadsafe_bounded_queue.cc:23-28 | after shutdown nobody sleeps, nothing is pushed, and a pop is refused only when all pushed items have been popped |
| BoundedQueue.ShutdownDrains | prep_interview/multi-threading/impl/threadsafe-data-structures/threadsafe_bounded_queue.cc:60-71 | popping as often as there are items drains the queue completely after shutdown |
| BoundedQueue.StepKeeps | prep_interview/multi-threading/impl/threadsafe-data-structures/threadsafe_bounded_queue.cc:23-102 | every critical section, spurious wake-up and timeout keeps order, capacity and wake-up coverage |
| BoundedQueue.StepOfCaller | prep_interview/multi-threading/impl/threadsafe-data-structures/threadsafe_bounded_queue.cc:36-102 | after a step its thread waits to push, with its value kept, exactly when it pushed into a full queue, waits to pop exactly when it popped from an empty one, and never after a try, a timeout or shutdown |
| BoundedQueue.StepOfOthers | prep_interview/multi-threading/impl/threadsafe-data-structures/threadsafe_bounded_queue.cc:23-102 | a critical section changes neither whether another thread waits nor the value it waits to push |
| BoundedQueue.BoundedQueue.Push | prep_interview/multi-threading/impl/threadsafe-data-structures/threadsafe_bounded_queue.cc:36-46 | the code of push from its wait predicate on is that step: sleep with the value kept, refuse, or append exactly that value and notify one consumer |
| BoundedQueue.BoundedQueue.PushWake | prep_interview/multi-threading/impl/threadsafe-data-structures/threadsafe_bounded_queue.cc:36-46 | a woken push re-evaluates and appends the value it was called with, sleeps again or gives up |
| BoundedQueue.BoundedQueue.TryPush | prep_interview/multi-threading/impl/threadsafe-data-structures/threadsafe_bounded_queue.cc:49-57 | appends the value exactly when there is room and no shutdown, and else changes nothing |
| BoundedQueue.BoundedQueue.Pop | prep_interview/multi-threading/impl/threadsafe-data-structures/threadsafe_bounded_queue.cc:60-71 | takes exactly the front item, sleeps, or is refused exactly when shut down and empty |
| BoundedQueue.BoundedQueue.PopWake | prep_interview/multi-threading/impl/threadsafe-data-structures/threadsafe_bounded_queue.cc:86-102 | a woken or timed-out pop re-evaluates and takes, sleeps again or gives up |
| BoundedQueue.BoundedQueue.ShutDown | prep_interview/multi-threading/impl/threadsafe-data-structures/threadsafe_bounded_queue.cc:23-28 | sets the flag and wakes every waiter, leaving the items |
| WriterPriorityLock.EveryRunExcludes | prep_interview/multi-threading/impl/lock/shared_lock_2.h:18-83 | in every run at most one writer, never with readers; a free lock with waiting writers has one notified; readers sleep only because of a writer |
| WriterPriorityLock.WritersComeFirst | prep_interview/multi-threading/impl/lock/shared_lock_2.h:27-31 | in every run a reader gets in only while no writer writes or waits |
| WriterPriorityLock.FreeLockIsTaken | prep_interview/multi-threading/impl/lock/shared_lock_2.h:70-83 | whenever the lock is free and someone waits, someone awake gets it |
| WriterPriorityLock.EveryWaiterCanGetIn | prep_interview/multi-threading/impl/lock/shared_lock_2.h:18-83 | from every state of every run each waiting thread, reader or writer, gets the lock by a continuation of unlocks of holders and of notified waiters running on, without spurious wake-ups and newcomers |
| WriterPriorityLock.StepOfCaller | prep_interview/multi-threading/impl/lock/shared_lock_2.h:18-83 | a locking call or wake-up gets in exactly when nothing is in its way and else sleeps; after its unlock a thread holds nothing |
| WriterPriorityLock.StepOfOthers | prep_interview/multi-threading/impl/lock/shared_lock_2.h:18-83 | no critical section changes what another thread holds or waits for |
| WriterPriorityLock.StepKeeps | prep_interview/multi-threading/impl/lock/shared_lock_2.h:18-83 | every critical section, spurious wake-ups included, keeps counters, exclusion and wake-up coverage |
| WriterPriorityLock.SharedMutex.AcquireShared | prep_interview/multi-threading/impl/lock/shared_lock_2.h:18-32 | the code of lock_shared is that step: in, as one more reader, exactly when no writer writes or waits, else asleep |
| WriterPriorityLock.SharedMutex.ReleaseShared | prep_interview/multi-threading/impl/lock/shared_lock_2.h:37-47 | the thread is no reader any more, other holders stay, and the last reader notifies one writer |
| WriterPriorityLock.SharedMutex.Acquire | prep_interview/multi-threading/impl/lock/shared_lock_2.h:52-65 | registers as waiting, then in exactly when nobody holds the lock, else asleep |
| WriterPriorityLock.SharedMutex.Release | prep_interview/multi-threading/impl/lock/shared_lock_2.h:70-83 | the lock is free of writers; wakes one writer if any waits, else all readers |
| HierarchicalMutex.EveryRunDescends | c_and_cpp/multi-threading-cpp/3/hierarchical_mutex_example.cc:15-51 | in every run held levels strictly decrease, the thread-local value is the innermost, previous levels chain the stack, and a waiting thread waits below all it holds |
| HierarchicalMutex.LockExcludes | c_and_cpp/multi-threading-cpp/3/hierarchical_mutex_example.cc:15-36 | in every run, from a successful lock or try_lock to its own unlock, the thread owns the mutex, nobody else has it among theirs, and no other lock or try_lock takes it |
| HierarchicalMutex.OwnerStays | c_and_cpp/multi-threading-cpp/3/hierarchical_mutex_example.cc:15-36 | an owner stays the owner through every run of steps without its own unlock |
| HierarchicalMutex.LockTakes | c_and_cpp/multi-threading-cpp/3/hierarchical_mutex_example.cc:15-36 | taking a free mutex makes the thread its owner, puts it innermost and its level into the thread's value, and touches no other owner, stack or value; a failed try_lock does nothing |
| HierarchicalMutex.UnlockFrees | c_and_cpp/multi-threading-cpp/3/hierarchical_mutex_example.cc:21-27 | unlock of the innermost mutex frees it, takes it off the stack and restores the level of the next one outwards; of another mutex it does nothing |
| HierarchicalMutex.WaitForIsAcyclic | c_and_cpp/multi-threading-cpp/3/hierarchical_mutex_example.cc:15-19 | the wait-for graph has no cycle of any length in any run |
| HierarchicalMutex.SomebodyCanGoOn | c_and_cpp/multi-threading-cpp/3/hierarchical_mutex_example.cc:15-19 | from every waiting thread the chain of owners ends at one that can proceed |
| HierarchicalMutex.ValueIsLowest | c_and_cpp/multi-threading-cpp/3/hierarchical_mutex_example.cc:21-27 | the thread-local value equals a held mutex's level exactly for the innermost one, so unlock accepts only that |
| HierarchicalMutex.StepKeeps | c_and_cpp/multi-threading-cpp/3/hierarchical_mutex_example.cc:15-51 | check, acquisition, try_lock and unlock, failing or not, keep the hierarchy invariant |
| HierarchicalMutex.InnermostIff | c_and_cpp/multi-threading-cpp/3/hierarchical_mutex_example.cc:21-27 | unlock's own check accepts exactly the innermost mutex the thread holds |
| HierarchicalMutex.BelowIff | c_and_cpp/multi-threading-cpp/3/hierarchical_mutex_example.cc:39-46 | comparing with the one thread-local value is comparing with every level held |
| HierarchicalMutex.Program.Check | c_and_cpp/multi-threading-cpp/3/hierarchical_mutex_example.cc:39-46 | the check is that step; it throws exactly unless the mutex lies below every mutex the thread holds |
| HierarchicalMutex.Program.Acquire | c_and_cpp/multi-threading-cpp/3/hierarchical_mutex_example.cc:15-19 | going on from the internal mutex once it is free is that step, whatever other threads did while it was waited for: the thread is its owner, has it innermost and its level as value, and nothing else changes hands |
| HierarchicalMutex.Program.Lock | c_and_cpp/multi-threading-cpp/3/hierarchical_mutex_example.cc:15-19 | a call of lock throws, takes the mutex or starts to wait, each exactly when the levels and the owner say so; taken, the thread owns it and has it innermost, else nothing changes hands |
| HierarchicalMutex.Program.TryLock | c_and_cpp/multi-threading-cpp/3/hierarchical_mutex_example.cc:29-36 | try_lock is that step: throws exactly unless the mutex lies below all that is held, else takes it exactly when nobody owns it; taken, the thread owns it and has it innermost, else nothing changes |
| HierarchicalMutex.Program.Unlock | c_and_cpp/multi-threading-cpp/3/hierarchical_mutex_example.cc:21-27 | unlock is that step: throws, changing nothing, exactly unless the mutex is the innermost one held; else the mutex is free and the previous level back |
| SpscRing.EveryRunIsFifo | prep_interview/multi-threading/impl/lock-free-queue/SPSCQueue2.cc:13-39 | in every interleaving with arbitrarily stale cached indices popped is a prefix of pushed, at most Cap are under way, no unread slot is overwritten and no unwritten one read |
| SpscRing.StepKeeps | prep_interview/multi-threading/impl/lock-free-queue/SPSCQueue2.cc:13-39 | every micro-step keeps cachedHead <= popped <= cachedTail <= pushed <= cachedHead + Cap behind the indices modulo Cap + 1 |
| SpscRing.SidesApart | prep_interview/multi-threading/impl/lock-free-queue/SPSCQueue2.cc:13-39 | a step of push leaves the index, cached index, progress and values of pop alone, and the other way round; each side publishes the value it set out with, and gives up only on a full or an empty ring |
| SpscRing.FailuresAreReal | prep_interview/multi-threading/impl/lock-free-queue/SPSCQueue2.cc:16-20 | push fails only on a full ring and pop only on an empty one at the moment of reloading |
| SpscRing.SizeIsExactIff | prep_interview/multi-threading/impl/lock-free-queue/SPSCQueue2.cc:41-45 | for loads in any two states: exact at the head's load if and only if the pushes in between are whole laps of cap + 1, exact at the tail's load if and only if the pops in between are |
| SpscRing.SizeInEveryRun | prep_interview/multi-threading/impl/lock-free-queue/SPSCQueue2.cc:41-45 | the same between any two points of any run |
| SpscRing.CountsGrow | prep_interview/multi-threading/impl/lock-free-queue/SPSCQueue2.cc:13-39 | along a run pushed and popped values only ever grow, so of any two states the earlier and the later are as the next row wants them |
| SpscRing.SizeWithoutALap | prep_interview/multi-threading/impl/lock-free-queue/SPSCQueue2.cc:41-45 | tail loaded first and no lap in between: the answer is the earlier pushes less the later pops, so it is exact when either side is quiescent |
| SpscRing.SizeCanBeWrong | prep_interview/multi-threading/impl/lock-free-queue/SPSCQueue2.cc:41-45 | with both sides moving, a run in which size() reports 2 although the ring never held more than one value |
| SpscRing.SpscQueue.Push | prep_interview/multi-threading/impl/lock-free-queue/SPSCQueue2.cc:13-25 | a whole push call runs these micro-steps: appends unless Cap values are under way |
| SpscRing.SpscQueue.Pop | prep_interview/multi-threading/impl/lock-free-queue/SPSCQueue2.cc:27-39 | a whole pop call takes the oldest value under way, failing exactly when there is none |
| SpscRing.SpscQueue.GetSize | prep_interview/multi-threading/impl/lock-free-queue/SPSCQueue2.cc:41-45 | with both sides quiescent, the number of values under way |
| ChatFraming.CuttingDoesNotMatter | c_and_cpp/wangdao_sys_network/day21/tcp/server.cc:241-284 | for any byte stream and any cutting into chunks, append-then-process gives what splitting the whole stream gives |
| ChatFraming.RoundTripIff | c_and_cpp/wangdao_sys_network/day21/tcp/common.h:65-82 | the serialized messages decode to exactly themselves with nothing left if and only if every body is under 2^32 bytes |
| ChatFraming.AnyCuttingDelivers | c_and_cpp/wangdao_sys_network/day21/tcp/server.cc:241-284 | the same for every cutting into chunks |
| ChatFraming.AnyCuttingIsMidStream | c_and_cpp/wangdao_sys_network/day21/tcp/server.cc:253-284 | mid-stream a prefix of the messages has been delivered and the buffer is a strict prefix of the next frame |
| ChatFraming.TooLongIsTruncated | c_and_cpp/wangdao_sys_network/day21/tcp/common.h:70-70 | concretely, a body of 2^32 bytes is received as an empty one |
| ChatFraming.NtohlHtonl | c_and_cpp/wangdao_sys_network/day21/tcp/common.h:86-96 | network byte order loses nothing |
| ChatFraming.SerializeMessage | c_and_cpp/wangdao_sys_network/day21/tcp/common.h:65-82 | fills a fresh buffer: the length truncated to 32 bits with its most significant byte first, then type and body |
| ChatFraming.ParseHeader | c_and_cpp/wangdao_sys_network/day21/tcp/common.h:86-96 | false exactly when fewer than five bytes are there, else the first four as a number, most significant byte first, and the fifth |
| ChatFraming.Connection.ProcessMessages | c_and_cpp/wangdao_sys_network/day21/tcp/server.cc:253-284 | takes exactly the complete frames off the buffer, in order, and leaves the rest |
| ChatFraming.Connection.Receive | c_and_cpp/wangdao_sys_network/day21/tcp/server.cc:241-248 | after each chunk, delivered messages and buffer are those of the whole stream received |
| Vector.PushesAreAmortized | prep_interview/impl/vector/my_vector.h:168-182 | from an empty vector n push_backs move fewer than 2n elements, and the capacity stays below 2n |
| Vector.Vector.EnsureCapacity | prep_interview/impl/vector/my_vector.h:168-182 | grows, when it must, to the larger of the request and the double, moving every element once, contents unchanged |
| Vector.Vector.PushBack | prep_interview/impl/vector/my_vector.h:43-47 | appends one element; a full buffer doubles, from 0 to 1, and moves every element once |
| Vector.Vector.MoveRange | prep_interview/impl/vector/my_vector.h:185-192 | front to back, writing to live slots only, leaves each slot as the closed form of the shift down says |
| Vector.Vector.MoveRangeBackward | prep_interview/impl/vector/my_vector.h:194-202 | back to front, assigning to live slots and constructing in raw ones, leaves each slot as the closed form of the shift up says |
| Vector.Vector.Erase | prep_interview/impl/vector/my_vector.h:70-79 | refines sequence deletion and leaves exactly [0, size) live; an empty or reversed range changes nothing |
| Vector.Vector.EraseOne | prep_interview/impl/vector/my_vector.h:68-68 | refines deletion of one element |
| Vector.Vector.Insert | prep_interview/impl/vector/my_vector.h:107-119 | leaves exactly [0, size) live, and refines sequence insertion if and only if count >= 1 or the position is the end |
| Vector.InsertedSlots | prep_interview/impl/vector/my_vector.h:107-119 | shifting up and filling is insertion exactly when there is a copy to insert or nothing to shift |
| Vector.ErasedSlots | prep_interview/impl/vector/my_vector.h:70-79 | shifting down is deletion, and leaves every slot up to the old size live for the destructors |
| Vector.NoCopiesLoseTheElement | prep_interview/impl/vector/my_vector.h:107-119 | concretely, inserting no copies in front of one element leaves it moved-from |
| Vector.Vector.InsertOne | prep_interview/impl/vector/my_vector.h:81-92 | refines insertion of one element |
| Vector.Vector.Put | prep_interview/impl/vector/my_vector.h:185-192 | the write used throughout demands a live slot inside the size and a raw one behind it |

## Left out

- Loading market data from files, JSON parsing, `compute_spread` (the spread of an entry is an optional argument, absent for not-a-number), moves of the cache and its reader-writer lock.
- `GetLevel`, `GetMid` and `GetSpread` of the order book: they only read what `GetBest` covers; freeing the allocator's pools at exit.
- `my_calloc` and the heap dump; the error messages printed for bad pointers, of which only the effect (none) is modelled.
- HeapAllocator.Heap.MyFree: says exactly when the code writes through a pointer at which there is no block (`stray`), and promises nothing about the heap after that.
- HeapAllocator.Heap.Realloc: the same, also for a memcpy that overlaps itself or leaves the new block; both need a pointer at no block.
- Hardware memory orders and cache-line alignment: interleavings are sequentially consistent; a weak compare-exchange may fail spuriously.
- Move constructors, move assignments and `swap` of the smart pointers: they pass a handle on without touching a counter.
- Capacity and order claims for the multi-producer and multi-consumer rings, the remaining spinlocks, and the unbuffered channel.
- The exception type and text of hierarchy violations.
- Sockets, the select loop, heartbeats, user names, broadcasting and client removal of the chat server: handling a message is appending it to an output list.
- `resize`, `reserve`, `emplace_back`, copying and moving of `Vector`, arguments that alias its elements, and what a moved-from element contains.
