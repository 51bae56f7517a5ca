# A verified model of the malloc lab driver, the lab hash table and the K-best timer

Three parts of the course labs are modelled and proved, each as the imperative program it is.

**The naive allocator under the trace driver.** `MemLib.dfy` is the simulated `sbrk` heap: one byte
buffer, a break that only grows, and 64-bit header words stored little-endian in that buffer.
`MmNaive.dfy` is the allocator over it; its ghost list `chunks` is tied by `Valid` to the header words
actually in memory. `RangeList.dfy` is the driver's linked list of payload ranges. `Trace.dfy` says,
without any heap, what each prefix of a trace means: which ids are live, where their blocks lie, which
chunks the heap holds, what the range list records, and how much payload is live. `MDriver.dfy` is the
driver: `EvalMmValid`, `EvalMmUtil`, `EvalMmSpeed` and, over them, the rounds of `main`. The main result
is that for every well-formed trace the driver accepts this allocator exactly when the requests fit
`MAX_HEAP` and no reallocated id is unreadable through a plain `char` (see below).
`Bits.dfy` defines the C bit operators bit by bit and proves their arithmetic meaning.

**The chained hash table.** `Hashing.dfy` is the 32-bit Horner hash, `Primes.dfy` trial division and
the unbounded search for the next prime, whose termination is Euclid's theorem. `HTable.dfy` is the
table: real nodes, relinked in place by a resize. Any run of operations answers like a finite map in
which the first insertion of a key wins. `TestHash.dfy` is the concurrent test with each table operation
one atomic step.

**The K-best sampler.** `Fcyc.dfy` proves that the bounded buffer is always exactly the K smallest of
all samples seen, and what the sampling loop returns and when it stops.

Conventions. Addresses are integers and 0 is the null pointer. A C `assert` is a Dafny `assert` or a
precondition, so it is proved never to fire. Larger C functions are split into methods along their own
steps. A ghost parameter `k` of `Free` and `Realloc` names the chunk whose payload the pointer is.

Where the code and its own comments disagree, the code is followed:

- `eval_mm_valid` compares a plain `char` with `index & 0xFF` (malloclab/mdriver.c:621). Where `char` is
  signed, an id whose low byte is 128 or more fails the check after any reallocation, although the data
  was preserved. The parameter `signedChar` covers both kinds of compiler; `MDriver.EvalMmValid` gives the
  exact condition and `MDriver.SignedCharExample` a two-request trace that fails.
- `add_range` says a payload must not overlap any other (malloclab/mdriver.c:372). Its test misses exactly
  the case of a new range strictly enclosing an old one: `RangeList.HitsExact`, `RangeList.MissedOverlap`.
- `set_chunk_status` cannot set the status, only clear it: `MmNaive.MaskMeaning`.
- `mm_malloc` keeps the chunk size in an `int`; it is the intended size exactly up to 0x7fffffe0 bytes:
  `MmNaive.NewSizeExact`.
- `get_prime` is said to return a prime larger than its argument (threadlab/htable.c:60). It returns the
  argument itself when that passes the test, and a non-prime exactly when the argument is below 2:
  `Primes.GetPrime`.

## Model

| member | source | states |
|---|---|---|
| Bits.OrLowBit | malloclab/mm-naive.c:25-28 | or-ing a status bit into an even size is addition |
| Bits.AndBit0 | malloclab/mm-naive.c:36-39 | the mask `0x1` reads the parity of a word |
| Bits.AndClearBit0 | malloclab/mm-naive.c:41-44 | the mask `~0x1` takes off the low bit of any 64-bit word and nothing else |
| Bits.AndLowByte | malloclab/mdriver.c:590-621 | `index & 0xFF` is the remainder modulo 256 |
| Bits.LeRoundTrip | malloclab/mm-naive.c:20-28 | a word stored as bytes, least significant first, is read back unchanged |
| MemLib.AlignRoundsUp | malloclab/memlib.c:19-21 | the masked sum is the least multiple of 16 not below the size, exactly for sizes up to 2^64 - 16; beyond that it is 0 |
| MemLib.Heap.constructor | malloclab/memlib.c:36-46 | a new heap is empty and MAX_HEAP bytes long |
| MemLib.Heap.ResetBrk | malloclab/memlib.c:59-62 | the heap becomes empty without touching its bytes |
| MemLib.Heap.Sbrk | malloclab/memlib.c:69-80 | fails exactly for a negative increment or past the end, changing nothing; else returns the old break and grows by the increment |
| MemLib.Heap.StoreWord | malloclab/mm-naive.c:25-34 | a header store is read back and changes only its eight bytes |
| MemLib.Heap.Memset | malloclab/mdriver.c:590 | fills exactly the given bytes |
| MemLib.Heap.Memcpy | malloclab/mm-naive.c:121 | copies between disjoint areas and changes only the destination |
| MmNaive.TilesBounds | malloclab/mm-naive.c:56-60 | in a tiling every chunk lies in the heap, is a multiple of 16 of at least 16 bytes, and ends where the next one, or the break, begins |
| MmNaive.TilesOrdered | malloclab/mm-naive.c:4-8 | chunks lie in list order and never overlap |
| MmNaive.TilesAccount | malloclab/mm-naive.c:131-155 | used and free chunks together account for every byte of the heap and every chunk |
| MmNaive.NewSizeExact | malloclab/mm-naive.c:76 | for every `size_t` the 32-bit chunk size is the rounded size plus 16 if and only if the size is at most 0x7fffffe0 |
| MmNaive.NewSizeModulo | malloclab/mm-naive.c:76 | for every `size_t` it is that sum modulo 2^32, a multiple of 16, and 0 exactly when 2^32 divides the sum |
| MmNaive.NewSizeOfInt | malloclab/mm-naive.c:76 | for every non-negative `int` it is the sum itself, or negative for a request beyond MAX_HEAP; never 0 |
| MmNaive.HeaderRoundTrip | malloclab/mm-naive.c:25-44 | size and status survive packing into one word |
| MmNaive.MaskMeaning | malloclab/mm-naive.c:30-34 | the status mask keeps the size of any word and can clear its status but never set it |
| MmNaive.HeaderAdded | malloclab/mm-naive.c:82-84 | writing a header just past the last chunk adds that chunk and leaves every other header as it was |
| MmNaive.HeaderReplaced | malloclab/mm-naive.c:96-99 | overwriting one header replaces that chunk and no other |
| MmNaive.PayloadWritten | malloclab/mm-naive.c:121 | writing inside one payload changes no header |
| MmNaive.Allocator.Init | malloclab/mm-naive.c:65-68 | on an empty heap it succeeds and the chunk list is empty |
| MmNaive.Allocator.SetChunkSizeStatus | malloclab/mm-naive.c:25-28 | the header getters give back what was set; only eight bytes change |
| MmNaive.Allocator.SetChunkStatus | malloclab/mm-naive.c:30-34 | the size is kept and the status becomes its conjunction with the argument |
| MmNaive.Allocator.InstallChunk | malloclab/mm-naive.c:81-85 | the two asserts hold, and the tiling is extended by one used chunk |
| MmNaive.Allocator.Malloc | malloclab/mm-naive.c:74-88 | for every `size_t` whose 32-bit chunk size is not 0: fails exactly when that size is negative or does not fit, changing nothing; else appends one used chunk of that size at the old break, returns its aligned payload and writes only its header |
| MmNaive.Allocator.Free | malloclab/mm-naive.c:93-101 | the asserts hold; exactly that chunk becomes free, and only its header word may change |
| MmNaive.Allocator.CopyPayload | malloclab/mm-naive.c:115-121 | copies min(new size, old payload) bytes into the newest chunk and nothing else changes |
| MmNaive.Moved | malloclab/mm-naive.c:110-126 | a header store, a copy and a free compose to: payload prefix moved, everything outside the new block and the old header unchanged |
| MmNaive.Allocator.Realloc | malloclab/mm-naive.c:106-128 | covers NULL pointers and size 0; refused, nothing changes; on success the prefix of the old payload is in a fresh chunk at the old break, the old chunk is free, and every other byte is unchanged |
| MmNaive.Allocator.CheckHeap | malloclab/mm-naive.c:131-155 | the walk ends at the break; its totals are the used and free bytes and chunks, and add up to the heap size and the number of chunks |
| RangeList.HitsExact | malloclab/mdriver.c:372-381 | the test sees every overlap except a new range that begins before an old one and ends after it, and never both |
| RangeList.AcceptsMeaning | malloclab/mdriver.c:356-381 | a payload is refused exactly when its address is no multiple of 16, its first or last byte is outside the heap, or one of them lies in a recorded range |
| RangeList.RemoveFirstExact | malloclab/mdriver.c:399-414 | with unique starts, removal by start address deletes exactly the record meant |
| RangeList.LaminarAdd | malloclab/mdriver.c:346-394 | an accepted range keeps the family nested or disjoint with the newer one outside |
| RangeList.LaminarRemove | malloclab/mdriver.c:399-414 | so does a removal |
| RangeList.RunIsLaminar | malloclab/mdriver.c:346-414 | for any allocator and any run of insertions and removals, the recorded ranges are nested or disjoint, only a newer one encloses, and starts are unique |
| RangeList.RunRecords | malloclab/mdriver.c:346-414 | every range a run records is the payload of one of its insertions, starts at a multiple of 16 and was inside the heap when inserted |
| RangeList.AddDisjointIff | malloclab/mdriver.c:372-394 | an accepted range leaves the list disjoint if and only if it was disjoint and the range strictly encloses none of it |
| RangeList.CallDisjointIff | malloclab/mdriver.c:346-414 | one call keeps a disjoint list disjoint if and only if it does not insert a range around a recorded one |
| RangeList.RunDisjointIff | malloclab/mdriver.c:346-414 | for any allocator, the recorded ranges are disjoint after every call of a run if and only if no call inserts a range around one recorded at that moment |
| RangeList.MissedOverlap | malloclab/mdriver.c:372-381 | two overlapping ranges that are both accepted |
| RangeList.List.AnyHit | malloclab/mdriver.c:373-381 | the loop finds a hit exactly when the list holds one |
| RangeList.List.AddRange | malloclab/mdriver.c:346-394 | accepts exactly an aligned range inside the heap that hits no recorded one; then it is pushed, else nothing changes |
| RangeList.List.Find | malloclab/mdriver.c:402-413 | the search stops at the first record with that start and knows its predecessor |
| RangeList.List.Unlink | malloclab/mdriver.c:406-407 | storing through the predecessor's link takes out that node and keeps a proper list |
| RangeList.RangeNode.Free | malloclab/mdriver.c:409 | only a live record can be freed, and then it is not live |
| RangeList.List.RemoveRange | malloclab/mdriver.c:399-414 | the contents lose their first range with that start; exactly the record taken out of the list is freed |
| RangeList.List.FreeAll | malloclab/mdriver.c:424-427 | the loop frees every record of the list, each once |
| RangeList.List.ClearRanges | malloclab/mdriver.c:419-429 | every record is freed and the list is empty |
| Trace.PlacedIsLatest | malloclab/mm-naive.c:74-88 | an id's block is the one of its last request, 16 bytes above the demand of everything requested before it |
| Trace.DemandIsSum | malloclab/mm-naive.c:74-88 | the demand is the sum, over the requests that are not frees, of 16 and the size rounded up to a multiple of 16 |
| Trace.LiveMeaning | malloclab/mdriver.c:569-640 | an id is live when no free follows its last allocation or reallocation |
| Trace.WellFormedMeaning | malloclab/mdriver.c:446-520 | a trace is well formed exactly when ids are in range, sizes are positive `int`s, and ids are allocated exactly where they are not live |
| Trace.PlacedWasRequested | malloclab/mdriver.c:593-631 | the ids that have a block are exactly those requested so far |
| Trace.PlacedInHeap | malloclab/mm-naive.c:74-88 | every placed block is 16-aligned, at least a header above the base, and ends below the break |
| Trace.PlacedDisjoint | malloclab/mdriver.c:372-381 | blocks of different ids come from different requests and do not overlap, headers included |
| Trace.LiveArePlaced | malloclab/mdriver.c:592-640 | every live id has a block and lies in range |
| Trace.AddressesIgnoreFrees | malloclab/mm-naive.c:4-9 | taking all frees out of a trace changes no address, no request number and no heap size |
| Trace.ChunkOfPlaced | malloclab/mm-naive.c:74-101 | the chunk of a placed id keeps its place and size for ever, and is in use if and only if the id is live |
| Trace.UsedChunksAreLive | malloclab/mm-naive.c:74-128 | the heap holds exactly as many used chunks as there are live ids |
| Trace.LiveOrderIsLive | malloclab/mdriver.c:388-391 | the order of insertion lists each live id once and no other |
| Trace.RemoveById | malloclab/mdriver.c:607 | removing by start address removes the range of that id |
| Trace.RangesAreLive | malloclab/mdriver.c:542-650 | after any request the driver's list is exactly the payloads of the live ids, newest first |
| Trace.RangesCount | malloclab/mdriver.c:388-414 | the list has one record for each live id |
| Trace.RangesDisjoint | malloclab/mdriver.c:372-381 | with this allocator the recorded ranges are pairwise disjoint and below the break |
| Trace.RunningTotalIsLive | malloclab/mdriver.c:692-732 | the running total is always the sum of the sizes of the live blocks |
| Trace.RunningTotalFits | malloclab/mdriver.c:692-742 | the heap holds the live payload and one header per live block |
| Trace.PeakIsMaximum | malloclab/mdriver.c:696-720 | the high-water mark is the maximum of the live payload over all prefixes, and is attained |
| Trace.PeakFits | malloclab/mdriver.c:742 | it never exceeds the heap size, strictly less once there is a request |
| MDriver.FilledStep | malloclab/mdriver.c:590-627 | serving a request keeps every live payload filled with its own id's byte |
| MDriver.SizeServed | malloclab/mm-naive.c:76-80 | for a request of a trace, the 32-bit size is refused by mem_sbrk exactly when the total demand exceeds MAX_HEAP, and otherwise is the demand the request adds |
| MDriver.ServeAlloc | malloclab/mdriver.c:572 | the request succeeds exactly when the total demand so far fits, at base + 16 + earlier demand |
| MDriver.ServeRealloc | malloclab/mdriver.c:601 | the same for a reallocation, with the old payload's prefix moved |
| MDriver.ServeFree | malloclab/mdriver.c:639 | freeing a live id keeps the heap in step with the trace |
| MDriver.NewRangeAccepted | malloclab/mdriver.c:582-611 | add_range accepts every block this allocator returns |
| MDriver.FillBlock | malloclab/mdriver.c:590 | the payload holds only the id's low byte; headers and the rest of memory are kept |
| MDriver.MovedBlock | malloclab/mdriver.c:618-626 | after a reallocation the first min(old, new) bytes are the old fill, and nothing else below the old break moved |
| MDriver.SameBytes | malloclab/mdriver.c:620-626 | the comparison loop succeeds exactly when every byte reads back as the id's low byte |
| MDriver.FillReadsBack | malloclab/mdriver.c:621 | filled bytes read back through `char` if and only if `char` is unsigned or the byte is below 128 |
| MDriver.CheckCopied | malloclab/mdriver.c:618-626 | so the comparison fails for no other reason |
| MDriver.CheckAlloc | malloclab/mdriver.c:569-595 | passes exactly when the demand fits, and keeps heap, books, fill and range list in step |
| MDriver.CheckRealloc | malloclab/mdriver.c:597-632 | passes exactly when the demand fits and the id reads back, and keeps all four in step |
| MDriver.CheckFree | malloclab/mdriver.c:634-640 | always passes and keeps all four in step |
| MDriver.CheckServedHeap | malloclab/mm-naive.c:131-155 | at any point of a validated run mm_checkheap counts one used chunk per recorded range and live id; used and free chunks are all requests so far, and their bytes the whole demand |
| MDriver.EvalMmValid | malloclab/mdriver.c:542-650 | returns 1 if and only if the whole demand is at most 209715200 bytes and every reallocated id reads back; then heap, books, fill and list are those of the trace |
| MDriver.AcceptedExactly | malloclab/config.h:59 | the same condition from sizes and ids alone: the sum of headers and rounded sizes is at most 209715200, and where `char` is signed no reallocated id has a low byte from 128 up |
| MDriver.Capacity | malloclab/config.h:59 | n allocations of one size pass exactly while n headers and n rounded payloads fit 209715200 bytes |
| MDriver.PagesFit | malloclab/config.h:59 | blocks of 4080 bytes pass exactly up to 51200 of them |
| MDriver.LargestBlock | malloclab/config.h:59 | one block passes exactly up to 209715184 bytes |
| MDriver.Short1Accepted | malloclab/short1.rep:1-16 | this trace file is well formed and accepted, needs 16480 bytes, and has a high-water mark of 8144 |
| MDriver.SignedCharExample | malloclab/mdriver.c:621 | a well-formed trace of 64 heap bytes that fails where `char` is signed and passes where it is not |
| MDriver.ReplayRequest | malloclab/mdriver.c:762-790 | an unchecked replay of a request fails exactly when the demand no longer fits, and keeps addresses in step |
| MDriver.Account | malloclab/mdriver.c:689-732 | the update of sizes and total is the one of the trace |
| MDriver.TotalsStep | malloclab/mdriver.c:694-732 | a free cannot raise the mark, and totals of a fitting trace stay in `int` range |
| MDriver.MeasureRequest | malloclab/mdriver.c:676-732 | one iteration keeps heap, addresses, sizes, total and high-water mark in step with the trace, or reaches app_error exactly when the demand no longer fits |
| MDriver.EvalMmUtil | malloclab/mdriver.c:663-743 | reaches app_error exactly when the trace does not fit; otherwise the quotient is peak live payload over heap size, in [0, 1), undefined exactly for the empty trace |
| MDriver.EvalMmSpeed | malloclab/mdriver.c:750-791 | reaches app_error exactly when the trace does not fit |
| MDriver.EvalTrace | malloclab/mdriver.c:262-277 | after an accepted validation no replay ever exits, every block ends where the validation left it, and heap and list are left fit for the next trace |
| MDriver.EvalTraces | malloclab/mdriver.c:258-312 | over any number of traces on one heap and one list: each is accepted or refused as it would be alone, the program never exits early, and the count is the number of traces marked valid, which is the number of accepted ones |
| Hashing.Hash | threadlab/htable.c:32-41 | the hash of every key lies in 0..BIG_PRIME |
| Hashing.PolyDigits | threadlab/htable.c:32-41 | the number a key stands for gives each character its place value, a power of 256 |
| Hashing.HashIsPoly | threadlab/htable.c:17-41 | it is congruent modulo BIG_PRIME to the key read in base 256 |
| Hashing.HashExact | threadlab/htable.c:17-41 | the hash is that number's remainder by 1560007, with 1560007 in place of 0, and 0 only for the empty key |
| Hashing.UpperEndReached | threadlab/htable.c:18-21 | the inclusive upper end is attained by a four-character key |
| Hashing.Hashcode | threadlab/htable.c:32-41 | the loop computes the hash and no intermediate value leaves 32-bit range |
| Primes.TestExact | threadlab/htable.c:45-58 | what the test answers is primality if and only if the number is at least 2 |
| Primes.PrimeMeaning | threadlab/htable.c:44-58 | a prime is a number from 2 on that is no product of two numbers from 2 on |
| Primes.TestPrime | threadlab/htable.c:44-58 | trial division by 2 and odd numbers is exact |
| Primes.PrimeAbove | threadlab/htable.c:62-70 | above every number there is a prime, so the search ends |
| Primes.GetPrime | threadlab/htable.c:61-70 | terminates for every argument at the first number that passes; that is a prime if and only if the argument is at least 2, and larger than the argument if and only if the argument does not pass |
| HTable.Node.Free | threadlab/htable.c:94 | only a live node can be freed, and then it is not live |
| HTable.PushedMembers | threadlab/htable.c:117-129 | a new chain holds exactly the nodes of its slot, once each |
| HTable.FlattenNoDup | threadlab/htable.c:117-121 | the traversal of all chains meets each node once |
| HTable.FlattenConcat | threadlab/htable.c:117-121 | the traversal takes the slots in order and each chain from its head |
| HTable.Rebuilt | threadlab/htable.c:109-136 | the rehashed chains are again a table of the same nodes and the same map |
| HTable.FreeLinkedList | threadlab/htable.c:90-96 | frees every node of the list, each while it is live |
| HTable.HTable.constructor | threadlab/htable.c:73-81 | an empty table of the least accepted size above sz, which is prime if and only if sz is positive |
| HTable.HTable.Walk | threadlab/htable.c:148-158 | stops at the key's node with its value, or at the end having counted the chain, and then the key is absent |
| HTable.HTable.Lookup | threadlab/htable.c:180-192 | returns the mapped value, or NULL for an absent key |
| HTable.HTable.PushFront | threadlab/htable.c:122-129 | pushes one node on one new list and leaves the others as they are |
| HTable.HTable.MoveChain | threadlab/htable.c:118-130 | after a whole old chain, each new list is the reversed filter of all nodes met so far |
| HTable.HTable.Resize | threadlab/htable.c:109-136 | same nodes, same map; each chain is the reverse of the old traversal filtered to its slot; the new size is the least accepted one from twice the old, strictly more from size 2 on |
| HTable.ShapeAppended | threadlab/htable.c:160-171 | a node with a new key at the end of its slot's chain adds exactly that pair |
| HTable.HTable.LinkLast | threadlab/htable.c:167-171 | links the node at the end of its list and keeps every other list |
| HTable.HTable.Insert | threadlab/htable.c:141-176 | 1 and no change for a known key; else one fresh node hangs at the end of its chain and the map gains the pair; the table is resized exactly when that chain exceeds 10 nodes and resizing is allowed, so it grew or the chain is short |
| HTable.HTable.Destroy | threadlab/htable.c:99-105 | frees every node ever inserted, none twice, and no other |
| HTable.FirstInsertWins | threadlab/htable.c:139-176 | the reference map holds exactly the inserted keys, each with the value of its first insertion |
| HTable.AnswerMeaning | threadlab/htable.c:139-192 | in the reference map an insertion answers 1 exactly when its key was inserted before, and a lookup gives the first inserted value, or NULL |
| HTable.Replay | threadlab/htable.c:73-192 | the same for every sequence of operations on the real table, for every initial size and with or without resizing, stated by the earlier operations alone |
| TestHash.Owner | threadlab/testhash.c:51-56 | every key index belongs to exactly one thread |
| TestHash.ShareMeaning | threadlab/testhash.c:51-54 | every thread but the last owns its share of keys / threads indices, and the last owns all from its start |
| TestHash.StepMeaning | threadlab/testhash.c:56-72 | step 2j of a thread inserts the j-th key of its share, step 2j + 1 inserts or looks up the key computed from the thread and that index, and it stops after its share |
| TestHash.AfterMeaning | threadlab/testhash.c:87-101 | a run starts with an empty table and all threads at their first step, and follows the schedule |
| TestHash.StepSound | threadlab/testhash.c:56-72 | one step of any thread keeps: only own values, and every finished insertion is visible |
| TestHash.AlwaysSound | threadlab/testhash.c:46-74 | so it holds after every prefix of every interleaving |
| TestHash.FinalTable | threadlab/testhash.c:106-116 | every interleaving that runs all threads to the end maps every key to its own value and holds no other key |
| TestHash.LookupSound | threadlab/testhash.c:62-69 | a mixed-phase lookup sees NULL or the matching value, and not NULL once the key's insertion is done |
| TestHash.CanFinish | threadlab/testhash.c:99-101 | from every reachable state the threads can be run to the end |
| TestHash.RunStep | threadlab/testhash.c:56-72 | on any table, a step is the step of the model, and reaches test_fatal exactly when a lookup finds another value than the key's own |
| TestHash.RunThreads | threadlab/testhash.c:94-101 | the table ends as the model says and test_fatal is never reached |
| TestHash.Validate | threadlab/testhash.c:107-121 | the validation loop passes exactly when every key has its own value |
| TestHash.TestHtable | threadlab/testhash.c:76-146 | the test passes exactly when the first phase has left every key in the table, so under every schedule whose first phase finishes |
| Fcyc.BestMeaning | malloclab/fcyc.c:67-88 | the K best are sorted, min(n, K) of the samples, and none larger than any sample left out |
| Fcyc.BestUnique | malloclab/fcyc.c:67-88 | no other sequence has that property |
| Fcyc.BestStep | malloclab/fcyc.c:70-76 | how one sample changes the K best: added, exchanged for the largest, or ignored |
| Fcyc.InsertAt | malloclab/fcyc.c:82-87 | where the insertion sort puts the new sample |
| Fcyc.ConvergedMeaning | malloclab/fcyc.c:93-98 | convergence is that each of the K smallest is within a factor 1 + epsilon of the minimum |
| Fcyc.ConvergedCount | malloclab/fcyc.c:93-98 | without any sorting: at least K samples are within a factor 1 + epsilon of the minimum |
| Fcyc.Sampler.SiftDown | malloclab/fcyc.c:82-87 | the in-place loop inserts the sample into the sorted prefix |
| Fcyc.Sampler.AddSample | malloclab/fcyc.c:67-88 | the buffer stays exactly the K smallest of all samples seen |
| Fcyc.Sampler.HasConverged | malloclab/fcyc.c:93-98 | answers convergence of the samples seen |
| Fcyc.Sampler.Measure | malloclab/fcyc.c:129-168 | the samples are the first n measurements, in order, with n from 1 to max(1, maxsamples); the result is the least of them, and n is the first prefix that has converged, or the budget |

## Left out

- MmNaive.Allocator.Malloc: requests whose 32-bit chunk size is 0 (`MmNaive.NewSizeModulo`), which put a header past the break; the driver cannot make them.
- MmNaive.Allocator.Realloc: the same requests, and those whose truncated chunk is too small for the bytes copied into it, which write past the break; the driver cannot make them either.
- MmNaive.Allocator.Free: a pointer that is not the payload of a chunk; its last assert also excludes the payload of a zero-size last chunk.
- MemLib.Heap.constructor: failure of the C library's `malloc`; its result is taken to be 16-byte aligned, as an assert in `mm_malloc` needs.
- MDriver.EvalMmValid: malformed traces, that is, an id that is out of range, allocated while live, or freed or reallocated while not live, and sizes that are not positive `int`s. Messages and the error counter are not modelled.
- MDriver.EvalMmUtil: the quotient is a real, not a `double`.
- MDriver.EvalTraces: reading and releasing traces, options, libc's allocator, throughput and the performance index.
- Hashing.Hashcode: negative key characters, which exist where `char` is signed.
- Primes.GetPrime: 32-bit overflow of the candidate and of the doubled table size, which needs a table of about 2^30 slots.
- HTable.HTable.Insert: keys are values; a caller that overwrites a key buffer after inserting it is not covered. Failure of `malloc` is not modelled.
- HTable.HTable.Resize: the release of the old slot array.
- TestHash.TestHtable: the table has no locks of its own, so each operation is taken as one atomic step; random keys are any distinct keys; threads, clocks and printing are not modelled.
- Fcyc.Sampler.Measure: doubles are reals, the measured function and cycle counter are a stream; the compensated and cache-clearing paths and the release of the buffer are left out. At least one sample is kept (K >= 1).
- Unfinished student code (`mm.c`, `rwlock.c`, the other labs) has no behaviour to model.
