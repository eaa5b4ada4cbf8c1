# Verified models of the stateful cores of the CS:APP labs

The repository holds C solutions to the CS:APP labs. This project models the parts of it
that keep state, with the same branches, constants and error outcomes as the C code, and
proves what those parts are for.

**The allocator** (`malloclab/mm.c` on `malloclab/memlib.c`) is the largest part. A class
`Heap` holds the arena as an array of 32-bit words and does what the C code does to it:
header words with a flag in the low bit, footer words, and a circular doubly linked list
threaded through the free blocks. A value `State` says what those words mean: where every
block lies, what its last word is, the order of the list, and the live requests.
`Repr(mem, s)` ties the two together. Each method is proved to turn the memory of one state
into the memory of the state that a specification function gives, and to leave the payload
words of every block that was and stays allocated as they were. The specification functions are
then proved to keep the heap invariant, `Inv`:

* the blocks tile the heap from the prologue to the epilogue,
* the last word of a block is 0 or the block's size (a merge writes the footer and then clears
  the word again, so it is not always the size),
* the list visits every free block exactly once and nothing else,
* every live request lies in an allocated block that has room for it.

What each operation does to the blocks and to the order of the list is then stated once more
without these functions (`AllocatorEffects.dfy`): which blocks a free merges, where a request is
served and what is cut off, when a resize stays in place, and what the pass of `expand_heap`
leaves unmerged.

On top of that stands the driver's validity run (`eval_mm_valid` in `malloclab/mdriver.c`),
as a method: for every well-formed trace its checks of alignment, bounds and overlap pass at
every request, and its comparison of the old contents fails exactly for the ids whose low byte
it reads as a negative number.

**The protocols** (the bounded buffer and the readers/writer lock of `proxylab/proxy.c`, and
the shell's job table under SIGCHLD in `shelllab/tsh.c`) are state machines: a step is one
semaphore operation or one access to shared state, any number of threads may step in any
order, and the theorems are about every run.

**The smaller cores** are the replacement cache of the proxy, the cache simulator, the Rio
reader, the number printer, the blocked transpose and the K-best sampler. Each is a class or
method over arrays with the loops of the C code, proved against a specification function.

Every lemma is marked `{:induction false}`: where a proof is by induction, the induction is
written out.

| file | models |
|---|---|
| `Basics.dfy` | small functions that several modules use |
| `Words.dfy` | 32-bit words, size words, the bytes of a word |
| `HeapState.dfy` | the meaning of the heap: tiling, footers, list, live requests |
| `AllocatorSpec.dfy` | what each allocator operation does to that meaning, and what it keeps |
| `AllocatorEffects.dfy` | the same operations told from the blocks and the list before and after alone |
| `HeapMemory.dfy`, `HeapSteps.dfy` | how memory words represent a state, and what single writes do |
| `Allocator.dfy` | `mm.c` and `memlib.c` over an array of words |
| `HeapTheorems.dfy` | consequences of the invariant; what growing the last block breaks |
| `Driver.dfy` | the validity run of `mdriver.c` |
| `Counting.dfy`, `ConnectionBuffer.dfy`, `CacheLock.dfy` | the two semaphore protocols |
| `ObjectCache.dfy` | the ten-line cache of the proxy |
| `CacheSimulator.dfy` | `csim.c` |
| `JobTable.dfy`, `Shell.dfy` | the job table and its runs under signals |
| `Rio.dfy`, `LongToString.dfy` | buffered reading and number printing of `csapp.c` |
| `Transpose.dfy`, `Sampler.dfy` | `trans.c` and the sampler of `fcyc.c` |

Where the code does not do what its comments or documentation say, the model follows the code:

* `mm_realloc` grows the last block without writing its footer (`malloclab/mm.c:310-321`).
  Among the sizes for which no sum wraps, `AllocatorSpec.ReallocInv` proves that this case,
  given by a guard a caller could evaluate, is the only one that breaks the invariant: the heap
  is well formed afterwards if and only if the guard is false.
  `HeapTheorems.GrowingLastBlockBreaksFooter` gives an input, and
  `AllocatorSpec.GrownLastShape` proves that this footer is then the only thing that is wrong.
  Once another block lies behind, `coalesce` computes from it a place inside the live payload and
  takes it for a free block exactly when the word there is even and not zero
  (`HeapTheorems.GrownFooterMisleads`); the driver's own fill bytes can make it so
  (`Driver.GrownTraceMisleads`).
* A resize can end the process although the arena has room: the unsigned difference wraps when
  the last block holds slightly more than needed, even when the size does not change.
  `AllocatorSpec.ReallocExitsExactly` gives the exact condition for an exit,
  `HeapTheorems.SlightlySmallerLastBlockExits` the one that is left when there is room, and
  `Driver.SameSizeExits` a trace of two requests.
* The rounded block size has room for the request if and only if the sum in `get_block_size`
  does not wrap, that is, up to 2^32 - 20 bytes (`Words.BlockSizeHasRoom`);
  `Words.BlockSizeWraps` gives an input for which it wraps. `mm_realloc` adds 16 to that size,
  and neither sum wraps up to 2^32 - 36 bytes (`Words.RepresentableIs`). Between the two bounds
  its test for a block that can be cut always succeeds, and the cut lies in front of the block
  (`HeapTheorems.CutTestWraps`, with an input in `HeapTheorems.HugeResizeCutsInFront`). Above
  the first bound the test is exact again, but the rounded size is at most 16 and a cut lies at
  the block itself or at most four words behind it (`HeapTheorems.SmallCut`).
* The driver compares old contents through a pointer to `char`, which is signed in this build,
  with an unsigned low byte of the id. It therefore rejects contents that were kept when that
  byte is 128 or more. `Driver.FailsExactly` proves that a run fails then and only then;
  `Driver.MisreadTraceFails` gives a trace.
* The proxy collects a reply in a buffer of 8192 characters, copies a cached object as a C
  string, and sends it by its size. The loop stays inside the buffer and a hit sends the server's
  bytes, whatever the line held before, if and only if fewer than 8192 characters are collected
  and the object has no NUL in front of its last byte (`ObjectCache.SendsBackExactly`).
  `ObjectCache.LongObjectOverruns` gives an object of two lines that overruns the buffer although
  it is far smaller than a cache line, `ObjectCache.NulBreaksTheMap` two requests with different
  answers.
* The simulator's victim is not always the least recently used line.
  `CacheSimulator.VictimOfRun` proves exactly when it is;
  `CacheSimulator.NotLeastRecentlyUsed` gives a reference string for which it is not.
* The number printer fails on the least long, and only there (`LongToString.TextRoundTrip`).
  C leaves the negation of that number undefined; the model takes it to wrap around.
* `transpose_submit` takes matrices with 32 or 64 columns to be square;
  `Transpose.TransposeSubmit` says which cells it then leaves alone and exactly when the
  result is still the transpose. `Transpose.LastRowMissing` gives a matrix for which it is not.
* A child is missing from the job table exactly when more than sixteen children were to be
  entered (`Shell.LostExactlyWhenFull`), as in the run of `Shell.SeventeenthChildIsLost`; the
  handler follows a null job pointer exactly when it prints a message about such a child
  (`Shell.CrashesExactly`).

## Model

| member | source | states |
|---|---|---|
| Words.BlockSizeHasRoom | malloclab/mm.c:58-63 | the rounded size is a multiple of 4 with room for header, payload and footer and less than 4 bytes more, exactly when the 32-bit addition does not wrap |
| Words.RepresentableIs | malloclab/mm.c:300 | neither the rounding sum nor the sum in mm_realloc's comparison wraps, exactly for requests up to 2^32 - 36 bytes |
| Words.BlockSizeWraps | malloclab/mm.c:58-63 | a concrete request for which the addition wraps and the rounded size is 0 |
| HeapState.MergeTiled | malloclab/mm.c:139-172 | joining two neighbouring blocks keeps the tiling and removes exactly one block |
| HeapState.SplitTiled | malloclab/mm.c:87-104 | cutting a block in two keeps the tiling; no block started at the cut before |
| HeapSteps.PrevTest | malloclab/mm.c:129-134 | although footers may be 0, coalesce's test of the word in front of a block succeeds only for the true physical predecessor, which is then free; it fails for the first block because of the prologue |
| HeapSteps.FreePredIs | malloclab/mm.c:129-134 | the test finds the physical predecessor exactly when that block is free and its footer is not 0 |
| HeapSteps.NextTest | malloclab/mm.c:136-137 | the test of the next header succeeds exactly when a free block follows, also in front of the epilogue |
| HeapSteps.AbsorbedRepr | malloclab/mm.c:152-169 | the writes of a merge, in the order in which the footer is written and then cleared, give the memory of the merged state |
| HeapSteps.BothRepr | malloclab/mm.c:139-150 | the same for a merge with both neighbours |
| HeapSteps.RingReads | malloclab/mm.c:107-111 | following `next` in memory follows the abstract list, ends at the head exactly after its last element, and meets free blocks only |
| HeapMemory.UnlinkOK | malloclab/mm.c:72-76 | after the two pointer writes of remove_from_list the list in memory is the old one without that element |
| HeapMemory.LinkInOK | malloclab/mm.c:79-84 | after the four pointer writes of insert_to_list the list in memory has the block right behind the given one |
| Allocator.Heap.constructor | malloclab/memlib.c:25-35 | a heap over an arena with an empty list and no words in use |
| Allocator.Heap.MemResetBrk | malloclab/memlib.c:48-51 | the break returns to the start; the list can still be walked |
| Allocator.Heap.Sbrk | malloclab/memlib.c:58-69 | returns the old break and advances it if the words fit the arena, else reports failure and changes nothing |
| Allocator.Heap.ClearBlock | malloclab/mm.c:65-70 | zeroes the header, both links and the footer word found through the old header, and nothing else |
| Allocator.Heap.RemoveFromList | malloclab/mm.c:72-76 | the list in memory loses exactly this block; no word but links changes |
| Allocator.Heap.InsertToList | malloclab/mm.c:79-84 | the list in memory gains the block right behind the given one; no word but links changes |
| Allocator.Heap.SplitBlock | malloclab/mm.c:87-104 | both parts get their tags and the new one is put behind the block, or at the front when the block is allocated |
| Allocator.Heap.FindFit | malloclab/mm.c:107-124 | takes the first block on the list that is large enough, with the source's split rule; if there is none, changes nothing |
| AllocatorSpec.FirstFit | malloclab/mm.c:108-111 | every block passed over on the list is too small and the one found is large enough |
| AllocatorSpec.TakeInv | malloclab/mm.c:107-124 | taking a fit keeps the invariant with that block off the list, changes no allocated block, and leaves at most 16 bytes more than asked for |
| Allocator.Heap.LookAround | malloclab/mm.c:128-137 | the four computed values of coalesce agree with the true neighbours |
| Allocator.Heap.Coalesce | malloclab/mm.c:126-174 | all four branches turn memory and state into those of the specification, and leave every allocated payload alone |
| AllocatorSpec.CoalesceInv | malloclab/mm.c:126-174 | coalescing keeps tiling, footers and list in step, changes no allocated block, and for a block on the list either does nothing or shortens the list |
| Allocator.Heap.SweepList | malloclab/mm.c:180-185 | the loop of expand_heap ends, although coalesce can jump to a node anywhere on the list, and does what the specification does |
| AllocatorSpec.SweepInv | malloclab/mm.c:179-185 | the sweep keeps the invariant and every allocated block, and touches nothing but free blocks and the list |
| Allocator.Heap.ExpandHeap | malloclab/mm.c:176-216 | sweeps, extends the arena, turns the old epilogue into the header of a free block and writes a new epilogue; or reports the exit |
| AllocatorEffects.ExpandMerges | malloclab/mm.c:179-185 | after the pass an old free block that still has an old free successor has itself been merged in the pass, unless the pass skipped it behind a merge into a predecessor that comes later on the list |
| AllocatorSpec.ExpandInv | malloclab/mm.c:176-216 | expanding keeps the invariant and every live request, and succeeds exactly when the words fit the arena |
| AllocatorSpec.ExpandedHeadFits | malloclab/mm.c:187-215 | the new free block has exactly the size asked for, is at the front of the list, and ends at the epilogue, so the next first fit for this size finds it |
| Allocator.Heap.MmMalloc | malloclab/mm.c:249-261 | memory and result are those of the specification, the heap is well formed, and no payload of a live request changes |
| AllocatorSpec.MallocInv | malloclab/mm.c:249-261 | every representable request is either served, at a place that was not live and with the invariant kept, or exits; it exits exactly when no free block is large enough and the growth does not fit the arena, is never refused after an expansion, and every other live request keeps its block |
| Allocator.Heap.MmFree | malloclab/mm.c:266-275 | memory is that of the specification, the heap is well formed, and no other payload changes |
| AllocatorSpec.FreeInv | malloclab/mm.c:266-275 | freeing keeps the invariant, ends exactly this request, and leaves every other request's block alone |
| AllocatorEffects.CoalesceMerges | malloclab/mm.c:126-174 | a free block, its free successor, and its free predecessor if that has a footer, become one free block with a cleared footer; all other blocks and the order of the list stay |
| AllocatorEffects.FreeMerges | malloclab/mm.c:266-275 | the same for mm_free; the block is first on the list unless it was merged into its predecessor, which keeps its place |
| AllocatorEffects.MallocFromList | malloclab/mm.c:107-124 | the first block on the list that is large enough serves the request, cut if more than a header and a footer is left, and the rest takes its place on the list; no other block changes |
| AllocatorEffects.MallocFromChunk | malloclab/mm.c:249-261 | with no such block and room for max(size, 4096) bytes, the request is served where the epilogue was and the rest of the chunk is first on the list |
| AllocatorSpec.ShrinkInv | malloclab/mm.c:300-304 | shrinking in place keeps the invariant |
| Allocator.Heap.MmRealloc | malloclab/mm.c:280-350 | in every branch memory and result are those of the specification, no other payload changes, the first min(old request, new size) bytes are kept, the heap is well formed exactly unless the last block was grown, and after every outcome mm_init can walk the list |
| AllocatorSpec.ReallocInv | malloclab/mm.c:280-350 | the invariant holds afterwards if and only if the call did not grow the last block in place |
| AllocatorSpec.ReallocResizes | malloclab/mm.c:297-304 | apart from that case a successful resize gives one live request of the new size at the old or at a fresh place, keeps all others and keeps the invariant; it is successful exactly when ReallocExits is false |
| AllocatorEffects.ResizedBlock | malloclab/mm.c:280-350 | after every successful resize to a size other than 0 the block has the rounded size or at most 16 bytes more |
| AllocatorEffects.ResizeCuts | malloclab/mm.c:297-304 | a block with more than 16 bytes to spare stays, is cut to exactly the rounded size, and the rest is a free block and first on the list; nothing else changes |
| AllocatorEffects.ResizeJoins | malloclab/mm.c:324-340 | so is a block that has that much to spare together with its free successor |
| AllocatorEffects.ResizeMoves | malloclab/mm.c:327-349 | in all other cases that neither exit nor grow the last block: the free successor is taken over, mm_malloc serves the new size, mm_free gives up the old block |
| AllocatorEffects.NullAndNothing | malloclab/mm.c:280-289 | a null pointer is left to mm_malloc and a size of 0 to mm_free; freeing NULL does nothing |
| AllocatorSpec.ReallocExitsExactly | malloclab/mm.c:280-345 | the process exits exactly when the last block holds slightly more than needed, or its extension does not fit, or the block can neither be cut nor grow into a free successor and no other free block nor the arena has room |
| AllocatorSpec.GrownLastShape | malloclab/mm.c:308-321 | after growing the last block the tiling, the list, the live requests and all other footers are right; the block's last word holds the size of the part added |
| AllocatorSpec.ReallocShape | malloclab/mm.c:280-350 | after every outcome the tiling, the list and the live requests are in order |
| AllocatorSpec.ReallocInPlaceOrMove | malloclab/mm.c:324-350 | the branch that takes over the next free block, whether it then splits or moves, and the branch that moves |
| AllocatorSpec.MoveInv | malloclab/mm.c:342-349 | malloc, copy and free keep the invariant and every other request |
| Allocator.Heap.Move | malloclab/mm.c:342-349 | the copy gives the new payload the bytes of the old one, and no other payload changes |
| Allocator.Heap.CopyBytes | malloclab/mm.c:347 | memcpy on words: the first n bytes agree, also when n is not a multiple of 4, and nothing outside the destination changes |
| HeapTheorems.GrowingLastBlockBreaksFooter | malloclab/mm.c:308-321 | a one-block heap on which growing the last block leaves a footer that is neither 0 nor the size |
| HeapTheorems.GrownFooterMisleads | malloclab/mm.c:129-134 | behind a grown block the computed predecessor lies inside the live payload, where no block starts, and is taken for free exactly when the word there is even and not zero |
| HeapTheorems.SlightlySmallerLastBlockExits | malloclab/mm.c:310-314 | with room in the arena for a whole new block, a resize exits exactly when the last block is larger than needed by no more than a header and footer |
| HeapTheorems.CutTestWraps | malloclab/mm.c:300 | the test for a block that can be cut agrees with the one without wrap-around exactly for representable sizes; for the others it succeeds and the cut lies one to four words in front of the block |
| HeapTheorems.SmallCut | malloclab/mm.c:300-301 | for sizes whose rounding wraps the test does not wrap, and the cut lies at the block or at most four words behind it |
| HeapTheorems.CutBlockIsLost | malloclab/mm.c:300-303 | the header that a cut with a rounded but not representable size writes is the header of no block in any heap |
| HeapTheorems.HugeResizeCutsInFront | malloclab/mm.c:300-301 | a resize to 2^32 - 30 bytes for which the new block would start in front of the heap |
| Allocator.Heap.MmInit | malloclab/mm.c:221-243 | from any heap whose list can be walked, init gives the initial well-formed heap, and succeeds exactly when prologue and first chunk fit |
| AllocatorSpec.InitialReady | malloclab/mm.c:234-242 | the initial heap satisfies the invariant |
| HeapTheorems.EveryWordInOneBlock | malloclab/mm.c:43-51 | every word between prologue and epilogue belongs to exactly one block |
| HeapTheorems.HeapAccounted | malloclab/mm.c:176-216 | the sizes of all blocks add up to the heap without prologue and epilogue: no word is lost |
| HeapTheorems.ListIsTheFreeBlocks | malloclab/mm.c:72-84 | the list read from memory, in either direction, visits every block with a clear flag once and nothing else |
| HeapTheorems.LivePayloadsApart | malloclab/mdriver.c:390-416 | every live payload starts on a multiple of 4, lies in its block inside the heap, and is disjoint from every other |
| Driver.Driver.AddRange | malloclab/mdriver.c:381-429 | the three checks of a new payload succeed exactly when it is aligned, in the heap, and has no end inside a recorded payload; only then is it recorded |
| Driver.Driver.RemoveRange | malloclab/mdriver.c:434-447 | removes the first record that starts at the address, and nothing if there is none |
| Driver.NewRangePasses | malloclab/mdriver.c:390-416 | on a well-formed heap a new live payload passes the checks |
| Driver.Driver.ServeAlloc | malloclab/mdriver.c:602-628 | one allocation of the run never fails a check, and exits exactly when the specified call does |
| Driver.Driver.CheckBytes | malloclab/mdriver.c:651-659 | the loop decides whether every byte, read as a signed char, is the low byte of the id |
| Driver.FilledReadsBack | malloclab/mdriver.c:653-658 | contents that were kept pass this comparison exactly when the byte is below 128 |
| Driver.Driver.ServeRealloc | malloclab/mdriver.c:630-665 | one resize, also one that grows the last block, passes alignment, bounds and overlap; it fails exactly when the call returns and the id's low byte is 128 or more, and the run stops exactly when the specified call exits or has grown the last block |
| Driver.Driver.ServeFree | malloclab/mdriver.c:667-673 | one free keeps the driver's books and the heap in agreement |
| Driver.Driver.EvalMmValid | malloclab/mdriver.c:575-683 | for every well-formed trace and every arena the run fails exactly when the allocator serves the trace up to and including a resize of an id whose low byte is 128 or more; otherwise its verdict is how far the allocator gets: it passes unless a request exits or the last block has been grown. After a pass the live blocks are exactly those of the ids whose last request is not a free, with the sizes last asked for. Unless it has exited, the next trace can be run |
| Driver.FailsExactly | malloclab/mdriver.c:596-682 | the driver's verdict is a failure exactly at the first such resize, and the allocator's own otherwise |
| Driver.MisreadTraceFails | malloclab/mdriver.c:653-658 | allocating one byte under id 128 and resizing it to one byte fails although the byte is kept |
| Driver.GrownTraceGrows | malloclab/mm.c:308-321 | after 4072 bytes as the first request on a new heap, a resize to 8000 bytes grows the last block to 2004 words with 3924 in its footer |
| Driver.GrownTraceMisleads | malloclab/mm.c:129-134 | with those 8000 bytes filled by the driver for id 2 and a block of 16 bytes behind them, the test in front of that block succeeds at a word inside the live payload |
| Driver.SameSizeExits | malloclab/mm.c:308-314 | allocating 4072 bytes first and resizing them to 4072 bytes exits, whatever room the arena has |
| ConnectionBuffer.StepInv | proxylab/proxy.c:102-118 | every step of produce and consume keeps the accounts of the 32 slots, the order of the items and the contents of the buffer |
| ConnectionBuffer.FirstInFirstOut | proxylab/proxy.c:94-118 | in every run of any producers and consumers the items removed are a prefix of those inserted, and 0 <= tail - front <= 32 |
| ConnectionBuffer.NoOverwrite | proxylab/proxy.c:103-105 | a producer about to write does not overwrite an item that is still to be read |
| ConnectionBuffer.NoUnderrun | proxylab/proxy.c:112-114 | a consumer about to read finds an inserted item |
| ConnectionBuffer.BlockedExactly | proxylab/proxy.c:102-118 | a thread is blocked exactly in front of a full buffer, an empty one, or a thread inside the short section |
| ConnectionBuffer.ProduceInserts | proxylab/proxy.c:102-108 | the six steps of produce insert its item and take a slot |
| ConnectionBuffer.ConsumeRemoves | proxylab/proxy.c:110-118 | the six steps of consume return the oldest item and free a slot |
| ConnectionBuffer.ThirtyTwoFit | proxylab/proxy.c:94-108 | 32 items fit the buffer before anything is consumed |
| ConnectionBuffer.NoDeadlock | proxylab/proxy.c:102-118 | with a producer and a consumer some thread can always step |
| CacheLock.StepInv | proxylab/proxy.c:228-240 | every step of the reader's entry and exit and of the writer keeps readcnt and both semaphores in agreement with the places of the threads |
| CacheLock.MutualExclusion | proxylab/proxy.c:74-80 | in every run there is at most one writer, never beside a reader, and readcnt is the number of threads between increment and decrement |
| CacheLock.BlockedReaderWaitsForWriter | proxylab/proxy.c:230-233 | a reader blocked on `writer` while holding `mutex` implies that readcnt is 1 and a writer is inside |
| CacheLock.BlockedExactly | proxylab/proxy.c:228-240 | exactly when a thread is blocked in P and by whom; readers do not wait for readers that are reading |
| CacheLock.HitEnters | proxylab/proxy.c:230-233 | with mutex free and no writer, the four steps of a hit end with that thread reading beside those that read already |
| CacheLock.ReaderLeaves | proxylab/proxy.c:237-240 | its four steps out; the last reader gives writer back |
| CacheLock.MissWrites | proxylab/proxy.c:74-80 | with nobody inside a miss writes, and leaves the semaphores as they were |
| CacheLock.TwoRead | proxylab/proxy.c:228-233 | a run of two threads in which both read at the same time |
| CacheLock.NoDeadlock | proxylab/proxy.c:228-240 | whatever each thread wants to do next, some thread can step |
| ObjectCache.Cache.constructor | proxylab/proxy.c:28-40 | the empty cache over zeroed memory |
| ObjectCache.Cache.FindCacheHit | proxylab/proxy.c:43-51 | reports a miss exactly when the url is not stored, else a line that holds its entry |
| ObjectCache.Cache.ChooseLine | proxylab/proxy.c:55-72 | the first invalid line, or the line of the oldest entry: a full cache always finds a victim |
| ObjectCache.Cache.WriteCache | proxylab/proxy.c:53-81 | a write after a miss copies the C string over what the line held, enqueues it and drops the oldest entry of ten; an object that is too large changes nothing |
| ObjectCache.OldestIs | proxylab/proxy.c:64-71 | the victim's timestamp is strictly the least, so the loop's strict comparison finds it |
| ObjectCache.WriteShows | proxylab/proxy.c:74-80 | after the writes the lines show the new first-in-first-out map, with distinct urls and timestamps |
| ObjectCache.StrCat | proxylab/proxy.c:264 | appends to the text in the buffer, or stops where it would write behind the end, which happens exactly when text and addition do not both fit |
| ObjectCache.Fetch | proxylab/proxy.c:258-266 | the loop sends every byte of the reply, counts them, and collects the pieces as C strings in a buffer of 8192 characters; it gets through exactly when fewer than 8192 are collected |
| ObjectCache.StaysInsideExactly | proxylab/proxy.c:261-266 | every strcat of the loop stays inside the buffer exactly when fewer than 8192 characters are collected in all |
| ObjectCache.ServeRequests | proxylab/proxy.c:226-268 | requests served one at a time get the server's bytes on a miss and, on a hit, as many bytes as the object has from the line of the first-in-first-out queue, stale ones included, up to the first miss that overruns the buffer, of which there is none when every reply is answerable; then the answers are those of a ten-entry first-in-first-out map |
| ObjectCache.SendsBackExactly | proxylab/proxy.c:75 | the reply is collected inside the buffer and a hit sends the server's bytes, whatever the line held before, exactly when fewer than 8192 characters are collected and the object has no NUL in front of its last byte |
| ObjectCache.AnswersOfTheMap | proxylab/proxy.c:226-268 | if every reply is collected inside the buffer and no stored object has such a NUL, no request overruns the buffer and every client gets the answer of a ten-entry first-in-first-out map from urls to objects |
| ObjectCache.StaysForNine | proxylab/proxy.c:226-268 | in that map an object answers requests for its url for at least nine requests after it was stored |
| ObjectCache.MissStores | proxylab/proxy.c:258-268 | in that map a miss is answered by the server and stored as the newest entry, and the oldest of ten goes |
| ObjectCache.LongObjectOverruns | proxylab/proxy.c:261-266 | two lines of 4096 characters without a NUL meet every other condition and overrun the buffer |
| ObjectCache.NulBreaksTheMap | proxylab/proxy.c:235 | two requests for an object of three bytes with a NUL in the middle do not get the map's answers |
| CacheSimulator.Oldest | cachelab/csim.c:58-66 | the first line with the largest counter |
| CacheSimulator.EventMeaning | cachelab/csim.c:30-56 | an access hits exactly when its tag is resident, fills the next free line while there is one, and evicts otherwise |
| CacheSimulator.AccessOK | cachelab/csim.c:25-75 | valid lines stay a prefix with distinct tags, and every counter is the number of later accesses, plus 1 after a hit or fill and plus 0 after an eviction |
| CacheSimulator.VictimIsNearlyLeastRecent | cachelab/csim.c:58-68 | the least recently used line has the largest counter, at most one other line shares it, the victim is one of the two, and is the least recently used one exactly when no tying line stands in front of it |
| CacheSimulator.VictimOfRun | cachelab/csim.c:58-74 | the same for every reference string that fills a set, with "least recently used" read off the string itself; an access to a tag that is not resident gives the victim's line, and no other, to that tag |
| CacheSimulator.NotLeastRecentlyUsed | cachelab/csim.c:58-74 | two lines, A B A C A D: D evicts A, which was used last, and C stays |
| CacheSimulator.RunSetOK | cachelab/csim.c:25-75 | every reachable set is in that form, the touches are the last references to the tags, and there are as many valid lines as misses less evictions |
| CacheSimulator.SameLineIsSameBlock | cachelab/csim.c:26-27 | for tags that fit 32 bits, two addresses match the same line exactly when they agree after dropping the block bits |
| CacheSimulator.SameLineInGeneral | cachelab/csim.c:26-27 | for all addresses: they match the same line exactly when they agree there modulo 2^(s + 32) |
| CacheSimulator.AddressParts | cachelab/csim.c:26-27 | a tag that fits 32 bits and the index make up the address above the block bits |
| CacheSimulator.ReachableOneAccess | cachelab/csim.c:25-75 | in every reachable state an access counts a hit exactly when its tag is resident and an eviction exactly when it misses in a full set, makes the tag resident, brings in no other, drops none without an eviction, leaves the other sets alone, and logs what it was |
| CacheSimulator.NextLine | cachelab/csim.c:145-160 | one more trace line has the effect of one access for L and S, of two for M, and none otherwise |
| CacheSimulator.EveryAccessCounts | cachelab/csim.c:145-160 | hits and misses add up to the L and S lines and twice the M lines |
| CacheSimulator.SetsAreIndependent | cachelab/csim.c:25-75 | a trace ends with every set as its own references alone leave it, and with the summed hits, misses and evictions |
| CacheSimulator.ReachableAccess | cachelab/csim.c:32-74 | in every reachable state an access finds a line, hits exactly when resident, and is followed by a hit when repeated |
| CacheSimulator.MissesLessEvictions | cachelab/csim.c:145-160 | after any trace misses less evictions is the number of valid lines |
| CacheSimulator.Simulator.Lookup | cachelab/csim.c:30-56 | the first loop with its counters and log |
| CacheSimulator.Simulator.Age | cachelab/csim.c:58-66 | the second loop ages every line of this set only and finds the victim |
| CacheSimulator.Simulator.AccessCache | cachelab/csim.c:25-75 | one access is the specified one on its set, leaves the other sets alone and counts its event |
| CacheSimulator.Simulator.TraceLine | cachelab/csim.c:146-160 | L and S access the set of the address once, M twice, other lines do nothing; the log shows it, and stays within its 20 bytes because the second access of an M hits |
| CacheSimulator.Simulator.RunTrace | cachelab/csim.c:145-164 | a whole trace gives the lines and counts of the specified run, with hits and misses for every L and S line and twice for every M |
| JobTable.AddPids | shelllab/tsh.c:459-480 | addjob adds exactly this pid, exactly when a slot is free |
| JobTable.DeletePids | shelllab/tsh.c:483-496 | deletejob removes exactly this pid, and reports whether it was there |
| JobTable.AddEnters | shelllab/tsh.c:459-480 | the first free slot gets pid, next id, state and command line, no other slot changes, and the next id is one more, or 1 after 16 |
| JobTable.DeleteRemoves | shelllab/tsh.c:483-496 | the first slot with the pid is cleared, no other slot changes, and the next id is one more than the largest left |
| JobTable.NewIdIsNew | shelllab/tsh.c:464-469 | while all ids are smaller than the next one, a new job has an id of its own; this stays so exactly until the next id starts at 1 again |
| JobTable.DeleteRestoresIds | shelllab/tsh.c:488-491 | after every delete all ids are smaller than the next one |
| JobTable.IdTaken | shelllab/tsh.c:464-469 | with ids 1 and 16 in the table two more jobs get 17 and 1 |
| JobTable.MaxJid | shelllab/tsh.c:450-456 | the largest job id, 0 if there is none |
| JobTable.JobList.constructor | shelllab/tsh.c:443-447 | the cleared table |
| JobTable.JobList.ClearJob | shelllab/tsh.c:435-440 | clears one slot |
| JobTable.JobList.MaxJobId | shelllab/tsh.c:450-456 | the loop computes the largest job id |
| JobTable.JobList.AddJob | shelllab/tsh.c:459-480 | the loop enters the job as AddEnters says |
| JobTable.JobList.DeleteJob | shelllab/tsh.c:483-496 | the loop deletes the job as DeleteRemoves says |
| JobTable.JobList.GetJobPid | shelllab/tsh.c:508-515 | the first slot with this pid, or none |
| Shell.StepInv | shelllab/tsh.c:177-198 | every step of eval, of the kernel and of the handler keeps table, children and the child in hand in agreement |
| Shell.TableShowsChildren | shelllab/tsh.c:364-399 | in every run, whenever the signal is open and the handler not running, the table holds each unreaped child once, except those for which there was no slot |
| Shell.ReapedChildHasJob | shelllab/tsh.c:377-388 | a child that the handler has reaped and that was given a slot is in the table: no child is deleted before it was added |
| Shell.EnterShows | shelllab/tsh.c:194-198 | eval enters the child it has forked, with its state and command line, in the first free slot |
| Shell.StopShows | shelllab/tsh.c:389-393 | the slot of a stopped child changes in its state only, which becomes ST, and no other slot changes |
| Shell.StateShows | shelllab/tsh.c:325-340 | outside eval and the handler a job can be given a state, and nothing else changes |
| Shell.EndShows | shelllab/tsh.c:383-388 | the slot of a child that has ended is cleared and no other slot changes |
| Shell.ReapRuns | shelllab/tsh.c:364-399 | outside the masked window the handler can reap any child with a slot, which is then neither among the children nor in the table |
| Shell.LostExactlyWhenFull | shelllab/tsh.c:194-198 | a new child gets no slot exactly when it is one more than sixteen |
| Shell.SeventeenthChildIsLost | shelllab/tsh.c:464-479 | after seventeen background jobs, none of which ends, exactly the last one is missing from the table |
| Shell.CrashesExactly | shelllab/tsh.c:382-393 | the handler follows a null job pointer exactly when it holds a child that has no slot and that was signalled or stopped |
| Shell.TableIsExact | shelllab/tsh.c:163-207 | with at most sixteen unreaped children the table is exactly the children, and the handler never reads through a null job |
| Rio.Reader.constructor | proxylab/csapp.c:837-842 | an empty buffer shows the whole stream |
| Rio.Reader.Refill | proxylab/csapp.c:809-820 | the refill loop ends for every finite sequence of short and interrupted reads and loses no byte; it asks the kernel only when the buffer is empty, and reports an error exactly when the next read that is not interrupted fails |
| Rio.Reader.RioRead | proxylab/csapp.c:805-830 | delivers the next bytes, n or all that are buffered, 0 only at the end, -1 exactly when the buffer is empty and the next read that is not interrupted fails |
| Rio.Reader.ReadNB | proxylab/csapp.c:849-864 | delivers the next min(n, remaining) bytes in order; what it stored before an error is what it took |
| Rio.Reader.ReadLineB | proxylab/csapp.c:871-893 | delivers through the first newline, or maxlen - 1 bytes, or to the end, followed by a NUL unless nothing was left |
| Rio.LineLength | proxylab/csapp.c:871-893 | no newline before the last byte of a line, which is a newline unless the limit or the end cut it off |
| Rio.NothingLost | proxylab/csapp.c:849-893 | what any calls deliver and what they leave make up the stream |
| Rio.Serve | proxylab/csapp.c:805-893 | any mix of both calls, for every way the kernel cuts the stream, delivers to each call its share up to the first call that fails, which needs a failed read; delivered, partly delivered and remaining bytes make up the stream |
| LongToString.TextRoundTrip | proxylab/csapp.c:238-255 | for every base from 2 to 36 reading the text back gives the number if and only if it is not the least long; '-' exactly for negative numbers, no superfluous zero |
| LongToString.LeastNumber | proxylab/csapp.c:243-244 | the least long is its own negation, prints as '-' and one character, "-(" in base 10, and does not read back |
| LongToString.TextFits | proxylab/csapp.c:238-255 | at most 64 characters before the NUL |
| LongToString.SioReverse | proxylab/csapp.c:226-235 | the string in the buffer is reversed in place |
| LongToString.SioLtoa | proxylab/csapp.c:238-255 | the buffer holds the text of the number |
| Transpose.TransposeSubmit | cachelab/trans.c:24-74 | B gets the transpose of the rows of A that the chosen branch reads and keeps its other cells; it is the transpose exactly when those already were |
| Transpose.LastRowMissing | cachelab/trans.c:25-47 | a matrix of 33 rows and 32 columns for which the result is not the transpose |
| Transpose.SubmitTiled | cachelab/trans.c:62-73 | the 17-wide tiles with clipped edges cover every index pair |
| Transpose.Submit32 | cachelab/trans.c:25-47 | the 8 by 8 blocks copy the 32 by 32 cells and no others |
| Transpose.Submit64 | cachelab/trans.c:48-61 | the 4 by 4 blocks copy the 64 by 64 cells and no others |
| Transpose.Trans | cachelab/trans.c:85-94 | the naive loop gives the transpose |
| Transpose.IsTranspose | cachelab/trans.c:116-127 | the check decides whether B is the transpose |
| Transpose.TransposeUnique | cachelab/cachelab.c:56-65 | there is only one transpose, so the blocked and the naive form agree |
| Sampler.AddKeepsKBest | malloclab/fcyc.c:67-88 | with one more sample the kept values are again the smallest ones, ascending, as a multiset |
| Sampler.Sampler.constructor | malloclab/fcyc.c:50-62 | no samples |
| Sampler.Sampler.Sink | malloclab/fcyc.c:82-87 | the in-place loop inserts the new value in order and leaves the values behind it alone |
| Sampler.Sampler.AddSample | malloclab/fcyc.c:67-88 | the array changes as specified and one sample more is counted |
| Sampler.AddAll | malloclab/fcyc.c:67-88 | after any samples the array holds the kbest smallest of all of them |
| Sampler.Sampler.HasConverged | malloclab/fcyc.c:93-98 | true exactly when there are kbest samples and every kept one is within epsilon of the smallest |

## Left out

- Allocator.Heap.MmMalloc: requests of 2^32 - 19 bytes or more are excluded: the sum in get_block_size wraps and the block has no room for them (see Words.BlockSizeHasRoom).
- Allocator.Heap.MmRealloc: resizes of a live block to 2^32 - 35 bytes or more are excluded. Up to 2^32 - 20 bytes the cut lies in front of the block and destroys what is there (see HeapTheorems.CutTestWraps); above that it lies at the block or just behind its header, and the block has no room for the request (see HeapTheorems.SmallCut).
- AllocatorSpec.ReallocInv: for the same sizes; what such a cut leaves is not a heap of blocks, so the equivalence is stated where no sum wraps.
- AllocatorSpec.ReallocShape: of a heap whose last block was grown in place only the shape is proved, not what later calls do to it, because the wrong footer makes them depend on the contents of the payload (see HeapTheorems.GrownFooterMisleads).
- Driver.Driver.ServeRealloc: a resize that grows the last block is checked, but its payload is not filled again, since the run stops there.
- Allocator.Heap.Sbrk: increments are whole words, as those of all callers are.
- Allocator.Heap.MmInit: mem_sbrk(8) is not checked by the source; the arena is taken to have those two words.
- Allocator.Heap.CopyBytes: memcpy may read past the old payload when a block grows; what it reads beyond the arena is a parameter. When the new block lies shortly behind the old one, source and destination overlap, which C leaves undefined; the copy is taken to go upward, and the first n bytes arrive in any order.
- Driver.Driver.EvalMmValid: the run stops after the first resize that grows the last block; the arrays of blocks and sizes of a trace are maps, and traces ask for at least one byte, as the driver's own assertion demands.
- CacheSimulator.Simulator.RunTrace: the lines are taken to be invalid at the start, although csim.c allocates them without clearing; reading the trace file and the options is not modelled. The shifts of lines 26 and 27 are taken as divisions, which needs fewer than 31 set bits and fewer than 64 set and block bits together; lru_counter, an int of 32 bits, is unbounded.
- ObjectCache.Cache.WriteCache: one request at a time, after a miss; under threads only mutual exclusion is claimed, since the lookup and the choice of a victim happen outside the lock. What happens after doit has overrun its buffer is not modelled.
- LongToString.SioLtoa: negating the least long is taken to wrap around, which C does not promise; the buffer is taken to have 65 characters or more; sio_putl's 128 suffice.
- Rio.Serve: the run ends with the first call that reports an error, as the wrappers that exit then do.
- Sampler.Sampler.AddSample: samples are real numbers, so floating-point rounding and NaN are not modelled; kbest is at least 1.
- Transpose.TransposeSubmit: elements are unbounded integers; with 32 or 64 columns the matrix is taken to have at least as many rows, because the source reads them.
- Addresses and sizes of the heap are multiples of the 4-byte word of the 32-bit build (malloclab/Makefile:9); the list head is three words outside the heap; the arena is smaller than 2 GB.
- That mm_init clears the blocks of the old list and expand_heap the words of a new chunk is done by the methods but promised by no contract: no operation reads those words.
- exit(1) in expand_heap is an outcome of the operation; perror and other messages are not modelled.
- The protocols are step machines: each step is one semaphore operation or one access to shared data, memory is sequentially consistent, and Sem_init, P and V do not fail.
- front, tail, timestamps, readcnt and the hit counters are unbounded integers.
- No block merging is promised: two neighbouring free blocks can remain, since footers are 0 after merges and a shrink does not coalesce.
- Uniqueness of job ids and a single foreground job in all runs: the code does not keep these (JobTable.NewIdIsNew says until when ids are unique and JobTable.IdTaken shows two that are not; do_bgfg changes states with the signal open).
- Waiting for the foreground job, the SIGINT and SIGTSTP handlers, command parsing, and the lookups by job id.
- Sockets, HTTP parsing and headers, tiny.c, CGI, process and signal wrappers, unbuffered reading and writing: input and output only.
- Utilization and timing in mdriver.c, the clock code, the rest of fcyc.c, datalab, the bomb and attack labs.
