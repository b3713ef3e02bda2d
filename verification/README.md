# Proofs about the key-value store and the Pintos kernel

This project models, in Dafny, the hard cores of the repository's two systems and proves properties of
them that hold for every input and every run:

- **kvstore**, a replicated key-value store in Java: two-phase commit with crash recovery, the slave's log
  and its replay, the ring of slave ids, and the write-through server over a set-associative cache;
- **Pintos**, a kernel in C: the intrusive list and its natural merge sort, 64-bit division from a 32-bit
  instruction, demand paging over a swap device over a bitmap, the memory allocator, priority donation, the
  feedback-queue scheduler, the buffer cache and its readers-writer monitor, the resizing hash table, archive
  headers, and heapsort.

Each file is one module. `Basics.dfy` holds shared vocabulary; the other files name the source files they model
in their first comment. Code that updates objects in place is modelled by classes and methods with loops, each
proved against a specification function or a plain abstract state; protocols are modelled as step systems, and
their theorems speak of every reachable state. `dafny verify dfyconfig.toml` checks everything.

## How the pieces fit

| file | models | main results |
|---|---|---|
| `TwoPhaseCommit.dfy` | master, slaves, connections, losses, time-outs, crashes as one step system | all or nothing, exactly once; the replicated store and the master's cache are one plain map, and every GET reads it; a crash loses nothing |
| `CommitRuns.dfy` | decisions and progress over its runs | commit exactly on two READY votes; valid requests get through and take effect; none blocks for ever |
| `TpcLog.dfy` | the slave's log, handler and rebuild | rebuilding gives the live store; exactly which READY votes are kept |
| `Ring.dfy` | hashing and replica lookup | the signed tree lookups are the unsigned clockwise ring; placement never moves |
| `KeyValueServer.dfy` | cache sets, eviction, server | the server is a plain map; eviction takes at most two sweeps; reads make it first-in-first-out |
| `ListOrder.dfy`, `KernelList.dfy`, `ListSplice.dfy` | runs and merging on sequences; the linked list in the heap; splicing between lists | sorted stable permutation of the same nodes, well-formed links, runs halve |
| `Division.dfy` | `arithmetic.c` in wrapping arithmetic | exact quotients; exactly when the remainders are right |
| `Bitmap.dfy`, `Swap.dfy`, `Paging.dfy`, `Segments.dfy` | packed bits, swap groups, page and frame tables, program segments | every run is one of plain memory with exactly the losses to a full swap device; swap never fragments |
| `Malloc.dfy` | arenas, free lists, page pool | live blocks are disjoint; freeing everything returns every page; exactly which sizes are honoured |
| `Donation.dfy`, `Mlfq.dfy` | priority donation; feedback queues | least fixed point of donation; the documented formulas with exact rounding; bounds on load and recent_cpu for ever; queues exact; highest priority runs after every tick and switch |
| `BufferCache.dfy`, `SharedLock.dfy` | write-back cache; readers-writer monitor | refines a plain disk, exact LRU; exclusion, no lost wake-up, readers share |
| `HashTable.dfy`, `Ustar.dfy`, `HeapSort.dfy` | hash table, archive headers, sort and search | finite set through every resize; round trip; sorted permutation |

## Where code and documentation differ

The models follow the code. Where a lemma states the difference it is named:

- `umod64` and `smod64` return 32 bits: the remainder is right for every dividend exactly when the divisor is at
  most 2^32, respectively 2^31 in magnitude (`UmodExactIff`, `SmodExactIff`).
- A slave votes READY on a Put whose key is empty or whose value is empty, missing or oversized, which its server
  then refuses; such a promise is not kept and the log it leaves cannot be replayed (`ReadyKeepsPromiseIff`,
  `UnkeptPromiseBlocksRebuild`). Live slave and rebuilt slave agree at every point of a history exactly when no COMMIT
  arrives while a message of a foreign type hides the vote it belongs to (`RebuildIsLiveIff`,
  `ForeignMessageDiverges`).
- `Math.abs(hash) % numSets` is a valid set number for every hash code exactly when numSets divides 2^31
  (`SetIdInRangeIff`). A server read stores the value back and so clears the reference bit: second chance becomes
  first-in, first-out (`TouchedThenPut`, `PutIsFifo`). On replacement the code clears the bit where its
  comment says that it is set.
- `page_out` ignores the failure of `swap_out`: a dirty page that must go to swap is lost exactly when swap is full,
  unless it holds its first contents (`OutIsInvisibleIff`, `FullSwapLosesPage`).
- `bitmap_scan_and_flip` with a count of zero returns its start index, where its comment says 0 (`EmptyGroupIsStart`).
- `malloc` serves requests above 1 kB, not above 2 kB, with whole pages, and counts them in 32 bits: the last
  eleven sizes get one page instead of an answer of NULL (`PageCountWraps`). The overflow test of `calloc` lets
  some products through that have wrapped (`CallocGrants`, `CallocMissesOverflow`).
- `thread_set_nice` should yield if the thread no longer has the highest priority (pintos/doc/44bsd.texi:94-99). It
  scans the queues from the top but takes the number of queues skipped for a priority, so it leaves a more urgent
  thread waiting exactly when 63 - h <= p < h for its new priority p and the highest queue h (`SetNice`;
  `NiceCanMiss` is such a call). Where it yields needlessly above all queues nothing changes (`NeedlessYield`).
- `load_segment` should make its pages writable as asked; a page that an earlier segment already has keeps the
  rights it got there (`LoadSegment`).
- The priority should be rounded down (pintos/doc/44bsd.texi:111-119); for a thread that has used the processor it is
  rounded up (`PriorityAsDocumentedIff`, `PriorityRoundsUp`). thread_get_load_avg should round to the nearest integer
  and rounds down (`LoadIsNearestIff`). A new thread's recent_cpu is 0, not its parent's.
- The idle thread's recent_cpu is charged but never decayed, so the bound on recent_cpu is for all other threads.

## Model

| member | source | states |
|---|---|---|
| Division.Nlz | pintos/src/lib/arithmetic.c:41-73 | the count n for which x shifted left by n has its top bit set and loses nothing |
| Division.SmallDivisor | pintos/src/lib/arithmetic.c:80-112 | dividing the high word first leaves a second divide whose quotient fits in 32 bits and completes floor division |
| Division.Estimate | pintos/src/lib/arithmetic.c:117-125 | in the large-divisor branch the estimate is the quotient or one more |
| Division.Correction | pintos/src/lib/arithmetic.c:123-124 | the last line, in wrapping arithmetic, picks the true quotient out of the two candidates |
| Division.LargeDivisor | pintos/src/lib/arithmetic.c:113-126 | estimate and correction together, for every shift the normalisation can choose |
| Division.Udiv64 | pintos/src/lib/arithmetic.c:77-127 | floor(n / d) for every 64-bit n and every nonzero d |
| Division.Umod64 | pintos/src/lib/arithmetic.c:131-135 | the low 32 bits of n mod d |
| Division.Sdiv64 | pintos/src/lib/arithmetic.c:139-146 | truncation toward zero as in section 6.5.5 of ISO C99, exact if and only if it is not INT64_MIN / -1 |
| Division.Smod64 | pintos/src/lib/arithmetic.c:150-154 | the low 32 bits, read as signed, of the remainder with the dividend's sign |
| Division.UmodExactIff | pintos/src/lib/arithmetic.c:131-135 | the remainder is right for every dividend if and only if d <= 2^32 |
| Division.SmodExactIff | pintos/src/lib/arithmetic.c:150-154 | the signed remainder is right for every dividend if and only if its divisor is at most 2^31 in magnitude |
| ListOrder.MergeSorted | pintos/src/lib/kernel/list.c:379-399 | merging two sorted runs gives a sorted run |
| ListOrder.MergeStable | pintos/src/lib/kernel/list.c:379-399 | merging keeps the order within every class of equivalent elements |
| ListOrder.PassIsStablePermutation | pintos/src/lib/kernel/list.c:404-440 | one pass of list_sort is a stable permutation |
| ListOrder.PassCountHalves | pintos/src/lib/kernel/list.c:404-440 | a pass outputs half as many runs as it found, rounded up |
| ListOrder.RunsHalve | pintos/src/lib/kernel/list.c:404-440 | the number of natural runs at least halves in each pass |
| ListOrder.OneRunIsSorted | pintos/src/lib/kernel/list.c:357-372 | a list of one run is sorted, for every strict weak order |
| KernelList.List.constructor | pintos/src/lib/kernel/list.c:60-68 | head and tail linked to each other: an empty well-formed list |
| KernelList.List.Splice | pintos/src/lib/kernel/list.c:183-204 | within one list: links stay well formed and exactly the block first..last moves in front of before |
| ListSplice.SpliceAcross | pintos/src/lib/kernel/list.c:183-204 | from another list: the block first..last leaves that list and stands in front of before, and both lists stay well formed and disjoint |
| ListSplice.TookChain | pintos/src/lib/kernel/list.c:195-203 | after the six link assignments the receiving list is a chain with the block in it |
| ListSplice.GaveChain | pintos/src/lib/kernel/list.c:195-203 | and the other list is a chain without it |
| KernelList.List.Insert | pintos/src/lib/kernel/list.c:168-178 | the element is linked in front of the given one; all links stay well formed |
| KernelList.List.Remove | pintos/src/lib/kernel/list.c:248-255 | the element is unlinked, its successor returned, all else stays |
| KernelList.List.Reverse | pintos/src/lib/kernel/list.c:325-337 | the same nodes in reverse order, links well formed |
| KernelList.ReversalTwice | pintos/src/lib/kernel/list.c:325-337 | reversing twice restores the list |
| KernelList.List.Max | pintos/src/lib/kernel/list.c:492-505 | the earliest of the largest elements, or the tail of an empty list |
| KernelList.List.FindEndOfRun | pintos/src/lib/kernel/list.c:357-372 | the end of the maximal nondecreasing run at the cursor |
| KernelList.List.InplaceMerge | pintos/src/lib/kernel/list.c:379-399 | two adjacent sorted ranges become their stable merge, in place, nothing else moves |
| KernelList.List.SortPass | pintos/src/lib/kernel/list.c:412-439 | a pass over the heap list does what the pass on sequences does and counts its runs |
| KernelList.List.Sort | pintos/src/lib/kernel/list.c:404-440 | terminates; sorted, stable permutation of the same nodes with well-formed links |
| KernelList.RelinkRotated | pintos/src/lib/kernel/list.c:183-204 | redirecting the three boundary links turns a chain into the rotated chain |
| TpcLog.RebuildIsLive | kvstore/src/kvstore/TPCLog.java:108-135 | for every log without foreign messages replay's pending entry is the handler's last entry, and rebuilding gives the live store or fails exactly after a refused commit |
| TpcLog.RebuildIsLiveIff | kvstore/src/kvstore/TPCMasterHandler.java:111-142 | for every history whatever, live slave and rebuilt slave agree at every point if and only if no COMMIT arrives while a foreign message hides its vote |
| TpcLog.ForeignMessageDiverges | kvstore/src/kvstore/TPCMasterHandler.java:134-145 | a foreign message between vote and COMMIT makes the live and the rebuilt store differ |
| TpcLog.ReadyKeepsPromiseIff | kvstore/src/kvstore/TPCMasterHandler.java:122-133 | a READY vote is kept in every store without an empty key if and only if the request is valid or is never voted READY |
| TpcLog.VoteIsAcceptance | kvstore/src/kvstore/TPCMasterHandler.java:122-133 | for a valid request the vote is READY if and only if the server would carry the request out now |
| TpcLog.VoteIff | kvstore/src/kvstore/TPCMasterHandler.java:122-133 | for any request: READY if and only if the key is not null, has at most 256 units and, for a delete, is in the store; what a Put would overwrite does not matter |
| TpcLog.UnkeptPromiseBlocksRebuild | kvstore/src/kvstore/TPCLog.java:123-130 | committing a refused Put leaves a log that no slave can rebuild from |
| TpcLog.ReplayStaysFailed | kvstore/src/kvstore/TPCLog.java:108-135 | once rebuilding has thrown on a prefix it throws on the whole log |
| TpcLog.Slave.RebuildServer | kvstore/src/kvstore/TPCLog.java:108-135 | the loop computes the replay of the log, or reports the exception |
| TpcLog.Slave.Handle | kvstore/src/kvstore/TPCMasterHandler.java:102-151 | logs durably first; votes by key and store; a COMMIT is acknowledged if and only if the entry before it is no request or one that the server accepts, an ABORT always; dies unanswered exactly on a COMMIT without an entry |
| TpcLog.Slave.AppendAndFlush | kvstore/src/kvstore/TPCLog.java:35-38 | the log on disk ends with the message, whatever was there before, and a restart from it replays exactly one entry more than a restart from the old log |
| Ring.HashTo64bit | kvstore/src/kvstore/TPCMaster.java:69-77 | the prime and the characters as coefficients of a polynomial at 31, modulo 2^64 in two's complement |
| Ring.Horner | kvstore/src/kvstore/TPCMaster.java:70-76 | one step of the loop is one step of evaluating that polynomial |
| Ring.WrapThrough | kvstore/src/kvstore/TPCMaster.java:70-76 | wrapping around in every step gives what wrapping around once at the end gives |
| Ring.IsLessThanUnsigned | kvstore/src/kvstore/TPCMaster.java:87-89 | exactly unsigned comparison of 64-bit values |
| Ring.FirstReplica | kvstore/src/kvstore/TPCMaster.java:108-118 | the id with the least clockwise distance (id - hash) mod 2^64 |
| Ring.FindFirstReplica | kvstore/src/kvstore/TPCMaster.java:108-118 | for a key: null exactly while no slave is registered, else the id at the least clockwise distance from its hash |
| Ring.DecimalIsRead | kvstore/src/kvstore/TPCMaster.java:181 | the text of a hash that is hashed again is its decimal text: reading it gives the number back, with no needless zero |
| Ring.Successor | kvstore/src/kvstore/TPCMaster.java:126-133 | the next id clockwise, and another slave as soon as there are two |
| Ring.FirstReplicaUnique | kvstore/src/kvstore/TPCMaster.java:108-118 | no other id lies at the same distance |
| Ring.Registry.RegisterSlave | kvstore/src/kvstore/TPCMaster.java:42-60 | a known id is replaced, a new one taken only while there is room |
| Ring.PlacementStable | kvstore/src/kvstore/TPCMaster.java:42-60 | once the ring is full no sequence of registrations moves any key's two slaves |
| Ring.FirstComeFirstServed | kvstore/src/kvstore/TPCMaster.java:42-60 | for every sequence of registrations nobody is dropped, only arrivals are taken, and until the ring is full all of them |
| TwoPhaseCommit.SlaveStepsAreHandler | kvstore/src/kvstore/TPCMasterHandler.java:102-151 | logging a message and later acting on it is one call of the handler |
| TwoPhaseCommit.ActAgrees | kvstore/src/kvstore/TPCLog.java:108-135 | acting on a logged message agrees with replaying the log, so a crash in between is harmless |
| TwoPhaseCommit.StepInv | kvstore/src/kvstore/TPCMaster.java:163-281 | every step keeps the invariant over master, slaves, connections, log and cache |
| TwoPhaseCommit.RunInv | kvstore/src/kvstore/TPCMaster.java:163-281 | the invariant holds at every moment of every run with losses, time-outs and crashes |
| TwoPhaseCommit.CommitNeedsBothVotes | kvstore/src/kvstore/TPCMaster.java:195-230 | COMMIT is decided only if both slaves really voted READY on this request |
| CommitRuns.CommitIff | kvstore/src/kvstore/TPCMaster.java:195-230 | every decision of every run: COMMIT if and only if both the step that ended the first slave's vote and the one that ended the second's brought a READY |
| CommitRuns.OutcomeIff | kvstore/src/kvstore/TPCMaster.java:195-276 | every finished request was begun, voted on twice and committed if and only if both votes were READY |
| CommitRuns.MasterMoves | kvstore/src/kvstore/TPCMaster.java:195-276 | what each kind of step does to the master's progress and record |
| CommitRuns.CacheMoves | kvstore/src/kvstore/TPCMaster.java:263-271 | a commit writes the master's cache through, a GET fills it, an eviction may take any key out, and nothing else touches it |
| CommitRuns.TroubleAnyTime | kvstore/src/kvstore/TPCMaster.java:197-261 | the runs leave nothing out: messages can be lost, slaves crash, connections fail and time out at any moment |
| CommitRuns.GetAnyTime | kvstore/src/kvstore/TPCMaster.java:298-361 | a GET is served at once unless the request at hand is for its key |
| CommitRuns.RequestGetsThrough | kvstore/src/kvstore/TPCMaster.java:163-281 | after any run that ends between requests any valid request can go through with nothing lost, and is then committed if and only if the plain map accepts it |
| CommitRuns.RequestTakesEffect | kvstore/src/kvstore/TPCMaster.java:163-361 | a request so committed is visible: both slaves of the key hold the value, or none after a delete, and a GET returns it |
| CommitRuns.EveryRequestCanEnd | kvstore/src/kvstore/TPCMaster.java:231-261 | no request blocks for ever: from every moment of every run, whatever was lost or crashed, a continuation with at most one time-out and no further loss ends it |
| CommitRuns.CommitIsAcknowledged | kvstore/src/kvstore/TPCMasterHandler.java:134-142 | a slave that is told COMMIT acknowledges, whether it has yet to carry the request out or has |
| TwoPhaseCommit.AllOrNothing | kvstore/src/kvstore/TPCMaster.java:195-276 | whenever no request runs, every slave has applied exactly the committed operations of its keys, each once, duplicates included |
| TwoPhaseCommit.RefinesPlainMap | kvstore/src/kvstore/TPCMaster.java:263-351 | whenever no request runs, both slaves of every key and any cached value agree with one plain map |
| TwoPhaseCommit.GetsArePlain | kvstore/src/kvstore/TPCMaster.java:298-361 | every GET of every run, also in the middle of a request for another key, returns what one plain map of the committed requests holds, and ERROR_NO_SUCH_KEY if and only if it holds nothing |
| TwoPhaseCommit.AppliedSoFar | kvstore/src/kvstore/TPCMasterHandler.java:134-142 | in the middle of a request a slave has applied its committed operations in order, at most followed by the request itself |
| TwoPhaseCommit.SlaveAtOther | kvstore/src/kvstore/TPCMaster.java:189-281 | so its store is the plain map at every key that the request does not lock |
| TwoPhaseCommit.CrashLosesNothing | kvstore/src/kvstore/TPCLog.java:108-135 | at every moment of every run the store rebuilt from the log is the live one with the logged message carried out |
| TwoPhaseCommit.SlaveHoldsGlobal | kvstore/src/kvstore/TPCMaster.java:108-133 | each of a key's two slaves holds the value the plain map holds |
| TwoPhaseCommit.ReplayStore | kvstore/src/kvstore/TPCLog.java:108-135 | the replayed store is what the applied operations leave in an empty store |
| KeyValueServer.Sweep | kvstore/src/kvstore/KVCache.java:127-137 | one sweep removes the first unreferenced entry and clears the bits before it, or clears all |
| KeyValueServer.EvictLoop | kvstore/src/kvstore/KVCache.java:126-137 | ends within two sweeps on the first unreferenced entry, or the first entry if all were referenced |
| KeyValueServer.EvictedAt | kvstore/src/kvstore/KVCache.java:126-137 | exactly the victim goes; the others keep their order, keys and values |
| KeyValueServer.PutInSetKeeps | kvstore/src/kvstore/KVCache.java:99-142 | the key is found with its value; every other key keeps its value, but for the victim when a new key meets a full set; nothing else appears; keys stay distinct and within capacity |
| KeyValueServer.SetIdInRangeIff | kvstore/src/kvstore/KVCache.java:224-226 | the set number is in range for every hash code if and only if numSets divides 2^31 |
| KeyValueServer.SetIdLaw | kvstore/src/kvstore/KVCache.java:224-226 | the set number is the remainder of the hash code's absolute value, or minus it for the least int |
| KeyValueServer.KVCache.Get | kvstore/src/kvstore/KVCache.java:64-80 | returns the cached value and sets its reference bit, nothing else |
| KeyValueServer.TouchedIsSpared | kvstore/src/kvstore/KVCache.java:64-80 | a key just read has its bit set and is not the next victim while another entry is unreferenced; all other entries are as before |
| KeyValueServer.KVCache.Put | kvstore/src/kvstore/KVCache.java:99-142 | the set is what putting the key into it gives; other sets stay |
| KeyValueServer.KVCache.Del | kvstore/src/kvstore/KVCache.java:152-164 | the key leaves its set and is unknown afterwards; every other lookup is as before |
| KeyValueServer.UnreferencedIsFifo | kvstore/src/kvstore/KVCache.java:126-138 | with no reference bit set, second chance evicts the oldest entry |
| KeyValueServer.PutIsFifo | kvstore/src/kvstore/KVServer.java:42-95 | in the server every put is a first-in, first-out put |
| KeyValueServer.TouchedThenPut | kvstore/src/kvstore/KVServer.java:85-89 | the bit that a hit sets is cleared when the value is stored back |
| KeyValueServer.KVServer.Put | kvstore/src/kvstore/KVServer.java:42-63 | each error exactly under its condition and in the code's order; otherwise the store has the value and the cache is updated first in, first out |
| KeyValueServer.KVServer.Get | kvstore/src/kvstore/KVServer.java:74-95 | the store's value whether cached or not, or the right error |
| KeyValueServer.KVServer.Del | kvstore/src/kvstore/KVServer.java:105-123 | the key leaves store and cache and every other key keeps both; or the right error and neither store nor cache changes |
| KeyValueServer.KVServer.HasKey | kvstore/src/kvstore/KVServer.java:133-142 | true exactly when a delete of the key would be carried out now, which is exactly when the slave votes READY on it |
| Bitmaps.WrittenBit | pintos/src/lib/kernel/bitmap.c:155-179 | OR with a mask, or AND with its complement, changes that bit of the word and no other |
| Bitmaps.AndMask | pintos/src/lib/kernel/bitmap.c:196-203 | AND with a bit's mask is nonzero exactly when the bit is set |
| Bitmaps.UnpackWritten | pintos/src/lib/kernel/bitmap.c:143-179 | writing a word changes one bit of the bitmap as seen from outside |
| Bitmaps.Bitmap.Test | pintos/src/lib/kernel/bitmap.c:196-203 | the value of the bit |
| Bitmaps.Bitmap.Set | pintos/src/lib/kernel/bitmap.c:143-153 | sets that bit and no other |
| Bitmaps.Bitmap.SetMultiple | pintos/src/lib/kernel/bitmap.c:216-228 | sets the range and nothing else |
| Bitmaps.Bitmap.Contains | pintos/src/lib/kernel/bitmap.c:250-263 | true exactly when some bit of the range has the value |
| Bitmaps.Bitmap.Scan | pintos/src/lib/kernel/bitmap.c:295-310 | the first group of equal bits at or after start, or none if and only if there is none |
| Bitmaps.EmptyGroupIsStart | pintos/src/lib/kernel/bitmap.c:295-326 | a count of zero yields the start index, not 0 |
| Bitmaps.Bitmap.ScanAndFlip | pintos/src/lib/kernel/bitmap.c:319-326 | the first group is flipped and nothing else, or nothing changes |
| Swap.FirstFreeIsAligned | pintos/src/vm/swap.c:79-105 | first fit over single sectors always lands on a multiple of 8: swap never fragments |
| Swap.NoneFreeMeansFull | pintos/src/vm/swap.c:79-105 | no run of 8 free sectors means that every group is in use |
| Swap.FilledGrouped | pintos/src/vm/swap.c:49-125 | setting or clearing a whole group keeps the marked bits a union of groups |
| Swap.HeldAfterOut | pintos/src/vm/swap.c:79-105 | a page written to its group is held there and every other page is untouched |
| Swap.SwapDevice.SwapOut | pintos/src/vm/swap.c:79-105 | stores the page in a new group; fails if and only if all floor(size / 8) groups are in use |
| Swap.SwapDevice.SwapIn | pintos/src/vm/swap.c:49-75 | returns the stored page and frees its group, no other |
| Swap.SwapDevice.SwapClear | pintos/src/vm/swap.c:111-125 | frees the group, no other |
| Paging.PagedOutOk | pintos/src/vm/page.c:245-303 | page_out keeps the invariant and what every page reads, but for the page lost to a full swap device |
| Paging.PagedInOk | pintos/src/vm/page.c:163-233 | page_in keeps the invariant and what every page reads, and succeeds if and only if the page is in swap, has nothing to read from a file, or the file holds what is to be read |
| Paging.RetriedOk | pintos/src/vm/page.c:163-233 | a page left with a frame by a failed load fails again and disturbs nothing |
| Paging.OutIsInvisibleIff | pintos/src/vm/page.c:262-302 | page_out is invisible to the owner if and only if the page is not lost or holds its first contents |
| Paging.FullSwapLosesPage | pintos/src/vm/page.c:262-302 | a state that meets the invariant, with the one swap group taken by another page, in which a dirty page is lost |
| Paging.MmapTailIsZeroed | pintos/src/vm/page.c:282-295 | what was stored past the end of a mapped file reads as zero after the next load |
| Paging.WrittenBackIsClean | pintos/src/vm/page.c:282-303 | a mapped page that has been written back is clean and unmapped |
| Paging.ApartIff | pintos/src/vm/page.c:282-295 | write-back through a mapped page never shows in another page's file contents if and only if the two share no byte of the file |
| Paging.HeldCount | pintos/src/vm/swap.c:79-105 | swap cannot be full while a page is outside it, if it has a group for every page |
| Paging.DestroyedOk | pintos/src/vm/page.c:329-341 | ending a page frees its frame and group and changes no other page |
| Paging.AddedOk | pintos/src/vm/page.c:56-89 | a new page keeps the invariant |
| Paging.AddedOkIff | pintos/src/vm/page.c:56-89 | and it does so if and only if the page shares no file byte with a mapping |
| Paging.AddedViews | pintos/src/vm/page.c:56-89 | a new page reads its file bytes followed by zeros, and no other page changes |
| Paging.BssReadsZeros | pintos/src/userprog/process.c:726-744 | a bss page reads as zeros wherever its file offset lies, past the end of the executable included |
| Segments.PageHoldsSegment | pintos/src/userprog/process.c:726-778 | the pages cut the segment up without gap or overlap: file bytes, then zeros; a page has contents if and only if the file does not break off within it |
| Segments.SegmentReads | pintos/src/userprog/process.c:702-715 | a program reads the executable's bytes and zeros behind them, and faults exactly on a page in which the file breaks off |
| Segments.LoadSegment | pintos/src/userprog/process.c:717-780 | the loop makes exactly the range readable as that segment and changes nothing else; a page shared with an earlier segment keeps its rights |
| Segments.ReplacedOk | pintos/src/userprog/process.c:736-744 | overwriting the source of a page that was never touched keeps the paging invariant |
| Paging.StoredOk | pintos/src/vm/page.c:305-326 | a store through the page table changes its byte of its page and nothing else |
| Paging.ClearOne | pintos/src/vm/frame.c:110-112 | two frames never hold the same page, so clearing an accessed bit affects one frame |
| Paging.Vm.constructor | pintos/src/vm/frame.c:18-44 | all frames free, nothing swapped, the clock hand past the end |
| Paging.Vm.PageAlloc | pintos/src/vm/page.c:56-89 | adds the page unless it exists, for every source its callers fill in; the invariant holds afterwards if and only if the page existed or shares no file byte with a mapping |
| Paging.Vm.PageOut | pintos/src/vm/page.c:245-303 | exactly the specified state, with swap_out's answer; a page is lost exactly when swap was full |
| Paging.Vm.Sweep | pintos/src/vm/frame.c:105-119 | one pass finds the first unused candidate, or clears every candidate's bit |
| Paging.Vm.PickVictim | pintos/src/vm/frame.c:104-122 | between one and three passes if the thread has an unpinned frame, and ends on the frame second chance prescribes |
| Paging.Vm.FrameVictim | pintos/src/vm/frame.c:96-139 | the victim's frame goes to the new page; no page but a lost victim changes |
| Paging.Vm.FrameAlloc | pintos/src/vm/frame.c:52-76 | the first free frame, and an eviction only if there is none |
| Paging.Vm.Fill | pintos/src/vm/page.c:183-222 | swap, zeros or file contents arrive in the frame and the page is mapped, unless the file is too short |
| Paging.PagedInPins | pintos/src/vm/page.c:194-214 | after page_in, as ever, a frame with an owner is pinned if and only if that is a page of a file that is not writable |
| Paging.StuckIff | pintos/src/vm/frame.c:104-119 | frame_alloc has nothing to take if and only if every frame belongs to another thread or to a non-writable page of a file: data and stack pages never stand in the way |
| Paging.Vm.PageIn | pintos/src/vm/page.c:163-233 | the page becomes present with its contents, growing the stack if asked; fails exactly when it has none |
| Paging.Vm.PageDestroy | pintos/src/vm/page.c:329-341 | exactly the state without the page |
| Paging.Vm.FaultIn | pintos/src/userprog/exception.c:171-173 | what programs see changes only by the grown stack page and by the lost page, which falls back to its first contents; a page is lost only if it was resident, dirty, bound for swap and swap was full |
| Paging.Vm.UserAccess | pintos/src/userprog/exception.c:171-173 | a load or store with its fault answers exactly as plain memory in which such a lost page, if any, has fallen back |
| Paging.Vm.Run | pintos/src/vm/page.c:163-303 | every run of loads and stores by any threads answers, access by access, as plain memory with exactly such losses; a run without a loss is one run of plain memory; with a swap group for every page there is no loss; it stops early only where every frame is another thread's or holds non-writable file contents |
| Paging.TraceIsPlain | pintos/src/vm/page.c:163-303 | accesses without a loss chain up to one run of plain memory |
| Paging.TraceNoLoss | pintos/src/vm/swap.c:79-105 | no access of a run can lose a page while there are at most as many pages as groups |
| Malloc.SlotIn | pintos/src/threads/malloc.c:284-294 | every block lies within its page past the header, so rounding its address down finds its arena |
| Malloc.SlotsApart | pintos/src/threads/malloc.c:284-294 | blocks of an arena do not overlap |
| Malloc.PoppedOk | pintos/src/threads/malloc.c:148-153 | taking the head of a free list keeps the invariant: counts, accounting, live blocks |
| Malloc.PushedOk | pintos/src/threads/malloc.c:238-242 | putting a block back keeps the invariant |
| Malloc.RemovedOk | pintos/src/threads/malloc.c:242-253 | retiring an arena whose blocks are all free keeps the invariant |
| Malloc.AddedSmallOk | pintos/src/threads/malloc.c:125-146 | a new arena keeps the invariant |
| Malloc.AddedBigOk | pintos/src/threads/malloc.c:105-120 | a big block on consecutive free pages keeps the invariant and is new |
| Malloc.RemovedBigOk | pintos/src/threads/malloc.c:257-262 | freeing a big block keeps the invariant |
| Malloc.LiveInside | pintos/src/threads/malloc.c:71-154 | every live block is inside its arena, past the header, and as large as requested |
| Malloc.LiveDisjoint | pintos/src/threads/malloc.c:71-154 | live blocks never overlap |
| Malloc.FreeLiveDisjoint | pintos/src/threads/malloc.c:218-264 | blocks on free lists, which the allocator writes to, do not overlap live ones |
| Malloc.AllFreed | pintos/src/threads/malloc.c:218-264 | with nothing live, every page is free, every list empty, no arena left |
| Malloc.OffAll | pintos/src/threads/malloc.c:247-251 | removing an arena's blocks one by one removes all blocks on its page |
| Malloc.Allocator.constructor | pintos/src/threads/malloc.c:71-85 | seven descriptors, 16 to 1024 bytes, with the right number of blocks per arena |
| Malloc.Allocator.FindDesc | pintos/src/threads/malloc.c:100-105 | the smallest descriptor that fits, or none above 1024 bytes |
| Malloc.Allocator.GetMultiple | pintos/src/threads/palloc.c:70-101 | the first group of free pages is taken, or nothing changes if there is none |
| Malloc.PageCountWraps | pintos/src/threads/malloc.c:107-109 | for every 32-bit size: the page count wraps to zero, and the request fails, exactly from 2^32 - 4107 to 2^32 - 12; the pages hold size and header if and only if the size is at most 2^32 - 12 |
| Malloc.Allocator.Malloc | pintos/src/threads/malloc.c:89-154 | a new live block, all others untouched, of the size asked for if and only if that is at most 2^32 - 12; NULL if and only if the size or the page count is 0 or the needed block and pages are missing |
| Malloc.CallocGrants | pintos/src/threads/malloc.c:164-167 | calloc's request is for the true product if and only if that is at most 2^32 - 12 |
| Malloc.CallocMissesOverflow | pintos/src/threads/malloc.c:164-167 | a product that wraps and passes the overflow test |
| Malloc.Allocator.Calloc | pintos/src/threads/malloc.c:159-174 | NULL if and only if the test rejects or malloc refuses the wrapped product; otherwise a new live block |
| Malloc.Allocator.UnlistBlocks | pintos/src/threads/malloc.c:247-251 | the loop leaves the free list without the page's blocks, in order |
| Malloc.Allocator.Free | pintos/src/threads/malloc.c:218-264 | exactly that block stops being live, the invariant holds |
| Donation.LeastDonationIsMax | pintos/src/threads/thread.c:483-511 | under least donation every thread has the largest own priority over itself and all threads that transitively wait for it |
| Donation.LeastDonationIsLocal | pintos/src/threads/thread.c:483-511 | a thread's priority is its own or that of a waiter on a lock it holds |
| Donation.AcquireKeepsLeast | pintos/src/threads/synch.c:205-230 | waiting for a held lock keeps the least donation |
| Donation.NewWaiterBelowHolder | pintos/src/threads/synch.c:217-222 | settling after raising the holder cannot lift the new waiter above it |
| Donation.SetPriorityKeepsLeast | pintos/src/threads/thread.c:516-537 | changing the own priority keeps the least donation |
| Donation.ReleaseKeepsLeast | pintos/src/threads/synch.c:260-308 | releasing, with hand-over to the most urgent waiter, keeps the least donation |
| Donation.CreateKeepsLeast | pintos/src/threads/thread.c:258-311 | a new thread keeps the least donation |
| Donation.NewLockKeepsLeast | pintos/src/threads/synch.c:212-215 | listing a lock without waiters keeps the least donation |
| Donation.Threads.ResetDonatePriority | pintos/src/threads/thread.c:483-511 | terminates with the least closed assignment above the priorities it starts from |
| Donation.Threads.LockAcquire | pintos/src/threads/synch.c:205-230 | holds the lock or sleeps on it, with priorities the least donation |
| Donation.Threads.LockRelease | pintos/src/threads/synch.c:260-308 | the first of the most urgent waiters gets the lock, with priorities the least donation |
| Donation.Threads.HandOver | pintos/src/threads/synch.c:113-134 | the waiter that becomes the holder is a most urgent one and the earliest of those |
| Donation.Threads.OwnDonation | pintos/src/threads/synch.c:282-293 | what the thread is worth through the locks it still holds |
| Donation.Threads.SetPriority | pintos/src/threads/thread.c:516-537 | the new own priority, with priorities the least donation |
| Mlfq.LoadBound | pintos/src/threads/thread.c:837-855 | with at most n active threads load_avg stays in 0 .. n * 2^14 |
| Mlfq.LoadLaw | pintos/src/threads/thread.c:853-854 | load_avg is 59/60 of the old value plus 1/60 of the active threads, rounded down, with the exact rounding error |
| Mlfq.DecayLaw | pintos/src/threads/thread.c:858-860 | the decay factor is 2 * load_avg / (2 * load_avg + 1) rounded down in fixed point |
| Mlfq.CpuLaw | pintos/src/threads/thread.c:856-861 | recent_cpu is that fraction of the old value rounded toward zero, plus nice, with a bound on the rounding error |
| Mlfq.PriorityLaw | pintos/src/threads/thread.c:868-874 | the priority is 63 - recent_cpu / 4 - 2 * nice, clamped and rounded up for positive recent_cpu, down for negative |
| Mlfq.PriorityAsDocumentedIff | pintos/src/threads/thread.c:868 | it is the documented one, rounded down, if and only if nothing is rounded, recent_cpu is not positive, or the clamp hides it |
| Mlfq.RecentCpuIsNearest | pintos/src/threads/thread.c:584-588 | thread_get_recent_cpu gives the nearest integer to 100 times the value |
| Mlfq.LoadIsNearestIff | pintos/src/threads/thread.c:577-580 | thread_get_load_avg does so if and only if the fraction is below one half |
| Mlfq.DecayBound | pintos/src/threads/fixed-point.h:4-18 | the decay factor stays below 1, at most 2n / (2n + 1), in fixed point with truncation |
| Mlfq.CpuBound | pintos/src/threads/thread.c:856-861 | a refresh after at most 100 ticks brings recent_cpu back between -(40n + 20) and 240n + 20, for good |
| Mlfq.Priority | pintos/src/threads/thread.c:863-874 | priorities stay in 0..63 |
| Mlfq.LoadFits | pintos/src/threads/thread.c:837-861 | no intermediate value of the load formulas leaves its C type, for any load up to n, if and only if n <= 65535 |
| Mlfq.CpuFits | pintos/src/threads/thread.c:856-868 | nor does one of the recent_cpu and priority formulas within the proved bounds |
| Mlfq.EnqueueOk | pintos/src/threads/thread.c:341-358 | appending to the queue of its priority keeps every ready thread on exactly its own queue |
| Mlfq.DequeueOk | pintos/src/threads/thread.c:876-881 | unlinking keeps every ready thread on exactly its own queue |
| Mlfq.PickedIsNext | pintos/src/threads/thread.c:716-737 | the head of the highest non-empty queue is a highest-priority ready thread |
| Mlfq.SwitchedIsTop | pintos/src/threads/thread.c:805-819 | after schedule no ready thread outranks the running one |
| Mlfq.TopIffHighest | pintos/src/threads/thread.c:559-564 | the running thread is outranked by none if and only if it is at least as high as the highest non-empty queue |
| Mlfq.NeedlessYield | pintos/src/threads/thread.c:565-566 | yielding while above all queues changes nothing |
| Mlfq.NiceCanMiss | pintos/src/threads/thread.c:548-566 | a call that misses: with load 0, setting niceness 16 makes the priority 27 and leaves a ready thread of priority 40 waiting |
| Mlfq.TickedIs | pintos/src/threads/thread.c:165-208 | the stages of a tick compose to the per-thread formula |
| Mlfq.Scheduler.CountActive | pintos/src/threads/thread.c:885-902 | the number of ready and running threads but idle |
| Mlfq.Scheduler.SetLoadAvg | pintos/src/threads/thread.c:837-855 | the new load average, within its bound |
| Mlfq.Scheduler.RefreshRecentCpu | pintos/src/threads/thread.c:856-861 | that thread's recent_cpu by the formula, all else unchanged |
| Mlfq.Scheduler.RefreshPriority | pintos/src/threads/thread.c:863-882 | the priority by the formula; a ready thread whose priority changed goes to the back of its new queue |
| Mlfq.Scheduler.WakeThreads | pintos/src/threads/thread.c:222-233 | every sleeper counts down and those at zero become ready on their queues |
| Mlfq.Scheduler.Tick | pintos/src/threads/thread.c:165-208 | every thread becomes what the formulas give, and all bounds and queues hold again |
| Mlfq.Scheduler.NextThreadToRun | pintos/src/threads/thread.c:716-737 | a highest-priority ready thread that has waited longest, taken off its queue; idle if and only if none is ready |
| Mlfq.Scheduler.Schedule | pintos/src/threads/thread.c:805-819 | that thread and no other runs, and no ready thread outranks it |
| Mlfq.Scheduler.Unblock | pintos/src/threads/thread.c:341-358 | the thread is ready at the back of its queue |
| Mlfq.Scheduler.Block | pintos/src/threads/thread.c:319-327 | the thread blocks and the next one runs |
| Mlfq.Scheduler.Yield | pintos/src/threads/thread.c:416-436 | the thread goes to the back of its queue and the next one runs |
| Mlfq.Scheduler.Exit | pintos/src/threads/thread.c:395-412 | the thread is gone and the next one runs |
| Mlfq.Scheduler.TimerInterrupt | pintos/src/threads/thread.c:165-212 | the tick by the formulas, then the yield it asks for: after every tick no ready thread outranks the running one |
| Mlfq.Scheduler.Create | pintos/src/threads/thread.c:258-311 | the thread is ready at the back of its queue with fresh counters; the creator yields exactly to a more urgent one, so that no ready thread comes to outrank the running one |
| Mlfq.Scheduler.ScanQueues | pintos/src/threads/thread.c:559-564 | 63 minus the highest non-empty queue, 0 if all are empty |
| Mlfq.Scheduler.SetNice | pintos/src/threads/thread.c:547-567 | recent_cpu and priority by the formulas; afterwards no ready thread outranks the running one if and only if the priority p and the highest queue h do not satisfy 63 - h <= p < h |
| BufferCache.LruIsLong | pintos/src/filesys/cache.c:105-158 | at least 62 of the 64 buffers are on the free list between operations, so it is never empty |
| BufferCache.AfterOk | pintos/src/filesys/cache.c:236-283 | an access keeps the invariant: cached sectors unique, clean buffers equal disk, sectors 0 and 1 off the list; only a written sector changes for users |
| BufferCache.AfterView | pintos/src/filesys/cache.c:236-283 | a read changes nothing users see, a write its own sector alone, evictions included |
| BufferCache.FlushedOk | pintos/src/filesys/cache.c:178-185 | writing one buffer back changes nothing users see |
| BufferCache.CleanIsDisk | pintos/src/filesys/cache.c:194-213 | when no buffer is delayed the disk is what users see |
| BufferCache.AfterTracks | pintos/src/filesys/cache.c:105-176 | the free list stays in the order of last use: the victim is the least recently used evictable sector |
| BufferCache.WritesAreDelayed | pintos/src/filesys/cache.c:105-283 | a written buffer waits, a read makes nothing wait, and the disk changes only where a waiting buffer is evicted, to what it held |
| BufferCache.LruRestored | pintos/src/filesys/cache.c:163-176 | giving back the one buffer that is off the list makes the list whole again |
| BufferCache.BufferCache.GetBlock | pintos/src/filesys/cache.c:105-158 | the sector's buffer, or the least recently used one, written back first if delayed; it and no other buffer is off the list |
| BufferCache.BufferCache.Release | pintos/src/filesys/cache.c:163-176 | after a buffer in use is given back the list holds exactly the evictable buffers, that one last, once each |
| BufferCache.BufferCache.BlockRead | pintos/src/filesys/cache.c:236-264 | the last data written to the sector |
| BufferCache.BufferCache.BlockWrite | pintos/src/filesys/cache.c:266-283 | that sector alone changes |
| BufferCache.BufferCache.FlushCache | pintos/src/filesys/cache.c:194-213 | the disk equals what users see, every buffer clean |
| BufferCache.BufferCache.Run | pintos/src/filesys/cache.c:78-283 | every sequential run answers as a plain disk and keeps the list in order of last use |
| SharedLock.StepCount | pintos/src/filesys/cache.c:318-361 | every step keeps i equal to the number of readers, or -1 for one writer alone |
| SharedLock.StepWake | pintos/src/threads/synch.c:352-406 | no step loses a wake-up |
| SharedLock.RunInv | pintos/src/filesys/cache.c:310-361 | the invariant holds under every interleaving of any set of threads |
| SharedLock.CountIsExact | pintos/src/filesys/cache.c:310-361 | i is -1 exactly when one writer and no reader is inside, otherwise the number of readers |
| SharedLock.WriterIsAlone | pintos/src/filesys/cache.c:318-361 | nobody else is inside with a writer |
| SharedLock.NoLostWakeup | pintos/src/threads/synch.c:352-406 | a thread sleeps on a free lock only while a signalled one is still due to run |
| SharedLock.NeverStuck | pintos/src/filesys/cache.c:318-361 | while a thread sleeps, some thread in the monitor can move |
| SharedLock.WaitsIff | pintos/src/filesys/cache.c:318-341 | in every run a reader waits if and only if a writer is inside, a writer if and only if anybody is |
| SharedLock.ReadersShare | pintos/src/filesys/cache.c:318-328 | for every k there is a run after which k readers are inside at once |
| SharedLock.ReaderWakesOne | pintos/src/filesys/cache.c:343-351 | a reader that leaves wakes one sleeper if it was the last inside, and nobody otherwise |
| SharedLock.WriterWakesAll | pintos/src/filesys/cache.c:353-361 | a writer leaves the monitor only when nobody sleeps any more |
| HashTable.DropLowestBit | pintos/src/lib/kernel/hash.c:328-340 | x & (x - 1) is zero exactly for a power of two, else smaller with the same highest bit |
| HashTable.MaskIsMod | pintos/src/lib/kernel/hash.c:304-310 | masking with a power of two less one is the remainder |
| HashTable.IndexIsMod | pintos/src/lib/kernel/hash.c:304-310 | an element's bucket is its hash modulo the number of buckets |
| HashTable.InsertedOk | pintos/src/lib/kernel/hash.c:415-421 | pushing a new element on its bucket keeps the table and adds it alone |
| HashTable.RemovedOk | pintos/src/lib/kernel/hash.c:423-429 | unlinking removes that element alone |
| HashTable.EqualInBucket | pintos/src/lib/kernel/hash.c:312-326 | an equal element can only be in the same bucket |
| HashTable.Hash.Find | pintos/src/lib/kernel/hash.c:131-135 | an equal element, or none if and only if none is in the table |
| HashTable.Hash.TargetCount | pintos/src/lib/kernel/hash.c:368-372 | the largest power of two at most half the number of elements, at least 4 |
| HashTable.Hash.MoveAll | pintos/src/lib/kernel/hash.c:394-410 | every element moves to its bucket in the new array, none lost, none equal to another |
| HashTable.Hash.Rehash | pintos/src/lib/kernel/hash.c:351-413 | changes no lookup, with or without memory; with memory leaves 2 to 4 elements per bucket |
| HashTable.Hash.Insert | pintos/src/lib/kernel/hash.c:98-110 | adds the element if no equal one is there, else returns that one |
| HashTable.Hash.Replace | pintos/src/lib/kernel/hash.c:114-127 | the element replaces its equal, if any, which is returned |
| HashTable.Hash.Delete | pintos/src/lib/kernel/hash.c:144-154 | exactly the equal element is removed and returned |
| Ustar.FormatOctal | pintos/src/lib/stdio.c:469-547 | the digit loops print the octal number with leading zeros |
| Ustar.OctalOk | pintos/src/lib/stdio.c:501-544 | w digits whose value is the number printed |
| Ustar.ParseOctalField | pintos/src/lib/ustar.c:129-162 | accepts exactly the digits-then-terminator fields whose value fits in 32 bits, with that value |
| Ustar.OctalRoundTrip | pintos/src/lib/ustar.c:102-115 | parsing a printed field gives the number back |
| Ustar.StripIsSafe | pintos/src/lib/ustar.c:65-73 | a stripped name is not empty, not "..", has no dangerous prefix, is a suffix or ".", and is not changed by stripping again |
| Ustar.StripTakesJunk | pintos/src/lib/ustar.c:64-73 | exactly the leading components "", "." and ".." go; the rest is kept, except that nothing and ".." become "." |
| Ustar.AntisocialIff | pintos/src/lib/ustar.c:67-70 | the test for a prefix holds if and only if the first component of a path with a slash is one of those |
| Ustar.StripAntisocialPrefixes | pintos/src/lib/ustar.c:65-73 | the loop terminates with the stripped name |
| Ustar.CalculateChksum | pintos/src/lib/ustar.c:36-54 | the sum with the checksum field as spaces, which fits in seven octal digits |
| Ustar.SumIgnoresField | pintos/src/lib/ustar.c:36-54 | the checksum does not depend on its own field |
| Ustar.SumDetects | pintos/src/lib/ustar.c:36-54 | changing any one other byte changes the checksum |
| Ustar.Make | pintos/src/lib/ustar.c:82-118 | fails if and only if the stripped name is longer than 99 bytes |
| Ustar.RoundTrip | pintos/src/lib/ustar.c:82-227 | parsing a made header gives the stripped name, the type, and the size, 0 for directories |
| Ustar.DamageIsDetected | pintos/src/lib/ustar.c:182-227 | an entry with one byte changed anywhere but in the checksum field is refused |
| Ustar.ParseIff | pintos/src/lib/ustar.c:182-227 | exactly which blocks end the archive and which are entries |
| Ustar.MadeFields | pintos/src/lib/ustar.c:98-114 | the mode, owner, group and date that a made header's fields read as |
| Ustar.EntriesAreSafe | pintos/src/lib/ustar.c:182-227 | whatever the bytes, an accepted entry has a safe name of at most 99 bytes and a size within int |
| HeapSort.SiftHeap | pintos/src/lib/stdlib.c:96-123 | heapify restores the heap property from its start index down |
| HeapSort.SiftKeeps | pintos/src/lib/stdlib.c:96-123 | heapify permutes the elements from its start up to cnt and touches no other |
| HeapSort.BuildHeap | pintos/src/lib/stdlib.c:142-144 | the first loop makes a heap of the whole array |
| HeapSort.HeapTop | pintos/src/lib/stdlib.c:96-123 | the root of a heap is its largest element |
| HeapSort.StepDrains | pintos/src/lib/stdlib.c:146-151 | each round places the largest remaining element and restores the heap |
| HeapSort.SortIsCorrect | pintos/src/lib/stdlib.c:131-152 | for every array and total preorder: sorted, and a permutation |
| HeapSort.DoSwap | pintos/src/lib/stdlib.c:66-79 | exchanges two elements and nothing else |
| HeapSort.Heapify | pintos/src/lib/stdlib.c:96-123 | the loop on the array computes the sift of its contents |
| HeapSort.Sort | pintos/src/lib/stdlib.c:131-152 | sorts in place: sorted, and a permutation of what was there |
| HeapSort.BinarySearch | pintos/src/lib/stdlib.c:184-207 | finds a match if and only if there is one |

## Left out

- KernelList.List.Splice: the block comes from the same list; `ListSplice.SpliceAcross` is the case of two lists.
- Division.Divl: the DIVL instruction is taken as exact division with its trap condition as a precondition.
- Ring.FindFirstReplica: the tree map is taken as the sorted set of its keys.
- TwoPhaseCommit.GetsArePlain: a GET is one step, served from the cache or the first slave; one whose connection fails returns nothing and changes nothing. Fail-over to the second slave is not modelled: its guard tests a newly constructed message for null.
- TwoPhaseCommit.RunInv: the master does not crash, requests are serialised after the ring is full, and keys and values are ones the server accepts.
- Paging.Vm.Run: page-table pages can always be allocated, and mapped files accept write-back. It starts from pages of which none shares file bytes with a mapped page. With shared bytes write-back through the one shows in the other (`Paging.ApartIff`: exactly then), and pintos/doc/vm.texi:662-663 asks for no consistency.
- Segments.LoadSegment: the program does not run yet and its file is not memory-mapped; validate_segment and the ELF header are not modelled.
- Paging.Vm.PageOut: the pinned flag that it sets and resets within the call is not shown.
- Paging.Vm.PageDestroy: the page-directory entry goes with the page, as at process exit; page_munmap, which leaves it, is not modelled.
- Donation.Threads.LockAcquire: every listed lock has a holder, and an empty waiter list donates nothing.
- Donation.Threads.SetPriority: the yield to a more urgent ready thread at its end is not modelled, since the ready list is not.
- Donation.Threads.LockRelease: the hand-over to the woken thread is one step.
- Mlfq.Scheduler.constructor: starts after thread_start, when the idle thread is known.
- Malloc.Allocator.Malloc: for sizes above 2^32 - 12 it does not promise the size asked for, because the code grants one page, 4084 bytes.
- Malloc.Allocator.Calloc: clearing the block is not shown, since block contents are not modelled.
- BufferCache.BufferCache.Run: one thread at a time; the sector index is a map (its hash table is modelled in `HashTable.dfy`).
- SharedLock.NeverStuck: no fairness is assumed, so it is not claimed that every sleeper eventually runs.
- Ustar.Make: the header is built as a value, not filled into the caller's buffer; names contain no null byte.
- HeapSort.DoSwap: elements are exchanged whole, not byte by byte.
- Sockets, XML marshalling, Java serialisation, thread pools and file streams of kvstore; the log file is durable once appended, an unreadable message is a lost one.
- Lock-object races in KVServer and TPCMaster, and the wait for full registration.
- setup_stack and page_pin: the frames they pin, and the first stack page, which setup_stack maps without clearing it, do not occur.
- realloc, page_munmap, the user pool of the page allocator, and hash_clear, hash_apply and the hash iterators.
- Kernel locks around single operations: modelled operations are atomic unless a step system says otherwise.
- The single ready list that replaces the feedback queues when they are switched off: a first-in, first-out list searched for its maximum, which `KernelList.List.Max` covers.
- Inodes and directories: file contents are sequences of bytes here, so how inode.c places them on sectors does not show.
- Devices, interrupt entry, context switching and the decoding of system calls, which depend on the hardware's state; lock_try_acquire, which takes a free lock without listing it for donation.
- Tests, example programs and utilities of both systems.
