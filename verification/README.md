# Verified models of innigkeit

Dafny models of the parts of the innigkeit operating system whose correctness is least obvious from
their text, with proofs of what they promise. `dafny verify dfyconfig.toml` checks everything.

* **Locks and threads.** The futex mutex and the once cell of the Rust library, the completion
  protocol of threads with `join` and `detach`, and the upgradable spin lock. Each is a state machine
  with one transition per atomic operation or system call, any number of threads, and spurious
  returns from the futex; the results are about every run. `FutexMutex`, `OnceCell`,
  `ThreadCompletion`, `SharedLock`.
* **Memory.** The buddy allocator of physical pages (`BuddyBlocks` for sets of blocks, `BuddyPages`
  for page counts, `BuddyBoot` for filling it, `DoubleFree` for pages freed twice, `BuddyAllocator` for
  lists and flags in place), the LZ4 codec and the pool of compressed pages (`Lz4`, `CompressPool`),
  the size-class allocator of the Rust library (`PoolAllocator`), and the merging of the boot memory
  map (`UsableRanges`).
* **Files.** The archive that the build tool writes and the kernel searches (`Ustar`, `Initfs`).
* **User space.** Integer square root, clipped drawing and lines (`IntegerSqrt`, `Canvas`, `Line`),
  the formatter and the number parser of the C library (`Printf`, `Vsnprintf`, `FormatSyntax`,
  `Conversions`, `Strtol`), batched I/O (`BatchQueue`), and the shell's tokenizer, history and line editor
  (`Tokenizer`, `ShellSyntax`, `History`, `LineEditor`).

`Bytes` and `Arithmetic` hold what the others share.

Code that works in place is modelled by methods on arrays and classes, each proved to compute a
function of its input or old state; the lemmas are about those functions. The multi-threaded parts are
modelled on values, one step at a time, since the point there is the interleaving of steps.

Where the code and its comments differ the model follows the code:

* The match finder of the compressor leaves at least one byte as a literal; the comment on
  `LAST_LITERALS` asks for five (`TailLiterals` says exactly when
  fewer are left, `TailAllEqual` gives a family).
* The double-free test looks at the head of the freed block only. It misses a block that was merged
  downwards, and the free lists then overlap (`SecondFreeNoticed`, `UnnoticedBreaks`).
* Coalescing is promised on free; ranges added at boot that touch at a buddy border stay separate
  (`AddRange`, `TouchingRanges`).
* A page stored a second time under its index does not replace the first copy (`StoreThenLoad`, `StaleCopy`).
* The kernel's archive scan stops at the first zero block; its comment speaks of two
  (`StopsAtEnd`).
* A second `join` on a handle is said to return without harm. `RecordFreedOnce` shows that when a
  `join` has returned the record is gone, so a later `join` would read a destroyed record. The model
  allows one `join` or `detach` per handle.
* The square root may take more than the two rounds its comment promises (`MoreThanTwoRounds`,
  `TwoRounds` for exactly when).
* `vsnprintf` with a size of 0 returns 0, where section 7.19.6.12 of C99 asks for the length of the text.
* The history compares a new line with the stored, possibly cut, form of the last one (`RepeatedPush`).
* An ampersand after as many words as the argument array holds is not seen (`AmpersandSeen`).
* A reader count of 2^31 reads as the writer bit (`BoundIsTight`), two upgraders block each other
  (`TwoUpgradersStuck`), and a line with a span above 715827883 can overflow its error term (`SpanLimit`).

## Model

| member | source | states |
|---|---|---|
| FutexMutex.InvStep | library/innigkeit-rs/src/sync.rs:55-95 | Every atomic step of every thread keeps: at most one owner, the word is 0 exactly when there is none, and a sleeper implies a wake on its way. |
| FutexMutex.MutualExclusion | library/innigkeit-rs/src/sync.rs:55-95 | After any run of any number of threads at most one holds the guard, and the word is 0 exactly when none does. |
| FutexMutex.NoLostWakeup | library/innigkeit-rs/src/sync.rs:64-95 | After any run, if a thread sleeps then somebody who will resume it is on the way; it is never left with only idle or sleeping threads. |
| FutexMutex.AcquiredIffFree | library/innigkeit-rs/src/sync.rs:57-87 | In every reachable state an attempt by `lock`, `try_lock` or the slow path succeeds exactly when nobody owns the lock, and a failed `try_lock` returns. |
| FutexMutex.UncontendedNeedsNoKernel | library/innigkeit-rs/src/sync.rs:56-63 | A thread that is alone never reaches a futex call: the fast path and the plain unlock suffice. |
| FutexMutex.SleeperCanAcquire | library/innigkeit-rs/src/sync.rs:64-95 | From every state satisfying the invariant a sleeping thread has a continuation of existing threads that gives it the lock. |
| FutexMutex.NoDeadlock | library/innigkeit-rs/src/sync.rs:55-95 | After any run, each thread inside `lock`, about to compare, swap or wait, or asleep, can still be granted the lock by steps of threads already inside, with no new call and no spurious return. |
| FutexMutex.CallLockGetsGuard | library/innigkeit-rs/src/sync.rs:55-74 | In every run after a call of `lock`, a thread that is out of it again has held the guard on the way. |
| FutexMutex.TryLockOutcome | library/innigkeit-rs/src/sync.rs:77-87 | Whatever the others do meanwhile, `try_lock` is over after its one operation: with the guard if nobody owns the lock then, and without it if somebody does. |
| FutexMutex.LockerSleeps | library/innigkeit-rs/src/sync.rs:64-73 | While another thread owns the lock, at most three operations of its own put a caller of `lock` to sleep: it does not spin. |
| FutexMutex.UnlockReturns | library/innigkeit-rs/src/sync.rs:89-95 | Unlocking takes at most three operations of the owner alone and leaves the word at 0. |
| FutexMutex.SpuriousReturn | library/innigkeit-rs/src/sync.rs:64-73 | A caller resumed unasked is awake inside `lock`, and nothing else has changed. |
| OnceCell.RunnerStep | library/innigkeit-rs/src/sync.rs:145-152 | Every step keeps: one runner at most, word 1 exactly while it runs, and the counts of entries and returns of the closure tied to word and runner. |
| OnceCell.WaiterStep | library/innigkeit-rs/src/sync.rs:153-166 | Every step keeps: no call has returned before the word is 2, and a sleeper with the word at 2 has a wake-all still to come. |
| OnceCell.RunsOnce | library/innigkeit-rs/src/sync.rs:140-167 | Over every run the closure is entered at most once, and a returned call implies it has been entered once and has finished. |
| OnceCell.ReturnsIffDone | library/innigkeit-rs/src/sync.rs:141-143 | In every reachable state a caller that looks at the word returns exactly when the closure has finished and its end is published. |
| OnceCell.NoLostWakeup | library/innigkeit-rs/src/sync.rs:153-166 | Over every run, a sleeping caller implies a runner that has yet to store 2 or to wake everybody. |
| OnceCell.NoDeadlock | library/innigkeit-rs/src/sync.rs:140-167 | After any run every call in progress can still return by steps of threads already inside, and the closure has then been entered and left exactly once. |
| OnceCell.CallEndsReturned | library/innigkeit-rs/src/sync.rs:140-167 | In every run after a call, the caller is inside it or has returned. |
| OnceCell.LoserSleeps | library/innigkeit-rs/src/sync.rs:161-165 | While the closure runs, at most four steps of its own put another caller to sleep. |
| OnceCell.SpuriousReturn | library/innigkeit-rs/src/sync.rs:161-165 | A caller resumed unasked looks at the word again and returns exactly if the end is published. |
| ThreadCompletion.WorkerInv | library/innigkeit/thread.zig:222-238 | A step of a finishing thread (swap, wake, destroy) keeps the joint invariant of worker, owner, word and record, for any number of threads and with record addresses reused. |
| ThreadCompletion.WakeInv | library/innigkeit/thread.zig:227-230 | A wake that comes after its record was destroyed, at an address that may belong to another thread by then, keeps the invariant. |
| ThreadCompletion.OwnerInv | library/innigkeit/thread.zig:273-300 | A step of `join` or `detach` keeps the invariant and never touches a destroyed record. |
| ThreadCompletion.SpawnInv | library/innigkeit/thread.zig:246-264 | Spawning a thread with its record at any address not in use keeps the invariant. |
| ThreadCompletion.RecordFreedOnce | library/innigkeit/thread.zig:199-300 | Over every run: no use after destruction and no unreachable branch; each record is destroyed at most once, and it is gone exactly if its join has returned or it was detached and its worker is past its own part; `join` returns only after the function has; a joiner sleeps only while a wake is to come. |
| ThreadCompletion.NoDeadlock | library/innigkeit/thread.zig:284-300 | After any run a join whose thread function has returned can still return, by steps of that thread's worker and owner alone. |
| ThreadCompletion.JoinStaysJoin | library/innigkeit/thread.zig:288-300 | In every run after a `join` the owner is inside it or has joined. |
| ThreadCompletion.DetachStaysDetach | library/innigkeit/thread.zig:273-282 | In every run after a `detach` the owner is inside it or has released the handle; it never waits. |
| ThreadCompletion.DetachReturns | library/innigkeit/thread.zig:273-282 | After any run, at most two steps of the owner alone finish a `detach`; the record survives for the worker to destroy if the worker has not published its end, and is destroyed otherwise. |
| ThreadCompletion.WorkerEnds | library/innigkeit/thread.zig:222-238 | After any run, once its function has returned, at most two steps of its own end the worker, and a record released before is then destroyed. |
| ThreadCompletion.JoinSleeps | library/innigkeit/thread.zig:288-289 | Until the end is published, at most two steps of its own put a joiner to sleep. |
| ThreadCompletion.SpuriousReturn | library/innigkeit/thread.zig:288-289 | A joiner resumed unasked is awake inside `join` with nothing else changed, and goes back to sleep while the thread runs. |
| ThreadCompletion.StaleWake | library/innigkeit/thread.zig:222-230 | A run exists in which a late wake resumes the joiner of another thread that was given the same address. |
| ThreadCompletion.FreedBeforeWake | library/innigkeit/thread.zig:222-300 | A run exists in which the joiner destroys the record before the worker has issued its wake. |
| ThreadCompletion.JoinerSleeps | library/innigkeit/stdio.zig:216-220 | A joiner that finds its thread running goes to sleep, and a wake at its address brings it back to its loop. |
| SharedLock.InvStep | library/core/lock.zig:22-67 | With fewer than 2^31 threads every step keeps: the word is the writer bit with one writer and no reader, or the number of readers with no writer. |
| SharedLock.WordEncodesHolders | library/core/lock.zig:22-67 | The same over every run from the unlocked state. |
| SharedLock.GrantedIff | library/core/lock.zig:25-58 | In every reachable state: exclusive access is granted exactly when nobody holds the lock, an upgrade exactly when the caller is the only holder, and a reader gets past its look exactly when there is no writer. |
| SharedLock.TryNeverSpins | library/core/lock.zig:50-58 | Every operation of a try, a spurious failure included, brings it closer to its end, with the lock or without. |
| SharedLock.NeverEmptyHanded | library/core/lock.zig:25-48 | In every run after `lock`, `lockShared` or `relock`, a thread that is no longer inside the call has held the lock on the way, as a writer or as a reader. |
| SharedLock.HeldUntilReleased | library/core/lock.zig:60-66 | A holder keeps what it holds until it unlocks or upgrades itself, and unlocking leaves it outside. |
| SharedLock.TryLockOutcome | library/core/lock.zig:50-52 | Whatever the others do meanwhile, the operation of `tryLock`, unless it fails for no reason, takes the lock exactly when nobody holds it and leaves otherwise. |
| SharedLock.TrySharedOutcome | library/core/lock.zig:54-58 | With nobody in between, `tryLockShared` makes a reader exactly if there is no writer. |
| SharedLock.SharedGrantable | library/core/lock.zig:39-48 | From every reachable state a caller of `lockShared` gets in by its own operations once a present writer unlocks. |
| SharedLock.LockGrantable | library/core/lock.zig:25-37 | From every reachable state a caller of `lock` can still get the lock if and only if no two threads are upgrading. |
| SharedLock.TwoUpgradersStuck | library/core/lock.zig:29-37 | Two readers that both upgrade spin for ever: in every continuation neither gets the lock and no writer ever enters. |
| SharedLock.LoneUpgraderAcquires | library/core/lock.zig:29-37 | A single upgrader gets the lock by a continuation in which the other readers leave. |
| SharedLock.UpgradeGrantable | library/core/lock.zig:29-37 | From a reachable state an upgrader can still get the lock if and only if no other thread is upgrading. |
| SharedLock.ReadersEnter | library/core/lock.zig:39-48 | Any number of threads up to 2^31 can be inside as readers at once, and the word counts them. |
| SharedLock.BoundIsTight | library/core/lock.zig:39-48 | With 2^31 threads or more a run exists in which the reader count reaches the writer bit without a writer. |
| Lz4.ReadExtensionInverts | src/innigkeit/memory/compress.zig:133-143 | Reading length extension bytes undoes writing them, for every length and whatever follows. |
| Lz4.DecodeMatchInverts | src/innigkeit/memory/compress.zig:149-163 | Decoding a written match offset and length copies exactly that match. |
| Lz4.DecodeSequence | src/innigkeit/memory/compress.zig:118-166 | Decoding one written sequence appends its literals and its match and goes on with what follows. |
| Lz4.DecodeLast | src/innigkeit/memory/compress.zig:168-194 | Decoding the last literals appends them and ends the block. |
| Lz4.LiteralErrors | src/innigkeit/memory/compress.zig:210-229 | A literal run is BufferTooSmall if it exceeds the buffer, CorruptInput if it then exceeds the input, and the end of the text if it ends it. |
| Lz4.OffsetErrors | src/innigkeit/memory/compress.zig:231-235 | A back reference whose offset is cut off, zero, or reaches before the start of the output is CorruptInput. |
| Lz4.MatchTooLong | src/innigkeit/memory/compress.zig:248-248 | A match that exceeds the buffer is BufferTooSmall. |
| Lz4.ExtensionCut | src/innigkeit/memory/compress.zig:237-246 | A match length cut off by the end of the input counts as far as it goes. |
| Lz4.CapOnlyBounds | src/innigkeit/memory/compress.zig:199-258 | The size of the buffer decides nothing but whether the text fits. |
| Lz4.RoundTrip | src/innigkeit/memory/compress.zig:8-22 | For every list of sequences with valid offsets and every tail, decoding the written block gives the text it stands for. |
| Lz4.ReadU32Injective | src/innigkeit/memory/compress.zig:77-80 | The four-byte comparison of the match finder holds exactly when the four bytes agree. |
| Lz4.WriteExtension | src/innigkeit/memory/compress.zig:133-143 | The extension loop writes exactly the bytes of the length and nothing before them. |
| Lz4.EmitSequence | src/innigkeit/memory/compress.zig:118-166 | The output grows by exactly the bytes of the sequence. |
| Lz4.EmitLastLiterals | src/innigkeit/memory/compress.zig:168-194 | The output grows by exactly the bytes of the final literal run. |
| Lz4.SequenceCost | src/innigkeit/memory/compress.zig:28-30 | No sequence costs more than its text plus one byte in 255 of its literals. |
| Lz4.Lookup | src/innigkeit/memory/compress.zig:69-80 | The hash table hands back the last position of the hash, records the current one, and a match is reported exactly when it is in reach and four bytes agree. |
| Lz4.ExtendMatch | src/innigkeit/memory/compress.zig:87-93 | The match found is repeated text, as long as it goes while one byte of the input is left. |
| Lz4.EmitSequences | src/innigkeit/memory/compress.zig:59-101 | What has been written stands for the input up to the anchor and the sequences are those of the greedy parse; it stops short exactly if they do not fit the buffer. |
| Lz4.Compress | src/innigkeit/memory/compress.zig:55-108 | Returns the error exactly on a short buffer; otherwise the block is the packed greedy parse and decodes to the input in any buffer that can hold it, or writing leaves the buffer exactly if that block is too long for it. |
| Lz4.Packed | src/innigkeit/memory/compress.zig:28-108 | The packed greedy parse of every text decodes to the text in any buffer that can hold it and takes at most n + n/255 + 16 bytes. |
| Lz4.ParseIsGreedy | src/innigkeit/memory/compress.zig:67-101 | The sequences are those of a parse without a hash table: at each position looked at, the latest earlier such position with the same hash is taken if in reach and four bytes agree, and the match goes on until bytes differ or one is left. |
| Lz4.PackedIsGreedy | src/innigkeit/memory/compress.zig:59-101 | This holds of the whole text from an empty table. |
| Lz4.ParseReaches | src/innigkeit/memory/compress.zig:87-101 | Along the whole parse: the sequences reach into the last five bytes exactly if the text repeats that far from the last match on. |
| Lz4.ParseAllEqual | src/innigkeit/memory/compress.zig:59-101 | A text of one repeated byte is parsed as one literal and one reference. |
| Lz4.PackedAllEqual | src/innigkeit/memory/compress.zig:59-108 | Such a text is packed into six bytes plus the extension of its length. |
| Lz4.TailLiterals | src/innigkeit/memory/compress.zig:87-105 | A packed text ends with a literal; one of five bytes or more ends with fewer than five if and only if its bytes, from the last match on, repeat those one match offset earlier into the last five. |
| Lz4.TailAllEqual | src/innigkeit/memory/compress.zig:50-50 | On a text of one repeated byte the five-literal rule fails: a single literal is left. |
| Lz4.CopyMatchBytes | src/innigkeit/memory/compress.zig:248-254 | The byte-by-byte copy yields the periodic extension, overlapping or not, in place. |
| Lz4.DecompressOne | src/innigkeit/memory/compress.zig:205-255 | One turn of the in-place decoder does what one step of the block format says, errors included. |
| Lz4.Decompress | src/innigkeit/memory/compress.zig:199-258 | On every input the decoder returns the text of the block, BufferTooSmall or CorruptInput exactly as the format function does, and the bytes are in the buffer. |
| Lz4.PageRoundTrip | src/innigkeit/memory/compress.zig:52-258 | Whatever page of at most 4096 bytes: compressing fits the maximum and decompressing gives it back. |
| CompressPool.Pool.constructor | src/innigkeit/memory/compress.zig:289-291 | A new pool is valid and empty. |
| CompressPool.Pool.Store | src/innigkeit/memory/compress.zig:293-322 | Accepts a page exactly when there is an empty slot, memory and a gain; then the first empty slot, and only it, holds a block that decodes to the page; else nothing changes. |
| CompressPool.AllEqualShrinks | src/innigkeit/memory/compress.zig:303-307 | A page of one repeated byte always shrinks, so it is accepted whenever there are a slot and memory. |
| CompressPool.Pool.Load | src/innigkeit/memory/compress.zig:324-345 | Succeeds exactly when the page is stored; the first copy is decoded into the buffer and its slot emptied; otherwise nothing changes. |
| CompressPool.InUseUpdate | src/innigkeit/memory/compress.zig:312-318 | The count of used slots follows every change of one slot. |
| CompressPool.FirstOfStored | src/innigkeit/memory/compress.zig:312-334 | The slot just filled is the one a load finds, exactly if no earlier slot holds the index. |
| CompressPool.StoreThenLoad | src/innigkeit/memory/compress.zig:293-345 | Storing a page and loading its index gives the page back and leaves the pool as it was if and only if no slot before the one filled holds the index; otherwise the earliest copy comes back. |
| CompressPool.StaleCopy | src/innigkeit/memory/compress.zig:293-345 | Two pages that shrink, stored under any one index in an empty pool: the load brings back the older one. |
| BuddyBlocks.Nested | src/innigkeit/memory/page/BuddyAllocator.zig:41-43 | Two naturally aligned blocks overlap only if one lies inside the other. |
| BuddyBlocks.BuddyHalves | src/innigkeit/memory/page/BuddyAllocator.zig:107-119 | Flipping bit o of an aligned index gives the other half of the aligned parent block, and flipping twice gives the index back. |
| BuddyBlocks.JoinHalves | src/innigkeit/memory/page/BuddyAllocator.zig:105-121 | In a coalesced set two free halves of a range are in one block. |
| BuddyBlocks.CoveredRangeIsOneBlock | src/innigkeit/memory/page/BuddyAllocator.zig:10-15 | In a coalesced set an aligned range whose pages are all free lies in one free block. |
| BuddyBlocks.Canonical | src/innigkeit/memory/page/BuddyAllocator.zig:10-12 | Two coalesced sets of blocks that cover the same pages are the same set. |
| BuddyBlocks.TakeSound | src/innigkeit/memory/page/BuddyAllocator.zig:49-79 | From any set of blocks, coalesced or not: taking a block and splitting it removes exactly its pages from the free pages, keeps the blocks aligned and apart, and keeps the set coalesced if it was. |
| BuddyBlocks.MergeSound | src/innigkeit/memory/page/BuddyAllocator.zig:102-128 | Into any set of blocks: freeing with merging adds exactly the freed pages, keeps the blocks aligned and apart, and keeps the set coalesced if it was. |
| BuddyBlocks.LeavesIff | src/innigkeit/memory/page/BuddyAllocator.zig:106-111 | The merge loop looks at a record outside the page array exactly if at some order the buddy of the block around the index lies outside and those of all lower orders are free. |
| BuddyBlocks.NeverLeaves | src/innigkeit/memory/page/BuddyAllocator.zig:106-111 | With a page array of whole blocks of 1024 pages the record of every buddy looked at is inside it. |
| BuddyBoot.FillStep | src/innigkeit/memory/page/init.zig:205-220 | Adding the largest aligned block that fits adds exactly its pages, and keeps the set coalesced unless a free block has its buddy in the range. |
| DoubleFree.SecondFreeNoticed | src/innigkeit/memory/page/BuddyAllocator.zig:90-121 | A second free of a block is detected if and only if the first one did not merge it downwards, that is unless the buddy below was free where the merging met it. |
| DoubleFree.OverlapBreaks | src/innigkeit/memory/page/BuddyAllocator.zig:89-129 | Freeing pages of which one is free, at an index that begins no free block, leaves two overlapping free blocks. |
| DoubleFree.FreeSoundIff | src/innigkeit/memory/page/BuddyAllocator.zig:89-129 | In any set of blocks a free that is not refused keeps the free blocks apart if and only if none of its pages was free. |
| DoubleFree.UnnoticedBreaks | src/innigkeit/memory/page/BuddyAllocator.zig:89-129 | So does every second free that is not detected. |
| DoubleFree.PageOneTwice | src/innigkeit/memory/page/BuddyAllocator.zig:90-97 | With page 0 free, page 1 freed twice is such a case. |
| BuddyBlocks.FreeUndoesTake | src/innigkeit/memory/page/BuddyAllocator.zig:49-129 | In any set of blocks, freeing an allocated block restores the very same free blocks if and only if the block it was split from had no free buddy of its own order. |
| BuddyBlocks.FreeRestores | src/innigkeit/memory/page/BuddyAllocator.zig:49-129 | So in a coalesced set it always does. |
| BuddyBlocks.ServedIffRangeFree | src/innigkeit/memory/page/BuddyAllocator.zig:49-53 | A request for 2^k pages can be served exactly when some aligned run of 2^k pages is free. |
| BuddyPages.CountersArePages | src/innigkeit/memory/page/BuddyAllocator.zig:142-149 | The per-order counters, weighted by block size, add up to the number of free pages. |
| BuddyPages.TakeConserves | src/innigkeit/memory/page/BuddyAllocator.zig:49-79 | From any set of blocks: the free pages before an allocation are those after it and, disjoint from them, the 2^order allocated ones. |
| BuddyPages.MergeConserves | src/innigkeit/memory/page/BuddyAllocator.zig:89-129 | Into any set of blocks: the free pages after a free are those before it and, disjoint from them, the freed ones. |
| BuddyAllocator.PrependLinked | src/innigkeit/memory/page/BuddyAllocator.zig:164-170 | Prepending keeps the doubly linked lists exactly the free blocks of their orders. |
| BuddyAllocator.UnlinkLinked | src/innigkeit/memory/page/BuddyAllocator.zig:172-195 | Unlinking a block, first or not, keeps them so. |
| BuddyAllocator.ListNotEmpty | src/innigkeit/memory/page/BuddyAllocator.zig:50-53 | The list of an order is empty only if no block of that order is free. |
| BuddyAllocator.BuddyAllocator.constructor | src/innigkeit/memory/page/BuddyAllocator.zig:31-39 | A new allocator is valid, coalesced and has no free page. |
| BuddyAllocator.BuddyAllocator.AddBlock | src/innigkeit/memory/page/BuddyAllocator.zig:134-140 | Adds one free block; lists, flags and counters stay in agreement. |
| BuddyAllocator.BuddyAllocator.DropBlock | src/innigkeit/memory/page/BuddyAllocator.zig:172-195 | Removes one free block; lists, flags and counters stay in agreement. |
| BuddyAllocator.BuddyAllocator.LargestOrder | src/innigkeit/memory/page/init.zig:208-217 | The largest order whose alignment and size both fit. |
| BuddyAllocator.BuddyAllocator.AddRange | src/innigkeit/memory/page/init.zig:202-220 | After populating a range at boot exactly its pages are free in addition, and the set is coalesced if and only if no free block had its buddy in the range. |
| BuddyAllocator.TouchingRanges | src/innigkeit/memory/page/init.zig:205-220 | Two neighbouring pages handed over one after the other stay two blocks, uncoalesced. |
| BuddyAllocator.BuddyAllocator.ZeroBlock | src/innigkeit/memory/page/BuddyAllocator.zig:151-157 | The pages of the block, and no others, become zero. |
| BuddyAllocator.BuddyAllocator.TotalFreePages | src/innigkeit/memory/page/BuddyAllocator.zig:142-149 | The reported total is the number of pages in free blocks. |
| BuddyAllocator.BuddyAllocator.FindOrder | src/innigkeit/memory/page/BuddyAllocator.zig:50-53 | The smallest order from the requested one on that has a free block. |
| BuddyAllocator.BuddyAllocator.SplitDown | src/innigkeit/memory/page/BuddyAllocator.zig:61-73 | The upper halves are given back down to the requested order. |
| BuddyAllocator.BuddyAllocator.Alloc | src/innigkeit/memory/page/BuddyAllocator.zig:49-79 | Fails exactly when no block is large enough; otherwise a best-fitting block is taken and split, its pages and no others zeroed, and the invariant kept, coalesced or not as it was at boot. |
| BuddyAllocator.BuddyAllocator.TakeBuddy | src/innigkeit/memory/page/BuddyAllocator.zig:106-120 | The buddy is taken off its list exactly when it is free at the same order, and merging goes on from the parent. |
| BuddyAllocator.BuddyAllocator.Release | src/innigkeit/memory/page/BuddyAllocator.zig:89-129 | Detects exactly the free of a block head; fails exactly where a buddy's record lies outside the page array; otherwise zeroes the pages and merges as far as buddies are free, stays valid if and only if none of the pages was free, and then stays coalesced if it was. |
| PoolAllocator.ClassFor | library/innigkeit-rs/src/alloc_impl.rs:15-19 | The smallest class that holds the size; none exactly above 2048. |
| PoolAllocator.BlocksApart | library/innigkeit-rs/src/alloc_impl.rs:54-80 | Two blocks carved from arenas are the same block of the same class or share no byte. |
| PoolAllocator.BlockFacts | library/innigkeit-rs/src/alloc_impl.rs:54-80 | A carved block is non-null, aligned to its own size, and apart from every large mapping. |
| PoolAllocator.PopInv | library/innigkeit-rs/src/alloc_impl.rs:95-96 | Taking the head off a list keeps live blocks and free lists a partition of what was carved, with the links intact. |
| PoolAllocator.PushInv | library/innigkeit-rs/src/alloc_impl.rs:119-120 | Putting a block back keeps it so. |
| PoolAllocator.WriteInv | library/innigkeit-rs/src/alloc_impl.rs:83-111 | Whatever a program writes inside a block it holds, words or bytes, aligned or not, disturbs no list and no header. |
| PoolAllocator.WriteLargeInv | library/innigkeit-rs/src/alloc_impl.rs:99-110 | The same for a large allocation, behind its header. |
| PoolAllocator.RefillInv | library/innigkeit-rs/src/alloc_impl.rs:54-80 | Refilling an empty list from a fresh arena keeps it so. |
| PoolAllocator.LargeInv | library/innigkeit-rs/src/alloc_impl.rs:99-110 | A direct mapping with its size in the header keeps the invariant. |
| PoolAllocator.AlignDivides | library/innigkeit-rs/src/alloc_impl.rs:86-98 | A block of a power-of-two class is aligned to every requested alignment up to the class size. |
| PoolAllocator.BehindHeader | library/innigkeit-rs/src/alloc_impl.rs:100-109 | A large allocation is aligned to the requested power of two if and only if that is at most 16. |
| PoolAllocator.PoolAlloc.constructor | library/innigkeit-rs/src/alloc_impl.rs:30-35 | A new allocator is valid. |
| PoolAllocator.PoolAlloc.Refill | library/innigkeit-rs/src/alloc_impl.rs:54-80 | Fails exactly when the mapping does, changing nothing; otherwise the list is all blocks of the arena. |
| PoolAllocator.PoolAlloc.AllocClass | library/innigkeit-rs/src/alloc_impl.rs:88-98 | A small request gets a block that was not live, apart from all live blocks, large enough and aligned: the head of its list, with a new arena exactly if that was empty; null exactly if the mapping then fails. |
| PoolAllocator.PoolAlloc.Alloc | library/innigkeit-rs/src/alloc_impl.rs:84-111 | The whole of `alloc`: small and large requests, their alignment, the failures, and the invariant after any of them. |
| PoolAllocator.PoolAlloc.Dealloc | library/innigkeit-rs/src/alloc_impl.rs:113-127 | A small block goes back to the front of its own list; a large one is unmapped with the very address and size it was mapped with. |
| PoolAllocator.PoolAlloc.FreeThenAlloc | library/innigkeit-rs/src/alloc_impl.rs:88-120 | A freed block is the next one its class hands out, with no new arena, and the live blocks are as before. |
| PoolAllocator.PoolAlloc.UserWriteLarge | library/innigkeit-rs/src/alloc_impl.rs:99-110 | Any write inside a large allocation keeps the allocator valid. |
| PoolAllocator.PoolAlloc.UserWrite | library/innigkeit-rs/src/alloc_impl.rs:83-111 | Any write inside a live block keeps the allocator valid. |
| Ustar.ParseOctalOf | src/innigkeit/filesystem/initfs.zig:51-63 | Parsing an octal field undoes printing it. |
| Ustar.BlankChecksum | tools/initfs_builder/main.zig:79-81 | With the checksum field blank the sum of the block is the header checksum. |
| Ustar.PutIdentity | tools/initfs_builder/main.zig:46-65 | Name, mode, owner, size and time fields are as the format says and the rest stays zero. |
| Ustar.PutChecksum | tools/initfs_builder/main.zig:79-86 | The stored checksum is the checksum of the finished header. |
| Ustar.WriteHeader | tools/initfs_builder/main.zig:46-86 | Every one of the 512 bytes of the header is determined by name and size. |
| Ustar.Writer.WriteEntry | tools/initfs_builder/main.zig:45-94 | The archive grows by header, data and padding of the file, to a block boundary. |
| Ustar.WriteArchive | tools/initfs_builder/main.zig:22-43 | The archive is the files in order and two zero blocks. |
| Initfs.IsZeroBlock | src/innigkeit/filesystem/initfs.zig:46-49 | True exactly for an all-zero block. |
| Initfs.ParseOctalField | src/innigkeit/filesystem/initfs.zig:51-63 | The loop with its early exits and saturation computes the field's value. |
| Initfs.FindFileIn | src/innigkeit/filesystem/initfs.zig:18-44 | On every byte sequence, archive or not, the cursor loop returns what the scan from the front defines, and reads nothing outside. |
| Initfs.FoundIsEntry | src/innigkeit/filesystem/initfs.zig:17-43 | On any bytes at all, what is found is the data of an entry of that name, at a block boundary and inside the bytes. |
| Initfs.StopsAtEnd | src/innigkeit/filesystem/initfs.zig:17-43 | After files comes an end: one zero block and then anything, less than a block, or a header whose size is too large; exactly the files before it are found. |
| Initfs.ReadHeader | src/innigkeit/filesystem/initfs.zig:26-30 | From a written header the kernel reads the stored name and the size. |
| Initfs.FindInArchive | src/innigkeit/filesystem/initfs.zig:18-44 | On every archive the build tool writes, the kernel finds the first file stored under the name, or nothing. |
| Initfs.StoredIffStorable | tools/initfs_builder/main.zig:48-50 | A name comes back unchanged if and only if it has at most 99 bytes and no NUL. |
| Initfs.PackAndFind | tools/initfs_builder/main.zig:22-43 | Build tool to kernel: a file with a storable name not used before is found with its data; one with any other name is not. |
| Initfs.ChecksumReadsBack | tools/initfs_builder/main.zig:79-86 | A written header passes the checksum and magic tests of a checking reader. |
| Initfs.ReadAllArchive | tools/initfs_builder/main.zig:45-94 | A checking reader reads every written archive back as the files under their stored names. |
| Initfs.RoundTrip | tools/initfs_builder/main.zig:45-94 | It reads back the very list that was packed if and only if every name is storable. |
| IntegerSqrt.GuessAboveRoot | library/innigkeit/graphics.zig:763-764 | The guess from the bit length is not below the root and fits 32 bits. |
| IntegerSqrt.NewtonAbove | library/innigkeit/graphics.zig:765-769 | A Newton step never falls below the root. |
| IntegerSqrt.NewtonStops | library/innigkeit/graphics.zig:766-770 | The step stops decreasing exactly where the value is at most the root. |
| IntegerSqrt.StepInRange | library/innigkeit/graphics.zig:765-768 | No sum of the iteration exceeds 32 bits. |
| IntegerSqrt.MoreThanTwoRounds | library/innigkeit/graphics.zig:760-769 | The comment's two rounds are exceeded for n = 2^30 + 1. |
| IntegerSqrt.TwoRounds | library/innigkeit/graphics.zig:760-769 | The loop takes at most two rounds if and only if the square of the guess, or of one of the two values after it, is at most n. |
| IntegerSqrt.Newton | library/innigkeit/graphics.zig:763-769 | From the guess down to the first value the step does not decrease, never below the root, in as many rounds as the steps take. |
| IntegerSqrt.Isqrt | library/innigkeit/graphics.zig:761-771 | The result r satisfies r*r <= n < (r+1)*(r+1), for every 32-bit n. |
| Canvas.IndexInRange | library/innigkeit/graphics.zig:96-98 | The cell of a pixel on the canvas is inside the buffer and its index arithmetic inside 32 bits. |
| Canvas.IndexInjective | library/innigkeit/graphics.zig:96-98 | Different pixels have different cells. |
| Canvas.PutPixel | library/innigkeit/graphics.zig:96-99 | Exactly the pixel's cell changes, and none for a pixel outside. |
| Canvas.FillRect | library/innigkeit/graphics.zig:115-124 | Exactly the cells of the rectangle's pixels on the canvas change, for every position and size including those that saturate. |
| Canvas.SubFits | library/innigkeit/graphics.zig:187-198 | A sub-canvas is safe wherever its parent is. |
| Canvas.SubPixels | library/innigkeit/graphics.zig:184-198 | The pixels of a sub-canvas are exactly the parent's pixels inside the window. |
| Canvas.FillRectInSub | library/innigkeit/graphics.zig:184-198 | A rectangle filled through a sub-canvas paints exactly the parent's pixels in both window and rectangle. |
| Line.RoundUnique | library/innigkeit/graphics.zig:158-182 | The rounded distance is the one integer whose multiple is nearest, the lower one in a tie. |
| Line.MinorStep | library/innigkeit/graphics.zig:173-180 | The error comparison decides exactly when the rounded distance along the shorter axis goes up. |
| Line.Turn | library/innigkeit/graphics.zig:172-180 | One turn moves the pen and the error from the k-th ideal pixel to the next, on every line. |
| Line.PenAt | library/innigkeit/graphics.zig:167-171 | The pen meets the end point after exactly as many moves as the longer span. |
| Line.OnTheLine | library/innigkeit/graphics.zig:157-158 | Consecutive pixels are neighbours and each is within half a pixel of the ideal line. |
| Line.TurnFits | library/innigkeit/graphics.zig:161-180 | Every value of a turn fits 32 bits on diagonals, on straight lines, and on lines with 3 * longer - 2 * shorter at most 2^31. |
| Line.ShortFits | library/innigkeit/graphics.zig:161-180 | On such lines every value of the whole loop fits. |
| Line.SpanLimit | library/innigkeit/graphics.zig:161-172 | The doubled error fits 32 bits on all lines of spans up to a limit if and only if the limit is at most 715827883. |
| Line.DrawLine | library/innigkeit/graphics.zig:158-182 | On every line: the loop ends without overflow exactly if all its values fit 32 bits, and then exactly the cells of the ideal pixels that are on the canvas have changed; else those of the pixels before the overflow. |
| Printf.Writer.constructor | apps/doom/libc.zig:13-14 | A fresh writer has formatted nothing and changed nothing. |
| Printf.Writer.PutByte | apps/doom/libc.zig:58-61 | The full text grows by the byte; the buffer holds its first `cap` bytes and the rest is untouched. |
| Printf.Writer.PutField | apps/doom/libc.zig:215-225 | A string field is padded to its width on the right side. |
| Printf.CollectDigits | apps/doom/libc.zig:238-262 | The 64-byte buffer holds the digits backwards, zero-extended to the precision, and is not overrun. |
| Printf.Writer.PutReversed | apps/doom/libc.zig:286-291 | The collected digits come out most significant first. |
| Printf.Writer.PutUint | apps/doom/libc.zig:227-297 | An integer is printed as sign, padding and digits for every flag, width and precision. |
| Strtol.StrtolAt | apps/doom/innigkeit_libc.c:150-168 | Blanks, sign, prefix and digit loops compute the value and the end position for every base and string whose value fits. |
| Strtol.ParseDigitsOf | apps/doom/innigkeit_libc.c:155-165 | Parsing digits undoes printing them. |
| Strtol.StrtolUndoesFmtUint | apps/doom/innigkeit_libc.c:150-168 | For every magnitude, sign, base from 2 to 16, width, precision, zero and left flag: parsing the printed text gives the number, and the text has the larger of width and content as length. |
| Strtol.StrtolReads | apps/doom/innigkeit_libc.c:150-168 | A text of blanks, a sign, a base prefix, digits and a rest reads as the number its digits stand for by position in the base given or detected, with its sign, and that rest. |
| Strtol.EveryTextIsNumeral | apps/doom/innigkeit_libc.c:150-168 | Every text is of that form, so this says what the parser does on all of them. |
| Vsnprintf.NumberLoop | apps/doom/libc.zig:94-99 | The digit loop reads the number, or stops exactly if it needs more than 64 bits. |
| Vsnprintf.ReadDirective | apps/doom/libc.zig:78-147 | Flags, width, precision and length modifier are read as the format function defines, stars and overflow included. |
| Vsnprintf.PutConversion | apps/doom/libc.zig:149-210 | One conversion appends its text, or stops exactly where the source would panic. |
| Vsnprintf.FormatV | apps/doom/libc.zig:68-213 | The whole format loop appends the text of the format, taking arguments in order. |
| Vsnprintf.Snprintf | apps/doom/libc.zig:12-18 | The buffer holds the longest prefix of the text that fits, then a NUL, the rest of it untouched, and the result is the length of the whole text; n = 0 returns 0 and writes nothing. |
| Vsnprintf.FormatEscaped | apps/doom/libc.zig:68-77 | Any text with its percent signs doubled is printed as itself. |
| Vsnprintf.LongDecimalText | apps/doom/libc.zig:151-159 | What "%ld" stands for, for every long but the most negative. |
| Vsnprintf.PrintThenParse | apps/doom/innigkeit_libc.c:150-168 | Printing a long and parsing it in base 10 gives it back, for every value the formatter accepts. |
| FormatSyntax.ReadsBack | apps/doom/libc.zig:78-147 | Every directive as written - any flags, width, precision, stars and length modifier, in any surroundings, cut off or not - is read back as the directive it stands for, or stops exactly where a number does not fit. |
| FormatSyntax.ConvertIff | apps/doom/libc.zig:149-210 | A conversion has a text exactly if the value can be negated, its precision is at most 64, and a character is not negative. |
| FormatSyntax.FormatRendered | apps/doom/libc.zig:68-213 | A list of plain bytes and directives has a text exactly if every piece fits its arguments and none is cut off, and then it is their texts one after the other. |
| FormatSyntax.HasTextIff | apps/doom/libc.zig:68-213 | Every format is such a list, so this says exactly which formats have a text and what it is. |
| Conversions.NumberField | apps/doom/libc.zig:227-297 | Every number field is spaces, a sign, digits of the base and case that stand for the value, and spaces, as many as width, precision and flags ask for. |
| Conversions.IntegerText | apps/doom/libc.zig:151-191 | Each of d, i, u, o, x, X prints the argument, read with the width and signedness of the conversion, as such a field in base 10, 8 or 16 and the case of its letter. |
| Conversions.IntegerReadsBack | apps/doom/libc.zig:151-191 | The number parser reads the argument back from it. |
| Conversions.PointerText | apps/doom/libc.zig:192-197 | A pointer is 0x and its hexadecimal digits, whatever width and flags. |
| Conversions.StringText | apps/doom/libc.zig:198-203 | A string, or (null), cut at the precision, stands in its field of spaces, at the end unless left-adjusted. |
| Conversions.CharacterText | apps/doom/libc.zig:204-207 | A character is the low byte of an int that is not negative, in its field. |
| Conversions.OtherText | apps/doom/libc.zig:208-210 | A percent sign prints itself, any other conversion nothing. |
| Conversions.TakesIff | apps/doom/libc.zig:149-210 | A conversion takes an argument exactly if what it prints can depend on one. |
| Conversions.PrintedReadsBack | apps/doom/libc.zig:68-213 | A format that is one integer directive, written in any way, prints a text from which the parser reads the argument back. |
| BatchQueue.AppendCompleted | library/innigkeit/stdio.zig:337-343 | Appending a slot behind the tail extends the completed list by that slot. |
| BatchQueue.ProgressStep | library/innigkeit/stdio.zig:333-345 | One turn performs the next operation of the list, and all other slots keep their meaning. |
| BatchQueue.Batch.AwaitAsync | library/innigkeit/stdio.zig:327-346 | Every submitted operation is performed exactly once, in submission order; the completed list is the old one followed by them, with their results; other slots are untouched. |
| UsableRanges.PageAlign | src/innigkeit/address/RangeMixin.zig:18-34 | The smallest page-aligned range around a range. |
| UsableRanges.Iterator.Next | src/boot/UsableRangeIterator.zig:9-37 | Each call yields the first of the ranges still to come, or nothing when there are none. |
| UsableRanges.Iterator.Collect | src/boot/UsableRangeIterator.zig:9-37 | Draining the iterator yields exactly those ranges. |
| UsableRanges.SamePages | src/boot/UsableRangeIterator.zig:9-37 | The ranges expand to the pages of the usable entries, in order: none lost, added, repeated or moved. |
| UsableRanges.FullyMerged | src/boot/UsableRangeIterator.zig:26-36 | All ranges are page-aligned and none starts where the one before it ends. |
| UsableRanges.UsableMemory | src/boot/MemoryMap.zig:35-40 | A whole run over a memory map yields merged, aligned ranges with exactly the pages and total size of its usable entries. |
| Tokenizer.TokensTile | apps/shell/commands.zig:385-447 | On every input the tokens tile the collected bytes, which fit the buffer, and there are no more than the array holds. |
| ShellSyntax.ItemsRead | apps/shell/commands.zig:357-451 | A line written as blanks, ampersands and words of plain, quoted and variable pieces is read as the arguments these stand for, with the limits of argument array and buffer. |
| ShellSyntax.LineReads | apps/shell/commands.zig:357-451 | Every line is of that form, unclosed quotations included, so this says what the tokenizer does on all of them. |
| Tokenizer.EscapedInverts | apps/shell/commands.zig:392-422 | Text in which each single quote is closed, double-quoted and reopened is read back byte by byte. |
| Tokenizer.QuotingRoundTrips | apps/shell/commands.zig:357-451 | For every list of words of any bytes whose non-empty ones fit, tokenizing its quoted form yields exactly these, in the foreground. |
| Tokenizer.AmpersandSeen | apps/shell/commands.zig:373-383 | A trailing ampersand sets the background flag if and only if the non-empty words do not fill the argument array. |
| Tokenizer.ValueIsOneToken | apps/shell/environment.zig:42-52 | A variable's value becomes one token whatever is in it, quoted or not; an empty one leaves none. |
| Tokenizer.FindVariable | apps/shell/environment.zig:15-20 | The value of the first variable of that name; none exactly when there is no such variable. |
| Tokenizer.ExpandAt | apps/shell/environment.zig:44-52 | The name is read to its end and as much of the value copied as fits. |
| Tokenizer.DoubleQuoteLoop | apps/shell/commands.zig:406-422 | The loop inside double quotes collects what the function of the remaining input says. |
| Tokenizer.TokenLoop | apps/shell/commands.zig:385-441 | The token loop does what the token function says, background flag included. |
| Tokenizer.TokenizeInto | apps/shell/commands.zig:362-451 | Arguments, collected bytes and background flag are those of the tokenizer function, and the slices tile the buffer. |
| History.Ring.constructor | apps/shell/completions.zig:25-30 | A new history is empty. |
| History.Ring.Store | apps/shell/completions.zig:32-41 | The list of stored lines grows as `push` says, and the ring shows its last 50. |
| History.Ring.Lookup | apps/shell/completions.zig:43-47 | The n-th newest of the last 50 lines, for every n. |
| History.StoredLines | apps/shell/completions.zig:32-41 | After any run of pushes the stored lines are the pushed non-empty ones, cut at 255 bytes, without those that repeat what was stored of the one before. |
| History.KeptIsCollapse | apps/shell/completions.zig:34-38 | For lines of at most 255 bytes that is collapsing runs of equal lines. |
| History.RepeatedPush | apps/shell/completions.zig:34-38 | A line pushed twice in a row is stored twice if and only if it exceeds 255 bytes. |
| LineEditor.ReturnShowsSaved | apps/shell/LineEditor.zig:129-140 | Whatever commands are given away from position 0, coming back shows the line set aside, cursor at its end. |
| LineEditor.DraftRestored | apps/shell/LineEditor.zig:115-140 | Going up from a draft, through any mixture of commands, and back down restores the draft. |
| LineEditor.EditLaws | apps/shell/LineEditor.zig:78-113 | Typing puts a byte in at the cursor while there is room and rubbing out takes it back; rubbing out is stepping back and deleting; the two kills split the line at the cursor. |
| LineEditor.MotionKeepsLine | apps/shell/LineEditor.zig:187-212 | Moving the cursor never changes the line; Home and End go to its ends. |
| LineEditor.StepsUndo | apps/shell/LineEditor.zig:187-212 | A step left and a step right undo each other. |
| LineEditor.SuggestionTaken | apps/shell/LineEditor.zig:187-212 | A step right at the end takes the suggestion, if there is one. |
| LineEditor.UpShows | apps/shell/LineEditor.zig:115-140 | Going up n times shows the n-th newest line, the oldest one stays, and a step down from there shows the line after it. |
| LineEditor.Editor.constructor | apps/shell/LineEditor.zig:15-31 | A new editor is empty. |
| LineEditor.Editor.InsertByte | apps/shell/LineEditor.zig:78-85 | Inserts before the cursor unless the line is full; the text after it shifts up. |
| LineEditor.Editor.Backspace | apps/shell/LineEditor.zig:87-93 | Removes the byte before the cursor, if any. |
| LineEditor.Editor.Delete | apps/shell/LineEditor.zig:95-100 | Removes the byte after the cursor, if any. |
| LineEditor.Editor.CutToEnd | apps/shell/LineEditor.zig:102-104 | Removes everything from the cursor on. |
| LineEditor.Editor.CutToStart | apps/shell/LineEditor.zig:106-113 | Removes everything before the cursor. |
| LineEditor.Editor.Move | apps/shell/LineEditor.zig:187-212 | Cursor keys change nothing but the cursor. |
| LineEditor.Editor.RightArrow | apps/shell/LineEditor.zig:193-204 | Moves right, or at the end of the line takes the suggestion over. |
| LineEditor.Editor.HistoryUp | apps/shell/LineEditor.zig:115-127 | Shows the next older line, setting the draft aside when leaving it. |
| LineEditor.Editor.HistoryDown | apps/shell/LineEditor.zig:129-140 | Shows the next newer line, or the draft again. |

## Left out

- Weak memory orderings: atomic operations are sequentially consistent steps, so acquire and release annotations are not examined.
- In-place form of the locks and of the thread record: their words are values in a state, not fields of objects.
- Fairness and timing: the results say what can still happen and what never happens, not that a scheduler lets it happen.
- Failure of `spawn` itself, which destroys the record before any other thread has seen it, and a second `join` or `detach` on a handle.
- FutexMutex: the kernel side of the futex (hash buckets, wait queues) is taken as the contract in its user library: compare and sleep in one step, wake one or all.
- BuddyAllocator.BuddyAllocator.Release: after a free that was not detected and breaks the lists, what later calls do is not modelled.
- The spin locks of both allocators: each operation is one step.
- PoolAllocator.PoolAlloc.Refill: the answer of the kernel's mmap is a parameter, a page-aligned region apart from all others or a failure.
- CompressPool.Pool.Store: the answer of the heap allocator is a parameter, and a slot owns its bytes as a value.
- Lz4.Compress: the length of the input is below 2^32, as for pages; positions beyond do not fit the hash table.
- Strtol.StrtolAt: the value fits a `long`; signed overflow is undefined in the source.
- Vsnprintf.FormatV: a directive cut off by the end of the format has no text, where the source reads past the NUL.
- Line.DrawLine: which longer lines fit is stated by the values of the loop, not in closed form.
- UsableRanges.PageAlign: addresses are unbounded.
- IntegerSqrt.Isqrt: the largest number of iterations is not stated.
- History.Ring.Store: the count of lines ever stored does not wrap around at 64 bits.
- The rest of the shell (redrawing, key decoding, tab completion, finding a suggestion, running commands, setting variables) and of the graphics library (circles, triangles, text, blitting, trigonometry).
- The scheduler, capability table, virtual memory maps, interrupts, drivers, ext4 and network code, and the window manager.
