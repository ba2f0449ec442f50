# xv6 buffer cache and per-CPU page allocator, in Dafny

This project models two resource managers of an xv6 (RISC-V) kernel and
proves properties of the models.

- **Buffer cache** (`kernel/bio.c`). A fixed pool of `NBUF` disk-block
  buffers is spread over 13 hash buckets keyed by `blockno % 13`. `bget`
  scans the block's bucket. On a miss it re-checks that bucket under the
  global lock. It then scans every bucket for the unreferenced buffer with
  the oldest release stamp, unlinks it, pushes it at the head of the block's
  bucket and relabels it. `bread` calls `bget` and then fetches the block if
  the buffer is not valid. `bwrite`, `brelse`, `bpin` and `bunpin` act on a
  buffer the caller already holds.
- **Page allocator** (`kernel/kalloc.c`). Each CPU has its own free list of
  4096-byte pages. `kfree` checks the address and pushes the page on the
  calling CPU's list. `kalloc` pops the local list. When that list is empty,
  it takes the head of the first non-empty list of another CPU, in CPU
  order. `freerange` and `kinit` seed the lists.

Both are modelled as state transitions over immutable datatypes. Most
operations are pure functions. `freerange` and `kinit` are methods with a
loop, returning a new state. Every call is one atomic step. The calling CPU and the clock
(`ticks`) are parameters. A buffer's sleep lock is a `locked` flag, read as
"held by the caller". C `uint` counters are 32-bit words with explicit
wrap-around (`Inc32`, `Dec32`). A kernel panic is a result constructor
(`Panic`, `Halt`, `ReadPanic`).

Files:

- `prelude.dfy`: module `Prelude`. Option, the 32-bit word, and
  flatten/remove/reverse helpers on sequences with their multiset lemmas.
- `bio.dfy`: module `BufferCache`. State, invariant and operations.
- `bio_proofs.dfy`: module `BufferCacheProofs`. Invariant preservation,
  hit and miss effects, victim choice, when `bget` panics, and uniqueness
  of cached blocks.
- `kalloc.dfy`: module `PageAllocator`. State, `kfree`, `kalloc`, and the
  `freerange` and `kinit` loops.
- `kalloc_proofs.dfy`: module `PageAllocatorProofs`. Conservation, kalloc's
  choice of list, invariants, round trip, and no page handed out twice.

The buffer-cache invariant `Wf` says two things:

- **Partition.** Every buffer id below `NBUF` occurs exactly once across
  all buckets, and nothing else occurs.
- **Hashing.** Every buffer sits in the bucket of its block number.

The page-allocator invariant `Wf` says that there is one list per CPU, that
the kernel ends at or above `KERNBASE`, and that only addresses `kfree`
accepts are on the lists. The companion predicates are:

- `Junked`: every free page still carries kfree's fill.
- `NoDoubleFree`: no page is on the lists twice.

## Model

| member | source | states |
|---|---|---|
| BufferCache.Hash | kernel/bio.c:26-27 | The bucket index is below NBUCKET. It is the block number for block numbers below NBUCKET, and adding NBUCKET to a block number leaves its bucket unchanged. |
| BufferCache.Binit | kernel/bio.c:37-55 | After binit there are NBUF zeroed, unreferenced buffers. Bucket 0 holds every buffer id exactly once, highest id first, because each buffer is pushed at the head. Every other bucket is empty. |
| BufferCacheProofs.BinitWf | kernel/bio.c:37-55 | The state binit builds satisfies the partition-and-hashing invariant. No block label other than binit's zero label is shared. |
| BufferCacheProofs.OnlyInOwnBucket | kernel/bio.c:27 | Under the invariant, a buffer is in bucket i exactly when i is the hash of its block number. |
| BufferCache.Lookup | kernel/bio.c:71-78 | Returns the position of the first buffer of a bucket list that holds (dev, blockno). It returns None exactly when no buffer of the list holds it. |
| BufferCache.FastPath | kernel/bio.c:68-79 | bget's first scan misses exactly when no buffer of the block's bucket holds the block. A hit returns a buffer of that bucket that holds the block. |
| BufferCache.Victim | kernel/bio.c:98-105 | The eviction scan picks an unreferenced buffer whose stamp is below the bound. Its stamp is strictly smaller than that of every earlier unreferenced buffer and no larger than that of every later one. It returns None exactly when no unreferenced buffer has a stamp below the bound. |
| BufferCache.Bget | kernel/bio.c:60-127 | A buffer bget returns holds (dev, blockno) and has its sleep lock taken. Its reference count is either the old count plus one (a hit) or 1 (an eviction). This is the corrected bget: its eviction scan starts from the bound LEAST_TICKS = U32_MAX + 1, not from the source's `uint least_ticks = -1` (kernel/bio.c:66). See the finding below. |
| BufferCacheProofs.BgetHit | kernel/bio.c:69-96 | When the block's bucket holds the block, bget succeeds. The slow path's re-check would return the same result. bget returns the first holder in the bucket with one more reference and the lock taken, and no bucket or other buffer changes. |
| BufferCacheProofs.BgetEvicts | kernel/bio.c:108-123 | On a miss, the victim is moved to the head of the block's bucket. It is relabelled, marked not valid, given one reference and locked, and keeps its stamp. Every other buffer is unchanged, and every bucket keeps its other members in order. |
| BufferCacheProofs.EvictEffects | kernel/bio.c:108-120 | Unlinking the victim and pushing it on the block's bucket puts it at the head. It changes only the victim's fields and only the victim's position. |
| BufferCacheProofs.BgetEvictsLeastRecent | kernel/bio.c:81-106 | On a miss, the buffer bget evicts was unreferenced. Its release stamp is no larger than that of any unreferenced buffer in any bucket. |
| BufferCacheProofs.EvictWf | kernel/bio.c:108-120 | Moving the victim between buckets and relabelling it keeps the partition-and-hashing invariant. |
| BufferCacheProofs.BgetWf | kernel/bio.c:60-127 | bget keeps the partition-and-hashing invariant. |
| BufferCacheProofs.BgetPanicsIff | kernel/bio.c:108-126 | The corrected bget panics "no buffers" exactly when the block is not in its bucket and no buffer of the pool is unreferenced. |
| BufferCacheProofs.BgetUnique | kernel/bio.c:60-127 | After a successful bget, the returned buffer is the only one holding the block. This holds on a miss always, and on a hit when at most one buffer held the block before. |
| BufferCacheProofs.NoDuplicatesOneHolder | kernel/bio.c:60-127 | While no label other than (0, 0) is shared, any other block has at most one holder. |
| BufferCacheProofs.BgetNoDuplicates | kernel/bio.c:60-127 | bget never makes two buffers share a label other than binit's (0, 0). |
| BufferCache.Bread | kernel/bio.c:130-141 | bread panics exactly when bget does. Otherwise it returns bget's buffer in bget's state, with only that buffer's valid flag set. The buffer holds the block, is valid and is locked. Like Bget, it uses the corrected bound U32_MAX + 1 in place of kernel/bio.c:66. |
| BufferCacheProofs.BreadFetchesIff | kernel/bio.c:135-139 | bread issues a device read exactly when bget missed or the buffer it found was not valid. |
| BufferCache.Bwrite | kernel/bio.c:144-150 | bwrite panics exactly when the caller does not hold the buffer's sleep lock. Otherwise the cache bookkeeping is unchanged. |
| BufferCache.Brelse | kernel/bio.c:155-167 | brelse panics exactly when the lock is not held. Otherwise it drops the lock and one reference (32-bit wrap). It stamps `ticks` only when the count reaches 0. Nothing else changes. |
| BufferCacheProofs.BgetBrelseRoundTrip | kernel/bio.c:155-167 | brelse after a hit on an unlocked buffer restores the state before the hit. The only exception is the release stamp, which becomes `ticks` if the buffer had no references. This holds for every count, including U32_MAX, where the hit wraps the count to 0 and brelse wraps it back. |
| BufferCache.Bpin | kernel/bio.c:169-175 | bpin adds one reference (32-bit wrap) and changes nothing else. |
| BufferCache.Bunpin | kernel/bio.c:177-183 | bunpin drops one reference (32-bit wrap) and changes nothing else. It does not stamp. |
| BufferCacheProofs.PinUnpinInverse | kernel/bio.c:169-183 | bunpin undoes bpin, and bpin undoes bunpin, on every state. |
| BufferCacheProofs.OpsWf | kernel/bio.c:130-183 | bread, brelse, bpin and bunpin keep the partition-and-hashing invariant. Starting from a state where only (0, 0) may be shared, none of the four makes two buffers share any other label. |
| BufferCache.BgetAsWritten | kernel/bio.c:60-127 | bget with the source's starting bound U32_MAX. A buffer it returns holds the block. |
| BufferCacheProofs.BgetAsWrittenStarves | kernel/bio.c:66-125 | On any well-formed state where the block is not in its bucket, some buffer is unreferenced, and every unreferenced buffer was released at tick U32_MAX, bget as written panics "no buffers". The corrected bget succeeds on the same state. |
| BufferCacheProofs.BgetAsWrittenAgrees | kernel/bio.c:66-105 | While no unreferenced buffer carries stamp U32_MAX, bget as written and the corrected bget give the same result. |
| BufferCacheProofs.BgetAsWrittenRelation | kernel/bio.c:66-125 | On every well-formed state, bget as written either returns what the corrected bget returns, or it panics while some buffer is unreferenced and every unreferenced buffer carries stamp U32_MAX. |
| PageAllocator.Kfree | kernel/kalloc.c:55-74 | kfree panics exactly when the address is unaligned, below the kernel's end or at or above PHYSTOP. Otherwise the page becomes the head of the calling CPU's list, and the fill map is the old one with this page set to kfree's fill. Every other list and every other page's fill, including whether it has one, is unchanged. |
| PageAllocator.Steal | kernel/kalloc.c:91-109 | The stealing loop finds the lowest-numbered CPU other than the caller whose list is non-empty. It finds none exactly when all of them are empty. |
| PageAllocator.Kalloc | kernel/kalloc.c:79-119 | kalloc takes the head of the list TakesFrom names: the caller's own list when non-empty, else the lowest other non-empty list. It removes only that page, tags it with kalloc's fill, and returns 0 with nothing changed when every list is empty. |
| PageAllocatorProofs.SourceExists | kernel/kalloc.c:84-111 | Whenever some list is non-empty, kalloc has a list to take from. |
| PageAllocatorProofs.KallocNullIffEmpty | kernel/kalloc.c:78-119 | kalloc returns 0 exactly when every CPU's list is empty. |
| PageAllocatorProofs.KfreeConserves | kernel/kalloc.c:68-73 | The multiset of free pages after kfree is the one before plus the freed page. |
| PageAllocatorProofs.KallocConserves | kernel/kalloc.c:84-111 | The free pages after kalloc plus the returned page are exactly the free pages before. When every list is empty, nothing changes. |
| PageAllocatorProofs.KfreePreserves | kernel/kalloc.c:55-74 | kfree keeps the address invariant and the fill invariant. Given no double free before, no page is twice on the lists afterwards exactly when the freed page was not already free. |
| PageAllocatorProofs.KallocPreserves | kernel/kalloc.c:79-119 | kalloc keeps the address invariant and returns a page kfree accepts, tagged with kalloc's fill. Without double frees, the page is no longer on any list and the fill invariant is kept. |
| PageAllocatorProofs.KfreeKallocRoundTrip | kernel/kalloc.c:68-88 | kalloc on the CPU that just freed a page returns that page and restores every list. |
| PageAllocatorProofs.TwoAllocsDistinct | kernel/kalloc.c:79-119 | Without double frees, two kallocs in a row on any CPUs never return the same page. |
| PageAllocator.PgRoundUp | kernel/kalloc.c:46 | PGROUNDUP returns a multiple of PGSIZE at or above its argument and less than one page above it. |
| PageAllocator.PagesFromSpaced | kernel/kalloc.c:46-48 | freerange's addresses are the rounded start plus k·PGSIZE. Each page ends at or below the range end, and the next one would not. |
| PageAllocator.PagesDistinct | kernel/kalloc.c:46-48 | freerange never frees the same address twice. |
| PageAllocator.RangePagesPassChecks | kernel/kalloc.c:46-61 | When the start is at or above the kernel's end and the end is at or below PHYSTOP, every page freerange hands to kfree passes kfree's checks. |
| PageAllocator.FreeRange | kernel/kalloc.c:42-49 | freerange panics exactly when one of its pages fails kfree's checks. Otherwise its pages sit in reverse order on top of the caller's list with kfree's fill. Every other list and every other page's fill is unchanged, and the filled pages are exactly the old ones plus freerange's pages. |
| PageAllocator.Kinit | kernel/kalloc.c:33-40 | kinit never panics and leaves every page of [end, PHYSTOP) on the booting CPU's list, the last one first, and every other list empty. The fill map is exact: the pages of [end, PHYSTOP) carry kfree's fill and no other page has a fill. When the kernel ends at or above KERNBASE, all three allocator invariants hold. |
| PageAllocator.KinitInvariants | kernel/kalloc.c:33-49 | A state shaped like kinit's result satisfies the address, fill and no-double-free invariants. |

## Left out

- Locking and concurrency. The bucket spinlocks, the global `bcache.lock`,
  the per-CPU `kmem` locks and `push_off`/`pop_off` are not modelled. Each
  call is one atomic step. A caller blocking on a sleep lock held by someone
  else is not modelled; `locked` only records that the caller holds it.
- The race the slow path's re-check guards against. The model runs the
  re-check, but no other CPU can change the state between the two scans.
- In kalloc's stealing loop, the source re-reads `cpuid()` on each
  iteration. The model fixes the calling CPU for the whole call, so
  migration between iterations is not modelled.
- Disk transfers (`virtio_disk_rw`) and buffer data. Only the `valid` flag
  and whether bread issued a read are kept.
- Page contents. `memset` with bytes 1 and 5 becomes the `Fill` tag of the
  page. Both the local path and the stealing path fill with byte 5
  (kernel/kalloc.c:105 and kernel/kalloc.c:116), and both are tagged
  `AllocJunk`.
- `panic("opps")` at kernel/bio.c:110-111. With buckets as sequences of ids,
  the predecessor of the victim is always its list neighbour, so this check
  cannot fail.
- 64-bit address arithmetic. Addresses are unbounded naturals, so the wrap
  of `PGROUNDUP` or `p + PGSIZE` near 2^64 is not modelled. Real addresses
  lie far below 2^64.
- Reading the global `ticks`. It is a parameter of `Brelse`. Stamps are
  32-bit words compared exactly as kernel/bio.c:99 compares them, so the
  source's behaviour after `ticks` wraps is modelled. What is not promised
  is real recency: after a wrap, the smallest stamp need not belong to the
  buffer released longest ago, and BgetEvictsLeastRecent speaks only about
  stamps.
- Constants from headers that are not part of this model. The model uses
  NBUF = 30, NCPU = 8, PGSIZE = 4096, KERNBASE = 0x80000000 and
  PHYSTOP = KERNBASE + 128 MiB, the standard xv6 values. The linker symbol
  `end` is the parameter `kend`.
- Invariant assumption. The allocator's `Wf` assumes the kernel ends at or
  above KERNBASE, as the linker script places it. Page 0 is then never free,
  and kalloc's 0 return is unambiguous.
- kernel/syscall.c and the user programs. They are context, not part of this
  model.
- BufferCacheProofs.BgetUnique: on a hit, it assumes at most one buffer held
  the block before the call. The pool is zero-initialised static storage,
  and binit sets only the stamp, the count and the links, so every buffer
  starts labelled (0, 0). Right after binit, block 0 of device 0 has NBUF
  holders, and a hit on it cannot make the holder unique. The invariant actually kept is `NoDuplicateBlocks`:
  only the (0, 0) label may be shared.
- BufferCache.BgetAsWritten: its contract only says the returned buffer
  holds the block. It is the as-written half of the finding below.
  BgetAsWrittenRelation states its exact relation to the corrected Bget:
  the same result, or a panic that happens only when every unreferenced
  buffer carries stamp U32_MAX.
- PageAllocator.Kfree: freeing a page that is already free is not modelled
  as the source behaves. The source links the page into the list through
  the page itself (kernel/kalloc.c:68-71): kfree overwrites the page's link
  with the freeing CPU's old head. The pages after it on its old list are
  lost, and that list now runs into the freeing CPU's list. When it is the
  same list, this makes a cycle, or a self-loop if the page was the head.
  The model instead pushes a second copy of the address. Its contract describes the source only when
  `pa !in FreePages(m)`.
- PageAllocatorProofs.KfreeConserves: for the same reason, the multiset
  equation describes the source only when `pa !in FreePages(m)`. For a page
  freed twice, the source's lists do not hold a second copy: pages are lost
  and the lists run into each other or into a cycle. KfreePreserves says that NoDoubleFree is kept exactly when
  the page was not already free.

## Findings

| source | as written | input that shows it | evidently intended | confidence | as-written member | corrected member |
|---|---|---|---|---|---|---|
| kernel/bio.c:66 | `uint least_ticks = -1` starts the eviction bound at 0xFFFFFFFF, and line 99 compares with a strict `<`. An unreferenced buffer released at `ticks == 0xFFFFFFFF` can never be chosen. | One buffer was released at tick 0xFFFFFFFF and is unreferenced, and every other buffer is referenced. A bget of a block that is not cached then panics "bget: no buffers", although that buffer is free. The same holds whenever every unreferenced buffer carries stamp 0xFFFFFFFF. | Every unreferenced buffer is a candidate. bget panics only when no buffer is unreferenced. | not executed; needs `ticks` to reach 2^32 - 1 | BufferCacheProofs.BgetAsWrittenStarves | BufferCacheProofs.BgetPanicsIff |
