# Verified model of the kernel's memory, process and file core

This project models the parts of the operating system where data structures are edited in place and
the code relies on invariants it never checks at run time, and proves that every operation keeps them:

* the heap allocator (dlmalloc 2.8.6 as the kernel configures it: 32-bit, one contiguous segment that
  grows by `HeapMemory_expand`, no mmap, no footers, no locks);
* physical frames, page directories and page tables edited through the recursive self-map and two
  temporary windows, with a TLB in between, and the heap of a process that grows over them;
* process switching over a round-robin queue on a doubly linked list, with blocking, waking, waiting,
  killing and spawning;
* the word-at-a-time string routines of the C library;
* the tar archive that serves as RAM disk, and the directory tree over it.

`dafny verify dfyconfig.toml` checks everything.

## How it is built

Code that works step by step is a method on a class with the fields the source has; its contract ties
the new state to a specification function or predicate of the old one. What is proved about runs, about
several operations, or about the specification itself is a lemma on values.

**Allocator.** `Words` is memory: 32-bit words by byte address, with the head, foot, link and tree fields
of a chunk where the source has them, so that the last word of a live payload is the `prev_foot` of the
next chunk. `Rings` and `Tries` say what circular lists and bitwise tries mean; `TrieMemory`,
`TrieUnlink`, `Bins` and `BinUnlink` relate them to memory; `BinIndex`, `PortableBits` and `BinMaps` are
the index arithmetic and the bit maps. `Tiling` is the segment cut into chunks, with a chunk's in-use
bits agreeing with its neighbours and no two free chunks side by side; `HeapState` adds the tag words,
top, dv and the bins to the whole invariant, which is what `do_check_malloc_state` would check.
`Coalesce`, `Carving`, `Resizing`, `Segment`, `TreeSearch`, `Alignment`, `Bytes` and `PointerArrays` prove
the single steps, and the class `DougLea.MallocState` holds the operations. `Confluence` shows that the
live blocks determine the whole tiling, so that frees commute, and that the contracts of malloc and free
leave no choice beyond which of several equally good chunks is taken.

The contract of malloc has four parts. `Grants`: exactly one block comes into use, of a size that fits.
`Tight`: no more of a free chunk is taken than has to be. `Placed`: from where, as the comments in the
source promise. `DvAfter`: what becomes of the designated victim. One corner is worth knowing: a request
of 248 bytes, the largest small size, looks for a remainderless fit in one small bin only, since the next
size class lives in a tree; `Preferred` has it.

**Paging.** `Paging` is two-level 32-bit paging (Intel SDM Vol. 3A, section 4.3) over frames that hold
tables, and a TLB as a cache of past walks (section 4.10). `VirtualMemory.VMM` has the operations of the
memory manager. `FrameOwnership` says who owns which frame: free frames, directories, page tables and
mapped pages never overlap, a frame is mapped at one page only, and page tables from 1 GB on are private.
`AccessModes` says which pages a program can touch (section 4.6.1): those of its stack and its heap, and none
of the kernel's.
No operation writes to a frame that is neither directory nor page table, but where it clears a new page
(`Paging.DataKept`). `HeapPages` is the heap of the kernel or of a process over this, `ProcessMemory` a new
process, `StackPMM` the frame stack at boot, and `Boot` starts them one from the other. How many frames an
operation takes is exact everywhere, so when one runs out of them is known beforehand
(`HeapMemory.FrameDemand`); the allocator grows over a count of frames that obeys the same law.

**Processes.** `Scheduling` is the state machine and what holds over all its runs; `Mailbox` adds the messages
of processes that wait for others. `LinkedList` and `ProcessManager` are the objects: each operation is
proved to be the step of the machine, and `PerformAll` any sequence of them to be a run.

**Strings and files.** `LibcString` and `LibcTokens` work on an array of bytes and prove the word loops
against the bytes. `Tar`, `RamDisk` and `VFS` read an archive back, for any list of files.

## Properties that fail, and when

* Not everybody who waits for a dying process is woken: `ProcessManager_notify` moves its index on after it
  has removed an element, so of each run of messages to that process it looks at every second one, from the
  first on. A process is woken exactly when one of its waiting messages stands at an even place of its run,
  so all are woken exactly when each of them has such a message (`Mailbox.WokenIff`, `AllWokenIff`,
  `OnceEachIff`; `SecondWaiterMissed` is an input). All messages are read exactly when no two stand next to
  each other (`AllReadIff`).
* `ProcessManager_notify` writes to a process that is gone when a waiter was woken otherwise, exited, and left
  its message behind (`Mailbox.GoneSender`). It writes to live ones only exactly when every waiting message
  it looks at is from one (`ExitIff`), and over a run all senders exist exactly when no process is destroyed
  with a message of its own in the mailbox (`KnownIff`).
* A frame is pushed twice exactly when two frames of the memory map that are available and outside the kernel
  have one address in 32 bits, as one below 4 GB and one above it can have (`StackPMM.DistinctUnlessClash`;
  `AboveFourGBTwice` is an input), and a frame overlaps the kernel exactly when the load address is not
  aligned and its frame is usable (`WholeFrames`).
* The kernel heap is not the same in every directory: `VirtualMemory_mapPage` makes a page table that is
  missing for the current directory only, and others share the page tables that the kernel had when they were
  made. A page by which the heap grows is seen in another directory exactly when that one shared its page
  table before (`HeapPages.SeenIff`, `SeenEverywhereIff`; `FifthMegabyteUnseen` is an input).
* The node of a file does not have the file's name exactly when the name fills its field of 100 bytes and a
  mode follows (`Tar.NameReadIff`).
* `internal_memalign` ends for alignments up to 2^31 and never for larger ones: the doubling wraps to zero
  (`Alignment.LoopNeverEnds`).
* The overflow assertion of `HeapMemory_expandUser` lets exactly those too large sums pass that wrap
  around 32 bits (`ProcessMemory.AssertionWraps`).
* The underflow assertion there subtracts the negative size: a heap cannot shrink by an amount that added
  to its top wraps around 32 bits, though it would stay above its base, and no other shrinking is stopped
  by it (`ProcessMemory.UnderflowAssertion`).

## Model

| member | source | states |
|---|---|---|
| `BinIndex.TreeIndexBounds` | kernel/src/Memory/DougLea.c:1404-1417 | for every size of 256 bytes or more the tree bin is one of 32, its least size is at most the size, and below the last bin the next bin starts above it |
| `BinIndex.TreeIndexMonotone` | kernel/src/Memory/DougLea.c:1404-1417 | larger sizes never go to lower tree bins |
| `BinIndex.BinRange` | kernel/src/Memory/DougLea.c:1468-1480 | a size lies in the range of its bin, whose width is the power of two that the shift of the bin assumes |
| `BinIndex.SizeBitsScaled` | kernel/src/Memory/DougLea.c:1472-1475 | after the bin's left shift the top bit of a size says in which half of the bin it is |
| `BinIndex.ScaledStep` | kernel/src/Memory/DougLea.c:2216-2262 | one more left shift turns to the next lower bit: the invariant of the descents through a trie |
| `PortableBits.PortableTreeIndexAgrees` | kernel/src/Memory/DougLea.c:1448-1466 | the branch-free tree index equals the one computed with clz, for every size |
| `PortableBits.PortableIndexAgrees` | kernel/src/Memory/DougLea.c:1535-1547 | the branch-free bit-to-index computation returns i for the word with only bit i set, for all 32 bits |
| `BinMaps.FirstMarked` | kernel/src/Memory/DougLea.c:1497-1514 | least_bit followed by ctz gives the lowest marked bin of a map that is not zero |
| `BinMaps.LeftBitsAbove` | kernel/src/Memory/DougLea.c:1500-1501 | left_bits of a single bit masks exactly the bins above it |
| `Rings.LinkRing` | kernel/src/Memory/DougLea.c:2138-2154 | linking a chunk in behind the head of a circular list gives the ring with that chunk added |
| `Rings.UnlinkRing` | kernel/src/Memory/DougLea.c:2157-2179 | joining the neighbours of any node but the first leaves the ring without it |
| `Tries.InsertTrie` | kernel/src/Memory/DougLea.c:2216-2262 | inserting a chunk keeps the bitwise trie: every subtree holds exactly one half of its parent's size range, one tree node per size |
| `Tries.InsertHolds` | kernel/src/Memory/DougLea.c:2216-2262 | insertion adds exactly that chunk with that size and nothing else |
| `Tries.RemoveTrie` | kernel/src/Memory/DougLea.c:2284-2353 | removal by chaining out a duplicate or by the rightmost leaf keeps the trie |
| `Tries.RemoveHolds` | kernel/src/Memory/DougLea.c:2284-2353 | removal takes out exactly that chunk |
| `Tries.LeastSizeIsLeast` | kernel/src/Memory/DougLea.c:3073-3090 | the minimum of a trie lies on the path of leftmost children |
| `BinIndex.HeightBound` | kernel/src/Memory/DougLea.c:1468-1480 | a trie over a range of sizes has at most one node more on a path than the range can be halved before one size is left |
| `BinIndex.DepthBound` | kernel/src/Memory/DougLea.c:1469-1480 | so the depth of the trie in every bin is bounded by the number of bits of its sizes above the lowest three, plus one |
| `TrieUnlink.PruneRep` | kernel/src/Memory/DougLea.c:2284-2306 | the words of a tree after its rightmost leaf was taken out represent the pruned trie |
| `TrieUnlink.AdoptRep` | kernel/src/Memory/DougLea.c:2308-2353 | the words after a node took over the place, parent and children of another represent the trie with the node replaced |
| `DougLea.MallocState.InsertSmallChunk` | kernel/src/Memory/DougLea.c:2138-2154 | the binned chunks gain exactly this one, first in the ring of its size class; the map bit alone tells that a bin is in use, whatever stale links an empty one keeps; only words inside binned chunks and the bins change |
| `DougLea.MallocState.UnlinkSmallChunk` | kernel/src/Memory/DougLea.c:2157-2179 | the binned chunks lose exactly this one, the others in its ring stay in order, and the map bit is cleared when its bin gets empty |
| `DougLea.MallocState.UnlinkFirstSmallChunk` | kernel/src/Memory/DougLea.c:2183-2199 | the same for the first chunk of a marked bin, which has the bin's exact size |
| `DougLea.MallocState.InsertLargeChunk` | kernel/src/Memory/DougLea.c:2216-2262 | the chunk joins the trie of its size bin in memory, with the tree map bit, and nothing else is binned or written outside |
| `DougLea.MallocState.FindInsertion` | kernel/src/Memory/DougLea.c:2228-2260 | the descent ends at an empty slot on the path of the size or at a node of equal size, after at most as many turns as the size has bits in its bin above the lowest three, and one |
| `DougLea.MallocState.UnlinkLargeChunk` | kernel/src/Memory/DougLea.c:2284-2353 | exactly this chunk leaves its trie, by ring removal or by replacement with the rightmost descendant leaf, with root, parent, child links and map bit right again |
| `DougLea.MallocState.FindLeaf` | kernel/src/Memory/DougLea.c:2294-2306 | the loop walks to the rightmost leaf below a node and to the slot that leads there |
| `HeapState.LiveBlocks` | kernel/src/Memory/DougLea.c:1821-1866 | in a heap that satisfies the invariant the blocks in use are 8-aligned, inside the segment, and disjoint from each other and from every free chunk, the word shared with the next chunk included |
| `HeapState.HeadTells` | kernel/src/Memory/DougLea.c:1617-1635 | reading a head word returns the size, in-use and previous-in-use bits that the tiling has |
| `HeapState.RetagKeeps` | kernel/src/Memory/DougLea.c:1617-1635 | stores to head words of chunks and to foot words of free chunks leave every live payload alone |
| `Segment.ExtraLeaves` | kernel/src/Memory/DougLea.c:2863-2875 | the surplus that is released is whole pages and leaves more than pad and at most a page more |
| `Segment.WrapCaught` | kernel/src/Memory/DougLea.c:2605-2650 | adding the padding and rounding up to pages wraps exactly when the tests against wrap-around catch it |
| `Segment.DemandBounds` | kernel/src/Memory/DougLea.c:2650-2690 | what is asked of the system is whole pages and enough for the request with its padding |
| `Segment.DemandIsLeast` | kernel/src/Memory/DougLea.c:2650-2690 | what sys_alloc asks for is the least number of whole pages that hold the request and its padding together with what top has, or without it when the contiguous path was given up or there is no top, and no other size is |
| `Resizing.UserWrites` | kernel/src/Memory/DougLea.c:1854-1866 | whatever a program writes into a live payload, up to and with the shared word behind it, keeps the whole heap invariant |
| `DougLea.MallocState.DisposeChunk` | kernel/src/Memory/DougLea.c:2931-2997 | exactly this chunk stops being in use; the invariant with maximal coalescing holds again; no live payload changes; dv, if any, is covered by the new dv unless it went into top |
| `DougLea.MallocState.ConsolidateForward` | kernel/src/Memory/DougLea.c:2963-2993 | the forward half: joins top, dv or a binned neighbour, or stands alone |
| `DougLea.MallocState.Dlfree` | kernel/src/Memory/DougLea.c:3250-3357 | the invariant is kept, the live set loses exactly the block, all other payloads are unchanged, and the heap is trimmed exactly when the freed chunk joined a top above the threshold, which becomes the default if that released anything and out of reach if it did not |
| `DougLea.MallocState.SysTrim` | kernel/src/Memory/DougLea.c:2863-2926 | releases whole pages so that more than pad and at most pad and a page stay, and does nothing when there is no surplus; books, footprint and break agree |
| `DougLea.MallocState.InternalBulkFree` | kernel/src/Memory/DougLea.c:3665-3705 | every listed block and no other is freed, every array entry is cleared, all other payloads stay, and top is trimmed once at the end if it is above the threshold |
| `Confluence.TilingDetermined` | kernel/src/Memory/DougLea.c:2931-2997 | two coalesced tilings with the same chunks in use are the same tiling, with the same top |
| `Confluence.HeapsAgree` | kernel/src/Memory/DougLea.c:3665-3705 | heaps with the same live blocks have equal chunks, top and free chunks on offer, and only the size of top differs, by what was trimmed |
| `Confluence.FreeDetermined` | kernel/src/Memory/DougLea.c:3250-3357 | the contract of free leaves no choice: chunks, top, dv and binned chunks are determined by the heap before |
| `Confluence.OrderIrrelevant` | kernel/src/Memory/DougLea.c:3250-3357 | blocks freed one by one in any two orders leave the same chunks, top and free chunks, however often each run was trimmed |
| `Confluence.BulkIsFrees` | kernel/src/Memory/DougLea.c:3665-3705 | a bulk free leaves what single frees of the same blocks leave, in whatever order, up to trimming of top |
| `Confluence.FreeRunDistinct` | kernel/src/Memory/DougLea.c:3250-3357 | a run of frees never frees a block twice |
| `DougLea.MallocState.FreeEach` | kernel/src/Memory/DougLea.c:3250-3357 | calls of free one after another are such a run, and keep all other payloads |
| `TreeSearch.SearchEnds` | kernel/src/Memory/DougLea.c:3002-3045 | the walk down the bin of the size, the deepest untaken right subtree and the leftmost walk through it or through the next marked bin together see the least fitting tree chunk of all bins |
| `DougLea.MallocState.BestTreeFit` | kernel/src/Memory/DougLea.c:3002-3055 | the search of tmalloc_large returns the least tree chunk that fits over all bins, or none when none fits, with -nb as the remainder of a non-fit |
| `DougLea.MallocState.FitInTree` | kernel/src/Memory/DougLea.c:3010-3033 | the first loop: exact fit, best fit so far, and the untaken right subtree that can still hold a better one, with the same bound on its turns |
| `DougLea.MallocState.LeftmostWalk` | kernel/src/Memory/DougLea.c:3046-3054 | the walk along leftmost children finds the least remainder of a subtree |
| `DougLea.MallocState.TmallocLarge` | kernel/src/Memory/DougLea.c:3002-3070 | null exactly when no tree chunk fits or dv fits at least as well; otherwise a least fitting tree chunk, split if the rest can be a chunk |
| `DougLea.MallocState.TmallocSmall` | kernel/src/Memory/DougLea.c:3073-3108 | always succeeds with the smallest tree chunk of all; the remainder, if any, is the new dv |
| `DougLea.MallocState.SmallExact` | kernel/src/Memory/DougLea.c:3143-3153 | a chunk of exactly the bin's size is used whole |
| `DougLea.MallocState.SmallNext` | kernel/src/Memory/DougLea.c:3155-3180 | the lowest marked bin above the two exact ones: its chunk leaves a remainder of at least 16 bytes, which becomes dv |
| `DougLea.MallocState.UseDv` | kernel/src/Memory/DougLea.c:3206-3225 | dv is split or used up |
| `DougLea.MallocState.UseTop` | kernel/src/Memory/DougLea.c:3227-3238 | the request is cut from the bottom of top |
| `DougLea.MallocState.Obtain` | kernel/src/Memory/DougLea.c:2605-2720 | new space comes contiguous and is the least number of whole pages with room for the request and the padding, less what top has when the space borders on it; null, halt and giving up the contiguous path happen exactly in the stated cases |
| `DougLea.MallocState.AppendAndUse` | kernel/src/Memory/DougLea.c:2742-2808 | the new space starts the segment or extends top, and then always has room for the request, which is cut from the bottom |
| `DougLea.MallocState.SysAlloc` | kernel/src/Memory/DougLea.c:2605-2811 | the heap grows by the least number of whole pages with room for the request, less what top has, and then top always has room for it; null only for a size that wraps or exceeds half the address space, leaving the heap as it was; it halts exactly when the kernel cannot serve the demand |
| `DougLea.MallocState.Dlmalloc` | kernel/src/Memory/DougLea.c:3112-3246 | the block is fresh, of the size the source promises (whole chunk only if the rest could not be one), taken from the place the strategy names (best binned chunk, dv, top, system, each only if nothing better), with dv updated accordingly; all live payloads are kept; null only for requests near 2 GB; growth only when nothing has room, by the least number of whole pages that hold the padded request with what top has, which alone resets the trim threshold, and a halt only when the kernel cannot serve that |
| `Carving.PlacedMeans` | kernel/src/Memory/DougLea.c:3143-3206 | when dv fits, a small request takes a binned chunk only from its own bin or the next one, a large one only a chunk that is smaller than dv; it takes dv only when there is none of these |
| `Confluence.MallocDetermined` | kernel/src/Memory/DougLea.c:3112-3246 | given the chunk taken, the contract of malloc leaves one possible heap |
| `Carving.RequestSizes` | kernel/src/Memory/DougLea.c:794-805 | every small enough request is padded to the least multiple of 8 with room for it and the overhead, at least 16, without wrapping |
| `DougLea.MallocState.TryReallocChunk` | kernel/src/Memory/DougLea.c:3379-3456 | succeeds in place exactly when the chunk is large enough or can be extended into top, dv or the free chunk behind it, and then takes no more than has to be taken; what remains of dv stays dv; contents and all other payloads are kept; on failure nothing changed |
| `DougLea.MallocState.Dlrealloc` | kernel/src/Memory/DougLea.c:3753-3796 | the first min(old usable size, bytes) bytes are at the result, all other payloads are kept, the old block is gone if it moved, and null leaves the heap as it was; the block stays in place whenever it can be extended there, moves to where malloc would have put it otherwise, null needs a request near 2 GB, and a halt that nothing has room |
| `DougLea.MallocState.CopyBytes` | kernel/include/Memory.h:59-73 | exactly the n bytes arrive, in words of memory, and no other byte changes |
| `Alignment.PowerTest` | kernel/src/Memory/DougLea.c:3458-3475 | n & (n - 1) is zero exactly for powers of two |
| `Alignment.LoopNeverEnds` | kernel/src/Memory/DougLea.c:3463-3467 | for an alignment above 2^31 that is no power of two the doubling loop, which wraps to zero, never reaches it |
| `Alignment.MaskLow` | kernel/src/Memory/DougLea.c:3485-3500 | masking with a power of two less one is the remainder by it |
| `Alignment.MaskHigh` | kernel/src/Memory/DougLea.c:3485-3500 | masking with the negated power of two rounds down to a multiple of it |
| `DougLea.MallocState.RoundAlignment` | kernel/src/Memory/DougLea.c:3458-3475 | the alignment becomes the least power of two that is at least 16 and at least the request |
| `DougLea.MallocState.InternalMemalign` | kernel/src/Memory/DougLea.c:3458-3530 | the block is aligned to that power of two and fits; leader and tail are free again; all live payloads are kept; null leaves the heap as it was; a halt only when nothing has room for the padded request |
| `DougLea.MallocState.AlignChunk` | kernel/src/Memory/DougLea.c:3478-3523 | the block starts at the first aligned place that is the chunk itself or leaves a leader large enough for a chunk, and a tail is given back exactly when it is larger than the smallest chunk |
| `HeapMemory.KernelHeap.Expand` | kernel/src/Memory/HeapMemory.c:60-116 | moves the break by exactly the request and returns the old or the new break, exactly when the address range allows it and the free frames reach for the pages, for the page tables missing in their range and for that of the windows; takes exactly those frames |
| `HeapPages.ExpandKernel` | kernel/src/Memory/HeapMemory.c:60-116 | the same over the frame stack and the page tables: exactly the pages between old and new break gain frames that were free and read as zeros, for the kernel only, or lose theirs, which go back top first, in the current directory and wherever its page tables are shared; all other translations, modes and data stay |
| `DougLea.MallocState.MoreCore` | kernel/include/Memory/DougLea.h:8-30 | the allocator's sbrk is this break; fresh pages read as zero |
| `StackPMM.Init` | kernel/src/Memory/StackPMM.c:49-95 | pushes exactly the usable frames of any memory map in order, with counts and addresses cut to 32 bits, and stops at an assertion exactly when one is misaligned or the stack is full; of a map without holes the stack has a place for each frame that it spans, and what is reserved behind the kernel is four bytes for each |
| `StackPMM.DistinctUnlessClash` | kernel/src/Memory/StackPMM.c:75-93 | for any memory map: no frame is pushed twice, exactly when no two frames of available regions that are neither null nor inside the kernel have one address in 32 bits |
| `StackPMM.UsableDistinct` | kernel/src/Memory/StackPMM.c:75-93 | regions below 4 GB that are apart have no two such frames |
| `StackPMM.UsableKept` | kernel/src/Memory/StackPMM.c:84-86 | no frame that is pushed is null or begins between the load address and the end of the stack |
| `StackPMM.AboveFourGBTwice` | kernel/src/Memory/StackPMM.c:79-88 | such a map, of disjoint regions: a frame below 4 GB and the one 4 GB above it |
| `StackPMM.WholeFrames` | kernel/src/Memory/StackPMM.c:84-86 | no usable frame overlaps the kernel and the stack exactly when the load address is aligned or the frame it lies in is not usable |
| `StackPMM.UsableMembers` | kernel/src/Memory/StackPMM.c:75-88 | from regions below 4 GB only frames that lie whole in an available region are pushed |
| `StackPMM.UsableAll` | kernel/src/Memory/StackPMM.c:79-88 | every other whole frame of an available region is pushed |
| `StackPMM.UsableFits` | kernel/src/Memory/StackPMM.c:64-72 | the stack is large enough for all of them below 4 GB of memory |
| `StackPMM.TotalJoin` | kernel/src/Memory/StackPMM.c:55-64 | the memory counted is that of all regions, available or not, each counted once |
| `StackPMM.TotalSpan` | kernel/src/Memory/StackPMM.c:55-64 | for regions one behind the other it is the span from the first to the last, and the capacity the number of whole frames of it |
| `StackPMM.UsableAscend` | kernel/src/Memory/StackPMM.c:75-93 | of a map in order below 4 GB the frames are pushed by ascending address, so the highest are handed out first |
| `Paging.SelfMapAddresses` | kernel/src/Memory/VirtualMemory.c:286-310 | the addresses the code computes are the self-map pages of the page tables and of the directory |
| `VirtualMemory.VMM.constructor` | kernel/src/Memory/VirtualMemory.c:250-284 | over any stack of distinct aligned frames the first directory, its identity map of the bottom 4 MB but for page 0 and its self-map satisfy every invariant that the operations keep |
| `Boot.StartMemory` | kernel/src/Memory/StackPMM.c:49-95 | the frames that a memory map without such pairs gives are a stack of that kind, aligned by the assertion of freeFrame, so boot ends in a state where the invariants hold |
| `Boot.FirstHeap` | kernel/src/Memory/HeapMemory.c:118-169 | memory map, memory manager, first process, its directory entered and its heap grown: every step finds what it needs, and the heap is there, and reads as zeros, exactly when the usable frames reach for the page directories, page tables, stack and pages |
| `Paging.StorePte` | kernel/src/Memory/VirtualMemory.c:304-312 | one page table entry written changes that page in exactly the directories that share the table |
| `Paging.HangTable` | kernel/src/Memory/VirtualMemory.c:297-306 | a fresh cleared page table hung into a directory changes no translation |
| `Paging.StorePteStale` | kernel/src/Memory/VirtualMemory.c:183-187 | after such a write only the one page can be stale in the TLB, so invalidating it keeps cache and tables in agreement |
| `Paging.KernelTablesStay` | kernel/src/Memory/VirtualMemory.c:423-425 | a page table that destruction frees is never one of the first gigabyte in any directory |
| `Paging.ReleasedIs` | kernel/src/Memory/VirtualMemory.c:423-456 | what destruction pushes is exactly the present page tables of the range and the frames they map |
| `Paging.NothingLost` | kernel/src/Memory/VirtualMemory.c:423-456 | so every mapped page of the range and every page table gives its frame back |
| `Paging.ReleasedInOrder` | kernel/src/Memory/VirtualMemory.c:423-456 | frames are pushed in the order of their pages, and a page table behind the last of its own |
| `VirtualMemory.VMM.AllocateFrame` | kernel/src/Memory/StackPMM.c:33-40 | null exactly on an empty stack, else an aligned frame that is nobody's directory or table and is not free any more |
| `VirtualMemory.VMM.QuickMap` | kernel/src/Memory/VirtualMemory.c:286-315 | maps exactly the page in the directories that share the table, makes a table if need be, which alone can fail, and clears it through the self-map, and keeps the TLB coherent |
| `VirtualMemory.VMM.QuickUnmap` | kernel/src/Memory/VirtualMemory.c:317-337 | unmaps exactly the page |
| `VirtualMemory.VMM.GetPhysicalAddress` | kernel/src/Memory/VirtualMemory.c:519-535 | returns what the hardware walk finds, though it reads through the TLB |
| `VirtualMemory.VMM.MapPage` | kernel/src/Memory/VirtualMemory.c:464-495 | exactly the translation of the page changes, in every directory sharing the table, with the mode asked for in its entry and in that of a page table made for it; all other entries keep theirs; both windows end unmapped; it takes exactly one free frame for each page table that is missing, and fails exactly without them; the TLB never disagrees; no frame but directories and tables is written |
| `AccessModes.HangKeepsModes` | kernel/src/Memory/VirtualMemory.c:464-487 | a page table hung in with a mode and cleared later has that mode and leaves the modes of all mapped pages alone |
| `AccessModes.ModesTwice` | kernel/src/Memory/VirtualMemory.c:464-517 | modes that two steps keep are kept by both together |
| `VirtualMemory.VMM.UnmapPage` | kernel/src/Memory/VirtualMemory.c:497-517 | exactly the translation of the page goes, with the one window used twice and closed again; it fails exactly without a frame for the missing page table of the window; no data frame is written |
| `VirtualMemory.VMM.SwitchPageDir` | kernel/src/Memory/VirtualMemory.c:345-357 | the new directory with an empty TLB keeps the invariant |
| `VirtualMemory.VMM.CreatePageDirectory` | kernel/src/Memory/VirtualMemory.c:397-418 | a new directory from a free frame, empty but for itself, exactly when the frames reach; nobody's translation changes; frame ownership is kept |
| `VirtualMemory.VMM.MapKernel` | kernel/src/Memory/VirtualMemory.c:359-395 | the bottom 4 MB and 32 MB of the kernel heap translate as in the kernel's directory, through the same page tables, for the kernel only, and nothing else changes |
| `ProcessMemory.NewProcess` | kernel/src/Process/ProcessManager.c:61-122 | a new process translates as the kernel in the shared ranges, has a user stack on a frame that was free, and nothing else; the program can touch its stack but no page of the kernel and no page table; no other directory changes; frame ownership is kept; it takes exactly three frames and one for the windows if need be |
| `ProcessMemory.KernelUntouched` | kernel/src/Memory/VirtualMemory.c:359-418 | in the directory of a process no page of the first 4 MB, of the kernel heap or of the self-map can be touched by a program |
| `ProcessMemory.GrownTouchable` | kernel/src/Memory/HeapMemory.c:135-142 | and a heap that grows keeps that, with all its pages for the program |
| `FrameOwnership.KernelRange` | kernel/src/Memory/VirtualMemory.c:371-391 | the entries that are shared are those of the bottom 4 MB and of the first 32 MB of the kernel heap |
| `VirtualMemory.VMM.DestroyPageDirectory` | kernel/src/Memory/VirtualMemory.c:420-462 | pushes exactly the leaves and tables of entries 256 to 1022 and then the directory, so every page from 1 GB on and every page table there gives its frame back; nobody else's translation or data changes; frame ownership holds for the rest |
| `FrameOwnership.OwnedKept` | kernel/src/Memory/VirtualMemory.c:464-517 | growing tables out of free frames and mapping an unused frame, or unmapping, keeps it true that free, table, directory and mapped frames never overlap and are aligned and not null |
| `FrameOwnership.ReleasedOwned` | kernel/src/Memory/VirtualMemory.c:423-456 | no frame is pushed twice by destruction, none that is free, and none another directory needs |
| `FrameOwnership.DestroyKeepsOwned` | kernel/src/Memory/VirtualMemory.c:420-462 | after destruction the stack again holds distinct, aligned frames, not null and disjoint from all frames in use |
| `FrameOwnership.PoppedIsUnused` | kernel/src/Memory/StackPMM.c:33-40 | a frame taken from the stack is mapped nowhere |
| `FrameOwnership.SharedKeepsOwned` | kernel/src/Memory/VirtualMemory.c:371-391 | sharing the kernel's tables keeps frame ownership |
| `VirtualMemory.VMM.MapFresh` | kernel/src/Memory/HeapMemory.c:135-142 | a page gains a frame that was free and reads as zeros, with the mode asked for; all other data is where it was, all other translations and modes as before; it takes exactly the frame and those for missing page tables |
| `HeapPages.SeenEverywhereIff` | kernel/src/Memory/HeapMemory.c:60-116 | a growing kernel heap stays the same in every directory exactly when all of them shared with the current one the page tables of the new pages before |
| `HeapPages.SeenIff` | kernel/src/Memory/VirtualMemory.c:464-495 | the same for one page and one directory: a missing page table is made for the current directory alone |
| `HeapPages.FifthMegabyteUnseen` | kernel/src/Memory/VirtualMemory.c:371-391 | a kernel heap of 4 MB, all in one page table, that grows by a page: no other directory sees the page |
| `HeapPages.CleanStep` | kernel/src/Memory/HeapMemory.c:133-143 | pages zeroed before stay zero while the next one is mapped and zeroed: no frame of the heap serves twice, as page or as page table |
| `HeapPages.FramesDownAt` | kernel/src/Memory/HeapMemory.c:95-110 | the i-th frame that goes back is that of the i-th page below the old break |
| `HeapPages.UserHeapAlone` | kernel/src/Memory/VirtualMemory.c:359-395 | the page tables of a process's heap are its own, so its heap grows and shrinks in no other directory |
| `ProcessMemory.Process.ExpandUser` | kernel/src/Memory/HeapMemory.c:118-169 | exactly the pages between old and new break gain frames that were free and read as zeros and that the program can touch, or lose theirs, which are pushed back top first; stack and heap stay for the program and the kernel's pages out of its reach; no other directory and no other data changes; growing panics exactly outside the heap or when the frames do not reach for the pages, for the page tables missing in their range and for that of the windows, shrinking exactly below the heap or where the assertion is wrong, and a sum that wraps runs over the end of the heap |
| `ProcessMemory.UnderflowAssertion` | kernel/src/Memory/HeapMemory.c:151 | the assertion against underflow subtracts the negative size, so it stops exactly the shrinking whose amount added to the heap top wraps, even when it would stay in the heap |
| `ProcessMemory.AssertionWraps` | kernel/src/Memory/HeapMemory.c:129-130 | the overflow assertion adds in 32 bits and lets a sum pass exactly when it fits or wraps; the first page behind the heap is that of the user stack |
| `LinkedList.List.Add` | kernel/src/Lib/LinkedList.c:72-94 | appends to the sequence of data, links both ways |
| `LinkedList.List.GetNode` | kernel/src/Lib/LinkedList.c:24-32 | finds the first node with the data, or null exactly when there is none |
| `LinkedList.List.RemoveNode` | kernel/src/Lib/LinkedList.c:34-70 | the sequence loses exactly that node, wherever it stands |
| `LinkedList.List.Remove` | kernel/src/Lib/LinkedList.c:96-102 | removes the first occurrence |
| `LinkedList.List.RemoveFromFront` | kernel/src/Lib/LinkedList.c:104-108 | removes and returns the front |
| `ProcessManager.RoundRobin.AddProcess` | kernel/src/Process/RoundRobin.c:32-47 | joins behind, waiting; the first process becomes current |
| `ProcessManager.RoundRobin.RemoveProcess` | kernel/src/Process/RoundRobin.c:49-57 | leaves the queue, terminated |
| `ProcessManager.RoundRobin.GetNextProcess` | kernel/src/Process/RoundRobin.c:59-68 | rotates the queue by one and makes its old front current |
| `ProcessManager.Manager.FindReady` | kernel/src/Process/ProcessManager.c:265-269 | the search loop ends, at the first queue member that is not blocked, after rotating up to it |
| `ProcessManager.Manager.Switch` | kernel/src/Process/ProcessManager.c:227-292 | does to the objects what the abstract switch does, saves the context in the process that leaves and in no other; keeps the invariant that makes the search end; the nodes of the queue are its old ones or fresh |
| `ProcessManager.Manager.BlockCurrentProcess` | kernel/src/Process/ProcessManager.c:354-359 | only the current process becomes blocked |
| `ProcessManager.Manager.WaitPID` | kernel/src/Process/ProcessManager.c:361-374 | posts a message and blocks the sender |
| `ProcessManager.Manager.Notify` | kernel/src/Process/ProcessManager.c:189-207 | wakes exactly whom the abstract step wakes, by walking the mailbox and removing from it as it goes, and keeps exactly the messages it passed over; it writes to a process that is gone exactly when it wakes one that does not exist |
| `ProcessManager.Manager.KillProcess` | kernel/src/Process/ProcessManager.c:294-309 | the current process leaves the queue terminated, as in the abstract step, exactly when nobody whom its messages wake is gone |
| `ProcessManager.Manager.SpawnProcess` | kernel/src/Process/ProcessManager.c:311-352 | the new process joins the queue behind all others |
| `ProcessManager.Manager.PerformAll` | kernel/src/Process/ProcessManager.c:189-374 | any sequence of ticks, wake-ups, blocks, waits, exits and launches on the objects keeps the invariant and is a run of the state machine, so everything proved of runs holds of the pointer list |
| `Mailbox.WokenIff` | kernel/src/Process/ProcessManager.c:189-207 | a process is woken exactly when one of its waiting messages to the dying process has an even number of messages to that process directly before it |
| `Mailbox.UnreadIs` | kernel/src/Process/ProcessManager.c:189-207 | and exactly the messages at odd places, and those to others, stay in the mailbox, in order |
| `Mailbox.AllWokenIff` | kernel/src/Process/ProcessManager.c:189-207 | everybody who waits is woken exactly when each of them has some message at an even place |
| `Mailbox.OnceEachIff` | kernel/src/Process/ProcessManager.c:189-207 | if nobody waits twice, exactly when no waiting message stands at an odd place |
| `Mailbox.AllReadIff` | kernel/src/Process/ProcessManager.c:189-207 | all messages to the dying process are read exactly when no two of them stand next to each other |
| `Mailbox.ApartAllWoken` | kernel/src/Process/ProcessManager.c:189-207 | if no two messages to the dying process stand next to each other, everybody who waits is woken |
| `Mailbox.SecondWaiterMissed` | kernel/src/Process/ProcessManager.c:189-207 | of two adjacent waiters the second is not woken |
| `Mailbox.SameWaiterTwice` | kernel/src/Process/ProcessManager.c:189-207 | two adjacent messages of one process wake it all the same, and the second stays |
| `Mailbox.KnownIff` | kernel/src/Process/ProcessManager.c:170-207 | over every run all senders in the mailbox still exist exactly when no process is destroyed with a message of its own in the mailbox |
| `Mailbox.ExitIff` | kernel/src/Process/ProcessManager.c:189-207 | notify writes only to processes that exist exactly when every waiting message it reads is from one, which holds while all senders exist |
| `Mailbox.GoneSender` | kernel/src/Drivers/Keyboard.c:219-220 | a run from a sound state in which the keyboard wakes a waiter, the waiter exits first, and notify then would write to it |
| `Mailbox.CommandsRun` | kernel/src/Process/ProcessManager.c:189-374 | the operations over queue and mailbox are runs of the scheduler's state machine |
| `Scheduling.SwitchSafe` | kernel/src/Process/ProcessManager.c:227-292 | a switch keeps the queue free of duplicates and terminated members, with the idle process, and only the current process running |
| `Scheduling.SwitchPicks` | kernel/src/Process/ProcessManager.c:265-275 | the chosen process was a waiting member of the queue; nobody else's status changes |
| `Scheduling.SwitchMeans` | kernel/src/Process/ProcessManager.c:239-275 | a blocked process stays blocked and is not chosen, a terminated current process is destroyed, any other current one waits unless it is chosen again, and nobody else changes but the one chosen, which runs |
| `Scheduling.SwitchOrder` | kernel/src/Process/ProcessManager.c:265-275 | everybody in the queue before the chosen process was blocked, and the queue goes on behind it |
| `Scheduling.StepMeans` | kernel/src/Process/ProcessManager.c:189-374 | what each other event does to every process and to the queue: one wakes, one blocks, one ends and leaves the queue with those it wakes waiting, one joins behind |
| `Scheduling.BlockedUntilWoken` | kernel/src/Process/ProcessManager.c:227-374 | over every run a process that is blocked stays so, and from the next switch on does not run, until it is woken or ends |
| `Scheduling.StepSafe` | kernel/src/Process/ProcessManager.c:189-374 | every event keeps that invariant |
| `Scheduling.RunSafe` | kernel/src/Process/ProcessManager.c:189-374 | and so does every run of events |
| `Scheduling.WaitStep` | kernel/src/Process/RoundRobin.c:59-68 | each switch that does not choose a waiting process brings it nearer to the front, and no other event sends it back |
| `Scheduling.BoundedWaiting` | kernel/src/Process/RoundRobin.c:59-68 | over all runs a process that stays waiting is chosen within as many switches as its distance from the front |
| `LibcString.ZeroByte` | user/src/Lib/libc/string.c:97-105 | the bit trick on a word is non-zero exactly when one of its bytes is zero |
| `LibcString.SoughtByte` | user/src/Lib/libc/string.c:127-142 | xor with the repeated byte turns that into a test for any byte |
| `LibcString.Memset` | user/src/Lib/libc/string.c:31-42 | exactly the n bytes are set, for every alignment |
| `LibcString.Memcpy` | user/src/Lib/libc/string.c:44-64 | the destination becomes the source block, nothing else changes, for every pair of alignments |
| `LibcString.Memmove` | user/src/Lib/libc/string.c:66-95 | for every overlap and alignment the destination becomes what the source block was before |
| `LibcString.Strlen` | user/src/Lib/libc/string.c:97-105 | the word loop returns the number of bytes before the first zero |
| `LibcString.Strchrnul` | user/src/Lib/libc/string.c:127-142 | the first occurrence of the character, or else the terminator |
| `LibcTokens.AddMember` | user/src/Lib/libc/string.c:157-159 | setting the bit of one character changes membership of no other |
| `LibcTokens.Strspn` | user/src/Lib/libc/string.c:145-162 | the length of the longest prefix of accepted characters |
| `LibcTokens.Strcspn` | user/src/Lib/libc/string.c:164-177 | the length of the longest prefix without rejected characters |
| `LibcTokens.TokensFlat` | user/src/Lib/libc/string.c:179-189 | the fields of a string, put together, are its non-separators in order; no field is empty or contains a separator |
| `LibcTokens.TokensParted` | user/src/Lib/libc/string.c:179-189 | a separator parts the fields in front of it from those behind it, so that every field goes from one separator to the next |
| `LibcTokens.Tokenizer.Strtok` | user/src/Lib/libc/string.c:179-189 | each call returns the next field as a string of its own, and what is kept stands for exactly the remaining fields; null exactly when there is none |
| `KernelString.StartsWith` | kernel/src/Lib/String.c:19-32 | true exactly for prefixes |
| `KernelString.EndsWith` | kernel/src/Lib/String.c:34-49 | true exactly for suffixes, where a suffix longer than the string is compared with what lies in front of it |
| `KernelString.SuffixOfString` | kernel/src/Lib/String.c:34-49 | what lies in front of the string matters exactly when the suffix is longer and ends in the string |
| `KernelString.Compare` | kernel/src/Lib/String.c:127-132 | zero exactly for equal strings |
| `KernelString.CountChar` | kernel/src/Lib/String.c:134-141 | the loop that moves either pointer or index counts the occurrences |
| `KernelString.StringToInt` | kernel/src/Lib/String.c:70-84 | the number that the leading digits stand for, modulo 2^32 |
| `KernelString.NumberJoin` | kernel/src/Lib/String.c:70-84 | digits in front of others count as many powers of the base more |
| `Tar.OctalRoundTrip` | kernel/src/Lib/String.c:70-84 | octal fields read back as written |
| `Tar.ValidateEntry` | kernel/src/FileSystem/Tar.c:26-38 | accepts exactly headers whose checksum field states the sum of the bytes, the field itself taken as blanks |
| `Tar.SumOfByte` | kernel/src/FileSystem/Tar.c:26-38 | that sum changes with each byte outside the field by as much as the byte |
| `Tar.NextHeader` | kernel/src/FileSystem/Tar.c:40-57 | the header behind the padded data, or null behind the last file: the closing zero block fails the checksum |
| `Tar.GetHeader` | kernel/src/FileSystem/Tar.c:59-82 | the header of the i-th file, null exactly beyond the last |
| `Tar.GetNumberOfFiles` | kernel/src/FileSystem/Tar.c:84-106 | the walk ends and counts every file |
| `Tar.EncodedLaidOut` | kernel/src/FileSystem/Tar.c:26-106 | an archive encoded from any list of files, with names up to the full 100 bytes, is laid out as the walk expects, wherever it is loaded |
| `Tar.NameReadIff` | kernel/src/FileSystem/RamDisk.c:55 | the name that is copied from a header is the file's exactly when it does not fill its field or the mode behind it is empty |
| `RamDisk.Disk.constructor` | kernel/src/FileSystem/RamDisk.c:168-207 | the disk has one node per file of the archive, each with the size and the type of its file |
| `RamDisk.Disk.ParseArchive` | kernel/src/FileSystem/RamDisk.c:42-103 | node i has the name as it is read, the index i, as its size the length of the data of the i-th file, and the type that its kind from 0 to 6 stands for |
| `RamDisk.Disk.Read` | kernel/src/FileSystem/RamDisk.c:105-117 | the buffer gets exactly the requested stretch of the file's data and a zero behind it; read from the start for the size of its node that is the whole file |
| `RamDisk.Disk.ReadDir` | kernel/src/FileSystem/RamDisk.c:120-143 | the n-th child in archive order, null exactly beyond the last |
| `RamDisk.ChildrenAscend` | kernel/src/FileSystem/RamDisk.c:120-143 | children are listed once each and in the order of the archive |
| `RamDisk.Disk.FindDir` | kernel/src/FileSystem/RamDisk.c:146-156 | the first node with the path, null exactly when there is none |
| `VFS.ChildIffParent` | kernel/src/FileSystem/RamDisk.c:131-134 | what slash counting takes for a child of a directory is exactly what has that directory as its parent name |
| `VFS.Descend` | kernel/src/FileSystem/VFS.c:42-67 | whatever lies below a directory is its child or lies below a child directory |
| `VFS.SearchForFile` | kernel/src/FileSystem/VFS.c:42-67 | the recursive search ends and finds the node with the name below the directory, null exactly when there is none |
| `VFS.SearchIsScan` | kernel/src/FileSystem/VFS.c:42-67 | from the root it returns the node that the flat scan returns |
| `VFS.GetParent` | kernel/src/FileSystem/VFS.c:120-151 | the directory whose name is the part up to the last slash, in which the node is listed |
| `VFS.ListedIffParent` | kernel/src/FileSystem/VFS.c:120-160 | a directory lists a node exactly when it is the node's parent |
| `VFS.ParsedTree` | kernel/src/FileSystem/RamDisk.c:42-103 | the nodes of an archive with distinct names, slash-ended directories and stored parents form the tree that the search needs |

## Left out

- mmap chunks, mspaces, locks, footers, the run-time checks and their corruption actions: compiled out by kernel/include/Memory/DougLea.h:8-30.
- prepend_alloc, add_segment, release_unused_segments and the branch of sys_alloc for partial failure: never reached, because HeapMemory_expand is contiguous or halts the kernel.
- user/src/Lib/libc/DougLea.c: the same allocator again over another sbrk.
- dlcalloc, dlmemalign, dlposix_memalign, statistics and mallopt: thin layers over what is modelled.
- DougLea.MallocState.Dlfree: the consolidation that dlfree repeats inline is the one proved for dispose_chunk, followed by the trim that dlfree adds; the counter for release_unused_segments has no effect with one segment.
- DougLea.MallocState.InternalMemalign: alignments above 2^31 are excluded, as the rounding loop does not end for them.
- The bin headers inside malloc_state stand at fixed addresses below the heap, at the offsets from each other that the source gives them; the bit maps are sequences of 32 booleans with the C operators on them.
- HeapMemory.KernelHeap.Expand: for the allocator the frames behind the kernel heap are a count and the page tables a set of indexes; the mapping itself is HeapPages.ExpandKernel.
- Boot.StartMemory: a memory map from which a frame is pushed twice is excluded, since no memory manager can work over it.
- Assertions and Sys_panic are explicit results (Halted, Panic) or, where they guard against misuse, preconditions.
- VirtualMemory.VMM.constructor: with less than two frames the source would write to address 0; that is excluded. The identity map of the bottom 4 MB owns no frames, and entry 0 of its table is whatever the frame held.
- Frames are numbers and table entries hold present bit, mode bit and frame; the write, access and dirty bits are not part of the model. The TLB caches the finished walks of the accesses that the code makes, not speculative ones and not paging-structure entries.
- VirtualMemory.VMM.MapPage: without a free frame for a page table the source trips over an assertion or a null frame; the model returns false and says nothing about the state.
- ProcessMemory.Process.ExpandUser: when a sum has wrapped past the assertion, the model follows the loop to the end of the heap and says nothing of what it then does to the user stack and the self-map.
- ProcessMemory.NewProcess: the registers copied to the new stack, and the page through which they are copied.
- Frames of the page table below 1 GB that a process got for its temporary windows stay behind when it dies; nothing is claimed about them.
- The scheduler's list is made when the scheduler is, not at the first process; Scheduler_isPreemptive is constant; the timer's odd ticks do not switch and are no events.
- Saved registers, task state segment and debug register writes of a switch, file closing of a dying process, and keyboard wake-ups other than as arbitrary status writes.
- ProcessManager.Manager.Notify: once it has written to the memory of a process that is gone, nothing is said of what follows; the same for KillProcess.
- ProcessManager.Manager.SpawnProcess: loading the program is not part of the step; its directory and stack are ProcessMemory.NewProcess, and code pages are mapped by the memory manager's operations.
- strcmp, strcpy, strcat and String_numberToString: byte loops without a faster form. Pointers do not wrap at the top of the address space.
- KernelString.EndsWith: reads in front of the string stay inside a stretch of memory that is long enough.
- Names longer than 100 bytes, which ustar splits over a prefix field that the source does not read.
- VFS_openFile, VFS_closeFile and the working directory: they set a field after the search that is proved.
- VFS.GetParent: names are values, as the source's buffer for the copy is one byte short.
- StackPMM_getInfo, BitmapPMM, DumbHeapManager, FCFS, ArrayList, Bitmap, drivers, console, descriptor tables, system call glue and programs: not selected by the build, I/O, or only easy members.
