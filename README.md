# Best-fit block allocator, modelled in Dafny

This project models a small user-space memory allocator written in C: `os_malloc`,
`os_free`, `os_calloc` and `os_realloc` (osmem.c) on top of a list engine
(myhelpers.c).

**The list.** It is a singly linked, sentinel-headed list of block headers. Each
header holds a payload size, a status (free, allocated, mapped) and a `next` link.

**Small requests** are served from the heap, which the program break grows:
- a best-fit search runs after merging runs of adjacent free blocks;
- the chosen block is split when the remainder is worth keeping;
- with no fit, a free tail block is grown;
- otherwise a new block is appended;
- the very first heap request preallocates 128 KiB.

**Large requests** get their own anonymous mapping. `os_realloc` shrinks in place,
absorbs free successors or grows the tail block. When none of those works, it
relocates: allocate, copy, free.

## How the model is built

- **`Blocks`** holds the constants of myhelpers.h and the block descriptor.
  - A `Block` is an address, a payload size and a status.
  - It also holds the pure list surgery (`Split`, `Merge`, `SplitAt`, `MergeAt`), the best-fit choice (`IsBestFit`, `BestFit`), lookup (`Find`) and size alignment (`AlignUp`).
  - `META_SIZE` (`sizeof(struct block_meta)`) is a constant whose only known facts are that it is positive and smaller than the preallocation.
- **`Layout`** states the list invariant: the heap blocks, in list order, tile `[heapStart, brk)` with no gap or overlap. This is `Tiles`.
  - Mapped blocks lie below the heap, each newer one below the older ones (`MapsOk`).
  - From these it proves that list neighbours are address neighbours and that no two blocks overlap.
- **`Coalescing`** gives the two merging walks as functions on the list, with what each preserves:
  - `Coalesce` is the pass of `mem_list_coalesce_free`;
  - `Absorb` is the greedy absorption loop of `realloc_logic`.
- **`MyHelpers.Allocator`** is a class.
  - Its fields are the global list (`blocks: seq<Block>`, the entries after the sentinel, in list order), the program break `brk`, the `pre` flag, the global `method` (`mode`) and the low end of the mapping area.
  - Every function of myhelpers.c is a method that updates those fields in place.
  - Each method is proved against the list functions above.
  - A pointer to a block is its position in the list.
- **`OsMem`** holds the four entry points as methods over an `Allocator`.
  - Each one is specified by a ghost function of the state before the call: `MallocStep`, `FreeStep`, `ReallocStep` and its parts.
  - Lemmas then state what those functions promise:
    - a pointer to a large-enough in-use block is returned;
    - in-use blocks are kept;
    - os_free removes exactly the freed block from the in-use blocks;
    - the realloc copy stays within the new block.
  - Payload bytes are a ghost map `bytes`, written by `ZeroFill` (memset) and `CopyBytes` (memcpy).
- **`Reuse`** proves, on those functions, what callers rely on across calls:
  - os_malloc never returns a pointer that is still in use;
  - freeing a fresh heap allocation and repeating the request gives the same pointer and state;
  - a repeated os_realloc to the same heap size is a no-op;
  - a mapped block always moves on os_realloc.

Two behaviours of os_realloc are worth knowing, and the model follows the code in
both:
- When `realloc_logic` gives up, `os_realloc` copies `block->size` bytes (osmem.c:106).
  By then that is the payload after the free successors were absorbed, which is
  less than the request. It is not min(old size, new size), as on the other
  relocation path (osmem.c:90-93). `ReallocLogicStep` records that size as the copy
  length, and `ReallocLogicKeeps` proves that it equals the absorbed size and is below
  the request.
- A mapped block, or a request above the threshold, is relocated on every call
  (osmem.c:87-96), even when the size does not change. `ReallocMoves` proves that the
  pointer then changes. A heap-sized request repeated on the pointer it returned
  changes nothing (`ReallocTwice`).

## Model

| member | source | states |
|---|---|---|
| Blocks.Split | myhelpers.c:33-49 | A payload below size + META_SIZE + 8 is only marked allocated and keeps its size. Otherwise the block keeps exactly `size` bytes, and a free remainder of old − size − META_SIZE bytes is linked right after it, starting where the block now ends. Bytes are conserved. |
| Blocks.Merge | myhelpers.c:108-114 | The block keeps its address and status, grows by the successor's payload plus one header, and ends where the successor ended. |
| Blocks.SplitAt | myhelpers.c:33-49 | The list with block i replaced by the one or two blocks block_split leaves in its place; the blocks before and after are kept in order. |
| Blocks.MergeAt | myhelpers.c:108-114 | The list with blocks i and i + 1 replaced by their merge, the successor unlinked; the blocks before and after are kept in order. |
| Blocks.AlignUp | osmem.c:12-13 | The result is aligned (result + META_SIZE is a multiple of ALLOC_BASE) and lies in [n, n + ALLOC_BASE). |
| Blocks.AlignUpLeast | osmem.c:12-13 | No size between n and AlignUp(n) is aligned, so AlignUp is the least aligned size at or above n. |
| Blocks.Find | myhelpers.c:179-191 | Returns the first position whose payload address is `addr`; None exactly when no block has that payload address. |
| Blocks.BestFit | myhelpers.c:140-146 | When some free block fits, the choice is a free block of at least the request, no fitting block is smaller, every fitting block before it is strictly larger (strict `<` on a tie), and it is the only such position. |
| Blocks.BestFitExists | myhelpers.c:140-146 | Whenever a free block fits, a best fit in the above sense exists. |
| Blocks.FootprintIsSizesPlusHeaders | myhelpers.c:166-177 | The bytes a list occupies are its payload-size sum (what mem_list_size adds) plus one header per block. |
| Blocks.SumSizesZero | osmem.c:15-16 | With positive payloads, the payload total is zero exactly when the list is empty, so the first-use test resets only an empty list. |
| Blocks.SplitAtPositive | myhelpers.c:33-49 | Splitting a block for a positive request keeps every payload positive. |
| Blocks.LiveSplit | myhelpers.c:33-49 | Of the blocks a split leaves, only the first (the one handed out) is in use. |
| Blocks.SplitAtLive | myhelpers.c:148-149 | Splitting the chosen free block inserts its allocated first part among the in-use blocks, between those before and those after it. |
| Blocks.ReplaceLastLive | myhelpers.c:151-161 | Turning the free tail into an in-use block appends exactly that block to the in-use blocks. |
| Layout.NeighboursAdjacent | myhelpers.c:125-127 | Under the tiling invariant, two list-adjacent heap blocks are address-adjacent, and their merge covers exactly both. |
| Layout.NoOverlap | myhelpers.c:51-93 | Any two distinct blocks of the list occupy disjoint byte ranges, header included (heap blocks tile the heap; mappings lie apart below it). |
| Layout.PayloadsDistinct | myhelpers.c:179-191 | Distinct blocks have distinct payload addresses, so the block find_node returns is the only one with that pointer. |
| Layout.SplitTiles | myhelpers.c:33-49 | Splitting a heap block keeps the heap tiled. |
| Layout.MergeTiles | myhelpers.c:108-114 | Merging two list-adjacent heap blocks keeps the heap tiled. |
| Layout.StatusTiles | osmem.c:47-48 | Flipping a heap block between free and allocated keeps the heap tiled. |
| Layout.AppendMappedBlock | myhelpers.c:84-92 | A new mapping just below the mapping area, appended to the list, leaves the heap tiling alone and keeps the mappings ordered and apart. |
| Layout.MapsOkRemove | myhelpers.c:193-208 | Unlinking one mapping keeps the remaining mappings ordered and apart. |
| Coalescing.Coalesce | myhelpers.c:116-130 | The walk of mem_list_coalesce_free: whenever a block and its successor are both free, they merge and the walk re-examines the merged block; otherwise it moves on. |
| Coalescing.Absorb | myhelpers.c:219-220 | The loop of realloc_logic: block i merges with its successor while that successor exists and is free and block i is still smaller than the request. The result is never longer than the input and still holds block i. |
| Coalescing.CoalesceHead | myhelpers.c:116-130 | The first block after the pass starts where the first block did and has its status. |
| Coalescing.CoalesceSeparated | myhelpers.c:116-130 | After the pass no two list-adjacent blocks are both free. |
| Coalescing.CoalesceFootprint | myhelpers.c:116-130 | The pass conserves the sum of size + META_SIZE over the list. |
| Coalescing.CoalesceLive | myhelpers.c:116-130 | Non-free blocks keep their sizes, addresses and relative order. |
| Coalescing.CoalesceMapped | myhelpers.c:116-130 | Mapped blocks in particular are untouched. |
| Coalescing.CoalesceTiles | myhelpers.c:116-130 | The pass keeps the heap tiled. |
| Coalescing.CoalescePositive | myhelpers.c:116-130 | The pass keeps payloads positive. |
| Coalescing.CoalesceSeparatedFixed | myhelpers.c:116-130 | A list with no two adjacent free blocks is left unchanged. |
| Coalescing.CoalescePair | myhelpers.c:157 | Two adjacent free blocks coalesce into their merge. |
| Coalescing.CoalesceIdempotent | myhelpers.c:116-130 | Running the pass a second time changes nothing. |
| Coalescing.CoalesceSuffixTiles | myhelpers.c:157 | Coalescing from a later block on, as the tail-growth path does, keeps the heap tiled and the mappings as they were. |
| Coalescing.AbsorbShape | myhelpers.c:219-220 | Absorption keeps the blocks before the block. The block keeps its address and status. Only free blocks right after it are absorbed, and the rest follows unchanged. |
| Coalescing.AbsorbGrowth | myhelpers.c:219-220 | The block grows by exactly the size + META_SIZE of every block it absorbs. |
| Coalescing.AbsorbStops | myhelpers.c:219-220 | Absorption stops while still too small only at the tail or before a block that is not free. It stops as soon as the block is large enough, and leaves a large-enough block alone. |
| Coalescing.AbsorbFootprint | myhelpers.c:219-220 | Absorption conserves the bytes of the list. |
| Coalescing.AbsorbTiles | myhelpers.c:219-220 | Absorption keeps the heap tiled and the mappings untouched. |
| Coalescing.MergeAtFootprint | myhelpers.c:108-114 | One block_coalesce conserves the bytes of the list. |
| MyHelpers.AppendChain | myhelpers.c:95-106 | Each of the three results of mem_list_alloc, linked at the tail, keeps the heap tiled up to the new break, keeps the mappings ordered, and keeps payloads positive. |
| MyHelpers.Allocator.constructor | myhelpers.c:5-7 | The initial state: empty list, nothing preallocated, malloc mode, an empty heap at the initial break, and the invariant established. |
| MyHelpers.Allocator.Threshold | myhelpers.c:53-58 | The threshold is MMAP_THRESHOLD in malloc mode and the page size in calloc mode. |
| MyHelpers.Allocator.MemListInit | myhelpers.c:9-14 | Afterwards no block follows the sentinel. |
| MyHelpers.Allocator.Prealloc | myhelpers.c:16-31 | The break grows by PREALLOC_SIZE, and the new free block of PREALLOC_SIZE − META_SIZE bytes covers exactly the new space. |
| MyHelpers.Allocator.BlockSplit | myhelpers.c:33-49 | The list becomes SplitAt(old list, i, size), and the invariant is kept. |
| MyHelpers.Allocator.MemListAlloc | myhelpers.c:51-93 | At or under the threshold, the first request takes the preallocation split to the request, and every later request grows the break by size + META_SIZE for one allocated block. Over the threshold, the request gets a mapped block of exactly `size` just below the mapping area. `pre` is set by any heap request. |
| MyHelpers.Allocator.MemListAdd | myhelpers.c:95-106 | The whole new list is the old list with mem_list_alloc's result appended; no existing block changes. The returned position is the old length. The invariant and positive payloads are kept. |
| MyHelpers.Allocator.LinkAtTail | myhelpers.c:99-104 | The walk reaches the tail; the list becomes old list + chain, and the new block sits at the old length. |
| MyHelpers.Allocator.BlockCoalesce | myhelpers.c:108-114 | The list becomes MergeAt(old list, i); every other block and the order are untouched. |
| MyHelpers.Allocator.CoalesceFree | myhelpers.c:116-130 | The blocks before `start` are unchanged, and the rest becomes Coalesce of the old rest. The invariant is kept. |
| MyHelpers.Allocator.CoalesceAll | myhelpers.c:134 | The list becomes Coalesce(old list), and payload sizes stay positive. |
| MyHelpers.Allocator.ScanBestFit | myhelpers.c:136-146 | The result is the best fit (smallest fitting free block, earliest on a tie), or None exactly when no free block fits. |
| MyHelpers.Allocator.FindBestFit | myhelpers.c:132-164 | Let c be the coalesced list. With a fit, the best fit of c is split to the request. With no fit and a free tail, the tail becomes allocated at exactly the request, and the break grows by the shortfall. Otherwise None and c is left, with the break unchanged. None is returned exactly when no block fits and the tail is not free (the predicate `FitOutcome`). |
| MyHelpers.FitOutcome | myhelpers.c:140-163 | The three outcomes of find_best_fit on a coalesced list, as a relation between result, new list and new break. A position means the best fit was split to the request. The last position means the free tail was grown by the shortfall to exactly the request. None means no block fits and the tail is not free, with list and break unchanged. |
| MyHelpers.Allocator.PickBestFit | myhelpers.c:136-163 | The same three outcomes, on a list that is already coalesced. |
| MyHelpers.Allocator.ExpandTail | myhelpers.c:151-161 | The tail stays the tail and becomes allocated with size exactly the request. The break grows by request − tail size. |
| MyHelpers.Allocator.GrowFreeTail | myhelpers.c:154-157 | A new heap block of the shortfall is appended, marked free and merged into the free tail. |
| MyHelpers.Allocator.SetStatus | myhelpers.c:156 | Only the status of block i changes, the invariant is kept, and payload sizes stay positive. |
| MyHelpers.Allocator.MemListSize | myhelpers.c:166-177 | The total is the sum of the payload sizes of the blocks after the sentinel. |
| MyHelpers.Allocator.FindNode | myhelpers.c:179-191 | The result equals `Find(blocks, ptr)`: the first block whose payload address is `ptr`, or None exactly when there is none. |
| MyHelpers.Allocator.DeleteNode | myhelpers.c:193-208 | Exactly the first block with that header address is unlinked, and the rest keeps its order. An absent address changes nothing. The invariant is kept. |
| MyHelpers.Allocator.ReallocLogic | myhelpers.c:210-235 | A request within the payload returns the block split to it. Otherwise the block absorbs free successors while still too small: if that suffices it is split; at the tail it grows to exactly the request; else None, with the absorption kept. |
| MyHelpers.Allocator.AbsorbFree | myhelpers.c:219-220 | The list becomes Absorb(old list, i, size), and the block stays allocated. |
| MyHelpers.Allocator.ExtendTail | myhelpers.c:227-232 | The tail block becomes allocated at exactly the request. The break grows by request − old size. |
| OsMem.ZeroFill | osmem.c:61 | Every byte of [dst, dst + len) is zero, and every other byte is as before. |
| OsMem.CopyBytes | osmem.c:91-93 | Each byte of [dst, dst + len) holds the corresponding source byte, and every other byte is as before. |
| OsMem.MallocStep | osmem.c:7-36 | os_malloc on a state value. Zero gives NULL and no change. An aligned request whose size plus header exceeds the threshold goes to MapStep. Any other goes to HeapStep on the coalesced list. |
| OsMem.MapStep | myhelpers.c:84-92 | A new mapped block of exactly n bytes, placed just below the mapping area and appended to the list; its payload pointer is returned. |
| OsMem.HeapStep | myhelpers.c:132-164 | In order: the best fit split to the request, with its payload returned. Else the free tail set to exactly the request, with the break grown by the shortfall. Else a new allocated block at the break (break + n + META_SIZE). Else, the first time, the 128 KiB preallocation split to the request. |
| OsMem.FreeStep | osmem.c:38-49 | os_free on the list: the block find_node finds is unlinked when mapped, otherwise marked free in place; an untracked pointer changes nothing. |
| OsMem.Relocate | osmem.c:88-96 | os_malloc of the new size under MMAP_THRESHOLD, then os_free of the old pointer on the resulting list; the new pointer is returned with the given copy length. |
| OsMem.ReallocStep | osmem.c:68-86 | os_realloc on a state value: NULL is os_malloc; size 0 is os_free returning NULL; an untracked or free pointer gives NULL and no change; otherwise ResizeStep on the aligned size. |
| OsMem.ResizeStep | osmem.c:87-98 | A mapped block, or a size whose total exceeds MMAP_THRESHOLD, relocates copying min(new size, old payload); an allocated block goes to ReallocLogicStep. |
| OsMem.ReallocLogicStep | osmem.c:100-111 | realloc_logic with its fallback (myhelpers.c:210-235): a shrink splits in place; a grow absorbs free successors, then splits if that sufficed, or grows the tail block by the shortfall at the end of the list; otherwise the absorbed block relocates, copying its absorbed payload. |
| OsMem.AlignSize | osmem.c:12-13 | The loop ends at the least aligned size at or above the input, below input + ALLOC_BASE. |
| OsMem.OsMalloc | osmem.c:7-36 | Zero returns NULL with the state unchanged. Otherwise, the aligned request goes over the threshold to a new mapping, or to the heap path (best fit, then mem_list_add); the result is the block's address + META_SIZE. |
| OsMem.InitIfEmpty | osmem.c:15-16 | The first-use reset changes nothing on a list of positive payloads. |
| OsMem.MapMalloc | osmem.c:31-35 | Above the threshold the search is skipped, and a mapping of the aligned size is appended. |
| OsMem.HeapMalloc | osmem.c:28-35 | Within the threshold, find_best_fit is tried first, and mem_list_add runs only when it finds nothing. |
| OsMem.ReuseOutcome | osmem.c:28-29 | When find_best_fit returns a block, os_malloc returns that block's payload, as the heap service prescribes. |
| OsMem.NewHeapBlock | osmem.c:31-32 | With no fit and no free tail, a new heap block is appended and its payload is returned. |
| OsMem.OsFree | osmem.c:38-49 | NULL is a no-op. A mapped block is unlinked; any other block is marked free, keeping its size and position. |
| OsMem.UnmapBlock | osmem.c:45-46 | Exactly the mapped block is unlinked. |
| OsMem.OsCalloc | osmem.c:51-66 | A zero count or size returns NULL with nothing changed. Otherwise it is os_malloc under the page-size threshold, the first nmemb*size payload bytes are zero, and the mode is back to malloc. |
| OsMem.OsRealloc | osmem.c:68-115 | NULL behaves as os_malloc. Size 0 frees and returns NULL. An untracked or free pointer returns NULL with nothing changed. Otherwise the resize step runs, and the bytes are copied as it prescribes. |
| OsMem.ResizeBlock | osmem.c:87-112 | A mapped block, or a request over MMAP_THRESHOLD, relocates, copying min(old payload, new size). An allocated block goes through realloc_logic. |
| OsMem.ReallocBlock | osmem.c:98-111 | realloc_logic's block is returned in place with no copy. On NULL the block relocates, copying its current payload. |
| OsMem.ReallocInPlace | osmem.c:100 | Either realloc_logic keeps the block, which is the whole outcome, or the list is left with the free successors absorbed, ready to relocate. |
| OsMem.MoveBlock | osmem.c:88-96 | os_malloc of the new size, memcpy of `len` bytes, then os_free of the old pointer. |
| OsMem.MallocKeepsTracked | osmem.c:104-107 | A block in use before os_malloc is still tracked afterwards, so the os_free of the relocation finds it. |
| OsMem.MallocServes | osmem.c:7-36 | A non-zero request returns the payload pointer of an in-use block with at least the aligned size. |
| OsMem.HeapServes | osmem.c:28-35 | Each heap outcome (best fit, grown tail, new block, preallocation) returns an in-use block with at least the request. |
| OsMem.MallocLive | osmem.c:7-36 | os_malloc keeps every in-use block and adds exactly one. |
| OsMem.HeapLive | osmem.c:28-32 | The same, for each heap outcome. |
| OsMem.FreeLive | osmem.c:38-49 | os_free of an in-use block removes exactly that block from the in-use blocks; freeing a free block changes nothing. |
| OsMem.UnlinkLive | osmem.c:45-46 | Unlinking a mapped block removes exactly it from the in-use blocks. |
| OsMem.MarkFreeLive | osmem.c:47-48 | Marking an allocated block free removes exactly it from the in-use blocks. |
| OsMem.ReallocLogicKeeps | myhelpers.c:210-235 | When realloc_logic keeps the block, the block stays at its place with its address and allocated, with at least the request; the caller gets its own pointer back, with no copy and the blocks before it untouched. Otherwise the copy length is the absorbed payload, below the request. |
| OsMem.ResizeCopyFits | osmem.c:87-108 | The bytes a relocation copies never exceed the new size. |
| Reuse.MallocFresh | osmem.c:7-36 | os_malloc never returns the payload pointer of a block that is allocated or mapped: a heap request takes a free block or a new one past the break, and a mapping lies below every existing block. |
| Reuse.HeapFound | myhelpers.c:132-164 | The heap service returns the payload of the block it placed; find_node finds that block there, allocated, with a payload of at least the request and below request + META_SIZE + 8. |
| Reuse.FreeKeepsFind | osmem.c:38-49 | os_free of one pointer leaves find_node's answer for any other pointer on the same block. |
| Reuse.MallocFreeMalloc | osmem.c:7-49 | For a heap-sized request, os_malloc, then os_free of the pointer it returned, then the same os_malloc gives the same pointer and leaves the list, break and preallocation flag exactly as the first call did. |
| Reuse.ReallocFound | osmem.c:68-112 | os_realloc of an in-use block to a heap size returns a pointer whose block find_node finds, allocated, with a payload of at least the aligned size and below it + META_SIZE + 8. |
| Reuse.ReallocTwice | osmem.c:68-112 | os_realloc to a heap size, repeated on the pointer it returned with the same size, returns that pointer again and leaves the state unchanged (block_split at myhelpers.c:214-216 leaves a snug block alone). |
| Reuse.ReallocMoves | osmem.c:87-96 | For a mapped block, or a request whose total exceeds MMAP_THRESHOLD, os_realloc returns a non-NULL pointer different from the old one, even when the size is unchanged. |

## Left out

- **System calls.** sbrk and mmap are not called. The program break is the field `brk`, which grows by exactly the bytes requested. A new mapping is placed just below the lowest existing one (`mapLow`), so mappings never overlap each other or the heap. munmap is the removal of the block from the list. Every call is taken to succeed, and the fatal `DIE` exit is not modelled.
- **Page size.** sysconf(_SC_PAGE_SIZE) is the constructor parameter `pageSize`, taken to be positive and at most PREALLOC_SIZE.
- **helpers.h** is not part of this model. `META_SIZE` is an opaque positive constant below PREALLOC_SIZE, and the statuses are a datatype with no head status. The sentinel is implicit: `blocks` lists the entries after it.
- **Integer width.** size_t arithmetic is on unbounded naturals. The only exception is the overflow of `nmemb * size`, which is excluded by a precondition (next item).
- **Header and payload bytes.** The bytes of the headers are not modelled. Payload bytes are a ghost map, touched only by memset and memcpy.
- **Source defects.** These are excluded by preconditions instead of being modelled as undefined behaviour:
  - OsFree: requires a NULL pointer or a tracked one (`Tracked`), since osmem.c:43-45 dereferences a failed lookup.
  - OsCalloc: requires `nmemb * size <= SIZE_MAX`, since osmem.c:59 would wrap.
  - FindBestFit: requires `TailGrowthFits` of the coalesced list, since the subtraction at myhelpers.c:154 underflows when the free tail is within one header of the request. The entry points carry this as `MallocFits`.
  - ReallocLogic: requires `ReallocGrowthFits`, for the same reason at myhelpers.c:228. OsRealloc carries it as `ReallocFits`.
  - OsMalloc: requires a mode other than realloc mode, since myhelpers.c:53-58 and osmem.c:18-23 leave `threshold` uninitialised for it.
- OsRealloc: requires the mode to be malloc mode on entry, which holds between calls because os_calloc always restores it.
- **Lazy initialisation.** The list is taken to have positive payloads (`Positive`, kept by every entry point). Under that, the first-use reset of osmem.c:15-16 only ever resets an empty list. A list whose payloads all sum to zero without being empty is not modelled.
- **Mapped-area reuse.** Freed mappings are never reused by later mappings. That is a simplification of where mmap places memory, and it does not touch the list logic.
- **Thread safety.** There is none in the source and none in the model.
