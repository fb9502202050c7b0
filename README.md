# smalloc in Dafny

A model of `smalloc.c`, a first-fit allocator over one fixed region. The allocator keeps an
explicit free list that is doubly linked and ordered by address, and it has three operations:

- `my_init` rounds the requested region size up to whole pages. It then writes one free block
  that spans the region.
- `smalloc` rounds the payload up to a multiple of 8 and adds the 24-byte header. It walks the
  free list from `free_head`, counting hops, and stops at the first block that is big enough.
  If at least 32 bytes would remain, it splits that block; otherwise it takes the block whole.
  It splices the list and fills the status record.
- `sfree` marks the block free and links it in after the last free block below it. It then
  merges it into its list predecessor if that block ends where it starts, and afterwards merges
  the survivor with its list successor if the survivor ends where the successor starts.

Pointers are byte offsets from `heap`, so the region starts at offset 0. Every block begins
with its header, `struct header` (`SmallocTypes.Header`). The headers are kept in a map from
block offset to header.

The project has two layers.

- **Value layer.** `HeapModel.Heap` records the globals `heap_size` and `free_head`, the header
  map, and a ghost sequence listing the free blocks in list order.
  - `Allocate.Malloc` and `Release.Free` compute the effect of `smalloc` and `sfree` on that
    value, step for step as the C code does.
  - `HeapModel.Inv` is the invariant they keep:
    - the blocks tile the region, each 8-aligned and 8-sized, at least 32 bytes long;
    - the links name each node's list neighbours;
    - the list is strictly increasing and holds exactly the free blocks;
    - no two free blocks are adjacent in memory.
- **Object layer.** `Smalloc.Allocator` holds the same state in mutable fields.
  - Its constructor and methods do the C code's writes and loops: the hop-counting scan of
    `smalloc` and the `prev`/`current` scan of `sfree`.
  - Each one is proved to leave exactly the state the value layer computes, so every property
    proved there holds for the object.
  - `sfree` is split into helper methods, one per phase: scan, insertion, left merge and right
    merge. A few writes that the C code makes field by field are done as one record update,
    e.g. a merged header's size and `next_free`.

## Model

| member | source | states |
|---|---|---|
| SmallocTypes.HeapSizeFor | smalloc.c:55 | the region size is 4096 for requests up to 4096, and otherwise a multiple of 4096 that is at least the request and less than one page above it |
| SmallocTypes.AlignUp8 | smalloc.c:143 | `(n + 7) & ~7` is the multiple of 8 in [n, n + 8) |
| SmallocTypes.RequiredBlockSize | smalloc.c:143-145 | the block size searched for is 24 plus the payload rounded up to 8: a multiple of 8, at least 32, and less than 8 above header plus payload |
| HeapModel.Initial | smalloc.c:74-82 | my_init's state satisfies the invariant and has the given region size; its only block is a free one at offset 0 spanning the region with NULL links, which is the whole free list and the head |
| HeapModel.LinksSymmetric | smalloc.c:34-40 | a free block's next block links back to it through prev, and its prev block links back through next |
| HeapModel.FreeListExactlyOnce | smalloc.c:34-35 | every free block is on the list exactly once, and no allocated block is on it |
| HeapModel.NextIsNearestFree | smalloc.c:34 | a free block's list successor is the nearest free block above it in memory |
| HeapModel.PrevIsNearestFree | smalloc.c:35 | a free block's list predecessor is the nearest free block below it in memory |
| HeapModel.LinkTargets | smalloc.c:39-40 | each link of a free block that is not NULL names a block |
| HeapModel.RegionIsTiled | smalloc.c:32 | walking from offset 0 by block sizes visits every block once, in address order, and the sizes sum to the region size |
| Allocate.FirstFit | smalloc.c:150-210 | the scan stops at the first list position whose block holds the required size; every earlier block is too small; with no such block, none fits |
| Allocate.FirstFitIsUnique | smalloc.c:150-210 | any position with only misfits before it and a fit at it (or the list's end) is the scan's result |
| Allocate.MallocFails | smalloc.c:134-141 | smalloc returns NULL exactly when the size is not positive or no free block fits; it then changes nothing and reports success 0, offset -1, hops -1 |
| Allocate.MallocIsFirstFit | smalloc.c:143-209 | on success, the block used is the first in list order with at least 24 + roundUp8(size) bytes; hops counts the blocks before it; pointer and payload_offset are its offset plus 24 |
| Allocate.MallocIsLowestFit | smalloc.c:150-209 | under the invariant, the block used is a free block that holds the request, and every free block at a lower address is too small: first fit in list order is first fit by address |
| Allocate.SplitBlockCorrect | smalloc.c:156-181 | the split keeps the invariant; the block becomes allocated at the required size; a free block of the remainder follows it, takes its list place and links, and is linked from both neighbours or becomes the head; nothing else changes |
| Allocate.ConsumeBlockCorrect | smalloc.c:182-197 | taking a block whole keeps the invariant; the block is allocated with its size unchanged and leaves the list; its neighbours link to each other, or the head advances; nothing else changes |
| Allocate.MallocKeepsInv | smalloc.c:100-213 | smalloc keeps the invariant and the region size; a returned payload is 8-aligned and lies in an allocated, unlisted block that holds the request and ends inside the region |
| Release.InsertPos | smalloc.c:257-260 | the sfree scan stops at the first list node at or above the block, after only nodes below it |
| Release.InsertFreeCorrect | smalloc.c:252-279 | inserting the freed block keeps the tiling and the list: the block is free; it sits at the scan's position (the head when first); its links name its list neighbours, which link to it; only pairs that include it can be adjacent free blocks |
| Release.MergeLeftCorrect | smalloc.c:284-297 | if the list predecessor ends at the block, the predecessor absorbs it (sizes added, links taken over, block unlisted); otherwise nothing changes; afterwards only the survivor can be followed by a free block |
| Release.MergeRightCorrect | smalloc.c:299-311 | if the survivor ends at its list successor, it absorbs the successor; otherwise nothing changes; afterwards the invariant holds, with no two free blocks adjacent |
| Release.FreeLeft | smalloc.c:252-297 | after insertion and the left merge, the list and tiling hold; the survivor covers the freed block up to its end; no block appeared; no other allocated block changed |
| Release.Free | smalloc.c:245-311 | sfree(NULL) changes nothing; otherwise sfree keeps the invariant and the region size, adds no block, leaves every other allocated block unchanged, makes no block allocated that was not (and not the freed one), and leaves a free block covering the freed one |
| RoundTrip.FreeUndoesMalloc | smalloc.c:100-312 | from any state that satisfies the invariant, sfree of the pointer smalloc just returned (NULL included) restores exactly the state before smalloc |
| RoundTrip.SplitFreeRestores | smalloc.c:245-311 | freeing a block that smalloc split re-inserts it at its old list position, does not merge it left, and merges the remainder back, giving the state before the split |
| RoundTrip.ConsumeFreeRestores | smalloc.c:245-311 | freeing a block that smalloc took whole re-inserts it at its old list position with its old links, and nothing merges, giving the state before |
| RoundTrip.FreeIs | smalloc.c:245-311 | sfree of an allocated block inserts it where the scan stops, and when no left merge applies its result is that of the right merge alone |
| RoundTrip.MallocFreeRestores | smalloc.c:100-312 | on a fresh region, smalloc of any request that fits returns offset 24 with 0 hops, and sfree of it restores the initial state |
| Smalloc.Allocator.MyInit | smalloc.c:43-91 | the object starts in the Initial state for the rounded region size and satisfies the invariant |
| Smalloc.Allocator.Smalloc | smalloc.c:100-213 | the hop-counting loop and the writes leave exactly Malloc's state, pointer and status, and keep the invariant |
| Smalloc.Allocator.TakeBlock | smalloc.c:154-205 | the fit branch splits or consumes the block and reports success with its payload offset and the hops |
| Smalloc.Allocator.SplitStep | smalloc.c:156-181 | the in-place writes of the split produce SplitBlock's state |
| Smalloc.Allocator.ConsumeStep | smalloc.c:182-197 | the in-place writes of the whole-block case produce ConsumeBlock's state |
| Smalloc.Allocator.Sfree | smalloc.c:221-312 | the scan, insertion and merges leave exactly Free's state and keep the invariant |
| Smalloc.Allocator.Scan | smalloc.c:252-260 | marking the block free and the prev/current loop stop at InsertPos, with prev the list node before it |
| Smalloc.Allocator.InsertStep | smalloc.c:261-279 | the link writes of the insertion produce InsertFree's state |
| Smalloc.Allocator.Coalesce | smalloc.c:284-311 | the left merge and then the right merge complete Free from the inserted state |
| Smalloc.Allocator.LeftStep | smalloc.c:284-297 | the left merge's writes produce MergeLeft's state and return the survivor (block_header) |
| Smalloc.Allocator.RightStep | smalloc.c:299-311 | the right merge's writes produce MergeRight's state |

## Left out

- Obtaining the region is left out: `open("/dev/zero")`, `mmap`, `close` and their -1 returns
  (smalloc.c:60-72, 88). This is operating-system I/O. `MyInit` starts from a region that is
  already mapped, and my_init's return value is not modelled.
- Smalloc.Allocator.MyInit: requires the request to be at most `INT_MAX - 4095`, so that
  `size_of_region + PAGESIZE - 1` cannot overflow. C `int` wrap-around is not modelled.
- Smalloc.Allocator.Smalloc: requires the payload to be at most `INT_MAX - 31`, so that the
  rounding and the added header size cannot overflow.
- Release.Free: requires its pointer to be NULL or the payload of an allocated block, as
  `CanFree` states. sfree does not check for double frees or foreign pointers, and their effect
  is undefined.
- The payload bytes are not modelled. The stale links left in allocated headers are kept but
  never read.
- Where the C code leaves an absorbed block's header bytes inside the merged payload, the model
  drops that block from the header map.
- The addresses themselves are not modelled. `heap` is offset 0, and the pointer comparisons and
  adjacency tests are offset arithmetic.
- `sizeof(struct header)` is taken as 24, the LP64 layout. The exact layout of `Malloc_Status`
  is not part of this model; it is a record of its three fields.
