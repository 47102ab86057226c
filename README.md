# A verified model of an explicit-free-list allocator

`mm.c` is a dynamic storage allocator. It provides `mm_init`, `mm_malloc`, `mm_free` and `mm_realloc` on top of a provider, `mem_sbrk`, that can only grow.

- **Blocks.** The heap is a contiguous run of blocks in address order. A prologue block is at the bottom and an epilogue block at the top.
- **Tags.** Every block carries a header and a footer tag, each holding the block's size and an allocated bit.
- **Free list.** Free blocks are linked into a circular doubly-linked list through their payloads. Its anchor is `flist_first`.
- **Allocation.** Allocation is first fit over the free list. `place` splits off a remainder of at least `MINBLOCKSIZE` bytes.
- **Freeing.** A freed block is coalesced with its free neighbours.
- **Growth.** When nothing fits, the heap grows at the epilogue and the new space is coalesced with a free block before it.

The model is split into modules:

- `Blocks` (`blocks.dfy`): tags, blocks, the layout invariant (contiguous, sentinels, minimum size, alignment, matching tags) and the block-level rewrites that `place`, `coalesce` and `mm_extend_heap` perform: split, merge, mark, grow.
- `FreeList` (`freelist.dfy`): the free list as the sequence of member addresses from the anchor, with `insert_free_block` and `pull_free_block`.
- `Sizes` (`sizes.dfy`): `align`, `mm_malloc`'s size translation and `mm_realloc`'s requested size. It has both the unbounded versions and the `size_t` versions.
- `Model` (`model.dfy`): the heap as a value and every routine of `mm.c` as a function on it. It also holds the heap invariant `Valid`: layout well-formed, free list duplicate-free and listing exactly the free blocks, no two adjacent free blocks. The lemmas state what each routine achieves.
- `HeapCheck` (`heapcheck.dfy`): the local checks `mm_check_heap` is meant to make, proved equivalent to `Valid`. They differ from the C code's checks; see Left out.
- `MM` (`allocator.dfy`): class `Allocator` holds the global state of `mm.c` as fields (`blocks`, `flist`, the provider's break `brk`, `prologue`, `epilogue`). Each routine is a method that updates those fields step by step. Each method is proved to produce exactly the state the function in `Model` describes. The entry points (`MmInit`, `Malloc`, `Free`, `Realloc`) and the parts of `mm_realloc` (`Resize`, `ExpandInPlace`, `Relocate`) also keep the invariant. `Place`, `Coalesce` and `ExtendHeap` run on intermediate states where the invariant need not hold. Their contracts state only the new state, and the invariant for it is proved about the `Model` functions.

Constants: `WORD_SIZE = 8`, `TAGS_SIZE = 16`, `MINBLOCKSIZE = 32`. A block at address `a` has its payload at `a + 8`. Pointers are addresses (`nat`). `NULL` is `None`.

## Model

| member | source | states |
|---|---|---|
| Sizes.Align | mm.c:22-25 | the result is a multiple of WORD_SIZE, at least the argument and less than the argument plus WORD_SIZE |
| Sizes.AlignIsLeast | mm.c:22-25 | align returns the least multiple of WORD_SIZE not below its argument |
| Sizes.AdjustedSize | mm.c:103-107 | the block size for a request leaves at least the requested bytes after the two tags, is at least MINBLOCKSIZE and is word aligned |
| Sizes.AlignAsWritten | mm.c:23-25 | align computed in size_t arithmetic stays below 2^64 and is word aligned |
| Sizes.AlignAsWrittenAgrees | mm.c:23-25 | when the addition does not wrap, the size_t computation equals align |
| Sizes.AdjustedSizeAsWritten | mm.c:103-107 | the size translation computed in size_t arithmetic stays below 2^64 |
| Sizes.AdjustedSizeWraps | mm.c:106 | for the request 2^64-1, align wraps to 0 and the block size becomes 16, whose usable size falls short of the request; for 2^64-16, adding the tags wraps the block size to 0 |
| Sizes.RequestSizeAsWritten | mm.c:174 | mm_realloc's req_size computed in size_t arithmetic stays below 2^64 and is word aligned |
| Sizes.RequestSizeAsWrittenAgrees | mm.c:174 | up to 2^64-24 the size_t req_size equals align(size) + TAGS_SIZE |
| Sizes.RequestSizeWraps | mm.c:174 | for the 23 largest sizes the size_t req_size wraps to at most TAGS_SIZE |
| FreeList.RemoveAt | mm.c:453 | unlinking a member joins its predecessor to its successor and keeps the order of the rest |
| FreeList.RemoveMember | mm.c:457 | unlinking a member of a duplicate-free list removes exactly that member and shortens the list by one |
| FreeList.InsertFresh | mm.c:61 | linking a block not yet on the list keeps it duplicate-free and adds exactly that block |
| Model.InitialHeapValid | mm.c:47-72 | the heap mm_init builds (prologue, one free MINBLOCKSIZE block on the free list, epilogue) satisfies the heap invariant |
| MM.Allocator.MmInit | mm.c:47-72 | on a fresh provider, mm_init returns 0 exactly when there is room for 64 bytes; the state is then the initial heap and valid; otherwise it returns -1 |
| Model.FirstFitSpec | mm.c:422-444 | the first-fit search returns a block of at least asize bytes that is the first member of the free list that large, and returns none exactly when every member is smaller |
| Model.FitIsFree | mm.c:110-112 | on a valid heap the block found is an interior free block of at least asize bytes |
| MM.Allocator.FindFit | mm.c:422-444 | the loop over the free list returns exactly the first-fit block |
| Model.PlaceSpec | mm.c:448-476 | placing asize bytes in free block i fails when the block is too small; otherwise the heap stays valid, no allocated block moves, block i becomes allocated with between asize and asize + MINBLOCKSIZE - 1 bytes, and it leaves the free list |
| Model.PlaceSplits | mm.c:450-463 | with a remainder of at least MINBLOCKSIZE, block i is cut in two, its address leaves the free list and the remainder is linked at the anchor, keeping the heap valid |
| Model.PlaceWhole | mm.c:449-470 | with a smaller remainder, or none, the whole block is allocated in place and unlinked, keeping the heap valid |
| MM.Allocator.Place | mm.c:448-476 | the in-place updates produce exactly the heap and result of place |
| Model.CoalesceSpec | mm.c:369-414 | coalescing a free block yields a valid heap whose result block is the merge of the maximal free run around it, is listed once, and whose absorbed blocks are unlinked; no allocated block moves and nothing new is linked |
| Model.CoalesceNone | mm.c:380-382 | case 1: with both neighbours allocated, the block is returned unchanged and the outcome holds |
| Model.CoalesceNext | mm.c:384-389 | case 2: the block absorbs its free successor, which is unlinked |
| Model.CoalescePrev | mm.c:391-401 | case 3: the free predecessor absorbs the block, which is unlinked, and the result is the predecessor |
| Model.CoalesceBoth | mm.c:403-411 | case 4: the predecessor absorbs the block and the successor, both unlinked |
| MM.Allocator.Coalesce | mm.c:369-414 | the in-place updates produce exactly the coalesced heap and block |
| Model.GrownReady | mm.c:350-354 | turning the old epilogue into a free block of n bytes followed by a new epilogue leaves a heap that coalesce may work on, and moves no allocated block |
| Model.ExtendSpec | mm.c:341-359 | extending fails exactly when the provider lacks n bytes; otherwise the break grows by n and the result is a free block of at least n bytes, merged with a free predecessor, that no payload occupied before |
| MM.Allocator.ExtendHeap | mm.c:341-359 | the in-place updates produce exactly the extended heap, or leave the state unchanged when the provider refuses |
| Model.MallocSpec | mm.c:94-122 | mm_malloc keeps the heap valid and never moves an allocated block; it returns NULL exactly for size 0 or when no block fits and the provider lacks room, leaving the heap unchanged; otherwise it returns a payload not live before with between size and asize - 16 + 31 usable bytes, taken from the first fit when there is one |
| Model.MallocGrown | mm.c:114-121 | when the heap must grow and the provider has room, placing in the new block succeeds and yields a fresh live payload of at least asize - 16 bytes |
| Model.PlacedLive | mm.c:110-112 | placing in a free interior block makes its payload live with at least asize - 16 usable bytes; that payload was not live before |
| Model.MallocKeepsLive | mm.c:94-122 | mm_malloc leaves every live payload live with its size unchanged |
| MM.Allocator.Malloc | mm.c:94-122 | the method's state and result are exactly mm_malloc's, and the invariant is kept |
| Model.FreeSpec | mm.c:135-143 | freeing marks the block free, links it, and coalesces it with its free neighbours |
| Model.FreeEndsLife | mm.c:135-143 | after mm_free the heap is valid, the break is unchanged and the pointer is no longer live |
| Model.FreeKeepsOthers | mm.c:135-143 | mm_free leaves every other live payload live with its size unchanged |
| MM.Allocator.Free | mm.c:135-143 | the in-place updates produce exactly the freed heap and keep the invariant |
| Model.AbsorbNext | mm.c:208-215 | an allocated block absorbing its free successor keeps the heap valid; its payload stays live with the combined size less the tags, and other payloads are untouched |
| Model.ResizeInBlock | mm.c:184-186 | a block that already has room for the request is returned as is |
| Model.ResizeInPlace | mm.c:208-216 | when the free successor makes room, the block absorbs it in place and the same pointer is returned |
| Model.ResizeMoves | mm.c:199-207 | when the block and its free successor together lack room, the request moves to a new block |
| Model.ResizeSpec | mm.c:173-216 | resizing keeps the heap valid and other payloads intact; a returned payload has at least size bytes; a moved result is fresh and ends the old pointer's life; NULL leaves the heap unchanged and only when the block could not grow in place |
| Model.RelocateSpec | mm.c:200-207 | allocating a new block and freeing the old keeps the heap valid and other payloads intact, and returns a fresh payload of at least the requested size or NULL with the heap unchanged |
| Model.ReallocSpec | mm.c:163-219 | mm_realloc with NULL is mm_malloc; with size 0 it frees the block and returns the pointer; otherwise it resizes as stated by ResizeSpec |
| MM.Allocator.Realloc | mm.c:163-219 | the method's state and result are exactly mm_realloc's, and the invariant is kept |
| MM.Allocator.Resize | mm.c:173-216 | the method's state and result are exactly the resize of a live block, and the invariant is kept |
| MM.Allocator.ExpandInPlace | mm.c:208-215 | unlinking the free successor and widening the block produces the merged heap and keeps the invariant |
| MM.Allocator.Relocate | mm.c:200-207 | the method's state and result are exactly the allocate-and-free fallback, and the invariant is kept |
| Model.RelocateAsWrittenAgrees | mm.c:200-205 | the unchecked fallback reaches the write through NULL exactly when the allocation fails, and otherwise agrees with the checked fallback |
| Model.ReallocKeepsTooSmall | mm.c:174-186 | for the 23 largest sizes, every live block passes mm_realloc's room test with the wrapped req_size, although its usable size is below the requested size |
| Model.ReallocWritesThroughNull | mm.c:200-203 | on a full heap with one 32-byte block, mm_realloc(24, 100) must move the block, the allocation fails, and the unchecked fallback writes through NULL |
| HeapCheck.CheckedIsValid | mm.c:228-332 | the intended local checks on every block and every free-list member hold exactly when the heap invariant holds |
| MM.Allocator.CheckHeap | mm.c:228-332 | the walk over the blocks and the free list, making the intended checks, reports success exactly when the state is valid |

## Left out

- The provider `mem_sbrk` is modelled as a break that may grow up to a fixed budget. `memlib` is not part of this model.
- The constants come from `mminline.h`, which is not part of this model: `WORD_SIZE = 8`, `TAGS_SIZE = 16`, `MINBLOCKSIZE = 32`.
- The block accessors of `mminline.h` are folded into `Block` and `Tag` (size, allocated bit, next and previous block).
- Pointer arithmetic is modelled as addresses and indices into the block sequence.
- The circular doubly-linked free list is modelled as the sequence of its members from the anchor. The successor and predecessor links are the neighbours in that sequence.
- The bytes of payloads are not modelled. This means `memmove` in `mm_realloc` is not modelled.
- The diagnostics (`perror`, `fprintf`) and the C `assert`s are not modelled.
- MM.Allocator.MmInit: requires a fresh provider (break 0). It does not model the partial heap that a failed second or third `mem_sbrk` leaves behind.
- MM.Allocator.Relocate: when the allocation fails, it returns NULL with the heap unchanged. The code as written writes through NULL at that point (see Findings).
- Coalesce case 3 re-links the merged block when its next-free link is 0 (mm.c:397-399). While the free list is valid, that block is on the list, so this never happens; the model leaves it out.
- Coalesce case 0 (mm.c:376-378) is modelled: an allocated block is returned unchanged. Only the final error return (mm.c:412-413) is left out, because the four cases cover all neighbour combinations.
- The failure return of `place` (mm.c:471-474) is modelled as `None`.
- HeapCheck.CheckedIsValid: states the invariant the checker is meant to enforce, not the literal loops. The literal loops have these quirks:
  - the forward walk stops before the block preceding the epilogue;
  - the free-list walk skips the anchor;
  - `ret` is overwritten by the free-list search;
  - the minimum-size check sets no error;
  - the pointer-consistency check of free blocks sets no error;
  - the only coalescing test is in the free-list pass (mm.c:320), and it compares `block_next` with `block_next_free`.

  The intended checks add three things the C code does not check: word alignment of block sizes, no two neighbouring free blocks in the walk over the blocks, and no duplicate free-list members. The backward walk re-checks tags that the forward checks already cover.
- `mm_malloc`'s `size_t` wrap-around is modelled only in `Sizes`. The rest of the model uses the corrected `AdjustedSize` (see Findings).
- MM.Allocator.Realloc: computes req_size (mm.c:174) in unbounded arithmetic. For the 23 largest sizes the code as written wraps req_size to at most 16 and returns `ptr` with a block that is far too small. The model instead moves the block, which returns NULL for any provider smaller than 2^64 bytes. `Model.ReallocKeepsTooSmall` states the as-written behaviour (see Findings).
- MM.Allocator.Resize: shares the unbounded req_size of `MM.Allocator.Realloc`, so it leaves out the mm.c:174 wrap-around for the 23 largest sizes.
- Only one thread runs the allocator; concurrency is not modelled.

## Findings

| source | as written | input that shows it | evidently intended | confidence | as-written member | corrected member |
|---|---|---|---|---|---|---|
| mm.c:23-25 | `align` adds `WORD_SIZE - 1` in `size_t` arithmetic, so the rounding wraps for sizes near 2^64 and `mm_malloc` (mm.c:106) asks for a 16-byte block | `mm_malloc(2^64 - 1)`: align gives 0, asize is 16; `mm_malloc(2^64 - 16)`: asize wraps to 0 and `place` is asked for a 0-byte block | rounding never goes below the request, so such a request cannot be satisfied and returns NULL | not executed | Sizes.AdjustedSizeWraps | Sizes.AdjustedSize |
| mm.c:200-203 | the result of `mm_malloc` is not checked; when it is NULL, `memmove` writes to the payload of `payload_to_block(NULL)`, that is to NULL, and the old block is then freed | heap of one allocated 32-byte block at address 16, provider full: `mm_realloc(24, 100)` | return NULL and leave the old block allocated | not executed | Model.ReallocWritesThroughNull | Model.RelocateSpec |
| mm.c:174-185 | `mm_realloc` computes `req_size = align(size) + TAGS_SIZE` in `size_t` arithmetic, which wraps for the 23 largest sizes to at most 16, so the room test at mm.c:184 passes | `mm_realloc(ptr, 2^64 - 1)` on any live block: req_size is 16 and `ptr` is returned with a block of far fewer than 2^64 - 1 bytes | a request that cannot be satisfied returns NULL | not executed | Model.ReallocKeepsTooSmall | Model.ResizeSpec |
