/** The allocator's heap as a value, and each operation of mm.c as a function
    from heap to heap. The class in allocator.dfy performs the same rewrites in
    place and is specified by these functions; the lemmas here prove what the
    operations promise about them. */
module Model {
  import opened Blocks
  import opened FreeList
  import opened Sizes

  /** Blocks in address order, the free list from its anchor, and the current
      top of the provider's region (mem_heap_hi + 1). */
  datatype Heap = Heap(blocks: seq<Block>, flist: seq<nat>, brk: nat)

  /** Every invariant of the heap except the absence of adjacent free blocks:
      the blocks tile the heap between the sentinels with agreeing tags, and a
      block is on the free list, exactly once, if and only if it is free. */
  ghost predicate WellFormed(h: Heap) {
    BlocksOk(h.blocks, h.brk) && NoDup(h.flist)
    && (forall a :: a in h.flist <==> a in FreeAddrs(h.blocks))
  }

  /** The heap invariant that mm_check_heap checks and every operation keeps. */
  ghost predicate Valid(h: Heap) {
    WellFormed(h) && NoAdjacentFree(h.blocks)
  }

  function Max(x: nat, y: nat): nat { if x > y then x else y }

  /** block_size of the block at address a. */
  function SizeAt(bs: seq<Block>, a: nat): nat
    requires IndexOf(bs, a).Some?
  {
    bs[IndexOf(bs, a).value].Size()
  }

  /** Every free-list member is the address of some block. */
  ghost predicate Resolves(bs: seq<Block>, fl: seq<nat>) {
    forall k :: 0 <= k < |fl| ==> IndexOf(bs, fl[k]).Some?
  }

  /** A payload pointer of an allocated ordinary block. */
  ghost predicate LivePayload(h: Heap, p: nat) {
    p >= WORD_SIZE && IndexOf(h.blocks, p - WORD_SIZE).Some?
    && 0 < IndexOf(h.blocks, p - WORD_SIZE).value < |h.blocks| - 1
    && h.blocks[IndexOf(h.blocks, p - WORD_SIZE).value].Allocated()
  }

  // ---------------------------------------------------------------------------
  // The operations

  /** The heap mm_init builds: prologue, one minimum-size free block, epilogue. */
  function InitialHeap(): Heap {
    Heap([Mk(0, TAGS_SIZE, true), Mk(TAGS_SIZE, MINBLOCKSIZE, false), Mk(TAGS_SIZE + MINBLOCKSIZE, TAGS_SIZE, true)],
         [TAGS_SIZE], 2 * TAGS_SIZE + MINBLOCKSIZE)
  }

  /** find_fit: the first block, in free-list order from the anchor, whose size
      is at least asize; None when the list is empty or nothing is large enough. */
  function FirstFit(bs: seq<Block>, fl: seq<nat>, asize: nat): (r: Option<nat>)
    requires Resolves(bs, fl)
    ensures r.Some? ==> r.value < |bs|
  {
    if fl == [] then None
    else if SizeAt(bs, fl[0]) >= asize then IndexOf(bs, fl[0])
    else
      ResolvesSuffix(bs, fl, 1);
      FirstFit(bs, fl[1..], asize)
  }

  /** A suffix of a resolving list resolves. */
  lemma {:induction false} ResolvesSuffix(bs: seq<Block>, fl: seq<nat>, k: nat)
    requires Resolves(bs, fl) && k <= |fl|
    ensures Resolves(bs, fl[k..])
  {
    forall j | 0 <= j < |fl| - k ensures IndexOf(bs, fl[k..][j]).Some? { assert fl[k..][j] == fl[k + j]; }
  }

  /** find_fit's result is the block of the first list member, from the anchor,
      whose size is at least asize; it is None exactly when no member is large
      enough. */
  lemma {:induction false} FirstFitSpec(bs: seq<Block>, fl: seq<nat>, asize: nat)
    requires Resolves(bs, fl)
    ensures var r := FirstFit(bs, fl, asize);
      (r.Some? ==> bs[r.value].Size() >= asize)
      && (r.None? <==> forall k :: 0 <= k < |fl| ==> SizeAt(bs, fl[k]) < asize)
      && (r.Some? ==> exists k :: 0 <= k < |fl| && IndexOf(bs, fl[k]) == r
                                  && forall j :: 0 <= j < k ==> SizeAt(bs, fl[j]) < asize)
    decreases |fl|
  {
    if fl != [] && SizeAt(bs, fl[0]) < asize {
      ResolvesSuffix(bs, fl, 1);
      FirstFitSpec(bs, fl[1..], asize);
      var r := FirstFit(bs, fl[1..], asize);
      assert FirstFit(bs, fl, asize) == r;
      if r.Some? {
        var k :| 0 <= k < |fl| - 1 && IndexOf(bs, fl[1..][k]) == r
                 && forall j :: 0 <= j < k ==> SizeAt(bs, fl[1..][j]) < asize;
        assert fl[1..][k] == fl[k + 1];
        forall j | 0 <= j < k + 1 ensures SizeAt(bs, fl[j]) < asize {
          if j > 0 { assert fl[j] == fl[1..][j - 1]; }
        }
      } else {
        forall k | 0 <= k < |fl| ensures SizeAt(bs, fl[k]) < asize {
          if k > 0 { assert fl[k] == fl[1..][k - 1]; }
        }
      }
    }
  }

  /** place: allocate the free block i for a request of asize bytes, splitting
      off the remainder as a new free block when it is at least MINBLOCKSIZE.
      None when the block is too small. */
  function Place(h: Heap, i: nat, asize: nat): (Heap, Option<nat>)
    requires i < |h.blocks|
  {
    var b := h.blocks[i];
    if asize < b.Size() then
      if b.Size() - asize < MINBLOCKSIZE then
        (Heap(MarkAt(h.blocks, i, true), Remove(h.flist, b.addr), h.brk), Some(i))
      else
        (Heap(Split(h.blocks, i, asize), Insert(Remove(h.flist, b.addr), b.addr + asize), h.brk), Some(i))
    else if asize == b.Size() then
      (Heap(MarkAt(h.blocks, i, true), Remove(h.flist, b.addr), h.brk), Some(i))
    else
      (h, None)
  }

  /** coalesce: merge the free block i with its free neighbours; the result is
      the index of the merged block. */
  function Coalesce(h: Heap, i: nat): (r: (Heap, nat))
    requires 0 < i < |h.blocks| - 1
    ensures r.1 < |r.0.blocks|
  {
    var bs := h.blocks;
    var prevAlloc, nextAlloc := bs[i - 1].Allocated(), bs[i + 1].Allocated();
    if bs[i].Allocated() then (h, i)
    else if prevAlloc && nextAlloc then (h, i)
    else if prevAlloc && !nextAlloc then
      (Heap(Merge(bs, i), Remove(h.flist, bs[i + 1].addr), h.brk), i)
    else if !prevAlloc && nextAlloc then
      (Heap(Merge(bs, i - 1), Remove(h.flist, bs[i].addr), h.brk), i - 1)
    else
      (Heap(Merge3(bs, i - 1), Remove(Remove(h.flist, bs[i + 1].addr), bs[i].addr), h.brk), i - 1)
  }

  /** The heap right after mm_free has marked the block free and linked it. */
  function Released(h: Heap, i: nat): Heap
    requires i < |h.blocks|
  {
    Heap(MarkAt(h.blocks, i, false), Insert(h.flist, h.blocks[i].addr), h.brk)
  }

  /** mm_free: mark the block free, link it at the anchor, coalesce when a
      neighbour is free. */
  function Free(h: Heap, p: nat): Heap
    requires LivePayload(h, p)
  {
    var i := IndexOf(h.blocks, p - WORD_SIZE).value;
    var h1 := Released(h, i);
    if !h1.blocks[i + 1].Allocated() || !h1.blocks[i - 1].Allocated() then Coalesce(h1, i).0 else h1
  }

  /** The heap right after mm_extend_heap has grown the region by n bytes: the
      old epilogue becomes a free block of n bytes, linked, and a new epilogue follows. */
  function Grown(h: Heap, n: nat): Heap
    requires |h.blocks| >= 1
  {
    Heap(Grow(h.blocks, n), Insert(h.flist, h.blocks[|h.blocks| - 1].addr), h.brk + n)
  }

  /** mm_extend_heap: None when the provider cannot grow the region by n bytes;
      otherwise the grown heap, coalesced, and the index of the new free block. */
  function Extend(h: Heap, budget: nat, n: nat): (r: Option<(Heap, nat)>)
    requires |h.blocks| >= 2
    ensures r.Some? ==> r.value.1 < |r.value.0.blocks|
  {
    if h.brk + n > budget then None
    else
      var e := |h.blocks| - 1;
      var h1 := Grown(h, n);
      if !h1.blocks[e + 1].Allocated() || !h1.blocks[e - 1].Allocated() then Some(Coalesce(h1, e))
      else Some((h1, e))
  }

  /** find_fit on a valid heap. */
  function Fit(h: Heap, asize: nat): Option<nat>
    requires Valid(h)
  {
    ValidResolves(h);
    FirstFit(h.blocks, h.flist, asize)
  }

  /** The block index of a live payload. */
  function BlockOf(h: Heap, p: nat): nat
    requires LivePayload(h, p)
  {
    IndexOf(h.blocks, p - WORD_SIZE).value
  }

  /** The usable size of a live payload: its block's size less the two tags. */
  function PayloadSize(h: Heap, p: nat): int
    requires LivePayload(h, p)
  {
    h.blocks[IndexOf(h.blocks, p - WORD_SIZE).value].Size() - TAGS_SIZE
  }

  /** mm_malloc: NULL for a zero request; otherwise first fit, else grow the
      heap, then place. The result is a payload pointer. */
  function Malloc(h: Heap, budget: nat, size: nat): (Heap, Option<nat>)
    requires Valid(h)
  {
    if size == 0 then (h, None)
    else
      var asize := AdjustedSize(size);
      match Fit(h, asize)
      case Some(i) =>
        var r := Place(h, i, asize);
        (r.0, if r.1.Some? then Some(h.blocks[i].Payload()) else None)
      case None =>
        match Extend(h, budget, Max(asize, MINBLOCKSIZE))
        case None => (h, None)
        case Some(g) =>
          var r := Place(g.0, g.1, asize);
          (r.0, if r.1.Some? then Some(g.0.blocks[g.1].Payload()) else None)
  }

  /** The block size mm_realloc asks for. */
  function RequestSize(size: nat): nat { Align(size) + TAGS_SIZE }

  /** mm_realloc. A NULL pointer allocates; size 0 frees and returns the
      pointer; a block that already has room is kept; a free right neighbour
      that makes room is absorbed in place; otherwise a new block is allocated
      and the old one freed. When that allocation fails, NULL is returned and
      the heap is left as it was. */
  function Realloc(h: Heap, budget: nat, ptr: Option<nat>, size: nat): (Heap, Option<nat>)
    requires Valid(h) && (ptr.Some? ==> LivePayload(h, ptr.value))
  {
    if ptr.None? then Malloc(h, budget, size)
    else if size == 0 then (Free(h, ptr.value), ptr)
    else Resize(h, budget, ptr.value, size)
  }

  /** mm_realloc with a live pointer and a non-zero size. */
  function Resize(h: Heap, budget: nat, p: nat, size: nat): (Heap, Option<nat>)
    requires Valid(h) && LivePayload(h, p)
  {
    var reqSize := RequestSize(size);
    var i := BlockOf(h, p);
    var b := h.blocks[i];
    var originalSize := b.Size() - TAGS_SIZE;
    if originalSize >= reqSize then (h, Some(p))
    else
      var next := h.blocks[i + 1];
      var availableSize := originalSize + (if !next.Allocated() then next.Size() else 0);
      if reqSize > availableSize then Relocate(h, budget, p, reqSize)
      else if !next.Allocated() then
        var fullSize := originalSize + next.Size();
        (Heap(h.blocks[..i] + [Mk(b.addr, fullSize + 16, true)] + h.blocks[i + 2..],
              Remove(h.flist, next.addr), h.brk), Some(p))
      else (h, Some(p))
  }

  /** The fallback of mm_realloc: allocate a new block, then free the old one.
      When the allocation fails, NULL; the heap is left as it was. */
  function Relocate(h: Heap, budget: nat, p: nat, reqSize: nat): (Heap, Option<nat>)
    requires Valid(h) && LivePayload(h, p)
  {
    var m := Malloc(h, budget, reqSize);
    if m.1.None? then (h, None)
    else
      MallocKeepsLive(h, budget, reqSize, p);
      (Free(m.0, p), m.1)
  }

  // ---------------------------------------------------------------------------
  // Basic facts about valid heaps

  /** A block is on the free list exactly when it is free. */
  lemma {:induction false} FreeIsListed(h: Heap, i: nat)
    requires WellFormed(h) && i < |h.blocks|
    ensures h.blocks[i].addr in h.flist <==> !h.blocks[i].Allocated()
  {
    BlocksOkChain(h.blocks, h.brk);
    FreeAddrsAt(h.blocks, i);
  }

  /** Every free-list member is an ordinary free block. */
  lemma {:induction false} ListedIsFree(h: Heap, a: nat)
    requires WellFormed(h) && a in h.flist
    ensures IndexOf(h.blocks, a).Some?
    ensures 0 < IndexOf(h.blocks, a).value < |h.blocks| - 1
    ensures !h.blocks[IndexOf(h.blocks, a).value].Allocated()
  {
    BlocksOkChain(h.blocks, h.brk);
    var i := FreeAddrsWitness(h.blocks, a);
    UniqueIndex(h.blocks, i);
  }

  lemma {:induction false} ValidResolves(h: Heap)
    requires WellFormed(h)
    ensures Resolves(h.blocks, h.flist)
  {
    forall k | 0 <= k < |h.flist| ensures IndexOf(h.blocks, h.flist[k]).Some? {
      ListedIsFree(h, h.flist[k]);
    }
  }

  /** The prologue sits at the bottom of a valid heap and the epilogue right below the break. */
  lemma {:induction false} SentinelsAt(h: Heap)
    requires Valid(h)
    ensures h.blocks[0].addr == 0 && h.blocks[|h.blocks| - 1].addr + TAGS_SIZE == h.brk
  {
  }

  /** mm_init establishes the invariant. */
  lemma {:induction false} InitialHeapValid()
    ensures Valid(InitialHeap())
  {
    var h := InitialHeap();
    var bs := h.blocks;
    FreeAddrsThree(bs[0], bs[1], bs[2]);
    FreeAddrsOne(bs[0]);
    FreeAddrsOne(bs[1]);
    FreeAddrsOne(bs[2]);
    assert FreeAddrs(bs) == {TAGS_SIZE};
  }

  // ---------------------------------------------------------------------------
  // Place

  /** No block starts strictly inside block i, so the split point is not listed. */
  lemma {:induction false} SplitPointUnlisted(bs: seq<Block>, brk: nat, fl: seq<nat>, i: nat, asize: nat)
    requires BlocksOk(bs, brk) && (forall x :: x in fl <==> x in FreeAddrs(bs))
    requires i < |bs| && 0 < asize < bs[i].Size()
    ensures bs[i].addr + asize !in fl
  {
    BlocksOkChain(bs, brk);
    InsideIsNoBlock(bs, i, bs[i].addr + asize);
    if bs[i].addr + asize in FreeAddrs(bs) {
      var j := FreeAddrsWitness(bs, bs[i].addr + asize);
    }
  }

  /** place's free-list update after a split stays in step with the free blocks. */
  lemma {:induction false} SplitRelink(bs: seq<Block>, brk: nat, fl: seq<nat>, i: nat, asize: nat)
    requires BlocksOk(bs, brk) && NoDup(fl) && (forall x :: x in fl <==> x in FreeAddrs(bs))
    requires 0 < i < |bs| - 1 && !bs[i].Allocated() && 0 < asize < bs[i].Size() && bs[i].addr in fl
    ensures var fl2 := Insert(Remove(fl, bs[i].addr), bs[i].addr + asize);
      NoDup(fl2) && fl2[0] == bs[i].addr + asize && bs[i].addr !in fl2
      && forall x :: x in fl2 <==> x in FreeAddrs(Split(bs, i, asize))
  {
    BlocksOkChain(bs, brk);
    SplitFreeAddrs(bs, i, asize);
    SplitPointUnlisted(bs, brk, fl, i, asize);
    RelinkOk(fl, FreeAddrs(bs), FreeAddrs(Split(bs, i, asize)), bs[i].addr, bs[i].addr + asize);
  }

  /** Unlinking a listed block and linking an unlisted one keeps the list
      duplicate-free and in step with the free blocks. */
  lemma {:induction false} RelinkOk(fl: seq<nat>, free: set<nat>, free2: set<nat>, gone: nat, added: nat)
    requires NoDup(fl) && gone in fl && added !in fl
    requires (forall x :: x in fl <==> x in free) && free2 == free - {gone} + {added}
    ensures var fl2 := Insert(Remove(fl, gone), added);
      NoDup(fl2) && fl2[0] == added && gone !in fl2
      && forall x :: x in fl2 <==> x in free2
  {
    RemoveMember(fl, gone);
    InsertFresh(Remove(fl, gone), added);
  }

  /** place with a remainder of at least MINBLOCKSIZE: the block is cut to
      asize and allocated, the remainder after it is a free block linked at the
      anchor, the block itself has left the free list. */
  lemma {:induction false} PlaceSplits(h: Heap, i: nat, asize: nat)
    requires BlocksOk(h.blocks, h.brk) && NoAdjacentFree(h.blocks) && NoDup(h.flist) && (forall x :: x in h.flist <==> x in FreeAddrs(h.blocks)) && i < |h.blocks| && !h.blocks[i].Allocated()
    requires asize >= MINBLOCKSIZE && asize % WORD_SIZE == 0 && h.blocks[i].Size() - asize >= MINBLOCKSIZE
    ensures var b := h.blocks[i];
      var fl2 := Insert(Remove(h.flist, b.addr), b.addr + asize);
      Place(h, i, asize) == (Heap(Split(h.blocks, i, asize), fl2, h.brk), Some(i))
      && Valid(Heap(Split(h.blocks, i, asize), fl2, h.brk)) && KeepsAllocated(h.blocks, Split(h.blocks, i, asize))
      && fl2[0] == b.addr + asize && b.addr !in fl2
  {
    assert 0 < i < |h.blocks| - 1 && h.blocks[i].addr in h.flist by { assert Valid(h); FreeIsListed(h, i); }
    SplitValid(h.blocks, h.flist, h.brk, i, asize);
    PlaceCutsBlock(h, i, asize);
  }

  lemma {:induction false} SplitValid(bs: seq<Block>, fl: seq<nat>, brk: nat, i: nat, asize: nat)
    requires BlocksOk(bs, brk) && NoAdjacentFree(bs) && NoDup(fl) && (forall x :: x in fl <==> x in FreeAddrs(bs))
    requires 0 < i < |bs| - 1 && !bs[i].Allocated() && bs[i].addr in fl
    requires asize >= MINBLOCKSIZE && asize % WORD_SIZE == 0 && bs[i].Size() - asize >= MINBLOCKSIZE
    ensures var fl2 := Insert(Remove(fl, bs[i].addr), bs[i].addr + asize);
      Valid(Heap(Split(bs, i, asize), fl2, brk)) && KeepsAllocated(bs, Split(bs, i, asize))
      && fl2[0] == bs[i].addr + asize && bs[i].addr !in fl2
  {
    SplitOk(bs, brk, i, asize);
    SplitRelink(bs, brk, fl, i, asize);
  }

  lemma {:induction false} PlaceCutsBlock(h: Heap, i: nat, asize: nat)
    requires i < |h.blocks| && asize < h.blocks[i].Size() && h.blocks[i].Size() - asize >= MINBLOCKSIZE
    ensures Place(h, i, asize)
      == (Heap(Split(h.blocks, i, asize), Insert(Remove(h.flist, h.blocks[i].addr), h.blocks[i].addr + asize), h.brk), Some(i))
  {
  }

  /** place with a smaller remainder (or none): the whole block is allocated
      and leaves the free list. */
  lemma {:induction false} PlaceWhole(h: Heap, i: nat, asize: nat)
    requires Valid(h) && i < |h.blocks| && !h.blocks[i].Allocated()
    requires asize <= h.blocks[i].Size() < asize + MINBLOCKSIZE
    ensures var nh := Place(h, i, asize).0;
      var b := h.blocks[i];
      Valid(nh) && nh.brk == h.brk && Place(h, i, asize).1 == Some(i)
      && KeepsAllocated(h.blocks, nh.blocks)
      && nh.blocks == h.blocks[..i] + [Mk(b.addr, b.Size(), true)] + h.blocks[i + 1..]
      && b.addr !in nh.flist
  {
    FreeIsListed(h, i);
    MarkAllocatedOk(h.blocks, h.brk, i);
    BlocksOkChain(h.blocks, h.brk);
    MarkFreeAddrs(h.blocks, i, true);
    RemoveMember(h.flist, h.blocks[i].addr);
  }

  /** place on a free block: a block smaller than asize is refused and nothing
      changes; otherwise the block is allocated with room for asize bytes and
      the invariant is kept (PlaceSplits and PlaceWhole say how). */
  lemma {:induction false} PlaceSpec(h: Heap, i: nat, asize: nat)
    requires Valid(h) && i < |h.blocks| && !h.blocks[i].Allocated()
    requires asize >= MINBLOCKSIZE && asize % WORD_SIZE == 0
    ensures asize > h.blocks[i].Size() ==> Place(h, i, asize) == (h, None)
    ensures asize <= h.blocks[i].Size() ==>
      var nh := Place(h, i, asize).0;
      Valid(nh) && nh.brk == h.brk && Place(h, i, asize).1 == Some(i)
      && KeepsAllocated(h.blocks, nh.blocks)
      && |nh.blocks| >= |h.blocks| && nh.blocks[..i] == h.blocks[..i]
      && nh.blocks[i].addr == h.blocks[i].addr && nh.blocks[i].Allocated()
      && asize <= nh.blocks[i].Size() < asize + MINBLOCKSIZE
      && h.blocks[i].addr !in nh.flist
  {
    if asize <= h.blocks[i].Size() {
      if h.blocks[i].Size() - asize >= MINBLOCKSIZE { PlaceSplits(h, i, asize); }
      else { PlaceWhole(h, i, asize); }
    }
  }

  // ---------------------------------------------------------------------------
  // Coalesce

  /** The free run bs[lo..hi] around block i has become one free block whose
      size is the sum of the run's sizes; its neighbours are allocated and every
      other block is unchanged. */
  ghost predicate Merged(bs: seq<Block>, nb: seq<Block>, lo: nat, hi: nat, i: nat) {
    0 < lo <= i < hi < |bs| && bs[lo - 1].Allocated() && bs[hi].Allocated()
    && (forall j :: lo <= j < hi ==> !bs[j].Allocated())
    && nb == bs[..lo] + [Mk(bs[lo].addr, SpanSize(bs[lo..hi]), false)] + bs[hi..]
  }

  /** What coalesce may assume: block i is free and the only possible site of
      adjacent free blocks. */
  ghost predicate CoalesceReady(h: Heap, i: nat) {
    WellFormed(h) && 0 < i < |h.blocks| - 1 && !h.blocks[i].Allocated()
    && NoAdjacentFreeExcept(h.blocks, i)
  }

  /** What coalesce achieves: the result r is the merged free run around i,
      listed once; the absorbed blocks have left the free list; nothing else
      changes; the invariant holds again. */
  ghost predicate CoalesceOutcome(h: Heap, i: nat, nh: Heap, r: nat) {
    Valid(nh) && nh.brk == h.brk && r < |nh.blocks| && nh.blocks[r].addr in nh.flist
    && KeepsAllocated(h.blocks, nh.blocks)
    && (forall x :: x in nh.flist ==> x in h.flist)
    && exists hi: nat :: Merged(h.blocks, nh.blocks, r, hi, i)
                    && forall j :: r < j < hi ==> h.blocks[j].addr !in nh.flist
  }

  /** The common step of all coalescing cases. */
  lemma {:induction false} MergeRun(h: Heap, lo: nat, hi: nat, i: nat, mb: Block, fl: seq<nat>)
    requires WellFormed(h) && 0 < lo <= i < hi < |h.blocks|
    requires forall j :: lo <= j < hi ==> !h.blocks[j].Allocated()
    requires h.blocks[lo - 1].Allocated() && h.blocks[hi].Allocated()
    requires NoAdjacentFreeExcept(h.blocks, i)
    requires mb.addr == h.blocks[lo].addr && mb.End() == h.blocks[hi - 1].End()
    requires InteriorOk(mb) && !mb.Allocated()
    requires NoDup(fl)
    requires forall x :: x in fl <==> x in h.flist && (x == mb.addr || x !in FreeAddrs(h.blocks[lo..hi]))
    ensures Valid(Heap(h.blocks[..lo] + [mb] + h.blocks[hi..], fl, h.brk))
    ensures KeepsAllocated(h.blocks, h.blocks[..lo] + [mb] + h.blocks[hi..])
  {
    var bs := h.blocks;
    var nb := bs[..lo] + [mb] + bs[hi..];
    assert BlocksOk(nb, h.brk) by {
      ReplaceOk(bs, h.brk, lo, hi, [mb]);
    }
    assert forall x :: x in fl <==> x in FreeAddrs(nb) by {
      BlocksOkChain(bs, h.brk);
      ReplaceFreeAddrs(bs, lo, hi, [mb]);
      FreeAddrsOne(mb);
      FreeAddrsHas(bs, lo);
    }
    assert NoAdjacentFree(nb) by {
      ReplaceNoAdjacent(bs, lo, hi, [mb]);
    }
    assert KeepsAllocated(bs, nb) by {
      ReplaceKeeps(bs, lo, hi, [mb]);
    }
  }

  /** A merge step that lists the merged block and unlinks the absorbed ones
      achieves CoalesceOutcome. */
  lemma {:induction false} MergeOutcome(h: Heap, lo: nat, hi: nat, i: nat, fl: seq<nat>)
    requires WellFormed(h) && 0 < lo <= i < hi < |h.blocks|
    requires forall j :: lo <= j < hi ==> !h.blocks[j].Allocated()
    requires h.blocks[lo - 1].Allocated() && h.blocks[hi].Allocated()
    requires NoAdjacentFreeExcept(h.blocks, i)
    requires h.blocks[lo].addr + SpanSize(h.blocks[lo..hi]) == h.blocks[hi - 1].End()
    requires SpanSize(h.blocks[lo..hi]) >= MINBLOCKSIZE && SpanSize(h.blocks[lo..hi]) % WORD_SIZE == 0
    requires NoDup(fl)
    requires forall x :: x in fl <==> x in h.flist && (x == h.blocks[lo].addr || x !in FreeAddrs(h.blocks[lo..hi]))
    ensures var bs := h.blocks;
      CoalesceOutcome(h, i, Heap(bs[..lo] + [Mk(bs[lo].addr, SpanSize(bs[lo..hi]), false)] + bs[hi..], fl, h.brk), lo)
  {
    var bs := h.blocks;
    var mb := Mk(bs[lo].addr, SpanSize(bs[lo..hi]), false);
    var nh := Heap(bs[..lo] + [mb] + bs[hi..], fl, h.brk);
    assert Valid(nh) && KeepsAllocated(bs, nh.blocks) by {
      MergeRun(h, lo, hi, i, mb, fl);
    }
    assert nh.blocks[lo] == mb && mb.addr in fl by {
      FreeIsListed(h, lo);
    }
    assert forall j :: lo < j < hi ==> bs[j].addr !in fl by {
      RunUnlisted(h, lo, hi, fl);
    }
    assert Merged(bs, nh.blocks, lo, hi, i);
  }

  /** The absorbed blocks of a run, all but its lowest, are not listed. */
  lemma {:induction false} RunUnlisted(h: Heap, lo: nat, hi: nat, fl: seq<nat>)
    requires BlocksOk(h.blocks, h.brk) && lo < hi <= |h.blocks|
    requires forall j :: lo <= j < hi ==> !h.blocks[j].Allocated()
    requires forall x :: x in fl ==> x == h.blocks[lo].addr || x !in FreeAddrs(h.blocks[lo..hi])
    ensures forall j :: lo < j < hi ==> h.blocks[j].addr !in fl
  {
    var bs := h.blocks;
    BlocksOkChain(bs, h.brk);
    forall j | lo < j < hi ensures bs[j].addr !in fl {
      assert bs[lo..hi][j - lo] == bs[j];
      FreeAddrsHas(bs[lo..hi], j - lo);
      Ordered(bs, lo, j);
    }
  }

  lemma {:induction false} SpanSizeOne(b: Block)
    ensures SpanSize([b]) == b.Size()
  {
    assert [b][1..] == [];
  }

  lemma {:induction false} SpanSizeTwo(bs: seq<Block>, i: nat)
    requires i + 1 < |bs|
    ensures SpanSize(bs[i..i + 2]) == bs[i].Size() + bs[i + 1].Size()
  {
    assert bs[i..i + 2] == [bs[i], bs[i + 1]];
    assert [bs[i], bs[i + 1]][1..] == [bs[i + 1]];
    SpanSizeOne(bs[i + 1]);
  }

  lemma {:induction false} SpanSizeThree(bs: seq<Block>, i: nat)
    requires i + 2 < |bs|
    ensures SpanSize(bs[i..i + 3]) == bs[i].Size() + bs[i + 1].Size() + bs[i + 2].Size()
  {
    assert bs[i..i + 3] == [bs[i]] + bs[i + 1..i + 3];
    assert bs[i..i + 3][1..] == bs[i + 1..i + 3];
    SpanSizeTwo(bs, i + 1);
  }


  /** A free block alone is already the merged run of case 1. */
  lemma {:induction false} MergeSingle(bs: seq<Block>, i: nat)
    requires i < |bs| && InteriorOk(bs[i]) && !bs[i].Allocated()
    ensures SpanSize(bs[i..i + 1]) == bs[i].Size() && FreeAddrs(bs[i..i + 1]) == {bs[i].addr}
    ensures bs[..i] + [Mk(bs[i].addr, SpanSize(bs[i..i + 1]), false)] + bs[i + 1..] == bs
  {
    assert bs[i..i + 1] == [bs[i]];
    SpanSizeOne(bs[i]);
    FreeAddrsOne(bs[i]);
    assert Mk(bs[i].addr, bs[i].Size(), false) == bs[i];
  }

  lemma {:induction false} CoalesceNone(h: Heap, i: nat)
    requires CoalesceReady(h, i) && h.blocks[i - 1].Allocated() && h.blocks[i + 1].Allocated()
    ensures CoalesceOutcome(h, i, Coalesce(h, i).0, Coalesce(h, i).1)
  {
    assert InteriorOk(h.blocks[i]);
    MergeSingle(h.blocks, i);
    MergeOutcome(h, i, i + 1, i, h.flist);
  }

  /** Unlinking the absorbed block of case 2 or 3 keeps exactly the other members. */
  lemma {:induction false} UnlinkOne(fl: seq<nat>, keep: nat, gone: nat, run: set<nat>)
    requires NoDup(fl) && gone in fl && keep != gone && run == {keep, gone}
    ensures NoDup(Remove(fl, gone))
    ensures forall x :: x in Remove(fl, gone) <==> x in fl && (x == keep || x !in run)
  {
    RemoveMember(fl, gone);
  }

  /** Unlinking the two absorbed blocks of case 4 keeps exactly the other members. */
  lemma {:induction false} UnlinkTwo(fl: seq<nat>, pa: nat, a: nat, na: nat, run: set<nat>)
    requires NoDup(fl) && a in fl && na in fl && pa < a < na && run == {pa, a, na}
    ensures NoDup(Remove(Remove(fl, na), a))
    ensures forall x :: x in Remove(Remove(fl, na), a) <==> x in fl && (x == pa || x !in run)
  {
    RemoveMember(fl, na);
    RemoveMember(Remove(fl, na), a);
  }

  /** Merge on a free block writes one free block spanning both. */
  lemma {:induction false} MergeFree(bs: seq<Block>, j: nat)
    requires j + 1 < |bs| && !bs[j].Allocated()
    ensures SpanSize(bs[j..j + 2]) == bs[j].Size() + bs[j + 1].Size()
    ensures Merge(bs, j) == bs[..j] + [Mk(bs[j].addr, SpanSize(bs[j..j + 2]), false)] + bs[j + 2..]
  {
    SpanSizeTwo(bs, j);
  }

  /** Merge3 on a free block writes one free block spanning all three. */
  lemma {:induction false} Merge3Free(bs: seq<Block>, j: nat)
    requires j + 2 < |bs| && !bs[j].Allocated()
    ensures SpanSize(bs[j..j + 3]) == bs[j].Size() + bs[j + 1].Size() + bs[j + 2].Size()
    ensures Merge3(bs, j) == bs[..j] + [Mk(bs[j].addr, SpanSize(bs[j..j + 3]), false)] + bs[j + 3..]
  {
    SpanSizeThree(bs, j);
  }

  /** Unlinking the upper block of a free pair keeps exactly the list members
      outside the pair, and the lower block. */
  lemma {:induction false} UnlinkPair(bs: seq<Block>, j: nat, fl: seq<nat>)
    requires j + 1 < |bs| && !bs[j].Allocated() && !bs[j + 1].Allocated()
    requires bs[j].addr < bs[j + 1].addr
    requires NoDup(fl) && bs[j + 1].addr in fl
    ensures var fl1 := Remove(fl, bs[j + 1].addr);
      NoDup(fl1) && forall x :: x in fl1 <==> x in fl && (x == bs[j].addr || x !in FreeAddrs(bs[j..j + 2]))
  {
    assert FreeAddrs(bs[j..j + 2]) == {bs[j].addr, bs[j + 1].addr} by {
      assert bs[j..j + 2] == [bs[j], bs[j + 1]];
      FreeAddrsTwo(bs[j], bs[j + 1]);
      FreeAddrsOne(bs[j]);
      FreeAddrsOne(bs[j + 1]);
    }
    UnlinkOne(fl, bs[j].addr, bs[j + 1].addr, FreeAddrs(bs[j..j + 2]));
  }

  /** Two interior blocks span a legal block size. */
  lemma {:induction false} SpanTwoOk(bs: seq<Block>, brk: nat, j: nat)
    requires BlocksOk(bs, brk) && 0 < j && j + 1 < |bs| - 1
    ensures var span := SpanSize(bs[j..j + 2]);
      bs[j].addr + span == bs[j + 1].End() && span >= MINBLOCKSIZE && span % WORD_SIZE == 0
  {
    SpanSizeTwo(bs, j);
    assert InteriorOk(bs[j]) && InteriorOk(bs[j + 1]);
  }

  lemma {:induction false} CoalesceNext(h: Heap, i: nat)
    requires CoalesceReady(h, i) && h.blocks[i - 1].Allocated() && !h.blocks[i + 1].Allocated()
    ensures CoalesceOutcome(h, i, Coalesce(h, i).0, Coalesce(h, i).1)
  {
    var bs, fl := h.blocks, h.flist;
    assert i + 1 < |bs| - 1 && bs[i + 2].Allocated() && bs[i].addr < bs[i + 1].addr by {
      BlocksOkChain(bs, h.brk);
      Ordered(bs, i, i + 1);
    }
    assert bs[i + 1].addr in fl by { FreeIsListed(h, i + 1); }
    UnlinkPair(bs, i, fl);
    SpanTwoOk(bs, h.brk, i);
    MergeOutcome(h, i, i + 2, i, Remove(fl, bs[i + 1].addr));
    MergeFree(bs, i);
  }

  lemma {:induction false} CoalescePrev(h: Heap, i: nat)
    requires CoalesceReady(h, i) && !h.blocks[i - 1].Allocated() && h.blocks[i + 1].Allocated()
    ensures CoalesceOutcome(h, i, Coalesce(h, i).0, Coalesce(h, i).1)
  {
    var bs, fl := h.blocks, h.flist;
    assert i - 1 > 0 && bs[i - 2].Allocated() && bs[i - 1].addr < bs[i].addr by {
      BlocksOkChain(bs, h.brk);
      Ordered(bs, i - 1, i);
    }
    assert bs[i].addr in fl by { FreeIsListed(h, i); }
    UnlinkPair(bs, i - 1, fl);
    SpanTwoOk(bs, h.brk, i - 1);
    MergeOutcome(h, i - 1, i + 1, i, Remove(fl, bs[i].addr));
    MergeFree(bs, i - 1);
  }

  /** Three interior blocks span a legal block size. */
  lemma {:induction false} SpanThreeOk(bs: seq<Block>, brk: nat, j: nat)
    requires BlocksOk(bs, brk) && 0 < j && j + 2 < |bs| - 1
    ensures var span := SpanSize(bs[j..j + 3]);
      bs[j].addr + span == bs[j + 2].End() && span >= MINBLOCKSIZE && span % WORD_SIZE == 0
  {
    SpanSizeThree(bs, j);
    assert InteriorOk(bs[j]) && InteriorOk(bs[j + 1]) && InteriorOk(bs[j + 2]);
    var s1, s2, s3 := bs[j].Size(), bs[j + 1].Size(), bs[j + 2].Size();
    assert bs[j + 1].addr == bs[j].addr + s1 && bs[j + 2].addr == bs[j + 1].addr + s2;
    assert (s1 + s2 + s3) % WORD_SIZE == 0 by {
      assert s1 == s1 / WORD_SIZE * WORD_SIZE && s2 == s2 / WORD_SIZE * WORD_SIZE && s3 == s3 / WORD_SIZE * WORD_SIZE;
      assert s1 + s2 + s3 == (s1 / WORD_SIZE + s2 / WORD_SIZE + s3 / WORD_SIZE) * WORD_SIZE;
    }
  }

  /** Case 4 of coalesce writes the merged block in place of the three. */
  lemma {:induction false} CoalesceBothShape(h: Heap, i: nat)
    requires 0 < i && i + 2 < |h.blocks| && !h.blocks[i - 1].Allocated() && !h.blocks[i].Allocated()
      && !h.blocks[i + 1].Allocated()
    ensures var bs := h.blocks;
      Coalesce(h, i) == (Heap(bs[..i - 1] + [Mk(bs[i - 1].addr, SpanSize(bs[i - 1..i + 2]), false)] + bs[i + 2..],
                              Remove(Remove(h.flist, bs[i + 1].addr), bs[i].addr), h.brk), i - 1)
  {
    Merge3Free(h.blocks, i - 1);
  }

  /** Unlinking the two upper blocks of a free run of three keeps exactly the
      list members outside the run, and the lowest block of the run. */
  lemma {:induction false} UnlinkThree(bs: seq<Block>, j: nat, fl: seq<nat>)
    requires j + 2 < |bs| && !bs[j].Allocated() && !bs[j + 1].Allocated() && !bs[j + 2].Allocated()
    requires bs[j].addr < bs[j + 1].addr < bs[j + 2].addr
    requires NoDup(fl) && bs[j + 1].addr in fl && bs[j + 2].addr in fl
    ensures var fl2 := Remove(Remove(fl, bs[j + 2].addr), bs[j + 1].addr);
      NoDup(fl2) && forall x :: x in fl2 <==> x in fl && (x == bs[j].addr || x !in FreeAddrs(bs[j..j + 3]))
  {
    assert FreeAddrs(bs[j..j + 3]) == {bs[j].addr, bs[j + 1].addr, bs[j + 2].addr} by {
      assert bs[j..j + 3] == [bs[j], bs[j + 1], bs[j + 2]];
      FreeAddrsThree(bs[j], bs[j + 1], bs[j + 2]);
      FreeAddrsOne(bs[j]);
      FreeAddrsOne(bs[j + 1]);
      FreeAddrsOne(bs[j + 2]);
    }
    UnlinkTwo(fl, bs[j].addr, bs[j + 1].addr, bs[j + 2].addr, FreeAddrs(bs[j..j + 3]));
  }

  lemma {:induction false} CoalesceBoth(h: Heap, i: nat)
    requires CoalesceReady(h, i) && !h.blocks[i - 1].Allocated() && !h.blocks[i + 1].Allocated()
    ensures CoalesceOutcome(h, i, Coalesce(h, i).0, Coalesce(h, i).1)
  {
    var bs, fl := h.blocks, h.flist;
    var pa, a, na := bs[i - 1].addr, bs[i].addr, bs[i + 1].addr;
    var fl2 := Remove(Remove(fl, na), a);
    var span := SpanSize(bs[i - 1..i + 2]);
    assert i - 1 > 0 && i + 1 < |bs| - 1 && bs[i - 2].Allocated() && bs[i + 2].Allocated() by {
      BlocksOkChain(bs, h.brk);
    }
    assert pa < a < na by {
      BlocksOkChain(bs, h.brk);
      Ordered(bs, i - 1, i);
      Ordered(bs, i, i + 1);
    }
    assert a in fl && na in fl by {
      FreeIsListed(h, i);
      FreeIsListed(h, i + 1);
    }
    UnlinkThree(bs, i - 1, fl);
    SpanThreeOk(bs, h.brk, i - 1);
    MergeOutcome(h, i - 1, i + 2, i, fl2);
    CoalesceBothShape(h, i);
  }

  /** coalesce, all four cases: see CoalesceOutcome. */
  lemma {:induction false} CoalesceSpec(h: Heap, i: nat)
    requires CoalesceReady(h, i)
    ensures CoalesceOutcome(h, i, Coalesce(h, i).0, Coalesce(h, i).1)
  {
    var prevAlloc, nextAlloc := h.blocks[i - 1].Allocated(), h.blocks[i + 1].Allocated();
    if prevAlloc && nextAlloc { CoalesceNone(h, i); }
    else if prevAlloc { CoalesceNext(h, i); }
    else if nextAlloc { CoalescePrev(h, i); }
    else { CoalesceBoth(h, i); }
  }

  // ---------------------------------------------------------------------------
  // Facts shared by the operations

  lemma {:induction false} SpanSizeCovers(bs: seq<Block>, lo: nat, hi: nat, i: nat)
    requires lo <= i < hi <= |bs|
    ensures SpanSize(bs[lo..hi]) >= bs[i].Size()
    decreases hi - lo
  {
    assert bs[lo..hi][0] == bs[lo];
    assert bs[lo..hi][1..] == bs[lo + 1..hi];
    if i > lo { SpanSizeCovers(bs, lo + 1, hi, i); }
  }

  /** The merged block is free and at least as large as the block it grew from. */
  lemma {:induction false} MergedBlock(bs: seq<Block>, nb: seq<Block>, lo: nat, hi: nat, i: nat)
    requires Merged(bs, nb, lo, hi, i)
    ensures lo < |nb| && nb[lo].addr == bs[lo].addr && !nb[lo].Allocated()
    ensures nb[lo].Size() >= bs[i].Size()
  {
    assert nb[lo] == Mk(bs[lo].addr, SpanSize(bs[lo..hi]), false);
    SpanSizeCovers(bs, lo, hi, i);
  }

  /** A block absorbed by a merge is no longer a block of the heap. */
  lemma {:induction false} MergedAbsorbs(bs: seq<Block>, nb: seq<Block>, lo: nat, hi: nat, i: nat, j: nat)
    requires Merged(bs, nb, lo, hi, i) && Chain(bs) && Chain(nb) && lo < j < hi
    ensures IndexOf(nb, bs[j].addr).None?
  {
    assert nb[lo] == Mk(bs[lo].addr, SpanSize(bs[lo..hi]), false);
    assert nb[lo + 1] == bs[hi];
    Ordered(bs, lo, j);
    Ordered(bs, j, hi);
    InsideIsNoBlock(nb, lo, bs[j].addr);
  }

  /** An allocated block kept by an operation keeps its payload live and its size. */
  lemma {:induction false} KeepsLive(h: Heap, nh: Heap, p: nat)
    requires LivePayload(h, p) && BlocksOk(nh.blocks, nh.brk) && KeepsAllocated(h.blocks, nh.blocks)
    ensures LivePayload(nh, p) && PayloadSize(nh, p) == PayloadSize(h, p)
  {
    var bs := h.blocks;
    var i := IndexOf(bs, p - WORD_SIZE).value;
    assert bs[1..|bs| - 1][i - 1] == bs[i];
    BlocksOkChain(nh.blocks, nh.brk);
    KeptIndex(nh.blocks, bs[i]);
  }

  /** The payload of an allocated interior block is live. */
  lemma {:induction false} BlockLive(h: Heap, i: nat)
    requires BlocksOk(h.blocks, h.brk) && 0 < i < |h.blocks| - 1 && h.blocks[i].Allocated()
    ensures LivePayload(h, h.blocks[i].Payload())
    ensures PayloadSize(h, h.blocks[i].Payload()) == h.blocks[i].Size() - TAGS_SIZE
  {
    BlocksOkChain(h.blocks, h.brk);
    UniqueIndex(h.blocks, i);
  }

  /** The payload of a free block, or of a sentinel, is not live. */
  lemma {:induction false} BlockNotLive(h: Heap, i: nat)
    requires BlocksOk(h.blocks, h.brk) && i < |h.blocks| && (!h.blocks[i].Allocated() || i == |h.blocks| - 1)
    ensures !LivePayload(h, h.blocks[i].Payload())
  {
    BlocksOkChain(h.blocks, h.brk);
    UniqueIndex(h.blocks, i);
  }

  // ---------------------------------------------------------------------------
  // mm_extend_heap

  /** The grown heap is ready for coalescing around the new block. */
  lemma {:induction false} GrownReady(h: Heap, n: nat)
    requires Valid(h) && n >= MINBLOCKSIZE && n % WORD_SIZE == 0
    ensures CoalesceReady(Grown(h, n), |h.blocks| - 1)
    ensures KeepsAllocated(h.blocks, Grown(h, n).blocks)
  {
    var bs := h.blocks;
    var e := |bs| - 1;
    GrowOk(bs, h.brk, n);
    GrowFreeAddrs(bs, n);
    FreeIsListed(h, e);
    InsertFresh(h.flist, bs[e].addr);
    assert Grow(bs, n)[e] == Mk(bs[e].addr, n, false);
  }

  /** mm_extend_heap fails exactly when the provider cannot grow the region by
      n bytes. Otherwise the region ends n bytes higher; the old epilogue's
      place holds a free block of n bytes merged with a free block before it;
      the result is that block, free, linked, and at least n bytes; it was not a
      live payload before; every allocated block stays. */
  lemma {:induction false} ExtendSpec(h: Heap, budget: nat, n: nat)
    requires Valid(h) && n >= MINBLOCKSIZE && n % WORD_SIZE == 0
    ensures Extend(h, budget, n).None? <==> h.brk + n > budget
    ensures Extend(h, budget, n).Some? ==>
      var nh, r := Extend(h, budget, n).value.0, Extend(h, budget, n).value.1;
      CoalesceOutcome(Grown(h, n), |h.blocks| - 1, nh, r)
      && nh.brk == h.brk + n && KeepsAllocated(h.blocks, nh.blocks)
      && !nh.blocks[r].Allocated() && nh.blocks[r].Size() >= n
      && !LivePayload(h, nh.blocks[r].Payload())
  {
    if h.brk + n <= budget {
      var bs := h.blocks;
      var e := |bs| - 1;
      var g := Grown(h, n);
      GrownReady(h, n);
      assert Extend(h, budget, n) == Some(Coalesce(g, e));
      CoalesceSpec(g, e);
      var nh, r := Coalesce(g, e).0, Coalesce(g, e).1;
      var hi: nat :| Merged(g.blocks, nh.blocks, r, hi, e) && forall j :: r < j < hi ==> g.blocks[j].addr !in nh.flist;
      MergedBlock(g.blocks, nh.blocks, r, hi, e);
      assert g.blocks[e].Size() == n;
      GrownFresh(h, n, nh.blocks, r, hi);
    }
  }

  /** The block a merge around the new block yields was not a live payload. */
  lemma {:induction false} GrownFresh(h: Heap, n: nat, nb: seq<Block>, r: nat, hi: nat)
    requires Valid(h) && Merged(Grown(h, n).blocks, nb, r, hi, |h.blocks| - 1)
    ensures !LivePayload(h, nb[r].Payload())
  {
    var bs, g := h.blocks, Grown(h, n).blocks;
    var e := |bs| - 1;
    MergedBlock(g, nb, r, hi, e);
    if r < e {
      assert g[r] == bs[r];
      BlockNotLive(h, r);
    } else {
      assert g[e].addr == bs[e].addr;
      BlockNotLive(h, e);
    }
    assert nb[r].Payload() == bs[r].Payload();
  }

  // ---------------------------------------------------------------------------
  // mm_malloc

  /** A block found by find_fit is an ordinary free block large enough. */
  lemma {:induction false} FitIsFree(h: Heap, asize: nat)
    requires Valid(h) && Fit(h, asize).Some?
    ensures 0 < Fit(h, asize).value < |h.blocks| - 1
    ensures !h.blocks[Fit(h, asize).value].Allocated() && h.blocks[Fit(h, asize).value].Size() >= asize
  {
    ValidResolves(h);
    FirstFitSpec(h.blocks, h.flist, asize);
    var k :| 0 <= k < |h.flist| && IndexOf(h.blocks, h.flist[k]) == Fit(h, asize)
             && forall j :: 0 <= j < k ==> SizeAt(h.blocks, h.flist[j]) < asize;
    ListedIsFree(h, h.flist[k]);
  }

  /** Placing a request in the free block i yields a fresh live payload at block
      i, with room for the request and less than a minimum block to spare. */
  lemma {:induction false} PlacedLive(h: Heap, i: nat, asize: nat)
    requires Valid(h) && 0 < i < |h.blocks| - 1 && !h.blocks[i].Allocated()
    requires asize >= MINBLOCKSIZE && asize % WORD_SIZE == 0 && asize <= h.blocks[i].Size()
    ensures var nh, q := Place(h, i, asize).0, h.blocks[i].Payload();
      LivePayload(nh, q) && asize - TAGS_SIZE <= PayloadSize(nh, q) < asize - TAGS_SIZE + MINBLOCKSIZE
      && !LivePayload(h, q)
  {
    PlaceSpec(h, i, asize);
    BlockLive(Place(h, i, asize).0, i);
    BlockNotLive(h, i);
  }

  /** mm_malloc. The result is NULL exactly when the request is 0, or nothing on
      the free list fits and the provider cannot grow the region; then the heap
      is unchanged. Otherwise it is a payload that was not live and now is, with
      room for the request and less than a minimum block to spare; the first fit
      on the free list is used when there is one, without growing the region.
      The invariant holds, every allocated block stays, and the region grows
      only within the budget. */
  lemma {:induction false} MallocSpec(h: Heap, budget: nat, size: nat)
    requires Valid(h)
    ensures var m := Malloc(h, budget, size);
      var asize := AdjustedSize(size);
      Valid(m.0) && KeepsAllocated(h.blocks, m.0.blocks)
      && (m.0.brk == h.brk || m.0.brk <= budget)
      && (m.1.None? <==> size == 0 || (Fit(h, asize).None? && h.brk + Max(asize, MINBLOCKSIZE) > budget))
      && (m.1.None? ==> m.0 == h)
      && (m.1.Some? ==> LivePayload(m.0, m.1.value) && !LivePayload(h, m.1.value)
                        && size <= PayloadSize(m.0, m.1.value) < asize - TAGS_SIZE + MINBLOCKSIZE)
      && (size > 0 && Fit(h, asize).Some? ==>
            m.0.brk == h.brk && m.1 == Some(h.blocks[Fit(h, asize).value].Payload()))
  {
    if size > 0 {
      var asize := AdjustedSize(size);
      match Fit(h, asize)
      case Some(i) =>
        FitIsFree(h, asize);
        PlaceSpec(h, i, asize);
        PlacedLive(h, i, asize);
      case None =>
        var n := Max(asize, MINBLOCKSIZE);
        ExtendSpec(h, budget, n);
        if h.brk + n <= budget { MallocGrown(h, budget, asize); }
    }
  }

  /** mm_malloc after growing the region: place succeeds in the new block. */
  lemma {:induction false} MallocGrown(h: Heap, budget: nat, asize: nat)
    requires Valid(h) && asize >= MINBLOCKSIZE && asize % WORD_SIZE == 0
    requires h.brk + Max(asize, MINBLOCKSIZE) <= budget
    ensures var g := Extend(h, budget, Max(asize, MINBLOCKSIZE)).value;
      var nh, q := Place(g.0, g.1, asize).0, g.0.blocks[g.1].Payload();
      Valid(nh) && KeepsAllocated(h.blocks, nh.blocks) && nh.brk <= budget
      && Place(g.0, g.1, asize).1.Some?
      && LivePayload(nh, q) && !LivePayload(h, q)
      && asize - TAGS_SIZE <= PayloadSize(nh, q) < asize - TAGS_SIZE + MINBLOCKSIZE
  {
    var n := Max(asize, MINBLOCKSIZE);
    ExtendSpec(h, budget, n);
    var g := Extend(h, budget, n).value;
    assert 0 < g.1 < |g.0.blocks| - 1 by {
      assert g.0.blocks[0].Allocated() && g.0.blocks[|g.0.blocks| - 1].Allocated();
    }
    PlaceSpec(g.0, g.1, asize);
    PlacedLive(g.0, g.1, asize);
    KeepsTrans(h.blocks, g.0.blocks, Place(g.0, g.1, asize).0.blocks);
  }

  lemma {:induction false} KeepsTrans(a: seq<Block>, b: seq<Block>, c: seq<Block>)
    requires KeepsAllocated(a, b) && KeepsAllocated(b, c)
    ensures KeepsAllocated(a, c)
  {
  }

  /** Allocating never disturbs a live payload. */
  lemma {:induction false} MallocKeepsLive(h: Heap, budget: nat, size: nat, p: nat)
    requires Valid(h) && LivePayload(h, p)
    ensures LivePayload(Malloc(h, budget, size).0, p)
    ensures PayloadSize(Malloc(h, budget, size).0, p) == PayloadSize(h, p)
  {
    MallocSpec(h, budget, size);
    KeepsLive(h, Malloc(h, budget, size).0, p);
  }

  // ---------------------------------------------------------------------------
  // mm_free

  /** Every live payload other than p is still live, with its size. */
  ghost predicate OthersLive(h: Heap, nh: Heap, p: nat) {
    forall q :: LivePayload(h, q) && q != p ==> LivePayload(nh, q) && PayloadSize(nh, q) == PayloadSize(h, q)
  }

  /** Right after mm_free has marked and linked the block, coalesce may run. */
  lemma {:induction false} ReleasedReady(h: Heap, i: nat)
    requires Valid(h) && 0 < i < |h.blocks| - 1 && h.blocks[i].Allocated()
    ensures CoalesceReady(Released(h, i), i)
  {
    MarkFreeOk(h.blocks, h.brk, i);
    BlocksOkChain(h.blocks, h.brk);
    MarkFreeAddrs(h.blocks, i, false);
    FreeIsListed(h, i);
    InsertFresh(h.flist, h.blocks[i].addr);
    assert MarkAt(h.blocks, i, false)[i] == Mk(h.blocks[i].addr, h.blocks[i].Size(), false);
  }

  /** mm_free: the block is merged with its free neighbours into one free,
      linked block (see CoalesceOutcome); the invariant holds again and every
      other allocated block stays. */
  lemma {:induction false} FreeSpec(h: Heap, p: nat)
    requires Valid(h) && LivePayload(h, p)
    ensures var i := IndexOf(h.blocks, p - WORD_SIZE).value;
      CoalesceOutcome(Released(h, i), i, Free(h, p), Coalesce(Released(h, i), i).1)
  {
    var i := IndexOf(h.blocks, p - WORD_SIZE).value;
    ReleasedReady(h, i);
    CoalesceSpec(Released(h, i), i);
  }

  /** After mm_free(p), p is no longer a live payload. */
  lemma {:induction false} FreeEndsLife(h: Heap, p: nat)
    requires Valid(h) && LivePayload(h, p)
    ensures Valid(Free(h, p)) && Free(h, p).brk == h.brk
    ensures !LivePayload(Free(h, p), p)
  {
    var i := IndexOf(h.blocks, p - WORD_SIZE).value;
    var h1 := Released(h, i);
    FreeSpec(h, p);
    ReleasedReady(h, i);
    var nh, r := Free(h, p), Coalesce(h1, i).1;
    var hi: nat :| Merged(h1.blocks, nh.blocks, r, hi, i) && forall j :: r < j < hi ==> h1.blocks[j].addr !in nh.flist;
    FreedNotLive(h1, nh, r, hi, i);
    assert h1.blocks[i].Payload() == p;
  }

  lemma {:induction false} FreedNotLive(h1: Heap, nh: Heap, r: nat, hi: nat, i: nat)
    requires BlocksOk(h1.blocks, h1.brk) && BlocksOk(nh.blocks, nh.brk) && Merged(h1.blocks, nh.blocks, r, hi, i)
    ensures !LivePayload(nh, h1.blocks[i].Payload())
  {
    BlocksOkChain(h1.blocks, h1.brk);
    BlocksOkChain(nh.blocks, nh.brk);
    MergedBlock(h1.blocks, nh.blocks, r, hi, i);
    if r == i {
      BlockNotLive(nh, r);
    } else {
      MergedAbsorbs(h1.blocks, nh.blocks, r, hi, i, i);
    }
  }

  /** Marking one block free leaves the other live payloads live. */
  lemma {:induction false} LiveAfterRelease(h: Heap, i: nat, q: nat)
    requires Valid(h) && 0 < i < |h.blocks| - 1 && h.blocks[i].Allocated()
    requires LivePayload(h, q) && q - WORD_SIZE != h.blocks[i].addr
    ensures LivePayload(Released(h, i), q) && PayloadSize(Released(h, i), q) == PayloadSize(h, q)
  {
    var h1 := Released(h, i);
    var j := IndexOf(h.blocks, q - WORD_SIZE).value;
    MarkAtOther(h.blocks, i, false, j);
    MarkFreeOk(h.blocks, h.brk, i);
    BlockLive(h1, j);
  }

  /** mm_free(p) leaves every other live payload alone. */
  lemma {:induction false} FreeKeepsOther(h: Heap, p: nat, q: nat)
    requires Valid(h) && LivePayload(h, p) && LivePayload(h, q) && q != p
    ensures LivePayload(Free(h, p), q) && PayloadSize(Free(h, p), q) == PayloadSize(h, q)
  {
    var i := IndexOf(h.blocks, p - WORD_SIZE).value;
    FreeSpec(h, p);
    LiveAfterRelease(h, i, q);
    KeepsLive(Released(h, i), Free(h, p), q);
  }

  lemma {:induction false} FreeKeepsOthers(h: Heap, p: nat)
    requires Valid(h) && LivePayload(h, p)
    ensures OthersLive(h, Free(h, p), p)
  {
    forall q | LivePayload(h, q) && q != p
      ensures LivePayload(Free(h, p), q) && PayloadSize(Free(h, p), q) == PayloadSize(h, q)
    {
      FreeKeepsOther(h, p, q);
    }
  }

  // ---------------------------------------------------------------------------
  // mm_realloc

  /** What every resizing call of mm_realloc achieves: the invariant holds and
      the region grows only within the budget; on failure nothing changes; on
      success the result is live with room for the request; every other live
      payload stays; a moved block's old payload is no longer live and the new
      one was not live before. */
  ghost predicate Resized(h: Heap, budget: nat, p: nat, size: nat, r: (Heap, Option<nat>)) {
    Valid(r.0) && (r.0.brk == h.brk || r.0.brk <= budget)
    && (r.1.None? ==> r.0 == h)
    && (r.1.Some? ==> LivePayload(r.0, r.1.value) && PayloadSize(r.0, r.1.value) >= size)
    && (r.1.Some? && r.1.value != p ==> !LivePayload(h, r.1.value) && !LivePayload(r.0, p))
    && OthersLive(h, r.0, p)
  }

  /** The allocated block i absorbs its free successor. */
  lemma {:induction false} AbsorbNext(h: Heap, i: nat)
    requires Valid(h) && 0 < i < |h.blocks| - 1 && h.blocks[i].Allocated() && !h.blocks[i + 1].Allocated()
    ensures var bs := h.blocks;
      var nh := Heap(Merge(bs, i), Remove(h.flist, bs[i + 1].addr), h.brk);
      Valid(nh) && LivePayload(nh, bs[i].Payload())
      && PayloadSize(nh, bs[i].Payload()) == bs[i].Size() + bs[i + 1].Size() - TAGS_SIZE
      && OthersLive(h, nh, bs[i].Payload())
  {
    var bs := h.blocks;
    var nh := Heap(Merge(bs, i), Remove(h.flist, bs[i + 1].addr), h.brk);
    assert i + 1 < |bs| - 1;
    assert Valid(nh) by {
      AbsorbOk(bs, h.brk, i);
      BlocksOkChain(bs, h.brk);
      AbsorbFreeAddrs(bs, i);
      FreeIsListed(h, i + 1);
      RemoveMember(h.flist, bs[i + 1].addr);
    }
    assert Merge(bs, i)[i] == Mk(bs[i].addr, bs[i].Size() + bs[i + 1].Size(), true);
    BlockLive(nh, i);
    AbsorbKeepsOthers(h, i);
  }

  lemma {:induction false} AbsorbKeepsOthers(h: Heap, i: nat)
    requires Valid(h) && 0 < i < |h.blocks| - 1 && h.blocks[i].Allocated() && !h.blocks[i + 1].Allocated()
    ensures OthersLive(h, Heap(Merge(h.blocks, i), Remove(h.flist, h.blocks[i + 1].addr), h.brk), h.blocks[i].Payload())
  {
    var nh := Heap(Merge(h.blocks, i), Remove(h.flist, h.blocks[i + 1].addr), h.brk);
    forall q | LivePayload(h, q) && q != h.blocks[i].Payload()
      ensures LivePayload(nh, q) && PayloadSize(nh, q) == PayloadSize(h, q)
    {
      AbsorbKeepsOther(h, i, q);
    }
  }

  lemma {:induction false} AbsorbKeepsOther(h: Heap, i: nat, q: nat)
    requires Valid(h) && 0 < i < |h.blocks| - 1 && h.blocks[i].Allocated() && !h.blocks[i + 1].Allocated()
    requires LivePayload(h, q) && q != h.blocks[i].Payload()
    ensures var nh := Heap(Merge(h.blocks, i), Remove(h.flist, h.blocks[i + 1].addr), h.brk);
      LivePayload(nh, q) && PayloadSize(nh, q) == PayloadSize(h, q)
  {
    var bs := h.blocks;
    var nh := Heap(Merge(bs, i), Remove(h.flist, bs[i + 1].addr), h.brk);
    assert i + 1 < |bs| - 1;
    AbsorbOk(bs, h.brk, i);
    var j := BlockOf(h, q);
    MergeOther(bs, i, j);
    var j' := if j < i then j else j - 1;
    assert nh.blocks[j'] == bs[j];
    BlockLive(nh, j');
  }

  /** The fallback of mm_realloc meets Resized. */
  lemma {:induction false} RelocateSpec(h: Heap, budget: nat, p: nat, size: nat)
    requires Valid(h) && LivePayload(h, p) && size > 0
    ensures Resized(h, budget, p, size, Relocate(h, budget, p, RequestSize(size)))
  {
    var m := Malloc(h, budget, RequestSize(size));
    MallocSpec(h, budget, RequestSize(size));
    MallocKeepsLive(h, budget, RequestSize(size), p);
    if m.1.Some? {
      var q' := m.1.value;
      FreeEndsLife(m.0, p);
      FreeKeepsOther(m.0, p, q');
      forall q | LivePayload(h, q) && q != p
        ensures LivePayload(Free(m.0, p), q) && PayloadSize(Free(m.0, p), q) == PayloadSize(h, q)
      {
        MallocKeepsLive(h, budget, RequestSize(size), q);
        FreeKeepsOther(m.0, p, q);
      }
    }
  }

  /** mm_realloc with a live pointer and a non-zero size. A block whose usable
      size already covers the rounded request is returned as it is; one whose
      free successor makes up the difference absorbs it in place; failure
      happens only when the block had to move and the allocation failed. */
  lemma {:induction false} ResizeSpec(h: Heap, budget: nat, p: nat, size: nat)
    requires Valid(h) && LivePayload(h, p) && size > 0
    ensures Resized(h, budget, p, size, Resize(h, budget, p, size))
    ensures PayloadSize(h, p) >= RequestSize(size) ==> Resize(h, budget, p, size) == (h, Some(p))
    ensures var i := BlockOf(h, p);
      var next := h.blocks[i + 1];
      PayloadSize(h, p) < RequestSize(size) && !next.Allocated()
      && RequestSize(size) <= PayloadSize(h, p) + next.Size() ==>
        Resize(h, budget, p, size) == (Heap(Merge(h.blocks, i), Remove(h.flist, next.addr), h.brk), Some(p))
    ensures Resize(h, budget, p, size).1.None? ==>
      var next := h.blocks[BlockOf(h, p) + 1];
      PayloadSize(h, p) + (if next.Allocated() then 0 else next.Size()) < RequestSize(size)
  {
    var i := BlockOf(h, p);
    var next := h.blocks[i + 1];
    var reqSize := RequestSize(size);
    if PayloadSize(h, p) >= reqSize {
      ResizeInBlock(h, budget, p, size);
    } else if !next.Allocated() && reqSize <= PayloadSize(h, p) + next.Size() {
      ResizeInPlace(h, budget, p, size);
    } else {
      ResizeMoves(h, budget, p, size);
    }
  }

  lemma {:induction false} ResizeInBlock(h: Heap, budget: nat, p: nat, size: nat)
    requires Valid(h) && LivePayload(h, p) && size > 0 && PayloadSize(h, p) >= RequestSize(size)
    ensures Resize(h, budget, p, size) == (h, Some(p))
    ensures Resized(h, budget, p, size, Resize(h, budget, p, size))
  {
  }

  lemma {:induction false} ResizeInPlace(h: Heap, budget: nat, p: nat, size: nat)
    requires Valid(h) && LivePayload(h, p) && size > 0 && PayloadSize(h, p) < RequestSize(size)
    requires !h.blocks[BlockOf(h, p) + 1].Allocated()
    requires RequestSize(size) <= PayloadSize(h, p) + h.blocks[BlockOf(h, p) + 1].Size()
    ensures var i := BlockOf(h, p);
      Resize(h, budget, p, size) == (Heap(Merge(h.blocks, i), Remove(h.flist, h.blocks[i + 1].addr), h.brk), Some(p))
    ensures Resized(h, budget, p, size, Resize(h, budget, p, size))
  {
    var i := BlockOf(h, p);
    var b, next := h.blocks[i], h.blocks[i + 1];
    var nh := Heap(Merge(h.blocks, i), Remove(h.flist, next.addr), h.brk);
    assert Resize(h, budget, p, size) == (nh, Some(p)) by {
      assert h.blocks[..i] + [Mk(b.addr, b.Size() - TAGS_SIZE + next.Size() + 16, true)] + h.blocks[i + 2..]
          == Merge(h.blocks, i);
    }
    assert Resized(h, budget, p, size, (nh, Some(p))) by {
      AbsorbNext(h, i);
    }
  }

  lemma {:induction false} ResizeMoves(h: Heap, budget: nat, p: nat, size: nat)
    requires Valid(h) && LivePayload(h, p) && size > 0
    requires var next := h.blocks[BlockOf(h, p) + 1];
      PayloadSize(h, p) + (if next.Allocated() then 0 else next.Size()) < RequestSize(size)
    ensures Resize(h, budget, p, size) == Relocate(h, budget, p, RequestSize(size))
    ensures Resized(h, budget, p, size, Resize(h, budget, p, size))
  {
    RelocateSpec(h, budget, p, size);
  }

  /** mm_realloc: a NULL pointer is mm_malloc; size 0 is mm_free and returns
      the pointer, which is then no longer live; otherwise see ResizeSpec. */
  lemma {:induction false} ReallocSpec(h: Heap, budget: nat, ptr: Option<nat>, size: nat)
    requires Valid(h) && (ptr.Some? ==> LivePayload(h, ptr.value))
    ensures ptr.None? ==> Realloc(h, budget, ptr, size) == Malloc(h, budget, size)
    ensures ptr.Some? && size == 0 ==>
      Realloc(h, budget, ptr, size) == (Free(h, ptr.value), ptr)
      && Valid(Free(h, ptr.value)) && !LivePayload(Free(h, ptr.value), ptr.value)
      && OthersLive(h, Free(h, ptr.value), ptr.value)
    ensures ptr.Some? && size > 0 ==> Resized(h, budget, ptr.value, size, Realloc(h, budget, ptr, size))
  {
    if ptr.Some? {
      if size == 0 {
        FreeEndsLife(h, ptr.value);
        FreeKeepsOthers(h, ptr.value);
      } else {
        ResizeSpec(h, budget, ptr.value, size);
      }
    }
  }

  // ---------------------------------------------------------------------------
  // mm_realloc's fallback as written

  /** The moving branch of mm_realloc as the C code has it: the result of
      mm_malloc is not checked, so when the allocation fails the copy writes
      through the block of a NULL payload. None stands for reaching that
      write; otherwise the outcome is the new block, with the old one freed. */
  function RelocateAsWritten(h: Heap, budget: nat, p: nat, reqSize: nat): Option<(Heap, Option<nat>)>
    requires Valid(h) && LivePayload(h, p)
  {
    var m := Malloc(h, budget, reqSize);
    if m.1.None? then None
    else
      MallocKeepsLive(h, budget, reqSize, p);
      Some((Free(m.0, p), m.1))
  }

  /** The code as written reaches the NULL write exactly when the corrected
      fallback returns NULL, and agrees with it otherwise. */
  lemma {:induction false} RelocateAsWrittenAgrees(h: Heap, budget: nat, p: nat, reqSize: nat)
    requires Valid(h) && LivePayload(h, p)
    ensures RelocateAsWritten(h, budget, p, reqSize).None? <==> Relocate(h, budget, p, reqSize).1.None?
    ensures RelocateAsWritten(h, budget, p, reqSize).Some? ==>
      RelocateAsWritten(h, budget, p, reqSize).value == Relocate(h, budget, p, reqSize)
    ensures Relocate(h, budget, p, reqSize).1.None? ==> Relocate(h, budget, p, reqSize).0 == h
  {
    var m := Malloc(h, budget, reqSize);
    MallocSpec(h, budget, reqSize);
    if m.1.Some? {
      assert Relocate(h, budget, p, reqSize).1 == m.1;
    }
  }

  /** mm_realloc as written computes req_size in size_t arithmetic. For the
      23 largest sizes it wraps around to at most TAGS_SIZE, so every live
      block passes the test that it already has room, and ptr comes back
      although its block holds far fewer than size bytes. The heap itself
      lies in the size_t address range. */
  lemma {:induction false} ReallocKeepsTooSmall(h: Heap, p: nat, size: nat)
    requires Valid(h) && LivePayload(h, p) && h.brk <= SIZE_LIMIT
    requires SIZE_LIMIT - 23 <= size < SIZE_LIMIT
    ensures RequestSizeAsWritten(size) <= PayloadSize(h, p) < size
  {
    var bs := h.blocks;
    var i := BlockOf(h, p);
    RequestSizeWraps(size);
    assert InteriorOk(bs[i]);
    BlocksOkChain(bs, h.brk);
    Ordered(bs, 0, i);
    Ordered(bs, i, |bs| - 1);
  }

  /** One allocated 32-byte block between the sentinels, no free block, and a
      provider with no room left. */
  function FullHeap(): Heap {
    Heap([Mk(0, TAGS_SIZE, true), Mk(TAGS_SIZE, MINBLOCKSIZE, true), Mk(TAGS_SIZE + MINBLOCKSIZE, TAGS_SIZE, true)],
         [], 2 * TAGS_SIZE + MINBLOCKSIZE)
  }

  /** mm_realloc(24, 100) on that heap must move the block, mm_malloc fails,
      and the code as written goes on to write through NULL, while the
      corrected fallback returns NULL with the heap untouched. */
  lemma {:induction false} ReallocWritesThroughNull()
    ensures Valid(FullHeap()) && LivePayload(FullHeap(), 24)
    ensures Resize(FullHeap(), 64, 24, 100) == Relocate(FullHeap(), 64, 24, RequestSize(100))
    ensures RelocateAsWritten(FullHeap(), 64, 24, RequestSize(100)).None?
    ensures Resize(FullHeap(), 64, 24, 100) == (FullHeap(), None)
  {
    var h := FullHeap();
    var bs := h.blocks;
    FreeAddrsThree(bs[0], bs[1], bs[2]);
    FreeAddrsOne(bs[0]);
    FreeAddrsOne(bs[1]);
    FreeAddrsOne(bs[2]);
    assert FreeAddrs(bs) == {};
    assert Valid(h);
    assert IndexOf(bs, 16) == Some(1);
    assert RequestSize(100) == 120;
    assert AdjustedSize(120) == 136;
    assert Fit(h, 136) == None;
    assert Extend(h, 64, 136) == None;
    assert Malloc(h, 64, 120) == (h, None);
  }
}
