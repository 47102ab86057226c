/** The allocator as the C code runs it: global state updated in place. The
    heap, the free list, the provider's break and the sentinel pointers are
    fields of one object; each routine of mm.c is a method that rewrites them
    step by step and is specified by the matching function of module Model. */
module MM {
  import opened Blocks
  import opened FreeList
  import opened Sizes
  import Model
  import HeapCheck

  class Allocator {
    /** The blocks of the heap in address order (the tags in memory). */
    var blocks: seq<Block>
    /** The free list from its anchor flist_first. */
    var flist: seq<nat>
    /** The provider's break: one past mem_heap_hi. */
    var brk: nat
    /** The addresses of the sentinel blocks. */
    var prologue: nat
    var epilogue: nat
    /** How far the provider lets the heap grow. */
    const budget: nat

    ghost function Abs(): Model.Heap
      reads this
    {
      Model.Heap(blocks, flist, brk)
    }

    /** The heap invariant, with the sentinel pointers at the two ends. */
    ghost predicate Valid()
      reads this
    {
      Model.Valid(Abs()) && prologue == blocks[0].addr && epilogue == blocks[|blocks| - 1].addr
    }

    /** An allocator before mm_init: an empty region of the provider. */
    constructor (budget: nat)
      ensures this.budget == budget && blocks == [] && flist == [] && brk == 0
    {
      this.budget := budget;
      blocks, flist, brk := [], [], 0;
      prologue, epilogue := 0, 0;
    }

    /** mem_sbrk: grow the region by n bytes and return the old break, or
        fail when the provider has no more room. */
    method MemSbrk(n: nat) returns (r: Option<nat>)
      modifies this
      ensures r.None? <==> old(brk) + n > budget
      ensures r.Some? ==> r.value == old(brk) && brk == old(brk) + n
      ensures r.None? ==> brk == old(brk)
      ensures blocks == old(blocks) && flist == old(flist)
      ensures prologue == old(prologue) && epilogue == old(epilogue)
    {
      if brk + n > budget {
        r := None;
      } else {
        r := Some(brk);
        brk := brk + n;
      }
    }

    /** insert_free_block: the block at address a becomes the anchor. */
    method InsertFreeBlock(a: nat)
      modifies this
      ensures flist == Insert(old(flist), a)
      ensures blocks == old(blocks) && brk == old(brk)
      ensures prologue == old(prologue) && epilogue == old(epilogue)
    {
      flist := [a] + flist;
    }

    /** pull_free_block: unlink the block at address a. */
    method PullFreeBlock(a: nat)
      modifies this
      ensures flist == Remove(old(flist), a)
      ensures blocks == old(blocks) && brk == old(brk)
      ensures prologue == old(prologue) && epilogue == old(epilogue)
    {
      flist := Remove(flist, a);
    }

    /** mm_init: prologue, one minimum-size free block and epilogue, each
        obtained from the provider in turn; -1 when the provider refuses. */
    method MmInit() returns (r: int)
      requires brk == 0
      modifies this
      ensures r == 0 <==> budget >= 2 * TAGS_SIZE + MINBLOCKSIZE
      ensures r == 0 ==> Abs() == Model.InitialHeap() && Valid()
      ensures r != 0 ==> r == -1
    {
      flist := [];
      var p := MemSbrk(TAGS_SIZE);
      if p.None? {
        return -1;
      }
      prologue := p.value;
      blocks := [Mk(p.value, TAGS_SIZE, true)];
      var initial := MemSbrk(MINBLOCKSIZE);
      if initial.None? {
        return -1;
      }
      blocks := blocks + [Mk(initial.value, MINBLOCKSIZE, false)];
      InsertFreeBlock(initial.value);
      var e := MemSbrk(TAGS_SIZE);
      if e.None? {
        return -1;
      }
      epilogue := e.value;
      blocks := blocks + [Mk(e.value, TAGS_SIZE, true)];
      Model.InitialHeapValid();
      return 0;
    }

    /** find_fit: walk the free list from the anchor and return the first
        block of at least asize bytes. */
    method FindFit(asize: nat) returns (r: Option<nat>)
      requires Valid()
      ensures r == Model.Fit(Abs(), asize)
    {
      Model.ValidResolves(Abs());
      var k := 0;
      while k < |flist|
        invariant 0 <= k <= |flist|
        invariant Model.Resolves(blocks, flist[k..])
        invariant Model.FirstFit(blocks, flist[k..], asize) == Model.FirstFit(blocks, flist, asize)
      {
        if Model.SizeAt(blocks, flist[k]) >= asize {
          return IndexOf(blocks, flist[k]);
        }
        assert flist[k..][1..] == flist[k + 1..];
        k := k + 1;
      }
      return None;
    }

    /** place: allocate the free block i for asize bytes, splitting off a
        free remainder of at least MINBLOCKSIZE bytes. */
    method Place(i: nat, asize: nat) returns (r: Option<nat>)
      requires i < |blocks|
      modifies this
      ensures (Abs(), r) == Model.Place(old(Abs()), i, asize)
      ensures brk == old(brk) && prologue == old(prologue) && epilogue == old(epilogue)
    {
      var originalSize := blocks[i].Size();
      var a := blocks[i].addr;
      if asize < originalSize {
        var newSize := originalSize - asize;
        if newSize < MINBLOCKSIZE {
          PullFreeBlock(a);
          blocks := MarkAt(blocks, i, true);
          return Some(i);
        }
        PullFreeBlock(a);
        blocks := Split(blocks, i, asize);
        InsertFreeBlock(blocks[i].End());
        return Some(i);
      } else if asize == originalSize {
        PullFreeBlock(a);
        blocks := MarkAt(blocks, i, true);
        return Some(i);
      }
      return None;
    }

    /** coalesce: merge block i with its free neighbours; returns the index
        of the merged block. */
    method Coalesce(i: nat) returns (r: nat)
      requires 0 < i < |blocks| - 1
      modifies this
      ensures (Abs(), r) == Model.Coalesce(old(Abs()), i)
      ensures brk == old(brk) && prologue == old(prologue) && epilogue == old(epilogue)
    {
      var prevAlloc := blocks[i - 1].Allocated();
      var nextAlloc := blocks[i + 1].Allocated();
      if blocks[i].Allocated() {
        return i;
      }
      if prevAlloc && nextAlloc {
        return i;
      } else if prevAlloc && !nextAlloc {
        PullFreeBlock(blocks[i + 1].addr);
        blocks := Merge(blocks, i);
        return i;
      } else if !prevAlloc && nextAlloc {
        PullFreeBlock(blocks[i].addr);
        blocks := Merge(blocks, i - 1);
        return i - 1;
      } else {
        PullFreeBlock(blocks[i + 1].addr);
        PullFreeBlock(blocks[i].addr);
        blocks := Merge3(blocks, i - 1);
        return i - 1;
      }
    }

    /** mm_extend_heap: the old epilogue becomes a free block of n bytes,
        linked at the anchor, a new epilogue follows, and the block is
        coalesced with a free predecessor. None when the provider refuses. */
    method ExtendHeap(n: nat) returns (r: Option<nat>)
      requires Valid()
      modifies this
      ensures Model.Extend(old(Abs()), budget, n) == if r.None? then None else Some((Abs(), r.value))
      ensures r.None? ==> Abs() == old(Abs())
      ensures prologue == old(prologue) && epilogue + TAGS_SIZE == brk
    {
      ghost var h := Abs();
      var p := MemSbrk(n);
      if p.None? {
        return None;
      }
      var e := |blocks| - 1;
      var a := epilogue;
      blocks := blocks[..e] + [Mk(a, n, false)];
      InsertFreeBlock(a);
      epilogue := a + n;
      blocks := blocks + [Mk(epilogue, TAGS_SIZE, true)];
      assert blocks == Grow(h.blocks, n);
      assert Abs() == Model.Grown(h, n);
      if !blocks[e + 1].Allocated() || !blocks[e - 1].Allocated() {
        var c := Coalesce(e);
        return Some(c);
      }
      return Some(e);
    }

    /** mm_malloc: NULL for a zero request; otherwise first fit, else grow the
        heap by at least MINBLOCKSIZE bytes, then place; the payload pointer. */
    method Malloc(size: nat) returns (p: Option<nat>)
      requires Valid()
      modifies this
      ensures (Abs(), p) == Model.Malloc(old(Abs()), budget, size)
      ensures Valid()
    {
      ghost var h := Abs();
      Model.SentinelsAt(h);
      if size == 0 {
        return None;
      }
      var asize;
      if size <= TAGS_SIZE {
        asize := 2 * TAGS_SIZE;
      } else {
        asize := Align(size) + TAGS_SIZE;
      }
      assert asize == AdjustedSize(size);
      var bp := FindFit(asize);
      if bp.Some? {
        var payload := blocks[bp.value].Payload();
        var placed := Place(bp.value, asize);
        p := if placed.Some? then Some(payload) else None;
      } else {
        var extendSize := Model.Max(asize, MINBLOCKSIZE);
        var g := ExtendHeap(extendSize);
        if g.None? {
          assert Abs() == h && epilogue == blocks[|blocks| - 1].addr;
          return None;
        }
        var payload := blocks[g.value].Payload();
        var placed := Place(g.value, asize);
        p := if placed.Some? then Some(payload) else None;
      }
      assert (Abs(), p) == Model.Malloc(h, budget, size);
      assert Model.Valid(Abs()) by { Model.MallocSpec(h, budget, size); }
      Model.SentinelsAt(Abs());
    }

    /** mm_free: mark the block free, link it at the anchor, and coalesce when
        a neighbour is free. */
    method Free(ptr: nat)
      requires Valid() && Model.LivePayload(Abs(), ptr)
      modifies this
      ensures Abs() == Model.Free(old(Abs()), ptr)
      ensures Valid()
    {
      ghost var h := Abs();
      Model.FreeEndsLife(h, ptr);
      Model.SentinelsAt(h);
      var i := IndexOf(blocks, ptr - WORD_SIZE).value;
      blocks := MarkAt(blocks, i, false);
      InsertFreeBlock(blocks[i].addr);
      if !blocks[i + 1].Allocated() || !blocks[i - 1].Allocated() {
        var c := Coalesce(i);
      }
      Model.SentinelsAt(Abs());
    }

    /** mm_realloc: NULL allocates, size 0 frees and returns the pointer;
        otherwise the block is resized. */
    method Realloc(ptr: Option<nat>, size: nat) returns (r: Option<nat>)
      requires Valid() && (ptr.Some? ==> Model.LivePayload(Abs(), ptr.value))
      modifies this
      ensures (Abs(), r) == Model.Realloc(old(Abs()), budget, ptr, size)
      ensures Valid()
    {
      if ptr.None? {
        r := Malloc(size);
      } else if size == 0 {
        Free(ptr.value);
        r := ptr;
      } else {
        r := Resize(ptr.value, size);
      }
    }

    /** mm_realloc with a live pointer and a non-zero size: a block with room
        is kept, a free right neighbour that makes room is absorbed, and
        otherwise the request moves to a new block. */
    method Resize(p: nat, size: nat) returns (r: Option<nat>)
      requires Valid() && Model.LivePayload(Abs(), p) && size > 0
      modifies this
      ensures (Abs(), r) == Model.Resize(old(Abs()), budget, p, size)
      ensures Valid()
    {
      ghost var h := Abs();
      Model.SentinelsAt(h);
      var reqSize := Align(size) + TAGS_SIZE;
      var i := IndexOf(blocks, p - WORD_SIZE).value;
      var availableSize := blocks[i].Size() - TAGS_SIZE;
      var originalSize := availableSize;
      assert reqSize == Model.RequestSize(size) && i == Model.BlockOf(h, p) && originalSize == Model.PayloadSize(h, p);
      if originalSize >= reqSize {
        assert Model.Resize(h, budget, p, size) == (h, Some(p)) by { Model.ResizeInBlock(h, budget, p, size); }
        return Some(p);
      }
      if !blocks[i + 1].Allocated() {
        availableSize := availableSize + blocks[i + 1].Size();
      }
      if reqSize > availableSize {
        assert Model.Resize(h, budget, p, size) == Model.Relocate(h, budget, p, reqSize) by {
          Model.ResizeMoves(h, budget, p, size);
        }
        r := Relocate(p, reqSize);
        return;
      }
      if !blocks[i + 1].Allocated() {
        assert Model.Resize(h, budget, p, size) == (Model.Heap(Merge(h.blocks, i), Remove(h.flist, h.blocks[i + 1].addr), h.brk), Some(p)) by {
          Model.ResizeInPlace(h, budget, p, size);
        }
        ExpandInPlace(i);
      }
      return Some(p);
    }

    /** The in-place branch of mm_realloc: the allocated block i takes over its
        free right neighbour, which leaves the free list. */
    method ExpandInPlace(i: nat)
      requires Valid() && 0 < i < |blocks| - 1 && blocks[i].Allocated() && !blocks[i + 1].Allocated()
      modifies this
      ensures Abs() == Model.Heap(Merge(old(blocks), i), Remove(old(flist), old(blocks[i + 1].addr)), old(brk))
      ensures Valid()
    {
      ghost var h := Abs();
      assert Model.Valid(Model.Heap(Merge(h.blocks, i), Remove(h.flist, h.blocks[i + 1].addr), h.brk)) by {
        Model.AbsorbNext(h, i);
      }
      var fullSize := blocks[i].Size() - TAGS_SIZE + blocks[i + 1].Size();
      PullFreeBlock(blocks[i + 1].addr);
      blocks := blocks[..i] + [Mk(blocks[i].addr, fullSize + 16, true)] + blocks[i + 2..];
      assert blocks == Merge(h.blocks, i);
      Model.SentinelsAt(Abs());
    }

    /** The fallback of mm_realloc: allocate a block of reqSize bytes and free
        the old one; NULL, with the heap as it was, when the allocation fails. */
    method Relocate(p: nat, reqSize: nat) returns (r: Option<nat>)
      requires Valid() && Model.LivePayload(Abs(), p)
      modifies this
      ensures (Abs(), r) == Model.Relocate(old(Abs()), budget, p, reqSize)
      ensures Valid()
    {
      ghost var h := Abs();
      Model.MallocKeepsLive(h, budget, reqSize, p);
      assert Model.Malloc(h, budget, reqSize).1.None? ==> Model.Malloc(h, budget, reqSize).0 == h by {
        Model.MallocSpec(h, budget, reqSize);
      }
      var moved := Malloc(reqSize);
      if moved.None? {
        return None;
      }
      Free(p);
      return moved;
    }

    /** mm_check_heap: walk the blocks from the prologue, then the free list
        from its anchor, and report whether the heap is consistent, making the
        intended checks of module HeapCheck. Like the C code, a failed check
        clears ok and the walk goes on. */
    method CheckHeap() returns (ok: bool)
      ensures ok <==> Valid()
    {
      HeapCheck.CheckedIsValid(Abs());
      if |blocks| < 2 || blocks[0] != Mk(0, TAGS_SIZE, true) || prologue != blocks[0].addr {
        return false;
      }
      var last := blocks[|blocks| - 1];
      if last.header != Tag(TAGS_SIZE, true) || last.End() != brk || epilogue != last.addr {
        return false;
      }
      ok := true;
      var k := 0;
      while k < |blocks|
        invariant 0 <= k <= |blocks|
        invariant ok <==> forall j :: 0 <= j < k ==> HeapCheck.BlockChecked(Abs(), j)
      {
        var b := blocks[k];
        var good := true;
        if b.header != b.footer {
          good := false;
        }
        if 0 < k < |blocks| - 1 && (b.Size() < MINBLOCKSIZE || b.Size() % WORD_SIZE != 0) {
          good := false;
        }
        if k + 1 < |blocks| && blocks[k + 1].addr != b.End() {
          good := false;
        }
        if k + 1 < |blocks| && !b.Allocated() && !blocks[k + 1].Allocated() {
          good := false;
        }
        if !b.Allocated() && b.addr !in flist {
          good := false;
        }
        assert good <==> HeapCheck.BlockChecked(Abs(), k);
        ok := ok && good;
        k := k + 1;
      }
      var n := 0;
      while n < |flist|
        invariant 0 <= n <= |flist|
        invariant ok <==> (forall j :: 0 <= j < |blocks| ==> HeapCheck.BlockChecked(Abs(), j))
                          && forall j :: 0 <= j < n ==> HeapCheck.ListedChecked(Abs(), j)
      {
        var a := flist[n];
        var i := IndexOf(blocks, a);
        var good := true;
        if i.None? || blocks[i.value].Allocated() {
          good := false;
        }
        if a in flist[..n] {
          good := false;
        }
        assert good <==> HeapCheck.ListedChecked(Abs(), n);
        ok := ok && good;
        n := n + 1;
      }
    }
  }
}
