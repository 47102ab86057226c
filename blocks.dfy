/** Block layout: boundary-tagged blocks laid out contiguously in the heap.
    A block is identified by its address (the offset of its header tag from
    the low end of the heap); its size and allocated bit are recorded twice,
    in the header tag and in the footer tag. */
module Blocks {

  datatype Option<T> = None | Some(value: T)

  /** The platform word; alignment unit of every block size (a power of two). */
  const WORD_SIZE: nat := 8
  /** Header tag plus footer tag. */
  const TAGS_SIZE: nat := 2 * WORD_SIZE
  /** Tags plus the two free-list links kept in a free block's payload. */
  const MINBLOCKSIZE: nat := TAGS_SIZE + 2 * WORD_SIZE

  /** A boundary tag: a size and one allocated bit. */
  datatype Tag = Tag(size: nat, alloc: bool)

  datatype Block = Block(addr: nat, header: Tag, footer: Tag) {
    /** block_size: read from the header tag. */
    function Size(): nat { header.size }
    /** block_allocated: read from the header tag. */
    predicate Allocated() { header.alloc }
    /** Address one past the block, i.e. the address of block_next. */
    function End(): nat { addr + header.size }
    /** The payload begins right after the header tag. */
    function Payload(): nat { addr + WORD_SIZE }
  }

  /** block_set_size_and_allocated: both tags written with the same values. */
  function Mk(addr: nat, size: nat, alloc: bool): Block {
    Block(addr, Tag(size, alloc), Tag(size, alloc))
  }

  /** Each block starts where the previous one ends. */
  ghost predicate Contiguous(bs: seq<Block>) {
    forall i :: 0 <= i < |bs| - 1 ==> bs[i + 1].addr == bs[i].End()
  }

  /** A contiguous run of non-empty blocks. */
  ghost predicate Chain(bs: seq<Block>) {
    Contiguous(bs) && forall i :: 0 <= i < |bs| ==> bs[i].Size() > 0
  }

  ghost predicate IsPrologue(b: Block) { b == Mk(0, TAGS_SIZE, true) }

  ghost predicate IsEpilogue(b: Block) { b.header == Tag(TAGS_SIZE, true) && b.footer == b.header }

  /** An ordinary (non-sentinel) block: tags agree, at least the minimum size, word aligned. */
  ghost predicate InteriorOk(b: Block) {
    b.header == b.footer && b.Size() >= MINBLOCKSIZE && b.Size() % WORD_SIZE == 0
  }

  /** The blocks tile the heap [0, brk) exactly, from the prologue to the epilogue. */
  ghost predicate BlocksOk(bs: seq<Block>, brk: nat) {
    |bs| >= 2 && IsPrologue(bs[0]) && IsEpilogue(bs[|bs| - 1])
    && (forall i :: 0 < i < |bs| - 1 ==> InteriorOk(bs[i]))
    && Contiguous(bs) && bs[|bs| - 1].End() == brk
  }

  /** No two neighbouring blocks are both free. */
  ghost predicate NoAdjacentFree(bs: seq<Block>) {
    forall j :: 0 <= j < |bs| - 1 ==> bs[j].Allocated() || bs[j + 1].Allocated()
  }

  /** No two neighbouring blocks are both free, except possibly around block i. */
  ghost predicate NoAdjacentFreeExcept(bs: seq<Block>, i: nat) {
    forall j :: 0 <= j < |bs| - 1 && j != i && j + 1 != i ==> bs[j].Allocated() || bs[j + 1].Allocated()
  }

  /** The addresses of the free blocks. */
  ghost function FreeAddrs(bs: seq<Block>): set<nat> {
    if bs == [] then {}
    else (if bs[0].Allocated() then {} else {bs[0].addr}) + FreeAddrs(bs[1..])
  }

  /** The total size of a run of blocks. */
  function SpanSize(bs: seq<Block>): nat {
    if bs == [] then 0 else bs[0].Size() + SpanSize(bs[1..])
  }

  /** payload_to_block and friends: the arena index of the block at address a. */
  function IndexOf(bs: seq<Block>, a: nat): (r: Option<nat>)
    ensures r.Some? ==> r.value < |bs| && bs[r.value].addr == a
    ensures r.None? ==> forall i :: 0 <= i < |bs| ==> bs[i].addr != a
  {
    if |bs| == 0 then None
    else if bs[|bs| - 1].addr == a then Some(|bs| - 1)
    else IndexOf(bs[..|bs| - 1], a)
  }

  /** The block at index i is marked allocated or free (block_set_allocated). */
  function MarkAt(bs: seq<Block>, i: nat, alloc: bool): seq<Block>
    requires i < |bs|
  {
    bs[..i] + [Mk(bs[i].addr, bs[i].Size(), alloc)] + bs[i + 1..]
  }

  /** Marking block i leaves every other block as it was. */
  lemma {:induction false} MarkAtOther(bs: seq<Block>, i: nat, alloc: bool, j: nat)
    requires i < |bs| && j < |bs| && j != i
    ensures |MarkAt(bs, i, alloc)| == |bs| && MarkAt(bs, i, alloc)[j] == bs[j]
  {
    if j < i { assert MarkAt(bs, i, alloc)[j] == bs[..i][j]; }
    else { assert MarkAt(bs, i, alloc)[j] == bs[i + 1..][j - i - 1]; }
  }

  /** A merge at i leaves the blocks before i in place and shifts those after i + 1 down by one. */
  lemma {:induction false} MergeOther(bs: seq<Block>, i: nat, j: nat)
    requires i + 1 < |bs| && j < |bs| && j != i && j != i + 1
    ensures |Merge(bs, i)| == |bs| - 1
    ensures j < i ==> Merge(bs, i)[j] == bs[j]
    ensures j > i + 1 ==> Merge(bs, i)[j - 1] == bs[j]
  {
    if j < i { assert Merge(bs, i)[j] == bs[..i][j]; }
    else { assert Merge(bs, i)[j - 1] == bs[i + 2..][j - i - 2]; }
  }

  /** The block at index i is cut into an allocated block of size asize and a free remainder. */
  function Split(bs: seq<Block>, i: nat, asize: nat): seq<Block>
    requires i < |bs| && asize < bs[i].Size()
  {
    bs[..i] + [Mk(bs[i].addr, asize, true), Mk(bs[i].addr + asize, bs[i].Size() - asize, false)] + bs[i + 1..]
  }

  /** The block at index i absorbs its successor, keeping its own allocated bit (block_set_size). */
  function Merge(bs: seq<Block>, i: nat): seq<Block>
    requires i + 1 < |bs|
  {
    bs[..i] + [Mk(bs[i].addr, bs[i].Size() + bs[i + 1].Size(), bs[i].Allocated())] + bs[i + 2..]
  }

  /** The block at index i absorbs its two successors. */
  function Merge3(bs: seq<Block>, i: nat): seq<Block>
    requires i + 2 < |bs|
  {
    bs[..i] + [Mk(bs[i].addr, bs[i].Size() + bs[i + 1].Size() + bs[i + 2].Size(), bs[i].Allocated())] + bs[i + 3..]
  }

  /** The heap grows by n bytes: the old epilogue becomes a free block of n
      bytes and a new epilogue follows it. */
  function Grow(bs: seq<Block>, n: nat): seq<Block>
    requires |bs| >= 1
  {
    bs[..|bs| - 1] + [Mk(bs[|bs| - 1].addr, n, false), Mk(bs[|bs| - 1].addr + n, TAGS_SIZE, true)]
  }

  // ---------------------------------------------------------------------------
  // Lemmas about the layout

  lemma {:induction false} BlocksOkChain(bs: seq<Block>, brk: nat)
    requires BlocksOk(bs, brk)
    ensures Chain(bs)
  {
    forall i | 0 <= i < |bs| ensures bs[i].Size() > 0 {
      if 0 < i < |bs| - 1 { assert InteriorOk(bs[i]); }
    }
  }

  /** In a chain, a block lies entirely below every later block. */
  lemma {:induction false} Ordered(bs: seq<Block>, i: nat, j: nat)
    requires Chain(bs) && i < j < |bs|
    ensures bs[i].End() <= bs[j].addr
    decreases j - i
  {
    if j > i + 1 {
      Ordered(bs, i, j - 1);
      assert bs[j].addr == bs[j - 1].End();
    }
  }

  /** In a chain, addresses identify blocks. */
  lemma {:induction false} UniqueIndex(bs: seq<Block>, i: nat)
    requires Chain(bs) && i < |bs|
    ensures IndexOf(bs, bs[i].addr) == Some(i)
  {
    var r := IndexOf(bs, bs[i].addr);
    assert r.Some?;
    if r.value < i { Ordered(bs, r.value, i); }
    else if r.value > i { Ordered(bs, i, r.value); }
  }

  /** An address strictly inside block i is the address of no block. */
  lemma {:induction false} InsideIsNoBlock(bs: seq<Block>, i: nat, x: nat)
    requires Chain(bs) && i < |bs| && bs[i].addr < x < bs[i].End()
    ensures IndexOf(bs, x).None?
  {
    forall j | 0 <= j < |bs| ensures bs[j].addr != x {
      if j < i { Ordered(bs, j, i); } else if j > i { Ordered(bs, i, j); }
    }
  }

  lemma {:induction false} FreeAddrsConcat(a: seq<Block>, b: seq<Block>)
    ensures FreeAddrs(a + b) == FreeAddrs(a) + FreeAddrs(b)
  {
    if a == [] {
      assert a + b == b;
    } else {
      assert (a + b)[1..] == a[1..] + b;
      FreeAddrsConcat(a[1..], b);
    }
  }

  /** Every free address belongs to a free block. */
  lemma {:induction false} FreeAddrsWitness(bs: seq<Block>, x: nat) returns (i: nat)
    requires x in FreeAddrs(bs)
    ensures i < |bs| && bs[i].addr == x && !bs[i].Allocated()
  {
    if !bs[0].Allocated() && bs[0].addr == x {
      i := 0;
    } else {
      var k := FreeAddrsWitness(bs[1..], x);
      i := k + 1;
    }
  }

  /** Every free block contributes its address. */
  lemma {:induction false} FreeAddrsHas(bs: seq<Block>, i: nat)
    requires i < |bs| && !bs[i].Allocated()
    ensures bs[i].addr in FreeAddrs(bs)
  {
    if i > 0 { FreeAddrsHas(bs[1..], i - 1); }
  }

  /** For a tiled heap: a block's address is free exactly when the block is free. */
  lemma {:induction false} FreeAddrsAt(bs: seq<Block>, i: nat)
    requires Chain(bs) && i < |bs|
    ensures bs[i].addr in FreeAddrs(bs) <==> !bs[i].Allocated()
  {
    if !bs[i].Allocated() {
      FreeAddrsHas(bs, i);
    } else if bs[i].addr in FreeAddrs(bs) {
      var j := FreeAddrsWitness(bs, bs[i].addr);
      UniqueIndex(bs, j);
      UniqueIndex(bs, i);
    }
  }

  /** Free addresses of a single block. */
  lemma {:induction false} FreeAddrsOne(b: Block)
    ensures FreeAddrs([b]) == if b.Allocated() then {} else {b.addr}
  {
    assert [b][1..] == [];
  }

  /** Free addresses of concrete short runs. */
  lemma {:induction false} FreeAddrsTwo(b: Block, c: Block)
    ensures FreeAddrs([b, c]) == FreeAddrs([b]) + FreeAddrs([c])
  {
    FreeAddrsConcat([b], [c]);
    assert [b] + [c] == [b, c];
  }

  lemma {:induction false} FreeAddrsThree(b: Block, c: Block, d: Block)
    ensures FreeAddrs([b, c, d]) == FreeAddrs([b]) + FreeAddrs([c]) + FreeAddrs([d])
  {
    FreeAddrsConcat([b], [c, d]);
    assert [b] + [c, d] == [b, c, d];
    FreeAddrsTwo(c, d);
  }

  /** Free addresses lie within the span of the blocks. */
  lemma {:induction false} FreeAddrsWithin(bs: seq<Block>, x: nat)
    requires Chain(bs) && |bs| > 0 && x in FreeAddrs(bs)
    ensures bs[0].addr <= x < bs[|bs| - 1].End()
  {
    var j := FreeAddrsWitness(bs, x);
    if j > 0 { Ordered(bs, 0, j); }
    if j < |bs| - 1 { Ordered(bs, j, |bs| - 1); }
  }

  /** Replacing the interior run bs[lo..hi] by another run m covering the same
      bytes keeps the heap tiled from the prologue to the epilogue. */
  lemma {:induction false} ReplaceOk(bs: seq<Block>, brk: nat, lo: nat, hi: nat, m: seq<Block>)
    requires BlocksOk(bs, brk) && 0 < lo < hi < |bs|
    requires |m| > 0 && Contiguous(m) && m[0].addr == bs[lo].addr && m[|m| - 1].End() == bs[hi - 1].End()
    requires forall k :: 0 <= k < |m| ==> InteriorOk(m[k])
    ensures BlocksOk(bs[..lo] + m + bs[hi..], brk)
  {
    var nb := bs[..lo] + m + bs[hi..];
    var d := |m| - (hi - lo);
    assert |nb| == |bs| + d;
    forall j | 0 <= j < |nb| - 1 ensures nb[j + 1].addr == nb[j].End() {
      if j + 1 < lo {
        assert nb[j] == bs[j] && nb[j + 1] == bs[j + 1];
      } else if j + 1 == lo {
        assert nb[j] == bs[lo - 1] && nb[j + 1] == m[0];
      } else if j + 1 < lo + |m| {
        assert nb[j] == m[j - lo] && nb[j + 1] == m[j + 1 - lo];
      } else if j + 1 == lo + |m| {
        assert nb[j] == m[|m| - 1] && nb[j + 1] == bs[hi];
      } else {
        assert nb[j] == bs[j - d] && nb[j + 1] == bs[j + 1 - d];
      }
    }
    forall j | 0 < j < |nb| - 1 ensures InteriorOk(nb[j]) {
      if j < lo { assert nb[j] == bs[j]; }
      else if j < lo + |m| { assert nb[j] == m[j - lo]; }
      else { assert nb[j] == bs[j - d]; }
    }
    assert nb[0] == bs[0];
    assert nb[|nb| - 1] == bs[|bs| - 1];
  }

  lemma {:induction false} ChainSlice(bs: seq<Block>, lo: nat, hi: nat)
    requires Chain(bs) && lo <= hi <= |bs|
    ensures Chain(bs[lo..hi])
  {
    var s := bs[lo..hi];
    forall k | 0 <= k < |s| - 1 ensures s[k + 1].addr == s[k].End() {
      assert s[k] == bs[lo + k] && s[k + 1] == bs[lo + k + 1];
    }
  }

  /** Free addresses of a run all lie within the bytes [lo, hi). */
  lemma {:induction false} FreeAddrsIn(bs: seq<Block>, lo: nat, hi: nat)
    requires Chain(bs) && |bs| > 0 && bs[0].addr == lo && bs[|bs| - 1].End() == hi
    ensures forall x :: x in FreeAddrs(bs) ==> lo <= x < hi
  {
    forall x | x in FreeAddrs(bs) ensures lo <= x < hi { FreeAddrsWithin(bs, x); }
  }

  lemma {:induction false} FreeAddrsConcat3(a: seq<Block>, b: seq<Block>, c: seq<Block>)
    ensures FreeAddrs(a + b + c) == FreeAddrs(a) + FreeAddrs(b) + FreeAddrs(c)
  {
    FreeAddrsConcat(a + b, c);
    FreeAddrsConcat(a, b);
  }

  /** In a chain, the free addresses below, inside and above the run bs[lo..hi] are disjoint. */
  lemma {:induction false} RunSeparates(bs: seq<Block>, lo: nat, hi: nat)
    requires Chain(bs) && 0 < lo < hi < |bs|
    ensures FreeAddrs(bs[..lo]) * FreeAddrs(bs[lo..hi]) == {}
    ensures FreeAddrs(bs[hi..]) * FreeAddrs(bs[lo..hi]) == {}
  {
    var pre, mid, post := bs[..lo], bs[lo..hi], bs[hi..];
    assert forall x :: x in FreeAddrs(pre) ==> x < bs[lo].addr by {
      ChainSlice(bs, 0, lo);
      Ordered(bs, lo - 1, lo);
      assert pre[0] == bs[0] && pre[|pre| - 1] == bs[lo - 1];
      FreeAddrsIn(pre, bs[0].addr, bs[lo - 1].End());
    }
    assert forall x :: x in FreeAddrs(mid) ==> bs[lo].addr <= x < bs[hi].addr by {
      ChainSlice(bs, lo, hi);
      assert mid[0] == bs[lo] && mid[|mid| - 1] == bs[hi - 1];
      FreeAddrsIn(mid, bs[lo].addr, bs[hi - 1].End());
    }
    assert forall x :: x in FreeAddrs(post) ==> bs[hi].addr <= x by {
      ChainSlice(bs, hi, |bs|);
      assert post[0] == bs[hi] && post[|post| - 1] == bs[|bs| - 1];
      FreeAddrsIn(post, bs[hi].addr, bs[|bs| - 1].End());
    }
  }

  /** ... and the free addresses change only inside the replaced run. */
  lemma {:induction false} ReplaceFreeAddrs(bs: seq<Block>, lo: nat, hi: nat, m: seq<Block>)
    requires Chain(bs) && 0 < lo < hi < |bs|
    requires |m| > 0 && Chain(m) && m[0].addr == bs[lo].addr && m[|m| - 1].End() == bs[hi - 1].End()
    ensures FreeAddrs(bs[..lo] + m + bs[hi..]) == FreeAddrs(bs) - FreeAddrs(bs[lo..hi]) + FreeAddrs(m)
  {
    var pre, mid, post := bs[..lo], bs[lo..hi], bs[hi..];
    assert bs == pre + mid + post;
    FreeAddrsConcat3(pre, mid, post);
    FreeAddrsConcat3(pre, m, post);
    RunSeparates(bs, lo, hi);
  }

  /** The no-adjacent-free property of a replaced run follows from that of its
      parts and of the two seams. */
  lemma {:induction false} ReplaceNoAdjacent(bs: seq<Block>, lo: nat, hi: nat, m: seq<Block>)
    requires 0 < lo < hi < |bs| && |m| > 0
    requires forall j :: 0 <= j < lo - 1 ==> bs[j].Allocated() || bs[j + 1].Allocated()
    requires forall j :: hi <= j < |bs| - 1 ==> bs[j].Allocated() || bs[j + 1].Allocated()
    requires NoAdjacentFree(m)
    requires bs[lo - 1].Allocated() || m[0].Allocated()
    requires m[|m| - 1].Allocated() || bs[hi].Allocated()
    ensures NoAdjacentFree(bs[..lo] + m + bs[hi..])
  {
    var nb := bs[..lo] + m + bs[hi..];
    var d := |m| - (hi - lo);
    forall j | 0 <= j < |nb| - 1 ensures nb[j].Allocated() || nb[j + 1].Allocated() {
      if j + 1 < lo {
        assert nb[j] == bs[j] && nb[j + 1] == bs[j + 1];
      } else if j + 1 == lo {
        assert nb[j] == bs[lo - 1] && nb[j + 1] == m[0];
      } else if j + 1 < lo + |m| {
        assert nb[j] == m[j - lo] && nb[j + 1] == m[j + 1 - lo];
      } else if j + 1 == lo + |m| {
        assert nb[j] == m[|m| - 1] && nb[j + 1] == bs[hi];
      } else {
        assert nb[j] == bs[j - d] && nb[j + 1] == bs[j + 1 - d];
      }
    }
  }

  /** Every allocated ordinary block of bs is still an allocated ordinary block of nb. */
  ghost predicate KeepsAllocated(bs: seq<Block>, nb: seq<Block>) {
    |bs| >= 2 && |nb| >= 2 &&
    forall b :: b in bs[1..|bs| - 1] && b.Allocated() ==> b in nb[1..|nb| - 1]
  }

  /** Replacing a run of free blocks disturbs no allocated block. */
  lemma {:induction false} ReplaceKeeps(bs: seq<Block>, lo: nat, hi: nat, m: seq<Block>)
    requires 0 < lo < hi < |bs|
    requires forall j :: lo <= j < hi ==> !bs[j].Allocated()
    ensures KeepsAllocated(bs, bs[..lo] + m + bs[hi..])
  {
    var nb := bs[..lo] + m + bs[hi..];
    var d := |m| - (hi - lo);
    forall b | b in bs[1..|bs| - 1] && b.Allocated() ensures b in nb[1..|nb| - 1] {
      var j :| 1 <= j < |bs| - 1 && bs[j] == b;
      if j < lo {
        assert nb[1..|nb| - 1][j - 1] == b;
      } else {
        assert j >= hi;
        assert nb[1..|nb| - 1][j + d - 1] == b;
      }
    }
  }

  /** A kept block can be found again by its address. */
  lemma {:induction false} KeptIndex(nb: seq<Block>, b: Block)
    requires Chain(nb) && |nb| >= 2 && b in nb[1..|nb| - 1]
    ensures IndexOf(nb, b.addr).Some?
    ensures 0 < IndexOf(nb, b.addr).value < |nb| - 1 && nb[IndexOf(nb, b.addr).value] == b
  {
    var k :| 0 <= k < |nb| - 2 && nb[1..|nb| - 1][k] == b;
    assert nb[k + 1] == b;
    UniqueIndex(nb, k + 1);
  }

  /** The two pieces of a cut are sound blocks that tile the original. */
  lemma {:induction false} CutPiecesOk(b: Block, asize: nat)
    requires InteriorOk(b) && asize >= MINBLOCKSIZE && asize % WORD_SIZE == 0 && b.Size() >= asize + MINBLOCKSIZE
    ensures var m := [Mk(b.addr, asize, true), Mk(b.addr + asize, b.Size() - asize, false)];
      Contiguous(m) && m[0].addr == b.addr && m[1].End() == b.End()
      && forall k :: 0 <= k < |m| ==> InteriorOk(m[k])
  {
    var m := [Mk(b.addr, asize, true), Mk(b.addr + asize, b.Size() - asize, false)];
    assert InteriorOk(m[0]);
    assert InteriorOk(m[1]) by {
      assert b.Size() == b.Size() / WORD_SIZE * WORD_SIZE && asize == asize / WORD_SIZE * WORD_SIZE;
      assert b.Size() - asize == (b.Size() / WORD_SIZE - asize / WORD_SIZE) * WORD_SIZE;
    }
  }

  lemma {:induction false} SplitLayoutOk(bs: seq<Block>, brk: nat, i: nat, asize: nat)
    requires BlocksOk(bs, brk) && 0 < i < |bs| - 1
    requires asize >= MINBLOCKSIZE && asize % WORD_SIZE == 0 && bs[i].Size() >= asize + MINBLOCKSIZE
    ensures BlocksOk(Split(bs, i, asize), brk)
  {
    var b := bs[i];
    var m := [Mk(b.addr, asize, true), Mk(b.addr + asize, b.Size() - asize, false)];
    assert Split(bs, i, asize) == bs[..i] + m + bs[i + 1..];
    assert InteriorOk(b);
    CutPiecesOk(b, asize);
    ReplaceOk(bs, brk, i, i + 1, m);
  }

  /** Cutting a free interior block into an allocated block of asize bytes and
      a free remainder of at least MINBLOCKSIZE keeps the layout sound and moves
      no allocated block. */
  lemma {:induction false} SplitOk(bs: seq<Block>, brk: nat, i: nat, asize: nat)
    requires BlocksOk(bs, brk) && NoAdjacentFree(bs) && 0 < i < |bs| - 1 && !bs[i].Allocated()
    requires asize >= MINBLOCKSIZE && asize % WORD_SIZE == 0 && bs[i].Size() >= asize + MINBLOCKSIZE
    ensures BlocksOk(Split(bs, i, asize), brk) && NoAdjacentFree(Split(bs, i, asize))
    ensures KeepsAllocated(bs, Split(bs, i, asize))
  {
    var b := bs[i];
    var m := [Mk(b.addr, asize, true), Mk(b.addr + asize, b.Size() - asize, false)];
    var nb := bs[..i] + m + bs[i + 1..];
    assert Split(bs, i, asize) == nb;
    SplitLayoutOk(bs, brk, i, asize);
    assert NoAdjacentFree(nb) by {
      assert bs[i + 1].Allocated();
      ReplaceNoAdjacent(bs, i, i + 1, m);
    }
    assert KeepsAllocated(bs, nb) by {
      ReplaceKeeps(bs, i, i + 1, m);
    }
  }

  /** After the cut, the remainder is the only new free address. */
  lemma {:induction false} SplitFreeAddrs(bs: seq<Block>, i: nat, asize: nat)
    requires Chain(bs) && 0 < i < |bs| - 1 && !bs[i].Allocated() && 0 < asize < bs[i].Size()
    ensures FreeAddrs(Split(bs, i, asize)) == FreeAddrs(bs) - {bs[i].addr} + {bs[i].addr + asize}
  {
    var b := bs[i];
    var m := [Mk(b.addr, asize, true), Mk(b.addr + asize, b.Size() - asize, false)];
    assert Split(bs, i, asize) == bs[..i] + m + bs[i + 1..];
    assert FreeAddrs(m) == {b.addr + asize} by {
      FreeAddrsTwo(m[0], m[1]);
      FreeAddrsOne(m[0]);
      FreeAddrsOne(m[1]);
    }
    assert FreeAddrs(bs[i..i + 1]) == {b.addr} by {
      assert bs[i..i + 1] == [b];
      FreeAddrsOne(b);
    }
    ReplaceFreeAddrs(bs, i, i + 1, m);
  }

  /** Allocating a free interior block whole keeps the layout sound and moves
      no allocated block. */
  lemma {:induction false} MarkAllocatedOk(bs: seq<Block>, brk: nat, i: nat)
    requires BlocksOk(bs, brk) && NoAdjacentFree(bs) && 0 < i < |bs| - 1 && !bs[i].Allocated()
    ensures BlocksOk(MarkAt(bs, i, true), brk) && NoAdjacentFree(MarkAt(bs, i, true))
    ensures KeepsAllocated(bs, MarkAt(bs, i, true))
  {
    var b := bs[i];
    var m := [Mk(b.addr, b.Size(), true)];
    var nb := bs[..i] + m + bs[i + 1..];
    assert MarkAt(bs, i, true) == nb;
    assert BlocksOk(nb, brk) by {
      assert InteriorOk(b);
      ReplaceOk(bs, brk, i, i + 1, m);
    }
    assert NoAdjacentFree(nb) by {
      ReplaceNoAdjacent(bs, i, i + 1, m);
    }
    assert KeepsAllocated(bs, nb) by {
      ReplaceKeeps(bs, i, i + 1, m);
    }
  }

  /** Setting the allocated bit of block i changes only its membership among
      the free addresses. */
  lemma {:induction false} MarkFreeAddrs(bs: seq<Block>, i: nat, alloc: bool)
    requires Chain(bs) && 0 < i < |bs| - 1
    ensures FreeAddrs(MarkAt(bs, i, alloc)) == FreeAddrs(bs) - {bs[i].addr} + (if alloc then {} else {bs[i].addr})
  {
    var b := bs[i];
    var m := [Mk(b.addr, b.Size(), alloc)];
    assert MarkAt(bs, i, alloc) == bs[..i] + m + bs[i + 1..];
    assert FreeAddrs(m) == (if alloc then {} else {b.addr}) by { FreeAddrsOne(m[0]); }
    assert FreeAddrs(bs[i..i + 1]) == (if b.Allocated() then {} else {b.addr}) by {
      assert bs[i..i + 1] == [b];
      FreeAddrsOne(b);
    }
    assert Chain(m);
    FreeAddrsAt(bs, i);
    ReplaceFreeAddrs(bs, i, i + 1, m);
  }

  /** Growing by a legal block size keeps the heap tiled up to the new break,
      leaves every allocated block in place, and can create adjacent free
      blocks only around the new block. */
  lemma {:induction false} GrowOk(bs: seq<Block>, brk: nat, n: nat)
    requires BlocksOk(bs, brk) && NoAdjacentFree(bs) && n >= MINBLOCKSIZE && n % WORD_SIZE == 0
    ensures BlocksOk(Grow(bs, n), brk + n) && NoAdjacentFreeExcept(Grow(bs, n), |bs| - 1)
    ensures KeepsAllocated(bs, Grow(bs, n))
  {
    var e := |bs| - 1;
    var nb := Grow(bs, n);
    assert |nb| == |bs| + 1;
    forall j | 0 <= j < |nb| - 1 ensures nb[j + 1].addr == nb[j].End() {
      if j + 1 < e { assert nb[j] == bs[j] && nb[j + 1] == bs[j + 1]; }
    }
    forall j | 0 < j < |nb| - 1 ensures InteriorOk(nb[j]) {
      if j < e { assert nb[j] == bs[j]; }
    }
    assert nb[0] == bs[0];
    forall j | 0 <= j < |nb| - 1 && j != e && j + 1 != e ensures nb[j].Allocated() || nb[j + 1].Allocated() {
      assert nb[j] == bs[j] && nb[j + 1] == bs[j + 1];
    }
    forall b | b in bs[1..e] && b.Allocated() ensures b in nb[1..|nb| - 1] {
      var j :| 1 <= j < e && bs[j] == b;
      assert nb[j] == b;
    }
  }

  /** Growing adds exactly the new block's address to the free ones. */
  lemma {:induction false} FreeAddrsSnoc(bs: seq<Block>)
    requires |bs| >= 1
    ensures FreeAddrs(bs) == FreeAddrs(bs[..|bs| - 1]) + FreeAddrs([bs[|bs| - 1]])
  {
    assert bs == bs[..|bs| - 1] + [bs[|bs| - 1]];
    FreeAddrsConcat(bs[..|bs| - 1], [bs[|bs| - 1]]);
  }

  lemma {:induction false} GrowFreeAddrs(bs: seq<Block>, n: nat)
    requires |bs| >= 1 && bs[|bs| - 1].Allocated()
    ensures FreeAddrs(Grow(bs, n)) == FreeAddrs(bs) + {bs[|bs| - 1].addr}
  {
    var pre, last := bs[..|bs| - 1], bs[|bs| - 1];
    var b0, b1 := Mk(last.addr, n, false), Mk(last.addr + n, TAGS_SIZE, true);
    assert Grow(bs, n) == pre + [b0, b1];
    assert FreeAddrs(bs) == FreeAddrs(pre) by {
      FreeAddrsSnoc(bs);
      FreeAddrsOne(last);
    }
    assert FreeAddrs([b0, b1]) == {last.addr} by {
      FreeAddrsTwo(b0, b1);
      FreeAddrsOne(b0);
      FreeAddrsOne(b1);
    }
    FreeAddrsConcat(pre, [b0, b1]);
  }

  /** Marking an allocated interior block free keeps the layout sound; only its
      own neighbours may now be free next to it. */
  lemma {:induction false} MarkFreeOk(bs: seq<Block>, brk: nat, i: nat)
    requires BlocksOk(bs, brk) && NoAdjacentFree(bs) && 0 < i < |bs| - 1
    ensures BlocksOk(MarkAt(bs, i, false), brk) && NoAdjacentFreeExcept(MarkAt(bs, i, false), i)
  {
    var b := bs[i];
    var m := [Mk(b.addr, b.Size(), false)];
    var nb := MarkAt(bs, i, false);
    assert nb == bs[..i] + m + bs[i + 1..];
    assert BlocksOk(nb, brk) by {
      assert InteriorOk(b);
      ReplaceOk(bs, brk, i, i + 1, m);
    }
    forall j | 0 <= j < |nb| - 1 && j != i && j + 1 != i ensures nb[j].Allocated() || nb[j + 1].Allocated() {
      assert nb[j] == bs[j] && nb[j + 1] == bs[j + 1];
    }
  }

  /** An allocated block absorbing its free successor keeps the layout sound
      and the heap free of adjacent free blocks. */
  lemma {:induction false} AbsorbOk(bs: seq<Block>, brk: nat, i: nat)
    requires BlocksOk(bs, brk) && NoAdjacentFree(bs) && 0 < i && i + 1 < |bs| - 1
    requires bs[i].Allocated() && !bs[i + 1].Allocated()
    ensures BlocksOk(Merge(bs, i), brk) && NoAdjacentFree(Merge(bs, i))
  {
    var mb := Mk(bs[i].addr, bs[i].Size() + bs[i + 1].Size(), true);
    var nb := bs[..i] + [mb] + bs[i + 2..];
    assert Merge(bs, i) == nb;
    assert BlocksOk(nb, brk) by {
      assert InteriorOk(bs[i]) && InteriorOk(bs[i + 1]);
      ReplaceOk(bs, brk, i, i + 2, [mb]);
    }
    assert NoAdjacentFree(nb) by {
      ReplaceNoAdjacent(bs, i, i + 2, [mb]);
    }
  }

  /** ... and its successor's address is no longer free. */
  lemma {:induction false} AbsorbFreeAddrs(bs: seq<Block>, i: nat)
    requires Chain(bs) && 0 < i && i + 1 < |bs| - 1 && bs[i].Allocated() && !bs[i + 1].Allocated()
    ensures FreeAddrs(Merge(bs, i)) == FreeAddrs(bs) - {bs[i + 1].addr}
  {
    var mb := Mk(bs[i].addr, bs[i].Size() + bs[i + 1].Size(), true);
    assert Merge(bs, i) == bs[..i] + [mb] + bs[i + 2..];
    assert FreeAddrs(bs[i..i + 2]) == {bs[i + 1].addr} by {
      assert bs[i..i + 2] == [bs[i], bs[i + 1]];
      FreeAddrsTwo(bs[i], bs[i + 1]);
      FreeAddrsOne(bs[i]);
      FreeAddrsOne(bs[i + 1]);
    }
    FreeAddrsOne(mb);
    ReplaceFreeAddrs(bs, i, i + 2, [mb]);
  }
}
