/** The consistency checks mm_check_heap is meant to make, block by block
    and free-list member by free-list member, and the proof that those local
    checks add up to the heap invariant. Beyond the C code they check word
    alignment, neighbouring free blocks in the walk over the blocks, and
    duplicate free-list members. */
module HeapCheck {
  import opened Blocks
  import opened FreeList
  import opened Model

  /** The sentinels: a prologue at the bottom and an epilogue ending at the break. */
  ghost predicate EndsChecked(h: Heap) {
    |h.blocks| >= 2 && h.blocks[0] == Mk(0, TAGS_SIZE, true)
    && h.blocks[|h.blocks| - 1].header == Tag(TAGS_SIZE, true)
    && h.blocks[|h.blocks| - 1].End() == h.brk
  }

  /** The intended checks of block j: its tags agree, an ordinary block is
      large enough and word aligned, the next block starts where it ends, it
      does not sit next to another free block, and if free it is on the free
      list. The C code's forward walk makes the tag, order and listing checks;
      it reports a small block without failing, and checks neither alignment
      nor free neighbours. */
  ghost predicate BlockChecked(h: Heap, j: nat)
    requires j < |h.blocks|
  {
    var bs := h.blocks;
    var b := bs[j];
    b.header == b.footer
    && (0 < j < |bs| - 1 ==> b.Size() >= MINBLOCKSIZE && b.Size() % WORD_SIZE == 0)
    && (j + 1 < |bs| ==> bs[j + 1].addr == b.End() && (b.Allocated() || bs[j + 1].Allocated()))
    && (!b.Allocated() ==> b.addr in h.flist)
  }

  /** The intended checks of free-list member k: it is a block, the block is
      free, and it has not been met before on the walk. The C code's free-list
      walk checks the tags; the duplicate check is not in it. */
  ghost predicate ListedChecked(h: Heap, k: nat)
    requires k < |h.flist|
  {
    var a := h.flist[k];
    IndexOf(h.blocks, a).Some? && !h.blocks[IndexOf(h.blocks, a).value].Allocated() && a !in h.flist[..k]
  }

  ghost predicate Checked(h: Heap) {
    EndsChecked(h)
    && (forall j :: 0 <= j < |h.blocks| ==> BlockChecked(h, j))
    && (forall k :: 0 <= k < |h.flist| ==> ListedChecked(h, k))
  }

  /** The local checks hold exactly when the heap is valid. */
  lemma {:induction false} CheckedIsValid(h: Heap)
    ensures Checked(h) <==> Valid(h)
  {
    if Checked(h) {
      CheckedValid(h);
    }
    if Valid(h) {
      ValidChecked(h);
    }
  }

  lemma {:induction false} CheckedValid(h: Heap)
    requires Checked(h)
    ensures Valid(h)
  {
    var bs, fl := h.blocks, h.flist;
    assert BlocksOk(bs, h.brk) by {
      forall j | 0 < j < |bs| - 1 ensures InteriorOk(bs[j]) { assert BlockChecked(h, j); }
      forall j | 0 <= j < |bs| - 1 ensures bs[j + 1].addr == bs[j].End() { assert BlockChecked(h, j); }
      assert BlockChecked(h, |bs| - 1);
    }
    assert NoAdjacentFree(bs) by {
      forall j | 0 <= j < |bs| - 1 ensures bs[j].Allocated() || bs[j + 1].Allocated() { assert BlockChecked(h, j); }
    }
    assert NoDup(fl) by {
      forall i, j | 0 <= i < j < |fl| ensures fl[i] != fl[j] {
        assert ListedChecked(h, j);
        assert fl[i] == fl[..j][i];
      }
    }
    forall a ensures a in fl <==> a in FreeAddrs(bs) {
      if a in fl {
        var k :| 0 <= k < |fl| && fl[k] == a;
        assert ListedChecked(h, k);
        FreeAddrsHas(bs, IndexOf(bs, a).value);
      }
      if a in FreeAddrs(bs) {
        var j := FreeAddrsWitness(bs, a);
        assert BlockChecked(h, j);
      }
    }
  }

  lemma {:induction false} ValidChecked(h: Heap)
    requires Valid(h)
    ensures Checked(h)
  {
    var bs, fl := h.blocks, h.flist;
    forall j | 0 <= j < |bs| ensures BlockChecked(h, j) {
      if 0 < j < |bs| - 1 { assert InteriorOk(bs[j]); }
      if !bs[j].Allocated() { FreeIsListed(h, j); }
    }
    forall k | 0 <= k < |fl| ensures ListedChecked(h, k) {
      ListedIsFree(h, fl[k]);
      forall i | 0 <= i < k ensures fl[..k][i] != fl[k] {
        assert fl[..k][i] == fl[i];
      }
    }
  }
}
