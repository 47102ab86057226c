/** Size translation: rounding to the word size and turning a payload request
    into a block size. */
module Sizes {
  import opened Blocks

  /** The range of size_t. */
  const SIZE_LIMIT: nat := 0x1_0000_0000_0000_0000

  /** align: round up to a multiple of WORD_SIZE. Since WORD_SIZE is a power of
      two, masking off the low bits is rounding down to a multiple of it. */
  function Align(n: nat): (r: nat)
    ensures r % WORD_SIZE == 0
    ensures n <= r < n + WORD_SIZE
  {
    (n + WORD_SIZE - 1) / WORD_SIZE * WORD_SIZE
  }

  /** align returns the least multiple of WORD_SIZE that is at least n. */
  lemma {:induction false} AlignIsLeast(n: nat, m: nat)
    requires m % WORD_SIZE == 0 && n <= m
    ensures Align(n) <= m
  {
    var q := m / WORD_SIZE;
    assert m == q * WORD_SIZE;
    assert (n + WORD_SIZE - 1) / WORD_SIZE <= q;
  }

  /** The block size mm_malloc asks for: two tags' worth for requests that fit
      in the tag overhead, otherwise the aligned request plus one tag's worth. */
  function AdjustedSize(size: nat): (asize: nat)
    ensures size <= asize - TAGS_SIZE
    ensures asize >= MINBLOCKSIZE && asize % WORD_SIZE == 0
  {
    if size <= TAGS_SIZE then 2 * TAGS_SIZE else Align(size) + TAGS_SIZE
  }

  /** align as the C code computes it, in size_t arithmetic: the addition
      wraps around at SIZE_LIMIT before the low bits are masked off. */
  function AlignAsWritten(n: nat): (r: nat)
    requires n < SIZE_LIMIT
    ensures r < SIZE_LIMIT && r % WORD_SIZE == 0
  {
    (n + WORD_SIZE - 1) % SIZE_LIMIT / WORD_SIZE * WORD_SIZE
  }

  /** Without wrap-around the C computation is align. */
  lemma {:induction false} AlignAsWrittenAgrees(n: nat)
    requires n + WORD_SIZE - 1 < SIZE_LIMIT
    ensures AlignAsWritten(n) == Align(n)
  {
    assert (n + WORD_SIZE - 1) % SIZE_LIMIT == n + WORD_SIZE - 1;
  }

  /** mm_malloc's size translation in size_t arithmetic. */
  function AdjustedSizeAsWritten(size: nat): (asize: nat)
    requires size < SIZE_LIMIT
    ensures asize < SIZE_LIMIT
  {
    if size <= TAGS_SIZE then 2 * TAGS_SIZE else (AlignAsWritten(size) + TAGS_SIZE) % SIZE_LIMIT
  }

  /** For the largest request, the rounding wraps to 0 and mm_malloc asks for a
      16-byte block whose usable size (zero) falls short of the request; a
      request 16 bytes shorter rounds to SIZE_LIMIT - 16, and adding the tags
      wraps the block size to 0. */
  lemma {:induction false} AdjustedSizeWraps()
    ensures AlignAsWritten(SIZE_LIMIT - 1) == 0
    ensures AdjustedSizeAsWritten(SIZE_LIMIT - 1) == TAGS_SIZE
    ensures AdjustedSizeAsWritten(SIZE_LIMIT - 1) - TAGS_SIZE < SIZE_LIMIT - 1
    ensures AdjustedSizeAsWritten(SIZE_LIMIT - TAGS_SIZE) == 0
  {
    assert (SIZE_LIMIT - 1 + WORD_SIZE - 1) % SIZE_LIMIT == WORD_SIZE - 2;
    assert (SIZE_LIMIT - TAGS_SIZE + WORD_SIZE - 1) % SIZE_LIMIT == SIZE_LIMIT - TAGS_SIZE + WORD_SIZE - 1;
    assert AlignAsWritten(SIZE_LIMIT - TAGS_SIZE) == SIZE_LIMIT - TAGS_SIZE;
  }

  /** mm_realloc's requested block size, align(size) + TAGS_SIZE, in size_t
      arithmetic. */
  function RequestSizeAsWritten(size: nat): (r: nat)
    requires size < SIZE_LIMIT
    ensures r < SIZE_LIMIT && r % WORD_SIZE == 0
  {
    (AlignAsWritten(size) + TAGS_SIZE) % SIZE_LIMIT
  }

  /** Up to SIZE_LIMIT - 24 the size_t request is the unbounded one. */
  lemma {:induction false} RequestSizeAsWrittenAgrees(size: nat)
    requires size <= SIZE_LIMIT - 24
    ensures RequestSizeAsWritten(size) == Align(size) + TAGS_SIZE
  {
    AlignAsWrittenAgrees(size);
    assert Align(size) <= SIZE_LIMIT - 24;
  }

  /** For the 23 largest sizes the request wraps around to at most TAGS_SIZE:
      to 0 or 8 when the tags overflow, to 16 when the rounding does. */
  lemma {:induction false} RequestSizeWraps(size: nat)
    requires SIZE_LIMIT - 23 <= size < SIZE_LIMIT
    ensures RequestSizeAsWritten(size) <= TAGS_SIZE
  {
    if size <= SIZE_LIMIT - 8 {
      AlignAsWrittenAgrees(size);
      assert SIZE_LIMIT - TAGS_SIZE <= Align(size) < SIZE_LIMIT;
      assert RequestSizeAsWritten(size) == Align(size) + TAGS_SIZE - SIZE_LIMIT;
    } else {
      assert (size + WORD_SIZE - 1) % SIZE_LIMIT == size + WORD_SIZE - 1 - SIZE_LIMIT;
      assert AlignAsWritten(size) == 0;
    }
  }
}
