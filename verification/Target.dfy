/**
 The target's data sizes.  A pointer and a size_t take one machine word of W bytes on
 every port.  Memory is modelled word by word: the heap buffer is an array of words and a
 pointer is the index of a word, with 0 for NULL (the buffer starts at index 1).
 */
module Target {

  type WordSize = w: nat | w == 2 || w == 4 || w == 8 witness 4

  /** sizeof(void *), which is also sizeof(size_t). */
  const W: WordSize

  const NULL: nat := 0

  /** Division and multiplication by W; the case split keeps the arithmetic linear. */
  function WholeWordsIn(bytes: nat): nat {
    if W == 2 then bytes / 2 else if W == 4 then bytes / 4 else bytes / 8
  }

  function Bytes(words: nat): nat {
    if W == 2 then 2 * words else if W == 4 then 4 * words else 8 * words
  }

  predicate Aligned(bytes: nat) {
    bytes == Bytes(WholeWordsIn(bytes))
  }

  /** The number of words that hold the given number of bytes. */
  function Words(bytes: nat): nat {
    WholeWordsIn(bytes + W - 1)
  }

  /** The byte count rounded up to whole words. */
  function RoundUp(bytes: nat): nat {
    Bytes(Words(bytes))
  }

  /** These are the arithmetic operations that their names say. */
  lemma Arithmetic(n: nat)
    ensures WholeWordsIn(n) == n / W && Bytes(n) == n * W
    ensures Aligned(n) <==> n % W == 0
    ensures Words(n) == (n + W - 1) / W
  {
    if W == 2 {} else if W == 4 {} else {}
  }

  /** Rounding up to whole words gives the least multiple of the word size that is large enough. */
  lemma RoundUpIsLeast(bytes: nat, n: nat)
    ensures bytes <= RoundUp(bytes) < bytes + W
    ensures RoundUp(bytes) % W == 0
    ensures bytes <= n * W ==> RoundUp(bytes) <= n * W
  {
    var k := Words(bytes);
    if W == 2 {
      assert 2 * k % 2 == 0;
    } else if W == 4 {
      assert 4 * k % 4 == 0;
    } else {
      assert 8 * k % 8 == 0;
    }
  }

  /** The sizes of the structures in words, also behind a leading word. */
  lemma StructureSizes(bytes: nat)
    ensures Words(W) == 1 && Words(2 * W) == 2 && Words(3 * W) == 3
    ensures Words(W + bytes) == 1 + Words(bytes)
    ensures bytes >= 3 * W ==> Words(bytes) >= 3
  {
  }

  // ---------------------------------------------------------------- the width of a size

  /** A size_t holds the numbers below this one. */
  const SIZE_LIMIT: nat :=
    if W == 2 then 0x1_0000 else if W == 4 then 0x1_0000_0000 else 0x1_0000_0000_0000_0000

  /** Rounding the size up does not exceed a size_t. */
  predicate FitsSizeT(bytes: nat) {
    bytes + W - 1 < SIZE_LIMIT
  }

  /** The size rounded up in a size_t, where the sum may wrap around. */
  function RoundUpInSizeT(bytes: nat): nat {
    var sum := bytes + W - 1;
    Bytes(WholeWordsIn(if sum < SIZE_LIMIT then sum else sum - SIZE_LIMIT))
  }

  /** It is rounded up as it should be exactly if the sum fits; otherwise nothing is left of it. */
  lemma RoundingWraps(bytes: nat)
    requires 0 < bytes < SIZE_LIMIT
    ensures RoundUpInSizeT(bytes) == if FitsSizeT(bytes) then RoundUp(bytes) else 0
    ensures RoundUpInSizeT(bytes) == RoundUp(bytes) <==> FitsSizeT(bytes)
  {
    RoundUpIsLeast(bytes, 0);
  }

  /** The heap bytes that a block of this size gets, where adding its header may wrap around, too. */
  function BlockBytesInSizeT(size: nat): nat {
    var sum := W + size;
    RoundUpInSizeT(if sum < SIZE_LIMIT then sum else sum - SIZE_LIMIT)
  }

  /**
   A block is as long as the size in its header says exactly if header and size, rounded up, fit
   a size_t; otherwise it has no data word, and a header exactly if the size alone is too long.
   */
  lemma BlockTooShortIff(size: nat)
    requires 0 < size < SIZE_LIMIT
    ensures BlockBytesInSizeT(size) >= W + size <==> FitsSizeT(W + size)
    ensures FitsSizeT(W + size) ==> BlockBytesInSizeT(size) == RoundUp(W + size)
    ensures !FitsSizeT(W + size) ==>
            BlockBytesInSizeT(size) == if W + size > SIZE_LIMIT then W else 0
  {
    RoundUpIsLeast(W + size, 0);
  }

  lemma StructuresFit()
    ensures FitsSizeT(W) && FitsSizeT(2 * W) && FitsSizeT(3 * W) && FitsSizeT(W + 3 * W)
  {
  }
}
