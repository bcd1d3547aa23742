/**
 The heap: a bump allocator over a static buffer (source/tbx_heap.c).
 */
module Heap {
  import opened Target

  /** One successful request: where it starts in the buffer and how many bytes were asked for. */
  datatype Region = Region(offset: nat, bytes: nat) {
    function End(): nat { offset + RoundUp(bytes) }
  }

  /** The pointer to the word at a byte offset of the buffer. */
  function Address(offset: nat): nat {
    1 + WholeWordsIn(offset)
  }

  /** Regions handed out one behind the other, up to the given offset. */
  ghost predicate Packed(regions: seq<Region>, end: nat) {
    if regions == [] then end == 0
    else
      var last := regions[|regions| - 1];
      last.bytes > 0 && last.End() == end && Packed(regions[..|regions| - 1], last.offset)
  }

  /** The bytes that the regions take, each rounded up to whole words. */
  ghost function Total(regions: seq<Region>): nat {
    if regions == [] then 0
    else Total(regions[..|regions| - 1]) + RoundUp(regions[|regions| - 1].bytes)
  }

  lemma {:induction false} PackedTotal(regions: seq<Region>, end: nat)
    requires Packed(regions, end)
    ensures Total(regions) == end
    ensures Aligned(end)
  {
    if regions != [] {
      var last := regions[|regions| - 1];
      PackedTotal(regions[..|regions| - 1], last.offset);
      AlignedSum(last.offset, Words(last.bytes));
    }
  }

  lemma WholeWordsOfBytes(k: nat)
    ensures WholeWordsIn(Bytes(k)) == k
  {
  }

  lemma AlignedSum(offset: nat, words: nat)
    requires Aligned(offset)
    ensures Aligned(offset + Bytes(words))
  {
    var k := WholeWordsIn(offset) + words;
    assert offset + Bytes(words) == Bytes(k);
    WholeWordsOfBytes(k);
  }

  /** Every region is aligned and in bounds, and no two regions share a byte. */
  lemma {:induction false} PackedDisjoint(regions: seq<Region>, end: nat, i: nat, j: nat)
    requires Packed(regions, end)
    requires i < j < |regions|
    ensures Aligned(regions[i].offset) && Aligned(regions[j].offset)
    ensures regions[i].offset + regions[i].bytes <= regions[i].End() <= regions[j].offset
    ensures regions[j].offset + regions[j].bytes <= regions[j].End() <= end
  {
    var init, last := regions[..|regions| - 1], regions[|regions| - 1];
    PackedTotal(init, last.offset);
    if j < |regions| - 1 {
      PackedDisjoint(init, last.offset, i, j);
    } else {
      PackedInBounds(init, last.offset, i);
    }
  }

  lemma {:induction false} PackedInBounds(regions: seq<Region>, end: nat, i: nat)
    requires Packed(regions, end)
    requires i < |regions|
    ensures Aligned(regions[i].offset)
    ensures regions[i].offset + regions[i].bytes <= regions[i].End() <= end
  {
    var init, last := regions[..|regions| - 1], regions[|regions| - 1];
    PackedTotal(init, last.offset);
    if i < |regions| - 1 {
      PackedInBounds(init, last.offset, i);
    }
  }

  class Heap {
    /** The words of the buffer; index 0 stands for the NULL address and is never used. */
    const buffer: array<nat>
    /** TBX_CONF_HEAP_SIZE: the size of the buffer in bytes. */
    const size: nat
    /** The number of bytes that have been allocated already. */
    var allocatedBytes: nat
    /** Every region that has been handed out so far. */
    ghost var regions: seq<Region>

    ghost predicate Valid()
      reads this
    {
      allocatedBytes <= size && buffer.Length == 1 + WholeWordsIn(size) && Packed(regions, allocatedBytes)
    }

    constructor (size: nat)
      ensures Valid() && fresh(buffer)
      ensures this.size == size && allocatedBytes == 0
    {
      buffer := new nat[1 + WholeWordsIn(size)];
      this.size := size;
      allocatedBytes := 0;
      regions := [];
    }

    /** The number of words below the first free one. */
    ghost function Top(): (top: nat)
      reads this
    {
      Address(allocatedBytes)
    }

    /**
     NULL if the rounded size does not fit into what is left.  A size so large that rounding it
     wraps around gets the address of a region without any bytes.
     */
    method Allocate(bytes: nat) returns (result: nat)
      requires Valid() && bytes < SIZE_LIMIT
      modifies this`allocatedBytes, this`regions
      ensures Valid()
      ensures bytes == 0 || (FitsSizeT(bytes) && size - old(allocatedBytes) < RoundUp(bytes))
              ==> result == NULL && allocatedBytes == old(allocatedBytes) && regions == old(regions)
      ensures bytes > 0 && FitsSizeT(bytes) && size - old(allocatedBytes) >= RoundUp(bytes)
              ==> && result == old(Top())
                  && allocatedBytes == old(allocatedBytes) + RoundUp(bytes)
                  && regions == old(regions) + [Region(old(allocatedBytes), bytes)]
                  && Top() == result + Words(bytes) <= buffer.Length
      ensures bytes > 0 && !FitsSizeT(bytes)
              ==> result == Top() && allocatedBytes == old(allocatedBytes) && regions == old(regions)
    {
      result := NULL;
      if bytes > 0 {
        RoundingWraps(bytes);
        var sizeWanted := RoundUpInSizeT(bytes);
        var sizeAvailable := size - allocatedBytes;
        if sizeAvailable >= sizeWanted {
          PackedTotal(regions, allocatedBytes);
          result := Address(allocatedBytes);
          regions := if FitsSizeT(bytes) then regions + [Region(allocatedBytes, bytes)] else regions;
          allocatedBytes := allocatedBytes + sizeWanted;
        }
      }
    }

    /** Nothing is lost: the free bytes and the regions handed out add up to the buffer. */
    method GetFree() returns (result: nat)
      requires Valid()
      ensures result + Total(regions) == size
    {
      PackedTotal(regions, allocatedBytes);
      result := size - allocatedBytes;
    }

    method Store(p: nat, value: nat)
      requires 0 < p < buffer.Length
      modifies buffer
      ensures buffer[..] == old(buffer[..])[p := value]
    {
      buffer[p] := value;
    }
  }
}
