// A chunk of 31 slots with a bitmap, found again from the address of a slot
// (experimental/alignedchunk.h).

module AlignedChunk {
  import opened Arithmetic
  import opened BinMap
  import opened BitIndex

  const NUM_SLOTS := 31
  const EMPTY: bv32 := 1
  const FULL: bv32 := 0xFFFF_FFFF

  // The bits of the slots in use. Bit 0 stands for the part that holds the header.
  ghost function Slots(bitmap: bv32): set<nat> {
    set j: nat | 1 <= j < BITS && Meet(bitmap, BitAt(j))
  }

  lemma SlotsAfterSet(bitmap: bv32, j: nat)
    requires 1 <= j < BITS && Meet(bitmap, BitAt(0))
    ensures Slots(Or(bitmap, BitAt(j))) == Slots(bitmap) + {j} && Meet(Or(bitmap, BitAt(j)), BitAt(0))
  {
    hide Meet, Or, BitAt;
    forall k: nat | k < BITS ensures Meet(Or(bitmap, BitAt(j)), BitAt(k)) <==> k == j || Meet(bitmap, BitAt(k)) {
      if k == j {
        BitIsOneHot(j);
        OrSame(bitmap, BitAt(j));
      } else {
        DistinctBits(j, k);
        OrBit(bitmap, BitAt(j), BitAt(k));
      }
    }
  }

  lemma SlotsAfterClear(bitmap: bv32, j: nat)
    requires 1 <= j < BITS && Meet(bitmap, BitAt(0))
    ensures Slots(Without(bitmap, BitAt(j))) == Slots(bitmap) - {j} && Meet(Without(bitmap, BitAt(j)), BitAt(0))
  {
    hide Meet, Without, BitAt;
    forall k: nat | k < BITS ensures Meet(Without(bitmap, BitAt(j)), BitAt(k)) <==> k != j && Meet(bitmap, BitAt(k)) {
      if k == j {
        WithoutSame(bitmap, BitAt(j));
      } else {
        DistinctBits(j, k);
        WithoutBit(bitmap, BitAt(j), BitAt(k));
      }
    }
  }

  lemma NotEmptyBit(bitmap: bv32)
    requires bitmap != EMPTY && Meet(bitmap, 1)
    ensures Without(FULL, Without(bitmap, 1)) != FULL
    ensures forall b: bv32 {:trigger OneHot(b)} :: OneHot(b) && !Meet(Without(FULL, Without(bitmap, 1)), b) ==>
      Meet(bitmap, b) && b != 1
  {
  }

  // No slot is in use exactly when the bitmap is the one of an empty chunk.
  lemma NoSlots(bitmap: bv32)
    requires Meet(bitmap, BitAt(0))
    ensures Slots(bitmap) == {} <==> bitmap == EMPTY
  {
    hide Meet, Without;
    assert BitAt(0) == 1;
    if bitmap == EMPTY {
      forall j: nat | 1 <= j < BITS ensures !Meet(bitmap, BitAt(j)) {
        DistinctBits(0, j);
      }
    } else {
      NotEmptyBit(bitmap);
      var w := Without(FULL, Without(bitmap, 1));
      LowestClearIndex(w);
      BitIsOneHot(Msb(LowestClear(w)));
      assert Msb(LowestClear(w)) in Slots(bitmap);
    }
  }

  // Every slot is in use exactly when all bits are set.
  lemma AllSlots(bitmap: bv32)
    requires Meet(bitmap, BitAt(0))
    ensures bitmap == FULL <==> forall j: nat :: 1 <= j < BITS ==> j in Slots(bitmap)
  {
    hide Meet, BitAt;
    if bitmap == FULL {
      forall j: nat | 1 <= j < BITS ensures j in Slots(bitmap) {
        BitIsOneHot(j);
        FullMeets(BitAt(j));
      }
    } else {
      LowestClearIndex(bitmap);
      assert Msb(LowestClear(bitmap)) != 0;
      assert Msb(LowestClear(bitmap)) !in Slots(bitmap);
    }
  }

  lemma FullMeets(b: bv32)
    requires OneHot(b)
    ensures Meet(FULL, b)
  {
  }

  // Where the slot of bit j begins.
  function SlotAddress(start: nat, slotSize: nat, j: nat): int
    requires j < BITS
  {
    start + Times(NUM_SLOTS - j, slotSize)
  }

  // From the address of a slot back to the chunk and to the bit.
  function ChunkStart(ptr: nat, chunkSize: nat): int
    requires chunkSize > 0
  {
    Times(Quotient(ptr, chunkSize), chunkSize)
  }

  function BitOf(ptr: nat, chunkSize: nat, slotSize: nat): int
    requires chunkSize > 0 && slotSize > 0
  {
    if ChunkStart(ptr, chunkSize) <= ptr then NUM_SLOTS - Quotient(ptr - ChunkStart(ptr, chunkSize), slotSize) else 0
  }

  ghost predicate Laid(start: nat, chunkSize: nat, slotSize: nat) {
    && slotSize > 0 && 0 < Times(NUM_SLOTS, slotSize) < chunkSize
    && exists q: nat :: start == Times(q, chunkSize)
  }

  // The address arithmetic of get and put is inverse.
  lemma SlotIsFound(start: nat, chunkSize: nat, slotSize: nat, j: nat)
    requires Laid(start, chunkSize, slotSize) && 1 <= j < BITS
    ensures SlotAddress(start, slotSize, j) >= 0
    ensures ChunkStart(SlotAddress(start, slotSize, j), chunkSize) == start
    ensures BitOf(SlotAddress(start, slotSize, j), chunkSize, slotSize) == j
    ensures start <= SlotAddress(start, slotSize, j)
      && SlotAddress(start, slotSize, j) + slotSize <= start + Times(NUM_SLOTS, slotSize)
  {
    var q: nat :| start == Times(q, chunkSize);
    TimesAtMost(NUM_SLOTS - j, NUM_SLOTS - 1, slotSize);
    TimesOf(NUM_SLOTS - 1, 1, slotSize);
    TimesOne(slotSize);
    TimesSwap(1, slotSize);
    var offset := Times(NUM_SLOTS - j, slotSize);
    QuotientOf(q, chunkSize, offset);
    QuotientOf(NUM_SLOTS - j, slotSize, 0);
  }

  // Different slots of a chunk do not overlap.
  lemma SlotsApart(start: nat, chunkSize: nat, slotSize: nat, j: nat, k: nat)
    requires Laid(start, chunkSize, slotSize) && 1 <= j < k < BITS
    ensures SlotAddress(start, slotSize, k) + slotSize <= SlotAddress(start, slotSize, j)
  {
    TimesAtMost(NUM_SLOTS - k + 1, NUM_SLOTS - j, slotSize);
    TimesAtMost(NUM_SLOTS - k, NUM_SLOTS - j, slotSize);
    TimesOf(NUM_SLOTS - k, 1, slotSize);
    TimesOne(slotSize);
    TimesSwap(1, slotSize);
  }

  class AlignedChunk {
    const start: nat
    const chunkSize: nat
    const slotSize: nat
    var inUse: nat
    var freeBitmap: bv32
    // Released chunks go back to the super heap when they become empty.
    var released: bool

    ghost function Used(): set<nat>
      reads this`freeBitmap
    {
      Slots(freeBitmap)
    }

    ghost predicate Valid()
      reads this`freeBitmap, this`inUse
    {
      start > 0 && Laid(start, chunkSize, slotSize) && Meet(freeBitmap, BitAt(0)) && inUse == |Used()|
    }

    constructor (start: nat, chunkSize: nat, slotSize: nat)
      requires start > 0 && Laid(start, chunkSize, slotSize)
      ensures Valid() && Used() == {} && !released
      ensures this.start == start && this.chunkSize == chunkSize && this.slotSize == slotSize
    {
      this.start, this.chunkSize, this.slotSize := start, chunkSize, slotSize;
      inUse, freeBitmap, released := 0, EMPTY, false;
      new;
      NoSlots(EMPTY);
    }

    // The free slot at the highest address; 0 exactly when all slots are in use.
    method GetSlot() returns (ptr: int, ghost j: nat)
      requires Valid()
      modifies this`freeBitmap, this`inUse
      ensures Valid()
      ensures ptr == 0 <==> forall k: nat :: 1 <= k < BITS ==> k in old(Used())
      ensures ptr == 0 ==> Used() == old(Used())
      ensures ptr != 0 ==>
        && 1 <= j < BITS && j !in old(Used()) && Used() == old(Used()) + {j} && ptr == SlotAddress(start, slotSize, j)
        && forall k: nat :: 1 <= k < j ==> k in old(Used())
    {
      ptr, j := 0, 0;
      AllSlots(freeBitmap);
      hide Meet, BitAt, Or, LowestClear, Msb;
      if freeBitmap == FULL {
        return;
      }
      LowestClearIndex(freeBitmap);
      var bitIndex := Msb(LowestClear(freeBitmap));
      j := bitIndex;
      SlotIsFound(start, chunkSize, slotSize, if j == 0 then 1 else j);
      SlotsAfterSet(freeBitmap, bitIndex);
      freeBitmap := Or(freeBitmap, BitAt(bitIndex));
      inUse := inUse + 1;
      ptr := SlotAddress(start, slotSize, bitIndex);
    }

    // The slot that begins at ptr becomes free; tells whether the chunk is now empty.
    method PutSlot(ptr: nat, ghost j: nat) returns (empty: bool)
      requires Valid() && j in Used() && ptr == SlotAddress(start, slotSize, j)
      modifies this`freeBitmap, this`inUse
      ensures Valid() && Used() == old(Used()) - {j} && (empty <==> Used() == {})
    {
      SlotIsFound(start, chunkSize, slotSize, j);
      var bitIndex := BitOf(ptr, chunkSize, slotSize);
      SlotsAfterClear(freeBitmap, bitIndex);
      hide Meet, BitAt, Without, BitOf, SlotAddress, Laid;
      freeBitmap := Without(freeBitmap, BitAt(bitIndex));
      inUse := inUse - 1;
      NoSlots(freeBitmap);
      empty := freeBitmap == EMPTY;
    }
  }
}
