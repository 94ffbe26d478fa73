// A segregated-fits heap that finds a bin through its bitmap (segheap.h).

module SegHeap {
  import opened BinMap

  // The first bin from i on that holds something; |bins| when there is none.
  function Lowest(bins: seq<set<nat>>, i: nat): (r: nat)
    requires i <= |bins|
    ensures i <= r <= |bins| && (forall k :: i <= k < r ==> bins[k] == {}) && (r < |bins| ==> bins[r] != {})
    decreases |bins| - i
  {
    if i == |bins| || bins[i] != {} then i else Lowest(bins, i + 1)
  }

  ghost predicate EmptyFrom(bins: seq<set<nat>>, i: nat, j: nat) {
    forall k :: i <= k < j && k < |bins| ==> bins[k] == {}
  }

  lemma EmptyHere(bins: seq<set<nat>>, i: nat)
    ensures EmptyFrom(bins, i, i)
  {
  }

  lemma EmptyJoin(bins: seq<set<nat>>, i: nat, j: nat, k: nat)
    requires EmptyFrom(bins, i, j) && EmptyFrom(bins, j, k)
    ensures EmptyFrom(bins, i, k)
  {
  }

  lemma {:induction false} LowestIs(bins: seq<set<nat>>, i: nat, r: nat)
    requires i <= r <= |bins| && EmptyFrom(bins, i, r) && (r < |bins| ==> bins[r] != {})
    ensures Lowest(bins, i) == r
    decreases r - i
  {
    if i < r {
      LowestIs(bins, i + 1, r);
    }
  }

  lemma NothingFrom(bins: seq<set<nat>>, i: nat, r: nat)
    requires i <= |bins| <= r && EmptyFrom(bins, i, r)
    ensures Lowest(bins, i) == |bins|
  {
    LowestIs(bins, i, |bins|);
  }

  lemma OneMore(bins: seq<set<nat>>, i: nat, r: nat)
    requires i <= r < |bins| && EmptyFrom(bins, i, r) && bins[r] == {}
    ensures EmptyFrom(bins, i, r + 1)
  {
  }

  // Every bin that holds something is marked; no mark lies beyond the bins.
  ghost predicate Summary(words: seq<bv32>, bins: seq<set<nat>>) {
    && |words| == (|bins| + BITS - 1) / BITS
    && (forall i :: 0 <= i < |bins| && bins[i] != {} ==> BitSet(words, i))
    && forall i :: |bins| <= i < BITS * |words| ==> !BitSet(words, i)
  }

  lemma SummaryOfMarked(words: seq<bv32>, bins: seq<set<nat>>, i: nat, s: set<nat>)
    requires Summary(words, bins) && i < |bins|
    ensures i / BITS < |words| && Summary(Marked(words, i), bins[i := s])
  {
    var words', bins' := Marked(words, i), bins[i := s];
    forall k | 0 <= k < |bins| && bins'[k] != {} ensures BitSet(words', k) {
      MarkedBits(words, i, k);
    }
    forall k | |bins| <= k < BITS * |words| ensures !BitSet(words', k) {
      MarkedBits(words, i, k);
    }
  }

  lemma SummaryOfUnmarked(words: seq<bv32>, bins: seq<set<nat>>, i: nat)
    requires Summary(words, bins) && i < |bins| && bins[i] == {}
    ensures i / BITS < |words| && Summary(Unmarked(words, i), bins)
  {
    var words' := Unmarked(words, i);
    forall k | 0 <= k < |bins| && bins[k] != {} ensures BitSet(words', k) {
      UnmarkedBits(words, i, k);
    }
    forall k | |bins| <= k < BITS * |words| ensures !BitSet(words', k) {
      UnmarkedBits(words, i, k);
    }
  }

  // When bit j exceeds the word, or has left it, the rest of the block is empty.
  lemma RestOfBlock(words: seq<bv32>, bins: seq<set<nat>>, block: nat, j: nat)
    requires Summary(words, bins) && block < |words| && j <= BITS
    requires Exceeds(BitAt(j), words[block]) || BitAt(j) == 0
    ensures EmptyFrom(bins, block * BITS + j, (block + 1) * BITS)
  {
    BitIsZero(j);
    forall k | block * BITS + j <= k < (block + 1) * BITS && k < |bins| ensures bins[k] == {} {
      NothingAbove(words[block], j, k - block * BITS);
      hide Meet, Exceeds, BitAt;
      assert k / BITS == block && k % BITS == k - block * BITS;
    }
  }

  lemma BlockIsEmpty(words: seq<bv32>, bins: seq<set<nat>>, block: nat)
    requires Summary(words, bins) && block < |words| && words[block] == 0
    ensures EmptyFrom(bins, block * BITS, (block + 1) * BITS)
  {
    forall k | block * BITS <= k < (block + 1) * BITS && k < |bins| ensures bins[k] == {} {
      EmptyWord(BitAt(k % BITS));
      hide Meet, Exceeds, BitAt;
      assert k / BITS == block;
    }
  }

  lemma WordsForBins(words: seq<bv32>, bins: seq<set<nat>>)
    requires Summary(words, bins)
    ensures |words| == (|bins| + BITS - 1) / BITS && |bins| <= BITS * |words|
  {
  }

  lemma BitIsThere(words: seq<bv32>, bins: seq<set<nat>>, block: nat, j: nat)
    requires Summary(words, bins) && block < |words| && j < BITS
    ensures Meet(BitAt(j), words[block]) <==> BitSet(words, block * BITS + j)
    ensures Meet(BitAt(j), words[block]) ==> block * BITS + j < |bins|
    ensures !Meet(BitAt(j), words[block]) ==> EmptyFrom(bins, block * BITS + j, block * BITS + j + 1)
  {
    hide Meet, BitAt;
    MeetSwap(BitAt(j), words[block]);
    assert (block * BITS + j) / BITS == block && (block * BITS + j) % BITS == j;
  }

  class SegHeap {
    const numBins: nat
    const classOf: nat -> nat
    const classMax: nat -> nat
    const maxObjectSize: nat
    // getSize: the size that each object's header records.
    const getSize: nat -> nat
    var bins: seq<set<nat>>
    var binmap: seq<bv32>
    var memoryHeld: nat

    // What the size-class functions have to provide: a class for every size up to
    // the largest, and no object of this or a higher class smaller than the size.
    ghost predicate ClassesCover() {
      && numBins > 0 && maxObjectSize == classMax(numBins - 1)
      && forall sz, i :: 1 <= sz <= maxObjectSize && classOf(sz) <= i < numBins ==> sz <= classMax(i)
    }

    ghost predicate ClassesExist() {
      forall sz :: 1 <= sz <= maxObjectSize ==> classOf(sz) < numBins
    }

    // Each free object is in one bin, of a class that it is large enough for.
    ghost predicate Binned(bins: seq<set<nat>>) {
      && (forall i :: 0 <= i < |bins| ==> 0 !in bins[i])
      && (forall i, p :: 0 <= i < |bins| && p in bins[i] ==> classMax(i) <= getSize(p) <= maxObjectSize)
      && (forall i, k, p :: 0 <= i < |bins| && 0 <= k < |bins| && p in bins[i] && p in bins[k] ==> i == k)
    }

    ghost predicate Valid()
      reads this
    {
      && ClassesCover() && ClassesExist() && |bins| == numBins
      && Summary(binmap, bins) && Binned(bins)
    }

    constructor (numBins: nat, classOf: nat -> nat, classMax: nat -> nat, getSize: nat -> nat)
      requires numBins > 0
      requires forall sz :: 1 <= sz <= classMax(numBins - 1) ==> classOf(sz) < numBins
      requires forall sz, i :: 1 <= sz <= classMax(numBins - 1) && classOf(sz) <= i < numBins ==> sz <= classMax(i)
      ensures Valid() && memoryHeld == 0 && forall i :: 0 <= i < |bins| ==> bins[i] == {}
      ensures this.numBins == numBins && this.classOf == classOf && this.classMax == classMax && this.getSize == getSize
      ensures maxObjectSize == classMax(numBins - 1)
    {
      this.numBins, this.classOf, this.classMax, this.getSize := numBins, classOf, classMax, getSize;
      maxObjectSize := classMax(numBins - 1);
      bins := seq(numBins, i => {});
      binmap := seq((numBins + BITS - 1) / BITS, i => 0);
      memoryHeld := 0;
      new;
      forall i | 0 <= i < BITS * |binmap| ensures !BitSet(binmap, i) {
        EmptyWord(BitAt(i % BITS));
      }
    }

    // The block and bit at which the search goes on: the first non-empty word after
    // this block; block == |binmap| when there is none.
    method NextBlock(block: nat) returns (b: nat)
      requires Valid() && block < |binmap|
      ensures block < b <= |binmap| && EmptyFrom(bins, (block + 1) * BITS, b * BITS)
      ensures b < |binmap| ==> binmap[b] != 0
    {
      b := block + 1;
      while b < |binmap| && binmap[b] == 0
        invariant block < b <= |binmap| && EmptyFrom(bins, (block + 1) * BITS, b * BITS)
      {
        BlockIsEmpty(binmap, bins, b);
        b := b + 1;
      }
    }

    // Where the search goes on: at this bit, or in the first non-empty word after it
    // when the word does not reach that far; at block |binmap| when there is none.
    method Reach(block: nat, idx: nat) returns (b: nat, i: nat)
      requires Valid() && block < |binmap| && block * BITS <= idx <= (block + 1) * BITS
      ensures block <= b <= |binmap| && idx <= i && EmptyFrom(bins, idx, i)
      ensures if b == |binmap| then i >= numBins
              else b * BITS <= i < (b + 1) * BITS && !Exceeds(BitAt(i - b * BITS), binmap[b])
    {
      hide Exceeds, BitAt, Summary, Binned, EmptyFrom;
      var word, bit := binmap[block], BitAt(idx - block * BITS);
      b, i := block, idx;
      EmptyHere(bins, idx);
      BitIsZero(idx - block * BITS);
      if Exceeds(bit, word) || bit == 0 {
        RestOfBlock(binmap, bins, block, idx - block * BITS);
        b := NextBlock(block);
        i := b * BITS;
        EmptyJoin(bins, idx, (block + 1) * BITS, i);
        WordsForBins(binmap, bins);
        if b < |binmap| {
          FirstBitReaches(binmap[b]);
        }
      }
    }

    // The first marked bin from idx on within a block whose word reaches that far.
    method ScanBlock(block: nat, idx: nat) returns (i: nat)
      requires Valid() && block < |binmap| && block * BITS <= idx < (block + 1) * BITS
      requires !Exceeds(BitAt(idx - block * BITS), binmap[block])
      ensures idx <= i < (block + 1) * BITS && i < numBins && EmptyFrom(bins, idx, i)
      ensures Meet(BitAt(i - block * BITS), binmap[block])
    {
      var word := binmap[block];
      var bit := BitAt(idx - block * BITS);
      i := idx;
      hide Meet, Next, Exceeds;
      while !Meet(bit, word)
        invariant idx <= i < (block + 1) * BITS && bit == BitAt(i - block * BITS)
        invariant !Exceeds(bit, word) && EmptyFrom(bins, idx, i)
        decreases (block + 1) * BITS - i
      {
        BitIsThere(binmap, bins, block, i - block * BITS);
        KeepsReaching(word, i - block * BITS);
        bit := Next(bit);
        i := i + 1;
      }
      BitIsThere(binmap, bins, block, i - block * BITS);
    }

    // An object of bin i; 0 when it is empty.
    method Get(i: nat) returns (ptr: nat)
      requires Valid() && i < numBins
      modifies this`bins
      ensures Valid()
      ensures if old(bins)[i] == {} then ptr == 0 && bins == old(bins)
              else ptr != 0 && ptr in old(bins)[i] && bins == old(bins)[i := old(bins)[i] - {ptr}]
    {
      if bins[i] == {} {
        return 0;
      }
      ptr :| ptr in bins[i];
      hide BitSet;
      bins := bins[i := bins[i] - {ptr}];
    }

    // An object of a marked bin; a bin that turns out to be empty is unmarked.
    method TryBin(sz: nat, block: nat, idx: nat) returns (ptr: nat)
      requires Valid() && idx < numBins && sz <= classMax(idx)
      requires block < |binmap| && block * BITS <= idx < (block + 1) * BITS
      modifies this`bins, this`binmap
      ensures Valid()
      ensures if old(bins)[idx] == {} then
                && ptr == 0 && bins == old(bins)
                && binmap == old(binmap)[block := Without(old(binmap)[block], BitAt(idx - block * BITS))]
              else
                && ptr != 0 && ptr in old(bins)[idx] && sz <= getSize(ptr)
                && bins == old(bins)[idx := old(bins)[idx] - {ptr}] && binmap == old(binmap)
    {
      assert 0 !in bins[idx];
      ptr := Get(idx);
      if ptr == 0 {
        hide Without, BitAt, Summary, Binned;
        assert idx / BITS == block && idx % BITS == idx - block * BITS;
        SummaryOfUnmarked(binmap, bins, idx);
        binmap := binmap[block := Without(binmap[block], BitAt(idx - block * BITS))];
      }
    }

    // An object from the lowest non-empty bin at or above the class, and from the
    // big heap (supply) when there is none.
    method Malloc(sz: nat, supply: nat) returns (ptr: nat)
      requires Valid() && (sz == 0 ==> classOf(0) < numBins)
      modifies this`bins, this`binmap
      ensures Valid()
      ensures sz <= maxObjectSize ==> classOf(sz) <= |old(bins)|
      ensures var i := if sz > maxObjectSize then numBins else Lowest(old(bins), classOf(sz));
              if i == numBins then ptr == supply && bins == old(bins)
              else ptr in old(bins)[i] && bins == old(bins)[i := old(bins)[i] - {ptr}] && sz <= getSize(ptr)
    {
      hide Meet, Next, Exceeds, Without, BitAt, Summary, Binned, BitSet, EmptyFrom, Lowest;
      WordsForBins(binmap, bins);
      if sz > maxObjectSize {
        return supply;
      }
      var sc := classOf(sz);
      var idx: nat, block: nat := sc, sc / BITS;
      EmptyHere(bins, sc);
      while true
        invariant Valid() && bins == old(bins)
        invariant sc <= idx && block < |binmap| && block * BITS <= idx <= (block + 1) * BITS
        invariant EmptyFrom(bins, sc, idx)
        decreases BITS * |binmap| - idx
      {
        ghost var from := idx;
        block, idx := Reach(block, idx);
        EmptyJoin(bins, sc, from, idx);
        if block == |binmap| {
          NothingFrom(bins, sc, idx);
          return supply;
        }
        from := idx;
        idx := ScanBlock(block, idx);
        EmptyJoin(bins, sc, from, idx);
        ptr := TryBin(sz, block, idx);
        if ptr != 0 {
          LowestIs(old(bins), sc, idx);
          return;
        }
        OneMore(bins, sc, idx);
        idx := idx + 1;
      }
      assert false;
    }

    // Where a freed object goes: the highest class, from the object's own downwards,
    // that the object is large enough for.
    ghost predicate Home(size: nat, i: nat) {
      && i <= classOf(size) && classMax(i) <= size
      && forall k :: i < k <= classOf(size) ==> classMax(k) > size
    }

    // Returns the object to its bin, or to the big heap when it is too large.
    method Free(ptr: nat) returns (toBig: bool)
      requires Valid() && ptr != 0 && (getSize(ptr) != 0 ==> classMax(0) <= getSize(ptr))
      requires forall i :: 0 <= i < numBins ==> ptr !in bins[i]
      modifies this
      ensures Valid() && toBig == (getSize(ptr) > maxObjectSize)
      ensures getSize(ptr) == 0 || toBig ==> bins == old(bins) && memoryHeld == old(memoryHeld)
      ensures getSize(ptr) != 0 && !toBig ==>
        && memoryHeld == old(memoryHeld) + getSize(ptr)
        && exists i :: 0 <= i < numBins && Home(getSize(ptr), i) && bins == old(bins)[i := old(bins)[i] + {ptr}]
    {
      var objectSize := getSize(ptr);
      if objectSize == 0 {
        return false;
      }
      if objectSize > maxObjectSize {
        return true;
      }
      toBig := false;
      var sc: nat := classOf(objectSize);
      while classMax(sc) > objectSize
        invariant sc <= classOf(objectSize) && forall k :: sc < k <= classOf(objectSize) ==> classMax(k) > objectSize
        decreases sc
      {
        sc := sc - 1;
      }
      assert Home(objectSize, sc);
      hide BitSet;
      bins := bins[sc := bins[sc] + {ptr}];
      SummaryOfMarked(binmap, old(bins), sc, bins[sc]);
      binmap := Marked(binmap, sc);
      memoryHeld := memoryHeld + objectSize;
    }

    // Takes an object out of the bin that holds it. The bin's mark stays.
    method Remove(ptr: nat)
      requires Valid() && exists i :: 0 <= i < numBins && ptr in bins[i]
      modifies this`bins
      ensures Valid()
      ensures exists i :: 0 <= i < numBins && ptr in old(bins)[i] && bins == old(bins)[i := old(bins)[i] - {ptr}]
    {
      ghost var i :| 0 <= i < numBins && ptr in bins[i];
      hide BitSet;
      bins := seq(|bins|, k requires 0 <= k < |bins| reads this`bins => bins[k] - {ptr});
      forall k | 0 <= k < numBins ensures bins[k] == old(bins)[i := old(bins)[i] - {ptr}][k] {
        assert k != i ==> ptr !in old(bins)[k];
      }
      assert bins == old(bins)[i := old(bins)[i] - {ptr}];
    }

    method Clear()
      requires Valid()
      modifies this
      ensures Valid() && memoryHeld == 0 && forall i :: 0 <= i < |bins| ==> bins[i] == {}
    {
      var i := 0;
      while i < numBins
        invariant |bins| == numBins && |binmap| == (numBins + BITS - 1) / BITS
        invariant 0 <= i <= numBins && forall k :: 0 <= k < i ==> bins[k] == {}
      {
        bins := bins[i := {}];
        i := i + 1;
      }
      binmap := seq(|binmap|, k => 0);
      memoryHeld := 0;
      forall k | 0 <= k < BITS * |binmap| ensures !BitSet(binmap, k) {
        EmptyWord(BitAt(k % BITS));
      }
    }
  }
}
