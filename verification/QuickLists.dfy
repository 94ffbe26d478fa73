// Strict size-class bins (segheap.h) whose free memory a threshold bounds
// (dlheap.h).

module QuickLists {
  import opened MapSum

  // The objects in the bins, with their sizes.
  ghost predicate Binned(bins: seq<seq<nat>>, held: map<nat, nat>) {
    && (forall i, p :: 0 <= i < |bins| && p in bins[i] ==> p in held)
    && (forall p :: p in held ==> p != 0 && exists i :: 0 <= i < |bins| && p in bins[i])
    && (forall i, k, p :: 0 <= i < |bins| && 0 <= k < |bins| && p in bins[i] && p in bins[k] ==> i == k)
    && forall i, j, k :: 0 <= i < |bins| && 0 <= j < k < |bins[i]| ==> bins[i][j] != bins[i][k]
  }

  lemma BinnedAfterGet(bins: seq<seq<nat>>, held: map<nat, nat>, i: nat)
    requires Binned(bins, held) && i < |bins| && bins[i] != []
    ensures bins[i][0] in held && Binned(bins[i := bins[i][1..]], held - {bins[i][0]})
  {
    var p := bins[i][0];
    assert p in bins[i];
    assert forall j :: 0 < j < |bins[i]| ==> bins[i][0] != bins[i][j];
    assert p !in bins[i][1..];
    var bins', held' := bins[i := bins[i][1..]], held - {p};
    forall q | q in held' ensures exists k :: 0 <= k < |bins'| && q in bins'[k] {
      var k :| 0 <= k < |bins| && q in bins[k];
      assert q in bins'[k];
    }
    forall k, q | 0 <= k < |bins'| && q in bins'[k] ensures q in held' && q in bins[k] {
      assert q in bins[k];
    }
  }

  lemma BinnedAfterPut(bins: seq<seq<nat>>, held: map<nat, nat>, i: nat, p: nat, size: nat)
    requires Binned(bins, held) && i < |bins| && p !in held && p != 0
    ensures Binned(bins[i := [p] + bins[i]], held[p := size])
  {
    var bins', held' := bins[i := [p] + bins[i]], held[p := size];
    forall q | q in held' ensures exists k :: 0 <= k < |bins'| && q in bins'[k] {
      if q == p {
        assert p in bins'[i];
      } else {
        var k :| 0 <= k < |bins| && q in bins[k];
        assert q in bins'[k];
      }
    }
    forall k, q | 0 <= k < |bins'| && q in bins'[k]
      ensures q in held' && (q != p ==> q in bins[k]) && (q == p ==> k == i)
    {
    }
  }

  class StrictSegHeap {
    const numBins: nat
    const classOf: nat -> nat
    const classMax: nat -> nat
    const getSize: nat -> nat
    const maxObjectSize: nat
    var bins: seq<seq<nat>>
    // Counts what has been freed into the bins; malloc never lowers it.
    var memoryHeld: nat
    ghost var held: map<nat, nat>

    // What the class functions have to provide: the class of a size exists and
    // covers it.
    ghost predicate Classes() {
      && numBins > 0 && maxObjectSize == classMax(numBins - 1)
      && forall sz: nat :: sz <= maxObjectSize ==> classOf(sz) < numBins && sz <= classMax(classOf(sz))
    }

    ghost predicate Valid()
      reads this
    {
      && Classes() && |bins| == numBins && Binned(bins, held) && Total(held) <= memoryHeld
      && (forall p :: p in held ==> held[p] == getSize(p))
      && forall i, p :: 0 <= i < |bins| && p in bins[i] ==> classMax(i) <= getSize(p)
    }

    constructor (numBins: nat, classOf: nat -> nat, classMax: nat -> nat, getSize: nat -> nat)
      requires numBins > 0
      requires forall sz: nat :: sz <= classMax(numBins - 1) ==> classOf(sz) < numBins && sz <= classMax(classOf(sz))
      ensures Valid() && memoryHeld == 0 && held == map[]
      ensures this.getSize == getSize && this.classMax == classMax && maxObjectSize == classMax(numBins - 1)
    {
      this.numBins, this.classOf, this.classMax, this.getSize := numBins, classOf, classMax, getSize;
      maxObjectSize := classMax(numBins - 1);
      bins := seq(numBins, i => []);
      memoryHeld, held := 0, map[];
    }

    lemma HeldIsCounted()
      requires Valid()
      ensures Total(held) <= memoryHeld
    {
      hide Classes, Binned;
    }

    // From the bin of the class and from no other, else from the big heap (supply).
    method Malloc(sz: nat, supply: nat) returns (ptr: nat)
      requires Valid() && supply != 0 && supply !in held && sz <= getSize(supply)
      modifies this`bins, this`held
      ensures ptr in old(held) <==> sz <= maxObjectSize && classOf(sz) < |old(bins)| && old(bins)[classOf(sz)] != []
      ensures Valid() && sz <= getSize(ptr) && ptr != 0 && ptr !in held && Total(held) <= memoryHeld
      ensures sz <= maxObjectSize ==> classOf(sz) < |old(bins)|
      ensures if sz <= maxObjectSize && old(bins)[classOf(sz)] != [] then
                && ptr == old(bins)[classOf(sz)][0] && ptr in old(held) && held == old(held) - {ptr}
                && bins == old(bins)[classOf(sz) := old(bins)[classOf(sz)][1..]]
              else ptr == supply && bins == old(bins) && held == old(held)
    {
      ptr := supply;
      if sz <= maxObjectSize {
        var sizeClass := classOf(sz);
        if bins[sizeClass] != [] {
          ptr := Get(sizeClass);
        }
      }
    }

    // Where a freed object goes: the highest class, from the object's own downwards,
    // that the object is large enough for.
    ghost predicate Home(size: nat, i: nat) {
      && i <= classOf(size) && classMax(i) <= size
      && forall k :: i < k <= classOf(size) ==> classMax(k) > size
    }

    // To the front of the bin of its class; no other bin changes.
    method Free(ptr: nat) returns (toBig: bool)
      requires Valid() && ptr != 0 && ptr !in held && (getSize(ptr) != 0 ==> classMax(0) <= getSize(ptr))
      modifies this
      ensures Valid() && toBig == (getSize(ptr) > maxObjectSize)
      ensures getSize(ptr) == 0 || toBig ==> held == old(held) && memoryHeld == old(memoryHeld) && bins == old(bins)
      ensures getSize(ptr) != 0 && !toBig ==>
        && held == old(held)[ptr := getSize(ptr)] && memoryHeld == old(memoryHeld) + getSize(ptr)
        && exists i :: 0 <= i < |old(bins)| && Home(getSize(ptr), i) && bins == old(bins)[i := [ptr] + old(bins)[i]]
    {
      var objectSize := getSize(ptr);
      if objectSize == 0 {
        return false;
      }
      if objectSize > maxObjectSize {
        return true;
      }
      toBig := false;
      var c: nat := classOf(objectSize);
      while classMax(c) > objectSize
        invariant c <= classOf(objectSize) && forall k :: c < k <= classOf(objectSize) ==> classMax(k) > objectSize
        decreases c
      {
        c := c - 1;
      }
      assert Home(objectSize, c);
      BinnedAfterPut(bins, held, c, ptr, objectSize);
      TotalSet(held, ptr, objectSize);
      hide Binned;
      bins, held := bins[c := [ptr] + bins[c]], held[ptr := objectSize];
      memoryHeld := memoryHeld + objectSize;
    }

    // The first object of a bin that is not empty.
    method Get(i: nat) returns (ptr: nat)
      requires Valid() && i < numBins && bins[i] != []
      modifies this`bins, this`held
      ensures Valid() && ptr == old(bins)[i][0] && ptr in old(held) && bins == old(bins)[i := old(bins)[i][1..]]
      ensures held == old(held) - {ptr} && classMax(i) <= getSize(ptr) && ptr != 0
    {
      ptr := bins[i][0];
      BinnedAfterGet(bins, held, i);
      TotalAt(held, ptr);
      assert ptr in bins[i];
      hide Binned;
      bins, held := bins[i := bins[i][1..]], held - {ptr};
    }

    // Everything in one bin goes to the big heap.
    method Drain(i: nat) returns (released: set<nat>)
      requires Valid() && i < numBins
      modifies this`bins, this`held
      ensures Valid() && bins == old(bins)[i := []]
      ensures released !! held.Keys && released + held.Keys == old(held).Keys
    {
      released := {};
      hide Binned, Total;
      while bins[i] != []
        invariant Valid() && bins == old(bins)[i := bins[i]]
        invariant released !! held.Keys && released + held.Keys == old(held).Keys
        decreases |bins[i]|
      {
        var ptr := Get(i);
        released := released + {ptr};
      }
    }

    // Everything in the bins goes to the big heap.
    method FreeAll() returns (released: set<nat>)
      requires Valid()
      modifies this
      ensures Valid() && held == map[] && memoryHeld == 0 && released == old(held).Keys
      ensures |bins| == |old(bins)| && forall i :: 0 <= i < |bins| ==> bins[i] == []
    {
      released := {};
      var i := 0;
      while i < numBins
        invariant 0 <= i <= numBins && Valid() && memoryHeld == old(memoryHeld)
        invariant released !! held.Keys && released + held.Keys == old(held).Keys
        invariant forall k :: 0 <= k < i ==> bins[k] == []
      {
        var drained := Drain(i);
        released := released + drained;
        i := i + 1;
      }
      assert held == map[];
      memoryHeld := 0;
    }
  }

  // How much the bins may hold for a peak of bytes in use.
  function Limit(peak: nat): nat {
    if peak == 0 then 0 else 16384 + peak / 2
  }

  class Threshold {
    const super: StrictSegHeap
    var inUse: nat
    var maxInUse: nat
    var threshold: nat
    ghost var live: map<nat, nat>

    // inUse is the size of everything in use, and what the bins hold stays within
    // 16384 bytes and half the peak.
    ghost predicate Valid()
      reads this, super
    {
      && super.Valid() && inUse == Total(live) && inUse <= maxInUse && threshold == Limit(maxInUse)
      && (forall p :: p in live ==> p != 0 && p !in super.held && live[p] == super.getSize(p))
      && super.memoryHeld <= threshold
    }

    constructor (heap: StrictSegHeap)
      requires heap.Valid() && heap.held == map[] && heap.memoryHeld == 0
      ensures Valid() && live == map[] && super == heap
    {
      super, inUse, maxInUse, threshold, live := heap, 0, 0, 0, map[];
    }

    method Malloc(sz: nat, supply: nat) returns (ptr: nat)
      requires Valid() && supply != 0 && supply !in super.held && supply !in live && sz <= super.getSize(supply)
      modifies this, super
      ensures Valid() && ptr !in old(live) && sz <= super.getSize(ptr) && live == old(live)[ptr := super.getSize(ptr)]
      ensures maxInUse == if Total(live) > old(maxInUse) then Total(live) else old(maxInUse)
      ensures super.memoryHeld == old(super.memoryHeld) && Total(super.held) <= 16384 + maxInUse / 2
      ensures if ptr in old(super.held) then super.held == old(super.held) - {ptr}
              else ptr == supply && super.held == old(super.held) && super.bins == old(super.bins)
    {
      hide Total, Binned, StrictSegHeap.Valid;
      ptr := super.Malloc(sz, supply);
      var actualSize := super.getSize(ptr);
      TotalSet(live, ptr, actualSize);
      live := live[ptr := actualSize];
      inUse := inUse + actualSize;
      if inUse > maxInUse {
        maxInUse := inUse;
        threshold := 16384 + maxInUse / 2;
      }
    }

    method Free(ptr: nat)
      requires Valid() && ptr in live && (super.getSize(ptr) != 0 ==> super.classMax(0) <= super.getSize(ptr))
      modifies this, super
      ensures Valid() && live == old(live) - {ptr} && maxInUse == old(maxInUse)
      ensures Total(super.held) <= 16384 + maxInUse / 2
      // The bins keep what is freed until it exceeds the limit, and then nothing.
      ensures var size := super.getSize(ptr);
        if size == 0 || size > super.maxObjectSize then
          super.held == old(super.held) && super.memoryHeld == old(super.memoryHeld)
        else if old(super.memoryHeld) + size <= 16384 + maxInUse / 2 then
          super.held == old(super.held)[ptr := size] && super.memoryHeld == old(super.memoryHeld) + size
        else
          super.held == map[] && super.memoryHeld == 0
    {
      hide Total, Binned, StrictSegHeap.Valid, StrictSegHeap.Home;
      var sz := super.getSize(ptr);
      TotalAt(live, ptr);
      inUse := inUse - sz;
      live := live - {ptr};
      var toBig := super.Free(ptr);
      if super.memoryHeld > threshold {
        var released := super.FreeAll();
      }
      super.HeldIsCounted();
    }
  }
}
