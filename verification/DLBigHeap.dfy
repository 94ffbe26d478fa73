// The segregated-fits heap with the big Lea heap's classes (dlheap.h).

module DLBigHeap {
  import DLBigClasses
  import SegHeap

  // The size less one is computed in 32 bits, so that of no bytes wraps around.
  function ClassOf(sz: nat): nat {
    DLBigClasses.SizeClass(if sz == 0 then 0x1_0000_0000 else sz)
  }

  // A request of no bytes has no bin.
  lemma ZeroHasNoClass()
    ensures ClassOf(0) == DLBigClasses.NUMBINS
  {
    assert DLBigClasses.Log2(8191) == 12;
  }

  function ClassMax(i: nat): nat {
    if i < |DLBigClasses.BINS| then DLBigClasses.BINS[i] else 0
  }

  lemma LargestClass()
    ensures ClassMax(DLBigClasses.NUMBINS - 1) == DLBigClasses.BIG_OBJECT
  {
    DLBigClasses.HigherClassesCover(DLBigClasses.BIG_OBJECT, DLBigClasses.NUMBINS - 1);
  }

  // What the heap asks of its classes.
  lemma ClassesMeet(sz: nat)
    requires 1 <= sz <= DLBigClasses.BIG_OBJECT
    ensures ClassOf(sz) < DLBigClasses.NUMBINS
    ensures forall i :: ClassOf(sz) <= i < DLBigClasses.NUMBINS ==> sz <= ClassMax(i)
  {
    DLBigClasses.ClassCovers(sz);
    forall i | ClassOf(sz) <= i < DLBigClasses.NUMBINS ensures sz <= ClassMax(i) {
      DLBigClasses.HigherClassesCover(sz, i);
    }
  }

  // Every object that this heap finds in a bin is large enough.
  method NewHeap(getSize: nat -> nat) returns (heap: SegHeap.SegHeap)
    ensures heap.Valid() && heap.maxObjectSize == DLBigClasses.BIG_OBJECT
    ensures heap.classOf == ClassOf && heap.classMax == ClassMax && heap.getSize == getSize
  {
    LargestClass();
    forall sz | 1 <= sz <= DLBigClasses.BIG_OBJECT
      ensures ClassOf(sz) < DLBigClasses.NUMBINS
      ensures forall i :: ClassOf(sz) <= i < DLBigClasses.NUMBINS ==> sz <= ClassMax(i)
    {
      ClassesMeet(sz);
    }
    hide *;
    heap := new SegHeap.SegHeap(DLBigClasses.NUMBINS, ClassOf, ClassMax, getSize);
  }
}
