// The best-fit heap that keeps its free objects as nodes of a treap, keyed by
// size (experimental/cartesianheap.h).

module CartesianHeap {
  import opened TreapShape
  import opened TreapOrder
  import Treap

  const WORD := 0x1_0000_0000

  class CartesianHeap {
    const nodeSize: nat
    const treap: Treap.Treap
    // The size that the header of each object ever obtained records.
    var sizes: map<nat, nat>

    // Free objects: each is its own treap node.
    ghost function Free(): set<nat>
      reads treap
    {
      treap.mem.Keys
    }

    ghost predicate Valid()
      reads this, treap
    {
      && treap.Valid()
      && (forall p :: p in sizes ==> p != 0 && nodeSize <= sizes[p])
      && forall p :: p in treap.mem ==>
           && p in sizes && treap.mem[p].key == sizes[p]
           && treap.mem[p].value == p && treap.mem[p].priority == p % WORD
    }

    constructor (nodeSize: nat)
      ensures Valid() && this.nodeSize == nodeSize && Free() == {} && sizes == map[] && fresh(treap)
    {
      this.nodeSize := nodeSize;
      treap := new Treap.Treap();
      sizes := map[];
      new;
      assert treap.mem.Keys == Entries(treap.mem).Keys;
    }

    // A free object of the smallest sufficient size when there is one, a new object
    // from the super heap otherwise; nothing else changes. Every object is large enough
    // for a node, whatever was asked for.
    method Malloc(sz: nat, supply: nat, supplySize: nat) returns (ptr: nat)
      requires Valid() && supply != 0 && supply !in sizes && sz <= supplySize && nodeSize <= supplySize
      modifies this, treap
      ensures Valid() && ptr in sizes && old(sizes).Keys <= sizes.Keys
      ensures sz <= sizes[ptr] && nodeSize <= sizes[ptr]
      ensures ptr in old(Free()) <==> exists p :: p in old(Free()) && p in old(sizes) && sz <= old(sizes)[p]
      ensures ptr in old(Free()) ==> Free() == old(Free()) - {ptr} && sizes == old(sizes)
      ensures ptr in old(Free()) ==>
        forall p :: p in old(Free()) && p in sizes && sz <= sizes[p] ==> sizes[ptr] <= sizes[p]
      ensures ptr !in old(Free()) ==>
        ptr == supply && Free() == old(Free()) && sizes == old(sizes)[supply := supplySize]
    {
      var want := if sz < nodeSize then nodeSize else sz;
      var n := treap.LookupGeq(want);
      ZeroIsNull(treap.mem, treap.at, treap.root);
      if n != 0 {
        assert treap.mem[n].value == n;
        ptr := treap.mem[n].value;
        Remove(n);
      } else {
        ptr := supply;
        sizes := sizes[supply := supplySize];
      }
    }

    method Release(ptr: nat)
      requires Valid() && ptr in sizes && ptr !in Free()
      modifies treap
      ensures Valid() && Free() == old(Free()) + {ptr}
    {
      ghost var before := treap.mem;
      treap.Insert(ptr, sizes[ptr], ptr, ptr % WORD);
      hide Treap.Treap.Valid;
      assert treap.mem.Keys == Entries(treap.mem).Keys;
      assert before.Keys == Entries(before).Keys;
      forall p | p in treap.mem ensures
        p in sizes && treap.mem[p].key == sizes[p] && treap.mem[p].value == p && treap.mem[p].priority == p % WORD
      {
        assert Entries(treap.mem)[p] == if p == ptr then Entry(ptr % WORD, sizes[ptr], ptr) else Entries(before)[p];
      }
    }

    method Remove(ptr: nat)
      requires Valid() && ptr in Free()
      modifies treap
      ensures Valid() && Free() == old(Free()) - {ptr}
    {
      ghost var before := treap.mem;
      ZeroIsNull(treap.mem, treap.at, treap.root);
      var node := treap.Remove(ptr);
      hide Treap.Treap.Valid;
      assert treap.mem.Keys == Entries(treap.mem).Keys;
      assert before.Keys == Entries(before).Keys;
      forall p | p in treap.mem ensures
        p in sizes && treap.mem[p].key == sizes[p] && treap.mem[p].value == p && treap.mem[p].priority == p % WORD
      {
        assert Entries(treap.mem)[p] == Entries(before)[p];
      }
    }
  }
}
