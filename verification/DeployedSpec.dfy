// Where the deployed allocator stack puts objects (xheap.h, zoneheap.h, xpheap.h,
// adapt.h, sllist.h): pages from the source, arenas in the pages, objects with a
// header in the arenas, and free lists threaded through the objects.

module DeployedSpec {
  import opened Kingsley

  const PAGE := 4096
  const OBJECT_HEADER := 16
  const ARENA_HEADER := 24
  const CHUNK := 1048576
  const NUM_HEAPS := 128
  const MAGIC := 0xCAFE_BABE

  datatype Arena = NoArena | Arena(space: nat, remaining: nat)

  // An object's header is in front of it; the sizes are those the headers record.
  type Objects = map<nat, nat>

  predicate Aligned(n: nat) {
    n % 8 == 0
  }

  lemma AlignedSum(a: nat, b: nat)
    requires Aligned(a) && Aligned(b)
    ensures Aligned(a + b)
  {
  }

  ghost predicate ObjectOk(objects: Objects, start: nat, position: nat, p: nat)
    requires p in objects
  {
    && start + OBJECT_HEADER <= p && p + objects[p] <= position
    && Aligned(p) && Aligned(objects[p]) && objects[p] >= 16
  }

  ghost predicate Apart(p: nat, size: nat, q: nat, sizeq: nat) {
    p + size + OBJECT_HEADER <= q || q + sizeq + OBJECT_HEADER <= p
  }

  ghost predicate ObjectsApart(objects: Objects) {
    forall p, q :: p in objects && q in objects && p != q ==> Apart(p, objects[p], q, objects[q])
  }

  ghost predicate ArenaOk(a: Arena, start: nat, position: nat) {
    a.Arena? ==> start <= a.space && a.space + a.remaining <= position && Aligned(a.space)
  }

  ghost predicate ArenasApart(a: Arena, b: Arena) {
    a.Arena? && b.Arena? ==> a.space + a.remaining <= b.space || b.space + b.remaining <= a.space
  }

  ghost predicate OutsideArena(p: nat, size: nat, a: Arena) {
    a.Arena? ==> p + size <= a.space || a.space + a.remaining + OBJECT_HEADER <= p
  }

  // Objects with their headers and the unused parts of the arenas are disjoint and
  // lie in the pages handed out so far.
  ghost predicate Placed(objects: Objects, arenas: seq<Arena>, start: nat, position: nat) {
    && Aligned(start) && Aligned(position)
    && (forall p {:trigger ObjectOk(objects, start, position, p)} :: p in objects ==>
       ObjectOk(objects, start, position, p))
    && ObjectsApart(objects)
    && (forall h :: 0 <= h < |arenas| ==> ArenaOk(arenas[h], start, position))
    && (forall h, k :: 0 <= h < k < |arenas| ==> ArenasApart(arenas[h], arenas[k]))
    && (forall h, p :: 0 <= h < |arenas| && p in objects ==> OutsideArena(p, objects[p], arenas[h]))
  }

  // An arena gives its lowest bytes to a new object and its header.
  lemma Carve(objects: Objects, arenas: seq<Arena>, start: nat, position: nat, h: nat, size: nat)
    requires Placed(objects, arenas, start, position) && h < |arenas| && arenas[h].Arena?
    requires Aligned(size) && size >= 16 && size + OBJECT_HEADER <= arenas[h].remaining
    ensures arenas[h].space + OBJECT_HEADER !in objects
    ensures Placed(objects[arenas[h].space + OBJECT_HEADER := size],
                   arenas[h := Arena(arenas[h].space + (size + OBJECT_HEADER),
                     arenas[h].remaining - (size + OBJECT_HEADER))],
                   start, position)
  {
    var p := arenas[h].space + OBJECT_HEADER;
    assert forall q :: q in objects ==> OutsideArena(q, objects[q], arenas[h]);
    assert ArenaOk(arenas[h], start, position);
    AlignedSum(arenas[h].space, OBJECT_HEADER);
    AlignedSum(p, size);
    hide Aligned;
    var objects' := objects[p := size];
    var arenas' := arenas[h := Arena(arenas[h].space + (size + OBJECT_HEADER),
      arenas[h].remaining - (size + OBJECT_HEADER))];
    forall q | q in objects' ensures ObjectOk(objects', start, position, q) {
      assert q != p ==> ObjectOk(objects, start, position, q);
    }
    forall k, j | 0 <= k < j < |arenas'| ensures ArenasApart(arenas'[k], arenas'[j]) {
      assert ArenasApart(arenas[k], arenas[j]);
    }
    forall k, q | 0 <= k < |arenas'| && q in objects' ensures OutsideArena(q, objects'[q], arenas'[k]) {
      if q == p && k != h {
        assert if k < h then ArenasApart(arenas[k], arenas[h]) else ArenasApart(arenas[h], arenas[k]);
      } else if q != p {
        assert OutsideArena(q, objects[q], arenas[k]) && ObjectOk(objects, start, position, q);
      }
    }
  }

  // New pages replace the arena of one heap.
  lemma NewArena(objects: Objects, arenas: seq<Arena>, start: nat, position: nat, h: nat, sz: nat, position': nat)
    requires Placed(objects, arenas, start, position) && h < |arenas| && start <= position
    requires position + ARENA_HEADER + sz <= position' && Aligned(position')
    ensures Placed(objects, arenas[h := Arena(position + ARENA_HEADER, sz)], start, position')
  {
    var arenas' := arenas[h := Arena(position + ARENA_HEADER, sz)];
    AlignedSum(position, ARENA_HEADER);
    hide Aligned;
    forall q | q in objects ensures ObjectOk(objects, start, position', q) && q + objects[q] <= position {
      assert ObjectOk(objects, start, position, q);
    }
    forall k, j | 0 <= k < j < |arenas'| ensures ArenasApart(arenas'[k], arenas'[j]) {
      assert ArenasApart(arenas[k], arenas[j]) && ArenaOk(arenas[k], start, position)
        && ArenaOk(arenas[j], start, position);
    }
  }

  // ----- memory -----

  // Whole words, each kept in the cell of its first byte.
  type Memory = map<nat, nat>

  function Word(mem: Memory, a: nat): nat {
    if a in mem then mem[a] else 0
  }

  ghost predicate Headers(mem: Memory, objects: Objects) {
    forall p :: p in objects ==>
      p >= OBJECT_HEADER && Word(mem, p - 16) == MAGIC && Word(mem, p - 8) == objects[p]
  }

  // The bytes of the object at p.
  ghost predicate SameBytes(mem: Memory, mem': Memory, p: nat, size: nat) {
    forall a :: p <= a < p + size ==> Word(mem', a) == Word(mem, a)
  }

  // The byte i of the object at p.
  function Cell(mem: Memory, p: nat, i: nat): nat {
    Word(mem, p + i)
  }

  // The first n bytes of the object q are those that p had.
  ghost predicate Copied(mem: Memory, p: nat, mem': Memory, q: nat, n: nat) {
    forall i: nat :: i < n ==> Cell(mem', q, i) == Cell(mem, p, i)
  }

  // The free list that starts at head, its links kept in the first word of each object.
  ghost predicate Chain(mem: Memory, head: nat, list: seq<nat>)
    decreases list
  {
    if list == [] then head == 0
    else head != 0 && head == list[0] && Chain(mem, Word(mem, head), list[1..])
  }

  lemma {:induction false} ChainKept(mem: Memory, mem': Memory, head: nat, list: seq<nat>)
    requires Chain(mem, head, list) && forall p :: p in list ==> Word(mem', p) == Word(mem, p)
    ensures Chain(mem', head, list)
    decreases list
  {
    if list != [] {
      ChainKept(mem, mem', Word(mem, head), list[1..]);
    }
  }

  // ----- the state of each object -----

  // In use; in the bin of one class of one heap; or dropped, as large objects are.
  datatype Status = Live | Binned(heap: nat, bin: nat) | Dropped

  // Every object in use, except the one at p, stays in use with its size and bytes.
  ghost predicate Kept(mem: Memory, objects: Objects, status: map<nat, Status>,
                       mem': Memory, objects': Objects, status': map<nat, Status>, p: nat)
  {
    forall q :: q in status && status[q] == Live && q in objects && q != p ==>
      && q in status' && status'[q] == Live && q in objects' && objects'[q] == objects[q]
      && SameBytes(mem, mem', q, objects[q])
  }

  type Bins<T> = seq<seq<T>>

  ghost predicate Shaped<T>(b: Bins<T>) {
    |b| == NUM_HEAPS && forall h :: 0 <= h < NUM_HEAPS ==> |b[h]| == NUMBINS
  }

  function Put<T>(b: Bins<T>, h: nat, c: nat, x: T): Bins<T>
    requires h < |b| && c < |b[h]|
  {
    b[h := b[h][c := x]]
  }

  ghost predicate NoRepeats(s: seq<nat>) {
    forall i, j :: 0 <= i < j < |s| ==> s[i] != s[j]
  }

  // A bin's list holds exactly the objects whose status says so, each once.
  ghost predicate BinOk(mem: Memory, objects: Objects, status: map<nat, Status>, heads: Bins<nat>,
                        lists: Bins<seq<nat>>, h: nat, c: nat)
    requires Shaped(heads) && Shaped(lists) && h < NUM_HEAPS && c < NUMBINS
  {
    && Chain(mem, heads[h][c], lists[h][c]) && NoRepeats(lists[h][c])
    && (forall p :: p in lists[h][c] ==> p in objects && objects[p] == Class2Size(c))
    && (forall p :: p in lists[h][c] <==> p in status && status[p] == Binned(h, c))
  }

  // Small objects have exactly the size of their class.
  ghost predicate Sized(size: nat) {
    size > MAX_SIZE || (size == Class2Size(SizeClass(size)) && SizeClass(size) < NUMBINS)
  }

  ghost predicate StatusOk(objects: Objects, status: map<nat, Status>, p: nat)
    requires p in objects && p in status
  {
    && Sized(objects[p])
    && match status[p]
       case Live => true
       case Binned(h, c) => h < NUM_HEAPS && c < NUMBINS && objects[p] == Class2Size(c)
       case Dropped => objects[p] > MAX_SIZE
  }

  ghost predicate Binnings(mem: Memory, objects: Objects, status: map<nat, Status>, heads: Bins<nat>,
                           lists: Bins<seq<nat>>) {
    && Shaped(heads) && Shaped(lists) && status.Keys == objects.Keys
    && (forall p {:trigger StatusOk(objects, status, p)} :: p in objects ==> StatusOk(objects, status, p))
    && forall h: nat, c: nat {:trigger BinOk(mem, objects, status, heads, lists, h, c)} ::
       h < NUM_HEAPS && c < NUMBINS ==>
         BinOk(mem, objects, status, heads, lists, h, c)
  }

  // A new live object, with any words written at it and in its header.
  lemma BinningsAfterNew(mem: Memory, objects: Objects, status: map<nat, Status>, heads: Bins<nat>,
                         lists: Bins<seq<nat>>, p: nat, size: nat, mem': Memory)
    requires Binnings(mem, objects, status, heads, lists) && p !in objects && Sized(size)
    requires forall q :: q in objects ==> Word(mem', q) == Word(mem, q)
    ensures Binnings(mem', objects[p := size], status[p := Live], heads, lists)
  {
    var objects', status' := objects[p := size], status[p := Live];
    forall q | q in objects' ensures StatusOk(objects', status', q) {
      assert q != p ==> StatusOk(objects, status, q);
    }
    forall h: nat, c: nat | h < NUM_HEAPS && c < NUMBINS ensures BinOk(mem', objects', status', heads, lists, h, c) {
      assert BinOk(mem, objects, status, heads, lists, h, c);
      ChainKept(mem, mem', heads[h][c], lists[h][c]);
    }
  }

  // The head of a list goes into use.
  lemma BinningsAfterGet(mem: Memory, objects: Objects, status: map<nat, Status>, heads: Bins<nat>,
                         lists: Bins<seq<nat>>, h: nat, c: nat)
    requires Binnings(mem, objects, status, heads, lists) && h < NUM_HEAPS && c < NUMBINS && heads[h][c] != 0
    ensures lists[h][c] != [] && lists[h][c][0] == heads[h][c]
    ensures var p := heads[h][c];
      && p in objects && p in status && status[p] == Binned(h, c) && objects[p] == Class2Size(c)
      && Binnings(mem, objects, status[p := Live], Put(heads, h, c, Word(mem, p)), Put(lists, h, c, lists[h][c][1..]))
  {
    assert BinOk(mem, objects, status, heads, lists, h, c);
    var p := heads[h][c];
    assert p in lists[h][c];
    var status' := status[p := Live];
    var heads', lists' := Put(heads, h, c, Word(mem, p)), Put(lists, h, c, lists[h][c][1..]);
    forall q | q in objects ensures StatusOk(objects, status', q) {
      assert StatusOk(objects, status, q);
    }
    forall h2: nat, c2: nat | h2 < NUM_HEAPS && c2 < NUMBINS
      ensures BinOk(mem, objects, status', heads', lists', h2, c2)
    {
      assert BinOk(mem, objects, status, heads, lists, h2, c2);
    }
  }

  // A live object goes to the front of a list of its class.
  lemma BinningsAfterPut(mem: Memory, objects: Objects, status: map<nat, Status>, heads: Bins<nat>,
                         lists: Bins<seq<nat>>, h: nat, c: nat, p: nat)
    requires Binnings(mem, objects, status, heads, lists) && h < NUM_HEAPS && c < NUMBINS
    requires p != 0 && p in status && status[p] == Live && objects[p] == Class2Size(c)
    ensures Binnings(mem[p := heads[h][c]], objects, status[p := Binned(h, c)],
                     Put(heads, h, c, p), Put(lists, h, c, [p] + lists[h][c]))
  {
    var mem', status' := mem[p := heads[h][c]], status[p := Binned(h, c)];
    var heads', lists' := Put(heads, h, c, p), Put(lists, h, c, [p] + lists[h][c]);
    forall q | q in objects ensures StatusOk(objects, status', q) {
      assert StatusOk(objects, status, q);
    }
    forall h2: nat, c2: nat | h2 < NUM_HEAPS && c2 < NUMBINS
      ensures BinOk(mem', objects, status', heads', lists', h2, c2)
    {
      assert BinOk(mem, objects, status, heads, lists, h2, c2);
      assert p !in lists[h2][c2];
      ChainKept(mem, mem', heads[h2][c2], lists[h2][c2]);
      if h2 == h && c2 == c {
        assert lists'[h][c][1..] == lists[h][c];
      }
    }
  }

  // A live object that is too large for the bins is forgotten.
  lemma BinningsAfterDrop(mem: Memory, objects: Objects, status: map<nat, Status>, heads: Bins<nat>,
                          lists: Bins<seq<nat>>, p: nat)
    requires Binnings(mem, objects, status, heads, lists)
    requires p in status && status[p] == Live && objects[p] > MAX_SIZE
    ensures Binnings(mem, objects, status[p := Dropped], heads, lists)
  {
    var status' := status[p := Dropped];
    forall q | q in objects ensures StatusOk(objects, status', q) {
      assert StatusOk(objects, status, q);
    }
    forall h: nat, c: nat | h < NUM_HEAPS && c < NUMBINS ensures BinOk(mem, objects, status', heads, lists, h, c) {
      assert BinOk(mem, objects, status, heads, lists, h, c);
    }
  }

  // Stores inside an object reach no other object, no header and, when the object
  // is in use, no free list.
  lemma StoreInside(mem: Memory, objects: Objects, arenas: seq<Arena>, start: nat, position: nat, p: nat, a: nat,
                    v: nat)
    requires Placed(objects, arenas, start, position) && Headers(mem, objects)
    requires p in objects && p <= a < p + objects[p]
    ensures Headers(mem[a := v], objects)
    ensures forall q :: q in objects && q != p ==>
      SameBytes(mem, mem[a := v], q, objects[q]) && Word(mem[a := v], q) == Word(mem, q)
  {
    assert ObjectOk(objects, start, position, p);
    forall q | q in objects
      ensures Word(mem[a := v], q - 16) == Word(mem, q - 16) && Word(mem[a := v], q - 8) == Word(mem, q - 8)
    {
      assert ObjectOk(objects, start, position, q);
      assert q != p ==> Apart(p, objects[p], q, objects[q]);
    }
    forall q | q in objects && q != p
      ensures SameBytes(mem, mem[a := v], q, objects[q]) && Word(mem[a := v], q) == Word(mem, q)
    {
      assert ObjectOk(objects, start, position, q) && Apart(p, objects[p], q, objects[q]);
    }
  }

  lemma BinningsAfterStore(mem: Memory, objects: Objects, status: map<nat, Status>, heads: Bins<nat>,
                           lists: Bins<seq<nat>>, p: nat, mem': Memory)
    requires Binnings(mem, objects, status, heads, lists) && p in status && status[p] == Live
    requires forall q :: q in objects && q != p ==> Word(mem', q) == Word(mem, q)
    ensures Binnings(mem', objects, status, heads, lists)
  {
    forall h: nat, c: nat | h < NUM_HEAPS && c < NUMBINS ensures BinOk(mem', objects, status, heads, lists, h, c) {
      assert BinOk(mem, objects, status, heads, lists, h, c);
      ChainKept(mem, mem', heads[h][c], lists[h][c]);
    }
  }

  // ----- what the invariant means -----

  lemma ObjectInPages(objects: Objects, arenas: seq<Arena>, start: nat, position: nat, p: nat)
    requires Placed(objects, arenas, start, position) && p in objects
    ensures start + OBJECT_HEADER <= p && p + objects[p] <= position
  {
    assert ObjectOk(objects, start, position, p);
  }

  // No byte belongs to two objects, headers included, and all lie in the pages.
  lemma ObjectsDisjoint(objects: Objects, arenas: seq<Arena>, start: nat, position: nat, p: nat, q: nat, a: int)
    requires Placed(objects, arenas, start, position) && p in objects && q in objects && p != q
    ensures p >= OBJECT_HEADER && q >= OBJECT_HEADER
    ensures p - OBJECT_HEADER <= a < p + objects[p] ==>
      start <= a < position && !(q - OBJECT_HEADER <= a < q + objects[q])
  {
    assert ObjectOk(objects, start, position, p) && ObjectOk(objects, start, position, q);
    assert Apart(p, objects[p], q, objects[q]);
  }

  // A freed small object is in one bin of one heap, at one place, under its own class.
  lemma FreedInOneBin(mem: Memory, objects: Objects, status: map<nat, Status>, heads: Bins<nat>,
                      lists: Bins<seq<nat>>, p: nat)
      returns (h: nat, c: nat, i: nat)
    requires Binnings(mem, objects, status, heads, lists) && p in objects && status[p] != Live && objects[p] <= MAX_SIZE
    ensures h < NUM_HEAPS && c == SizeClass(objects[p]) && c < NUMBINS && i < |lists[h][c]| && lists[h][c][i] == p
    ensures forall h2: nat, c2: nat, i2: nat ::
      h2 < NUM_HEAPS && c2 < NUMBINS && i2 < |lists[h2][c2]| && lists[h2][c2][i2] == p ==>
      h2 == h && c2 == c && i2 == i
  {
    assert StatusOk(objects, status, p);
    h, c := status[p].heap, status[p].bin;
    ClassOfClassSize(c);
    assert BinOk(mem, objects, status, heads, lists, h, c);
    assert p in lists[h][c];
    i :| 0 <= i < |lists[h][c]| && lists[h][c][i] == p;
    forall h2: nat, c2: nat, i2: nat | h2 < NUM_HEAPS && c2 < NUMBINS && i2 < |lists[h2][c2]| && lists[h2][c2][i2] == p
      ensures h2 == h && c2 == c && i2 == i
    {
      assert BinOk(mem, objects, status, heads, lists, h2, c2);
      assert p in lists[h2][c2];
    }
  }
}
