// The allocator stack that the library deploys (xheap.h, zoneheap.h, segheap.h,
// adapt.h, xpheap.h, ansiwrapper.h, xmemory.h): one source of pages, and 128 heaps
// that may each free what another one allocated.

module DeployedHeap {
  import opened Alignment
  import opened Kingsley
  import opened Powers
  import opened DeployedSpec
  import opened DeployedTrace

  function Pages(sz: nat): (r: nat)
    ensures sz <= r < sz + PAGE && r % PAGE == 0
  {
    PAGE * ((sz + PAGE - 1) / PAGE)
  }

  lemma AlignIs(sz: nat)
    requires Aligned(sz)
    ensures Align(sz) == sz
  {
  }

  // The size that a request is rounded to before it reaches the bins.
  function Rounded(sz: nat): nat {
    Align(if sz < 16 then 16 else sz)
  }

  // The size of the object that serves a request.
  function ObjectSize(sz: nat): nat {
    if Rounded(sz) <= MAX_SIZE then Class2Size(SizeClass(Rounded(sz))) else Rounded(sz)
  }

  lemma RoundedIs(sz: nat)
    ensures sz <= Rounded(sz) && 16 <= Rounded(sz) && Rounded(sz) % 8 == 0
    ensures Rounded(sz) < 24 || Rounded(sz) < sz + 8
  {
    hide Align;
  }

  lemma ClassIsAligned(c: nat)
    ensures Class2Size(c) % 8 == 0
  {
    hide Pow2;
  }

  lemma ObjectSizeCovers(sz: nat)
    ensures sz <= ObjectSize(sz) && 16 <= ObjectSize(sz) && Aligned(ObjectSize(sz))
    ensures ObjectSize(sz) <= MAX_SIZE ==>
      Rounded(sz) <= MAX_SIZE && SizeClass(ObjectSize(sz)) == SizeClass(Rounded(sz))
    ensures Sized(ObjectSize(sz))
    ensures Rounded(sz) <= MAX_SIZE ==> ObjectSize(sz) <= MAX_SIZE && SizeClass(Rounded(sz)) < NUMBINS
  {
    hide Rounded, SizeClass, Align, Class2Size;
    var r := Rounded(sz);
    RoundedIs(sz);
    ClassIsAligned(SizeClass(r));
    if r <= MAX_SIZE {
      ClassSizeIsLeast(r, NUMBINS - 1);
      ClassExists(r);
      ClassOfClassSize(SizeClass(r));
    }
  }

  // The least class size that covers the request and sixteen bytes, and for a request
  // above all classes the next multiple of eight.
  lemma ObjectSizeIsLeast(sz: nat, c: nat)
    ensures sz <= MAX_SIZE ==> exists k: nat :: k < NUMBINS && ObjectSize(sz) == Class2Size(k)
    ensures sz <= MAX_SIZE && sz <= Class2Size(c) && 16 <= Class2Size(c) ==> ObjectSize(sz) <= Class2Size(c)
    ensures sz > MAX_SIZE ==> sz <= ObjectSize(sz) < sz + 8 && ObjectSize(sz) % 8 == 0
  {
    hide Rounded, Class2Size, SizeClass;
    var r, b := Rounded(sz), Class2Size(c);
    ClassIsAligned(c);
    RoundedIs(sz);
    ClassSizeIsLeast(r, c);
    if r <= MAX_SIZE {
      ClassExists(r);
    }
  }

  // An address belongs to an object or its header.
  ghost predicate Occupies(p: nat, size: nat, a: int) {
    p - OBJECT_HEADER <= a < p + size
  }

  class XpHeap {
    // the source of pages
    var start: nat
    var position: nat
    var remaining: nat
    // the arena in use of each heap, and the heads of its free lists
    var arenas: seq<Arena>
    var heads: Bins<nat>
    // memory: object headers, free-list links and what the program stores
    var mem: Memory
    ghost var objects: Objects
    ghost var status: map<nat, Status>
    ghost var lists: Bins<seq<nat>>

    ghost predicate Sourced()
      reads this`start, this`position
    {
      0 < start <= position && start % PAGE == 0 && position % PAGE == 0
    }

    ghost predicate Valid()
      reads this
    {
      && Sourced() && |arenas| == NUM_HEAPS && Placed(objects, arenas, start, position)
      && Headers(mem, objects) && Binnings(mem, objects, status, heads, lists)
    }

    constructor (start: nat, size: nat)
      requires start > 0 && start % PAGE == 0
      ensures Valid() && this.start == position == start && remaining == size && objects == map[]
    {
      this.start, position, remaining := start, start, size;
      arenas := seq(NUM_HEAPS, h => NoArena);
      heads := seq(NUM_HEAPS, h => seq(NUMBINS, c => 0));
      lists := seq(NUM_HEAPS, h => seq(NUMBINS, c => []));
      mem, objects, status := map[], map[], map[];
    }

    // xheap: whole pages from the bump pointer.
    method SourceMalloc(sz: nat) returns (p: nat)
      requires Sourced() && Pages(sz) <= remaining
      modifies this`position, this`remaining
      ensures p == old(position) && position == old(position) + Pages(sz) && remaining == old(remaining) - Pages(sz)
      ensures Sourced()
    {
      p := position;
      remaining := remaining - Pages(sz);
      position := position + Pages(sz);
    }

    lemma PagesAreAligned()
      requires Sourced()
      ensures Aligned(position)
    {
      assert position == 8 * (PAGE / 8 * (position / PAGE));
    }

    lemma StartsBelow()
      requires Sourced()
      ensures start <= position
    {
    }

    // The pages that heap h has to get for sz bytes: none while its arena has room.
    function ZoneNeeds(h: nat, sz: nat): nat
      requires h < |arenas|
      reads this`arenas
    {
      if arenas[h].Arena? && arenas[h].remaining >= Align(sz) then 0
      else Pages(ARENA_HEADER + if CHUNK < Align(sz) then Align(sz) else CHUNK)
    }

    // ZoneHeap: makes sure that heap h's arena has room for sz aligned bytes.
    method Refill(h: nat, sz: nat)
      requires Valid() && h < NUM_HEAPS && Aligned(sz) && ZoneNeeds(h, sz) <= remaining
      modifies this`position, this`remaining, this`arenas
      ensures Valid() && arenas[h].Arena? && sz <= arenas[h].remaining
      ensures old(arenas[h]).Arena? && sz <= old(arenas[h]).remaining ==>
        arenas == old(arenas) && position == old(position) && remaining == old(remaining)
      ensures old(arenas[h]).NoArena? || old(arenas[h]).remaining < sz ==>
        var room := if sz < 1048576 then 1048576 else sz;
        && arenas == old(arenas)[h := Arena(old(position) + ARENA_HEADER, room)]
        && ARENA_HEADER + room <= position - old(position) < ARENA_HEADER + room + PAGE
        && position + remaining == old(position) + old(remaining)
      ensures position == old(position) + old(ZoneNeeds(h, sz)) && remaining == old(remaining) - old(ZoneNeeds(h, sz))
    {
      hide Placed, Headers, Binnings, Pages, Sourced;
      AlignIs(sz);
      if arenas[h].NoArena? || arenas[h].remaining < sz {
        var allocSize := if CHUNK < sz then sz else CHUNK;
        StartsBelow();
        var buf := SourceMalloc(ARENA_HEADER + allocSize);
        PagesAreAligned();
        NewArena(objects, arenas, start, buf, h, allocSize, position);
        arenas := arenas[h := Arena(buf + ARENA_HEADER, allocSize)];
      }
    }

    // AdaptAppHeap over ZoneHeap: a new object behind its header.
    method BigMalloc(h: nat, sz: nat) returns (p: nat)
      requires Valid() && h < NUM_HEAPS && Aligned(sz) && 16 <= sz && Sized(sz)
        && ZoneNeeds(h, sz + OBJECT_HEADER) <= remaining
      modifies this
      ensures Valid() && p !in old(objects) && objects == old(objects)[p := sz] && status == old(status)[p := Live]
      ensures heads == old(heads) && lists == old(lists) && start == old(start)
      // From the arena while there is room for the object and its header, at the front
      // of new pages otherwise.
      ensures old(arenas[h]).Arena? && sz + OBJECT_HEADER <= old(arenas[h]).remaining ==>
        && position == old(position) && remaining == old(remaining) && p == old(arenas[h]).space + OBJECT_HEADER
        && arenas == old(arenas)[h := Arena(old(arenas[h]).space + (sz + OBJECT_HEADER),
                                            old(arenas[h]).remaining - (sz + OBJECT_HEADER))]
      ensures old(arenas[h]).NoArena? || old(arenas[h]).remaining < sz + OBJECT_HEADER ==>
        var room := if sz + OBJECT_HEADER < 1048576 then 1048576 else sz + OBJECT_HEADER;
        && p == old(position) + ARENA_HEADER + OBJECT_HEADER
        && arenas == old(arenas)[h := Arena(p + sz, room - (sz + OBJECT_HEADER))]
        && ARENA_HEADER + room <= position - old(position) < ARENA_HEADER + room + PAGE
        && position + remaining == old(position) + old(remaining)
      ensures Kept(old(mem), old(objects), old(status), mem, objects, status, 0)
    {
      AlignedSum(sz, OBJECT_HEADER);
      hide Placed, Binnings, Headers, Sized, Kept, Aligned, ZoneNeeds, Sourced;
      Refill(h, sz + OBJECT_HEADER);
      p := PlaceObject(h, sz);
    }

    // The bump within the arena, and the header words.
    method PlaceObject(h: nat, sz: nat) returns (p: nat)
      requires Valid() && h < NUM_HEAPS && Aligned(sz) && 16 <= sz && Sized(sz)
      requires arenas[h].Arena? && sz + OBJECT_HEADER <= arenas[h].remaining
      modifies this`arenas, this`mem, this`objects, this`status
      ensures p == old(arenas[h]).space + OBJECT_HEADER
      ensures arenas == old(arenas)[h := Arena(old(arenas[h]).space + (sz + OBJECT_HEADER),
                                               old(arenas[h]).remaining - (sz + OBJECT_HEADER))]
      ensures Valid() && p !in old(objects) && objects == old(objects)[p := sz] && status == old(status)[p := Live]
      ensures Kept(old(mem), old(objects), old(status), mem, objects, status, 0)
    {
      hide Placed, Binnings, Headers, Sized, Kept, Aligned, Sourced;
      NewObject(mem, objects, status, heads, lists, arenas, start, position, h, sz);
      var ptr := arenas[h].space;
      p := ptr + OBJECT_HEADER;
      arenas := arenas[h := Arena(ptr + (sz + OBJECT_HEADER), arenas[h].remaining - (sz + OBJECT_HEADER))];
      mem := mem[ptr := MAGIC][ptr + 8 := sz];
      objects, status := objects[p := sz], status[p := Live];
    }

    // What the header in front of an object says.
    function HeaderSize(p: nat): nat
      reads this`mem
    {
      if p < 8 then 0 else Word(mem, p - 8)
    }

    // getSize, which the library asks for whatever pointer it is given: the header's
    // size, and 0 for NULL.
    function GetSize(p: nat): nat
      reads this`mem
    {
      if p != 0 then HeaderSize(p) else 0
    }

    // For every object and for NULL, getSize is the size; it reads no header for NULL.
    lemma SizeIsRecorded(p: nat)
      requires Valid() && (p != 0 ==> p in objects)
      ensures GetSize(p) == (if p == 0 then 0 else objects[p]) && (p != 0 ==> p >= OBJECT_HEADER && objects[p] >= 16)
    {
      if p != 0 {
        assert ObjectOk(objects, start, position, p);
      }
    }

    // The bin of the request's class holds something.
    predicate IsBinned(h: nat, sz: nat)
      reads this`heads
    {
      && Rounded(sz) <= MAX_SIZE && h < |heads| && SizeClass(Rounded(sz)) < |heads[h]|
      && heads[h][SizeClass(Rounded(sz))] != 0
    }

    // The pages that a request needs: none when its bin holds something.
    function MallocNeeds(h: nat, sz: nat): nat
      requires h < |arenas|
      reads this`arenas, this`heads
    {
      if IsBinned(h, sz) then 0 else ZoneNeeds(h, ObjectSize(sz) + OBJECT_HEADER)
    }

    // malloc on heap h: from its bin when there is something in it, new otherwise.
    method Malloc(h: nat, sz: nat) returns (p: nat)
      requires Valid() && h < NUM_HEAPS && MallocNeeds(h, sz) <= remaining
      modifies this
      ensures Valid() && p in objects && sz <= objects[p] && objects[p] == ObjectSize(sz)
      ensures p in old(status) ==> old(status)[p] != Live
      ensures objects == old(objects)[p := ObjectSize(sz)] && status == old(status)[p := Live]
      ensures Kept(old(mem), old(objects), old(status), mem, objects, status, 0)
      ensures Rounded(sz) <= MAX_SIZE ==> SizeClass(Rounded(sz)) < NUMBINS
      ensures if Rounded(sz) <= MAX_SIZE && old(lists)[h][SizeClass(Rounded(sz))] != [] then
                && old(lists)[h][SizeClass(Rounded(sz))] == [p] + lists[h][SizeClass(Rounded(sz))]
                && lists == Put(old(lists), h, SizeClass(Rounded(sz)), lists[h][SizeClass(Rounded(sz))])
              else
                p !in old(objects) && lists == old(lists)
      // No page is taken for an object that was freed before, or that the arena has room for.
      ensures p in old(objects) ==> arenas == old(arenas) && position == old(position) && remaining == old(remaining)
      ensures old(arenas[h]).Arena? && objects[p] + OBJECT_HEADER <= old(arenas[h]).remaining ==>
        position == old(position) && remaining == old(remaining)
      ensures var room := if objects[p] + OBJECT_HEADER < 1048576 then 1048576 else objects[p] + OBJECT_HEADER;
        && 0 <= position - old(position) < ARENA_HEADER + room + PAGE
        && position + remaining == old(position) + old(remaining)
    {
      hide Placed, Headers, Rounded, SizeClass, Class2Size, Sized, Kept;
      ObjectSizeCovers(sz);
      if Rounded(sz) <= MAX_SIZE {
        var sizeClass := Size2Class(Rounded(sz));
        var objectSize := Class2Size(sizeClass);
        p := heads[h][sizeClass];
        assert BinOk(mem, objects, status, heads, lists, h, sizeClass);
        if p != 0 {
          BinningsAfterGet(mem, objects, status, heads, lists, h, sizeClass);
          ghost var list := lists[h][sizeClass];
          KeptByStatus(mem, objects, status, mem, p, Live);
          hide Binnings;
          heads := Put(heads, h, sizeClass, Word(mem, p));
          lists := Put(lists, h, sizeClass, list[1..]);
          status := status[p := Live];
          assert objects == objects[p := objectSize];
        } else {
          hide Binnings;
          p := BigMalloc(h, objectSize);
        }
      } else {
        hide Binnings;
        p := BigMalloc(h, Rounded(sz));
      }
    }

    // The highest class, from the object's own downwards, that it is large enough for.
    method FloorClass(objectSize: nat) returns (c: nat)
      requires 8 <= objectSize
      ensures c <= SizeClass(objectSize) && Class2Size(c) <= objectSize
      ensures forall k :: c < k <= SizeClass(objectSize) ==> Class2Size(k) > objectSize
    {
      c := Size2Class(objectSize);
      while Class2Size(c) > objectSize
        invariant c <= SizeClass(objectSize)
        invariant forall k :: c < k <= SizeClass(objectSize) ==> Class2Size(k) > objectSize
      {
        c := c - 1;
      }
    }

    lemma LiveObject(p: nat)
      requires Valid() && p in status
      ensures p in objects && Sized(objects[p]) && Shaped(heads) && Shaped(lists)
    {
      assert StatusOk(objects, status, p);
    }

    // free on heap h, which need not be the heap that the object came from.
    method Free(h: nat, p: nat)
      requires Valid() && h < NUM_HEAPS && (p != 0 ==> p in status && status[p] == Live)
      modifies this`mem, this`heads, this`lists, this`status
      ensures Valid()
      ensures p == 0 ==> mem == old(mem) && heads == old(heads) && lists == old(lists) && status == old(status)
      ensures p != 0 && objects[p] > MAX_SIZE ==>
        status == old(status)[p := Dropped] && mem == old(mem) && lists == old(lists)
      ensures p != 0 && objects[p] <= MAX_SIZE ==>
        && SizeClass(objects[p]) < NUMBINS && status == old(status)[p := Binned(h, SizeClass(objects[p]))]
        && lists == Put(old(lists), h, SizeClass(objects[p]), [p] + old(lists)[h][SizeClass(objects[p])])
      ensures Kept(old(mem), objects, old(status), mem, objects, status, p)
    {
      hide Placed, Binnings, Headers, Sized, Kept, SizeClass, Class2Size;
      KeptSame(mem, objects, status, p);
      if p != 0 {
        LiveObject(p);
        SizeIsRecorded(p);
        var objectSize := GetSize(p);
        if objectSize != 0 {
          if objectSize > MAX_SIZE {
            BinningsAfterDrop(mem, objects, status, heads, lists, p);
            KeptByStatus(mem, objects, status, mem, p, Dropped);
            status := status[p := Dropped];
          } else {
            var sizeClass := FloorClass(objectSize);
            FloorIsClass(objectSize, sizeClass);
            FreedObject(mem, objects, status, heads, lists, arenas, start, position, h, sizeClass, p);
            mem := mem[p := heads[h][sizeClass]];
            heads, lists := Put(heads, h, sizeClass, p), Put(lists, h, sizeClass, [p] + lists[h][sizeClass]);
            status := status[p := Binned(h, sizeClass)];
          }
        }
      }
    }

    // What the program stores in an object that it holds.
    method Store(p: nat, a: nat, v: nat)
      requires Valid() && p in status && status[p] == Live && p in objects && p <= a < p + objects[p]
      modifies this`mem
      ensures Valid() && mem == old(mem)[a := v] && Kept(old(mem), objects, status, mem, objects, status, p)
    {
      StoreInside(mem, objects, arenas, start, position, p, a, v);
      BinningsAfterStore(mem, objects, status, heads, lists, p, mem[a := v]);
      hide Placed, Headers, Binnings, SameBytes;
      mem := mem[a := v];
    }

    // memcpy of the first n bytes from one object in use to another one.
    method Copy(p: nat, q: nat, n: nat)
      requires Valid() && p != q && p in status && status[p] == Live && p in objects && n <= objects[p]
      requires q in status && status[q] == Live && q in objects && n <= objects[q]
      modifies this`mem
      ensures Valid() && Copied(old(mem), p, mem, q, n) && Kept(old(mem), objects, status, mem, objects, status, q)
    {
      var i := 0;
      hide Placed, Headers, Binnings;
      while i < n
        invariant 0 <= i <= n && Valid()
        invariant Copied(old(mem), p, mem, q, i) && Kept(old(mem), objects, status, mem, objects, status, q)
      {
        assert Cell(mem, p, i) == Cell(old(mem), p, i);
        Store(q, q + i, Word(mem, p + i));
        i := i + 1;
      }
    }

    // realloc as the library exports it: always a new object, the common part copied,
    // the old object freed.
    method Realloc(h: nat, p: nat, sz: nat) returns (q: nat)
      requires Valid() && h < NUM_HEAPS && (p != 0 ==> p in status && status[p] == Live && p in objects)
      requires MallocNeeds(h, sz) <= remaining
      modifies this
      ensures Valid() && q in status && status[q] == Live && q != p && q in objects && sz <= objects[q]
      ensures q in old(status) ==> old(status)[q] != Live
      ensures objects == old(objects)[q := ObjectSize(sz)]
      ensures p != 0 ==> p in status && status[p] != Live && p in old(objects)
      // The old object goes where a free on the same heap puts it.
      ensures status ==
        if p == 0 then old(status)[q := Live]
        else if old(objects)[p] > MAX_SIZE then old(status)[q := Live][p := Dropped]
        else old(status)[q := Live][p := Binned(h, SizeClass(old(objects)[p]))]
      ensures p != 0 ==> Copied(old(mem), p, mem, q, if old(objects)[p] < sz then old(objects)[p] else sz)
      ensures Kept(old(mem), old(objects), old(status), mem, objects, status, p)
    {
      ghost var m0, o0, s0 := mem, objects, status;
      SizeIsRecorded(p);
      var s := GetSize(p);
      hide GetSize, Placed, Headers, Binnings, Rounded, SizeClass, Class2Size, ObjectSize;
      q := Malloc(h, sz);
      ghost var m1 := mem;
      assert Kept(m0, o0, s0, m1, objects, status, p);
      if s != 0 {
        Copy(p, q, if s < sz then s else sz);
        CopiedFrom(m0, m1, mem, p, q, if s < sz then s else sz, o0[p]);
        KeptTwice(m0, o0, s0, m1, objects, status, mem, objects, status, p, q);
      }
      ghost var m2, s2 := mem, status;
      Free(h, p);
      KeptTwice(m0, o0, s0, m2, objects, s2, mem, objects, status, p, p);
      if p != 0 {
        assert SameBytes(m2, mem, q, objects[q]);
        CopiedStays(m0, p, m2, mem, q, if s < sz then s else sz, objects[q]);
      }
    }

    // What only new pages can serve: an object of this size, with an empty bin of its
    // size in heap h and no room for it in the arena.
    ghost predicate NeedsPages(h: nat, size: nat)
      reads this`lists, this`arenas, this`remaining
    {
      && (forall c :: h < |lists| && 0 <= c < |lists[h]| && Class2Size(c) == size ==> lists[h][c] == [])
      && h < |arenas| && (arenas[h].Arena? ==> arenas[h].remaining < size + OBJECT_HEADER)
      && remaining < ARENA_HEADER + PAGE + if size + OBJECT_HEADER < 1048576 then 1048576 else size + OBJECT_HEADER
    }

    lemma NeedsPagesWhenShort(h: nat, sz: nat)
      requires Valid() && h < NUM_HEAPS && MallocNeeds(h, sz) > remaining
      ensures NeedsPages(h, ObjectSize(sz))
    {
      hide Placed, Headers, Align, Rounded, Pages, Aligned, Class2Size, SizeClass, Sized, ObjectSize, Sourced;
      ObjectSizeCovers(sz);
      var size := ObjectSize(sz);
      AlignedSum(size, OBJECT_HEADER);
      AlignIs(size + OBJECT_HEADER);
      forall c | 0 <= c < |lists[h]| && Class2Size(c) == size ensures lists[h][c] == [] {
        ClassSizeAtMost(c);
        ClassOfClassSize(c);
        assert BinOk(mem, objects, status, heads, lists, h, c);
      }
    }

    // The bins of every heap, and no object at NULL.
    lemma Shapes()
      requires Valid()
      ensures |lists| == NUM_HEAPS && forall h :: 0 <= h < NUM_HEAPS ==> |lists[h]| == NUMBINS
      ensures forall p :: p in objects ==> p != 0
    {
      forall p | p in objects ensures p != 0 {
        assert ObjectOk(objects, start, position, p);
      }
    }

    // Runs the requests in order until one needs more pages than are left. Whatever heaps
    // they name, the objects handed out and not yet freed are at least as large as
    // requested, lie in the pages, and share no byte, headers included. A freed object is
    // in the bin of its class in the heap that its free named until a malloc obtains it.
    method Run(requests: seq<Request>) returns (results: seq<nat>, held: set<nat>)
      requires Valid() && forall i :: 0 <= i < |requests| ==> requests[i].heap < NUM_HEAPS
      modifies this
      ensures Valid() && |results| <= |requests| && HeldOk(requests, results, held, objects, status)
      ensures |results| < |requests| ==>
        var r := requests[|results|]; r.MallocOf? && NeedsPages(r.heap, ObjectSize(r.size))
      ensures forall i: nat :: i in held <==>
        i < |results| && requests[i].MallocOf? && forall k :: i < k < |results| ==> !Frees(requests[k], i)
      ensures FreedOk(requests, results, objects, status, lists)
      ensures forall i: nat, k: nat {:trigger FirstFree(requests, i, k)} ::
        FirstFree(requests, i, k) && k < |results| && results[i] in status && status[results[i]] == Live ==>
          exists j :: j in held && k < j < |results| && results[j] == results[i]
      ensures forall i, a {:trigger Occupies(results[i], objects[results[i]], a)} ::
        i in held && Occupies(results[i], objects[results[i]], a) ==> start <= a < position
      ensures forall i, j, a
        {:trigger Occupies(results[i], objects[results[i]], a), Occupies(results[j], objects[results[j]], a)} ::
        i in held && j in held && i != j && Occupies(results[i], objects[results[i]], a) ==>
          !Occupies(results[j], objects[results[j]], a)
    {
      hide Placed, Headers, Binnings, Kept, Rounded, ObjectSize, SizeClass, Sourced, MallocNeeds, NeedsPages, FreedOk;
      hide RunOk, HeldOk;
      results, held := [], {};
      RunStarts(requests, objects, status, lists);
      while |results| < |requests|
        invariant Valid() && |results| <= |requests| && RunOk(requests, results, held, objects, status, lists)
        decreases |requests| - |results|
      {
        Shapes();
        ghost var l, o, st := lists, objects, status;
        match requests[|results|] {
          case MallocOf(h, sz) =>
            if MallocNeeds(h, sz) > remaining {
              NeedsPagesWhenShort(h, sz);
              break;
            }
            var p := Malloc(h, sz);
            Shapes();
            RunAfterMalloc(requests, results, held, o, st, l, lists, p, ObjectSize(sz), h,
                           if lists == l then 0 else SizeClass(Rounded(sz)));
            held := held + {|results|};
            results := results + [p];
          case FreeOf(h, target) =>
            if target in held {
              HeldIsLive(requests, results, held, objects, status, lists, target);
              Free(h, results[target]);
              RunAfterFree(requests, results, held, objects, st, l, status, lists, target);
              held := held - {target};
            } else {
              RunAfterNothing(requests, results, held, objects, status, lists);
            }
            results := results + [0];
        }
      }
      RunEnds(requests, results, held, objects, status, lists);
      InPages(requests, results, held);
    }

    lemma InPages(requests: seq<Request>, results: seq<nat>, held: set<nat>)
      requires Valid() && HeldOk(requests, results, held, objects, status)
      ensures forall i, a {:trigger Occupies(results[i], objects[results[i]], a)} ::
        i in held && Occupies(results[i], objects[results[i]], a) ==> start <= a < position
      ensures forall i, j, a
        {:trigger Occupies(results[i], objects[results[i]], a), Occupies(results[j], objects[results[j]], a)} ::
        i in held && j in held && i != j && Occupies(results[i], objects[results[i]], a) ==>
          !Occupies(results[j], objects[results[j]], a)
    {
      hide Placed, Headers, Binnings;
      forall i, j, a | i in held && j in held && i != j && Occupies(results[i], objects[results[i]], a)
        ensures start <= a < position && !Occupies(results[j], objects[results[j]], a)
      {
        ObjectsDisjoint(objects, arenas, start, position, results[i], results[j], a);
      }
      forall i, a | i in held && Occupies(results[i], objects[results[i]], a) ensures start <= a < position {
        ObjectInPages(objects, arenas, start, position, results[i]);
      }
    }
  }

  // The words of the header at the front of an arena's space belong to no object.
  lemma HeaderIsApart(objects: Objects, arenas: seq<Arena>, start: nat, position: nat, h: nat)
    requires Placed(objects, arenas, start, position) && h < |arenas| && arenas[h].Arena?
      && arenas[h].remaining >= OBJECT_HEADER
    ensures forall q :: q in objects ==>
      q >= 16 && objects[q] >= 16 && (q + objects[q] <= arenas[h].space || arenas[h].space + 2 * OBJECT_HEADER <= q)
  {
    forall q | q in objects
      ensures q >= 16 && objects[q] >= 16
        && (q + objects[q] <= arenas[h].space || arenas[h].space + 2 * OBJECT_HEADER <= q)
    {
      assert ObjectOk(objects, start, position, q) && OutsideArena(q, objects[q], arenas[h]);
    }
  }

  lemma HeadersAfterNew(mem: Memory, objects: Objects, ptr: nat, sz: nat)
    requires Headers(mem, objects) && sz >= 16
    requires forall q :: q in objects ==>
      q >= 16 && objects[q] >= 16 && (q + objects[q] <= ptr || ptr + 2 * OBJECT_HEADER <= q)
    ensures Headers(mem[ptr := MAGIC][ptr + 8 := sz], objects[ptr + OBJECT_HEADER := sz])
    ensures forall q :: q in objects ==> SameBytes(mem, mem[ptr := MAGIC][ptr + 8 := sz], q, objects[q])
    ensures forall q :: q in objects ==> Word(mem[ptr := MAGIC][ptr + 8 := sz], q) == Word(mem, q)
  {
  }

  lemma CopiedFrom(m0: Memory, m1: Memory, m2: Memory, p: nat, q: nat, n: nat, size: nat)
    requires Copied(m1, p, m2, q, n) && SameBytes(m0, m1, p, size) && n <= size
    ensures Copied(m0, p, m2, q, n)
  {
  }

  lemma CopiedStays(m0: Memory, p: nat, m1: Memory, m2: Memory, q: nat, n: nat, size: nat)
    requires Copied(m0, p, m1, q, n) && SameBytes(m1, m2, q, size) && n <= size
    ensures Copied(m0, p, m2, q, n)
  {
  }

  lemma KeptTwice(m0: Memory, o0: Objects, s0: map<nat, Status>, m1: Memory, o1: Objects, s1: map<nat, Status>,
                  m2: Memory, o2: Objects, s2: map<nat, Status>, p: nat, q: nat)
    requires Kept(m0, o0, s0, m1, o1, s1, p) && Kept(m1, o1, s1, m2, o2, s2, q)
    requires q == p || q !in s0 || s0[q] != Live
    ensures Kept(m0, o0, s0, m2, o2, s2, p)
  {
  }

  lemma KeptByNew(mem: Memory, objects: Objects, status: map<nat, Status>, mem': Memory, p: nat, size: nat)
    requires p !in objects && forall q :: q in objects ==> SameBytes(mem, mem', q, objects[q])
    ensures Kept(mem, objects, status, mem', objects[p := size], status[p := Live], 0)
  {
  }

  lemma KeptSame(mem: Memory, objects: Objects, status: map<nat, Status>, p: nat)
    ensures Kept(mem, objects, status, mem, objects, status, p)
  {
  }

  // For a small object the lowering loop stops at once.
  lemma FloorIsClass(size: nat, c: nat)
    requires Sized(size) && size <= MAX_SIZE && c <= SizeClass(size) && Class2Size(c) <= size
    requires forall k :: c < k <= SizeClass(size) ==> Class2Size(k) > size
    ensures c == SizeClass(size) && size == Class2Size(c) && c < NUMBINS
  {
  }

  lemma KeptByStatus(mem: Memory, objects: Objects, status: map<nat, Status>, mem': Memory, p: nat, s: Status)
    requires p in status && forall q :: q in objects && q != p ==> SameBytes(mem, mem', q, objects[q])
    ensures Kept(mem, objects, status, mem', objects, status[p := s], p)
    ensures status[p] != Live ==> Kept(mem, objects, status, mem', objects, status[p := s], 0)
  {
  }

  // The front of an arena becomes a live object.
  lemma NewObject(mem: Memory, objects: Objects, status: map<nat, Status>, heads: Bins<nat>, lists: Bins<seq<nat>>,
                  arenas: seq<Arena>, start: nat, position: nat, h: nat, sz: nat)
    requires Placed(objects, arenas, start, position) && Headers(mem, objects)
    requires Binnings(mem, objects, status, heads, lists) && Sized(sz)
    requires h < |arenas| && arenas[h].Arena? && Aligned(sz) && sz >= 16 && sz + OBJECT_HEADER <= arenas[h].remaining
    ensures arenas[h].space + OBJECT_HEADER !in objects
    ensures Placed(objects[arenas[h].space + OBJECT_HEADER := sz],
                   arenas[h := Arena(arenas[h].space + (sz + OBJECT_HEADER),
                     arenas[h].remaining - (sz + OBJECT_HEADER))],
                   start, position)
    ensures var ptr := arenas[h].space;
      var p, mem' := ptr + OBJECT_HEADER, mem[ptr := MAGIC][ptr + 8 := sz];
      && Headers(mem', objects[p := sz]) && Binnings(mem', objects[p := sz], status[p := Live], heads, lists)
      && Kept(mem, objects, status, mem', objects[p := sz], status[p := Live], 0)
  {
    Carve(objects, arenas, start, position, h, sz);
    HeaderIsApart(objects, arenas, start, position, h);
    var ptr := arenas[h].space;
    hide Placed, Binnings, Headers, SameBytes, Kept;
    HeadersAfterNew(mem, objects, ptr, sz);
    BinningsAfterNew(mem, objects, status, heads, lists, ptr + OBJECT_HEADER, sz, mem[ptr := MAGIC][ptr + 8 := sz]);
    KeptByNew(mem, objects, status, mem[ptr := MAGIC][ptr + 8 := sz], ptr + OBJECT_HEADER, sz);
  }

  // A live object goes to the front of a bin.
  lemma FreedObject(mem: Memory, objects: Objects, status: map<nat, Status>, heads: Bins<nat>, lists: Bins<seq<nat>>,
                    arenas: seq<Arena>, start: nat, position: nat, h: nat, c: nat, p: nat)
    requires Placed(objects, arenas, start, position) && Headers(mem, objects)
    requires Binnings(mem, objects, status, heads, lists) && h < NUM_HEAPS && c < NUMBINS
    requires p != 0 && p in status && p in objects && status[p] == Live && objects[p] == Class2Size(c) && objects[p] > 0
    ensures Headers(mem[p := heads[h][c]], objects)
    ensures Binnings(mem[p := heads[h][c]], objects, status[p := Binned(h, c)],
                     Put(heads, h, c, p), Put(lists, h, c, [p] + lists[h][c]))
    ensures Kept(mem, objects, status, mem[p := heads[h][c]], objects, status[p := Binned(h, c)], p)
  {
    assert Shaped(heads);
    hide Placed, Binnings, Headers, SameBytes, Kept, Class2Size;
    BinningsAfterPut(mem, objects, status, heads, lists, h, c, p);
    StoreInside(mem, objects, arenas, start, position, p, p, heads[h][c]);
    KeptByStatus(mem, objects, status, mem[p := heads[h][c]], p, Binned(h, c));
  }
}
