// An obstack: objects are freed in the reverse order of their allocation, and the
// newest one can grow (obstackheap.h).

module ObstackHeap {
  import opened Alignment

  // A chunk header: two pointers of four bytes.
  const HEADER := 8

  lemma AlignBelow(n: nat, limit: nat)
    requires n <= limit && limit % 8 == 0
    ensures Align(n) <= limit
  {
  }

  // A chunk from its header to past its end.
  datatype Chunk = Chunk(addr: nat, limit: nat)

  // A finished object: the chunk it is in, where it begins and its size.
  datatype Object = Object(chunk: nat, addr: nat, size: nat)

  type Memory = map<nat, nat>

  function Byte(mem: Memory, a: nat): nat {
    if a in mem then mem[a] else 0
  }

  // The byte i of the object at p.
  function At(mem: Memory, p: nat, i: nat): nat {
    Byte(mem, p + i)
  }

  ghost predicate Copied(mem: Memory, p: nat, mem': Memory, q: nat, n: nat) {
    forall i: nat :: i < n ==> At(mem', q, i) == At(mem, p, i)
  }

  ghost predicate ChunkOk(c: Chunk) {
    0 < c.addr && c.addr % 8 == 0 && c.limit % 8 == 0 && c.addr + HEADER <= c.limit
  }

  ghost predicate Disjoint(c: Chunk, d: Chunk) {
    c.limit <= d.addr || d.limit <= c.addr
  }

  ghost predicate ChunksOk(chunks: seq<Chunk>) {
    && (forall i :: 0 <= i < |chunks| ==> ChunkOk(chunks[i]))
    && forall i, j :: 0 <= i < j < |chunks| ==> Disjoint(chunks[i], chunks[j])
  }

  ghost predicate InChunk(chunks: seq<Chunk>, o: Object) {
    o.chunk < |chunks| && chunks[o.chunk].addr + HEADER <= o.addr && o.addr + o.size <= chunks[o.chunk].limit
  }

  ghost predicate Before(o: Object, p: Object) {
    o.chunk < p.chunk || (o.chunk == p.chunk && o.addr + o.size <= p.addr)
  }

  // In the order of their allocation; the newest chunk's objects end before base.
  ghost predicate ObjectsOk(chunks: seq<Chunk>, objects: seq<Object>, base: nat) {
    && (forall k :: 0 <= k < |objects| ==> InChunk(chunks, objects[k]))
    && (forall j, k :: 0 <= j < k < |objects| ==> Before(objects[j], objects[k]))
    && forall k :: 0 <= k < |objects| && objects[k].chunk == |chunks| - 1 ==> objects[k].addr + objects[k].size <= base
  }

  ghost predicate Current(chunks: seq<Chunk>, base: nat, next: nat) {
    chunks != [] && chunks[|chunks| - 1].addr + HEADER <= base <= next <= chunks[|chunks| - 1].limit
  }

  // Finished objects keep their bytes.
  ghost predicate SameObjects(mem: Memory, mem': Memory, objects: seq<Object>) {
    forall k :: 0 <= k < |objects| ==> Copied(mem, objects[k].addr, mem', objects[k].addr, objects[k].size)
  }

  // What memory has to offer for a new chunk.
  ghost predicate Unused(chunks: seq<Chunk>, c: Chunk) {
    ChunkOk(c) && forall i :: 0 <= i < |chunks| ==> Disjoint(chunks[i], c)
  }

  class ObstackHeap {
    const chunkSize: nat
    // The newest chunk last.
    var chunks: seq<Chunk>
    var currentBase: nat
    var nextPos: nat
    var mem: Memory
    ghost var objects: seq<Object>

    ghost predicate Valid()
      reads this
    {
      && chunkSize >= HEADER
      && ChunksOk(chunks) && Current(chunks, currentBase, nextPos) && ObjectsOk(chunks, objects, currentBase)
    }

    function Limit(): nat
      requires chunks != []
      reads this`chunks
    {
      chunks[|chunks| - 1].limit
    }

    // The chunk made for a request of sz bytes at the address buf.
    function ChunkFor(sz: nat, buf: nat): Chunk
      requires chunkSize >= HEADER
    {
      Chunk(buf, buf + HEADER + Align(if sz > chunkSize - HEADER then sz else chunkSize - HEADER))
    }

    constructor (chunkSize: nat, buf: nat)
      requires chunkSize >= HEADER && buf > 0 && buf % 8 == 0
      ensures Valid() && this.chunkSize == chunkSize && objects == [] && currentBase == nextPos == buf + HEADER
      // The first chunk is asked for with a whole chunk's bytes behind the header.
      ensures |chunks| == 1 && chunks[0].addr == buf
        && buf + HEADER + chunkSize <= Limit() < buf + HEADER + chunkSize + 8
    {
      this.chunkSize := chunkSize;
      chunks := [Chunk(buf, buf + HEADER + Align(chunkSize))];
      currentBase, nextPos := buf + HEADER, buf + HEADER;
      mem, objects := map[], [];
    }

    // A new object, in a new chunk when the current one has no room.
    method Malloc(sz: nat, buf: nat) returns (ptr: nat)
      requires Valid() && Unused(chunks, ChunkFor(sz, buf))
      modifies this
      ensures Valid() && mem == old(mem) && currentBase == nextPos == Align(ptr + sz)
      ensures objects == old(objects) + [Object(|chunks| - 1, ptr, sz)]
      ensures if sz <= old(Limit() - nextPos) then chunks == old(chunks) && ptr == old(nextPos)
              else
                && |chunks| == |old(chunks)| + 1 && chunks[..|old(chunks)|] == old(chunks) && ptr == buf + HEADER
                && chunks[|old(chunks)|].addr == buf
                && var room := if sz > chunkSize - HEADER then sz else chunkSize - HEADER;
                   buf + HEADER + room <= Limit() < buf + HEADER + room + 8
    {
      if Limit() - nextPos < sz {
        chunks := chunks + [ChunkFor(sz, buf)];
        nextPos := buf + HEADER;
        currentBase := nextPos;
      }
      currentBase := nextPos;
      nextPos := nextPos + sz;
      ptr := currentBase;
      Finalize();
    }

    // The current object is finished; the next one begins at an aligned address.
    method Finalize()
      requires Valid()
      modifies this`nextPos, this`currentBase, this`objects
      ensures Valid() && currentBase == nextPos == Align(old(nextPos))
      ensures objects == old(objects) + [Object(|chunks| - 1, old(currentBase), old(nextPos - currentBase))]
    {
      AlignBelow(nextPos, Limit());
      objects := objects + [Object(|chunks| - 1, currentBase, nextPos - currentBase)];
      nextPos := Align(nextPos);
      currentBase := nextPos;
    }

    // The current object becomes sz bytes longer. When the chunk has no room it moves
    // to a new one, which always has.
    method Grow(sz: nat, buf: nat) returns (p: nat)
      requires Valid()
      requires var size := nextPos - currentBase; Unused(chunks, ChunkFor(size + sz + size / 8 + 100, buf))
      modifies this
      ensures Valid() && objects == old(objects) && SameObjects(old(mem), mem, objects)
      ensures nextPos - currentBase == old(nextPos - currentBase) + sz && p == nextPos - sz
      ensures Copied(old(mem), old(currentBase), mem, currentBase, old(nextPos - currentBase))
      ensures old(chunks) <= chunks
      ensures old(Limit() - nextPos) >= sz ==>
        chunks == old(chunks) && mem == old(mem) && currentBase == old(currentBase)
    {
      if Limit() - nextPos < sz {
        CopyToNew(sz, buf);
      }
      p := nextPos;
      nextPos := nextPos + sz;
    }

    method CopyBytes(from: nat, to: nat, n: nat)
      requires from + n <= to || to + n <= from
      modifies this`mem
      ensures forall a: nat :: a < to || to + n <= a ==> Byte(mem, a) == Byte(old(mem), a)
      ensures Copied(old(mem), from, mem, to, n)
    {
      var i := 0;
      while i < n
        invariant 0 <= i <= n
        invariant forall a: nat :: a < to || to + n <= a ==> Byte(mem, a) == Byte(old(mem), a)
        invariant Copied(old(mem), from, mem, to, i)
      {
        assert Byte(mem, from + i) == At(old(mem), from, i);
        mem := mem[to + i := Byte(mem, from + i)];
        i := i + 1;
      }
    }

    method CopyToNew(sz: nat, buf: nat)
      requires Valid()
      requires var size := nextPos - currentBase; Unused(chunks, ChunkFor(size + sz + size / 8 + 100, buf))
      modifies this
      ensures Valid() && objects == old(objects) && SameObjects(old(mem), mem, objects)
      ensures nextPos - currentBase == old(nextPos - currentBase) && nextPos + sz <= Limit()
      ensures Copied(old(mem), old(currentBase), mem, currentBase, nextPos - currentBase)
      // The new chunk has room for what is asked, an eighth of the object and a hundred bytes
      // more, and for no less than any chunk.
      ensures |chunks| == |old(chunks)| + 1 && chunks[..|old(chunks)|] == old(chunks) && currentBase == buf + HEADER
      ensures var size := nextPos - currentBase;
        var wish := size + sz + size / 8 + 100;
        var room := if wish > chunkSize - HEADER then wish else chunkSize - HEADER;
        chunks[|old(chunks)|].addr == buf && buf + HEADER + room <= Limit() < buf + HEADER + room + 8
    {
      var objSize := nextPos - currentBase;
      var newChunk := ChunkFor(objSize + sz + objSize / 8 + 100, buf);
      assert Disjoint(chunks[|chunks| - 1], newChunk);
      CopyBytes(currentBase, buf + HEADER, objSize);
      forall k | 0 <= k < |objects| ensures Copied(old(mem), objects[k].addr, mem, objects[k].addr, objects[k].size) {
        assert InChunk(chunks, objects[k]) && Disjoint(chunks[objects[k].chunk], newChunk);
      }
      chunks := chunks + [newChunk];
      currentBase := buf + HEADER;
      nextPos := currentBase + objSize;
    }

    // Where object k begins, in which chunk; the last is the one that is still growing.
    ghost function Begin(k: nat): Object
      requires k <= |objects| && chunks != []
      reads this`chunks, this`objects, this`currentBase
    {
      if k < |objects| then objects[k] else Object(|chunks| - 1, currentBase, 0)
    }

    // Whether a chunk newer than the object's begins where the object does. This
    // takes an object of no bytes at the very end of its chunk.
    ghost predicate Ambiguous(k: nat)
      requires k <= |objects| && chunks != []
      reads this`chunks, this`objects, this`currentBase
    {
      exists j :: Begin(k).chunk < j < |chunks| && chunks[j].addr == Begin(k).addr
    }

    // Frees object k and everything after it: exactly the objects before it are left,
    // in their chunks. When the address is ambiguous, the search stops in the wrong
    // chunk, and what is left is not an obstack any more.
    method Free(ptr: nat, ghost k: nat)
      requires Valid() && k <= |objects| && ptr == Begin(k).addr
      modifies this`chunks, this`currentBase, this`nextPos, this`objects
      ensures currentBase == nextPos == ptr && objects == old(objects)[..k]
      ensures !old(Ambiguous(k)) ==> Valid() && chunks == old(chunks)[..old(Begin(k)).chunk + 1]
      ensures old(Ambiguous(k)) ==> !Valid() && chunks != [] && chunks[|chunks| - 1].addr == ptr
    {
      ghost var o := Begin(k);
      assert InChunk(chunks, o);
      while chunks != [] && (chunks[|chunks| - 1].addr > ptr || chunks[|chunks| - 1].limit < ptr)
        invariant objects == old(objects) && o.chunk < |chunks| <= |old(chunks)| && chunks == old(chunks)[..|chunks|]
        invariant forall j :: |chunks| <= j < |old(chunks)| ==> old(chunks)[j].addr != ptr
        decreases |chunks|
      {
        assert InChunk(old(chunks), o);
        chunks := chunks[..|chunks| - 1];
      }
      FoundChunk(old(chunks), o, |chunks| - 1);
      if chunks != [] {
        nextPos := ptr;
        currentBase := ptr;
      } else {
        assert false;
      }
      objects := objects[..k];
      if |chunks| - 1 == o.chunk {
        LeftObjects(old(chunks), old(objects), old(currentBase), k, o);
      }
    }

    // free of NULL: every chunk goes, and a new first one is made.
    method FreeAll(buf: nat)
      requires Valid() && buf > 0 && buf % 8 == 0
      modifies this`chunks, this`currentBase, this`nextPos, this`objects
      ensures Valid() && objects == [] && |chunks| == 1 && currentBase == nextPos == buf + HEADER
      ensures chunks[0].addr == buf && buf + HEADER + chunkSize <= Limit() < buf + HEADER + chunkSize + 8
    {
      while chunks != [] && chunks[|chunks| - 1].addr > 0
        invariant ChunksOk(chunks)
        decreases |chunks|
      {
        chunks := chunks[..|chunks| - 1];
      }
      chunks := [Chunk(buf, buf + HEADER + Align(chunkSize))];
      currentBase, nextPos := buf + HEADER, buf + HEADER;
      objects := [];
    }
  }

  // The chunk at which the search for o's address stops: o's own, or one that begins
  // at this address.
  lemma FoundChunk(chunks: seq<Chunk>, o: Object, i: nat)
    requires ChunksOk(chunks) && InChunk(chunks, o) && o.chunk <= i < |chunks|
    requires chunks[i].addr <= o.addr <= chunks[i].limit
    ensures i == o.chunk || chunks[i].addr == o.addr
  {
    if i != o.chunk {
      assert Disjoint(chunks[o.chunk], chunks[i]) && ChunkOk(chunks[i]);
    }
  }

  lemma LeftObjects(chunks: seq<Chunk>, objects: seq<Object>, base: nat, k: nat, o: Object)
    requires ObjectsOk(chunks, objects, base) && k <= |objects| && o.chunk < |chunks|
    requires o == if k < |objects| then objects[k] else Object(|chunks| - 1, base, 0)
    ensures ObjectsOk(chunks[..o.chunk + 1], objects[..k], o.addr)
  {
    var chunks' := chunks[..o.chunk + 1];
    forall j | 0 <= j < k ensures InChunk(chunks', objects[j]) {
      assert InChunk(chunks, objects[j]);
      assert k < |objects| ==> Before(objects[j], objects[k]);
    }
    forall j | 0 <= j < k && objects[j].chunk == |chunks'| - 1 ensures objects[j].addr + objects[j].size <= o.addr {
      assert k < |objects| ==> Before(objects[j], objects[k]);
    }
  }

  // An empty object at the end of a chunk, and a next chunk right behind it.
  method AmbiguousExample() returns (heap: ObstackHeap)
    ensures !heap.Valid()
  {
    heap := new ObstackHeap(8, 8);
    var a := heap.Malloc(8, 800);
    assert heap.nextPos == 24 && |heap.objects| == 1;
    var b := heap.Malloc(0, 800);
    assert heap.nextPos == 24 && heap.objects[1] == Object(0, 24, 0);
    var c := heap.Malloc(8, 24);
    assert heap.chunks[1].addr == b == 24;
    heap.Free(b, 1);
  }
}
