// CoalesceHeap (coalesceheap.h) over RequireCoalesceable and CoalesceableHeap
// (coalesceableheap.h) over SlopHeap (slopheap.h): blocks with boundary tags,
// split when allocated and merged both ways when freed.

module CoalesceHeap {
  import opened BoundaryTags

  const SLOP := 16

  // What a client of the heap sees: the blocks, which objects are free, and which of
  // the free blocks are so without their free bit.
  datatype State = State(l: Layout, dict: set<nat>, sealed: set<nat>)

  // Takes block h for a request of `size` bytes. A rest that can hold a header
  // and a double is split off and stays free.
  function Carve(s: State, h: nat, size: nat): State
    requires h in s.l.blocks && size <= s.l.blocks[h]
  {
    if s.l.blocks[h] - size >= HEADER + 8 then
      State(Split(s.l, h, size), s.dict - {Object(h)} + {Object(h + HEADER + size)}, s.sealed - {h})
    else
      State(s.l, s.dict - {Object(h)}, s.sealed - {h})
  }

  function JoinFree(s: State, h: nat): State
    requires h in s.l.blocks && s.l.Next(h) in s.l.blocks
  {
    State(Join(s.l, h), s.dict - {Object(h), Object(s.l.Next(h))}, s.sealed)
  }

  function JoinNext(s: State, h: nat): State
    requires h in s.l.blocks
  {
    if s.l.Next(h) in s.l.blocks && Object(s.l.Next(h)) in s.dict then JoinFree(s, h) else s
  }

  // Frees block h: joins it with the free block p in front of it, if there is
  // one (0 for none), and with a free block behind it.
  function Release(s: State, h: nat, p: nat): State
    requires h in s.l.blocks && (p != 0 ==> p in s.l.blocks && s.l.Next(p) == h)
  {
    if p != 0 then Insert(JoinNext(JoinFree(s, p), p), p) else Insert(JoinNext(s, h), h)
  }

  function Insert(s: State, h: nat): State {
    s.(dict := s.dict + {Object(h)})
  }

  // Puts block h into the dictionary as it is, without its free bit.
  function Seal(s: State, h: nat): State {
    s.(dict := s.dict + {Object(h)}, sealed := s.sealed + {h})
  }

  // The free block p in front of h that a free of h joins; 0 if there is none, or
  // none with its free bit.
  ghost predicate JoinsFront(s: State, h: nat, p: nat) {
    if p != 0 then p in s.l.blocks && s.l.Next(p) == h && Object(p) in s.dict && p !in s.sealed
    else forall k :: k in s.l.blocks && s.l.Next(k) == h && Object(k) in s.dict ==> k in s.sealed
  }

  // Everything is in order but the free bit of the block `open` (0 for none).
  ghost predicate Consistent(m: Memory, l: Layout, dict: set<nat>, sealed: set<nat>, open: nat) {
    Disjoint(l) && Linked(l) && SealedOk(l, dict, sealed) && Tagged(m, l, dict, sealed, open)
  }

  // Only first blocks of regions are free without their free bit.
  ghost predicate SealedOk(l: Layout, dict: set<nat>, sealed: set<nat>) {
    sealed <= l.starts && forall k :: k in sealed ==> Object(k) in dict
  }

  ghost predicate TailAt(l: Layout, ptr: nat, remaining: nat) {
    if ptr == 0 then remaining == 0 && l.ends == {}
    else ptr in l.ends && Room(l, ptr, ptr + remaining + SLOP)
  }

  lemma GrowFacts(m: Memory, m': Memory, l: Layout, dict: set<nat>, sealed: set<nat>, h: nat, size: nat, remaining: nat)
    requires Consistent(m, l, dict, sealed, 0) && GrowWords(m, m', l, h, size)
    requires 0 < h && Room(l, h, h + HEADER + size + remaining + SLOP)
    ensures h !in l.blocks && Object(h) !in dict
    ensures Consistent(m', Grow(l, h, size), dict, sealed, h) && TailAt(Grow(l, h, size), h + HEADER + size, remaining)
  {
    hide Disjoint, Linked, Tagged, Apart, Room, GrowWords, Grow;
    var r := Grow(l, h, size);
    RoomIn(l, h, h + size + 3 * HEADER, h + HEADER + size + remaining + SLOP);
    TaggedGrow(m, m', l, dict, sealed, h, size);
    RoomAfterGrow(l, h, size, h + HEADER + size + remaining + SLOP);
    GrownParts(l, h, size);
  }

  lemma EndsKnown(m: Memory, l: Layout, dict: set<nat>, sealed: set<nat>)
    requires Consistent(m, l, dict, sealed, 0)
    ensures Apart(m) && forall e :: e in l.ends ==> e in m
  {
    EndsInMemory(m, l, dict, sealed, 0);
  }

  lemma GrownStarts(l: Layout, h: nat, size: nat)
    ensures Grow(l, h, size).starts == if h in l.ends then l.starts else l.starts + {h}
  {
  }

  // Joining with a free block behind leaves h with no free neighbour behind it,
  // if no two free blocks were neighbours.
  lemma CoalescedJoinNext(s: State, h: nat)
    requires Disjoint(s.l) && Linked(s.l) && h in s.l.blocks && Object(h) !in s.dict
    requires forall q :: q in s.dict ==> HEADER <= q && q - HEADER in s.l.blocks
    requires Coalesced(s.l, s.dict) && Isolated(s.l, s.dict, h)
    ensures var r := JoinNext(s, h);
            h in r.l.blocks && Coalesced(r.l, r.dict + {Object(h)})
  {
    var n := s.l.Next(h);
    if n in s.l.blocks && Object(n) in s.dict {
      var dict := s.dict - {Object(n)};
      assert s.dict - {Object(h), Object(n)} == dict;
      DisjointJoin(s.l, h);
      BehindFree(s.l, s.dict, n);
      CoalescedJoin(s.l, dict, h);
      IsolatedJoin(s.l, dict, h, h);
      CoalescedInsert(Join(s.l, h), dict, h);
    } else {
      assert Object(n) !in s.dict;
      CoalescedInsert(s.l, s.dict, h);
    }
  }

  lemma BehindFree(l: Layout, dict: set<nat>, n: nat)
    requires Coalesced(l, dict) && n in l.blocks && Object(n) in dict
    ensures Object(l.Next(n)) !in dict && Isolated(l, dict, n)
  {
  }

  lemma CoalescedRelease(s: State, h: nat, p: nat)
    requires Disjoint(s.l) && Linked(s.l) && h in s.l.blocks && Object(h) !in s.dict
    requires forall q :: q in s.dict ==> HEADER <= q && q - HEADER in s.l.blocks
    requires Coalesced(s.l, s.dict)
    requires if p != 0 then p in s.l.blocks && s.l.Next(p) == h && Object(p) in s.dict else Isolated(s.l, s.dict, h)
    ensures var r := Release(s, h, p); Coalesced(r.l, r.dict)
  {
    if p != 0 {
      var r, dict := JoinFree(s, p), s.dict - {Object(p)};
      assert r.dict == dict;
      BehindFree(s.l, s.dict, p);
      DisjointJoin(s.l, p);
      LinkedJoin(s.l, p);
      CoalescedJoin(s.l, dict, p);
      IsolatedJoin(s.l, dict, p, p);
      CoalescedJoinNext(r, p);
    } else {
      CoalescedJoinNext(s, h);
    }
  }

  lemma TakeFacts(m: Memory, l: Layout, dict: set<nat>, sealed: set<nat>, h: nat)
    requires Consistent(m, l, dict, sealed, 0) && Object(h) in dict
    ensures h in l.blocks && Consistent(m, l, dict - {Object(h)}, sealed - {h}, h)
    ensures Coalesced(l, dict) ==> Coalesced(l, dict - {Object(h)}) && Object(l.Next(h)) !in dict - {Object(h)}
  {
    TaggedTake(m, l, dict, sealed, h);
  }

  lemma GrownSize(l: Layout, dict: set<nat>, h: nat, size: nat)
    ensures h in Grow(l, h, size).blocks && Grow(l, h, size).blocks[h] == size
    ensures h !in l.blocks && Object(h) !in dict && Coalesced(l, dict) ==> Coalesced(Grow(l, h, size), dict)
  {
    if h !in l.blocks && Object(h) !in dict {
      CoalescedGrow(l, dict, h, size);
    }
  }

  // The block in front of h, if the header at h calls it free; 0 otherwise.
  function FreeFront(m: Memory, h: nat): nat {
    if h in m && m[h].prevFree && HEADER + m[h].prevSize <= h then h - HEADER - m[h].prevSize else 0
  }

  lemma SamePredecessor(l: Layout, k: nat, p: nat)
    requires Disjoint(l) && k in l.blocks && p in l.blocks && l.Next(k) == l.Next(p)
    ensures k == p
  {
    if k != p {
      OneSuccessor(l, k, p);
    }
  }

  // What the header of a block says about the block in front of it.
  ghost predicate FrontTells(m: Memory, l: Layout, dict: set<nat>, sealed: set<nat>, h: nat)
    requires h in l.blocks
  {
    && h in m && (h in l.starts ==> m[h].prevSize == 0 && !m[h].prevFree)
    && (h !in l.starts ==>
         && HEADER + m[h].prevSize <= h
         && var p := h - HEADER - m[h].prevSize;
            && 0 < p && p in l.blocks && l.Next(p) == h && p in m && m[p].size == m[h].prevSize
            && (m[h].prevFree <==> Object(p) in dict && p !in sealed))
    && (FreeFront(m, h) != 0 <==> m[h].prevFree)
    && JoinsFront(State(l, dict, sealed), h, FreeFront(m, h))
  }

  lemma ConsistentParts(m: Memory, l: Layout, dict: set<nat>, sealed: set<nat>)
    requires Consistent(m, l, dict, sealed, 0)
    ensures Disjoint(l) && Linked(l) && Apart(m) && AllSized(m, l) && AllPreceded(m, l) && Bordered(m, l)
    ensures AllMarked(m, l, dict, sealed, 0) && SealedOk(l, dict, sealed)
  {
    hide SealedOk, Disjoint, Linked, Apart, AllSized, AllPreceded, Bordered, AllMarked;
  }

  // A block in use is not sealed, and neither is one behind another.
  lemma NotSealed(m: Memory, l: Layout, dict: set<nat>, sealed: set<nat>, open: nat, h: nat)
    requires Consistent(m, l, dict, sealed, open) && h in l.blocks
    ensures Disjoint(l) && (Object(h) !in dict ==> h !in sealed) && l.Next(h) !in sealed
  {
    hide Disjoint, Tagged;
    assert Continued(l, h);
  }

  // The block in front of one that is not the first of its region.
  lemma FrontBlock(m: Memory, l: Layout, dict: set<nat>, sealed: set<nat>, h: nat) returns (p: nat)
    requires Consistent(m, l, dict, sealed, 0) && h in l.blocks && h !in l.starts
    ensures h in m && HEADER + m[h].prevSize <= h && p == h - HEADER - m[h].prevSize
    ensures 0 < p && p in l.blocks && l.Next(p) == h && p in m && m[p].size == m[h].prevSize
    ensures m[h].prevFree <==> Object(p) in dict && p !in sealed
  {
    ConsistentParts(m, l, dict, sealed);
    hide Consistent, Linked, Disjoint, Bordered, Apart;
    assert Preceded(m, l, h) by {
      hide AllSized, AllMarked, Preceded;
    }
    p := h - HEADER - m[h].prevSize;
    assert 0 < p && Sized(m, l, p) by {
      hide AllPreceded, AllMarked, Sized;
    }
    assert Marked(m, l, dict, sealed, p) by {
      hide AllPreceded, AllSized, Marked;
    }
    hide AllPreceded, AllSized, AllMarked;
  }

  lemma FrontTagFirst(m: Memory, l: Layout, dict: set<nat>, sealed: set<nat>, h: nat)
    requires Consistent(m, l, dict, sealed, 0) && h in l.blocks && h in l.starts
    ensures FrontTells(m, l, dict, sealed, h)
  {
    ConsistentParts(m, l, dict, sealed);
    BlockSized(m, l, dict, sealed, h);
    hide Consistent, Disjoint, AllSized, AllMarked, AllPreceded, Apart, SealedOk;
    forall k | k in l.blocks ensures l.Next(k) != h {
      assert Continued(l, k);
    }
  }

  lemma FrontTag(m: Memory, l: Layout, dict: set<nat>, sealed: set<nat>, h: nat)
    requires Consistent(m, l, dict, sealed, 0) && h in l.blocks
    ensures FrontTells(m, l, dict, sealed, h)
  {
    hide Consistent, Disjoint;
    if h in l.starts {
      FrontTagFirst(m, l, dict, sealed, h);
    } else {
      NotSealed(m, l, dict, sealed, 0, h);
      var p := FrontBlock(m, l, dict, sealed, h);
      forall k | k in l.blocks && l.Next(k) == h ensures k == p {
        SamePredecessor(l, k, p);
      }
    }
  }

  lemma SealedFacts(m: Memory, l: Layout, dict: set<nat>, sealed: set<nat>, h: nat)
    requires Consistent(m, l, dict, sealed, 0) && h in l.starts && h in l.blocks && Object(h) !in dict
    ensures Consistent(m, l, dict + {Object(h)}, sealed + {h}, 0)
  {
    hide Disjoint, Linked, Tagged;
    TaggedSealed(m, l, dict, sealed, h);
  }

  lemma ScribbleFacts(m: Memory, l: Layout, dict: set<nat>, sealed: set<nat>, h: nat, lo: nat, hi: nat)
    requires Consistent(m, l, dict, sealed, 0) && h in l.blocks && Object(h) <= lo <= hi <= l.Next(h)
    ensures Consistent(Scribble(m, lo, hi), l, dict, sealed, 0)
  {
    AgreeOnScribble(m, l, h, lo, hi);
    assert Apart(Scribble(m, lo, hi));
    TaggedAgree(m, Scribble(m, lo, hi), l, dict, sealed, 0);
  }

  lemma TailAfterJoin(l: Layout, h: nat, ptr: nat, remaining: nat)
    requires Disjoint(l) && TailAt(l, ptr, remaining) && h in l.blocks && l.Next(h) in l.blocks
    ensures Disjoint(Join(l, h)) && TailAt(Join(l, h), ptr, remaining) && Join(l, h).starts == l.starts
  {
    DisjointJoin(l, h);
    hide Disjoint;
    if ptr != 0 {
      RoomAfterJoin(l, h, ptr, ptr + remaining + SLOP);
    }
  }

  // What freeing block h does to the rest of the heap's invariant.
  lemma ReleaseKeepsTail(l: Layout, dict: set<nat>, sealed: set<nat>, h: nat, p: nat, ptr: nat, remaining: nat)
    requires Disjoint(l) && TailAt(l, ptr, remaining) && h in l.blocks
    requires p != 0 ==> p in l.blocks && l.Next(p) == h
    ensures var r := Release(State(l, dict, sealed), h, p);
            TailAt(r.l, ptr, remaining) && r.l.starts == l.starts && r.sealed == sealed
  {
    hide TailAt, Disjoint;
    var l1, h1 := if p != 0 then Join(l, p) else l, if p != 0 then p else h;
    if p != 0 {
      TailAfterJoin(l, p, ptr, remaining);
    }
    if l1.Next(h1) in l1.blocks {
      TailAfterJoin(l1, h1, ptr, remaining);
    }
  }

  // As long as no block is free without its bit, frees leave no two neighbours free.
  lemma ReleaseKeepsCoalesced(s: State, h: nat, p: nat)
    requires Disjoint(s.l) && Linked(s.l) && h in s.l.blocks && Object(h) !in s.dict
    requires forall q :: q in s.dict ==> HEADER <= q && q - HEADER in s.l.blocks
    requires Coalesced(s.l, s.dict) && s.sealed == {} && JoinsFront(s, h, p)
    ensures var r := Release(s, h, p); Coalesced(r.l, r.dict) && r.sealed == {}
  {
    assert Release(s, h, p).sealed == s.sealed;
    assert p == 0 ==> Isolated(s.l, s.dict, h);
    hide Disjoint, Linked, Coalesced, Release, Isolated;
    CoalescedRelease(s, h, p);
  }

  lemma ReleaseFacts(m: Memory, l: Layout, dict: set<nat>, sealed: set<nat>, clean: bool,
                     h: nat, p: nat, ptr: nat, remaining: nat)
    requires Consistent(m, l, dict, sealed, 0) && TailAt(l, ptr, remaining)
    requires clean ==> sealed == {} && Coalesced(l, dict)
    requires h in l.blocks && Object(h) !in dict && JoinsFront(State(l, dict, sealed), h, p)
    ensures p != 0 ==> p in l.blocks && l.Next(p) == h && Object(p) in dict && p !in sealed
    ensures var r := Release(State(l, dict, sealed), h, p);
            TailAt(r.l, ptr, remaining) && r.l.starts == l.starts && (clean ==> Coalesced(r.l, r.dict))
  {
    assert Disjoint(l) && Linked(l);
    assert p != 0 ==> p in l.blocks && l.Next(p) == h && Object(p) in dict && p !in sealed;
    FreeAreBlocks(m, l, dict, sealed);
    hide Consistent, TailAt, Disjoint, Linked, Coalesced, JoinsFront, Release;
    ReleaseKeepsTail(l, dict, sealed, h, p, ptr, remaining);
    if clean {
      ReleaseKeepsCoalesced(State(l, dict, sealed), h, p);
    }
  }

  lemma FreeAreBlocks(m: Memory, l: Layout, dict: set<nat>, sealed: set<nat>)
    requires Consistent(m, l, dict, sealed, 0)
    ensures forall q :: q in dict ==> HEADER <= q && q - HEADER in l.blocks
  {
  }

  // What the two headers behind a block say about it and the block behind it.
  ghost predicate BackTells(m: Memory, l: Layout, dict: set<nat>, h: nat)
    requires h in l.blocks
  {
    var n := l.Next(h);
    && h in m && m[h].size == l.blocks[h]
    && n in m && m[n].prevSize == l.blocks[h]
    && n + HEADER + m[n].size in m
    && (m[n + HEADER + m[n].size].prevFree <==> n in l.blocks && Object(n) in dict)
    && (Object(n) in dict ==> n in l.blocks)
  }

  lemma BackTag(m: Memory, l: Layout, dict: set<nat>, sealed: set<nat>, h: nat)
    requires Consistent(m, l, dict, sealed, 0) && h in l.blocks
    ensures BackTells(m, l, dict, h)
  {
    var n := l.Next(h);
    ConsistentParts(m, l, dict, sealed);
    hide Consistent, AllPreceded, Disjoint, Apart, Tagged;
    assert Sized(m, l, h) && Continued(l, h);
    if n in l.blocks {
      assert n !in sealed;
      assert Sized(m, l, n) && Marked(m, l, dict, sealed, n);
    } else {
      assert n in l.ends;
    }
  }

  lemma BlockSized(m: Memory, l: Layout, dict: set<nat>, sealed: set<nat>, h: nat)
    requires Consistent(m, l, dict, sealed, 0) && h in l.blocks
    ensures 0 < h && h in m && m[h].size == l.blocks[h] && l.Next(h) in m && m[l.Next(h)].prevSize == l.blocks[h]
  {
    assert Sized(m, l, h);
  }

  lemma SealedAfterSplit(l: Layout, dict: set<nat>, sealed: set<nat>, h: nat, size: nat)
    requires SealedOk(l, dict, sealed) && h in l.blocks && size + HEADER <= l.blocks[h]
    ensures SealedOk(Split(l, h, size), dict, sealed)
  {
  }

  lemma SplitFacts(l: Layout, dict: set<nat>, h: nat, size: nat, ptr: nat, remaining: nat)
    requires Disjoint(l) && TailAt(l, ptr, remaining)
    requires h in l.blocks && size + HEADER <= l.blocks[h] && Object(h) !in dict
    ensures var r, piece := Split(l, h, size), h + HEADER + size;
            piece in r.blocks && r.starts == l.starts && TailAt(r, ptr, remaining)
            && (Object(piece) !in dict && Coalesced(l, dict) && Object(l.Next(h)) !in dict ==>
                 Coalesced(r, dict + {Object(piece)}))
  {
    if ptr != 0 {
      RoomAfterSplit(l, h, size, ptr, ptr + remaining + SLOP);
    }
    if Object(h + HEADER + size) !in dict && Coalesced(l, dict) && Object(l.Next(h)) !in dict {
      CoalescedSplit(l, dict, h, size);
    }
  }

  class Heap {
    var mem: Memory
    // The dictionary of free objects.
    var dict: set<nat>
    // The tail of the current region, 0 before there is one.
    var ptr: nat
    var remaining: nat
    // The first header of every region; the word in front of it is foreign.
    var regions: set<nat>

    ghost var l: Layout
    // The free blocks without their free bit.
    ghost var sealed: set<nat>
    // No free has yet met a foreign word in front of a region that disagreed.
    ghost var clean: bool

    ghost predicate Valid()
      reads this
    {
      && Consistent(mem, l, dict, sealed, 0) && TailAt(l, ptr, remaining)
      && (clean ==> sealed == {} && Coalesced(l, dict)) && regions == l.starts
    }

    ghost function Now(): State
      reads this`l, this`dict, this`sealed
    {
      State(l, dict, sealed)
    }

    constructor ()
      ensures Valid() && clean && Now() == State(Layout(map[], {}, {}), {}, {}) && ptr == 0 && remaining == 0
    {
      mem, dict, ptr, remaining, regions := map[], {}, 0, 0, {};
      l, sealed, clean := Layout(map[], {}, {}), {}, true;
    }

    // ----- header words -----

    method SetSize(a: nat, size: nat)
      requires Apart(mem)
      modifies this`mem
      ensures a in mem && mem == Write(old(mem), a, mem[a]) && Apart(mem) && mem[a].size == size
      ensures a in old(mem) ==> mem == old(mem)[a := old(mem)[a].(size := size)]
    {
      var h: Header := *;
      if a in mem {
        h := mem[a];
      }
      WriteKeepsApart(mem, a, h.(size := size));
      mem := Write(mem, a, h.(size := size));
    }

    method SetPrevSize(a: nat, size: nat)
      requires Apart(mem)
      modifies this`mem
      ensures a in mem && mem == Write(old(mem), a, mem[a]) && Apart(mem) && mem[a].prevSize == size
      ensures a in old(mem) ==> mem == old(mem)[a := old(mem)[a].(prevSize := size)]
    {
      var h: Header := *;
      if a in mem {
        h := mem[a];
      }
      WriteKeepsApart(mem, a, h.(prevSize := size));
      mem := Write(mem, a, h.(prevSize := size));
    }

    method SetPrevFree(a: nat, free: bool)
      requires Apart(mem)
      modifies this`mem
      ensures a in mem && mem == Write(old(mem), a, mem[a]) && Apart(mem) && mem[a].prevFree == free
      ensures a in old(mem) ==> mem == old(mem)[a := old(mem)[a].(prevFree := free)]
    {
      var h: Header := *;
      if a in mem {
        h := mem[a];
      }
      WriteKeepsApart(mem, a, h.(prevFree := free));
      mem := Write(mem, a, h.(prevFree := free));
    }

    function NextHeader(h: nat): nat
      requires h in mem
      reads this`mem
    {
      h + HEADER + mem[h].size
    }

    // ----- splitting and joining -----

    // Gives block h, which is in use, only `size` bytes; the rest becomes a
    // block of its own, also in use.
    method SplitBlock(h: nat, size: nat) returns (piece: nat)
      requires Consistent(mem, l, dict, sealed, 0)
      requires h in l.blocks && Object(h) !in dict && size + HEADER <= l.blocks[h]
      modifies this`mem, this`l
      ensures Consistent(mem, l, dict, sealed, 0)
      ensures l == Split(old(l), h, size) && piece == h + HEADER + size && Object(piece) !in dict
    {
      hide Disjoint, Linked, AllSized, AllMarked, AllPreceded, Bordered, Tagged, SealedOk, Write, Agree, Tracked, Apart;
      ConsistentParts(mem, l, dict, sealed);
      BlockSized(mem, l, dict, sealed, h);
      ghost var m := mem;
      var actual := mem[h].size;
      SetSize(h, size);
      piece := h + HEADER + size;
      var rest := actual - size - HEADER;
      // makeObject leaves the new header's status bit as it finds it.
      var junk: bool := *;
      ghost var m1 := mem;
      SplitWrite(m, m1, l, h, size, junk);
      PieceIsUntracked(l, h, piece);
      mem := Write(mem, piece, Header(junk, size, rest));
      ghost var m2 := mem;
      SetPrevSize(piece + HEADER + rest, rest);
      SetPrevFree(piece, false);
      SplitAgree(m, m1, m2, mem, l, h, l.Next(h), piece);
      TaggedSplit(m, mem, l, dict, sealed, h, size);
      SealedAfterSplit(l, dict, sealed, h, size);
      l := Split(l, h, size);
    }

    // coalesce: makes one block of two that are out of the dictionary; `open`
    // is the one whose free bit is not yet right.
    method JoinBlocks(first: nat, second: nat, ghost open: nat)
      requires Consistent(mem, l, dict, sealed, open)
      requires first in l.blocks && second in l.blocks && second == l.Next(first)
      requires Object(first) !in dict && Object(second) !in dict && (open == first || open == second)
      modifies this`mem, this`l
      ensures Consistent(mem, l, dict, sealed, if open == first then 0 else first)
      ensures l == Join(old(l), first)
    {
      hide Disjoint, Linked, AllMarked, AllPreceded, Bordered, Write, Agree, Apart;
      ghost var m := mem;
      assert Sized(mem, l, first) && Sized(mem, l, second);
      var newSize := second - first + mem[second].size;
      SetSize(first, newSize);
      SetPrevSize(NextHeader(first), newSize);
      JoinAgree(m, mem, l, first, l.Next(second));
      TaggedJoin(m, mem, l, dict, sealed, first, open);
      l := Join(l, first);
    }

    // Sets the free bit of a block that is out of the dictionary; the caller
    // puts a block marked free into the dictionary.
    method Mark(h: nat, free: bool, ghost open: nat)
      requires Consistent(mem, l, dict, sealed, open)
      requires h in l.blocks && Object(h) !in dict && (open == 0 || open == h) && (free ==> h !in sealed)
      modifies this`mem
      ensures Consistent(mem, l, if free then dict + {Object(h)} else dict, sealed, 0)
    {
      hide Disjoint, Linked, AllMarked, AllPreceded, Bordered, Write, Agree, Apart;
      ghost var m := mem;
      assert Sized(mem, l, h);
      SetPrevFree(NextHeader(h), free);
      MarkAgree(m, mem, l, l.Next(h));
      TaggedMark(m, mem, l, dict, if free then dict + {Object(h)} else dict, sealed, h, open, free);
    }

    // ----- fresh memory -----

    // [lo, lo + n) is new memory from the super heap.
    ghost predicate Supplied(lo: nat, n: nat)
      reads this`l, this`ptr, this`remaining
    {
      && 0 < lo
      && (forall h :: h in l.blocks ==> l.Next(h) <= lo || lo + n <= h)
      && (forall e :: e in l.ends ==> e + 2 * HEADER <= lo || lo + n <= e)
      && (ptr != 0 ==> ptr + remaining + SLOP <= lo || lo + n <= ptr)
    }

    // SlopHeap: bumps the tail, and keeps SLOP bytes behind it. `supply` is
    // where the super heap finds more memory if it is asked.
    method SlopMalloc(nbytes: nat, supply: nat) returns (p: nat, isNew: bool)
      requires TailAt(l, ptr, remaining) && 0 < nbytes
      requires nbytes > remaining ==> Supplied(supply, nbytes + SLOP)
      modifies this`ptr, this`remaining
      ensures p ==
        if nbytes <= old(remaining) || (old(ptr) != 0 && supply == old(ptr) + old(remaining) + SLOP) then old(ptr)
        else supply
      ensures 0 < p && ptr == p + nbytes && Room(l, p, ptr + remaining + SLOP)
      ensures (p in l.ends <==> p == old(ptr)) && (isNew <==> p !in l.ends)
      // Nothing of the memory obtained is lost but what an abandoned tail had.
      ensures ptr + remaining == if nbytes <= old(remaining) then old(ptr) + old(remaining) else supply + nbytes
    {
      if nbytes <= remaining {
        remaining := remaining - nbytes;
        p := ptr;
        ptr := ptr + nbytes;
        return p, false;
      }
      if ptr != 0 && ptr + remaining + SLOP == supply {
        remaining := remaining + SLOP;
        isNew := false;
      } else {
        ptr := supply;
        remaining := 0;
        isNew := true;
      }
      p := ptr;
      ptr := ptr + nbytes;
    }

    // Where the next block from fresh memory starts.
    ghost function Tail(nbytes: nat, supply: nat): nat
      reads this`ptr, this`remaining
    {
      if nbytes <= remaining || (ptr != 0 && supply == ptr + remaining + SLOP) then ptr else supply
    }

    // Fresh memory reads as zero; behind a region there is the old end header.
    method FirstHeader(h: nat, ghost hi: nat, isNew: bool)
      requires Apart(mem) && Room(l, h, hi) && h + HEADER <= hi && (!isNew ==> h in mem)
      modifies this`mem
      ensures Apart(mem) && Agree(old(mem), mem, l, {h, h + HEADER})
      ensures h in mem && mem[h] == if isNew then Header(false, 0, 0) else old(mem)[h]
    {
      hide Room, Tracked, Apart, Agree, Write;
      AgreeRefl(mem, l, {h, h + HEADER});
      if isNew {
        WriteKeepsApart(mem, h, Header(false, 0, 0));
        AgreeInRoom(mem, mem, l, h, hi, h, Header(false, 0, 0));
        mem := Write(mem, h, Header(false, 0, 0));
      }
    }

    // The memory CoalesceableHeap::malloc writes: the header of the new block,
    // and one header and the status bit of another past its end.
    method GrowHeaders(h: nat, size: nat, isNew: bool)
      requires isNew <==> h !in l.ends
      requires Apart(mem) && Room(l, h, h + size + 3 * HEADER) && (h in l.ends ==> h in mem)
      modifies this`mem
      ensures GrowWords(old(mem), mem, l, h, size)
    {
      hide Room, Tracked, Apart, Agree, Write;
      ghost var m, n, hi := mem, h + HEADER + size, h + size + 3 * HEADER;
      FirstHeader(h, hi, isNew);
      ghost var m1 := mem;
      SetSize(h, size);
      AgreeInRoom(m, m1, l, h, hi, h, mem[h]);
      ghost var m2 := mem;
      SetPrevSize(h + HEADER + size, size);
      AgreeInRoom(m, m2, l, h, hi, n, mem[n]);
      ghost var m3 := mem;
      SetSize(h + HEADER + size, 0);
      AgreeInRoom(m, m3, l, h, hi, n, mem[n]);
      ghost var m4 := mem;
      SetPrevFree(h + HEADER + size + HEADER, false);
      AgreeInRoom(m, m4, l, h, hi, n + HEADER, mem[n + HEADER]);
    }

    // A new block from fresh memory, in use.
    method GrowBlock(size: nat, supply: nat) returns (h: nat)
      requires Valid()
      requires size + HEADER > remaining ==> Supplied(supply, size + HEADER + SLOP)
      modifies this`mem, this`ptr, this`remaining, this`regions, this`l
      ensures h == old(Tail(size + HEADER, supply)) && h !in old(l.blocks) && 0 < h
      ensures l == Grow(old(l), h, size) && TailAt(l, ptr, remaining) && ptr == h + HEADER + size
      ensures ptr + remaining == if size + HEADER <= old(remaining) then old(ptr) + old(remaining)
        else supply + size + HEADER
      ensures Consistent(mem, l, dict, sealed, h) && Object(h) !in dict && regions == l.starts
    {
      hide Consistent, Apart, Room, GrowWords, Grow, Supplied, TailAt, Coalesced;
      EndsKnown(mem, l, dict, sealed);
      ghost var m := mem;
      var isNew;
      h, isNew := SlopMalloc(size + HEADER, supply);
      RoomIn(l, h, h + size + 3 * HEADER, ptr + remaining + SLOP);
      GrowHeaders(h, size, isNew);
      regions := if isNew then regions + {h} else regions;
      GrowFacts(m, mem, l, dict, sealed, h, size, remaining);
      GrownStarts(l, h, size);
      l := Grow(l, h, size);
    }

    // ----- malloc -----

    // Marks a block that was just taken as in use, and splits it if the rest
    // can hold a header and a double.
    method Finish(h: nat, size: nat)
      requires Consistent(mem, l, dict, sealed, h) && TailAt(l, ptr, remaining) && regions == l.starts
      requires h in l.blocks && size <= l.blocks[h] && Object(h) !in dict && h !in sealed
      requires clean ==> sealed == {} && Coalesced(l, dict)
      requires clean && size + HEADER + 8 <= l.blocks[h] ==> Object(l.Next(h)) !in dict
      modifies this`mem, this`dict, this`l
      ensures Valid() && Now() == Carve(old(Now()), h, size)
    {
      hide Consistent, Coalesced, TailAt, Split;
      Mark(h, false, h);
      BlockSized(mem, l, dict, sealed, h);
      var actual := mem[h].size;
      if actual - size >= HEADER + 8 {
        NotSealed(mem, l, dict, sealed, 0, h);
        SplitFacts(l, dict, h, size, ptr, remaining);
        var piece := SplitBlock(h, size);
        NotSealed(mem, l, dict, sealed, 0, piece);
        Mark(piece, true, 0);
        dict := dict + {piece + HEADER};
      }
    }

    // `wish` is the free object that the dictionary finds, 0 for none; `supply`
    // is where the super heap finds memory if it is asked.
    method Malloc(size: nat, wish: nat, supply: nat) returns (obj: nat)
      requires Valid()
      requires wish != 0 ==>
        wish in dict && HEADER <= wish && wish - HEADER in l.blocks && size <= l.blocks[wish - HEADER]
      requires wish == 0 && size + HEADER > remaining ==> Supplied(supply, size + HEADER + SLOP)
      modifies this
      ensures HEADER <= obj && (wish != 0 ==> obj == wish)
      ensures Now() == if wish != 0 then Carve(old(Now()), wish - HEADER, size)
                       else State(Grow(old(l), obj - HEADER, size), old(dict), old(sealed))
      ensures wish == 0 ==> obj == Object(old(Tail(size + HEADER, supply))) && obj - HEADER !in old(l.blocks)
      ensures wish != 0 ==> ptr == old(ptr) && remaining == old(remaining)
      ensures wish == 0 ==> ptr == obj + size
      ensures wish == 0 ==>
        ptr + remaining == if size + HEADER <= old(remaining) then old(ptr) + old(remaining) else supply + size + HEADER
      ensures Valid() && clean == old(clean)
    {
      hide Consistent, Coalesced, Grow, TailAt, Supplied, Split, Tail;
      if wish != 0 {
        var h := wish - HEADER;
        TakeFacts(mem, l, dict, sealed, h);
        dict, sealed := dict - {wish}, sealed - {h};
        Finish(h, size);
        obj := wish;
      } else {
        var h := GrowBlock(size, supply);
        GrownSize(old(l), dict, h, size);
        NotSealed(mem, l, dict, sealed, h, h);
        Finish(h, size);
        obj := h + HEADER;
      }
    }

    // ----- free -----

    // Removes the free block h from the dictionary, to be joined.
    method Remove(h: nat)
      requires Consistent(mem, l, dict, sealed, 0) && Object(h) in dict && h !in sealed
      modifies this`dict
      ensures h in l.blocks && dict == old(dict) - {Object(h)} && Consistent(mem, l, dict, sealed, h)
    {
      hide Consistent;
      TakeFacts(mem, l, dict, sealed, h);
      assert sealed - {h} == sealed;
      dict := dict - {h + HEADER};
    }

    // Joins block h, which is in use, with the block behind it if that is free.
    method JoinForward(h: nat) returns (ghost open: nat)
      requires Consistent(mem, l, dict, sealed, 0) && h in l.blocks && Object(h) !in dict
      modifies this`mem, this`dict, this`l
      ensures h in l.blocks && Object(h) !in dict && (open == 0 || open == h) && Consistent(mem, l, dict, sealed, open)
      ensures Now() == JoinNext(old(Now()), h)
    {
      hide Consistent;
      BackTag(mem, l, dict, sealed, h);
      NotSealed(mem, l, dict, sealed, 0, h);
      var n := h + HEADER + mem[h].size;
      open := 0;
      assert n == l.Next(h) && dict - {Object(n)} == dict - {Object(h), Object(n)};
      if mem[n + HEADER + mem[n].size].prevFree {
        Remove(n);
        JoinBlocks(h, n, n);
        open := h;
      }
    }

    // Joins block h with the block behind it if that is free, and marks the result free.
    method FreeForward(h: nat)
      requires Consistent(mem, l, dict, sealed, 0) && h in l.blocks && Object(h) !in dict && h !in sealed
      modifies this`mem, this`dict, this`l
      ensures Consistent(mem, l, dict, sealed, 0)
      ensures Now() == Insert(JoinNext(old(Now()), h), h)
    {
      hide Consistent, JoinNext;
      ghost var open := JoinForward(h);
      Mark(h, true, open);
      dict := dict + {h + HEADER};
    }

    // Frees block h behind the block p, which its header calls free.
    method FreeBackward(h: nat, p: nat)
      requires Consistent(mem, l, dict, sealed, 0) && h in l.blocks && Object(h) !in dict
      requires p != 0 && p in l.blocks && l.Next(p) == h && Object(p) in dict && p !in sealed
      modifies this`mem, this`dict, this`l
      ensures Consistent(mem, l, dict, sealed, 0)
      ensures Now() == Release(old(Now()), h, p)
    {
      hide Consistent, JoinNext;
      Remove(p);
      JoinBlocks(p, h, p);
      assert dict == old(dict) - {Object(p), Object(h)};
      FreeForward(p);
    }

    // The first test of free: do the neighbours named by the tags name this
    // object? Only a foreign word in front of a region can say no.
    method NeighboursAgree(h: nat, below: nat) returns (agree: bool)
      requires Consistent(mem, l, dict, sealed, 0) && regions == l.starts && h in l.blocks
      ensures agree <==> h !in l.starts || below == 0
    {
      hide Consistent;
      FrontTag(mem, l, dict, sealed, h);
      BackTag(mem, l, dict, sealed, h);
      var obj := h + HEADER;
      var prev := h - mem[h].prevSize;
      var frontSize := if h in regions then below else mem[prev - HEADER].size;
      var next := h + 2 * HEADER + mem[h].size;
      agree := prev + HEADER + frontSize == obj && next - HEADER - mem[next - HEADER].prevSize == obj;
    }

    // Frees block h, joining it with its free neighbours.
    method FreeJoining(h: nat, ghost p: nat)
      requires Valid() && h in l.blocks && Object(h) !in dict && h !in sealed && p == FreeFront(mem, h)
      requires JoinsFront(Now(), h, p)
      requires h in mem && (p != 0 <==> mem[h].prevFree)
      modifies this`mem, this`dict, this`l
      ensures Valid() && Now() == Release(old(Now()), h, p)
    {
      hide Consistent, Coalesced, TailAt, JoinNext, JoinFree, Insert, JoinsFront;
      ReleaseFacts(mem, l, dict, sealed, clean, h, p, ptr, remaining);
      if mem[h].prevFree {
        FreeBackward(h, h - HEADER - mem[h].prevSize);
      } else {
        FreeForward(h);
      }
    }

    // Frees an object in use. `below` is what the size word in front of the
    // object's region reads, where the memory is not the heap's.
    method Free(obj: nat, below: nat)
      requires Valid() && HEADER <= obj && obj - HEADER in l.blocks && obj !in dict
      modifies this`mem, this`dict, this`l, this`sealed, this`clean
      ensures Valid()
      ensures var h := obj - HEADER;
        if h in old(l.starts) && below != 0 then
          Now() == Seal(old(Now()), h) && mem == old(mem) && !clean
        else
          && clean == old(clean)
          && JoinsFront(old(Now()), h, FreeFront(old(mem), h))
          && Now() == Release(old(Now()), h, FreeFront(old(mem), h))
    {
      var h := obj - HEADER;
      hide Consistent, Coalesced, TailAt, Release, FreeFront, JoinsFront;
      FrontTag(mem, l, dict, sealed, h);
      NotSealed(mem, l, dict, sealed, 0, h);
      var agree := NeighboursAgree(h, below);
      if !agree {
        SealedFacts(mem, l, dict, sealed, h);
        dict, sealed, clean := dict + {obj}, sealed + {h}, false;
      } else {
        FreeJoining(h, FreeFront(mem, h));
      }
    }

    // Whoever owns an object, a client or the dictionary that links free
    // objects, may write anything inside it: no tag is disturbed.
    method WriteInside(obj: nat, lo: nat, hi: nat)
      requires Valid() && HEADER <= obj && obj - HEADER in l.blocks
      requires obj <= lo <= hi <= obj + l.blocks[obj - HEADER]
      modifies this`mem
      ensures Valid() && mem == Scribble(old(mem), lo, hi)
    {
      hide Consistent, Coalesced, TailAt, Scribble;
      ScribbleFacts(mem, l, dict, sealed, obj - HEADER, lo, hi);
      mem := Scribble(mem, lo, hi);
    }
  }
}
