// What the operations of a coalescing heap keep: every byte of a region lies in
// exactly one block, no byte is lost or gained, and no object in use is touched.

module CoalesceTheorems {
  import opened BoundaryTags
  import opened CoalesceHeap
  import opened MapSum

  ghost predicate WellFormed(s: State) {
    && Disjoint(s.l) && Linked(s.l) && 0 !in s.l.blocks
    && (forall q :: q in s.dict ==> HEADER <= q && q - HEADER in s.l.blocks)
    && s.sealed <= s.l.starts && forall k :: k in s.sealed ==> Object(k) in s.dict
  }

  // ----- objects in use -----

  ghost predicate InUse(s: State, x: nat) {
    x in s.l.blocks && Object(x) !in s.dict
  }

  lemma CarveKeepsObjects(s: State, h: nat, size: nat, x: nat)
    requires WellFormed(s) && h in s.l.blocks && Object(h) in s.dict && size <= s.l.blocks[h]
    ensures var r := Carve(s, h, size);
            && WellFormed(r)
            && InUse(r, h) && size <= r.l.blocks[h] < size + HEADER + 8
            && (x != h ==> (InUse(r, x) <==> InUse(s, x)))
            && (InUse(s, x) ==> r.l.blocks[x] == s.l.blocks[x])
  {
    if size + HEADER + 8 <= s.l.blocks[h] {
      DisjointSplit(s.l, h, size);
      LinkedSplit(s.l, h, size);
    }
  }

  lemma ReleaseKeepsObjects(s: State, h: nat, p: nat, x: nat)
    requires WellFormed(s) && InUse(s, h)
    requires p != 0 ==> p in s.l.blocks && s.l.Next(p) == h && Object(p) in s.dict && p !in s.sealed
    ensures var r := Release(s, h, p);
            && WellFormed(r) && !InUse(r, h)
            && (x != h ==> (InUse(r, x) <==> InUse(s, x)))
            && (x != h && InUse(s, x) ==> r.l.blocks[x] == s.l.blocks[x])
  {
    if p != 0 {
      JoinFreeKeepsObjects(s, p, x);
      JoinNextKeepsObjects(JoinFree(s, p), p, x);
    } else {
      JoinNextKeepsObjects(s, h, x);
    }
  }

  lemma JoinFreeKeepsObjects(s: State, h: nat, x: nat)
    requires WellFormed(s) && h in s.l.blocks && s.l.Next(h) in s.l.blocks && h !in s.sealed
    ensures var r, n := JoinFree(s, h), s.l.Next(h);
            && WellFormed(r) && InUse(r, h) && n !in r.l.blocks
            && (x != h && x != n ==> (InUse(r, x) <==> InUse(s, x)) && (InUse(s, x) ==> r.l.blocks[x] == s.l.blocks[x]))
  {
    DisjointJoin(s.l, h);
    LinkedJoin(s.l, h);
    assert Continued(s.l, h);
    hide Disjoint, Linked;
  }

  lemma JoinNextKeepsObjects(s: State, h: nat, x: nat)
    requires WellFormed(s) && InUse(s, h)
    ensures var r := Insert(JoinNext(s, h), h);
            && WellFormed(r) && !InUse(r, h)
            && (x != h ==> (InUse(r, x) <==> InUse(s, x)))
            && (x != h && InUse(s, x) ==> r.l.blocks[x] == s.l.blocks[x])
  {
    if s.l.Next(h) in s.l.blocks && Object(s.l.Next(h)) in s.dict {
      JoinFreeKeepsObjects(s, h, x);
    }
  }

  // ----- bytes -----

  // Bytes of the objects and their headers.
  ghost function Bytes(blocks: map<nat, nat>): nat {
    Total(blocks) + HEADER * |blocks|
  }

  ghost function FreeBlocks(s: State): map<nat, nat> {
    map h | h in s.l.blocks && Object(h) in s.dict :: s.l.blocks[h]
  }

  lemma BytesSet(b: map<nat, nat>, h: nat, size: nat)
    ensures Bytes(b[h := size]) == (if h in b then Bytes(b) - b[h] else Bytes(b) + HEADER) + size
  {
    TotalSet(b, h, size);
    assert b[h := size].Keys == b.Keys + {h};
    assert |b[h := size].Keys| == |b.Keys| + if h in b then 0 else 1;
  }

  lemma BytesWithout(b: map<nat, nat>, h: nat)
    requires h in b
    ensures Bytes(b - {h}) == Bytes(b) - b[h] - HEADER
  {
    TotalAt(b, h);
    assert (b - {h}).Keys == b.Keys - {h};
    assert |b.Keys| == |(b - {h}).Keys| + 1;
  }

  lemma BytesJoin(l: Layout, h: nat)
    requires h in l.blocks && l.Next(h) in l.blocks
    ensures Bytes(Join(l, h).blocks) == Bytes(l.blocks)
  {
    var n := l.Next(h);
    BytesWithout(l.blocks, n);
    BytesSet(l.blocks - {n}, h, l.blocks[h] + HEADER + l.blocks[n]);
  }

  lemma FreeAfterSplit(s: State, h: nat, size: nat)
    requires h in s.l.blocks && Object(h) in s.dict && size + HEADER + 8 <= s.l.blocks[h]
    requires h + HEADER + size !in s.l.blocks
    ensures FreeBlocks(Carve(s, h, size)) == (FreeBlocks(s) - {h})[h + HEADER + size := s.l.blocks[h] - size - HEADER]
  {
  }

  lemma FreeAfterTake(s: State, h: nat)
    requires h in s.l.blocks
    ensures FreeBlocks(State(s.l, s.dict - {Object(h)}, s.sealed - {h})) == FreeBlocks(s) - {h}
  {
  }

  lemma FreeAfterJoin(s: State, h: nat)
    requires h in s.l.blocks && s.l.Next(h) in s.l.blocks
    ensures FreeBlocks(JoinFree(s, h)) == FreeBlocks(s) - {h, s.l.Next(h)}
  {
  }

  lemma FreeAfterInsert(s: State, h: nat)
    requires h in s.l.blocks
    ensures FreeBlocks(Insert(s, h)) == FreeBlocks(s)[h := s.l.blocks[h]]
  {
  }

  lemma BytesSplit(l: Layout, h: nat, size: nat)
    requires h in l.blocks && size + HEADER <= l.blocks[h] && h + HEADER + size !in l.blocks
    ensures Bytes(Split(l, h, size).blocks) == Bytes(l.blocks)
  {
    BytesSet(l.blocks, h, size);
    BytesSet(l.blocks[h := size], h + HEADER + size, l.blocks[h] - size - HEADER);
  }

  lemma FreeBlock(s: State, h: nat)
    requires h in s.l.blocks && Object(h) in s.dict
    ensures h in FreeBlocks(s) && FreeBlocks(s)[h] == s.l.blocks[h]
  {
  }

  // Carving takes exactly the object and its header from the free memory, and
  // no byte of the heap is lost.
  lemma CarveConserves(s: State, h: nat, size: nat)
    requires WellFormed(s) && h in s.l.blocks && Object(h) in s.dict && size <= s.l.blocks[h]
    ensures h in Carve(s, h, size).l.blocks
    ensures Bytes(Carve(s, h, size).l.blocks) == Bytes(s.l.blocks)
    ensures Bytes(FreeBlocks(Carve(s, h, size))) == Bytes(FreeBlocks(s)) - HEADER - Carve(s, h, size).l.blocks[h]
  {
    hide WellFormed, FreeBlocks, Bytes;
    FreeBlock(s, h);
    BytesWithout(FreeBlocks(s), h);
    if size + HEADER + 8 <= s.l.blocks[h] {
      PieceIsNew(s, h, size);
      BytesSplit(s.l, h, size);
      FreeAfterSplit(s, h, size);
      BytesSet(FreeBlocks(s) - {h}, h + HEADER + size, s.l.blocks[h] - size - HEADER);
    } else {
      FreeAfterTake(s, h);
    }
  }

  lemma PieceIsNew(s: State, h: nat, size: nat)
    requires WellFormed(s) && h in s.l.blocks && size + HEADER <= s.l.blocks[h]
    ensures h + HEADER + size !in s.l.blocks && h + HEADER + size !in FreeBlocks(s)
  {
    DisjointSplit(s.l, h, size);
  }

  lemma JoinFreeParts(s: State, h: nat)
    requires WellFormed(s) && InUse(s, h) && s.l.Next(h) in s.l.blocks && Object(s.l.Next(h)) in s.dict
    ensures JoinNext(s, h) == JoinFree(s, h) && JoinFree(s, h).l == Join(s.l, h)
    ensures var n, f, r := s.l.Next(h), FreeBlocks(s), JoinFree(s, h);
            && h in r.l.blocks && r.l.blocks[h] == s.l.blocks[h] + HEADER + s.l.blocks[n]
            && h !in f && n in f && f[n] == s.l.blocks[n] && f - {h, n} == f - {n}
  {
  }

  lemma NotFree(s: State, h: nat)
    requires InUse(s, h)
    ensures h !in FreeBlocks(s)
  {
  }

  lemma JoinNextConserves(s: State, h: nat)
    requires WellFormed(s) && InUse(s, h)
    ensures h in JoinNext(s, h).l.blocks
    ensures Bytes(JoinNext(s, h).l.blocks) == Bytes(s.l.blocks)
    ensures Bytes(FreeBlocks(Insert(JoinNext(s, h), h))) == Bytes(FreeBlocks(s)) + HEADER + s.l.blocks[h]
  {
    hide WellFormed, FreeBlocks, Bytes, JoinFree, Join, Insert;
    var n, f := s.l.Next(h), FreeBlocks(s);
    if n in s.l.blocks && Object(n) in s.dict {
      JoinFreeParts(s, h);
      FreeAfterInsert(JoinFree(s, h), h);
      BytesJoin(s.l, h);
      FreeAfterJoin(s, h);
      BytesWithout(f, n);
      BytesSet(f - {n}, h, s.l.blocks[h] + HEADER + s.l.blocks[n]);
    } else {
      NotFree(s, h);
      FreeAfterInsert(s, h);
      BytesSet(f, h, s.l.blocks[h]);
    }
  }

  // Freeing gives exactly the object and its header back to the free memory.
  lemma ReleaseConserves(s: State, h: nat, p: nat)
    requires WellFormed(s) && InUse(s, h)
    requires p != 0 ==> p in s.l.blocks && s.l.Next(p) == h && Object(p) in s.dict && p !in s.sealed
    ensures Bytes(Release(s, h, p).l.blocks) == Bytes(s.l.blocks)
    ensures Bytes(FreeBlocks(Release(s, h, p))) == Bytes(FreeBlocks(s)) + HEADER + s.l.blocks[h]
  {
    if p != 0 {
      var s1, f := JoinFree(s, p), FreeBlocks(s);
      BytesJoin(s.l, p);
      FreeAfterJoin(s, p);
      JoinFreeKeepsObjects(s, p, p);
      BytesWithout(f, p);
      assert f - {p, h} == f - {p};
      hide WellFormed, FreeBlocks, Bytes;
      JoinNextConserves(s1, p);
    } else {
      JoinNextConserves(s, h);
    }
  }

  // ----- regions -----

  function Above(l: Layout, h: nat): set<nat> {
    set k | k in l.blocks && h <= k
  }

  lemma AboveShrinks(l: Layout, h: nat)
    requires h in l.blocks
    ensures |Above(l, l.Next(h))| < |Above(l, h)|
  {
    var a, b := Above(l, h), Above(l, l.Next(h));
    assert b <= a - {h};
    SubsetCard(b, a - {h});
    assert |a - {h}| == |a| - 1;
  }

  lemma {:induction false} SubsetCard(a: set<nat>, b: set<nat>)
    requires a <= b
    ensures |a| <= |b|
  {
    if a != {} {
      var x :| x in a;
      SubsetCard(a - {x}, b - {x});
    }
  }

  // Where the chain of blocks from h on ends.
  ghost function RegionEnd(l: Layout, h: nat): nat
    decreases |Above(l, h)|
  {
    if h in l.blocks then
      AboveShrinks(l, h);
      RegionEnd(l, l.Next(h))
    else h
  }

  // The blocks from h on reach an end header without a gap: each byte in
  // between lies in one block, and in no other.
  lemma {:induction false} RegionTiled(l: Layout, h: nat, a: nat) returns (k: nat)
    requires Disjoint(l) && Linked(l) && h in l.blocks && h <= a < RegionEnd(l, h)
    ensures k in l.blocks && k <= a < l.Next(k)
    ensures forall j :: j in l.blocks && j != k ==> a < j || l.Next(j) <= a
    decreases |Above(l, h)|
  {
    if a < l.Next(h) {
      k := h;
    } else {
      AboveShrinks(l, h);
      assert Continued(l, h);
      k := RegionTiled(l, l.Next(h), a);
    }
  }

  lemma {:induction false} RegionEndIsEnd(l: Layout, h: nat)
    requires Linked(l) && h in l.blocks
    ensures RegionEnd(l, h) in l.ends && l.Next(h) <= RegionEnd(l, h)
    decreases |Above(l, h)|
  {
    assert Continued(l, h);
    if l.Next(h) in l.blocks {
      AboveShrinks(l, h);
      RegionEndIsEnd(l, l.Next(h));
    }
  }

  lemma RegionEndNext(l: Layout, h: nat)
    requires h in l.blocks
    ensures RegionEnd(l, h) == RegionEnd(l, l.Next(h))
  {
    AboveShrinks(l, h);
  }

  // Splitting a block does not move the end of any region.
  lemma {:induction false} RegionEndSplit(l: Layout, h: nat, size: nat, k: nat)
    requires Disjoint(l) && Linked(l) && h in l.blocks && size + HEADER <= l.blocks[h]
    requires k in l.blocks || k in l.ends
    ensures RegionEnd(Split(l, h, size), k) == RegionEnd(l, k)
    decreases |Above(l, k)|
  {
    hide Split, Disjoint;
    var r, piece := Split(l, h, size), h + HEADER + size;
    SplitParts(l, h, size);
    DisjointSplit(l, h, size);
    if k in l.blocks {
      assert Continued(l, k);
      AboveShrinks(l, k);
      RegionEndSplit(l, h, size, l.Next(k));
      RegionEndNext(r, k);
      if k == h {
        RegionEndNext(r, piece);
      }
    } else {
      BlockIsNoEnd(l, h);
      EndIsNoPiece(l, h, piece, k);
    }
  }

  lemma EndIsNoPiece(l: Layout, h: nat, piece: nat, e: nat)
    requires Disjoint(l) && h in l.blocks && e in l.ends && Object(h) <= piece && piece + HEADER <= l.Next(h)
    ensures e != piece && e != h
  {
  }

  lemma {:induction false} RegionEndJoin(l: Layout, h: nat, k: nat)
    requires Disjoint(l) && Linked(l) && h in l.blocks && l.Next(h) in l.blocks
    requires (k in l.blocks || k in l.ends) && k != l.Next(h)
    ensures RegionEnd(Join(l, h), k) == RegionEnd(l, k)
    decreases |Above(l, k)|
  {
    var r, n := Join(l, h), l.Next(h);
    DisjointJoin(l, h);
    if k in l.blocks {
      assert Continued(l, k);
      AboveShrinks(l, k);
      RegionEndNext(r, k);
      if k == h {
        assert Continued(l, n);
        AboveShrinks(l, n);
        RegionEndNext(l, n);
        RegionEndJoin(l, h, l.Next(n));
      } else {
        OneSuccessor(l, h, k);
        RegionEndJoin(l, h, l.Next(k));
      }
    }
  }

  lemma CarveKeepsRegion(s: State, h: nat, size: nat, k: nat)
    requires WellFormed(s) && h in s.l.blocks && Object(h) in s.dict && size <= s.l.blocks[h] && k in s.l.starts
    ensures RegionEnd(Carve(s, h, size).l, k) == RegionEnd(s.l, k)
  {
    if size + HEADER + 8 <= s.l.blocks[h] {
      RegionEndSplit(s.l, h, size, k);
    }
  }

  lemma ReleaseKeepsRegion(s: State, h: nat, p: nat, k: nat)
    requires WellFormed(s) && InUse(s, h) && k in s.l.starts
    requires p != 0 ==> p in s.l.blocks && s.l.Next(p) == h && Object(p) in s.dict && p !in s.sealed
    ensures RegionEnd(Release(s, h, p).l, k) == RegionEnd(s.l, k)
  {
    var s1, h1 := if p != 0 then JoinFree(s, p) else s, if p != 0 then p else h;
    if p != 0 {
      assert Continued(s.l, p);
      RegionEndJoin(s.l, p, k);
      JoinFreeKeepsObjects(s, p, k);
    }
    if s1.l.Next(h1) in s1.l.blocks && Object(s1.l.Next(h1)) in s1.dict {
      assert Continued(s1.l, h1);
      RegionEndJoin(s1.l, h1, k);
    }
  }

  // Growth moves the end of the region that ended where the block begins, and no other.
  lemma {:induction false} GrowMovesRegion(l: Layout, h: nat, size: nat, k: nat)
    requires Room(l, h, h + size + 3 * HEADER)
    ensures RegionEnd(Grow(l, h, size), k) == if RegionEnd(l, k) == h then h + HEADER + size else RegionEnd(l, k)
    decreases |Above(l, k)|
  {
    var r := Grow(l, h, size);
    if k in l.blocks {
      AboveShrinks(l, k);
      RegionEndNext(r, k);
      GrowMovesRegion(l, h, size, l.Next(k));
    } else if k == h {
      RegionEndNext(r, h);
    }
  }

  // ----- runs -----

  // What the words in front of the regions read, by the first block of the region.
  type Foreign = nat -> nat

  ghost predicate TakeStep(s: State, s': State, h: nat, size: nat) {
    h in s.l.blocks && Object(h) in s.dict && size <= s.l.blocks[h] && s' == Carve(s, h, size)
  }

  ghost predicate GrowStep(s: State, s': State, h: nat, size: nat) {
    0 < h && Room(s.l, h, h + size + 3 * HEADER) && s' == State(Grow(s.l, h, size), s.dict, s.sealed)
  }

  // A free whose first test succeeds; p is the block in front that it joins, 0 for none.
  ghost predicate FreeStep(words: Foreign, s: State, s': State, h: nat, p: nat) {
    && InUse(s, h) && (h in s.l.starts ==> words(h) == 0)
    && JoinsFront(s, h, p) && s' == Release(s, h, p)
  }

  // A free whose first test meets a foreign word that disagrees.
  ghost predicate SealStep(words: Foreign, s: State, s': State, h: nat) {
    InUse(s, h) && h in s.l.starts && words(h) != 0 && s' == Seal(s, h)
  }

  // One operation; what is asked for is at least `least` bytes.
  ghost predicate Step(words: Foreign, least: nat, s: State, s': State) {
    || (exists h, size :: least <= size && TakeStep(s, s', h, size))
    || (exists h, size :: least <= size && GrowStep(s, s', h, size))
    || (exists h, p :: FreeStep(words, s, s', h, p))
    || (exists h :: SealStep(words, s, s', h))
  }

  ghost predicate Run(words: Foreign, least: nat, ss: seq<State>) {
    && 0 < |ss| && ss[0] == State(Layout(map[], {}, {}), {}, {})
    && forall i :: 0 <= i < |ss| - 1 ==> Step(words, least, ss[i], ss[i + 1])
  }

  lemma CarveKeepsCoalesced(s: State, h: nat, size: nat)
    requires WellFormed(s) && Coalesced(s.l, s.dict)
    requires h in s.l.blocks && Object(h) in s.dict && size <= s.l.blocks[h]
    ensures Coalesced(Carve(s, h, size).l, Carve(s, h, size).dict)
  {
    if size + HEADER + 8 <= s.l.blocks[h] {
      DisjointSplit(s.l, h, size);
      CoalescedSplit(s.l, s.dict - {Object(h)}, h, size);
    }
  }

  lemma GrowKeeps(s: State, h: nat, size: nat)
    requires WellFormed(s) && 0 < h && Room(s.l, h, h + size + 3 * HEADER)
    ensures WellFormed(State(Grow(s.l, h, size), s.dict, s.sealed))
    ensures Coalesced(s.l, s.dict) ==> Coalesced(Grow(s.l, h, size), s.dict)
    ensures Bytes(Grow(s.l, h, size).blocks) == Bytes(s.l.blocks) + HEADER + size
  {
    DisjointGrow(s.l, h, size);
    LinkedGrow(s.l, h, size);
    if Coalesced(s.l, s.dict) {
      CoalescedGrow(s.l, s.dict, h, size);
    }
    BytesSet(s.l.blocks, h, size);
  }

  lemma SealKeeps(s: State, h: nat)
    requires WellFormed(s) && InUse(s, h) && h in s.l.starts
    ensures WellFormed(Seal(s, h))
  {
  }

  // Every step keeps blocks disjoint and chained and the dictionary within them,
  // whatever the foreign words are.
  lemma StepKeeps(words: Foreign, least: nat, s: State, s': State)
    requires WellFormed(s) && Step(words, least, s, s')
    ensures WellFormed(s')
  {
    hide WellFormed, Coalesced, Carve, Release, Grow, Seal;
    if h, size :| TakeStep(s, s', h, size) {
      CarveKeepsObjects(s, h, size, h);
    } else if h, size :| GrowStep(s, s', h, size) {
      GrowKeeps(s, h, size);
    } else if h, p :| FreeStep(words, s, s', h, p) {
      ReleaseKeepsObjects(s, h, p, h);
    } else {
      var h :| SealStep(words, s, s', h);
      SealKeeps(s, h);
    }
  }

  // Without a foreign word, every step leaves no two neighbours free.
  lemma StepKeepsCoalesced(words: Foreign, least: nat, s: State, s': State)
    requires WellFormed(s) && Coalesced(s.l, s.dict) && s.sealed == {} && Step(words, least, s, s')
    requires forall a :: 0 < a ==> words(a) == 0
    ensures Coalesced(s'.l, s'.dict) && s'.sealed == {}
  {
    hide Disjoint, Linked, Coalesced, Release, Grow, JoinsFront, Split;
    if h, size :| TakeStep(s, s', h, size) {
      CarveKeepsCoalesced(s, h, size);
    } else if h, size :| GrowStep(s, s', h, size) {
      GrowKeeps(s, h, size);
    } else if h, p :| FreeStep(words, s, s', h, p) {
      ReleaseKeepsCoalesced(s, h, p);
    } else {
      var h :| SealStep(words, s, s', h);
      assert false;
    }
  }

  lemma {:induction false} RunsAreWellFormed(words: Foreign, least: nat, ss: seq<State>)
    requires Run(words, least, ss)
    ensures WellFormed(ss[|ss| - 1])
  {
    if |ss| > 1 {
      RunsAreWellFormed(words, least, ss[..|ss| - 1]);
      LastStep(words, least, ss);
      StepKeeps(words, least, ss[|ss| - 2], ss[|ss| - 1]);
    }
  }

  lemma LastStep(words: Foreign, least: nat, ss: seq<State>)
    requires Run(words, least, ss) && |ss| > 1
    ensures Step(words, least, ss[|ss| - 2], ss[|ss| - 1]) && Run(words, least, ss[..|ss| - 1])
  {
    var i := |ss| - 2;
    assert Step(words, least, ss[i], ss[i + 1]);
  }

  lemma {:induction false} CleanRunsAreCoalesced(words: Foreign, least: nat, ss: seq<State>)
    requires Run(words, least, ss) && forall a :: 0 < a ==> words(a) == 0
    ensures var s := ss[|ss| - 1]; Coalesced(s.l, s.dict) && s.sealed == {}
  {
    if |ss| > 1 {
      var front := ss[..|ss| - 1];
      LastStep(words, least, ss);
      CleanRunsAreCoalesced(words, least, front);
      RunsAreWellFormed(words, least, front);
      hide WellFormed, Coalesced, Step;
      StepKeepsCoalesced(words, least, ss[|ss| - 2], ss[|ss| - 1]);
    }
  }

  // ----- the foreign word in front of a region -----

  // Two objects at the start of a region, and the two frees that leave them apart.
  function ApartRun(a: nat): seq<State> {
    var b := a + HEADER + 8;
    var l1 := Layout(map[a := 8], {a}, {b});
    var l2 := Layout(map[a := 8, b := 8], {a}, {b + HEADER + 8});
    [State(Layout(map[], {}, {}), {}, {}), State(l1, {}, {}), State(l2, {}, {}),
     State(l2, {Object(a)}, {a}), State(l2, {Object(a), Object(b)}, {a})]
  }

  lemma ForeignWordRun(words: Foreign, a: nat)
    requires 0 < a && words(a) != 0
    ensures Run(words, 8, ApartRun(a)) && !Coalesced(ApartRun(a)[4].l, ApartRun(a)[4].dict)
  {
    var ss, b := ApartRun(a), a + HEADER + 8;
    assert GrowStep(ss[0], ss[1], a, 8);
    assert GrowStep(ss[1], ss[2], b, 8);
    assert SealStep(words, ss[2], ss[3], a);
    assert FreeStep(words, ss[3], ss[4], b, 0);
    assert ss[4].l.Next(a) == b;
  }

  lemma SmallerRequests(words: Foreign, least: nat, less: nat, ss: seq<State>)
    requires Run(words, least, ss) && less <= least
    ensures Run(words, less, ss)
  {
    forall i | 0 <= i < |ss| - 1 ensures Step(words, less, ss[i], ss[i + 1]) {
      assert Step(words, least, ss[i], ss[i + 1]);
      hide TakeStep, GrowStep, FreeStep, SealStep;
    }
  }

  // ----- the sizes of the blocks -----

  ghost predicate AtLeast(l: Layout, least: nat) {
    forall k :: k in l.blocks ==> least <= l.blocks[k]
  }

  // A split leaves a block of its own only if a double fits in it.
  lemma CarveAtLeast(s: State, h: nat, size: nat, least: nat)
    requires h in s.l.blocks && size <= s.l.blocks[h] && least <= size && least <= 8 && AtLeast(s.l, least)
    ensures AtLeast(Carve(s, h, size).l, least)
    ensures h in Carve(s, h, size).l.blocks && size <= Carve(s, h, size).l.blocks[h] < size + HEADER + 8
  {
  }

  lemma JoinAtLeast(l: Layout, h: nat, least: nat)
    requires h in l.blocks && l.Next(h) in l.blocks && AtLeast(l, least)
    ensures AtLeast(Join(l, h), least)
  {
    JoinParts(l, h);
    hide Join;
  }

  lemma ReleaseAtLeast(s: State, h: nat, p: nat, least: nat)
    requires WellFormed(s) && InUse(s, h) && AtLeast(s.l, least)
    requires p != 0 ==> p in s.l.blocks && s.l.Next(p) == h && Object(p) in s.dict && p !in s.sealed
    ensures AtLeast(Release(s, h, p).l, least)
  {
    hide WellFormed, AtLeast;
    var s1, h1 := if p != 0 then JoinFree(s, p) else s, if p != 0 then p else h;
    if p != 0 {
      JoinAtLeast(s.l, p, least);
    }
    if s1.l.Next(h1) in s1.l.blocks && Object(s1.l.Next(h1)) in s1.dict {
      JoinAtLeast(s1.l, h1, least);
    }
  }

  lemma StepAtLeast(words: Foreign, least: nat, s: State, s': State)
    requires WellFormed(s) && AtLeast(s.l, least) && least <= 8 && Step(words, least, s, s')
    ensures AtLeast(s'.l, least)
  {
    hide WellFormed, Carve, Release, JoinsFront, AtLeast;
    if h, size :| least <= size && TakeStep(s, s', h, size) {
      CarveAtLeast(s, h, size, least);
    } else if h, size :| least <= size && GrowStep(s, s', h, size) {
      GrowAtLeast(s.l, h, size, least);
    } else if h, p :| FreeStep(words, s, s', h, p) {
      JoinsFrontIs(s, h, p);
      ReleaseAtLeast(s, h, p, least);
    }
  }

  lemma GrowAtLeast(l: Layout, h: nat, size: nat, least: nat)
    requires AtLeast(l, least) && least <= size
    ensures AtLeast(Grow(l, h, size), least)
  {
  }

  lemma JoinsFrontIs(s: State, h: nat, p: nat)
    requires JoinsFront(s, h, p)
    ensures p != 0 ==> p in s.l.blocks && s.l.Next(p) == h && Object(p) in s.dict && p !in s.sealed
  {
  }

  // When all requests are for at least so many bytes, up to those of a double, every
  // block has as many, over all runs.
  lemma {:induction false} BlocksAreLargeEnough(words: Foreign, least: nat, ss: seq<State>)
    requires Run(words, least, ss) && least <= 8
    ensures AtLeast(ss[|ss| - 1].l, least)
  {
    if |ss| > 1 {
      var front := ss[..|ss| - 1];
      LastStep(words, least, ss);
      BlocksAreLargeEnough(words, least, front);
      RunsAreWellFormed(words, least, front);
      hide WellFormed, AtLeast, Step;
      StepAtLeast(words, least, ss[|ss| - 2], ss[|ss| - 1]);
    }
  }

  // No run leaves two free neighbours if and only if no word in front of a region
  // is foreign.
  lemma RunsAreCoalescedExactly(words: Foreign, least: nat)
    requires least <= 8
    ensures (forall ss: seq<State> :: Run(words, least, ss) ==> Coalesced(ss[|ss| - 1].l, ss[|ss| - 1].dict))
            <==> forall a :: 0 < a ==> words(a) == 0
  {
    if forall a :: 0 < a ==> words(a) == 0 {
      forall ss: seq<State> | Run(words, least, ss) ensures Coalesced(ss[|ss| - 1].l, ss[|ss| - 1].dict) {
        CleanRunsAreCoalesced(words, least, ss);
      }
    } else {
      var a: nat :| 0 < a && words(a) != 0;
      ForeignWordRun(words, a);
      SmallerRequests(words, 8, least, ApartRun(a));
    }
  }

  // A sealed block is not joined by a free of the block behind it.
  lemma SealedStaysApart(s: State, h: nat, b: nat, p: nat)
    requires Disjoint(s.l) && h in s.l.blocks && s.l.Next(h) == b && h in s.sealed
    requires b in s.l.blocks && s.l.Next(b) !in s.l.blocks && JoinsFront(s, b, p)
    ensures p == 0 && Release(s, b, p) == Insert(s, b)
  {
    if p != 0 {
      SamePredecessor(s.l, h, p);
    }
  }

  // The same on the heap itself, for any two objects at the start of a region: behind
  // a foreign word the first is freed without its bit, and the second does not join it.
  method ForeignWordPreventsJoining(size1: nat, size2: nat, supply: nat, below: nat) returns (heap: Heap, h: nat)
    requires 0 < supply && below != 0
    ensures heap.Valid() && h in heap.l.blocks && heap.l.Next(h) in heap.l.blocks
    ensures Object(h) in heap.dict && Object(heap.l.Next(h)) in heap.dict
  {
    hide Release, JoinsFront, FreeFront, Consistent, Coalesced, TailAt, Carve;
    heap := new Heap();
    var a := heap.Malloc(size1, 0, supply);
    var b := heap.Malloc(size2, 0, supply + HEADER + size1 + SLOP);
    h := a - HEADER;
    ghost var l := heap.l;
    assert l == Layout(map[h := size1, b - HEADER := size2], {h}, {b + size2}) && l.Next(h) == b - HEADER;
    heap.Free(a, below);
    ghost var s, p := heap.Now(), FreeFront(heap.mem, b - HEADER);
    assert s == State(l, {a}, {h}) && Disjoint(l);
    heap.Free(b, 0);
    SealedStaysApart(s, h, b - HEADER, p);
  }
}
