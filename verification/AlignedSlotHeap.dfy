// A heap that fills one aligned chunk at a time and gives a chunk back when its
// last slot is freed (experimental/alignedchunk.h).

module AlignedSlotHeap {
  import opened BinMap
  import opened AlignedChunk

  // Which chunk and which bit a slot in use belongs to.
  datatype Slot = Slot(chunk: nat, bit: nat)

  // What matters of a chunk: its slots in use and its status.
  datatype View = View(used: set<nat>, released: bool)

  // Each chunk is being filled (current, 0 for none), or kept empty in the list, or
  // released and partly in use.
  ghost predicate States(view: map<nat, View>, current: nat, list: seq<nat>) {
    && 0 !in view && (current != 0 ==> current in view && current !in list && !view[current].released)
    && (forall i :: 0 <= i < |list| ==> list[i] in view)
    && (forall i, k :: 0 <= i < k < |list| ==> list[i] != list[k])
    && forall s :: s in view && s != current ==> view[s].released && (s in list <==> view[s].used == {})
  }

  // The slots in use, by address.
  ghost predicate Lives(view: map<nat, View>, live: map<nat, Slot>, slotSize: nat) {
    && (forall s, j :: s in view && j in view[s].used ==> 1 <= j < BITS && SlotAddress(s, slotSize, j) >= 0)
    && (forall p :: p in live ==>
         && live[p].chunk in view && live[p].bit in view[live[p].chunk].used
         && p == SlotAddress(live[p].chunk, slotSize, live[p].bit))
    && forall s, j :: s in view && j in view[s].used ==>
         SlotAddress(s, slotSize, j) in live && live[SlotAddress(s, slotSize, j)] == Slot(s, j)
  }

  lemma ListWithoutFirst(list: seq<nat>)
    requires list != [] && forall i, k :: 0 <= i < k < |list| ==> list[i] != list[k]
    ensures list[0] !in list[1..] && forall s :: s in list[1..] <==> s in list && s != list[0]
  {
    forall s | s in list && s != list[0] ensures s in list[1..] {
      var i :| 0 <= i < |list| && list[i] == s;
      assert list[1..][i - 1] == s;
    }
  }

  lemma AfterReuse(view: map<nat, View>, list: seq<nat>)
    requires States(view, 0, list) && list != []
    ensures list[0] != 0 && list[0] in view && view[list[0]].used == {}
    ensures States(view[list[0] := View({}, false)], list[0], list[1..])
  {
    ListWithoutFirst(list);
    assert list[0] in list;
  }

  lemma AfterNewChunk(view: map<nat, View>, buf: nat)
    requires States(view, 0, []) && buf != 0 && buf !in view
    ensures States(view[buf := View({}, false)], buf, [])
  {
  }

  lemma AfterRelease(view: map<nat, View>, current: nat, list: seq<nat>)
    requires States(view, current, list) && current != 0 && view[current].used != {}
    ensures States(view[current := View(view[current].used, true)], 0, list)
  {
  }

  lemma AfterTake(view: map<nat, View>, current: nat, list: seq<nat>, live: map<nat, Slot>, chunkSize: nat,
                  slotSize: nat, j: nat)
    requires States(view, current, list) && Lives(view, live, slotSize) && current != 0 && j !in view[current].used
    requires 1 <= j < BITS && forall s :: s in view ==> Laid(s, chunkSize, slotSize)
    ensures SlotAddress(current, slotSize, j) >= 0 && SlotAddress(current, slotSize, j) !in live
    ensures var view' := view[current := View(view[current].used + {j}, false)];
      && States(view', current, list)
      && Lives(view', live[SlotAddress(current, slotSize, j) := Slot(current, j)], slotSize)
  {
    SlotIsFound(current, chunkSize, slotSize, j);
    forall s, k | s in view && k in view[s].used
      ensures SlotAddress(s, slotSize, k) != SlotAddress(current, slotSize, j)
    {
      SlotIsFound(s, chunkSize, slotSize, k);
    }
    hide SlotAddress, Laid;
  }

  lemma AfterPut(view: map<nat, View>, live: map<nat, Slot>, chunkSize: nat, slotSize: nat, p: nat)
    requires Lives(view, live, slotSize) && p in live && forall s :: s in view ==> Laid(s, chunkSize, slotSize)
    ensures var s := live[p].chunk;
      s in view && Lives(view[s := View(view[s].used - {live[p].bit}, view[s].released)], live - {p}, slotSize)
  {
    var slot := live[p];
    forall s, k | s in view && k in view[s].used && Slot(s, k) != slot ensures SlotAddress(s, slotSize, k) != p {
      SlotIsFound(s, chunkSize, slotSize, k);
      SlotIsFound(slot.chunk, chunkSize, slotSize, slot.bit);
    }
    hide SlotAddress, Laid;
  }

  // A chunk without slots in use can go or stay.
  lemma LivesWithoutEmpty(view: map<nat, View>, live: map<nat, Slot>, slotSize: nat, s: nat)
    requires Lives(view, live, slotSize) && s in view && view[s].used == {}
    ensures Lives(view - {s}, live, slotSize)
  {
    hide SlotAddress;
  }

  lemma StatesAfterPut(view: map<nat, View>, current: nat, list: seq<nat>, s: nat, used: set<nat>)
    requires States(view, current, list) && s in view && view[s].used != {}
    ensures s !in list
    ensures s == current || used != {} ==> States(view[s := View(used, view[s].released)], current, list)
    ensures s != current && used == {} ==> view[s].released
    ensures s != current && used == {} ==> States(view[s := View({}, true)], current, [s] + list)
    ensures s != current && used == {} ==> States(view[s := View({}, true)] - {s}, current, list)
  {
    assert s in list ==> s != current;
  }

  class AlignedSlotHeap {
    const chunkSize: nat
    const slotSize: nat
    const maxFree: nat
    // The chunks, by the address of their memory.
    var chunks: map<nat, AlignedChunk>
    // The chunk that is being filled; 0 when there is none.
    var myChunk: nat
    // Empty chunks that are kept for reuse.
    var chunkList: seq<nat>
    var length: nat
    ghost var live: map<nat, Slot>

    ghost predicate Chunks()
      reads this`chunks, chunks.Values
    {
      forall s :: s in chunks ==>
        chunks[s].start == s && chunks[s].chunkSize == chunkSize && chunks[s].slotSize == slotSize && chunks[s].Valid()
    }

    ghost function Views(): map<nat, View>
      reads this`chunks, chunks.Values
    {
      map s | s in chunks :: View(chunks[s].Used(), chunks[s].released)
    }

    ghost predicate Valid()
      reads this, chunks.Values
    {
      && length == |chunkList| && Chunks()
      && States(Views(), myChunk, chunkList) && Lives(Views(), live, slotSize)
    }

    constructor (chunkSize: nat, slotSize: nat, maxFree: nat)
      ensures Valid() && live == map[] && chunks == map[]
      ensures this.chunkSize == chunkSize && this.slotSize == slotSize && this.maxFree == maxFree
    {
      this.chunkSize, this.slotSize, this.maxFree := chunkSize, slotSize, maxFree;
      chunks, myChunk, chunkList, length, live := map[], 0, [], 0, map[];
    }

    lemma AllLaid()
      requires Chunks()
      ensures forall s :: s in chunks ==> Laid(s, chunkSize, slotSize)
    {
      forall s | s in chunks ensures Laid(s, chunkSize, slotSize) {
        assert chunks[s].Valid();
      }
    }

    lemma SameKeys()
      ensures Views().Keys == chunks.Keys
    {
    }

    method SetReleased(s: nat, released: bool)
      requires Chunks() && s in chunks
      modifies chunks[s]
      ensures Chunks() && Views() == old(Views())[s := View(old(Views())[s].used, released)]
    {
      hide Slots, Laid;
      ghost var view := Views();
      forall t | t in chunks && t != s ensures chunks[t] != chunks[s] {
        assert chunks[t].start == t;
      }
      chunks[s].released := released;
      assert Views() == view[s := View(view[s].used, released)];
    }

    // Memory from the super heap becomes an empty chunk.
    method AddChunk(buf: nat)
      requires Chunks() && buf > 0 && buf !in chunks && Laid(buf, chunkSize, slotSize)
      modifies this`chunks
      ensures Chunks() && Views() == old(Views())[buf := View({}, false)]
      ensures chunks.Keys == old(chunks).Keys + {buf}
      ensures forall s :: s in chunks ==> chunks[s] in old(chunks).Values || fresh(chunks[s])
    {
      hide Slots, Laid;
      ghost var view := Views();
      var ch := new AlignedChunk(buf, chunkSize, slotSize);
      chunks := chunks[buf := ch];
      assert Views() == view[buf := View({}, false)];
    }

    // AlignedChunkHeap: a kept chunk, or new memory at the address buf. Either is empty.
    method Acquire(buf: nat)
      requires Valid() && myChunk == 0 && buf > 0 && buf !in chunks && Laid(buf, chunkSize, slotSize)
      modifies this, chunks.Values
      ensures chunks.Keys == if old(chunkList) != [] then old(chunks).Keys else old(chunks).Keys + {buf}
      ensures Valid() && live == old(live) && old(chunks).Keys <= chunks.Keys
      ensures myChunk > 0 && myChunk in chunks && Views()[myChunk].used == {}
      ensures forall s :: s in chunks ==> chunks[s] in old(chunks).Values || fresh(chunks[s])
      ensures if old(chunkList) != [] then
                && myChunk == old(chunkList)[0] && chunkList == old(chunkList)[1..]
                && Views() == old(Views())[myChunk := View({}, false)]
              else myChunk == buf && chunkList == [] && Views() == old(Views())[buf := View({}, false)]
    {
      hide States, Lives, Laid, Chunks, Views;
      ghost var view := Views();
      SameKeys();
      if chunkList != [] {
        AfterReuse(view, chunkList);
        var ch := chunkList[0];
        chunkList := chunkList[1..];
        length := length - 1;
        SetReleased(ch, false);
        LivesAfterStatus(view, live, slotSize, ch, false);
        myChunk := ch;
      } else {
        AfterNewChunk(view, buf);
        LivesAfterNewChunk(view, live, slotSize, buf);
        AddChunk(buf);
        myChunk := buf;
      }
      SameKeys();
    }

    // getSlot of one chunk, and what it changes in the view.
    method GetFrom(s: nat) returns (p: int, ghost j: nat)
      requires Chunks() && s in chunks
      modifies chunks[s]
      ensures Chunks()
      ensures p == 0 ==> (forall k: nat :: 1 <= k < BITS ==> k in Views()[s].used) && Views() == old(Views())
      ensures p != 0 ==> 1 <= j < BITS && j !in old(Views())[s].used && p == SlotAddress(s, slotSize, j)
      ensures p != 0 ==> Views() == old(Views())[s := View(old(Views())[s].used + {j}, old(Views())[s].released)]
    {
      hide Slots, Laid, SlotAddress, Meet, BitAt;
      ghost var view := Views();
      p, j := chunks[s].GetSlot();
      forall t | t in chunks && t != s ensures chunks[t] != chunks[s] {
        assert chunks[t].start == t;
      }
      assert Views() == if p == 0 then view else view[s := View(view[s].used + {j}, view[s].released)];
    }

    lemma CurrentIsThere()
      requires Valid() && myChunk != 0
      ensures myChunk in chunks && myChunk in Views() && !Views()[myChunk].released
    {
    }

    // A slot of the current chunk; a chunk that has none left is released.
    method TakeSlot() returns (p: int, ghost j: nat)
      requires Valid() && myChunk != 0
      modifies this, chunks.Values
      ensures Valid() && chunks == old(chunks) && chunkList == old(chunkList)
      ensures old(myChunk) in old(Views())
      ensures p == 0 ==> myChunk == 0 && live == old(live) && old(Views())[old(myChunk)].used != {}
      ensures p == 0 ==> forall k: nat :: 1 <= k < BITS ==> k in old(Views())[old(myChunk)].used
      ensures p == 0 ==> Views() == old(Views())[old(myChunk) := View(old(Views())[old(myChunk)].used, true)]
      ensures p != 0 ==> p > 0 && myChunk == old(myChunk) && p !in old(live) && live == old(live)[p := Slot(myChunk, j)]
      ensures p != 0 ==> Views() == old(Views())[myChunk := View(old(Views())[myChunk].used + {j}, false)]
    {
      hide States, Lives, Laid, SlotAddress, Chunks, Views;
      ghost var view := Views();
      AllLaid();
      SameKeys();
      CurrentIsThere();
      p, j := GetFrom(myChunk);
      if p == 0 {
        assert view[myChunk].used != {} by {
          assert 1 in view[myChunk].used;
        }
        ReleaseCurrent();
      } else {
        AfterTake(view, myChunk, chunkList, live, chunkSize, slotSize, j);
        SlotIsPositive(view, myChunk, j);
        live := live[p := Slot(myChunk, j)];
      }
    }

    // The current chunk is full: it goes back once it is empty again.
    method ReleaseCurrent()
      requires Valid() && myChunk != 0 && myChunk in Views() && Views()[myChunk].used != {}
      modifies this`myChunk, chunks.Values
      ensures Valid() && myChunk == 0
      ensures Views() == old(Views())[old(myChunk) := View(old(Views())[old(myChunk)].used, true)]
    {
      hide States, Lives, Laid, SlotAddress, Chunks, Views;
      ghost var view := Views();
      SameKeys();
      AfterRelease(view, myChunk, chunkList);
      LivesAfterStatus(view, live, slotSize, myChunk, true);
      SetReleased(myChunk, true);
      myChunk := 0;
    }

    lemma SlotIsPositive(view: map<nat, View>, s: nat, j: nat)
      requires Chunks() && s in chunks && 1 <= j < BITS
      ensures SlotAddress(s, slotSize, j) > 0
    {
      assert chunks[s].Valid();
      SlotIsFound(s, chunkSize, slotSize, j);
    }

    // A slot that is not in use. A chunk is released only when all its slots are in use.
    method Malloc(buf: nat) returns (p: int, ghost slot: Slot)
      requires Valid() && buf > 0 && buf !in chunks && Laid(buf, chunkSize, slotSize)
      modifies this, chunks.Values
      ensures Valid() && p > 0 && p !in old(live) && live == old(live)[p := slot]
      ensures old(chunks).Keys <= chunks.Keys && slot.chunk in chunks
      // New memory is used only when no chunk is kept.
      ensures chunks.Keys == old(chunks).Keys || (old(chunkList) == [] && chunks.Keys == old(chunks).Keys + {buf})
      ensures forall s :: s in old(Views()) && !old(Views())[s].released && Views()[s].released ==>
        forall k: nat :: 1 <= k < BITS ==> k in Views()[s].used
    {
      hide States, Lives, Laid, Chunks, Slots;
      ghost var j;
      p, slot := 0, Slot(0, 0);
      while p == 0
        invariant Valid()
        invariant p == 0 ==> live == old(live) && chunks == old(chunks)
        invariant p != 0 ==> p > 0 && p !in old(live) && live == old(live)[p := slot] && slot.chunk in chunks
        invariant old(chunks).Keys <= chunks.Keys && (p == 0 ==> chunkList == old(chunkList))
        invariant chunks.Keys == old(chunks).Keys || (old(chunkList) == [] && chunks.Keys == old(chunks).Keys + {buf})
        invariant forall s :: s in chunks ==> chunks[s] in old(chunks).Values || fresh(chunks[s])
        invariant forall s :: s in old(Views()) && !old(Views())[s].released && Views()[s].released ==>
          forall k: nat :: 1 <= k < BITS ==> k in Views()[s].used
        decreases p == 0, myChunk != 0
      {
        if myChunk == 0 {
          Acquire(buf);
        }
        p, j := TakeSlot();
        slot := Slot(myChunk, j);
      }
    }

    // putSlot of one chunk, and what it changes in the view.
    method PutTo(s: nat, ptr: nat, ghost j: nat) returns (done: bool)
      requires Chunks() && s in chunks && j in Views()[s].used && ptr == SlotAddress(s, slotSize, j)
      modifies chunks[s]
      ensures Chunks() && Views() == old(Views())[s := View(old(Views())[s].used - {j}, old(Views())[s].released)]
      ensures done <==> Views()[s].used == {} && Views()[s].released
    {
      hide Slots, Laid, SlotAddress, Meet, BitAt;
      ghost var view := Views();
      forall t | t in chunks && t != s ensures chunks[t] != chunks[s] {
        assert chunks[t].start == t;
      }
      var empty := chunks[s].PutSlot(ptr, j);
      done := empty && chunks[s].released;
      assert Views() == view[s := View(view[s].used - {j}, view[s].released)];
    }

    // Back to its chunk. The chunk goes back exactly when it was released as full and
    // this was its last slot in use; it is kept unless too many are.
    method Release(ptr: nat) returns (returned: bool)
      requires Valid() && ptr in live
      modifies this, chunks.Values
      ensures Valid() && live == old(live) - {ptr}
      ensures old(live)[ptr].chunk in old(Views())
      ensures returned <==> old(Views())[old(live)[ptr].chunk].released && forall q :: q in live ==>
        live[q].chunk != old(live)[ptr].chunk
      ensures !returned ==> chunks == old(chunks) && chunkList == old(chunkList)
      ensures returned && old(length) > maxFree ==>
        chunks == old(chunks) - {old(live)[ptr].chunk} && chunkList == old(chunkList)
      ensures returned && old(length) <= maxFree ==>
        chunks == old(chunks) && chunkList == [old(live)[ptr].chunk] + old(chunkList)
    {
      hide States, Lives, Laid, SlotAddress, Chunks, ChunkStart, Views, Slots;
      ghost var slot := live[ptr];
      FoundChunk(ptr);
      ReleasePlan(ptr);
      var s: nat := ChunkStart(ptr, chunkSize);
      returned := PutTo(s, ptr, slot.bit);
      live := live - {ptr};
      if returned {
        GiveBack(s);
      }
    }

    // AlignedChunkHeap: an empty chunk is kept, or goes when too many are.
    method GiveBack(s: nat)
      requires length == |chunkList| && Chunks() && s in chunks
      requires States(Views(), myChunk, [s] + chunkList) && Lives(Views(), live, slotSize)
      requires States(Views() - {s}, myChunk, chunkList) && Lives(Views() - {s}, live, slotSize)
      modifies this`chunks, this`chunkList, this`length
      ensures Valid()
      ensures if old(length) > maxFree then chunks == old(chunks) - {s} && chunkList == old(chunkList)
              else chunks == old(chunks) && chunkList == [s] + old(chunkList)
    {
      hide States, Lives, Chunks, Views;
      if length > maxFree {
        DropChunk(s);
      } else {
        chunkList := [s] + chunkList;
        length := length + 1;
      }
    }

    lemma ReleasePlan(ptr: nat)
      requires Valid() && ptr in live
      ensures Freed(Views(), myChunk, chunkList, live, slotSize, ptr)
      ensures live[ptr].chunk in chunks && live[ptr].chunk in Views()
    {
      AllLaid();
      AfterFree(Views(), myChunk, chunkList, live, chunkSize, slotSize, ptr);
    }

    // The chunk at s no longer exists.
    method DropChunk(s: nat)
      requires Chunks() && s in chunks
      modifies this`chunks
      ensures Chunks() && chunks == old(chunks) - {s} && Views() == old(Views()) - {s}
    {
      ghost var view := Views();
      hide Slots, Laid;
      chunks := chunks - {s};
      assert Views() == view - {s};
    }

    // A slot in use is found again in its chunk.
    lemma FoundChunk(ptr: nat)
      requires Valid() && ptr in live
      ensures chunkSize > 0 && live[ptr].chunk == ChunkStart(ptr, chunkSize) && live[ptr].chunk in chunks
      ensures live[ptr].bit in Views()[live[ptr].chunk].used
      ensures ptr == SlotAddress(live[ptr].chunk, slotSize, live[ptr].bit)
    {
      var slot := live[ptr];
      assert chunks[slot.chunk].Valid();
      SlotIsFound(slot.chunk, chunkSize, slotSize, slot.bit);
    }
  }

  lemma LivesAfterStatus(view: map<nat, View>, live: map<nat, Slot>, slotSize: nat, s: nat, released: bool)
    requires Lives(view, live, slotSize) && s in view
    ensures Lives(view[s := View(view[s].used, released)], live, slotSize)
  {
    hide SlotAddress;
  }

  lemma LivesAfterNewChunk(view: map<nat, View>, live: map<nat, Slot>, slotSize: nat, s: nat)
    requires Lives(view, live, slotSize) && s !in view
    ensures Lives(view[s := View({}, false)], live, slotSize)
  {
    hide SlotAddress;
  }

  // A chunk without slots in use is one that no slot in use belongs to.
  lemma NoLiveLeft(view: map<nat, View>, live: map<nat, Slot>, slotSize: nat, s: nat)
    requires Lives(view, live, slotSize) && s in view
    ensures view[s].used == {} <==> forall q :: q in live ==> live[q].chunk != s
  {
    if j :| j in view[s].used {
      assert live[SlotAddress(s, slotSize, j)].chunk == s;
    }
  }

  // What freeing the slot at p leaves, whether or not its chunk goes back.
  ghost predicate Freed(view: map<nat, View>, current: nat, list: seq<nat>, live: map<nat, Slot>, slotSize: nat, p: nat)
    requires p in live
  {
    var s, bit := live[p].chunk, live[p].bit;
    && s in view && bit in view[s].used
    && var view' := view[s := View(view[s].used - {bit}, view[s].released)];
    && Lives(view', live - {p}, slotSize)
    && (view'[s].used == {} <==> forall q :: q in live - {p} ==> live[q].chunk != s)
    && (view'[s].used != {} || !view[s].released ==> States(view', current, list))
    && (view'[s].used == {} && view[s].released ==>
         States(view', current, [s] + list) && States(view' - {s}, current, list)
           && Lives(view' - {s}, live - {p}, slotSize))
  }

  // Everything that freeing a slot changes.
  lemma AfterFree(view: map<nat, View>, current: nat, list: seq<nat>, live: map<nat, Slot>,
                  chunkSize: nat, slotSize: nat, p: nat)
    requires States(view, current, list) && Lives(view, live, slotSize) && p in live
    requires forall s :: s in view ==> Laid(s, chunkSize, slotSize)
    ensures Freed(view, current, list, live, slotSize, p)
  {
    var s, bit := live[p].chunk, live[p].bit;
    AfterPut(view, live, chunkSize, slotSize, p);
    var view' := view[s := View(view[s].used - {bit}, view[s].released)];
    assert s == current ==> !view[s].released;
    hide SlotAddress, Laid;
    StatesAfterPut(view, current, list, s, view[s].used - {bit});
    assert view'[s].used == {} && view[s].released ==> view' == view[s := View({}, true)];
    NoLiveLeft(view', live - {p}, slotSize, s);
    hide States;
    if view'[s].used == {} {
      LivesWithoutEmpty(view', live - {p}, slotSize, s);
    }
  }
}
