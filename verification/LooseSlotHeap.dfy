// BigChunk (experimental/bigchunk.h) and LooseSlotHeap
// (experimental/looseslotheap.h): chunks of equal slots, kept on doubly linked
// lists by fullness. The methods are proved against LooseSlotSpec.

module LooseSlotHeap {
  import opened Arithmetic
  import opened LooseSlotSpec
  import opened MapSum

  class BigChunk {
    const numSlots: nat
    // The free list, head first; slots are named by their position in the chunk.
    var freeSlots: seq<nat>
    var numSlotsAvailable: nat
    var heap: LooseSlotHeap?
    var prev: BigChunk?
    var next: BigChunk?
    // The slots handed out.
    ghost var live: set<nat>

    ghost predicate Valid()
      reads this`freeSlots, this`numSlotsAvailable, this`live
    {
      && numSlotsAvailable == |freeSlots|
      && (forall i, j :: 0 <= i < j < |freeSlots| ==> freeSlots[i] != freeSlots[j])
      && (forall s :: s in freeSlots ==> s < numSlots && s !in live)
      && (forall s :: s in live ==> s < numSlots)
      && |freeSlots| + |live| == numSlots
    }

    constructor (slots: nat)
      ensures Valid() && numSlots == slots && live == {} && heap == null && prev == null && next == null
    {
      numSlots := slots;
      freeSlots := [];
      numSlotsAvailable := slots;
      heap, prev, next := null, null, null;
      live := {};
      new;
      for i := 0 to numSlots
        invariant |freeSlots| == i && numSlots == slots && numSlotsAvailable == slots
        invariant heap == null && prev == null && next == null && live == {}
        invariant forall j :: 0 <= j < i ==> freeSlots[j] == i - 1 - j
      {
        freeSlots := [i] + freeSlots;
      }
    }

    function InUse(): (n: nat)
      requires Valid()
      reads this`freeSlots, this`numSlotsAvailable, this`live
      ensures n == |live|
    {
      numSlots - numSlotsAvailable
    }

    // The slot at the head of the free list, or none.
    method GetSlot() returns (found: bool, slot: nat)
      requires Valid()
      modifies this`freeSlots, this`numSlotsAvailable, this`live
      ensures Valid()
      ensures found <==> |old(live)| < numSlots
      ensures if found then
                slot < numSlots && slot !in old(live) && live == old(live) + {slot}
                  && [slot] + freeSlots == old(freeSlots)
              else live == old(live) && freeSlots == old(freeSlots)
    {
      if freeSlots == [] {
        return false, 0;
      }
      slot := freeSlots[0];
      assert slot !in freeSlots[1..];
      assert forall s :: s in freeSlots[1..] ==> s in freeSlots;
      freeSlots := freeSlots[1..];
      numSlotsAvailable := numSlotsAvailable - 1;
      live := live + {slot};
      found := true;
    }

    method PutSlot(slot: nat)
      requires Valid() && slot in live
      modifies this`freeSlots, this`numSlotsAvailable, this`live
      ensures Valid()
      ensures live == old(live) - {slot} && freeSlots == [slot] + old(freeSlots)
    {
      assert slot !in freeSlots;
      freeSlots := [slot] + freeSlots;
      numSlotsAvailable := numSlotsAvailable + 1;
      live := live - {slot};
    }
  }

  // The links of the chunks s make one doubly linked list.
  ghost predicate Chained(s: seq<BigChunk>)
    reads s`prev, s`next
  {
    && (forall i {:trigger s[i].prev} :: 0 <= i < |s| ==> s[i].prev == if i == 0 then null else s[i - 1])
    && (forall i {:trigger s[i].next} :: 0 <= i < |s| ==> s[i].next == if i == |s| - 1 then null else s[i + 1])
  }

  twostate lemma ChainedFrame(s: seq<BigChunk>)
    requires old(Chained(s))
    requires forall c :: c in s ==> c.prev == old(c.prev) && c.next == old(c.next)
    ensures Chained(s)
  {
  }

  ghost function HeadOf(s: seq<BigChunk>): BigChunk? {
    if |s| == 0 then null else s[0]
  }

  ghost predicate Distinct(s: seq<BigChunk>) {
    forall i, j :: 0 <= i < j < |s| ==> s[i] != s[j]
  }

  ghost function Without(s: seq<BigChunk>, j: nat): seq<BigChunk>
    requires j < |s|
  {
    s[..j] + s[j + 1..]
  }

  // A chunk at the front of the list that holds it.
  ghost predicate AtFront(lists: seq<seq<BigChunk>>, where: map<BigChunk, nat>, ch: BigChunk) {
    ch in where && where[ch] < |lists| && lists[where[ch]] != [] && lists[where[ch]][0] == ch
  }

  lemma RemovedAt(s: seq<BigChunk>, j: nat)
    requires j < |s| && Distinct(s)
    ensures Distinct(Without(s, j))
    ensures forall c :: c in Without(s, j) <==> c in s && c != s[j]
  {
    forall c | c in s && c != s[j] ensures c in Without(s, j) {
      var i :| 0 <= i < |s| && s[i] == c;
      assert c == Without(s, j)[if i < j then i else i - 1];
    }
  }

  // Every chunk is once on exactly one list, the one `where` names.
  ghost predicate Placed(lists: seq<seq<BigChunk>>, where: map<BigChunk, nat>) {
    && (forall i, c :: 0 <= i < |lists| && c in lists[i] ==> c in where && where[c] == i)
    && (forall c :: c in where ==> where[c] < |lists| && c in lists[where[c]])
    && (forall i :: 0 <= i < |lists| ==> Distinct(lists[i]))
  }

  lemma PlacedWithout(lists: seq<seq<BigChunk>>, where: map<BigChunk, nat>, ch: BigChunk) returns (j: nat)
    requires Placed(lists, where) && ch in where
    ensures where[ch] < |lists|
    ensures var i := where[ch];
      && j < |lists[i]| && lists[i][j] == ch && Distinct(lists[i])
      && Placed(lists[i := Without(lists[i], j)], where - {ch})
      && (forall k, c :: 0 <= k < |lists| && k != i && c in lists[k] ==> c !in lists[i] && c in where - {ch})
      && (forall c :: c in Without(lists[i], j) ==> c in where - {ch})
  {
    var i := where[ch];
    j :| 0 <= j < |lists[i]| && lists[i][j] == ch;
    RemovedAt(lists[i], j);
    Apart(lists, where, i);
  }

  lemma Apart(lists: seq<seq<BigChunk>>, where: map<BigChunk, nat>, i: nat)
    requires Placed(lists, where) && i < |lists|
    ensures forall k, c :: 0 <= k < |lists| && k != i && c in lists[k] ==> c !in lists[i]
  {
    forall k, c | 0 <= k < |lists| && k != i && c in lists[k] ensures c !in lists[i] {
      assert where[c] == k;
    }
  }

  lemma PlacedAt(lists: seq<seq<BigChunk>>, where: map<BigChunk, nat>, c: BigChunk)
    requires Placed(lists, where) && c in where
    ensures where[c] < |lists| && lists[where[c]] != []
  {
    assert c in lists[where[c]];
  }

  lemma HeadPlaced(lists: seq<seq<BigChunk>>, where: map<BigChunk, nat>, i: nat)
    requires Placed(lists, where) && i < |lists| && lists[i] != []
    ensures lists[i][0] in where && where[lists[i][0]] == i
  {
    assert lists[i][0] in lists[i];
  }

  lemma PlacedWith(lists: seq<seq<BigChunk>>, where: map<BigChunk, nat>, ch: BigChunk, i: nat)
    requires Placed(lists, where) && ch !in where && i < |lists|
    ensures Placed(lists[i := [ch] + lists[i]], where[ch := i])
    ensures Distinct(lists[i]) && ch !in lists[i]
    ensures forall k, c :: 0 <= k < |lists| && k != i && c in lists[k] ==> c !in lists[i] && c != ch
  {
    Apart(lists, where, i);
  }

  // Splices ch == s[j] out of its list; the new head is returned.
  method Detach(head: BigChunk?, ch: BigChunk, ghost s: seq<BigChunk>, ghost j: nat) returns (head': BigChunk?)
    requires head == HeadOf(s) && Chained(s) && Distinct(s) && j < |s| && s[j] == ch
    modifies s`prev, s`next
    ensures head' == HeadOf(Without(s, j)) && Chained(Without(s, j))
  {
    assert s[j].prev == (if j == 0 then null else s[j - 1]) && s[j].next == if j == |s| - 1 then null else s[j + 1];
    head' := head;
    if ch == head {
      head' := head.next;
    }
    if ch.prev != null {
      ch.prev.next := ch.next;
    }
    if ch.next != null {
      ch.next.prev := ch.prev;
    }
  }

  method Attach(head: BigChunk?, ch: BigChunk, ghost s: seq<BigChunk>)
    requires head == HeadOf(s) && Chained(s) && Distinct(s) && ch !in s
    modifies ch`prev, ch`next, s`prev
    ensures Chained([ch] + s)
  {
    ch.prev := null;
    ch.next := head;
    if head != null {
      head.prev := ch;
    }
  }

  lemma AfterAcquire(p: Shape, b: Book<BigChunk>, ch: BigChunk)
    requires ch !in b
    ensures Space(p, b[ch := 0]) == Space(p, b) + p.slots
    ensures Total(b[ch := 0]) == Total(b)
  {
    hide Space, Total;
    TotalSet(b, ch, 0);
    SpaceWith(p, b, ch, 0);
  }

  lemma AfterRelease(p: Shape, b: Book<BigChunk>, ch: BigChunk)
    requires ch in b
    ensures Space(p, b - {ch}) == Space(p, b) - p.slots
    ensures Total(b - {ch}) == Total(b) - b[ch]
  {
    hide Space, Total;
    TotalAt(b, ch);
    SpaceWithout(p, b, ch);
  }

  lemma ExcessOfReturn(p: Shape, b: Book<BigChunk>)
    requires MustReturn(p, b)
    ensures Excess(p, b) > 0
  {
  }

  lemma SetTwice<K, V>(m: map<K, V>, k: K, a: V, b: V)
    ensures m[k := a][k := b] == m[k := b]
  {
  }

  lemma NothingPlus(slot: nat)
    ensures {} + {slot} == {slot}
  {
  }

  lemma FreshStep(p: Shape, b: Book<BigChunk>, b': Book<BigChunk>, k: BigChunk)
    requires p.Valid() && !HasRoom(p, b) && k !in b
    requires b' == b[k := 0][k := 1]
    ensures MallocStep(p, b, b', k)
  {
    assert b' == b[k := 1];
  }

  lemma RoomStep(p: Shape, b: Book<BigChunk>, b': Book<BigChunk>, k: BigChunk)
    requires p.Valid() && k in b && b[k] < p.slots && b' == b[k := b[k] + 1]
    requires forall c :: c in b && b[c] < p.slots ==> Fullness(p, b[c]) <= Fullness(p, b[k])
    ensures MallocStep(p, b, b', k)
  {
  }

  lemma ReturnStep(p: Shape, b: Book<BigChunk>, b': Book<BigChunk>, k: BigChunk, v: BigChunk)
    requires p.Valid() && k in b && 0 < b[k]
    requires MustReturn(p, b[k := b[k] - 1]) && Emptiest(p, b[k := b[k] - 1], v) && b' == b[k := b[k] - 1] - {v}
    ensures FreeStep(p, b, b', k, v)
  {
  }

  lemma QuietStep(p: Shape, b: Book<BigChunk>, b': Book<BigChunk>, k: BigChunk)
    requires p.Valid() && k in b && 0 < b[k]
    requires !MustReturn(p, b[k := b[k] - 1]) && b' == b[k := b[k] - 1]
    ensures FreeStep(p, b, b', k, k)
  {
  }

  lemma AfterSet(p: Shape, b: Book<BigChunk>, ch: BigChunk, u: nat)
    requires ch in b
    ensures Space(p, b[ch := u]) == Space(p, b)
    ensures Total(b[ch := u]) == Total(b) - b[ch] + u
  {
    hide Space, Total;
    TotalSet(b, ch, u);
    SpaceWith(p, b, ch, u);
  }

  class LooseSlotHeap {
    const p: Shape
    // The heads of the lists, by fullness.
    const myChunks: array<BigChunk?>
    var lastIndex: int
    var inUse: int
    var space: int

    ghost var lists: seq<seq<BigChunk>>
    ghost var where: map<BigChunk, nat>
    ghost var book: Book<BigChunk>
    // The live slots of every chunk held.
    ghost var held: map<BigChunk, set<nat>>

    ghost predicate ListsOk()
      reads this`lists, this`where, myChunks, where.Keys`prev, where.Keys`next
    {
      && myChunks.Length == |lists| == p.fraction + 1
      && Placed(lists, where)
      && (forall i, c :: 0 <= i < |lists| && c in lists[i] ==> c in where)
      && (forall i :: 0 <= i < |lists| ==> myChunks[i] == HeadOf(lists[i]) && Chained(lists[i]))
    }

    // c is a chunk of this heap with these live slots.
    ghost predicate Booked(c: BigChunk, slots: set<nat>, used: nat)
      reads c`freeSlots, c`numSlotsAvailable, c`live, c`heap
      ensures Booked(c, slots, used) ==> c.Valid() && c.numSlots == p.slots && used == c.InUse() <= p.slots
    {
      && c.Valid() && c.heap == this && c.numSlots == p.slots
      && slots == c.live && used == c.InUse()
    }

    ghost predicate AllBooked(h: map<BigChunk, set<nat>>, b: Book<BigChunk>)
      reads b.Keys`freeSlots, b.Keys`numSlotsAvailable, b.Keys`live, b.Keys`heap
    {
      h.Keys == b.Keys && forall c :: c in b ==> Booked(c, h[c], b[c])
    }

    ghost predicate OthersBooked(h: map<BigChunk, set<nat>>, b: Book<BigChunk>, ch: BigChunk)
      reads (b.Keys - {ch})`freeSlots, (b.Keys - {ch})`numSlotsAvailable, (b.Keys - {ch})`live, (b.Keys - {ch})`heap
    {
      h.Keys == b.Keys && forall c :: c in b.Keys - {ch} ==> Booked(c, h[c], b[c])
    }

    lemma BookedBefore(h: map<BigChunk, set<nat>>, b: Book<BigChunk>, ch: BigChunk)
      requires AllBooked(h, b)
      ensures OthersBooked(h, b, ch)
      ensures ch in b ==>
        ch in h && Booked(ch, h[ch], b[ch]) && h[ch] == ch.live && b[ch] == ch.InUse() && ch.heap == this
    {
    }

    lemma BookedAfter(h: map<BigChunk, set<nat>>, b: Book<BigChunk>, ch: BigChunk)
      requires ch.Valid() && ch.heap == this && ch.numSlots == p.slots
      requires OthersBooked(h, b, ch)
      ensures AllBooked(h[ch := ch.live], b[ch := ch.InUse()])
    {
    }

    lemma BookedWithout(h: map<BigChunk, set<nat>>, b: Book<BigChunk>, ch: BigChunk)
      requires OthersBooked(h, b, ch)
      ensures AllBooked(h - {ch}, b - {ch})
    {
      hide Booked;
    }

    ghost predicate BookOk()
      reads this`book, this`held, this`space, this`inUse
      reads book.Keys`freeSlots, book.Keys`numSlotsAvailable, book.Keys`live, book.Keys`heap
    {
      && p.Valid() && AllBooked(held, book)
      && space == Space(p, book) && inUse == Total(book)
    }

    ghost predicate Valid()
      reads this`lists, this`where, this`book, this`held, this`space, this`inUse, myChunks
      reads where.Keys`prev, where.Keys`next
      reads book.Keys`freeSlots, book.Keys`numSlotsAvailable, book.Keys`live, book.Keys`heap
      ensures Valid() ==> p.Valid() && where.Keys == book.Keys == held.Keys && 0 < p.slots && 0 < p.fraction
    {
      && ListsOk() && BookOk()
      && where.Keys == book.Keys
      && forall c :: c in book ==> where[c] == Fullness(p, book[c])
    }

    // Takes ch off the list it is on.
    method Unlink(ch: BigChunk, index: nat)
      requires ListsOk() && ch in where && index == where[ch]
      modifies this`lists, this`where, myChunks, where.Keys`prev, where.Keys`next
      ensures ListsOk() && where == old(where) - {ch}
      ensures forall i :: 0 <= i < |lists| && i != index ==> lists[i] == old(lists[i])
    {
      hide Placed, Chained;
      ghost var j := PlacedWithout(lists, where, ch);
      assert ch in lists[index];
      var head := Detach(myChunks[index], ch, lists[index], j);
      forall i | 0 <= i < |lists| && i != index ensures Chained(lists[i]) {
        Apart(lists, where, index);
        assert forall c :: c in lists[i] ==> c !in lists[index] && c != ch;
        ChainedFrame(lists[i]);
      }
      myChunks[index] := head;
      lists := lists[index := Without(lists[index], j)];
      where := where - {ch};
    }

    // Takes a chunk off its list, with no links left.
    method TakeOff(ch: BigChunk, index: nat)
      requires ListsOk() && ch in where && index == where[ch]
      modifies this`lists, this`where, myChunks, where.Keys`prev, where.Keys`next
      ensures ListsOk() && where == old(where) - {ch} && ch.prev == null && ch.next == null
    {
      hide ListsOk;
      Unlink(ch, index);
      ch.prev := null;
      ch.next := null;
    }

    // Puts a chunk that is on no list at the front of one.
    method PushFront(ch: BigChunk, index: nat)
      requires ListsOk() && ch !in where && index < |lists|
      modifies this`lists, this`where, myChunks, ch`prev, ch`next, where.Keys`prev
      ensures ListsOk() && where == old(where)[ch := index]
      ensures lists == old(lists)[index := [ch] + old(lists[index])]
    {
      hide Placed, Chained;
      PlacedWith(lists, where, ch, index);
      Attach(myChunks[index], ch, lists[index]);
      forall i | 0 <= i < |lists| && i != index ensures Chained(lists[i]) {
        Apart(lists, where, index);
        assert forall c :: c in lists[i] ==> c !in lists[index] && c != ch;
        ChainedFrame(lists[i]);
      }
      myChunks[index] := ch;
      lists := lists[index := [ch] + lists[index]];
      where := where[ch := index];
    }

    // The list a chunk belongs on.
    function GetFullness(ch: BigChunk): (index: nat)
      requires p.Valid() && ch.Valid() && ch.numSlots == p.slots
      reads ch`freeSlots, ch`numSlotsAvailable, ch`live
      ensures index == Fullness(p, ch.InUse()) <= p.fraction
    {
      TimesIsProduct(p.fraction, ch.InUse());
      QuotientIsDivision(p.fraction * ch.InUse(), p.slots);
      FullnessOfFull(p, ch.InUse());
      p.fraction * ch.InUse() / p.slots
    }

    // Moves a chunk to the front of the list its fullness asks for.
    method Update(ch: BigChunk, prevIndex: nat) returns (newIndex: nat)
      requires p.Valid() && ListsOk() && ch in where && prevIndex == where[ch]
      requires ch.Valid() && ch.numSlots == p.slots
      modifies this`lists, this`where, myChunks, where.Keys`prev, where.Keys`next
      ensures ListsOk() && where == old(where)[ch := newIndex]
      ensures newIndex == Fullness(p, ch.InUse()) && AtFront(lists, where, ch)
    {
      hide Placed, Chained, GetFullness, Fullness;
      newIndex := GetFullness(ch);
      Unlink(ch, prevIndex);
      PushFront(ch, newIndex);
      assert old(where) - {ch} + map[ch := newIndex] == old(where)[ch := newIndex];
    }

    constructor (shape: Shape)
      requires shape.Valid()
      ensures Valid() && fresh(myChunks) && p == shape && book == map[] && held == map[]
    {
      p := shape;
      lastIndex := shape.fraction - 1;
      inUse, space := 0, 0;
      myChunks := new BigChunk?[shape.fraction + 1](_ => null);
      lists := seq(shape.fraction + 1, _ => []);
      where, book, held := map[], map[], map[];
    }

    // The front of the fullest list but the last that holds a chunk, if there is one.
    method FindRoom() returns (ch: BigChunk?)
      requires Valid()
      modifies this`lastIndex
      ensures Valid()
      ensures ch == null <==> !HasRoom(p, book)
      ensures ch != null ==> AtFront(lists, where, ch)
      ensures ch != null ==> ch in book && book[ch] < p.slots
      ensures ch != null ==> forall c :: c in book && book[c] < p.slots ==>
        Fullness(p, book[c]) <= Fullness(p, book[ch])
    {
      hide Placed, Chained;
      ch := null;
      lastIndex := p.fraction - 1;
      while lastIndex >= 0
        invariant -1 <= lastIndex < p.fraction
        invariant ch == null
        invariant forall i :: lastIndex < i < p.fraction ==> lists[i] == []
        modifies this`lastIndex
      {
        ch := myChunks[lastIndex];
        if ch == null {
          lastIndex := lastIndex - 1;
        } else {
          break;
        }
      }
      forall c | c in book && book[c] < p.slots ensures Fullness(p, book[c]) <= lastIndex {
        FullnessOfFull(p, book[c]);
        PlacedAt(lists, where, c);
      }
      if ch != null {
        HeadPlaced(lists, where, lastIndex);
        FullnessOfFull(p, book[ch]);
      }
    }

    method Enlist(ch: BigChunk)
      requires ListsOk() && p.Valid() && ch !in where && ch.Valid() && ch.numSlots == p.slots
      modifies this`lists, this`where, this`lastIndex, myChunks, where.Keys`prev, ch`heap, ch`prev, ch`next
      ensures ListsOk() && where == old(where)[ch := Fullness(p, ch.InUse())] && ch.heap == this
    {
      hide Placed, Chained, GetFullness, Fullness;
      ch.heap := this;
      lastIndex := GetFullness(ch);
      PushFront(ch, lastIndex);
    }

    // Takes in a chunk that the super heap handed over, completely free.
    method Acquire(ch: BigChunk)
      requires Valid() && !HasRoom(p, book)
      requires ch !in book && ch.Valid() && ch.live == {} && ch.numSlots == p.slots
      modifies this`lists, this`where, this`book, this`held, this`inUse, this`space, this`lastIndex
      modifies myChunks, where.Keys`prev, where.Keys`next, ch`heap, ch`prev, ch`next
      ensures Valid() && book == old(book)[ch := 0] && held == old(held)[ch := {}]
    {
      hide Fullness, Space, Total, HasRoom, Booked, AllBooked, OthersBooked, ListsOk;
      BookedBefore(held, book, ch);
      Enlist(ch);
      inUse := inUse + ch.InUse();
      space := space + ch.numSlots;
      AfterAcquire(p, book, ch);
      BookedAfter(held, book, ch);
      book, held := book[ch := 0], held[ch := {}];
    }

    // Moves a chunk if its fullness has changed.
    method Resort(ch: BigChunk, prevFullness: nat)
      requires p.Valid() && ListsOk() && ch in where && prevFullness == where[ch]
      requires ch.Valid() && ch.numSlots == p.slots
      modifies this`lists, this`where, myChunks, where.Keys`prev, where.Keys`next
      ensures ListsOk() && where == old(where)[ch := Fullness(p, ch.InUse())]
    {
      hide Placed, Chained, GetFullness, Fullness;
      var newFullness := GetFullness(ch);
      if prevFullness != newFullness {
        newFullness := Update(ch, prevFullness);
      } else {
        assert where == where[ch := newFullness];
      }
    }

    // Books the live slots that ch has now, and moves it to the list it belongs
    // on.
    method Rebook(ch: BigChunk, prevFullness: nat)
      requires p.Valid() && ListsOk() && where.Keys == book.Keys && ch in book
      requires OthersBooked(held, book, ch)
      requires ch.Valid() && ch.heap == this && ch.numSlots == p.slots
      requires forall c :: c in book ==> where[c] == Fullness(p, book[c])
      requires space == Space(p, book) && inUse == Total(book) - book[ch] + ch.InUse()
      requires prevFullness == Fullness(p, book[ch])
      modifies this`lists, this`where, this`book, this`held, myChunks, where.Keys`prev, where.Keys`next
      ensures Valid() && book == old(book)[ch := ch.InUse()] && held == old(held)[ch := ch.live]
    {
      hide Placed, Chained, GetFullness, Fullness, Space, Total, ListsOk, Booked, AllBooked, OthersBooked;
      Resort(ch, prevFullness);
      AfterSet(p, book, ch, ch.InUse());
      BookedAfter(held, book, ch);
      book, held := book[ch := ch.InUse()], held[ch := ch.live];
    }

    method TakeSlot(ch: BigChunk) returns (slot: nat)
      requires Valid() && ch in book && book[ch] < p.slots
      modifies this`lists, this`where, this`book, this`held, this`inUse, myChunks, where.Keys`prev, where.Keys`next
      modifies ch`freeSlots, ch`numSlotsAvailable, ch`live
      ensures Valid() && book == old(book)[ch := old(book[ch]) + 1]
      ensures slot < p.slots && slot !in old(held[ch]) && held == old(held)[ch := old(held[ch]) + {slot}]
    {
      hide Placed, Chained, GetFullness, Fullness, Space, Total, ListsOk, Booked, AllBooked, OthersBooked;
      BookedBefore(held, book, ch);
      var prevFullness := GetFullness(ch);
      var ok;
      ok, slot := ch.GetSlot();
      inUse := inUse + 1;
      Rebook(ch, prevFullness);
    }

    method ReturnSlot(ch: BigChunk, slot: nat)
      requires Valid() && ch in held && slot in held[ch]
      modifies this`lists, this`where, this`book, this`held, this`inUse, myChunks, where.Keys`prev, where.Keys`next
      modifies ch`freeSlots, ch`numSlotsAvailable, ch`live
      ensures Valid() && 0 < old(book[ch]) && book == old(book)[ch := old(book[ch]) - 1]
      ensures held == old(held)[ch := old(held[ch]) - {slot}] && inUse == old(inUse) - 1
    {
      hide Placed, Chained, GetFullness, Fullness, Space, Total, ListsOk, Booked, AllBooked, OthersBooked;
      BookedBefore(held, book, ch);
      var prevFullness := GetFullness(ch);
      ch.PutSlot(slot);
      inUse := inUse - 1;
      Rebook(ch, prevFullness);
    }

    // The first slot of a new chunk.
    method TakeNew(supplied: BigChunk) returns (slot: nat)
      requires Valid() && !HasRoom(p, book)
      requires supplied !in book && supplied.Valid() && supplied.live == {} && supplied.numSlots == p.slots
      modifies this, myChunks, book.Keys, supplied
      ensures Valid() && MallocStep(p, old(book), book, supplied)
      ensures slot < p.slots && held == old(held)[supplied := {slot}]
    {
      hide *;
      Acquire(supplied);
      slot := TakeSlot(supplied);
      FreshStep(p, old(book), book, supplied);
      SetTwice(old(held), supplied, {}, {slot});
      NothingPlus(slot);
    }

    // A slot of a fullest chunk with room; `supplied` is what the super heap
    // returns if it is asked for a chunk.
    method Malloc(supplied: BigChunk) returns (ch: BigChunk, slot: nat)
      requires Valid()
      requires supplied !in book && supplied.Valid() && supplied.live == {} && supplied.numSlots == p.slots
      modifies this, myChunks, book.Keys, supplied
      ensures Valid() && MallocStep(p, old(book), book, ch)
      ensures ch in old(held) || ch == supplied
      // With f the list of the chunk, no chunk with room is on a higher one.
      ensures ch !in old(book) ==> forall c :: c in old(book) ==> old(book)[c] == p.slots
      ensures ch in old(book) ==> old(book)[ch] < p.slots && AtFront(old(lists), old(where), ch)
      ensures ch in old(book) ==>
        var f := p.fraction * old(book)[ch] / p.slots;
        forall c :: c in old(book) && old(book)[c] < p.slots ==> p.fraction * old(book)[c] < (f + 1) * p.slots
      ensures var was := if ch == supplied then {} else old(held)[ch];
              slot < p.slots && slot !in was && held == old(held)[ch := was + {slot}]
      ensures ch != supplied ==> unchanged(supplied)
      ensures old(WithinBound()) ==> WithinBound()
    {
      hide *;
      WithinBoundMeans();
      var found := FindRoom();
      if found == null {
        slot := TakeNew(supplied);
        NothingPlus(slot);
        MallocInCounts(p, old(book), book, supplied);
        KeepBound(old(book), supplied, supplied, old(WithinBound()));
        return supplied, slot;
      }
      slot := TakeSlot(found);
      RoomStep(p, old(book), book, found);
      MallocInCounts<BigChunk>(p, old(book), book, found);
      KeepBound(old(book), found, found, old(WithinBound()));
      return found, slot;
    }

    // The first list that holds a chunk; the search cannot run past the lists
    // of chunks with room.
    method FindEmptiest() returns (index: nat)
      requires Valid() && Excess(p, book) > 0
      ensures index < |lists| && index < myChunks.Length && myChunks[index] != null
      ensures lists[index] != [] && myChunks[index] == lists[index][0]
      ensures lists[index][0] in book && where[lists[index][0]] == index
      ensures Emptiest(p, book, lists[index][0])
    {
      hide Placed, Chained, Fullness, Space, Total, Excess;
      ghost var w := SomeChunkIsEmptyEnough(p, book);
      EmptyEnough(p, book[w]);
      index := 0;
      while index < p.fraction
        invariant index <= p.fraction
        invariant forall i :: 0 <= i < index ==> lists[i] == []
      {
        if myChunks[index] != null {
          break;
        }
        index := index + 1;
      }
      forall c | c in book ensures index <= Fullness(p, book[c]) {
        PlacedAt(lists, where, c);
      }
      HeadPlaced(lists, where, index);
    }

    // Gives the chunk at the front of a list back to the super heap.
    method Release(index: nat) returns (ch: BigChunk)
      requires Valid() && index < |lists| && index < myChunks.Length && lists[index] != []
      requires myChunks[index] == lists[index][0] && lists[index][0] in book && where[lists[index][0]] == index
      modifies this`lists, this`where, this`book, this`held, this`inUse, this`space, myChunks
      modifies where.Keys`prev, where.Keys`next, book.Keys`heap
      ensures Valid() && ch == old(lists[index][0]) && book == old(book) - {ch} && held == old(held) - {ch}
      ensures ch.heap == null && ch.prev == null && ch.next == null
    {
      hide Placed, Chained, Fullness, Space, Total, ListsOk, Booked, AllBooked, OthersBooked;
      ch := myChunks[index];
      BookedBefore(held, book, ch);
      ch.heap := null;
      TakeOff(ch, index);
      AfterRelease(p, book, ch);
      BookedWithout(held, book, ch);
      space := space - ch.numSlots;
      inUse := inUse - ch.InUse();
      book, held := book - {ch}, held - {ch};
    }

    // The memory bound, in the fields of the heap.
    ghost predicate WithinBound()
      reads this`space, this`inUse
    {
      space - inUse <= p.slack || p.fraction * (space - inUse) <= space
    }

    lemma WithinBoundMeans()
      requires Valid()
      ensures WithinBound() <==> Bounded(p, book)
      ensures WithinChunks(p, book)
    {
      ExcessIsProduct(p, book);
      hide ListsOk, Excess, Space, Total;
    }

    lemma KeepBound(b: Book<BigChunk>, k: BigChunk, v: BigChunk, bounded: bool)
      requires Valid() && WithinChunks(p, b) && (bounded <==> Bounded(p, b))
      requires MallocStep(p, b, book, k) || (FreeStep(p, b, book, k, v) && p.slots % p.fraction == 0)
      ensures bounded ==> WithinBound()
    {
      hide *;
      WithinBoundMeans();
      if bounded {
        StepsKeepBound(p, b, book, k, v);
      }
    }

    lemma IdleIsCounted()
      requires Valid()
      ensures space == Space(p, book) && space - inUse == Idle(p, book)
    {
      hide ListsOk, AllBooked, Space, Total;
    }

    // The code's own test for giving memory back.
    predicate TooIdle()
      requires Valid()
      reads this`lists, this`where, this`book, this`held, this`space, this`inUse, myChunks
      reads where.Keys`prev, where.Keys`next
      reads book.Keys`freeSlots, book.Keys`numSlotsAvailable, book.Keys`live, book.Keys`heap
      ensures TooIdle() <==> MustReturn(p, book)
    {
      hide *;
      IdleIsCounted();
      MustReturnAt(p, book, space, inUse);
      LooseSlotSpec.TooIdle(p, space, inUse)
    }

    lemma TooIdleMeans()
      requires Valid()
      ensures TooIdle() <==> space - inUse > p.slack && p.fraction * (space - inUse) > space
    {
      hide ListsOk, BookOk, Fullness;
    }

    // Frees a slot of a chunk this heap holds. When too much memory then lies
    // idle, a chunk of the lowest list goes back to the super heap.
    method LocalFree(ch: BigChunk, slot: nat) returns (returned: BigChunk?)
      requires Valid() && ch in held && slot in held[ch]
      modifies this, myChunks, where.Keys
      ensures Valid()
      ensures 0 < old(book[ch])
      ensures var b1 := old(book)[ch := old(book[ch]) - 1];
              if returned == null then !MustReturn(p, b1) && book == b1
              else MustReturn(p, b1) && Emptiest<BigChunk>(p, b1, returned) && book == b1 - {returned}
      ensures returned != null <==>
        old(space) - (old(inUse) - 1) > p.slack && p.fraction * (old(space) - (old(inUse) - 1)) > old(space)
      // With f the list of the chunk given back, no chunk is on a lower one.
      ensures returned != null ==>
        && returned in old(book)
        && var b1 := old(book)[ch := old(book[ch]) - 1];
           var f := p.fraction * b1[returned] / p.slots;
           forall c :: c in b1 ==> f * p.slots <= p.fraction * b1[c]
      ensures var slots := old(held)[ch := old(held[ch]) - {slot}];
              held == if returned == null then slots else slots - {returned}
      ensures returned != null ==> returned.heap == null && returned.prev == null && returned.next == null
      ensures p.slots % p.fraction == 0 && old(WithinBound()) ==> WithinBound()
    {
      hide *;
      WithinBoundMeans();
      ReturnSlot(ch, slot);
      TooIdleMeans();
      if TooIdle() {
        ExcessOfReturn(p, book);
        var index := FindEmptiest();
        var victim := Release(index);
        returned := victim;
        ReturnStep(p, old(book), book, ch, victim);
        ReturnInCounts<BigChunk>(p, old(book)[ch := old(book[ch]) - 1], victim);
        if p.slots % p.fraction == 0 {
          KeepBound(old(book), ch, victim, old(WithinBound()));
        }
      } else {
        returned := null;
        QuietStep(p, old(book), book, ch);
        if p.slots % p.fraction == 0 {
          KeepBound(old(book), ch, ch, old(WithinBound()));
        }
      }
    }
  }
}
