// An address-ordered first-fit heap with immediate coalescing
// (experimental/aoffheap.h).

module AddressOrderedHeap {
  import opened MapSum

  // Bytes in front of an object, and of a free object, which keeps two links too.
  const HEADER := 8
  const FREE_HEADER := 24
  const LOST := FREE_HEADER - HEADER

  // A header at addr and size bytes behind it.
  datatype Block = Block(addr: nat, size: nat)

  function End(b: Block): nat {
    b.addr + HEADER + b.size
  }

  // Past the bytes that a free block writes: its links may reach past its end.
  function Foot(b: Block): nat {
    if b.size < LOST then b.addr + FREE_HEADER else End(b)
  }

  // In address order, disjoint, links included.
  ghost predicate Ordered(free: seq<Block>) {
    forall i, j :: 0 <= i < j < |free| ==> Foot(free[i]) <= free[j].addr
  }

  // No block ends where the next one begins.
  ghost predicate Coalesced(free: seq<Block>) {
    forall i :: 0 <= i < |free| - 1 ==> End(free[i]) != free[i + 1].addr
  }

  ghost predicate Below(free: seq<Block>, threshold: nat) {
    forall i :: 0 <= i < |free| ==> free[i].size < threshold
  }

  ghost predicate Clear(b: Block, live: map<nat, nat>) {
    forall p :: p in live ==> p + live[p] <= b.addr || Foot(b) + HEADER <= p
  }

  ghost predicate LiveOk(live: map<nat, nat>) {
    && (forall p :: p in live ==> HEADER < p && LOST <= live[p])
    && forall p, q :: p in live && q in live && p != q ==> p + live[p] + HEADER <= q || q + live[q] + HEADER <= p
  }

  ghost predicate Apart(free: seq<Block>, live: map<nat, nat>) {
    forall i :: 0 <= i < |free| ==> Clear(free[i], live)
  }

  // ----- bytes -----

  ghost predicate In(b: Block, a: nat) {
    b.addr <= a < End(b)
  }

  ghost predicate Covers(free: seq<Block>, a: nat) {
    exists i :: 0 <= i < |free| && In(free[i], a)
  }

  function Bytes(free: seq<Block>): nat {
    if free == [] then 0 else HEADER + free[0].size + Bytes(free[1..])
  }

  lemma {:induction false} BytesOf(a: seq<Block>, b: seq<Block>)
    ensures Bytes(a + b) == Bytes(a) + Bytes(b)
  {
    if a == [] {
      assert a + b == b;
    } else {
      BytesOf(a[1..], b);
      assert (a + b)[1..] == a[1..] + b;
    }
  }

  lemma BytesAround(free: seq<Block>, k: nat)
    requires k < |free|
    ensures Bytes(free) == Bytes(free[..k]) + HEADER + free[k].size + Bytes(free[k + 1..])
  {
    assert free == free[..k] + free[k..];
    BytesOf(free[..k], free[k..]);
    assert free[k..][1..] == free[k + 1..];
  }

  // The bytes of objects in use, headers included.
  ghost function LiveBytes(live: map<nat, nat>): nat {
    Total(live) + HEADER * |live|
  }

  lemma LiveBytesWith(live: map<nat, nat>, p: nat, size: nat)
    requires p !in live
    ensures LiveBytes(live[p := size]) == LiveBytes(live) + HEADER + size
  {
    TotalSet(live, p, size);
    assert live[p := size].Keys == live.Keys + {p};
  }

  // ----- first fit -----

  function FirstFit(free: seq<Block>, sz: nat): (i: nat)
    ensures i <= |free| && (i < |free| ==> free[i].size >= sz + FREE_HEADER)
    ensures forall k :: 0 <= k < i ==> free[k].size < sz + FREE_HEADER
  {
    if free == [] || free[0].size >= sz + FREE_HEADER then 0 else
      var r := FirstFit(free[1..], sz);
      assert forall k :: 0 < k < r + 1 ==> free[k] == free[1..][k - 1];
      r + 1
  }

  lemma FirstFitIs(free: seq<Block>, sz: nat, i: nat)
    requires i <= |free| && (i < |free| ==> free[i].size >= sz + FREE_HEADER)
    requires forall k :: 0 <= k < i ==> free[k].size < sz + FREE_HEADER
    ensures FirstFit(free, sz) == i
  {
  }

  // ----- splitting -----

  function Rest(b: Block, sz: nat): Block
    requires b.size >= sz + FREE_HEADER
  {
    Block(b.addr + HEADER + sz, b.size - sz - FREE_HEADER)
  }

  lemma RestBehind(b: Block, sz: nat)
    requires b.size >= sz + FREE_HEADER
    ensures Rest(b, sz) == Block(b.addr + HEADER + sz, b.size - sz - FREE_HEADER)
    ensures End(Rest(b, sz)) + LOST == End(b)
  {
  }

  lemma SplitKeeps(free: seq<Block>, live: map<nat, nat>, threshold: nat, i: nat, sz: nat)
    requires Ordered(free) && Coalesced(free) && Below(free, threshold) && LiveOk(live) && Apart(free, live)
    requires i < |free| && free[i].size >= sz + FREE_HEADER && sz >= LOST && free[i].addr > 0
    ensures var p, free' := free[i].addr + HEADER, free[i := Rest(free[i], sz)];
      && p !in live && Ordered(free') && Coalesced(free') && Below(free', threshold)
      && LiveOk(live[p := sz]) && Apart(free', live[p := sz])
  {
    var b := free[i];
    var p, free' := b.addr + HEADER, free[i := Rest(b, sz)];
    assert Clear(b, live);
    assert Foot(Rest(b, sz)) <= Foot(b);
    assert End(Rest(b, sz)) < End(b);
    forall k | 0 <= k < |free'| ensures Clear(free'[k], live[p := sz]) {
      assert Clear(free[k], live);
      assert k < i ==> Foot(free[k]) <= b.addr;
      assert i < k ==> Foot(b) <= free[k].addr;
    }
    forall k | 0 <= k < |free'| - 1 ensures End(free'[k]) != free'[k + 1].addr {
      assert Foot(free[k]) <= free[k + 1].addr;
    }
  }

  lemma SplitBytes(free: seq<Block>, i: nat, sz: nat)
    requires i < |free| && free[i].size >= sz + FREE_HEADER
    ensures Bytes(free[i := Rest(free[i], sz)]) + HEADER + sz + LOST == Bytes(free)
  {
    var free' := free[i := Rest(free[i], sz)];
    BytesAround(free, i);
    BytesAround(free', i);
    assert free'[..i] == free[..i] && free'[i + 1..] == free[i + 1..];
  }

  // ----- inserting and coalescing -----

  function Insert(free: seq<Block>, k: nat, b: Block): seq<Block>
    requires k <= |free|
  {
    free[..k] + [b] + free[k..]
  }

  function Join(free: seq<Block>, k: nat): seq<Block>
    requires k + 1 < |free|
  {
    free[..k] + [Joined(free, k)] + free[k + 2..]
  }

  function Delete(free: seq<Block>, k: nat): seq<Block>
    requires k < |free|
  {
    free[..k] + free[k + 1..]
  }

  lemma InsertAt(free: seq<Block>, k: nat, b: Block, i: nat)
    requires k <= |free| && i <= |free|
    ensures |Insert(free, k, b)| == |free| + 1
    ensures Insert(free, k, b)[i] == if i < k then free[i] else if i == k then b else free[i - 1]
  {
  }

  lemma InsertCovers(free: seq<Block>, k: nat, b: Block, a: nat)
    requires k <= |free|
    ensures Covers(Insert(free, k, b), a) <==> Covers(free, a) || In(b, a)
  {
    InsertAt(free, k, b, k);
    if i :| 0 <= i < |free| && In(free[i], a) {
      InsertAt(free, k, b, if i < k then i else i + 1);
    }
    if i :| 0 <= i < |Insert(free, k, b)| && In(Insert(free, k, b)[i], a) {
      InsertAt(free, k, b, i);
    }
  }

  lemma InsertBytes(free: seq<Block>, k: nat, b: Block)
    requires k <= |free|
    ensures Bytes(Insert(free, k, b)) == Bytes(free) + HEADER + b.size
  {
    hide Bytes;
    var free' := Insert(free, k, b);
    BytesAround(free', k);
    assert free'[..k] == free[..k] && free'[k + 1..] == free[k..];
    BytesOf(free[..k], free[k..]);
    assert free == free[..k] + free[k..];
  }

  lemma InsertKeeps(free: seq<Block>, k: nat, b: Block)
    requires Ordered(free) && k <= |free|
    requires forall i :: 0 <= i < k ==> Foot(free[i]) <= b.addr
    requires forall i :: k <= i < |free| ==> Foot(b) <= free[i].addr
    ensures Ordered(Insert(free, k, b))
    ensures forall a :: Covers(Insert(free, k, b), a) <==> Covers(free, a) || In(b, a)
    ensures Bytes(Insert(free, k, b)) == Bytes(free) + HEADER + b.size
  {
    forall a: nat ensures Covers(Insert(free, k, b), a) <==> Covers(free, a) || In(b, a) {
      InsertCovers(free, k, b, a);
    }
    InsertBytes(free, k, b);
    hide Covers, Foot, Bytes, Insert;
    InsertAt(free, k, b, k);
    var free' := Insert(free, k, b);
    forall i, j | 0 <= i < j < |free'| ensures Foot(free'[i]) <= free'[j].addr {
      InsertAt(free, k, b, i);
      InsertAt(free, k, b, j);
    }
  }

  function Joined(free: seq<Block>, k: nat): Block
    requires k + 1 < |free|
  {
    Block(free[k].addr, free[k].size + free[k + 1].size + HEADER)
  }

  lemma JoinAt(free: seq<Block>, k: nat, i: nat)
    requires k + 1 < |free| && i < |free| - 1
    ensures |Join(free, k)| == |free| - 1
    ensures Join(free, k)[i] == if i < k then free[i] else if i == k then Joined(free, k) else free[i + 1]
  {
  }

  lemma JoinCovers(free: seq<Block>, k: nat, a: nat)
    requires k + 1 < |free| && End(free[k]) == free[k + 1].addr
    ensures Covers(Join(free, k), a) <==> Covers(free, a)
  {
    JoinAt(free, k, k);
    if i :| 0 <= i < |free| && In(free[i], a) {
      JoinAt(free, k, if i <= k then i else i - 1);
    }
    if i :| 0 <= i < |free| - 1 && In(Join(free, k)[i], a) {
      JoinAt(free, k, i);
      assert i == k ==> In(free[k], a) || In(free[k + 1], a);
    }
  }

  lemma JoinBytes(free: seq<Block>, k: nat)
    requires k + 1 < |free|
    ensures Bytes(Join(free, k)) == Bytes(free)
  {
    var free' := Join(free, k);
    BytesAround(free, k);
    BytesAround(free', k);
    assert free'[..k] == free[..k] && free'[k + 1..] == free[k + 2..] == free[k + 1..][1..];
  }

  lemma JoinKeeps(free: seq<Block>, k: nat)
    requires Ordered(free) && k + 1 < |free| && End(free[k]) == free[k + 1].addr
    ensures Ordered(Join(free, k))
    ensures forall a :: Covers(Join(free, k), a) <==> Covers(free, a)
    ensures Bytes(Join(free, k)) == Bytes(free)
    ensures Foot(Joined(free, k)) <= Foot(free[k + 1])
  {
    JoinBytes(free, k);
    forall a: nat ensures Covers(Join(free, k), a) <==> Covers(free, a) {
      JoinCovers(free, k, a);
    }
    assert Foot(free[k]) <= free[k + 1].addr;
    assert Foot(Joined(free, k)) <= Foot(free[k + 1]);
    hide Covers, Foot, Bytes, Join;
    var free' := Join(free, k);
    JoinAt(free, k, k);
    forall i, j | 0 <= i < j < |free'| ensures Foot(free'[i]) <= free'[j].addr {
      JoinAt(free, k, i);
      JoinAt(free, k, j);
    }
  }

  lemma DeleteAt(free: seq<Block>, k: nat, i: nat)
    requires k < |free|
    ensures |Delete(free, k)| == |free| - 1
    ensures i < |free| - 1 ==> Delete(free, k)[i] == free[if i < k then i else i + 1]
  {
  }

  lemma DeleteCovers(free: seq<Block>, k: nat, a: nat)
    requires k < |free|
    ensures Covers(free, a) <==> Covers(Delete(free, k), a) || In(free[k], a)
  {
    if i :| 0 <= i < |free| && In(free[i], a) {
      if i < k {
        DeleteAt(free, k, i);
      } else if i > k {
        DeleteAt(free, k, i - 1);
      }
    }
    if i :| 0 <= i < |Delete(free, k)| && In(Delete(free, k)[i], a) {
      DeleteAt(free, k, i);
    }
  }

  lemma DeleteKeeps(free: seq<Block>, k: nat)
    requires Ordered(free) && k < |free|
    ensures Ordered(Delete(free, k))
    ensures forall a :: Covers(free, a) <==> Covers(Delete(free, k), a) || In(free[k], a)
    ensures Bytes(free) == Bytes(Delete(free, k)) + HEADER + free[k].size
  {
    forall a: nat ensures Covers(free, a) <==> Covers(Delete(free, k), a) || In(free[k], a) {
      DeleteCovers(free, k, a);
    }
    BytesAround(free, k);
    BytesOf(free[..k], free[k + 1..]);
    hide Covers, Foot, Bytes;
    var free' := Delete(free, k);
    hide Delete;
    DeleteAt(free, k, 0);
    forall i, j | 0 <= i < j < |free'| ensures Foot(free'[i]) <= free'[j].addr {
      DeleteAt(free, k, i);
      DeleteAt(free, k, j);
    }
  }

  lemma FirstAbove(free: seq<Block>, k: nat, addr: nat)
    requires Ordered(free) && k <= |free|
    requires k == 0 || free[k - 1].addr < addr
    requires k < |free| ==> addr <= free[k].addr
    ensures forall i :: 0 <= i < k ==> free[i].addr < addr
    ensures forall i :: k <= i < |free| ==> addr <= free[i].addr
  {
    if k > 0 {
      assert forall i :: 0 <= i < k - 1 ==> Foot(free[i]) <= free[k - 1].addr;
    }
    if k < |free| {
      assert forall i :: k < i < |free| ==> Foot(free[k]) <= free[i].addr;
    }
  }

  // ----- the invariant -----

  // The block at k may touch its neighbours and may have grown too large.
  ghost predicate Settled(free: seq<Block>, live: map<nat, nat>, threshold: nat, k: nat, left: bool, right: bool) {
    && Ordered(free) && LiveOk(live) && Apart(free, live)
    && (forall i :: 0 <= i < |free| ==> free[i].addr > 0)
    && (forall i :: 0 <= i < |free| && i != k ==> free[i].size < threshold)
    && forall i :: 0 <= i < |free| - 1 && !(left && i + 1 == k) && !(right && i == k) ==>
       End(free[i]) != free[i + 1].addr
  }

  ghost predicate Sound(free: seq<Block>, live: map<nat, nat>, threshold: nat) {
    && Ordered(free) && Coalesced(free) && Below(free, threshold) && LiveOk(live) && Apart(free, live)
    && forall i :: 0 <= i < |free| ==> free[i].addr > 0
  }

  lemma SettledIsSound(free: seq<Block>, live: map<nat, nat>, threshold: nat, k: nat)
    requires Settled(free, live, threshold, k, false, false) && (k < |free| ==> free[k].size < threshold)
    ensures Sound(free, live, threshold)
  {
  }

  lemma LiveAfterNew(free: seq<Block>, live: map<nat, nat>, threshold: nat, buf: nat, sz: nat)
    requires Sound(free, live, threshold) && sz >= LOST && Unused(free, live, Block(buf, sz))
    ensures buf + HEADER !in live && Sound(free, live[buf + HEADER := sz], threshold)
  {
    forall i | 0 <= i < |free| ensures Clear(free[i], live[buf + HEADER := sz]) {
      assert Clear(free[i], live);
    }
  }

  lemma SoundAfterSplit(free: seq<Block>, live: map<nat, nat>, threshold: nat, i: nat, sz: nat)
    requires Sound(free, live, threshold) && i < |free| && free[i].size >= sz + FREE_HEADER && sz >= LOST
    ensures free[i].addr + HEADER !in live
    ensures Sound(free[i := Rest(free[i], sz)], live[free[i].addr + HEADER := sz], threshold)
  {
    SplitKeeps(free, live, threshold, i, sz);
  }

  // New memory of the super heap overlaps nothing that is in use or free.
  ghost predicate Unused(free: seq<Block>, live: map<nat, nat>, b: Block) {
    && b.addr > 0 && Clear(b, live)
    && forall i :: 0 <= i < |free| ==> Foot(b) <= free[i].addr || Foot(free[i]) <= b.addr
  }

  // The freed object's block fits between its neighbours in the list.
  lemma FreedBlock(free: seq<Block>, live: map<nat, nat>, threshold: nat, p: nat, k: nat)
    requires Sound(free, live, threshold) && p in live && k <= |free|
    requires k == 0 || free[k - 1].addr < p - HEADER
    requires k < |free| ==> p - HEADER < free[k].addr
    ensures p > HEADER && LiveOk(live - {p}) && Apart(free, live - {p})
    ensures var b := Block(p - HEADER, live[p]);
      && Clear(b, live - {p}) && (forall i :: 0 <= i < k ==> Foot(free[i]) <= b.addr)
      && forall i :: k <= i < |free| ==> Foot(b) <= free[i].addr
  {
    var b := Block(p - HEADER, live[p]);
    FirstAbove(free, k, b.addr);
    hide Coalesced, Below, Ordered;
    forall i | 0 <= i < |free|
      ensures Clear(free[i], live - {p}) && (if i < k then Foot(free[i]) <= b.addr else Foot(b) <= free[i].addr)
    {
      assert Clear(free[i], live);
      assert i != k ==> free[i].addr != b.addr;
    }
  }

  lemma SettledAfterInsert(free: seq<Block>, live: map<nat, nat>, threshold: nat, p: nat, k: nat)
    requires Sound(free, live, threshold) && p in live && k <= |free|
    requires k == 0 || free[k - 1].addr < p - HEADER
    requires k < |free| ==> p - HEADER < free[k].addr
    ensures p >= HEADER && Settled(Insert(free, k, Block(p - HEADER, live[p])), live - {p}, threshold, k, true, true)
    ensures forall a ::
      Covers(Insert(free, k, Block(p - HEADER, live[p])), a) <==> Covers(free, a) || In(Block(p - HEADER, live[p]), a)
    ensures Bytes(Insert(free, k, Block(p - HEADER, live[p]))) == Bytes(free) + HEADER + live[p]
  {
    hide Covers, Bytes, Insert, Ordered, Clear, Foot, LiveOk, In, End;
    FreedBlock(free, live, threshold, p, k);
    var b := Block(p - HEADER, live[p]);
    InsertKeeps(free, k, b);
    var free' := Insert(free, k, b);
    InsertAt(free, k, b, k);
    forall i | 0 <= i < |free'|
      ensures Clear(free'[i], live - {p}) && free'[i].addr > 0 && (i != k ==> free'[i].size < threshold)
    {
      InsertAt(free, k, b, i);
    }
    forall i | 0 <= i < |free'| - 1 && i + 1 != k && i != k ensures End(free'[i]) != free'[i + 1].addr {
      InsertAt(free, k, b, i);
      InsertAt(free, k, b, i + 1);
    }
  }

  lemma JoinedIsClear(free: seq<Block>, live: map<nat, nat>, j: nat)
    requires Ordered(free) && Apart(free, live) && j + 1 < |free| && End(free[j]) == free[j + 1].addr
    ensures Clear(Joined(free, j), live) && End(Joined(free, j)) == End(free[j + 1])
  {
    assert Foot(free[j]) <= free[j + 1].addr;
    assert Clear(free[j], live) && Clear(free[j + 1], live);
  }

  lemma SettledAfterJoin(free: seq<Block>, live: map<nat, nat>, threshold: nat, k: nat, j: nat, left: bool, right: bool)
    requires Settled(free, live, threshold, k, left, right) && j + 1 < |free| && End(free[j]) == free[j + 1].addr
    requires (j + 1 == k && left) || (j == k && right && !left)
    ensures Settled(Join(free, j), live, threshold, j, false, j + 1 == k && right)
    ensures forall a :: Covers(Join(free, j), a) <==> Covers(free, a)
    ensures Bytes(Join(free, j)) == Bytes(free)
  {
    hide Covers, Bytes, Join, Ordered, Clear, Foot, LiveOk, In, End;
    JoinKeeps(free, j);
    JoinedIsClear(free, live, j);
    var free' := Join(free, j);
    JoinAt(free, j, j);
    forall i | 0 <= i < |free'|
      ensures Clear(free'[i], live) && free'[i].addr > 0 && (i != j ==> free'[i].size < threshold)
    {
      JoinAt(free, j, i);
    }
    forall i | 0 <= i < |free'| - 1 && !(j + 1 == k && right && i == j) ensures End(free'[i]) != free'[i + 1].addr {
      JoinAt(free, j, i);
      JoinAt(free, j, i + 1);
    }
  }

  lemma GapKept(free: seq<Block>, k: nat)
    requires Ordered(free) && 0 < k < |free| - 1
    ensures End(free[k - 1]) != free[k + 1].addr
  {
    assert Foot(free[k - 1]) <= free[k].addr && Foot(free[k]) <= free[k + 1].addr;
  }

  lemma SoundAfterDelete(free: seq<Block>, live: map<nat, nat>, threshold: nat, k: nat)
    requires Settled(free, live, threshold, k, false, false) && k < |free|
    ensures Sound(Delete(free, k), live, threshold)
    ensures forall a :: Covers(free, a) <==> Covers(Delete(free, k), a) || In(free[k], a)
    ensures Bytes(free) == Bytes(Delete(free, k)) + HEADER + free[k].size
  {
    hide Covers, Bytes, Delete, Ordered, Clear, LiveOk, In, End, Foot;
    DeleteKeeps(free, k);
    var free' := Delete(free, k);
    if 0 < k && k + 1 < |free| {
      GapKept(free, k);
    }
    DeleteAt(free, k, 0);
    forall i | 0 <= i < |free'| ensures Clear(free'[i], live) && free'[i].addr > 0 && free'[i].size < threshold {
      DeleteAt(free, k, i);
    }
    forall i | 0 <= i < |free'| - 1 ensures End(free'[i]) != free'[i + 1].addr {
      DeleteAt(free, k, i);
      DeleteAt(free, k, i + 1);
    }
  }

  class AddressOrderedHeap {
    // Objects of at least this size are freed to the super heap.
    const threshold: nat
    var free: seq<Block>
    // The sizes that the headers of the objects in use record.
    var live: map<nat, nat>
    // Bytes that the super heap has given and not got back, and those lost in splits.
    ghost var held: int
    ghost var lost: nat

    ghost predicate Valid()
      reads this
    {
      Sound(free, live, threshold) && Bytes(free) + LiveBytes(live) + lost == held
    }

    constructor (threshold: nat)
      ensures Valid() && this.threshold == threshold && free == [] && live == map[] && lost == 0
    {
      this.threshold := threshold;
      free, live, held, lost := [], map[], 0, 0;
    }

    // First fit; the rest of the block stays free, LOST bytes smaller than it could
    // be. A block without room for a rest never gets that far.
    method Malloc(sz: nat, buf: nat) returns (p: nat)
      requires Valid() && sz >= LOST && Unused(free, live, Block(buf, sz))
      modifies this
      ensures Valid() && p !in old(live) && live == old(live)[p := sz]
      ensures var i := FirstFit(old(free), sz);
        if i == |old(free)| then
          && p == buf + HEADER && free == old(free) && held == old(held) + HEADER + sz && lost == old(lost)
        else
          && p == old(free)[i].addr + HEADER
          // The rest begins where the object ends.
          && free == old(free)[i := Block(p + sz, old(free)[i].size - sz - FREE_HEADER)]
          && held == old(held) && lost == old(lost) + LOST
    {
      hide FirstFit, Sound, Bytes, LiveBytes, Unused, Rest;
      var i := 0;
      while i < |free| && free[i].size < sz + FREE_HEADER
        invariant 0 <= i <= |free| && forall k :: 0 <= k < i ==> free[k].size < sz + FREE_HEADER
      {
        i := i + 1;
      }
      FirstFitIs(free, sz, i);
      if i == |free| {
        p := buf + HEADER;
        LiveAfterNew(free, live, threshold, buf, sz);
        LiveBytesWith(live, p, sz);
        held := held + HEADER + sz;
      } else {
        p := free[i].addr + HEADER;
        SoundAfterSplit(free, live, threshold, i, sz);
        if free[i].size - sz >= FREE_HEADER {
          SplitBytes(free, i, sz);
          RestBehind(free[i], sz);
          LiveBytesWith(live, p, sz);
          lost := lost + LOST;
          free := free[i := Rest(free[i], sz)];
        } else {
          assert false;
        }
      }
      live := live[p := sz];
    }

    // Joins the block at k with the neighbours it touches.
    method Coalesce(at: nat) returns (k: nat)
      requires at < |free| && Settled(free, live, threshold, at, true, true)
      modifies this`free
      ensures k < |free| && Settled(free, live, threshold, k, false, false)
      ensures (forall a :: Covers(free, a) <==> Covers(old(free), a)) && Bytes(free) == Bytes(old(free))
    {
      k := at;
      hide Settled, Bytes, Covers, Join;
      if k > 0 && End(free[k - 1]) == free[k].addr {
        SettledAfterJoin(free, live, threshold, k, k - 1, true, true);
        JoinAt(free, k - 1, k - 1);
        free := Join(free, k - 1);
        k := k - 1;
      } else {
        LeftSettled(free, live, threshold, k);
      }
      if k + 1 < |free| && End(free[k]) == free[k + 1].addr {
        SettledAfterJoin(free, live, threshold, k, k, false, true);
        JoinAt(free, k, k);
        free := Join(free, k);
      } else {
        RightSettled(free, live, threshold, k);
      }
    }

    // The index of the first block that is not below the address.
    method FindPlace(thisObject: int) returns (k: nat)
      ensures k <= |free| && (forall i :: 0 <= i < k ==> free[i].addr < thisObject)
      ensures k < |free| ==> thisObject <= free[k].addr
    {
      k := 0;
      while k < |free| && thisObject > free[k].addr
        invariant 0 <= k <= |free| && forall i :: 0 <= i < k ==> free[i].addr < thisObject
      {
        k := k + 1;
      }
    }

    // Hands the block at k to the super heap when it is large enough.
    method ReleaseIfLarge(k: nat) returns (released: seq<Block>)
      requires k < |free| && Settled(free, live, threshold, k, false, false)
      modifies this`free, this`held
      ensures Sound(free, live, threshold) && Bytes(old(free)) == Bytes(free) + Bytes(released)
      ensures held == old(held) - Bytes(released)
      ensures forall a :: Covers(old(free), a) <==> Covers(free, a) || Covers(released, a)
      ensures |released| <= 1 && forall i :: 0 <= i < |released| ==> released[i].size >= threshold
    {
      hide Settled, Sound, Bytes, Covers, In, Delete;
      released := [];
      if free[k].size >= threshold {
        SoundAfterDelete(free, live, threshold, k);
        OneBlock(free[k]);
        released := [free[k]];
        held := held - Bytes(released);
        free := Delete(free, k);
      } else {
        NoBlock();
        SettledIsSound(free, live, threshold, k);
      }
    }

    // Back to its place in the list, joined with the neighbours it touches; a block
    // that has become large enough goes to the super heap. Freeing the front of a
    // free block again does nothing.
    method Free(p: nat) returns (released: seq<Block>)
      requires Valid() && (p in live || (p >= HEADER && exists i :: 0 <= i < |free| && free[i].addr == p - HEADER))
      modifies this
      ensures Valid() && lost == old(lost) && held == old(held) - Bytes(released)
      ensures p !in old(live) ==> free == old(free) && live == old(live) && released == []
      ensures p in old(live) ==> p >= HEADER && live == old(live) - {p}
      ensures p in old(live) ==> forall a ::
        Covers(free, a) || Covers(released, a) <==> Covers(old(free), a) || In(Block(p - HEADER, old(live)[p]), a)
      ensures |released| <= 1 && forall i :: 0 <= i < |released| ==> released[i].size >= threshold
    {
      hide Sound, Settled, Bytes, LiveBytes, Covers, In, Insert;
      released := [];
      NoBlock();
      InUse(free, live, threshold, p);
      var k := FindPlace(p - HEADER);
      if k < |free| && free[k].addr == p - HEADER {
        NotInUse(free, live, threshold, k);
        return;
      }
      NotFree(free, live, threshold, k, p - HEADER);
      SettledAfterInsert(free, live, threshold, p, k);
      LiveBytesWithout(live, p);
      InsertAt(free, k, Block(p - HEADER, live[p]), k);
      free := Insert(free, k, Block(p - HEADER, live[p]));
      live := live - {p};
      k := Coalesce(k);
      released := ReleaseIfLarge(k);
    }
  }

  lemma InUse(free: seq<Block>, live: map<nat, nat>, threshold: nat, p: nat)
    requires Sound(free, live, threshold)
    ensures p in live ==> p > HEADER
  {
  }

  lemma LiveBytesWithout(live: map<nat, nat>, p: nat)
    requires p in live
    ensures LiveBytes(live) == LiveBytes(live - {p}) + HEADER + live[p]
  {
    TotalAt(live, p);
    assert live.Keys == (live - {p}).Keys + {p};
  }

  // The front of a free block is not an object in use.
  lemma NotInUse(free: seq<Block>, live: map<nat, nat>, threshold: nat, k: nat)
    requires Sound(free, live, threshold) && k < |free|
    ensures free[k].addr + HEADER !in live
  {
    assert Clear(free[k], live);
  }

  lemma NotFree(free: seq<Block>, live: map<nat, nat>, threshold: nat, k: nat, addr: int)
    requires Sound(free, live, threshold) && k <= |free| && (forall i :: 0 <= i < k ==> free[i].addr < addr)
    requires k < |free| ==> addr < free[k].addr
    ensures forall i :: 0 <= i < |free| ==> free[i].addr != addr
  {
    forall i | k < i < |free| ensures free[i].addr != addr {
      assert Foot(free[k]) <= free[i].addr;
    }
  }

  lemma LeftSettled(free: seq<Block>, live: map<nat, nat>, threshold: nat, k: nat)
    requires Settled(free, live, threshold, k, true, true) && k < |free| && (k > 0 ==> End(free[k - 1]) != free[k].addr)
    ensures Settled(free, live, threshold, k, false, true)
  {
  }

  lemma RightSettled(free: seq<Block>, live: map<nat, nat>, threshold: nat, k: nat)
    requires Settled(free, live, threshold, k, false, true) && (k + 1 < |free| ==> End(free[k]) != free[k + 1].addr)
    ensures Settled(free, live, threshold, k, false, false)
  {
  }

  lemma OneBlock(b: Block)
    ensures Bytes([b]) == HEADER + b.size && forall a :: Covers([b], a) <==> In(b, a)
  {
    assert [b][1..] == [];
    assert [b][0] == b;
  }

  lemma NoBlock()
    ensures Bytes([]) == 0 && forall a :: !Covers([], a)
  {
  }
}
