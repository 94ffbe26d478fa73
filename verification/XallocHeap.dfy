// A stack-like arena that takes blocks back from its end (xallocHeap.h).

module XallocHeap {
  import opened Alignment

  const WORD := 8

  lemma AlignIsEven(sz: nat)
    ensures Align(sz) % 2 == 0
  {
  }

  // The word in front of a block boundary: the size of the block that ends there,
  // its lowest bit telling whether the block that begins there is in use.
  type Memory = map<nat, nat>

  function SizeWord(mem: Memory, x: nat): nat {
    if x in mem then mem[x] else 0
  }

  function SizeBefore(mem: Memory, x: nat): nat {
    SizeWord(mem, x) - SizeWord(mem, x) % 2
  }

  predicate InUse(mem: Memory, x: nat) {
    SizeWord(mem, x) % 2 == 1
  }

  function SetUse(mem: Memory, x: nat): Memory {
    mem[x := SizeBefore(mem, x) + 1]
  }

  function ClearUse(mem: Memory, x: nat): Memory {
    mem[x := SizeBefore(mem, x)]
  }

  // ----- the blocks -----

  // Block i, of even size, lies between two bounds; the word at its end tells its
  // size, that at its beginning whether it is in use.
  ghost predicate BlockOk(mem: Memory, bounds: seq<nat>, used: seq<bool>, i: nat)
    requires |bounds| == |used| + 1 && i < |used|
  {
    && bounds[i] + WORD <= bounds[i + 1] && (bounds[i + 1] - bounds[i]) % 2 == 0
    && SizeBefore(mem, bounds[i + 1]) == bounds[i + 1] - bounds[i] && (InUse(mem, bounds[i]) <==> used[i])
  }

  // bounds[i] is where block i begins, the last bound is where the blocks end.
  ghost predicate Tiled(mem: Memory, start: nat, bounds: seq<nat>, used: seq<bool>) {
    && |bounds| == |used| + 1 && bounds[0] == start + WORD
    && SizeBefore(mem, bounds[0]) == 0 && !InUse(mem, bounds[|used|])
    && forall i :: 0 <= i < |used| ==> BlockOk(mem, bounds, used, i)
  }

  lemma {:induction false} BoundsGrow(mem: Memory, start: nat, bounds: seq<nat>, used: seq<bool>, i: nat, j: nat)
    requires Tiled(mem, start, bounds, used) && i < j <= |used|
    ensures bounds[i] + WORD <= bounds[j]
  {
    assert BlockOk(mem, bounds, used, j - 1);
    if i < j - 1 {
      BoundsGrow(mem, start, bounds, used, i, j - 1);
    }
  }

  // From a block to the one before it, which is itself for the first block.
  lemma PreviousBlock(mem: Memory, start: nat, bounds: seq<nat>, used: seq<bool>, k: nat)
    requires Tiled(mem, start, bounds, used) && k <= |used|
    ensures |bounds| == |used| + 1
    ensures bounds[k] - SizeBefore(mem, bounds[k]) == bounds[if k == 0 then 0 else k - 1]
    ensures k > 0 ==> bounds[k - 1] < bounds[k] && (InUse(mem, bounds[k - 1]) <==> used[k - 1])
  {
    assert k > 0 ==> BlockOk(mem, bounds, used, k - 1);
  }

  // A use bit changes.
  lemma TiledAfterClear(mem: Memory, start: nat, bounds: seq<nat>, used: seq<bool>, i: nat)
    requires Tiled(mem, start, bounds, used) && i < |used|
    ensures Tiled(ClearUse(mem, bounds[i]), start, bounds, used[i := false])
  {
    var mem' := ClearUse(mem, bounds[i]);
    forall j | 0 <= j <= |used|
      ensures SizeBefore(mem', bounds[j]) == SizeBefore(mem, bounds[j])
      ensures InUse(mem', bounds[j]) <==> InUse(mem, bounds[j]) && j != i
    {
      if j < i {
        BoundsGrow(mem, start, bounds, used, j, i);
      } else if i < j {
        BoundsGrow(mem, start, bounds, used, i, j);
      }
    }
    hide ClearUse, SizeBefore, InUse;
    var used' := used[i := false];
    forall j | 0 <= j < |used| ensures BlockOk(mem', bounds, used', j) {
      assert BlockOk(mem, bounds, used, j);
    }
  }

  // Dropping a free tail.
  lemma TiledAfterDrop(mem: Memory, start: nat, bounds: seq<nat>, used: seq<bool>, n: nat)
    requires Tiled(mem, start, bounds, used) && n <= |used| && (n < |used| ==> !used[n])
    ensures Tiled(mem, start, bounds[..n + 1], used[..n])
  {
    hide SizeBefore, InUse;
    assert n < |used| ==> BlockOk(mem, bounds, used, n);
    var bounds', used' := bounds[..n + 1], used[..n];
    forall j | 0 <= j < n ensures BlockOk(mem, bounds', used', j) {
      assert BlockOk(mem, bounds, used, j);
    }
  }

  // The words after a new block of the given size: two change.
  function Appended(mem: Memory, end: nat, size: nat): Memory {
    SetUse(mem[end + size := size], end)
  }

  lemma WordsAfterNew(mem: Memory, end: nat, size: nat, x: nat)
    requires size >= WORD && size % 2 == 0 && x <= end + size
    ensures SizeBefore(Appended(mem, end, size), x) == if x == end + size then size else SizeBefore(mem, x)
    ensures InUse(Appended(mem, end, size), x) <==> x == end || (x != end + size && InUse(mem, x))
  {
  }

  lemma TiledAfterNew(mem: Memory, start: nat, bounds: seq<nat>, used: seq<bool>, size: nat)
    requires Tiled(mem, start, bounds, used) && size >= WORD && size % 2 == 0
    ensures Tiled(Appended(mem, bounds[|used|], size), start, bounds + [bounds[|used|] + size], used + [true])
  {
    hide Appended, SizeBefore, InUse;
    var end := bounds[|used|];
    forall j | 0 <= j < |used| ensures bounds[j] < end {
      BoundsGrow(mem, start, bounds, used, j, |used|);
    }
    forall j | 0 <= j <= |used|
      ensures SizeBefore(Appended(mem, end, size), bounds[j]) == SizeBefore(mem, bounds[j])
      ensures InUse(Appended(mem, end, size), bounds[j]) <==> j == |used| || InUse(mem, bounds[j])
    {
      WordsAfterNew(mem, end, size, bounds[j]);
    }
    WordsAfterNew(mem, end, size, end + size);
    var mem', bounds', used' := Appended(mem, end, size), bounds + [end + size], used + [true];
    forall j | 0 <= j < |used'| ensures BlockOk(mem', bounds', used', j) {
      assert j < |used| ==> BlockOk(mem, bounds, used, j);
    }
  }

  // ----- collapsing -----

  // The number of blocks that remain when the free tail is dropped.
  function Kept(used: seq<bool>): (n: nat)
    ensures n <= |used| && (n > 0 ==> used[n - 1]) && forall i :: n <= i < |used| ==> !used[i]
  {
    if used == [] then 0 else if used[|used| - 1] then |used| else Kept(used[..|used| - 1])
  }

  lemma KeptIs(used: seq<bool>, n: nat)
    requires n <= |used| && (n > 0 ==> used[n - 1]) && forall i :: n <= i < |used| ==> !used[i]
    ensures Kept(used) == n
  {
  }

  class XallocHeap {
    const start: nat
    const arenaSize: nat
    var end: nat
    // 0 when there is no block.
    var last: nat
    var mem: Memory
    ghost var bounds: seq<nat>
    ghost var used: seq<bool>

    // The blocks tile the arena from its start, and the last one is in use. The end
    // is where they end, or past the arena after a request that failed.
    ghost predicate Valid()
      reads this
    {
      && Tiled(mem, start, bounds, used)
      && (used != [] ==> used[|used| - 1])
      && last == (if used == [] then 0 else bounds[|used| - 1])
      && (end == bounds[|used|] || Stuck())
    }

    ghost predicate Stuck()
      reads this`end
    {
      end > start + arenaSize
    }

    ghost predicate InArena()
      reads this`bounds
    {
      bounds != [] && bounds[|bounds| - 1] <= start + arenaSize
    }

    constructor (start: nat, arenaSize: nat)
      ensures Valid() && this.start == start && this.arenaSize == arenaSize && used == [] && end == start + WORD
      ensures arenaSize >= WORD ==> InArena()
    {
      this.start, this.arenaSize := start, arenaSize;
      end, last, mem := start + WORD, 0, map[start + WORD := 0];
      bounds, used := [start + WORD], [];
    }

    // A new block at the end. It stays in the arena exactly when the rounded block
    // fits. A request that fails still moves the end, and then every request fails
    // until the last block is freed.
    method Malloc(size: nat) returns (p: nat)
      requires Valid()
      modifies this
      ensures Valid()
      ensures p == 0 <==> old(end) + size >= start + arenaSize
      ensures p == 0 ==> Stuck() && mem == old(mem) && bounds == old(bounds) && used == old(used)
      ensures old(Stuck()) ==> p == 0
      ensures p != 0 ==>
        && p == old(end) && bounds == old(bounds) + [p + Align(size + WORD)] && used == old(used) + [true]
        && p + size <= end - WORD && (InArena() <==> p + Align(size + WORD) <= start + arenaSize)
    {
      hide Tiled, SetUse, SizeBefore, InUse;
      var oldEnd := end;
      end := end + Align(size + WORD);
      if oldEnd + size >= start + arenaSize {
        return 0;
      }
      AlignIsEven(size + WORD);
      TiledAfterNew(mem, start, bounds, used, Align(size + WORD));
      BoundsAbove(mem, start, bounds, used);
      ghost var before := mem;
      mem := mem[end := end - oldEnd];
      mem := SetUse(mem, oldEnd);
      assert mem == Appended(before, oldEnd, end - oldEnd);
      last := oldEnd;
      p := oldEnd;
      bounds, used := bounds + [end], used + [true];
    }

    // The block becomes free; when it was the last one, the whole free tail goes.
    method Free(ptr: nat, ghost i: nat)
      requires Valid() && i < |used| && used[i] && ptr == bounds[i]
      modifies this
      ensures Valid()
      ensures var rest := old(used)[i := false];
        if i < |rest| - 1 then used == rest && bounds == old(bounds) && end == old(end)
        else used == rest[..Kept(rest)] && bounds == old(bounds)[..Kept(rest) + 1] && end == bounds[|used|]
    {
      hide Tiled, Kept, SizeBefore, InUse, ClearUse;
      TiledAfterClear(mem, start, bounds, used, i);
      ghost var n := |used|;
      if i < n - 1 {
        BoundsGrow(mem, start, bounds, used, i, n - 1);
      }
      BoundsAbove(mem, start, bounds, used);
      PreviousBlock(mem, start, bounds, used, 0);
      mem := ClearUse(mem, ptr);
      used := used[i := false];
      if ptr == last {
        Collapse(ptr, i);
      }
    }

    // Walks back from a free last block to the last one in use.
    method Collapse(ptr: nat, ghost i: nat)
      requires Tiled(mem, start, bounds, used) && |bounds| == |used| + 1
      requires |used| == i + 1 && !used[i] && ptr == bounds[i]
      modifies this`end, this`last, this`bounds, this`used
      ensures Tiled(mem, start, bounds, used) && |bounds| == |used| + 1 && end == bounds[|used|]
      ensures used == old(used)[..Kept(old(used))] && bounds == old(bounds)[..Kept(old(used)) + 1]
      ensures last == if used == [] then 0 else bounds[|used| - 1]
    {
      var p := ptr;
      ghost var k := i;
      hide Tiled, Kept, SizeBefore, InUse;
      while true
        invariant bounds == old(bounds) && used == old(used) && 0 <= k <= i && p == bounds[k]
        invariant forall j :: k <= j <= i ==> !used[j]
        decreases k
      {
        PreviousBlock(mem, start, bounds, used, k);
        var q := p - SizeBefore(mem, p);
        if q == p {
          last := 0;
          end := p;
          break;
        }
        if InUse(mem, q) {
          last := q;
          end := p;
          break;
        }
        p := q;
        k := k - 1;
      }
      KeptIs(used, k);
      TiledAfterDrop(mem, start, bounds, used, k);
      bounds, used := bounds[..k + 1], used[..k];
    }
  }

  lemma BoundsAbove(mem: Memory, start: nat, bounds: seq<nat>, used: seq<bool>)
    requires Tiled(mem, start, bounds, used)
    ensures |bounds| == |used| + 1 && forall i :: 0 <= i <= |used| ==> bounds[i] > start
  {
    forall i | 0 < i <= |used| ensures bounds[i] > start {
      BoundsGrow(mem, start, bounds, used, 0, i);
    }
  }

  // A request that passes the check although its rounded block does not fit.
  method OverrunExample() returns (heap: XallocHeap, p: nat)
    ensures heap.start == 1000 && heap.arenaSize == 64 && p != 0 && !heap.InArena()
  {
    heap := new XallocHeap(1000, 64);
    p := heap.Malloc(55);
  }

  // One request that is too large ends an empty heap: every later request fails.
  method DeadEndExample(sizes: seq<nat>) returns (ps: seq<nat>)
    ensures |ps| == |sizes| && forall i :: 0 <= i < |ps| ==> ps[i] == 0
  {
    var heap := new XallocHeap(1000, 64);
    var p := heap.Malloc(64);
    ps := [];
    while |ps| < |sizes|
      invariant |ps| <= |sizes| && heap.Valid() && heap.Stuck() && fresh(heap)
      invariant forall i :: 0 <= i < |ps| ==> ps[i] == 0
    {
      p := heap.Malloc(sizes[|ps|]);
      ps := ps + [p];
    }
  }
}
