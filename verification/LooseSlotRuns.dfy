// Runs of a loose slot heap, and exactly when its memory bound holds over all
// of them: when the emptiness fraction divides the slots of a chunk. Otherwise
// a run that fills enough chunks and then empties them evenly breaks the bound.

module LooseSlotRuns {
  import opened Arithmetic
  import opened LooseSlotSpec

  ghost predicate Step(p: Shape, b: Book<nat>, b': Book<nat>)
    requires p.Valid()
  {
    || (exists k :: MallocStep(p, b, b', k))
    || (exists k, v :: FreeStep(p, b, b', k, v))
  }

  // The books between the operations, from the empty heap on.
  ghost predicate Run(p: Shape, bs: seq<Book<nat>>)
    requires p.Valid()
  {
    && 0 < |bs| && bs[0] == map[]
    && forall i :: 0 <= i < |bs| - 1 ==> Step(p, bs[i], bs[i + 1])
  }

  lemma EmptyIsBounded(p: Shape)
    ensures WithinChunks<nat>(p, map[]) && Bounded<nat>(p, map[])
  {
  }

  lemma {:induction false} DivisibleRunsAreBounded(p: Shape, q: nat, bs: seq<Book<nat>>)
    requires p.Valid() && p.slots == Times(q, p.fraction) && Run(p, bs)
    ensures forall i :: 0 <= i < |bs| ==> WithinChunks(p, bs[i]) && Bounded(p, bs[i])
  {
    hide Step, WithinChunks, Bounded, Times;
    if |bs| == 1 {
      EmptyIsBounded(p);
    } else {
      var front := bs[..|bs| - 1];
      DivisibleRunsAreBounded(p, q, front);
      LastStep(p, bs);
      StepKeepsBound(p, q, bs[|bs| - 2], bs[|bs| - 1]);
    }
  }

  lemma LastStep(p: Shape, bs: seq<Book<nat>>)
    requires p.Valid() && Run(p, bs) && |bs| > 1
    ensures Step(p, bs[|bs| - 2], bs[|bs| - 1])
  {
    var i := |bs| - 2;
    assert Step(p, bs[i], bs[i + 1]);
  }

  lemma StepKeepsBound(p: Shape, q: nat, b: Book<nat>, b': Book<nat>)
    requires p.Valid() && p.slots == Times(q, p.fraction)
    requires Step(p, b, b') && WithinChunks(p, b) && Bounded(p, b)
    ensures WithinChunks(p, b') && Bounded(p, b')
  {
    if k :| MallocStep(p, b, b', k) {
      MallocKeepsBound(p, b, b', k);
    } else {
      var k, v :| FreeStep(p, b, b', k, v);
      FreeKeepsBound(p, q, b, b', k, v);
    }
  }

  // ----- a run that breaks the bound -----

  ghost predicate Reaches(p: Shape, b: Book<nat>)
    requires p.Valid()
  {
    exists bs :: Run(p, bs) && bs[|bs| - 1] == b
  }

  lemma Extend(p: Shape, b: Book<nat>, b': Book<nat>)
    requires p.Valid() && Reaches(p, b) && Step(p, b, b')
    ensures Reaches(p, b')
  {
    var bs :| Run(p, bs) && bs[|bs| - 1] == b;
    var bs' := bs + [b'];
    assert forall i :: 0 <= i < |bs'| - 1 ==> Step(p, bs'[i], bs'[i + 1]);
    assert Run(p, bs') && bs'[|bs'| - 1] == b';
  }

  ghost function Upto(count: nat): (s: set<nat>)
    ensures |s| == count && forall j: nat :: j in s <==> j < count
  {
    if count == 0 then {}
    else
      var below := Upto(count - 1);
      assert count - 1 !in below;
      below + {count - 1}
  }

  ghost function Full(p: Shape, count: nat): Book<nat> {
    map j | j in Upto(count) :: p.slots
  }

  lemma {:induction false} ReachFilling(p: Shape, count: nat, used: nat)
    requires p.Valid() && Reaches(p, Full(p, count)) && 1 <= used <= p.slots
    ensures Reaches(p, Full(p, count)[count := used])
    decreases used
  {
    var full := Full(p, count);
    if used == 1 {
      assert MallocStep(p, full, full[count := 1], count);
      Extend(p, full, full[count := 1]);
    } else {
      ReachFilling(p, count, used - 1);
      var b: Book<nat> := full[count := used - 1];
      var b': Book<nat> := full[count := used];
      assert b[count] < p.slots;
      assert HasRoom(p, b);
      assert forall j :: j in b && b[j] < p.slots ==> j == count;
      assert b' == b[count := b[count] + 1];
      assert MallocStep(p, b, b', count);
      Extend(p, b, b');
    }
  }

  lemma {:induction false} ReachFull(p: Shape, count: nat)
    requires p.Valid()
    ensures Reaches(p, Full(p, count))
  {
    if count == 0 {
      var bs: seq<Book<nat>> := [map[]];
      assert Run(p, bs);
      assert Full(p, 0) == bs[|bs| - 1];
    } else {
      ReachFull(p, count - 1);
      ReachFilling(p, count - 1, p.slots);
      assert Full(p, count) == Full(p, count - 1)[count - 1 := p.slots];
    }
  }

  // The run to build: `count` chunks are filled, then every chunk loses
  // `share` slots and the first `extra` chunks one more, so that `total` slots
  // are idle, exactly 1/fraction of all.
  datatype Plan = Plan(p: Shape, share: nat, extra: nat, count: nat, total: nat) {
    ghost predicate Valid() {
      && p.Valid() && share < p.slots
      && Times(p.fraction, share) < p.slots < Times(p.fraction, share + 1)
      && 0 < extra < count && p.slack + p.slots < total
      && Times(count, share) + extra == total
      && Times(p.fraction, total) == Times(count, p.slots)
    }

    function Emptied(j: nat): nat { share + if j < extra then 1 else 0 }

    // All chunks below i emptied, chunk i down to `used`, the others full.
    ghost function Book(i: nat, used: nat): Book<nat>
      requires share < p.slots
    {
      map j | j in Upto(count) ::
        if j < i then (p.slots - Emptied(j)) as nat else if j == i then used else p.slots
    }

    function Drained(i: nat): int { Times(i, share) + if i < extra then i else extra }
  }

  // With quotient q and remainder r of the slots by the fraction, filling
  // rounds * fraction chunks is enough for any number of rounds past the slack.
  lemma MakePlan(p: Shape) returns (z: Plan)
    requires p.Valid() && p.slots % p.fraction != 0
    ensures z.Valid() && z.p == p
  {
    var f, q, r, rounds := p.fraction, p.slots / p.fraction, p.slots % p.fraction, p.slack + p.slots + 1;
    TimesIsProduct(f, q);
    assert p.slots == Times(f, q) + r;
    TimesOne(f);
    TimesSum(f, q, 1);
    TimesAtMost(2, f, q);
    assert Times(2, q) == Times(1, q) + q;
    TimesAtMost(0, rounds, r);
    TimesAtMost(0, rounds, f);
    TimesAtMost(0, rounds, p.slots);
    z := Plan(p, q, Times(rounds, r), Times(rounds, f), Times(rounds, p.slots));
    TimesOne(rounds);
    TimesMonotone(rounds, 1, r);
    TimesMonotone(rounds, 1, f - r);
    TimesMonotone(rounds, 1, p.slots);
    TimesSum(rounds, r, f - r);
    TimesSum(rounds, Times(f, q), r);
    TimesNested(rounds, f, q);
    TimesNested(rounds, f, p.slots);
    TimesNested(f, rounds, p.slots);
    TimesSwap(f, rounds);
  }

  lemma DrainedGrows(z: Plan, i: nat)
    ensures z.Drained(i + 1) == z.Drained(i) + z.Emptied(i)
  {
  }

  lemma {:induction false} DrainedAtMost(z: Plan, i: nat)
    requires z.Valid() && i <= z.count
    ensures z.Drained(i) <= z.total
    decreases z.count - i
  {
    if i < z.count {
      DrainedGrows(z, i);
      DrainedAtMost(z, i + 1);
    }
  }

  lemma FullIsDraining(z: Plan)
    requires z.Valid()
    ensures z.Book(0, z.p.slots) == Full(z.p, z.count)
    ensures WithinChunks(z.p, Full(z.p, z.count)) && Idle(z.p, Full(z.p, z.count)) == 0
    ensures Space(z.p, Full(z.p, z.count)) == Times(z.count, z.p.slots)
  {
    var b: Book<nat> := Full(z.p, z.count);
    assert b.Keys == Upto(z.count);
    assert |b| == |b.Keys|;
    AllFull(z.p, b);
  }

  // Draining has come to chunk i, which still has `used` slots in use.
  ghost predicate Reached(z: Plan, i: nat, used: nat, b: Book<nat>) {
    && z.Valid() && b == z.Book(i, used)
    && Reaches(z.p, b) && WithinChunks(z.p, b)
    && Space(z.p, b) == Times(z.count, z.p.slots)
    && Idle(z.p, b) == z.Drained(i) + z.p.slots - used
  }

  // As long as no more than 1/fraction of the slots are idle nothing is
  // returned, so every draining state is reached.
  lemma {:induction false} ReachDraining(z: Plan, i: nat, used: nat) returns (b: Book<nat>)
    requires z.Valid() && i < z.count && used <= z.p.slots <= used + z.Emptied(i)
    ensures Reached(z, i, used, b)
    decreases i, z.p.slots - used
  {
    if used < z.p.slots {
      var a := ReachDraining(z, i, used + 1);
      b := DrainOne(z, i, used, a);
    } else if i == 0 {
      ReachFull(z.p, z.count);
      FullIsDraining(z);
      b := z.Book(i, used);
    } else {
      b := ReachDraining(z, i - 1, z.p.slots - z.Emptied(i - 1));
      NextChunk(z, i - 1, b);
    }
  }

  lemma NextChunk(z: Plan, i: nat, b: Book<nat>)
    requires z.Valid() && i < z.count
    requires Reached(z, i, z.p.slots - z.Emptied(i), b)
    ensures Reached(z, i + 1, z.p.slots, b)
  {
    DrainedGrows(z, i);
    assert b == z.Book(i + 1, z.p.slots);
  }

  lemma DrainOne(z: Plan, i: nat, used: nat, a: Book<nat>) returns (b: Book<nat>)
    requires z.Valid() && i < z.count && used < z.p.slots <= used + z.Emptied(i)
    requires Reached(z, i, used + 1, a)
    ensures Reached(z, i, used, b)
  {
    b := z.Book(i, used);
    assert a[i] == used + 1 && b == a[i := used];
    AfterChange(z.p, a, i, used);
    DrainedGrows(z, i);
    DrainedAtMost(z, i + 1);
    DrainQuietly(z.p, z.total, a, i, b);
    Extend(z.p, a, b);
  }

  lemma DrainQuietly(p: Shape, total: nat, a: Book<nat>, i: nat, b: Book<nat>)
    requires p.Valid() && i in a && 0 < a[i] && b == a[i := a[i] - 1]
    requires Idle(p, b) <= total && Times(p.fraction, total) == Space(p, b)
    ensures Step(p, a, b)
  {
    TimesMonotone(p.fraction, Idle(p, b), total);
    assert FreeStep(p, a, b, i, i);
  }

  // The evenly drained heap.
  lemma ReachDrained(z: Plan) returns (b: Book<nat>)
    requires z.Valid()
    ensures Reaches(z.p, b) && WithinChunks(z.p, b) && b.Keys == Upto(z.count)
    ensures forall j :: j in b ==> b[j] == z.p.slots - z.Emptied(j)
    ensures Space(z.p, b) == Times(z.count, z.p.slots) && Idle(z.p, b) == z.total
  {
    var last := z.count - 1;
    b := ReachDraining(z, last, z.p.slots - z.Emptied(last));
    DrainedGrows(z, last);
  }

  // One more free must return a chunk, and whichever chunk of the lowest list
  // that is, too little memory goes with it.
  lemma LastFree(z: Plan, b: Book<nat>, k: nat, b1: Book<nat>)
    requires z.Valid() && WithinChunks(z.p, b) && b.Keys == Upto(z.count)
    requires forall j :: j in b ==> b[j] == z.p.slots - z.Emptied(j)
    requires Space(z.p, b) == Times(z.count, z.p.slots) && Idle(z.p, b) == z.total
    requires k == z.count - 1 && k in b && 0 < b[k] && b1 == b[k := b[k] - 1]
    ensures WithinChunks(z.p, b1) && b1.Keys == Upto(z.count)
    ensures forall j :: j in b1 ==> z.p.slots - b1[j] == z.share || z.p.slots - b1[j] == z.share + 1
    ensures z.p.slots - b1[0] == z.share + 1
    ensures Idle(z.p, b1) == z.total + 1 && Excess(z.p, b1) == z.p.fraction
  {
    AfterChange(z.p, b, k, b[k] - 1);
    TimesOne(z.p.fraction);
  }

  lemma FirstIsEmptiest(z: Plan, b1: Book<nat>)
    requires z.Valid() && 0 in b1 && z.p.slots - b1[0] == z.share + 1
    requires forall j :: j in b1 ==> z.p.slots - b1[j] == z.share || z.p.slots - b1[j] == z.share + 1
    ensures Emptiest(z.p, b1, 0)
  {
    forall j | j in b1 ensures Fullness(z.p, b1[0]) <= Fullness(z.p, b1[j]) {
      FullnessMonotone(z.p, b1[0], b1[j]);
    }
  }

  lemma EmptiestIsTooFull(z: Plan, b1: Book<nat>, v: nat)
    requires z.Valid() && WithinChunks(z.p, b1)
    requires forall j :: j in b1 ==> z.p.slots - b1[j] == z.share || z.p.slots - b1[j] == z.share + 1
    requires Idle(z.p, b1) == z.total + 1 && Excess(z.p, b1) == z.p.fraction
    requires Emptiest(z.p, b1, v)
    ensures !Bounded(z.p, b1 - {v})
  {
    ReturnedChunkIsEmptyEnough(z.p, b1, v);
    assert b1[v] == z.p.slots - z.share - 1;
    ExcessWithout(z.p, b1, v);
    TimesSum(z.p.fraction, z.share, 1);
    TimesOne(z.p.fraction);
  }

  lemma ReturningStep(p: Shape, b: Book<nat>, k: nat, b1: Book<nat>, v: nat)
    requires p.Valid() && k in b && 0 < b[k] && b1 == b[k := b[k] - 1]
    requires MustReturn(p, b1) && Emptiest(p, b1, v)
    ensures Step(p, b, b1 - {v})
  {
    assert FreeStep(p, b, b1 - {v}, k, v);
  }

  lemma BrokenBound(p: Shape) returns (bs: seq<Book<nat>>)
    requires p.Valid() && p.slots % p.fraction != 0
    ensures Run(p, bs) && !Bounded(p, bs[|bs| - 1])
  {
    var z := MakePlan(p);
    var b := ReachDrained(z);
    var k := z.count - 1;
    var b1 := b[k := b[k] - 1];
    LastFree(z, b, k, b1);
    FirstIsEmptiest(z, b1);
    EmptiestIsTooFull(z, b1, 0);
    ReturningStep(p, b, k, b1, 0);
    Extend(p, b, b1 - {0});
    bs :| Run(p, bs) && bs[|bs| - 1] == b1 - {0};
  }

  // The memory bound of looseslotheap.h holds after every operation of every
  // run exactly when the fraction divides the slots per chunk.
  lemma BlowupBoundExactly(p: Shape)
    requires p.Valid()
    ensures (forall bs :: Run(p, bs) ==> Bounded(p, bs[|bs| - 1])) <==> p.slots % p.fraction == 0
  {
    if p.slots % p.fraction == 0 {
      var q := p.slots / p.fraction;
      TimesIsProduct(q, p.fraction);
      forall bs | Run(p, bs) ensures Bounded(p, bs[|bs| - 1]) {
        DivisibleRunsAreBounded(p, q, bs);
      }
    } else {
      var bs := BrokenBound(p);
    }
  }
}
