// The bookkeeping of a loose slot heap, on values: how many slots of every
// held chunk are in use, which chunk malloc may take a slot from, which chunk
// free gives back to the super heap, and how much memory that leaves idle.

module LooseSlotSpec {
  import opened Alignment
  import opened Arithmetic
  import opened MapSum

  // The template parameters as the code uses them: slots per chunk, the
  // emptiness fraction, and 2 * chunkSize / slotSize, the idle slots that are
  // always tolerated.
  datatype Shape = Shape(slots: nat, fraction: nat, slack: nat) {
    predicate Valid() {
      0 < slots && 0 < fraction && slots <= slack
    }
  }

  function Div(a: nat, b: nat): (q: nat)
    requires 0 < b
    ensures q == Quotient(a, b)
  {
    QuotientIsDivision(a, b);
    a / b
  }

  const CHUNK_HEADER := 40
  const SLOT_TAG := 16

  // The shape a heap gets from its template parameters: behind the chunk's own
  // fields lie slots, each with a tag in front.
  function ShapeOf(chunkSize: nat, slotSize: nat, fraction: nat): Shape
    requires CHUNK_HEADER <= chunkSize && 0 < slotSize
  {
    Shape(Div(chunkSize - CHUNK_HEADER, Align(SLOT_TAG + slotSize)), fraction, Div(2 * chunkSize, slotSize))
  }

  // A slot and its tag take the next multiple of eight. As many fit behind the chunk's
  // fields as the shape says, and one more does not; and so for the slack.
  lemma ShapeOfFits(chunkSize: nat, slotSize: nat, fraction: nat, block: nat)
    requires CHUNK_HEADER <= chunkSize && 0 < slotSize
    requires SLOT_TAG + slotSize <= block < SLOT_TAG + slotSize + 8 && block % 8 == 0
    ensures var p := ShapeOf(chunkSize, slotSize, fraction);
      && p.fraction == fraction
      && CHUNK_HEADER + p.slots * block <= chunkSize < CHUNK_HEADER + (p.slots + 1) * block
      && p.slack * slotSize <= 2 * chunkSize < (p.slack + 1) * slotSize
  {
    hide Align;
    assert Align(SLOT_TAG + slotSize) == block;
    Brackets(chunkSize - CHUNK_HEADER, block);
    Brackets(2 * chunkSize, slotSize);
  }

  // The slots of a chunk always fit into the slack.
  lemma ShapeOfIsValid(chunkSize: nat, slotSize: nat, fraction: nat)
    requires CHUNK_HEADER <= chunkSize && 0 < slotSize && 0 < fraction
    ensures ShapeOf(chunkSize, slotSize, fraction).Valid() <==> CHUNK_HEADER + Align(SLOT_TAG + slotSize) <= chunkSize
    ensures ShapeOf(chunkSize, slotSize, fraction).slots <= ShapeOf(chunkSize, slotSize, fraction).slack
  {
    hide Align, Div;
    var room, block := chunkSize - CHUNK_HEADER, Align(SLOT_TAG + slotSize);
    var n := Quotient(room, block);
    QuotientBelow(room, block, n);
    QuotientBelow(2 * chunkSize, slotSize, n);
    TimesMonotone(n, slotSize, block);
  }

  // Slots in use in every chunk the heap holds.
  type Book<!K> = map<K, nat>

  ghost predicate WithinChunks<K>(p: Shape, b: Book<K>) {
    forall k :: k in b ==> b[k] <= p.slots
  }

  ghost function Space<K>(p: Shape, b: Book<K>): int { Times(|b|, p.slots) }

  ghost function Idle<K>(p: Shape, b: Book<K>): int { Space(p, b) - Total(b) }

  // Positive exactly when more than 1/fraction of the memory is idle.
  ghost function Excess<K>(p: Shape, b: Book<K>): int {
    Times(p.fraction, Idle(p, b)) - Space(p, b)
  }

  // What one chunk adds to the excess.
  function Share(p: Shape, used: nat): int
    requires used <= p.slots
  {
    Times(p.fraction, p.slots - used) - p.slots
  }

  // Index of the list that holds a chunk with this many slots in use.
  function Fullness(p: Shape, used: nat): nat
    requires p.Valid()
  {
    TimesAtMost(0, p.fraction, used);
    Quotient(Times(p.fraction, used), p.slots)
  }

  // Too much memory lies idle: free must give a chunk back.
  ghost predicate MustReturn<K>(p: Shape, b: Book<K>) {
    Idle(p, b) > p.slack && Excess(p, b) > 0
  }

  ghost predicate HasRoom<K>(p: Shape, b: Book<K>) {
    exists j :: j in b && b[j] < p.slots
  }

  ghost predicate MallocStep<K>(p: Shape, b: Book<K>, b': Book<K>, k: K)
    requires p.Valid()
  {
    if HasRoom(p, b) then
      && k in b && b[k] < p.slots
      && (forall j :: j in b && b[j] < p.slots ==> Fullness(p, b[j]) <= Fullness(p, b[k]))
      && b' == b[k := b[k] + 1]
    else
      k !in b && b' == b[k := 1]
  }

  ghost predicate Emptiest<K>(p: Shape, b: Book<K>, v: K)
    requires p.Valid()
  {
    v in b && forall j :: j in b ==> Fullness(p, b[v]) <= Fullness(p, b[j])
  }

  // v is the chunk given back, if any is.
  ghost predicate FreeStep<K>(p: Shape, b: Book<K>, b': Book<K>, k: K, v: K)
    requires p.Valid()
  {
    && k in b && 0 < b[k]
    && var b1 := b[k := b[k] - 1];
       if MustReturn(p, b1) then Emptiest(p, b1, v) && b' == b1 - {v} else b' == b1
  }

  // ----- the fullness index -----

  // A chunk is on list i exactly when its slots in use are at least i and less than
  // i + 1 of the fraction.
  lemma FullnessIs(p: Shape, used: nat, i: nat)
    requires p.Valid()
    ensures Fullness(p, used) == i <==> i * p.slots <= p.fraction * used < (i + 1) * p.slots
  {
    hide Fullness;
    FullnessAbove(p, used, i);
  }

  // Malloc's choice in slot counts: with f the list of the chunk it takes from, no
  // chunk with room is on a higher one.
  lemma TakesFullest<K>(p: Shape, b: Book<K>, b': Book<K>, k: K, f: nat)
    requires p.Valid() && MallocStep(p, b, b', k) && k in b
    requires f * p.slots <= p.fraction * b[k] < (f + 1) * p.slots
    ensures forall j :: j in b && b[j] < p.slots ==> p.fraction * b[j] < (f + 1) * p.slots
  {
    FullnessIs(p, b[k], f);
    hide Fullness;
    forall j | j in b && b[j] < p.slots ensures p.fraction * b[j] < (f + 1) * p.slots {
      FullnessAbove(p, b[j], f);
    }
  }

  // The mirror image for the chunk that free gives back.
  lemma ReturnsEmptiest<K>(p: Shape, b: Book<K>, v: K, f: nat)
    requires p.Valid() && Emptiest(p, b, v)
    requires f * p.slots <= p.fraction * b[v] < (f + 1) * p.slots
    ensures forall j :: j in b ==> f * p.slots <= p.fraction * b[j]
  {
    FullnessIs(p, b[v], f);
    hide Fullness;
    forall j | j in b ensures f * p.slots <= p.fraction * b[j] {
      FullnessAbove(p, b[j], f);
    }
  }

  lemma MallocInCounts<K>(p: Shape, b: Book<K>, b': Book<K>, k: K)
    requires p.Valid() && WithinChunks(p, b) && MallocStep(p, b, b', k)
    ensures b' == b[k := if k in b then b[k] + 1 else 1]
    ensures k !in b ==> forall j :: j in b ==> b[j] == p.slots
    ensures k in b ==> b[k] < p.slots
    ensures k in b ==>
      var f := p.fraction * b[k] / p.slots; forall j :: j in b && b[j] < p.slots ==>
        p.fraction * b[j] < (f + 1) * p.slots
  {
    hide Fullness;
    if k in b {
      FullnessBrackets(p, b[k]);
      TakesFullest(p, b, b', k, p.fraction * b[k] / p.slots);
    }
  }

  lemma ReturnInCounts<K>(p: Shape, b: Book<K>, v: K)
    requires p.Valid() && Emptiest(p, b, v)
    ensures var f := p.fraction * b[v] / p.slots; forall j :: j in b ==> f * p.slots <= p.fraction * b[j]
  {
    hide Fullness;
    FullnessBrackets(p, b[v]);
    ReturnsEmptiest(p, b, v, p.fraction * b[v] / p.slots);
  }

  lemma FullnessBrackets(p: Shape, used: nat)
    requires p.Valid()
    ensures 0 <= p.fraction * used / p.slots
    ensures var f := p.fraction * used / p.slots; f * p.slots <= p.fraction * used < (f + 1) * p.slots
  {
    TimesAtMost(0, p.fraction, used);
    TimesIsProduct(p.fraction, used);
    hide Times;
    Brackets(p.fraction * used, p.slots);
  }

  lemma FullnessAbove(p: Shape, used: nat, f: nat)
    requires p.Valid()
    ensures Fullness(p, used) <= f <==> p.fraction * used < (f + 1) * p.slots
    ensures f <= Fullness(p, used) <==> f * p.slots <= p.fraction * used
  {
    TimesAtMost(0, p.fraction, used);
    var a := Times(p.fraction, used);
    QuotientBelow(a, p.slots, f);
    QuotientBelow(a, p.slots, f + 1);
    TimesIsProduct(f, p.slots);
    TimesIsProduct(f + 1, p.slots);
    TimesIsProduct(p.fraction, used);
    hide Times, Quotient;
  }

  lemma FullnessOfFull(p: Shape, used: nat)
    requires p.Valid() && used <= p.slots
    ensures Fullness(p, used) <= p.fraction
    ensures Fullness(p, used) == p.fraction <==> used == p.slots
  {
    TimesAtMost(0, p.fraction, used);
    QuotientBelow(Times(p.fraction, used), p.slots, p.fraction);
    QuotientBelow(Times(p.fraction, used), p.slots, p.fraction + 1);
    TimesSum(p.fraction, used, p.slots - used);
    TimesOne(p.fraction);
    if used < p.slots {
      TimesMonotone(p.fraction, 1, p.slots - used);
    }
  }

  lemma FullnessMonotone(p: Shape, u: nat, v: nat)
    requires p.Valid() && u <= v
    ensures Fullness(p, u) <= Fullness(p, v)
  {
    TimesAtMost(0, p.fraction, u);
    TimesMonotone(p.fraction, u, v);
    QuotientBelow(Times(p.fraction, v), p.slots, Fullness(p, v) + 1);
    QuotientBelow(Times(p.fraction, u), p.slots, Fullness(p, v) + 1);
  }

  // A chunk is more than 1/fraction empty exactly when it sits below the last
  // list of chunks with room.
  lemma EmptyEnough(p: Shape, used: nat)
    requires p.Valid() && used <= p.slots
    ensures Share(p, used) > 0 <==> Fullness(p, used) + 1 < p.fraction
  {
    TimesAtMost(0, p.fraction, used);
    QuotientBelow(Times(p.fraction, used), p.slots, p.fraction - 1);
    TimesSum(p.fraction, used, p.slots - used);
  }

  // ----- what an operation does to the idle memory -----

  lemma AfterChange<K>(p: Shape, b: Book<K>, k: K, u: nat)
    requires WithinChunks(p, b) && k in b && u <= p.slots
    ensures WithinChunks(p, b[k := u])
    ensures Space(p, b[k := u]) == Space(p, b)
    ensures Idle(p, b[k := u]) == Idle(p, b) + b[k] - u
    ensures Excess(p, b[k := u]) == Excess(p, b) + Times(p.fraction, b[k] - u)
  {
    TotalSet(b, k, u);
    assert b[k := u].Keys == b.Keys;
    assert |b[k := u].Keys| == |b.Keys|;
    TimesSum(p.fraction, Idle(p, b), b[k] - u);
  }

  // A chunk fresh from the super heap with one slot taken.
  lemma AfterFirst<K>(p: Shape, b: Book<K>, k: K)
    requires k !in b
    ensures Idle(p, b[k := 1]) == Idle(p, b) + p.slots - 1
    ensures Space(p, b[k := 1]) == Space(p, b) + p.slots
  {
    TotalSet(b, k, 1);
    assert b[k := 1].Keys == b.Keys + {k};
    assert |b[k := 1].Keys| == |b.Keys| + 1;
  }

  lemma ExcessWithout<K>(p: Shape, b: Book<K>, v: K)
    requires WithinChunks(p, b) && v in b
    ensures WithinChunks(p, b - {v})
    ensures Space(p, b - {v}) == Space(p, b) - p.slots
    ensures Idle(p, b - {v}) == Idle(p, b) - (p.slots - b[v])
    ensures Excess(p, b - {v}) == Excess(p, b) - Share(p, b[v])
  {
    hide Total, Times, Space;
    TotalAt(b, v);
    SpaceWithout(p, b, v);
    TimesSum(p.fraction, Idle(p, b - {v}), p.slots - b[v]);
  }

  lemma SpaceWith<K>(p: Shape, b: Book<K>, k: K, used: nat)
    ensures Space(p, b[k := used]) == if k in b then Space(p, b) else Space(p, b) + p.slots
  {
    if k in b {
      assert b[k := used].Keys == b.Keys;
    } else {
      assert b[k := used].Keys == b.Keys + {k};
      assert |b[k := used].Keys| == |b.Keys| + 1;
    }
  }

  lemma SpaceWithout<K>(p: Shape, b: Book<K>, v: K)
    requires v in b
    ensures Space(p, b - {v}) == Space(p, b) - p.slots
  {
    assert (b - {v}).Keys == b.Keys - {v};
    assert |b.Keys| == |(b - {v}).Keys| + 1;
  }

  lemma {:induction false} AllFull<K>(p: Shape, b: Book<K>)
    requires WithinChunks(p, b) && !HasRoom(p, b)
    ensures Idle(p, b) == 0
    decreases |b|
  {
    if b.Keys != {} {
      var v :| v in b.Keys;
      ExcessWithout(p, b, v);
      assert (b - {v}).Keys == b.Keys - {v};
      AllFull(p, b - {v});
    }
  }

  // ----- the chunk that is given back -----

  // Pigeonhole: a heap that is more than 1/fraction idle holds a chunk that is.
  lemma {:induction false} SomeChunkIsEmptyEnough<K>(p: Shape, b: Book<K>) returns (v: K)
    requires p.Valid() && WithinChunks(p, b) && Excess(p, b) > 0
    ensures v in b && Share(p, b[v]) > 0
    decreases |b|
  {
    TimesOne(p.fraction);
    v :| v in b.Keys;
    if Share(p, b[v]) <= 0 {
      ExcessWithout(p, b, v);
      assert (b - {v}).Keys == b.Keys - {v};
      v := SomeChunkIsEmptyEnough(p, b - {v});
    }
  }

  // Whatever chunk of the lowest non-empty list is given back, it is more than
  // 1/fraction empty; so it has room, and the search among the lists of chunks
  // with room cannot fail.
  lemma ReturnedChunkIsEmptyEnough<K>(p: Shape, b: Book<K>, v: K)
    requires p.Valid() && WithinChunks(p, b) && Excess(p, b) > 0
    requires Emptiest(p, b, v)
    ensures Times(p.fraction, p.slots - b[v]) > p.slots
    ensures Fullness(p, b[v]) + 1 < p.fraction
  {
    var w := SomeChunkIsEmptyEnough(p, b);
    EmptyEnough(p, b[w]);
    EmptyEnough(p, b[v]);
  }

  // ----- the blowup bound -----

  ghost predicate Bounded<K>(p: Shape, b: Book<K>) {
    Idle(p, b) <= p.slack || Excess(p, b) <= 0
  }

  // The two sides of the code's own test.
  lemma MustReturnIs<K>(p: Shape, b: Book<K>)
    ensures MustReturn(p, b) <==> Idle(p, b) > p.slack && p.fraction * Idle(p, b) > Space(p, b)
  {
    ExcessIsProduct(p, b);
    hide Excess, Space, Idle;
  }

  // The code's own test for giving memory back, in its counters.
  predicate TooIdle(p: Shape, space: int, inUse: int) {
    space - inUse > p.slack && p.fraction * (space - inUse) > space
  }

  lemma MustReturnAt<K>(p: Shape, b: Book<K>, space: int, inUse: int)
    requires space == Space(p, b) && space - inUse == Idle(p, b)
    ensures MustReturn(p, b) <==> TooIdle(p, space, inUse)
  {
    MustReturnIs(p, b);
  }

  lemma ExcessIsProduct<K>(p: Shape, b: Book<K>)
    ensures Excess(p, b) == p.fraction * Idle(p, b) - Space(p, b)
  {
    TimesIsProduct(p.fraction, Idle(p, b));
  }

  lemma MallocKeepsBound<K>(p: Shape, b: Book<K>, b': Book<K>, k: K)
    requires p.Valid() && WithinChunks(p, b) && MallocStep(p, b, b', k)
    requires Bounded(p, b)
    ensures WithinChunks(p, b') && Bounded(p, b')
  {
    if HasRoom(p, b) {
      AfterChange(p, b, k, b[k] + 1);
      TimesOne(p.fraction);
    } else {
      AllFull(p, b);
      AfterFirst(p, b, k);
    }
  }

  lemma {:induction false} DividesAbove(a: nat, n: nat, f: nat, q: nat)
    requires f > 0 && n == Times(q, f) && Times(f, a) > n
    ensures Times(f, a) >= n + f
  {
    TimesSwap(f, a);
    if a <= q {
      TimesAtMost(a, q, f);
    } else {
      TimesAtMost(q + 1, a, f);
    }
  }

  lemma FreeKeepsBound<K>(p: Shape, q: nat, b: Book<K>, b': Book<K>, k: K, v: K)
    requires p.Valid() && p.slots == Times(q, p.fraction)
    requires WithinChunks(p, b) && FreeStep(p, b, b', k, v)
    requires Bounded(p, b)
    ensures WithinChunks(p, b') && Bounded(p, b')
  {
    var b1 := b[k := b[k] - 1];
    AfterChange(p, b, k, b[k] - 1);
    TimesOne(p.fraction);
    if MustReturn(p, b1) {
      ReturnedChunkIsEmptyEnough(p, b1, v);
      ExcessWithout(p, b1, v);
      DividesAbove(p.slots - b1[v], p.slots, p.fraction, q);
    }
  }

  lemma Divides(n: nat, f: nat)
    requires f > 0 && n % f == 0
    ensures n == Times(n / f, f)
  {
    TimesIsProduct(n / f, f);
    hide Times;
  }

  lemma StepsKeepBound<K>(p: Shape, b: Book<K>, b': Book<K>, k: K, v: K)
    requires p.Valid() && WithinChunks(p, b) && Bounded(p, b)
    ensures MallocStep(p, b, b', k) ==> Bounded(p, b')
    ensures FreeStep(p, b, b', k, v) && p.slots % p.fraction == 0 ==> Bounded(p, b')
  {
    hide Bounded, Times, MallocStep, FreeStep, WithinChunks;
    if MallocStep(p, b, b', k) {
      MallocKeepsBound(p, b, b', k);
    }
    if p.slots % p.fraction == 0 {
      Divides(p.slots, p.fraction);
      if FreeStep(p, b, b', k, v) {
        FreeKeepsBound(p, p.slots / p.fraction, b, b', k, v);
      }
    }
  }
}
