// The bitmap that summarises which bins may hold something (segheap.h), in words
// of 32 bits.

module BinMap {

  const BITS := 32

  // The word whose only bit is bit j; no bit at all for j == 32.
  function BitAt(j: nat): bv32
    requires j <= BITS
  {
    if j == 0 then 1 else Next(BitAt(j - 1))
  }

  // The operations on words.

  predicate Meet(a: bv32, b: bv32) {
    a & b != 0
  }

  function Or(a: bv32, b: bv32): bv32 {
    a | b
  }

  function Without(a: bv32, b: bv32): bv32 {
    a & !b
  }

  function Next(b: bv32): bv32 {
    b << 1
  }

  predicate Exceeds(a: bv32, b: bv32) {
    a > b
  }

  // ----- single bits -----

  predicate OneHot(b: bv32) {
    b != 0 && b & (b - 1) == 0
  }

  lemma DoubleOneHot(b: bv32)
    requires OneHot(b)
    ensures b << 1 == 0 || (OneHot(b << 1) && b < b << 1)
  {
  }

  lemma {:induction false} BitUp(j: nat, k: nat)
    requires j <= k <= BITS && BitAt(j) == 0
    ensures BitAt(k) == 0
  {
    if j < k {
      BitUp(j, k - 1);
    }
  }

  lemma LastBits()
    ensures BitAt(31) == 0x8000_0000 && BitAt(32) == 0
  {
    assert BitAt(8) == 0x100;
    assert BitAt(16) == 0x1_0000;
    assert BitAt(24) == 0x100_0000;
    assert BitAt(31) == 0x8000_0000;
  }

  lemma {:induction false} BitIsOneHot(j: nat)
    requires j < BITS
    ensures OneHot(BitAt(j))
  {
    if j > 0 {
      BitIsOneHot(j - 1);
      DoubleOneHot(BitAt(j - 1));
      if BitAt(j) == 0 {
        BitUp(j, 31);
        LastBits();
      }
    }
  }

  lemma OneHotAbove(b: bv32, w: bv32)
    requires OneHot(b) && w < b
    ensures !Meet(w, b)
  {
  }

  // A word below bit j has no bit from j on.
  lemma {:induction false} BelowBit(w: bv32, j: nat, k: nat)
    requires j <= k < BITS && w < BitAt(j)
    ensures !Meet(w, BitAt(k)) && w < BitAt(k)
  {
    BitIsOneHot(k);
    if j < k {
      BelowBit(w, j, k - 1);
      BitIsOneHot(k - 1);
      DoubleOneHot(BitAt(k - 1));
    }
    OneHotAbove(BitAt(k), w);
  }

  lemma BitsApart(j: nat, k: nat)
    requires j < k < BITS
    ensures !Meet(BitAt(j), BitAt(k))
  {
    BitIsOneHot(j);
    BitIsOneHot(j + 1);
    DoubleOneHot(BitAt(j));
    BelowBit(BitAt(j), j + 1, k);
  }

  lemma OrBit(w: bv32, a: bv32, b: bv32)
    requires !Meet(a, b)
    ensures Meet(Or(w, a), b) <==> Meet(w, b)
  {
  }

  lemma OrSame(w: bv32, a: bv32)
    requires OneHot(a)
    ensures Meet(Or(w, a), a)
  {
  }

  lemma WithoutBit(w: bv32, a: bv32, b: bv32)
    requires !Meet(a, b)
    ensures Meet(Without(w, a), b) <==> Meet(w, b)
  {
  }

  lemma WithoutSame(w: bv32, a: bv32)
    ensures !Meet(Without(w, a), a)
  {
  }

  lemma MeetSwap(a: bv32, b: bv32)
    ensures Meet(a, b) <==> Meet(b, a)
  {
  }

  lemma DistinctBits(j: nat, k: nat)
    requires j < BITS && k < BITS && j != k
    ensures !Meet(BitAt(j), BitAt(k))
  {
    if j < k {
      BitsApart(j, k);
    } else {
      BitsApart(k, j);
      hide *;
      MeetSwap(BitAt(k), BitAt(j));
    }
  }

  // ----- the map -----

  predicate BitSet(words: seq<bv32>, i: nat)
    requires i / BITS < |words|
  {
    Meet(words[i / BITS], BitAt(i % BITS))
  }

  function Marked(words: seq<bv32>, i: nat): seq<bv32>
    requires i / BITS < |words|
  {
    words[i / BITS := Or(words[i / BITS], BitAt(i % BITS))]
  }

  function Unmarked(words: seq<bv32>, i: nat): seq<bv32>
    requires i / BITS < |words|
  {
    words[i / BITS := Without(words[i / BITS], BitAt(i % BITS))]
  }

  // Marking sets one bit and no other.
  lemma MarkedBits(words: seq<bv32>, i: nat, k: nat)
    requires i / BITS < |words| && k / BITS < |words|
    ensures BitSet(Marked(words, i), k) <==> k == i || BitSet(words, k)
  {
    hide Meet, Or, BitAt, OneHot;
    if i % BITS == k % BITS {
      BitIsOneHot(i % BITS);
      OrSame(words[i / BITS], BitAt(i % BITS));
    } else {
      DistinctBits(i % BITS, k % BITS);
      OrBit(words[i / BITS], BitAt(i % BITS), BitAt(k % BITS));
    }
  }

  // Unmarking clears one bit and no other.
  lemma UnmarkedBits(words: seq<bv32>, i: nat, k: nat)
    requires i / BITS < |words| && k / BITS < |words|
    ensures BitSet(Unmarked(words, i), k) <==> k != i && BitSet(words, k)
  {
    hide Meet, Without, BitAt;
    if i % BITS == k % BITS {
      WithoutSame(words[i / BITS], BitAt(i % BITS));
    } else {
      DistinctBits(i % BITS, k % BITS);
      WithoutBit(words[i / BITS], BitAt(i % BITS), BitAt(k % BITS));
    }
  }

  // ----- scanning a word -----

  lemma BitIsZero(j: nat)
    requires j <= BITS
    ensures BitAt(j) == 0 <==> j == BITS
  {
    LastBits();
    if j < BITS {
      BitIsOneHot(j);
    }
  }

  // No bit from j on, when bit j exceeds the word or has left it.
  lemma NothingAbove(w: bv32, j: nat, k: nat)
    requires j <= k < BITS && Exceeds(BitAt(j), w)
    ensures !Meet(w, BitAt(k))
  {
    BelowBit(w, j, k);
  }

  lemma EmptyWord(b: bv32)
    ensures !Meet(0, b)
  {
  }

  // As long as the word reaches up to bit j and bit j is clear, it reaches up to
  // bit j + 1.
  lemma KeepsReaching(w: bv32, j: nat)
    requires j < BITS && !Exceeds(BitAt(j), w) && !Meet(BitAt(j), w)
    ensures j + 1 < BITS && !Exceeds(BitAt(j + 1), w)
  {
    BitIsOneHot(j);
    LastBits();
    TwiceReaches(w, BitAt(j));
    BitIsZero(j + 1);
  }

  lemma TwiceReaches(w: bv32, b: bv32)
    requires OneHot(b) && !Exceeds(b, w) && !Meet(b, w)
    ensures Next(b) != 0 && !Exceeds(Next(b), w)
  {
  }

  lemma FirstBitReaches(w: bv32)
    requires w != 0
    ensures !Exceeds(BitAt(0), w)
  {
  }
}
