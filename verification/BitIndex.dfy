// Finding single bits in a word (util/bitindex.h).

module BitIndex {
  import opened BinMap

  lemma BitValues()
    ensures BitAt(0) == 0x1 && BitAt(1) == 0x2 && BitAt(2) == 0x4 && BitAt(3) == 0x8
    ensures BitAt(4) == 0x10 && BitAt(5) == 0x20 && BitAt(6) == 0x40 && BitAt(7) == 0x80
    ensures BitAt(8) == 0x100 && BitAt(9) == 0x200 && BitAt(10) == 0x400 && BitAt(11) == 0x800
    ensures BitAt(12) == 0x1000 && BitAt(13) == 0x2000 && BitAt(14) == 0x4000 && BitAt(15) == 0x8000
    ensures BitAt(16) == 0x10000 && BitAt(17) == 0x20000 && BitAt(18) == 0x40000 && BitAt(19) == 0x80000
    ensures BitAt(20) == 0x100000 && BitAt(21) == 0x200000 && BitAt(22) == 0x400000 && BitAt(23) == 0x800000
    ensures BitAt(24) == 0x1000000 && BitAt(25) == 0x2000000 && BitAt(26) == 0x4000000 && BitAt(27) == 0x8000000
    ensures BitAt(28) == 0x10000000 && BitAt(29) == 0x20000000 && BitAt(30) == 0x40000000 && BitAt(31) == 0x80000000
  {
  }

  // The logarithm table for words below 16.
  function LgTable(b: bv32): nat {
    if b >= 8 then 3 else if b >= 4 then 2 else if b >= 2 then 1 else 0
  }

  // The most significant bit: halves the range three times and looks the rest up.
  function Msb(word: bv32): nat {
    var (l1, b1) := if word >= 65536 then (16, word >> 16) else (0, word);
    var (l2, b2) := if b1 >= 256 then (l1 + 8, b1 >> 8) else (l1, b1);
    var (l3, b3) := if b2 >= 16 then (l2 + 4, b2 >> 4) else (l2, b2);
    l3 + LgTable(b3)
  }

  lemma MsbOfOneHot(word: bv32)
    ensures Msb(word) < BITS && (OneHot(word) ==> word == BitAt(Msb(word)))
  {
    BitValues();
  }

  lemma MsbReaches(word: bv32)
    requires word != 0
    ensures Msb(word) < BITS && !Exceeds(BitAt(Msb(word)), word)
    ensures Msb(word) + 1 < BITS ==> Exceeds(BitAt(Msb(word) + 1), word)
  {
    BitValues();
  }

  // The index found for any word is that of its highest bit.
  lemma MsbIsHighest(word: bv32)
    requires word != 0
    ensures Msb(word) < BITS && Meet(word, BitAt(Msb(word)))
    ensures forall k: nat :: Msb(word) < k < BITS ==> !Meet(word, BitAt(k))
  {
    MsbReaches(word);
    hide Msb, Meet, BitAt, Exceeds;
    var l := Msb(word);
    forall k: nat | l < k < BITS ensures !Meet(word, BitAt(k)) {
      NothingAbove(word, l + 1, k);
    }
    if !Meet(word, BitAt(l)) {
      MeetSwap(word, BitAt(l));
      KeepsReaching(word, l);
    }
  }

  // The lowest bit that a word does not have.
  function LowestClear(word: bv32): bv32 {
    !word & (0 - !word)
  }

  lemma LowestClearIsClear(word: bv32)
    requires word != 0xFFFF_FFFF
    ensures OneHot(LowestClear(word)) && !Meet(word, LowestClear(word))
  {
  }

  lemma BelowLowestClear(word: bv32, b: bv32)
    requires word != 0xFFFF_FFFF && OneHot(b) && Exceeds(LowestClear(word), b)
    ensures Meet(word, b)
  {
  }

  lemma {:induction false} HigherBitExceeds(j: nat, k: nat)
    requires k < j < BITS
    ensures Exceeds(BitAt(j), BitAt(k))
  {
    BitIsOneHot(j - 1);
    BitIsOneHot(j);
    DoubleOneHot(BitAt(j - 1));
    if k < j - 1 {
      HigherBitExceeds(j - 1, k);
    }
  }

  // The index that is found: the lowest bit that the word does not have.
  lemma LowestClearIndex(word: bv32)
    requires word != 0xFFFF_FFFF
    ensures Msb(LowestClear(word)) < BITS && LowestClear(word) == BitAt(Msb(LowestClear(word)))
    ensures !Meet(word, BitAt(Msb(LowestClear(word))))
    ensures forall k :: 0 <= k < Msb(LowestClear(word)) ==> Meet(word, BitAt(k))
  {
    MsbOfOneHot(LowestClear(word));
    LowestClearIsClear(word);
    hide Msb, LowestClear, Meet, Exceeds, BitAt;
    forall k | 0 <= k < Msb(LowestClear(word)) ensures Meet(word, BitAt(k)) {
      HigherBitExceeds(Msb(LowestClear(word)), k);
      BitIsOneHot(k);
      BelowLowestClear(word, BitAt(k));
    }
  }
}
