// Kingsley size classes (kingsleyheap.h): powers of two from 8 bytes up.

module Kingsley {
  import opened Powers

  const NUMBINS := 29
  const CLASSES: seq<nat> := [0, 1, 2, 2, 3, 3, 3, 3, 4, 4, 4, 4, 4, 4, 4, 4]
  const MAX_SIZE := 0x8000_0000

  function Class2Size(i: nat): nat {
    8 * Pow2(i)
  }

  // How often s has to be halved until it is at most 7.
  function Halvings(s: nat): nat {
    if s <= 7 then 0 else 1 + Halvings(s / 2)
  }

  function SizeClass(sz: nat): nat {
    Halvings(if sz < 8 then 7 else sz - 1)
  }

  lemma {:induction false} HalvingsBracket(s: nat)
    ensures s < 8 * Pow2(Halvings(s))
    ensures Halvings(s) > 0 ==> 4 * Pow2(Halvings(s)) <= s
  {
    if s > 7 {
      HalvingsBracket(s / 2);
    }
  }

  // The class size is the least power of two that is at least the size and 8.
  lemma ClassSizeIsLeast(sz: nat, i: nat)
    ensures sz <= Class2Size(SizeClass(sz)) && 8 <= Class2Size(SizeClass(sz))
    ensures sz <= Class2Size(i) ==> Class2Size(SizeClass(sz)) <= Class2Size(i)
  {
    HalvingsBracket(if sz < 8 then 7 else sz - 1);
    Pow2Grows(0, SizeClass(sz));
    if i < SizeClass(sz) {
      Pow2Grows(i, SizeClass(sz));
    } else {
      Pow2Grows(SizeClass(sz), i);
    }
  }

  // A class is the class of its own size, so free finds the bin that malloc used.
  lemma ClassOfClassSize(i: nat)
    ensures SizeClass(Class2Size(i)) == i
  {
    var c := SizeClass(Class2Size(i));
    Pow2Grows(0, i);
    HalvingsBracket(Class2Size(i) - 1);
    if c < i {
      Pow2Grows(c, i);
    } else if i < c {
      Pow2Grows(i, c);
    }
  }

  lemma ClassSizeAtMost(i: nat)
    requires i < NUMBINS
    ensures Class2Size(i) <= MAX_SIZE
  {
    Pow2Grows(i, NUMBINS - 1);
    ClassExists(0);
  }

  // Every size up to the largest has one of the classes.
  lemma ClassExists(sz: nat)
    requires sz <= MAX_SIZE
    ensures SizeClass(sz) < NUMBINS && Class2Size(NUMBINS - 1) == MAX_SIZE
  {
    var c := SizeClass(sz);
    HalvingsBracket(if sz < 8 then 7 else sz - 1);
    assert Pow2(8) == 256 && Pow2(16) == 65536 && Pow2(24) == 0x100_0000 && Pow2(28) == 0x1000_0000;
    if c >= NUMBINS {
      Pow2Grows(28, c);
    }
  }

  // The table for small sizes and the shifting loop for the others compute the class.
  method Size2Class(size: nat) returns (c: nat)
    ensures c == SizeClass(size)
  {
    var sz := size;
    if sz < 8 {
      sz := 8;
    }
    if sz <= 128 {
      TableIsRight((sz - 1) / 8);
      HalvingsOfBlock(sz - 1);
      c := CLASSES[(sz - 1) / 8];
    } else {
      c := 5;
      var sz1 := (sz - 1) / 32;
      ShiftFive(sz - 1);
      while sz1 > 7
        invariant c + Halvings(sz1) == Halvings(sz - 1)
      {
        sz1 := sz1 / 2;
        c := c + 1;
      }
    }
  }

  lemma TableIsRight(index: nat)
    requires index < 16
    ensures |CLASSES| == 16 && CLASSES[index] == Halvings(8 * index)
  {
    assert Halvings(8 * 15) == 4;
    if index >= 8 {
      assert Halvings(8 * index) == 1 + Halvings(4 * index);
      assert Halvings(4 * index) == 1 + Halvings(2 * index);
      assert Halvings(2 * index) == 1 + Halvings(index);
    } else if index >= 4 {
      assert Halvings(8 * index) == 1 + Halvings(4 * index);
      assert Halvings(4 * index) == 1 + Halvings(2 * index);
    }
  }

  // The class does not change within a block of eight.
  lemma HalvingsOfBlock(s: nat)
    requires s < 128
    ensures Halvings(s) == Halvings(8 * (s / 8))
  {
    var b := 8 * (s / 8);
    if b > 0 {
      assert Halvings(s) == 1 + Halvings(s / 2) && Halvings(b) == 1 + Halvings(b / 2);
      assert s / 2 > 7 ==> Halvings(s / 2) == 1 + Halvings(s / 4) && Halvings(b / 2) == 1 + Halvings(b / 4);
      assert s / 4 > 7 ==> Halvings(s / 4) == 1 + Halvings(s / 8) && Halvings(b / 4) == 1 + Halvings(b / 8);
    }
  }

  lemma ShiftFive(s: nat)
    requires s >= 128
    ensures Halvings(s) == 5 + Halvings(s / 32)
  {
    assert Halvings(s) == 1 + Halvings(s / 2);
    assert Halvings(s / 2) == 1 + Halvings(s / 4);
    assert Halvings(s / 4) == 1 + Halvings(s / 8);
    assert Halvings(s / 8) == 1 + Halvings(s / 16);
    assert Halvings(s / 16) == 1 + Halvings(s / 32);
  }
}
