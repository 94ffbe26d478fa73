// The size classes of the big Lea heap (dlheap.h): a table of 132 sizes and a
// class computed by shifts and a loop.

module DLBigClasses {
  import opened Powers

  const TINY: seq<nat> := [
    8, 16, 24, 32, 40, 48, 56, 64, 72, 80, 88, 96,
    104, 112, 120, 128, 136, 144, 152, 160, 168, 176, 184, 192,
    200, 208, 216, 224, 232, 240, 248, 256
  ]

  const SMALL: seq<nat> := [
    264, 272, 280, 288, 296, 304, 312, 320, 328, 336, 344, 352,
    360, 368, 376, 384, 392, 400, 408, 416, 424, 432, 440, 448,
    456, 464, 472, 480, 488, 496, 504, 512
  ]

  const MEDIUM: seq<nat> := [
    576, 640, 704, 768, 832, 896, 960, 1024, 1088, 1152, 1216, 1280,
    1344, 1408, 1472, 1536, 1600, 1664, 1728, 1792, 1856, 1920, 1984, 2048,
    2112, 2560, 3072, 3584, 4096, 4608, 5120, 5632, 6144, 6656, 7168, 7680,
    8192, 8704, 9216, 9728, 10240, 10752
  ]

  const LARGE: seq<nat> := [
    12288, 16384, 20480, 24576, 28672, 32768, 36864, 40960, 65536,
    98304, 131072, 163840, 262144, 524288, 1048576, 2097152, 4194304, 8388608,
    16777216, 33554432, 67108864, 134217728, 268435456, 536870912, 1073741824, 2147483648
  ]

  const BINS: seq<nat> := TINY + SMALL + MEDIUM + LARGE

  const NUMBINS := 132
  const BIG_OBJECT := 0x8000_0000

  // The floor of the base-two logarithm; 0 for 0.
  function Log2(sz: nat): nat {
    if sz <= 1 then 0 else 1 + Log2(sz / 2)
  }

  lemma {:induction false} Log2Brackets(sz: nat)
    requires sz >= 1
    ensures Pow2(Log2(sz)) <= sz < 2 * Pow2(Log2(sz))
  {
    if sz > 1 {
      Log2Brackets(sz / 2);
    }
  }

  method ComputeLog2(sz: nat) returns (c: nat)
    ensures c == Log2(sz)
  {
    c := 0;
    var sz1 := sz;
    while sz1 > 1
      invariant c + Log2(sz1) == Log2(sz)
    {
      sz1 := sz1 / 2;
      c := c + 1;
    }
  }

  function SizeClass(sz: nat): nat
    requires sz >= 1
  {
    var s := sz - 1;
    if s <= 513 then s / 8
    else if s / 64 <= 32 then 56 + s / 64
    else if s / 512 <= 20 then 91 + s / 512
    else if s / 4096 <= 10 then 104 + s / 4096
    else if s / 32768 <= 4 then 113 + s / 32768
    else if s / 262144 <= 2 then 118 + s / 262144
    else 120 + Log2(s / 524288)
  }

  // The closed form that the source keeps beside the table.
  function ClosedForm(i: nat): nat
    requires i < NUMBINS
  {
    if i < 64 then 8 * (i + 1)
    else if i < 89 then 64 * (i - 55)
    else if i < 106 then 512 * (i - 84)
    else if i < 114 then 4096 * (i - 103)
    else if i < 118 then 32768 * (i - 112)
    else if i < 120 then 262144 * (i - 117)
    else 1048576 * Pow2(i - 120)
  }

  lemma SmallPowers()
    ensures Pow2(0) == 1 && Pow2(1) == 2 && Pow2(2) == 4 && Pow2(3) == 8 && Pow2(4) == 16 && Pow2(5) == 32
    ensures Pow2(6) == 64 && Pow2(7) == 128 && Pow2(8) == 256 && Pow2(9) == 512 && Pow2(10) == 1024 && Pow2(11) == 2048
    ensures Pow2(12) == 4096
  {
  }

  lemma TinyEntries()
    ensures |TINY| == 32 && forall i :: 0 <= i < 32 ==> TINY[i] == ClosedForm(i)
  {
  }

  lemma SmallEntries()
    ensures |SMALL| == 32 && forall i :: 0 <= i < 32 ==> SMALL[i] == ClosedForm(32 + i)
  {
  }

  lemma MediumEntries()
    ensures |MEDIUM| == 42 && forall i :: 0 <= i < 42 ==> MEDIUM[i] == ClosedForm(64 + i)
  {
  }

  lemma LargeEntries()
    ensures |LARGE| == 26 && forall i :: 0 <= i < 26 ==> LARGE[i] == ClosedForm(106 + i)
  {
    SmallPowers();
  }

  lemma TableIsClosedForm(i: nat)
    requires i < NUMBINS
    ensures |BINS| == NUMBINS && BINS[i] == ClosedForm(i)
  {
    TinyEntries();
    SmallEntries();
    MediumEntries();
    LargeEntries();
    hide ClosedForm;
  }

  lemma ClosedFormGrows(i: nat)
    requires i + 1 < NUMBINS
    ensures ClosedForm(i) < ClosedForm(i + 1)
  {
    SmallPowers();
    if i >= 120 {
      Pow2Grows(i - 120, i - 120);
    }
  }

  // The table grows, so a higher class never has a smaller size.
  lemma {:induction false} TableGrows(i: nat, j: nat)
    requires i <= j < NUMBINS
    ensures |BINS| == NUMBINS && BINS[i] <= BINS[j]
    decreases j - i
  {
    TableIsClosedForm(i);
    TableIsClosedForm(j);
    if i < j {
      ClosedFormGrows(i);
      TableIsClosedForm(i + 1);
      TableGrows(i + 1, j);
    }
  }

  // The class of every size up to the largest exists and covers the size.
  lemma ClassCovers(sz: nat)
    requires 1 <= sz <= BIG_OBJECT
    ensures SizeClass(sz) < NUMBINS && sz <= ClosedForm(SizeClass(sz))
  {
    hide Log2, Pow2;
    var s := sz - 1;
    SmallPowers();
    if s / 262144 > 2 {
      var l := Log2(s / 524288);
      Log2Brackets(s / 524288);
      if l >= 12 {
        Pow2Grows(12, l);
      }
    }
  }

  // Although the classes of growing sizes go down in places, no object of the
  // class of a size or of a higher class is smaller than the size. (This is what
  // SegHeap asks of its class functions.)
  lemma HigherClassesCover(sz: nat, i: nat)
    requires 1 <= sz <= BIG_OBJECT && SizeClass(sz) <= i < NUMBINS
    ensures |BINS| == NUMBINS && BINS[NUMBINS - 1] == BIG_OBJECT && sz <= BINS[i]
  {
    ClassCovers(sz);
    TableIsClosedForm(SizeClass(sz));
    TableGrows(SizeClass(sz), i);
    TableIsClosedForm(NUMBINS - 1);
    SmallPowers();
  }

  // The least class whose size covers sz, when the class computed is right or six too high.
  function LeastClass(sz: nat): int
    requires sz >= 1
  {
    if 2112 < sz <= 10752 then SizeClass(sz) - 6 else SizeClass(sz)
  }

  lemma LeastOfClosedForm(sz: nat)
    requires 1 <= sz <= BIG_OBJECT
    ensures 0 <= LeastClass(sz) < NUMBINS && sz <= ClosedForm(LeastClass(sz))
    ensures LeastClass(sz) > 0 ==> ClosedForm(LeastClass(sz) - 1) < sz
  {
    ClassCovers(sz);
    hide Log2, Pow2;
    var s := sz - 1;
    SmallPowers();
    if s / 262144 > 2 {
      var l := Log2(s / 524288);
      Log2Brackets(s / 524288);
      Doubles(l);
      if l > 0 {
        Doubles(l - 1);
      }
    }
  }

  lemma Doubles(i: nat)
    ensures Pow2(i + 1) == 2 * Pow2(i)
  {
  }

  // The class of a size is the least that covers it for sizes up to 2112 and above 10752,
  // and six too high for those between.
  lemma ClassIsLeast(sz: nat)
    requires 1 <= sz <= BIG_OBJECT
    ensures var c := if 2112 < sz <= 10752 then SizeClass(sz) - 6 else SizeClass(sz);
      && 0 <= c < NUMBINS == |BINS| && sz <= BINS[c] && forall i :: 0 <= i < c ==> BINS[i] < sz
  {
    var c := LeastClass(sz);
    LeastOfClosedForm(sz);
    TableIsClosedForm(c);
    hide ClosedForm, SizeClass;
    forall i | 0 <= i < c ensures BINS[i] < sz {
      TableIsClosedForm(c - 1);
      TableGrows(i, c - 1);
    }
  }

  lemma ClassesAreNotMonotone()
    ensures SizeClass(10752) == 111 && SizeClass(10753) == 106
  {
  }
}
