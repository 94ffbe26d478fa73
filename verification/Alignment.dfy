// Rounding to whole doubles, as every allocator here does it.

module Alignment {

  // The least multiple of eight that is at least sz.
  function Align(sz: nat): (r: nat)
    ensures sz <= r < sz + 8 && r % 8 == 0
  {
    (sz + 7) / 8 * 8
  }
}
