/** The symbols of coefficient chunks (lines 63-64 of src/enhancement/src/huffman.h, lines 174-202 of
    src/enhancement/src/entropy.c): the low bit says that a second symbol follows, the top bit that a run does. */
module Symbols {
  predicate NextSymbolIsMSB(symbol: nat) { symbol % 2 == 1 }

  predicate NextSymbolIsRL(symbol: nat) { symbol / 128 % 2 == 1 }

  /** ((symbol & 0x7E) - 0x40) >> 1 */
  function LsbValue(lsb: nat): int { (lsb % 128 - lsb % 2 - 0x40) / 2 }

  /** (((msb & 0x7f) << 8 | (lsb & 0xFE)) - 0x4000) >> 1 */
  function MsbValue(lsb: nat, msb: nat): int { ((msb % 128) * 256 + (lsb - lsb % 2) - 0x4000) / 2 }

  /** What one call of entropyDecode gives: a coefficient and the number of zeros after it. */
  datatype Item = Item(value: int, zeros: nat)

  // -- Runs -------------------------------------------------------------------------------------

  /** (zeros << 7) | (symbol & 0x7f), without a bound on the run. */
  function ShiftInRun(zeros: int, symbol: nat): int { zeros * 128 + symbol % 128 }

  /** What an int32_t keeps of x: its low 32 bits. It is x itself exactly when that is in range. */
  function ToInt32(x: int): (v: int)
    ensures v == x <==> -0x8000_0000 <= x < 0x8000_0000
  {
    (x + 0x8000_0000) % 0x1_0000_0000 - 0x8000_0000
  }

  /** Cutting to 32 bits at every shift, or only at the end, is the same. */
  lemma ShiftWraps(zeros: int, symbol: nat)
    ensures ToInt32(ShiftInRun(ToInt32(zeros), symbol)) == ToInt32(ShiftInRun(zeros, symbol))
  {
    var q := (zeros + 0x8000_0000) / 0x1_0000_0000;
    assert ToInt32(zeros) == zeros - 0x1_0000_0000 * q;
    assert ShiftInRun(zeros, symbol) == ShiftInRun(ToInt32(zeros), symbol) + 0x1_0000_0000 * (128 * q);
  }
}
