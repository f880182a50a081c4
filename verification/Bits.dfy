/** A byte buffer read as a sequence of bits, most significant first, padded with zeros at both ends. */
module Bits {
  import opened PowersOfTwo

  type byte = x: int | 0 <= x < 256

  /** (x >> j) & 1 */
  function BitOf(x: nat, j: nat): (b: nat)
    ensures b <= 1
  {
    if j == 0 then x % 2 else BitOf(x / 2, j - 1)
  }

  function Bit(data: seq<byte>, k: int): (b: nat)
    ensures b <= 1
  {
    if 0 <= k < 8 * |data| then BitOf(data[k / 8], 7 - k % 8) else 0
  }

  /** The n bits starting at bit `pos`, as a number. */
  function Peek(data: seq<byte>, pos: int, n: nat): (v: nat)
    ensures v < Pow2(n)
  {
    if n == 0 then 0 else 2 * Peek(data, pos, n - 1) + Bit(data, pos + n - 1)
  }

  lemma {:induction false} PeekSplit(data: seq<byte>, pos: int, a: nat, b: nat)
    ensures Peek(data, pos, a + b) == Peek(data, pos, a) * Pow2(b) + Peek(data, pos + a, b)
    decreases b
  {
    if b > 0 {
      PeekSplit(data, pos, a, b - 1);
      assert a + (b - 1) == a + b - 1;
      assert pos + (a + b) - 1 == pos + a + b - 1;
      AppendBit(Peek(data, pos, a), Pow2(b - 1), Peek(data, pos + a, b - 1), Bit(data, pos + a + b - 1));
    }
  }

  lemma AppendBit(high: nat, p: nat, low: nat, bit: nat)
    ensures 2 * (high * p + low) + bit == high * (2 * p) + (2 * low + bit)
  {
    assert high * (2 * p) == 2 * (high * p);
  }

  /** The leading a of a + b bits are the quotient by 2^b, the trailing b bits the remainder. */
  lemma PeekDivMod(data: seq<byte>, pos: int, a: nat, b: nat)
    ensures Peek(data, pos, a + b) / Pow2(b) == Peek(data, pos, a)
    ensures Peek(data, pos, a + b) % Pow2(b) == Peek(data, pos + a, b)
  {
    PeekSplit(data, pos, a, b);
    DivModUnique(Peek(data, pos, a + b), Pow2(b), Peek(data, pos, a), Peek(data, pos + a, b));
  }

  lemma PeekByte(data: seq<byte>, j: int)
    ensures Peek(data, 8 * j, 8) == if 0 <= j < |data| then data[j] else 0
  {
    PeekEight(data, 8 * j, 8);
    BitsOfOneByte(data, j);
    if 0 <= j < |data| { BinaryDigits(data[j]); }
  }

  lemma BitsOfOneByte(data: seq<byte>, j: int)
    ensures var p, x := 8 * j, if 0 <= j < |data| then data[j] else 0;
            && Bit(data, p) == x / 128 % 2 && Bit(data, p + 1) == x / 64 % 2
            && Bit(data, p + 2) == x / 32 % 2 && Bit(data, p + 3) == x / 16 % 2
            && Bit(data, p + 4) == x / 8 % 2 && Bit(data, p + 5) == x / 4 % 2
            && Bit(data, p + 6) == x / 2 % 2 && Bit(data, p + 7) == x % 2
  {
    hide BitOf;
    BitsByQuotient(if 0 <= j < |data| then data[j] else 0);
  }

  lemma BitsByQuotient(x: nat)
    ensures BitOf(x, 0) == x % 2 && BitOf(x, 1) == x / 2 % 2 && BitOf(x, 2) == x / 4 % 2 && BitOf(x, 3) == x / 8 % 2
    ensures BitOf(x, 4) == x / 16 % 2 && BitOf(x, 5) == x / 32 % 2
    ensures BitOf(x, 6) == x / 64 % 2 && BitOf(x, 7) == x / 128 % 2
  {
    hide BitOf;
    LowBits(x);
    LowBits(x / 16);
    HighBit(x, 4);
    HighBit(x, 5);
    HighBit(x, 6);
    HighBit(x, 7);
    assert x / 16 / 2 == x / 32 && x / 16 / 4 == x / 64 && x / 16 / 8 == x / 128;
  }

  lemma LowBits(x: nat)
    ensures BitOf(x, 0) == x % 2 && BitOf(x, 1) == x / 2 % 2 && BitOf(x, 2) == x / 4 % 2 && BitOf(x, 3) == x / 8 % 2
  {
    assert x / 2 / 2 == x / 4 && x / 2 / 2 / 2 == x / 8;
  }

  lemma HighBit(x: nat, j: nat)
    requires j >= 4
    ensures BitOf(x, j) == BitOf(x / 16, j - 4)
  {
    assert x / 2 / 2 / 2 / 2 == x / 16;
    assert BitOf(x, j) == BitOf(x / 2, j - 1) == BitOf(x / 2 / 2, j - 2) == BitOf(x / 2 / 2 / 2, j - 3);
  }

  lemma {:induction false} NoBits(j: nat)
    ensures BitOf(0, j) == 0
  {
    if j > 0 { NoBits(j - 1); }
  }

  lemma PeekEight(data: seq<byte>, p: int, n: nat)
    requires n == 8
    ensures Peek(data, p, n) ==
            128 * Bit(data, p) + 64 * Bit(data, p + 1) + 32 * Bit(data, p + 2) + 16 * Bit(data, p + 3)
            + 8 * Bit(data, p + 4) + 4 * Bit(data, p + 5) + 2 * Bit(data, p + 6) + Bit(data, p + 7)
  {
    PeekTwoMore(data, p, n - 8); PeekTwoMore(data, p, n - 6);
    PeekTwoMore(data, p, n - 4); PeekTwoMore(data, p, n - 2);
  }

  lemma PeekTwoMore(data: seq<byte>, pos: int, n: nat)
    ensures n == 0 ==> Peek(data, pos, n) == 0
    ensures Peek(data, pos, n + 2) == 4 * Peek(data, pos, n) + 2 * Bit(data, pos + n) + Bit(data, pos + n + 1)
  {
    assert Peek(data, pos, n + 2) == 2 * Peek(data, pos, n + 1) + Bit(data, pos + n + 1);
  }

  lemma BinaryDigits(x: byte)
    ensures x == 128 * (x / 128 % 2) + 64 * (x / 64 % 2) + 32 * (x / 32 % 2) + 16 * (x / 16 % 2)
              + 8 * (x / 8 % 2) + 4 * (x / 4 % 2) + 2 * (x / 2 % 2) + x % 2
  {
    assert x / 4 == x / 2 / 2 && x / 8 == x / 4 / 2 && x / 16 == x / 8 / 2;
    assert x / 32 == x / 16 / 2 && x / 64 == x / 32 / 2 && x / 128 == x / 64 / 2;
  }
}
