/** The bit window of src/enhancement/src/huffman.h: a 32-bit word filled from a byte stream,
    with the bits under consideration in [wordStartBit, wordEndBit). */
module HuffmanBitStream {
  import opened PowersOfTwo
  import opened Bits

  /** `data` holds 32 bits; returns bits startBit (inclusive) to endBit (exclusive), right-aligned. */
  function ExtractBits(data: nat, startBit: nat, endBit: nat): nat
    requires startBit <= endBit <= 32
  {
    (data / Pow2(32 - endBit)) % Pow2(endBit - startBit)
  }

  /** Extraction from a word holding 32 consecutive stream bits gives the bits at that place in the stream. */
  lemma ExtractIsPeek(data: seq<byte>, base: int, startBit: nat, endBit: nat)
    requires startBit <= endBit <= 32
    ensures ExtractBits(Peek(data, base, 32), startBit, endBit) == Peek(data, base + startBit, endBit - startBit)
  {
    PeekDivMod(data, base, endBit, 32 - endBit);
    PeekDivMod(data, base, startBit, endBit - startBit);
  }

  class HuffmanStream {
    const data: seq<byte>
    var offset: nat
    var word: nat
    var wordStartBit: nat
    var wordEndBit: nat
    var bitsRead: nat

    /** The stream bit held in the word's most significant bit. */
    ghost function Base(): int reads this { bitsRead - wordEndBit }

    /** The first stream bit not yet consumed. */
    ghost function Position(): int reads this { bitsRead - wordEndBit + wordStartBit }

    ghost predicate WordHolds()
      reads this
    {
      && Base() % 8 == 0
      && -32 <= Base()
      && word == Peek(data, Base(), 32)
      && offset == (if Base() + 32 <= 8 * |data| then (Base() + 32) / 8 else |data|)
    }

    ghost predicate Valid()
      reads this
    {
      wordStartBit <= wordEndBit <= 32 && 0 <= Position() && WordHolds()
    }

    constructor (bytes: seq<byte>)
      ensures Valid() && data == bytes && Position() == 0 && wordStartBit == wordEndBit == 32
    {
      data := bytes;
      offset, word, wordStartBit, wordEndBit, bitsRead := 0, 0, 32, 32, 0;
      new;
      PeekBeforeStart(data, 32);
    }

    /** The guard value of huffmanStreamReadBits. */
    function RemainingBits(): int
      reads this
    {
      (32 - wordEndBit) + (if offset > |data| then 0 else |data| - offset) * 8
    }

    method AdvanceByNBits(bits: nat)
      requires Valid() && wordEndBit - wordStartBit + bits <= 25
      modifies this
      ensures Valid() && Position() == old(Position())
      ensures wordEndBit - wordStartBit == old(wordEndBit - wordStartBit) + bits
      ensures wordStartBit == if old(wordEndBit) + bits <= 32 then old(wordStartBit) else old(wordStartBit) % 8
    {
      hide Peek, Pow2;
      ghost var rounds: nat := 0;
      wordEndBit := wordEndBit + bits;
      bitsRead := bitsRead + bits;
      if wordEndBit > 32 {
        while wordStartBit > 7
          invariant WordHolds() && Position() == old(Position())
          invariant wordEndBit - wordStartBit == old(wordEndBit - wordStartBit) + bits
          invariant wordStartBit == old(wordStartBit) - 8 * rounds
        {
          ShiftLeftOneByte();
          rounds := rounds + 1;
        }
      }
    }

    /** One round of the refill loop. */
    method ShiftLeftOneByte()
      requires WordHolds() && 7 < wordStartBit <= wordEndBit
      modifies this`word, this`offset, this`wordStartBit, this`wordEndBit
      ensures WordHolds() && Position() == old(Position())
      ensures wordStartBit == old(wordStartBit) - 8 && wordEndBit == old(wordEndBit) - 8
    {
      hide Peek, Pow2;
      ghost var base := Base();
      ShiftInByte(data, base);
      assert offset < |data| <==> base + 32 < 8 * |data|;
      assert offset < |data| ==> offset == (base + 32) / 8;
      word := (word * 256) % 0x1_0000_0000;
      if offset < |data| {
        word := word + data[offset];
        offset := offset + 1;
      }
      wordStartBit := wordStartBit - 8;
      wordEndBit := wordEndBit - 8;
      assert Base() == base + 8 && word == Peek(data, base + 8, 32);
    }

    method AdvanceToNthBit(desiredNumBits: nat) returns (value: nat)
      requires Valid() && wordEndBit - wordStartBit <= 25 && desiredNumBits <= 25
      modifies this
      ensures Valid() && Position() == old(Position())
      ensures desiredNumBits <= wordEndBit - wordStartBit
      ensures wordEndBit - wordStartBit ==
              if old(wordEndBit - wordStartBit) < desiredNumBits then desiredNumBits
              else old(wordEndBit - wordStartBit)
      ensures old(wordStartBit) + desiredNumBits > 32 ==> wordStartBit == old(wordStartBit) % 8
      ensures value == Peek(data, Position(), desiredNumBits)
    {
      var usableBits := wordEndBit - wordStartBit;
      var endBit := wordStartBit + desiredNumBits;
      if usableBits < desiredNumBits {
        AdvanceByNBits(desiredNumBits - usableBits);
        endBit := wordEndBit;
      }
      ExtractIsPeek(data, Base(), wordStartBit, endBit);
      value := ExtractBits(word, wordStartBit, endBit);
    }

    method Consume(bits: nat)
      requires Valid() && bits <= wordEndBit - wordStartBit
      modifies this`wordStartBit
      ensures Valid() && Position() == old(Position()) + bits
      ensures wordStartBit == old(wordStartBit) + bits
    {
      wordStartBit := wordStartBit + bits;
    }

    /** huffmanStreamReadBits. A read of more bits than the data has left is refused, except when padding is in the word
        and the word holds that many bits. */
    method ReadBits(numBits: nat) returns (ok: bool, value: nat)
      requires Valid() && wordStartBit == wordEndBit && numBits <= 25
      modifies this
      ensures Valid() && wordStartBit == wordEndBit
      ensures ok <==> numBits <= old(RemainingBits())
      ensures numBits > 8 * |data| - old(Position()) ==>
        (ok <==> old(offset) == |data| && numBits <= 32 - old(wordEndBit))
      ensures ok && old(wordEndBit) + numBits > 32 ==> wordEndBit == old(wordEndBit) % 8 + numBits
      ensures ok ==> value == Peek(data, old(Position()), numBits) && Position() == old(Position()) + numBits
      ensures !ok ==> Position() == old(Position())
    {
      if RemainingBits() < numBits {
        return false, 0;
      }
      value := AdvanceToNthBit(numBits);
      Consume(numBits);
      ok := true;
    }

    /** Such a read: of one byte, 5 bits are read; 3 are left, and a read of 25 bits is accepted. */
    static method OverreadExample(bytes: seq<byte>) returns (left: int, ok: bool)
      requires |bytes| == 1
      ensures left == 3 && ok
    {
      var stream := new HuffmanStream(bytes);
      var first, value;
      first, value := stream.ReadBits(5);
      left := 8 * |bytes| - stream.bitsRead;
      ok, value := stream.ReadBits(25);
    }

    /** entropyGetConsumedBytes, src/enhancement/src/entropy.c */
    function ConsumedBytes(): (n: nat)
      requires Valid()
      reads this
      ensures 8 * n - 8 < Position() <= 8 * n
    {
      (bitsRead + 7 - (wordEndBit - wordStartBit)) / 8
    }
  }

  lemma {:induction false} PeekBeforeStart(data: seq<byte>, n: nat)
    ensures forall pos :: pos + n <= 0 ==> Peek(data, pos, n) == 0
  {
    if n > 0 { PeekBeforeStart(data, n - 1); }
  }

  /** Shifting a byte into a word of 32 stream bits moves the word on by 8 bits. */
  lemma ShiftInByte(data: seq<byte>, base: int)
    requires base % 8 == 0
    ensures Peek(data, base + 8, 32) ==
            (Peek(data, base, 32) * 256) % 0x1_0000_0000 +
            (if 0 <= base + 32 < 8 * |data| then data[(base + 32) / 8] else 0)
  {
    Pow2Values();
    hide Peek, Pow2, Bit;
    PeekSplit(data, base, 8, 24);
    PeekSplit(data, base + 8, 24, 8);
    PeekByte(data, (base + 32) / 8);
    DivModUnique(Peek(data, base, 32) * 256, 0x1_0000_0000, Peek(data, base, 8), Peek(data, base + 8, 24) * 256);
  }

  /** The remaining-bits guard counts the true number of unread bits exactly when no padding byte has
      been shifted in; after that it is too large by every padding bit that is still in the word. */
  lemma RemainingBitsExact(s: HuffmanStream)
    requires s.Valid()
    ensures s.RemainingBits() == 8 * |s.data| - s.bitsRead <==> s.Base() + 32 <= 8 * |s.data|
    ensures s.Base() + 32 > 8 * |s.data| ==> s.RemainingBits() > 8 * |s.data| - s.bitsRead
  {}
}
