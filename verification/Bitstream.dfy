/** The bit reader of src/enhancement/src/bitstream.c and bitstream.h: 32-bit words, and a last one of 1 to 3 bytes,
    shifted out from the top. */
module Bitstream {
  import opened PowersOfTwo
  import opened Bits

  /** A word holding w bits at its top and zeros below. */
  function Word(data: seq<byte>, pos: int, w: nat): nat
    requires w <= 32
  {
    Shl(Peek(data, pos, w), 32 - w)
  }

  /** The top n of the w bits in a word, and the word without them. */
  lemma TakeTop(data: seq<byte>, pos: int, w: nat, n: nat)
    requires n <= w <= 32
    ensures Shr(Word(data, pos, w), 32 - n) == Peek(data, pos, n)
    ensures ShiftOut(Word(data, pos, w), n) == Word(data, pos + n, w - n)
  {
    hide Peek, Pow2, Shl, Shr, ShiftOut;
    PeekSplit(data, pos, n, w - n);
    assert n + (w - n) == w;
    TopOfWord(Peek(data, pos, n), Peek(data, pos + n, w - n), w, n);
    BelowTopOfWord(Peek(data, pos, n), Peek(data, pos + n, w - n), w, n);
  }

  lemma TopOfWord(high: nat, low: nat, w: nat, n: nat)
    requires n <= w <= 32 && low < Pow2(w - n)
    ensures Shr(Shl(high * Pow2(w - n) + low, 32 - w), 32 - n) == high
  {
    Pow2Add(w - n, 32 - w);
    assert w - n + (32 - w) == 32 - n;
    hide Pow2;
    ShlRoom(low, 32 - w, 32 - n);
    SplitWord(high, low, Pow2(w - n), Pow2(32 - w));
    DivModUnique(Shl(high * Pow2(w - n) + low, 32 - w), Pow2(32 - n), high, Shl(low, 32 - w));
  }

  lemma BelowTopOfWord(high: nat, low: nat, w: nat, n: nat)
    requires n <= w <= 32 && low < Pow2(w - n)
    ensures ShiftOut(Shl(high * Pow2(w - n) + low, 32 - w), n) == Shl(low, 32 - (w - n))
  {
    hide Pow2, Shl;
    var p, q, r := Pow2(w - n), Pow2(32 - w), Pow2(n);
    WordPowers(w, n);
    ShlRoom(low, 32 - (w - n), 32);
    assert 32 - (32 - (w - n)) == w - n;
    ShlIs(high * p + low, 32 - w);
    ShlIs((high * p + low) * q, n);
    ShlIs(low, 32 - (w - n));
    ModOut(high, low, p, q, r, Pow2(32), Pow2(32 - (w - n)));
  }

  lemma ShlIs(x: nat, n: nat)
    ensures x * Pow2(n) >= 0 && Shl(x, n) == x * Pow2(n)
  {
    MulMonotone(0, x, Pow2(n));
  }

  lemma WordPowers(w: nat, n: nat)
    requires n <= w <= 32
    ensures Pow2(32 - (w - n)) == Pow2(32 - w) * Pow2(n) && Pow2(32) == Pow2(w - n) * Pow2(32 - (w - n))
  {
    Pow2Add(32 - w, n);
    Pow2Add(w - n, 32 - (w - n));
    assert 32 - w + n == 32 - (w - n) && w - n + (32 - (w - n)) == 32;
  }

  lemma ModOut(high: nat, low: nat, p: nat, q: nat, r: nat, m: nat, t: nat)
    requires t == q * r && m == p * t && 0 <= low * t < m
    ensures (high * p + low) * q * r % m == low * t
  {
    assert (high * p + low) * q * r == (high * p + low) * t;
    assert (high * p + low) * t == high * m + low * t;
    DivModUnique((high * p + low) * t, m, high, low * t);
  }

  lemma SplitWord(high: nat, low: nat, p: nat, q: nat)
    ensures (high * p + low) * q == high * (p * q) + low * q
  {}

  /** All w bits of a word, with room for more below. */
  lemma TakeAll(data: seq<byte>, pos: int, w: nat, n: nat)
    requires w <= n <= 32
    ensures Shr(Word(data, pos, w), 32 - n) == Shl(Peek(data, pos, w), n - w)
  {
    Pow2Add(n - w, 32 - n);
    assert n - w + (32 - n) == 32 - w;
    ThreeFactors(Peek(data, pos, w), Pow2(n - w), Pow2(32 - n));
    ShlLowBitsClear(Shl(Peek(data, pos, w), n - w), 32 - n);
  }

  lemma ThreeFactors(x: nat, p: nat, q: nat)
    ensures x * (p * q) == x * p * q
  {}

  /** One byte more at the bottom of a number made of whole bytes. */
  lemma AppendByte(data: seq<byte>, at: nat, n: nat)
    requires at + n < |data|
    ensures Peek(data, 8 * at, 8 * (n + 1)) == Peek(data, 8 * at, 8 * n) * 256 + data[at + n]
  {
    hide Peek, Pow2;
    PeekSplit(data, 8 * at, 8 * n, 8);
    PeekByte(data, at + n);
    Pow2Values();
    assert 8 * n + 8 == 8 * (n + 1) && 8 * at + 8 * n == 8 * (at + n);
  }

  lemma BigEndian(data: seq<byte>, at: nat)
    requires at + 4 <= |data|
    ensures var b0: nat, b1: nat, b2: nat, b3: nat := data[at], data[at + 1], data[at + 2], data[at + 3];
            Peek(data, 8 * at, 32) == b0 * 0x100_0000 + b1 * 0x1_0000 + b2 * 0x100 + b3
  {
    assert Peek(data, 8 * at, 0) == 0;
    hide Peek;
    AppendByte(data, at, 0);
    AppendByte(data, at, 1);
    AppendByte(data, at, 2);
    AppendByte(data, at, 3);
  }

  class BitStream {
    const data: seq<byte>
    var offset: nat
    var word: nat
    var nextBit: nat

    /** The stream bit that is read next. */
    ghost function Position(): int
      reads this
    {
      8 * offset - 32 + nextBit
    }

    ghost predicate Valid()
      reads this
    {
      offset <= |data| && nextBit <= 32 && 0 <= Position() && word == Word(data, Position(), 32 - nextBit)
    }

    /** bitstreamGetRemainingBits, for a stream of a size below 2^29 bytes. */
    function RemainingBits(): int
      reads this
    {
      32 - nextBit + (|data| - offset) * 8
    }

    /** bitstreamGetConsumedBytes */
    function ConsumedBytes(): int
      reads this
    {
      (|data| * 8 - RemainingBits() + 7) / 8
    }

    /** The consumed count is the position, and in bytes the least that holds all the bits read. */
    lemma ConsumedIsPosition()
      requires Valid()
      ensures |data| * 8 - RemainingBits() == Position() && 0 <= Position() <= 8 * |data|
      ensures 8 * ConsumedBytes() - 8 < Position() <= 8 * ConsumedBytes()
    {}

    predicate StreamComplete()
      reads this
    {
      |data| == offset && nextBit == 32
    }

    /** bitstreamInitialize; an empty stream is refused, so it is not constructed. */
    constructor (bytes: seq<byte>)
      requires |bytes| > 0
      ensures data == bytes && Valid() && Position() == 0 && offset == if |bytes| < 4 then |bytes| else 4
    {
      data, offset, word, nextBit := bytes, 0, 0, 32;
      new;
      assert 8 * 0 - 32 + 32 == 0;
      var ok := LoadWord();
    }

    method ReadU32() returns (value: nat)
      requires offset + 4 <= |data|
      modifies this`offset
      ensures offset == old(offset) + 4 && value == Peek(data, 8 * old(offset), 32)
    {
      var b0: nat, b1: nat, b2: nat, b3: nat := data[offset], data[offset + 1], data[offset + 2], data[offset + 3];
      value := b0 * 0x100_0000 + b1 * 0x1_0000 + b2 * 0x100 + b3;
      BigEndian(data, offset);
      offset := offset + 4;
    }

    /** loadWord, when all bits of the word have been read. */
    method LoadWord() returns (ok: bool)
      requires offset <= |data|
      modifies this
      ensures ok == (old(offset) < |data|) && offset <= |data|
      ensures if ok then nextBit < 32 && Position() == 8 * old(offset) && word == Word(data, Position(), 32 - nextBit)
              else word == old(word) && nextBit == old(nextBit) && offset == old(offset)
      ensures ok ==> 32 - nextBit == if |data| - old(offset) >= 4 then 32 else 8 * (|data| - old(offset))
    {
      hide Shl, Bit;
      var remaining := |data| - offset;
      if remaining <= 0 {
        return false;
      }
      ok := true;
      if remaining >= 4 {
        word := ReadU32();
        nextBit := 0;
        ShlNone(word);
      } else {
        word := 0;
        for i := 0 to remaining
          invariant offset == old(offset) + i && word == Peek(data, 8 * old(offset), 8 * i)
        {
          AppendByte(data, old(offset), i);
          word := word * 256 + data[offset];
          offset := offset + 1;
        }
        nextBit := 8 * (4 - remaining);
        word := Shl(word, nextBit);
      }
    }

    /** checkLoadNextWord */
    method CheckLoadNextWord() returns (ok: bool)
      requires Valid()
      modifies this
      ensures Valid() && Position() == old(Position()) && ok == (old(nextBit) != 32 || old(offset) < |data|)
      ensures ok ==> nextBit < 32
      ensures RemainingBits() == old(RemainingBits())
      ensures old(nextBit) != 32 ==> nextBit == old(nextBit) && offset == old(offset)
      ensures old(nextBit) == 32 && ok ==> nextBit == 0 || offset == |data|
    {
      ok := true;
      if nextBit == 32 {
        ok := LoadWord();
      }
    }

    /** bitstreamReadBit */
    method ReadBit() returns (ok: bool, bit: nat)
      requires Valid()
      modifies this
      ensures Valid() && ok == (old(RemainingBits()) > 0)
      ensures if ok then bit == Bit(data, old(Position())) && Position() == old(Position()) + 1
              else Position() == old(Position())
    {
      bit := 0;
      if StreamComplete() {
        return false, bit;
      }
      ok := CheckLoadNextWord();
      if !ok {
        return;
      }
      PeekOne(data, Position());
      bit := TakeFromWord(1);
    }

    /** The bits of a read that come from the current word. */
    method TakeFromWord(n: nat) returns (value: nat)
      requires Valid() && n <= 32 - nextBit
      modifies this`word, this`nextBit
      ensures Valid() && value == Peek(data, old(Position()), n) && nextBit == old(nextBit) + n
    {
      hide Peek, Pow2, Shl, Shr, Word;
      TakeTop(data, Position(), 32 - nextBit, n);
      value := Shr(word, 32 - n);
      nextBit := nextBit + n;
      word := ShiftOut(word, n);
    }

    /** A read across the end of the current word. */
    method ReadAcross(n: nat) returns (ok: bool, value: nat)
      requires Valid() && 32 - nextBit < n <= 31
      modifies this
      ensures n <= old(RemainingBits()) ==>
        ok && value == Peek(data, old(Position()), n) && Valid() && Position() == old(Position()) + n
      ensures ok <==> old(offset) < |data|
      ensures n > old(RemainingBits()) ==> if ok then nextBit > 32 else Valid() && Position() == old(Position())
    {
      hide Peek, Pow2, Shl, Shr, Word;
      var wordRemaining := 32 - nextBit;
      ghost var pos := Position();
      value := Shr(word, 32 - n);
      TakeAll(data, pos, wordRemaining, n);
      var readRemaining := n - wordRemaining;
      ok := LoadWord();
      if !ok {
        return;
      }
      if nextBit + readRemaining <= 32 {
        TakeTop(data, Position(), 32 - nextBit, readRemaining);
        JoinBits(data, pos, wordRemaining, readRemaining);
      }
      nextBit := nextBit + readRemaining;
      var trailBits := Shr(word, 32 - readRemaining);
      word := ShiftOut(word, readRemaining);
      value := value + trailBits;
    }

    /** bitstreamReadBits: when enough bits remain, the next n bits, across words and into a short last word. When they
        do not, it fails exactly if the last word was already loaded, or was yet to be loaded at a word boundary;
        otherwise it succeeds, and nextBit runs past the end of the word. */
    method ReadBits(n: nat) returns (ok: bool, value: nat)
      requires Valid() && 1 <= n <= 31
      modifies this
      ensures n <= old(RemainingBits()) ==>
        ok && value == Peek(data, old(Position()), n) && Valid() && Position() == old(Position()) + n
      ensures n <= 32 - old(nextBit) ==> offset == old(offset)
      ensures n > old(RemainingBits()) ==> (ok <==> old(nextBit) < 32 && old(offset) < |data|)
      ensures n > old(RemainingBits()) ==> if ok then nextBit > 32 else Valid() && Position() == old(Position())
    {
      hide Peek, Word;
      value := 0;
      if StreamComplete() {
        return false, value;
      }
      ok := CheckLoadNextWord();
      if !ok {
        return;
      }
      if 32 - nextBit >= n {
        value := TakeFromWord(n);
      } else {
        ok, value := ReadAcross(n);
      }
    }

    /** Such a read: of five bytes, 30 bits are read; ten bits remain, and a read of 31 bits succeeds. */
    static method OverrunExample(bytes: seq<byte>) returns (remaining: int, ok: bool)
      requires |bytes| == 5
      ensures remaining == 10 && ok
    {
      hide Peek, Word;
      var stream := new BitStream(bytes);
      var first, value;
      first, value := stream.ReadBits(30);
      remaining := stream.RemainingBits();
      ok, value := stream.ReadBits(31);
    }

    /** bitstreamReadExpGolomb, with a 32-bit value. If the stream goes on with the code of a number, and all of it is
        there, that number is read, and no bit more. */
    method ReadExpGolomb() returns (ok: bool, value: nat)
      requires Valid()
      modifies this
      ensures Valid() && value < 0x1_0000_0000
      ensures forall k: nat, v: nat {:trigger HasCode(data, old(Position()), k, v)} ::
        HasCode(data, old(Position()), k, v) && 2 * k + 1 <= old(RemainingBits()) && v < 0xFFFF_FFFF ==>
        ok && value == v && Position() == old(Position()) + 2 * k + 1
    {
      hide Peek, Pow2, HasCode;
      ghost var start := Position();
      value := 0;
      var zeros;
      ok, zeros := ReadPrefix();
      if !ok {
        return;
      }
      var number: int;
      ok, number := ReadSuffix(zeros);
      if !ok {
        return;
      }
      value := (number - 1) % 0x1_0000_0000;
      forall k: nat, v: nat | HasCode(data, start, k, v) && v < 0xFFFF_FFFF && k == zeros ensures value == v {
        CodeIs(data, start, k, v);
      }
    }

    /** The zeros before the first one bit, which is read too. */
    method ReadPrefix() returns (ok: bool, zeros: nat)
      requires Valid()
      modifies this
      ensures Valid()
      ensures ok ==> Position() == old(Position()) + zeros + 1 && RemainingBits() == old(RemainingBits()) - zeros - 1
      ensures forall k: nat, v: nat {:trigger HasCode(data, old(Position()), k, v)} ::
        HasCode(data, old(Position()), k, v) ==> if ok then k == zeros else k >= old(RemainingBits())
    {
      hide Peek, HasCode;
      ghost var start := Position();
      zeros := 0;
      var bit;
      ok, bit := ReadBit();
      if !ok {
        return;
      }
      while bit == 0
        invariant Valid() && Position() == start + zeros + 1 && bit == Bit(data, start + zeros)
        invariant Peek(data, start, zeros) == 0
        invariant RemainingBits() == old(RemainingBits()) - zeros - 1
        decreases RemainingBits(), 1 - bit
      {
        PrefixStep(data, start, zeros);
        zeros := zeros + 1;
        ok, bit := ReadBit();
        if !ok {
          forall k: nat, v: nat | HasCode(data, start, k, v) ensures k >= old(RemainingBits()) {
            CodePrefix(data, start, k, v, zeros);
          }
          return;
        }
      }
      forall k: nat, v: nat | HasCode(data, start, k, v) ensures k == zeros {
        CodePrefix(data, start, k, v, zeros);
      }
    }

    /** The bits after the prefix, below a one, in 32 bits. */
    method ReadSuffix(readCount: nat) returns (ok: bool, value: nat)
      requires Valid()
      modifies this
      ensures Valid() && ok == (old(RemainingBits()) >= readCount) && value < 0x1_0000_0000
      ensures ok ==> Position() == old(Position()) + readCount
      ensures ok && readCount < 32 ==> value == Pow2(readCount) + Peek(data, old(Position()), readCount)
    {
      hide Peek, Pow2;
      ghost var start := Position();
      ok, value := true, 1;
      SuffixStart(data, start);
      for i := 0 to readCount
        invariant Valid() && Position() == start + i && value < 0x1_0000_0000
        invariant RemainingBits() == old(RemainingBits()) - i && i <= old(RemainingBits())
        invariant i < 32 ==> value == Pow2(i) + Peek(data, start, i)
      {
        var bit;
        ok, bit := ReadBit();
        if !ok {
          return;
        }
        if i < 31 { SuffixStep(data, start, i); }
        value := (value * 2 + bit) % 0x1_0000_0000;
      }
    }
  }

  /** The code of v (section 9.1 of ITU-T H.264) as the next 2k + 1 bits: k zeros, and v + 1 in k + 1 bits. */
  ghost predicate HasCode(data: seq<byte>, pos: int, k: nat, v: nat) {
    Pow2(k) <= v + 1 < Pow2(k + 1) && Peek(data, pos, 2 * k + 1) == v + 1
  }

  lemma PrefixStep(data: seq<byte>, start: int, n: nat)
    requires Peek(data, start, n) == 0 && Bit(data, start + n) == 0
    ensures Peek(data, start, n + 1) == 0
  {
    assert start + (n + 1) - 1 == start + n;
  }

  /** The first k bits of a code are zero, the next is a one, and the rest is what is above it. */
  lemma CodeBits(data: seq<byte>, pos: int, k: nat, v: nat)
    requires HasCode(data, pos, k, v)
    ensures Peek(data, pos, k) == 0 && Bit(data, pos + k) == 1 && Pow2(k) + Peek(data, pos + k + 1, k) == v + 1
  {
    hide Peek;
    CodeSplit(data, pos, k);
    assert Pow2(k + 1) == 2 * Pow2(k);
    hide Pow2;
    CodeParts(Peek(data, pos, k), Bit(data, pos + k), Peek(data, pos + k + 1, k), Pow2(k), v);
  }

  lemma CodeSplit(data: seq<byte>, pos: int, k: nat)
    ensures Peek(data, pos, 2 * k + 1) ==
            Peek(data, pos, k) * Pow2(k + 1) + (Bit(data, pos + k) * Pow2(k) + Peek(data, pos + k + 1, k))
  {
    hide Peek, Pow2;
    PeekSplit(data, pos, k, k + 1);
    PeekSplit(data, pos + k, 1, k);
    PeekOne(data, pos + k);
    assert k + (k + 1) == 2 * k + 1 && 1 + k == k + 1;
  }

  lemma CodeParts(high: nat, bit: nat, low: nat, p: nat, v: nat)
    requires bit <= 1 && low < p <= v + 1 < 2 * p && v + 1 == high * (2 * p) + (bit * p + low)
    ensures high == 0 && bit == 1
  {
    if high > 0 { MulMonotone(1, high, 2 * p); }
  }

  /** A code that starts where n zero bits do has its one bit after them; its first bits are zero too. */
  lemma CodePrefix(data: seq<byte>, pos: int, k: nat, v: nat, n: nat)
    requires HasCode(data, pos, k, v) && Peek(data, pos, n) == 0
    ensures k >= n
    ensures Bit(data, pos + n) == 1 ==> k == n
  {
    CodeBits(data, pos, k, v);
    hide HasCode, Pow2;
    if k < n { BitOfZero(data, pos, n, k); }
    if n < k { BitOfZero(data, pos, k, n); }
  }

  lemma {:induction false} BitOfZero(data: seq<byte>, pos: int, n: nat, i: nat)
    requires i < n && Peek(data, pos, n) == 0
    ensures Bit(data, pos + i) == 0
  {
    if i < n - 1 { BitOfZero(data, pos, n - 1, i); }
  }

  lemma CodeIs(data: seq<byte>, pos: int, k: nat, v: nat)
    requires HasCode(data, pos, k, v) && v < 0xFFFF_FFFF
    ensures k < 32 && Pow2(k) + Peek(data, pos + k + 1, k) == v + 1
  {
    CodeBits(data, pos, k, v);
    Pow2Values();
    if k >= 32 { Pow2Monotone(32, k); }
  }

  lemma SuffixStart(data: seq<byte>, start: int)
    ensures Pow2(0) + Peek(data, start, 0) == 1
  {}

  lemma SuffixStep(data: seq<byte>, start: int, i: nat)
    requires i < 31
    ensures 2 * (Pow2(i) + Peek(data, start, i)) + Bit(data, start + i) == Pow2(i + 1) + Peek(data, start, i + 1)
    ensures Pow2(i + 1) + Peek(data, start, i + 1) < 0x1_0000_0000
  {
    assert start + (i + 1) - 1 == start + i;
    Pow2Values();
    Pow2Monotone(i + 2, 32);
  }

  /** Every number has a code, of 2k + 1 bits where k is the number of times v + 1 can be halved. */
  lemma {:induction false} EveryNumberHasCode(v: nat) returns (k: nat)
    ensures Pow2(k) <= v + 1 < Pow2(k + 1)
  {
    if v == 0 {
      k := 0;
    } else {
      var j := EveryNumberHasCode((v + 1) / 2 - 1);
      k := j + 1;
    }
  }

  /** A word shifted up by n bits, of which the top n are lost. */
  function ShiftOut(word: nat, n: nat): nat { Shl(word, n) % Pow2(32) }

  lemma JoinBits(data: seq<byte>, pos: int, a: nat, b: nat)
    ensures Shl(Peek(data, pos, a), b) + Peek(data, pos + a, b) == Peek(data, pos, a + b)
  {
    PeekSplit(data, pos, a, b);
  }

  lemma ShlNone(x: nat)
    ensures Shl(x, 0) == x
  {}

  lemma PeekOne(data: seq<byte>, pos: int)
    ensures Peek(data, pos, 1) == Bit(data, pos)
  {
    assert Peek(data, pos, 0) == 0;
  }
}
