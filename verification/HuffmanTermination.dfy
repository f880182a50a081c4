/** When the run-length loop of huffmanTripleDecode stops, and when its 32-bit counter holds the run. The stream is
    padded with zeros for ever, so the first depends on the symbol of the all-zero code word. */
module HuffmanTermination {
  import opened Symbols
  import opened Wrappers
  import opened PowersOfTwo
  import opened Bits
  import opened HuffmanCodes
  import opened HuffmanDecode
  import opened HuffmanTripleDecoder

  /** The symbol decoded from padding, if there is one, asks for no further run length. */
  ghost predicate PaddingEndsRun(r: Alphabet)
    requires ValidAlphabet(r)
  {
    match r
    case EmptyAlphabet => true
    case SingleSymbol(s) => !NextSymbolIsRL(s)
    case Coded(es) => !NextSymbolIsRL(es[|es| - 1].symbol)
  }

  /** Nothing but zero bits from `pos` on. This holds from the end of every stream. */
  ghost predicate ZerosFrom(data: seq<byte>, pos: int) {
    forall p: int :: p >= pos ==> Bit(data, p) == 0
  }

  lemma PaddingIsZero()
    ensures forall data: seq<byte>, pos: nat :: pos >= 8 * |data| ==> ZerosFrom(data, pos)
    ensures ZerosFrom([0], 0)
  {
    hide BitOf;
    forall j: nat ensures BitOf(0, j) == 0 { NoBits(j); }
  }

  lemma {:induction false} PeekPadding(data: seq<byte>, pos: int, n: nat)
    requires ZerosFrom(data, pos)
    ensures Peek(data, pos, n) == 0
  {
    if n > 0 { PeekPadding(data, pos, n - 1); }
  }

  /** Zero bits decode to the last entry, the one with code zero. */
  lemma DecodePadding(r: Alphabet, data: seq<byte>, pos: int)
    requires ValidAlphabet(r) && r.Coded? && ZerosFrom(data, pos)
    ensures var e := r.entries[|r.entries| - 1];
            DecodeRef(r, data, pos) == Some(Decoded(e.symbol, e.bits)) && e.bits >= 1
  {
    var last := |r.entries| - 1;
    CodesFitEightBits(r.entries, last);
    PeekPadding(data, pos, r.entries[last].bits);
    MatchIndexIs(r.entries, data, pos, last);
  }

  lemma DecodeAdvances(r: Alphabet, data: seq<byte>, pos: int)
    requires ValidAlphabet(r) && r.Coded?
    ensures DecodeRef(r, data, pos).Some? && DecodeRef(r, data, pos).value.bits >= 1
  {
    CodesFitEightBits(r.entries, MatchIndex(r.entries, data, pos));
  }

  /** If padding ends a run, every run ends, after at most one symbol for each bit of the stream and one more. */
  lemma {:induction false} RunEnds(r: Alphabet, data: seq<byte>, pos: int, zeros: int, k: nat)
    requires ValidAlphabet(r) && PaddingEndsRun(r) && k > 0 && 8 * |data| - pos < k
    ensures RunRef(r, data, pos, zeros, k) != RunUnfinished
    decreases k
  {
    if r.Coded? {
      DecodeAdvances(r, data, pos);
      var d := DecodeRef(r, data, pos).value;
      if pos >= 8 * |data| {
        DecodePadding(r, data, pos);
      } else if NextSymbolIsRL(d.symbol) {
        RunEnds(r, data, pos + d.bits, ShiftInRun(zeros, d.symbol), k - 1);
      }
    }
  }

  /** If it does not, no run that is still being read when only zero bits are left ever ends. */
  lemma {:induction false} RunNeverEnds(r: Alphabet, data: seq<byte>, pos: int, zeros: int, k: nat)
    requires ValidAlphabet(r) && !PaddingEndsRun(r) && ZerosFrom(data, pos)
    ensures RunRef(r, data, pos, zeros, k) == RunUnfinished
    decreases k
  {
    if k > 0 {
      if r.Coded? { DecodePadding(r, data, pos); }
      var d := DecodeRef(r, data, pos).value;
      RunNeverEnds(r, data, pos + d.bits, ShiftInRun(zeros, d.symbol), k - 1);
    }
  }

  ghost predicate RunHasEnd(r: Alphabet, data: seq<byte>, pos: nat, zeros: int)
    requires ValidAlphabet(r)
  {
    exists k: nat :: RunRef(r, data, pos, zeros, k) != RunUnfinished
  }

  /** The run-length loop stops on every stream, from every place in it, exactly when the symbol of the all-zero code
      word has bit 7 clear. If that bit is set, it stops on no stream of zero bytes, and past the end of none. */
  lemma RunsEndIff(r: Alphabet)
    requires ValidAlphabet(r)
    ensures PaddingEndsRun(r) <==>
            forall data: seq<byte>, pos: nat :: 0 < |data| && pos <= 8 * |data| ==> RunHasEnd(r, data, pos, 0)
    ensures !PaddingEndsRun(r) ==>
            forall data: seq<byte>, pos: nat, zeros: int :: ZerosFrom(data, pos) ==> !RunHasEnd(r, data, pos, zeros)
    ensures forall data: seq<byte>, pos: nat :: pos >= 8 * |data| ==> ZerosFrom(data, pos)
  {
    hide RunRef, DecodeRef, PaddingEndsRun, ValidAlphabet, ZerosFrom;
    PaddingIsZero();
    if PaddingEndsRun(r) {
      forall data: seq<byte>, pos: nat, zeros: int ensures RunHasEnd(r, data, pos, zeros) {
        RunEnds(r, data, pos, zeros, 8 * |data| + 1);
      }
    } else {
      forall data: seq<byte>, pos: nat, zeros: int | ZerosFrom(data, pos) ensures !RunHasEnd(r, data, pos, zeros) {
        forall k: nat ensures RunRef(r, data, pos, zeros, k) == RunUnfinished { RunNeverEnds(r, data, pos, zeros, k); }
      }
      assert |[0 as byte]| == 1 && !RunHasEnd(r, [0], 0, 0);
    }
  }

  /** Three symbols, in the order in which the source sorts them, of which the one with code 00 has bit 7 set. */
  const EndlessRun := Coded([HuffmanListEntry(1, 0, 1), HuffmanListEntry(1, 0x81, 2), HuffmanListEntry(0, 0x80, 2)])

  /** Such an alphabet: the loop does not stop on a stream of one zero byte. */
  lemma EndlessRunExample()
    ensures ValidAlphabet(EndlessRun) && !PaddingEndsRun(EndlessRun) && !RunHasEnd(EndlessRun, [0], 0, 0)
  {
    hide RunRef, ZerosFrom, RunHasEnd, DecodeRef;
    var es := EndlessRun.entries;
    assert Pow2(2) == 4 && Floor(es, 0, 1) == 2 && Floor(es, 1, 1) == 1;
    assert Floor(es, 0, 2) == 4 && Floor(es, 1, 2) == 2 && Floor(es, 2, 2) == 1 && Floor(es, 3, 2) == 0;
    PaddingIsZero();
    RunsEndIff(EndlessRun);
  }

  /** So with such an alphabet the decoder's result exists for every stream, whatever the other two alphabets are. */
  lemma CoefficientExists(l: Alphabet, m: Alphabet, r: Alphabet, data: seq<byte>, pos: nat)
    requires ValidAlphabet(l) && ValidAlphabet(m) && ValidAlphabet(r) && PaddingEndsRun(r)
    ensures TripleRef(l, m, r, data, pos, 8 * |data| + 1) != Unfinished
  {
    hide RunRef, DecodeRef;
    var k := 8 * |data| + 1;
    forall p: nat, z: int ensures RunRef(r, data, p, z, k) != RunUnfinished { RunEnds(r, data, p, z, k); }
  }

  // -- Runs in 32 bits --------------------------------------------------------------------------

  /** Each run-length symbol adds seven bits to the run. */
  lemma {:induction false} RunBits(r: Alphabet, data: seq<byte>, pos: int, zeros: nat, k: nat, n: nat)
    requires ValidAlphabet(r) && RunRef(r, data, pos, zeros, k).RunDone? && zeros < Pow2(n)
    ensures zeros <= RunRef(r, data, pos, zeros, k).zeros < Pow2(n + 7 * k)
    decreases k
  {
    var d := DecodeRef(r, data, pos).value;
    var zeros' := ShiftInRun(zeros, d.symbol);
    DigitBits(zeros, d.symbol, n);
    Pow2Monotone(n + 7, n + 7 * k);
    hide DecodeRef, Pow2;
    if NextSymbolIsRL(d.symbol) {
      RunBits(r, data, pos + d.bits, zeros', k - 1, n + 7);
      assert n + 7 + 7 * (k - 1) == n + 7 * k;
    }
  }

  lemma DigitBits(zeros: nat, symbol: nat, n: nat)
    requires zeros < Pow2(n)
    ensures zeros <= ShiftInRun(zeros, symbol) < Pow2(n + 7)
  {
    hide Pow2;
    Pow2Add(n, 7);
    Pow2Values();
  }

  ghost predicate RunFits(run: RunResult, k: nat) {
    run.RunDone? ==> run.zeros >= 0 && (k <= 4 ==> run.zeros < 0x8000_0000)
  }

  lemma RunFromFits(r: Alphabet, data: seq<byte>, seek: bool, pos: int, k: nat)
    requires ValidAlphabet(r)
    ensures RunFits(RunFrom(r, data, seek, pos, 0, k), k)
  {
    hide RunRef, ValidAlphabet;
    if seek && RunRef(r, data, pos, 0, k).RunDone? {
      RunBits(r, data, pos, 0, k, 0);
      Pow2Values();
      if k <= 4 { Pow2Monotone(7 * k, 31); }
    }
  }

  /** What the 32-bit counter of the decoder returns is the run of the stream exactly when that is below 2^31, as it is
      when the stream gives at most four run-length symbols. */
  lemma RunHeldIff(l: Alphabet, m: Alphabet, r: Alphabet, data: seq<byte>, pos: int, k: nat)
    requires ValidAlphabet(l) && ValidAlphabet(m) && ValidAlphabet(r)
    ensures var c := TripleRef(l, m, r, data, pos, k);
            c.Coefficient? ==>
              && c.zeros >= 0 && (Held(c) == c <==> c.zeros < 0x8000_0000)
              && (k <= 4 ==> Held(c) == c)
  {
    hide RunFrom, ValidAlphabet, DecodeRef, LsbValue, MsbValue, NextSymbolIsRL, NextSymbolIsMSB;
    forall seek: bool, p: int ensures RunFits(RunFrom(r, data, seek, p, 0, k), k) {
      RunFromFits(r, data, seek, p, k);
    }
  }

  /** Two symbols of one bit each: a digit 8 of a run that goes on, and its last digit 0. */
  const LongRun := Coded([HuffmanListEntry(1, 0x88, 1), HuffmanListEntry(0, 0, 1)])

  lemma LongRunBit(data: seq<byte>, pos: int)
    ensures ValidAlphabet(LongRun)
    ensures DecodeRef(LongRun, data, pos) == Some(Decoded(if Bit(data, pos) == 1 then 0x88 else 0, 1))
  {
    var es := LongRun.entries;
    assert Floor(es, 0, 1) == 2 && Floor(es, 1, 1) == 1;
    assert Peek(data, pos, 1) == Bit(data, pos);
    MatchIndexIs(es, data, pos, 0);
  }

  lemma LongRunBits()
    ensures var data: seq<byte> := [0xF0];
            Bit(data, 0) == Bit(data, 1) == Bit(data, 2) == Bit(data, 3) == 1 && Bit(data, 4) == 0
  {
    hide Bit;
    var data: seq<byte> := [0xF0];
    BitsOfOneByte(data, 0);
    assert data[0] == 0xF0;
  }

  lemma LongRunStep(data: seq<byte>, pos: int, zeros: int, k: nat)
    ensures ValidAlphabet(LongRun)
    ensures RunRef(LongRun, data, pos, zeros, k + 1) ==
            if Bit(data, pos) == 1 then RunRef(LongRun, data, pos + 1, zeros * 128 + 8, k)
            else RunDone(zeros * 128, pos + 1)
  {
    hide DecodeRef, ValidAlphabet, Bit;
    LongRunBit(data, pos);
  }

  /** Such a run: four digits 8 and a 0 are 8 * (128^4 + 128^3 + 128^2 + 128), of which 32 bits hold a negative number,
      which is what the decoder returns for a coefficient with that run. */
  lemma LongRunExample()
    ensures ValidAlphabet(LongRun)
    ensures var c := TripleRef(SingleSymbol(0x80), EmptyAlphabet, LongRun, [0xF0], 0, 5);
            c == Coefficient(-32, 2164392960, 5) && Held(c) == Coefficient(-32, 2164392960 - 0x1_0000_0000, 5)
  {
    hide RunRef, Bit;
    LongRunBits();
    LongRunStep([0xF0], 0, 0, 4);
    LongRunStep([0xF0], 1, 8, 3);
    LongRunStep([0xF0], 2, 8 * 128 + 8, 2);
    LongRunStep([0xF0], 3, (8 * 128 + 8) * 128 + 8, 1);
    LongRunStep([0xF0], 4, ((8 * 128 + 8) * 128 + 8) * 128 + 8, 0);
    assert DecodeRef(SingleSymbol(0x80), [0xF0], 0) == Some(Decoded(0x80, 0));
  }
}
