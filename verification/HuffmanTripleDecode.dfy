/** huffmanTripleDecode: the table look-up with its two fall-backs decodes exactly what symbol-by-symbol
    prefix matching decodes. */
module HuffmanTripleDecoder {
  import opened Symbols
  import opened Wrappers
  import opened PowersOfTwo
  import opened Bits
  import opened HuffmanCodes
  import opened HuffmanTables
  import opened HuffmanBitStream
  import opened HuffmanDecode
  import opened HuffmanTriples

  const CODE_SIZE_TO_READ: nat := 23

  datatype RunResult = RunDone(zeros: int, pos: int) | RunFailed | RunUnfinished

  datatype Coefficient = Coefficient(value: int, zeros: int, pos: int) | Failed | Unfinished

  /** Reference: reads run-length symbols until one has bit 7 clear, at most k of them. */
  ghost function RunRef(r: Alphabet, data: seq<byte>, pos: int, zeros: int, k: nat): RunResult
    requires ValidAlphabet(r)
    decreases k
  {
    if k == 0 then RunUnfinished
    else
      var d := DecodeRef(r, data, pos);
      if d.None? then RunFailed
      else
        var zeros' := ShiftInRun(zeros, d.value.symbol);
        if NextSymbolIsRL(d.value.symbol) then RunRef(r, data, pos + d.value.bits, zeros', k - 1)
        else RunDone(zeros', pos + d.value.bits)
  }

  /** The run when `zeros` has been read so far: over, unless another symbol follows. */
  ghost function RunFrom(r: Alphabet, data: seq<byte>, seek: bool, pos: int, zeros: int, k: nat): RunResult
    requires ValidAlphabet(r)
  {
    if seek then RunRef(r, data, pos, zeros, k) else RunDone(zeros, pos)
  }

  ghost function WithRun(value: int, run: RunResult): Coefficient {
    match run
    case RunDone(z, p) => Coefficient(value, z, p)
    case RunFailed => Failed
    case RunUnfinished => Unfinished
  }

  /** The coefficient once its LSB is known: an MSB if the LSB asks for one, then the run. */
  ghost function AfterLsb(m: Alphabet, r: Alphabet, data: seq<byte>, lsb: nat, seek: bool, pos: int, zeros: int,
                          k: nat): Coefficient
    requires ValidAlphabet(m) && ValidAlphabet(r)
  {
    if NextSymbolIsMSB(lsb) then
      var d := DecodeRef(m, data, pos);
      if d.None? then Failed
      else WithRun(MsbValue(lsb, d.value.symbol),
                   RunFrom(r, data, NextSymbolIsRL(d.value.symbol), pos + d.value.bits, zeros, k))
    else WithRun(LsbValue(lsb), RunFrom(r, data, seek, pos, zeros, k))
  }

  /** Reference decoder of one coefficient: LSB, MSB if the LSB asks for one, then run lengths while bit 7 asks for one.
      The last argument bounds the number of run-length symbols read. */
  ghost function TripleRef(l: Alphabet, m: Alphabet, r: Alphabet, data: seq<byte>, pos: int, k: nat): Coefficient
    requires ValidAlphabet(l) && ValidAlphabet(m) && ValidAlphabet(r)
  {
    var d := DecodeRef(l, data, pos);
    if d.None? then Failed
    else AfterLsb(m, r, data, d.value.symbol, NextSymbolIsRL(d.value.symbol), pos + d.value.bits, 0, k)
  }

  lemma {:induction false} RunRefBound(r: Alphabet, data: seq<byte>, pos: int, zeros: int, k: nat, k': nat)
    requires ValidAlphabet(r) && k <= k' && RunRef(r, data, pos, zeros, k) != RunUnfinished
    ensures RunRef(r, data, pos, zeros, k') == RunRef(r, data, pos, zeros, k)
    decreases k
  {
    var d := DecodeRef(r, data, pos);
    if d.Some? && NextSymbolIsRL(d.value.symbol) {
      RunRefBound(r, data, pos + d.value.bits, ShiftInRun(zeros, d.value.symbol), k - 1, k' - 1);
    }
  }

  lemma RunFromBound(r: Alphabet, data: seq<byte>, seek: bool, pos: int, zeros: int, k: nat, k': nat)
    requires ValidAlphabet(r) && k <= k' && RunFrom(r, data, seek, pos, zeros, k) != RunUnfinished
    ensures RunFrom(r, data, seek, pos, zeros, k') == RunFrom(r, data, seek, pos, zeros, k)
  {
    if seek { RunRefBound(r, data, pos, zeros, k, k'); }
  }

  /** A bound that lets the reference finish is only a bound: a larger one gives the same coefficient. */
  lemma TripleRefBound(l: Alphabet, m: Alphabet, r: Alphabet, data: seq<byte>, pos: int, k: nat, k': nat)
    requires ValidAlphabet(l) && ValidAlphabet(m) && ValidAlphabet(r)
    requires k <= k' && TripleRef(l, m, r, data, pos, k) != Unfinished
    ensures TripleRef(l, m, r, data, pos, k') == TripleRef(l, m, r, data, pos, k)
  {
    hide RunRef, DecodeRef;
    var d := DecodeRef(l, data, pos);
    if d.Some? {
      var lsb, p := d.value.symbol, pos + d.value.bits;
      var e := DecodeRef(m, data, p);
      if !NextSymbolIsMSB(lsb) {
        RunFromBound(r, data, NextSymbolIsRL(lsb), p, 0, k, k');
      } else if e.Some? {
        RunFromBound(r, data, NextSymbolIsRL(e.value.symbol), p + e.value.bits, 0, k, k');
      }
    }
  }

  datatype TripleDecodeState = TripleDecodeState(
    tripleTable: seq<HuffmanTriple>, rlTable: seq<HuffmanEntry>,
    lsb: ManualDecodeState, msb: ManualDecodeState, rl: ManualDecodeState)

  /** The number of LSB codes that live in the triple table. */
  ghost function LsbCut(l: Alphabet): nat
    requires ValidAlphabet(l)
  {
    if l.Coded? then
      CodesInRange(l.entries);
      TripleCut(l.entries)
    else 0
  }

  ghost predicate TripleTableFor(l: Alphabet, r: Alphabet, table: seq<HuffmanTriple>)
    requires ValidAlphabet(l) && ValidAlphabet(r)
  {
    && |table| == BIG_TABLE_SIZE
    && forall idx :: 0 <= idx < |table| ==>
         table[idx] == if l.Coded? then TripleSpec(l.entries, r, LsbCut(l), idx) else ZERO_TRIPLE
  }

  ghost predicate StateFor(l: Alphabet, m: Alphabet, r: Alphabet, state: TripleDecodeState)
    requires ValidAlphabet(l) && ValidAlphabet(m) && ValidAlphabet(r)
  {
    && LengthsFor(l, state.lsb) && ListFrom(l, LsbCut(l), state.lsb)
    && LengthsFor(m, state.msb) && ListFrom(m, 0, state.msb)
    && LutStateFor(r, state.rl, state.rlTable)
    && TripleTableFor(l, r, state.tripleTable)
  }

  // -- The table index --------------------------------------------------------------------------

  /** Appending d bits to a b-bit number keeps its leading zeros, unless it is zero. */
  lemma {:induction false} ClzOfExtension(x: nat, b: nat, low: nat, d: nat)
    requires x < Pow2(b) && low < Pow2(d)
    ensures Shl(x, d) + low < Pow2(b + d)
    ensures if x > 0 then Clz(Shl(x, d) + low, b + d) == Clz(x, b) else Clz(Shl(x, d) + low, b + d) >= b == Clz(x, b)
    decreases b
  {
    ShlCompare(x, b, low, d);
    if b > 0 {
      ShlCompare(x, b - 1, low, d);
      assert b - 1 + d == b + d - 1;
      if x < Pow2(b - 1) { ClzOfExtension(x, b - 1, low, d); }
    }
  }

  /** The leading zeros the decoder counts in the next 23 bits. */
  function CountedZeros(code: nat, maxCodeLength: nat): nat
    requires code < Pow2(CODE_SIZE_TO_READ)
  {
    Min(Min(Clz(code, CODE_SIZE_TO_READ), maxCodeLength), MAX_LEADING_ZEROES)
  }

  /** A stream that starts with a code word has that word's leading zeros, or more if the word is all zeros. */
  lemma ZerosOfStream(e: HuffmanListEntry, data: seq<byte>, pos: int, n: nat)
    requires e.bits <= n && Matches(e, data, pos)
    ensures e.code < Pow2(e.bits)
    ensures var z := Clz(Peek(data, pos, n), n);
            if e.code > 0 then z == Clz(e.code, e.bits) else z >= e.bits == Clz(e.code, e.bits)
  {
    hide Peek, Clz, Pow2;
    PeekSplit(data, pos, e.bits, n - e.bits);
    ClzOfExtension(e.code, e.bits, Peek(data, pos + e.bits, n - e.bits), n - e.bits);
  }

  /** The zeros counted in the stream are those counted when its LSB code was put in the table. */
  lemma CountedZerosAgree(es: seq<HuffmanListEntry>, data: seq<byte>, pos: int)
    requires CompleteCode(es)
    ensures var e := es[MatchIndex(es, data, pos)];
            && e.code < Pow2(e.bits)
            && (e.bits <= CODE_SIZE_TO_READ ==>
                  CountedZeros(Peek(data, pos, CODE_SIZE_TO_READ), es[|es| - 1].bits) == LeadingZeroes(e))
  {
    var i := MatchIndex(es, data, pos);
    CodesFitEightBits(es, i);
    if es[i].bits <= CODE_SIZE_TO_READ {
      ZerosOfStream(es[i], data, pos, CODE_SIZE_TO_READ);
    }
  }

  /** After z leading zeros the next 8 bits are the low half of the table index. */
  lemma IndexBits(data: seq<byte>, pos: int, z: nat)
    requires z <= Clz(Peek(data, pos, CODE_SIZE_TO_READ), CODE_SIZE_TO_READ) && z <= MAX_LEADING_ZEROES
    ensures Peek(data, pos, CODE_SIZE_TO_READ) / Pow2(MAX_LEADING_ZEROES - z) == Peek(data, pos, BIG_CODE_BITS + z)
    ensures Peek(data, pos, BIG_CODE_BITS + z) < BIG_CODE_MASK_SIZE
  {
    hide Peek, Clz;
    var w, d := Peek(data, pos, CODE_SIZE_TO_READ), MAX_LEADING_ZEROES - z;
    PeekDivMod(data, pos, BIG_CODE_BITS + z, d);
    PeekSplit(data, pos, BIG_CODE_BITS + z, d);
    Pow2Monotone(CODE_SIZE_TO_READ - Clz(w, CODE_SIZE_TO_READ), CODE_SIZE_TO_READ - z);
    Pow2Values();
    Pow2Add(BIG_CODE_BITS, d);
    assert CODE_SIZE_TO_READ - z == BIG_CODE_BITS + d;
    if Peek(data, pos, BIG_CODE_BITS + z) >= BIG_CODE_MASK_SIZE {
      MulMonotone(BIG_CODE_MASK_SIZE, Peek(data, pos, BIG_CODE_BITS + z), Pow2(d));
    }
  }

  /** The count of leading zeros of the next 23 bits, followed by the 8 bits after those zeros. */
  function LutIndex(code: nat, maxCodeLength: nat): (idx: nat)
    requires code < Pow2(CODE_SIZE_TO_READ)
  {
    var z := CountedZeros(code, maxCodeLength);
    var plausiblyUsefulBits := BIG_CODE_BITS + z;
    z * BIG_CODE_MASK_SIZE + Shr(code, CODE_SIZE_TO_READ - plausiblyUsefulBits)
  }

  lemma LutIndexIs(data: seq<byte>, pos: int, maxCodeLength: nat)
    ensures var code := Peek(data, pos, CODE_SIZE_TO_READ); var z := CountedZeros(code, maxCodeLength);
            && Peek(data, pos, BIG_CODE_BITS + z) < BIG_CODE_MASK_SIZE
            && LutIndex(code, maxCodeLength) < BIG_TABLE_SIZE
            && LutIndex(code, maxCodeLength) == z * BIG_CODE_MASK_SIZE + Peek(data, pos, BIG_CODE_BITS + z)
  {
    hide Peek, Clz, Pow2;
    IndexBits(data, pos, CountedZeros(Peek(data, pos, CODE_SIZE_TO_READ), maxCodeLength));
  }

  /** The index the decoder looks up when it is at `pos`. */
  ghost function TableIndex(es: seq<HuffmanListEntry>, data: seq<byte>, pos: int): nat
    requires |es| > 0
  {
    LutIndex(Peek(data, pos, CODE_SIZE_TO_READ), es[|es| - 1].bits)
  }

  /** An index lies in the range of a code exactly when it counts that code's zeros and its bits start with the code. */
  lemma InRangeIff(e: HuffmanListEntry, z: nat, s: nat)
    requires e.code < Pow2(e.bits) && BitsLeftByLsb(e) >= 0 && s < BIG_CODE_MASK_SIZE
    ensures InRange(e, z * BIG_CODE_MASK_SIZE + s)
            <==> z == LeadingZeroes(e) && s / Pow2(BitsLeftByLsb(e)) == e.code
  {
    hide Pow2, Clz, LeadingZeroes, Shl, BitsLeftByLsb;
    var n := BitsLeftByLsb(e);
    StartInBlock(e);
    ShlInterval(e.code, n, s);
    InBlockIff(LeadingZeroes(e), z, Shl(e.code, n), s, Pow2(n));
  }

  lemma ShlInterval(code: nat, n: nat, s: nat)
    ensures Shl(code, n) <= s < Shl(code, n) + Pow2(n) <==> s / Pow2(n) == code
  {
    hide Pow2;
    QuotientInterval(s, Pow2(n), code);
    SumMul(code, 1, Pow2(n));
  }

  lemma InBlockIff(z: nat, z': nat, start: nat, s: nat, p: nat)
    requires start + p <= BIG_CODE_MASK_SIZE && s < BIG_CODE_MASK_SIZE
    ensures z * BIG_CODE_MASK_SIZE + start <= z' * BIG_CODE_MASK_SIZE + s < z * BIG_CODE_MASK_SIZE + start + p
            <==> z' == z && start <= s < start + p
  {}

  /** The index of a stream lies in the range of the LSB code the stream starts with, if that code fits, and in no
      other range. */
  lemma IndexInRange(es: seq<HuffmanListEntry>, data: seq<byte>, pos: int, j: nat)
    requires CompleteCode(es) && j < |es| && es[j].code < Pow2(es[j].bits) && BitsLeftByLsb(es[j]) >= 0
    ensures InRange(es[j], TableIndex(es, data, pos)) <==> j == MatchIndex(es, data, pos)
  {
    hide Peek, InRange, Clz, Pow2, CompleteCode, CountedZeros, LutIndex, LeadingZeroes, MatchIndex, Matches;
    var z := CountedZeros(Peek(data, pos, CODE_SIZE_TO_READ), es[|es| - 1].bits);
    LutIndexIs(data, pos, es[|es| - 1].bits);
    IndexMatches(es[j], data, pos, z);
    MatchIndexIs(es, data, pos, j);
    CountedZerosAgree(es, data, pos);
  }

  lemma IndexMatches(e: HuffmanListEntry, data: seq<byte>, pos: int, z: nat)
    requires e.code < Pow2(e.bits) && BitsLeftByLsb(e) >= 0
    requires Peek(data, pos, BIG_CODE_BITS + z) < BIG_CODE_MASK_SIZE
    ensures InRange(e, z * BIG_CODE_MASK_SIZE + Peek(data, pos, BIG_CODE_BITS + z))
            <==> z == LeadingZeroes(e) && Matches(e, data, pos)
  {
    InRangeIff(e, z, Peek(data, pos, BIG_CODE_BITS + z));
    if z == LeadingZeroes(e) { MatchesKnownBits(e, data, pos, BIG_CODE_BITS + z); }
  }

  lemma {:induction false} OwnerIs(es: seq<HuffmanListEntry>, r: Alphabet, k: nat, idx: nat, i: nat)
    requires ValidAlphabet(r) && CompleteCode(es) && i < k <= |es| && InRange(es[i], idx)
    ensures TripleSpec(es, r, k, idx) == EntrySpec(r, es[i], idx - StartIndex(es[i]), BitsLeftByLsb(es[i]))
  {
    if i < k - 1 {
      RangesDisjoint(es, i, k - 1, idx);
      OwnerIs(es, r, k - 1, idx, i);
    }
  }

  lemma {:induction false} NoOwner(es: seq<HuffmanListEntry>, r: Alphabet, k: nat, idx: nat)
    requires ValidAlphabet(r) && k <= |es| && forall j :: 0 <= j < k ==> !InRange(es[j], idx)
    ensures TripleSpec(es, r, k, idx) == ZERO_TRIPLE
  {
    if k > 0 { NoOwner(es, r, k - 1, idx); }
  }

  /** The zero entry marks an LSB code that overflowed to the list. */
  lemma OverflowAt(l: Alphabet, r: Alphabet, data: seq<byte>, pos: int)
    requires ValidAlphabet(l) && ValidAlphabet(r) && l.Coded? && MatchIndex(l.entries, data, pos) >= LsbCut(l)
    ensures TripleSpec(l.entries, r, LsbCut(l), TableIndex(l.entries, data, pos)) == ZERO_TRIPLE
  {
    CodesInRange(l.entries);
    forall j | 0 <= j < LsbCut(l) ensures !InRange(l.entries[j], TableIndex(l.entries, data, pos)) {
      IndexInRange(l.entries, data, pos, j);
    }
    NoOwner(l.entries, r, LsbCut(l), TableIndex(l.entries, data, pos));
  }

  /** The offset into the range of a code is the value of the known bits after it. */
  lemma OffsetIn(e: HuffmanListEntry, data: seq<byte>, pos: int, z: nat)
    requires z <= MAX_LEADING_ZEROES && Peek(data, pos, BIG_CODE_BITS + z) < BIG_CODE_MASK_SIZE
    requires InRange(e, z * BIG_CODE_MASK_SIZE + Peek(data, pos, BIG_CODE_BITS + z))
    ensures e.bits + BitsLeftByLsb(e) <= CODE_SIZE_TO_READ
    ensures z * BIG_CODE_MASK_SIZE + Peek(data, pos, BIG_CODE_BITS + z) - StartIndex(e)
            == Peek(data, pos + e.bits, BitsLeftByLsb(e))
  {
    hide Peek, Clz;
    var s, d := Peek(data, pos, BIG_CODE_BITS + z), BitsLeftByLsb(e);
    var idx := z * BIG_CODE_MASK_SIZE + s;
    InRangeMeans(e, idx);
    assert idx / BIG_CODE_MASK_SIZE == z && idx % BIG_CODE_MASK_SIZE == s;
    PeekDivMod(data, pos, e.bits, d);
    assert e.bits + d == BIG_CODE_BITS + z;
  }

  /** The entry found for an LSB code that fits: the one specified for that code and the bits after it. */
  ghost predicate FoundEntry(r: Alphabet, e: HuffmanListEntry, data: seq<byte>, pos: int, t: HuffmanTriple)
    requires ValidAlphabet(r)
  {
    && e.code < Pow2(e.bits) && 0 <= BitsLeftByLsb(e) && e.bits + BitsLeftByLsb(e) <= CODE_SIZE_TO_READ
    && t == EntrySpec(r, e, Peek(data, pos + e.bits, BitsLeftByLsb(e)), BitsLeftByLsb(e))
  }

  lemma FoundInRange(r: Alphabet, e: HuffmanListEntry, data: seq<byte>, pos: int, z: nat, idx: nat)
    requires ValidAlphabet(r)
    requires z <= MAX_LEADING_ZEROES && Peek(data, pos, BIG_CODE_BITS + z) < BIG_CODE_MASK_SIZE
    requires idx == z * BIG_CODE_MASK_SIZE + Peek(data, pos, BIG_CODE_BITS + z) && InRange(e, idx)
    ensures FoundEntry(r, e, data, pos, EntrySpec(r, e, idx - StartIndex(e), BitsLeftByLsb(e)))
  {
    hide Peek, Clz, EntrySpec;
    OffsetIn(e, data, pos, z);
  }

  /** Otherwise the decoder finds the entry of the stream's own LSB code, with the bits that follow it. */
  lemma EntryAt(l: Alphabet, r: Alphabet, data: seq<byte>, pos: int)
    requires ValidAlphabet(l) && ValidAlphabet(r) && l.Coded? && MatchIndex(l.entries, data, pos) < LsbCut(l)
    ensures FoundEntry(r, l.entries[MatchIndex(l.entries, data, pos)], data, pos,
                       TripleSpec(l.entries, r, LsbCut(l), TableIndex(l.entries, data, pos)))
  {
    hide Clz, TripleSpec, EntrySpec, InRange, FoundEntry, CompleteCode;
    CodesInRange(l.entries);
    var i, maxLength := MatchIndex(l.entries, data, pos), l.entries[|l.entries| - 1].bits;
    LutIndexIs(data, pos, maxLength);
    IndexInRange(l.entries, data, pos, i);
    FoundByOwner(l.entries, r, LsbCut(l), i, data, pos, CountedZeros(Peek(data, pos, CODE_SIZE_TO_READ), maxLength),
                 TableIndex(l.entries, data, pos));
  }

  lemma FoundByOwner(es: seq<HuffmanListEntry>, r: Alphabet, cut: nat, i: nat, data: seq<byte>, pos: int, z: nat,
                     idx: nat)
    requires ValidAlphabet(r) && CompleteCode(es) && i < cut <= |es|
    requires z <= MAX_LEADING_ZEROES && Peek(data, pos, BIG_CODE_BITS + z) < BIG_CODE_MASK_SIZE
    requires idx == z * BIG_CODE_MASK_SIZE + Peek(data, pos, BIG_CODE_BITS + z) && InRange(es[i], idx)
    ensures FoundEntry(r, es[i], data, pos, TripleSpec(es, r, cut, idx))
  {
    hide Peek, Clz, TripleSpec, EntrySpec, FoundEntry, CompleteCode;
    OwnerIs(es, r, cut, idx, i);
    FoundInRange(r, es[i], data, pos, z, idx);
  }

  // -- Run lengths in the table -----------------------------------------------------------------

  lemma ShiftInSmall(rl: nat, symbol: nat, level: nat)
    requires level < 2 && rl < Pow2(7 * level)
    ensures ShiftInRun(rl, symbol) < Pow2(7 * (level + 1))
  {
    Pow2Values();
    Pow2Add(7, 7);
    assert level == 0 || level == 1;
  }

  lemma DecodeCovered(r: Alphabet, data: seq<byte>, pos: int, n: nat, i: nat)
    requires ValidAlphabet(r) && r.Coded?
    requires i < |r.entries| && r.entries[i].bits <= n && Covers(r.entries, i, n, Peek(data, pos, n))
    ensures DecodeRef(r, data, pos) == Some(Decoded(r.entries[i].symbol, r.entries[i].bits))
  {
    MatchesInterval(r.entries, i, data, pos, n);
    MatchIndexIs(r.entries, data, pos, i);
  }

  /** One run-length symbol of the table is one run-length symbol of the stream. */
  lemma RunStep(r: Alphabet, data: seq<byte>, pos: int, n: nat, level: nat, rl: nat, k: nat, i: nat, rl': nat)
    requires ValidAlphabet(r) && r.Coded? && level < 2 && rl < Pow2(7 * level)
    requires i < |r.entries| && r.entries[i].bits <= n && Covers(r.entries, i, n, Peek(data, pos, n))
    requires rl' == ShiftInRun(rl, r.entries[i].symbol) && RunRef(r, data, pos, rl, k) != RunUnfinished
    ensures k > 0 && rl' < Pow2(7 * (level + 1))
    ensures RunRef(r, data, pos, rl, k) ==
            if NextSymbolIsRL(r.entries[i].symbol) then RunRef(r, data, pos + r.entries[i].bits, rl', k - 1)
            else RunDone(rl', pos + r.entries[i].bits)
  {
    DecodeCovered(r, data, pos, n, i);
    ShiftInSmall(rl, r.entries[i].symbol, level);
  }

  /** Where decoding the run stands after a table entry t whose LSB took `size` bits and ended at `pos`. */
  ghost function RunAfter(r: Alphabet, data: seq<byte>, pos: int, t: HuffmanTriple, size: nat, k: nat): RunResult
    requires ValidAlphabet(r)
  {
    RunFrom(r, data, t.contents % 8 != 0, pos + GetBits(t.contents) - size, t.rl, k)
  }

  /** Decoding run lengths inside the table is the beginning of decoding them from the stream. */
  lemma {:induction false} RunSpecSound(r: Alphabet, data: seq<byte>, pos: int, n: nat, lsb: nat, level: nat, rl: nat,
                                        size: nat, k: nat)
    returns (k': nat)
    requires ValidAlphabet(r) && level <= 2 && rl < Pow2(7 * level)
    requires RunRef(r, data, pos, rl, k) != RunUnfinished
    ensures k' <= k
    ensures RunRef(r, data, pos, rl, k)
            == RunAfter(r, data, pos, RunSpec(r, lsb, Peek(data, pos, n), n, level, rl, size), size, k')
    decreases 2 - level
  {
    hide RunRef, RunSpec, AfterRun, RunAfter, Floor, Peek, Pow2, Code, Covers, NextSymbolIsRL;
    k' := k;
    var v := Peek(data, pos, n);
    if level < 2 && r.Coded? && v >= Floor(r.entries, ShortCount(r.entries, n), n) {
      var i := CoverIndex(r.entries, n, v);
      var bits, rl' := r.entries[i].bits, ShiftInRun(rl, r.entries[i].symbol);
      RunStep(r, data, pos, n, level, rl, k, i, rl');
      RunSpecStep(r, lsb, v, n, level, rl, size, i);
      if NextSymbolIsRL(r.entries[i].symbol) {
        k' := RunSpecSound(r, data, pos + bits, n - bits, lsb, level + 1, rl', size + bits, k - 1);
        AfterRunPeek(r, data, pos, n, lsb, level, rl, size, i, bits, rl');
        RunAfterMoved(r, data, pos, bits, RunSpec(r, lsb, Peek(data, pos + bits, n - bits), n - bits, level + 1, rl',
                                                  size + bits), size, k');
      } else {
        LeafAfter(r, data, pos, lsb, v, n, level, rl, size, i, k);
      }
    } else {
      StopAfter(r, data, pos, lsb, v, n, level, rl, size, k);
    }
  }

  lemma RunAfterMoved(r: Alphabet, data: seq<byte>, pos: int, bits: nat, t: HuffmanTriple, size: nat, k: nat)
    requires ValidAlphabet(r)
    ensures RunAfter(r, data, pos + bits, t, size + bits, k) == RunAfter(r, data, pos, t, size, k)
  {
    hide RunFrom, GetBits;
    assert pos + bits + GetBits(t.contents) - (size + bits) == pos + GetBits(t.contents) - size;
  }

  /** The run of an entry that ends with run-length entry i is over. */
  lemma LeafAfter(r: Alphabet, data: seq<byte>, pos: int, lsb: nat, v: nat, n: nat, level: nat, rl: nat, size: nat,
                  i: nat, k: nat)
    requires ValidAlphabet(r) && r.Coded? && level < 2
    requires i < ShortCount(r.entries, n) && Covers(r.entries, i, n, v) && !NextSymbolIsRL(r.entries[i].symbol)
    ensures v < Pow2(n)
    ensures RunAfter(r, data, pos, RunSpec(r, lsb, v, n, level, rl, size), size, k) ==
            RunDone(ShiftInRun(rl, r.entries[i].symbol), pos + r.entries[i].bits)
  {
    hide RunSpec, AfterRun, Floor, Covers, Pow2, RunRef, CompleteCode, NextSymbolIsRL;
    LeafIndex(r, lsb, v, n, level, rl, size, i);
  }

  /** The run of an incomplete entry is still to be read from the stream. */
  lemma StopAfter(r: Alphabet, data: seq<byte>, pos: int, lsb: nat, v: nat, n: nat, level: nat, rl: nat, size: nat,
                  k: nat)
    requires ValidAlphabet(r) && v < Pow2(n)
    requires level >= 2 || !r.Coded? || v < Floor(r.entries, ShortCount(r.entries, n), n)
    ensures RunAfter(r, data, pos, RunSpec(r, lsb, v, n, level, rl, size), size, k) == RunRef(r, data, pos, rl, k)
  {
    hide AfterRun, Floor, Covers, Pow2, RunRef, CompleteCode;
  }

  lemma AfterRunPeek(r: Alphabet, data: seq<byte>, pos: int, n: nat, lsb: nat, level: nat, rl: nat, size: nat, i: nat,
                     bits: nat, rl': nat)
    requires ValidAlphabet(r) && r.Coded? && level < 2 && i < |r.entries| && NextSymbolIsRL(r.entries[i].symbol)
    requires bits == r.entries[i].bits <= n && rl' == ShiftInRun(rl, r.entries[i].symbol)
    ensures AfterRun(r, lsb, Peek(data, pos, n), n, level, rl, size, i)
            == RunSpec(r, lsb, Peek(data, pos + bits, n - bits), n - bits, level + 1, rl', size + bits)
  {
    PeekDivMod(data, pos, bits, n - bits);
    AfterRunChild(r, lsb, Peek(data, pos, n), n, level, rl, size, i, Peek(data, pos + bits, n - bits), n - bits,
                  rl', size + bits);
  }

  // -- The decoder ------------------------------------------------------------------------------

  function GetBits(contents: nat): nat { contents / 8 }
  predicate LsbOverflowed(contents: nat) { GetBits(contents) == 0 }
  predicate IsIncomplete(contents: nat) { LsbOverflowed(contents) || contents % 4 != 0 }

  ghost predicate Ready(stream: HuffmanStream) reads stream {
    stream.Valid() && stream.wordEndBit - stream.wordStartBit <= CODE_SIZE_TO_READ
  }

  /** Tops the window up to 23 bits and forms the table index. */
  method ReadTableIndex(maxCodeLength: nat, stream: HuffmanStream) returns (lutIdx: nat)
    requires Ready(stream)
    modifies stream
    ensures Ready(stream) && stream.Position() == old(stream.Position())
    ensures stream.wordEndBit - stream.wordStartBit == CODE_SIZE_TO_READ
    ensures lutIdx == LutIndex(Peek(stream.data, old(stream.Position()), CODE_SIZE_TO_READ), maxCodeLength)
  {
    hide CountedZeros, LutIndex, Peek;
    stream.AdvanceByNBits(CODE_SIZE_TO_READ - (stream.wordEndBit - stream.wordStartBit));
    ExtractIsPeek(stream.data, stream.Base(), stream.wordStartBit, stream.wordEndBit);
    var code := ExtractBits(stream.word, stream.wordStartBit, stream.wordEndBit);
    lutIdx := LutIndex(code, maxCodeLength);
  }

  /** What a 32-bit counter holds of a run. */
  ghost function HeldRun(run: RunResult): RunResult {
    if run.RunDone? then run.(zeros := ToInt32(run.zeros)) else run
  }

  ghost function Held(c: Coefficient): Coefficient { if c.Coefficient? then c.(zeros := ToInt32(c.zeros)) else c }

  /** One round of the run-length loop. */
  method ReadRunSymbol(rlState: ManualDecodeState, rlTable: seq<HuffmanEntry>, stream: HuffmanStream, zeros: int,
                       ghost r: Alphabet, ghost run: int, ghost left: nat)
    returns (ok: bool, newZeros: int, seek: bool, ghost newRun: int)
    requires ValidAlphabet(r) && LutStateFor(r, rlState, rlTable) && Ready(stream) && zeros == ToInt32(run)
    requires RunRef(r, stream.data, stream.Position(), run, left) != RunUnfinished
    modifies stream
    ensures left > 0 && (ok ==> Ready(stream)) && newZeros == ToInt32(newRun)
    ensures RunRef(r, stream.data, old(stream.Position()), run, left)
            == if ok then RunFrom(r, stream.data, seek, stream.Position(), newRun, left - 1) else RunFailed
  {
    hide ValidAlphabet, LutStateFor, ToInt32;
    var symbol;
    ok, symbol := LutThenListDecode(rlState, rlTable, stream, r);
    newRun := ShiftInRun(run, symbol);
    ShiftWraps(run, symbol);
    newZeros, seek := ToInt32(ShiftInRun(zeros, symbol)), NextSymbolIsRL(symbol);
  }

  /** Reads run-length symbols, look-up table first, until one has bit 7 clear, with a 32-bit counter. */
  method SeekRunLengths(rlState: ManualDecodeState, rlTable: seq<HuffmanEntry>, stream: HuffmanStream, seek: bool,
                        rl: nat, ghost r: Alphabet, ghost k: nat)
    returns (ok: bool, zeros: int)
    requires ValidAlphabet(r) && LutStateFor(r, rlState, rlTable) && Ready(stream)
    requires RunFrom(r, stream.data, seek, stream.Position(), rl, k) != RunUnfinished
    modifies stream
    ensures ok ==> Ready(stream)
    ensures HeldRun(RunFrom(r, stream.data, seek, old(stream.Position()), rl, k))
            == if ok then RunDone(zeros, stream.Position()) else RunFailed
  {
    hide ValidAlphabet, LutStateFor, ToInt32, RunRef;
    ghost var result, run, left: nat := RunFrom(r, stream.data, seek, stream.Position(), rl, k), rl, k;
    zeros := ToInt32(rl);
    var seekRunLengths := seek;
    while seekRunLengths
      invariant Ready(stream) && zeros == ToInt32(run)
      invariant result == RunFrom(r, stream.data, seekRunLengths, stream.Position(), run, left)
      decreases left, seekRunLengths
    {
      ok, zeros, seekRunLengths, run := ReadRunSymbol(rlState, rlTable, stream, zeros, r, run, left);
      if !ok {
        return false, 0;
      }
      left := left - 1;
    }
    ok := true;
  }

  /** What a table entry t found at `pos` says about the coefficient `result` that starts there: nothing, if the LSB
      overflowed; else the LSB, and where decoding stands after the bits the entry covers. */
  ghost predicate EntrySays(l: Alphabet, m: Alphabet, r: Alphabet, data: seq<byte>, pos: int, k': nat, t: HuffmanTriple,
                            result: Coefficient)
    requires ValidAlphabet(l) && ValidAlphabet(m) && ValidAlphabet(r)
  {
    if LsbOverflowed(t.contents) then t == ZERO_TRIPLE && (l.Coded? ==> MatchIndex(l.entries, data, pos) >= LsbCut(l))
    else
      && GetBits(t.contents) <= CODE_SIZE_TO_READ
      && (if NextSymbolIsMSB(t.lsb) then t.contents % 8 == 2 else t.contents % 8 <= 1)
      && result == AfterLsb(m, r, data, t.lsb, t.contents % 8 != 0, pos + GetBits(t.contents), t.rl, k')
  }

  /** The entry of an LSB that no run length follows. */
  lemma FoundNoRun(l: Alphabet, m: Alphabet, r: Alphabet, data: seq<byte>, pos: int, k: nat, e: HuffmanListEntry,
                   t: HuffmanTriple)
    requires ValidAlphabet(l) && ValidAlphabet(m) && ValidAlphabet(r) && 1 <= e.bits <= CODE_SIZE_TO_READ
    requires NextSymbolIsMSB(e.symbol) || !NextSymbolIsRL(e.symbol)
    requires t == HuffmanTriple(8 * e.bits + if NextSymbolIsMSB(e.symbol) then 2 else 0, e.symbol, 0)
    ensures EntrySays(l, m, r, data, pos, k, t,
                      AfterLsb(m, r, data, e.symbol, NextSymbolIsRL(e.symbol), pos + e.bits, 0, k))
  {
    hide RunRef, DecodeRef, ValidAlphabet;
  }

  /** The entry of an LSB that run lengths follow. */
  lemma FoundRun(l: Alphabet, m: Alphabet, r: Alphabet, data: seq<byte>, pos: int, k: nat, k': nat, e: HuffmanListEntry,
                 n: nat, t: HuffmanTriple)
    requires ValidAlphabet(l) && ValidAlphabet(m) && ValidAlphabet(r) && 1 <= e.bits && e.bits + n <= CODE_SIZE_TO_READ
    requires !NextSymbolIsMSB(e.symbol) && NextSymbolIsRL(e.symbol)
    requires t.lsb == e.symbol && 8 * e.bits <= t.contents <= 8 * (e.bits + n) + 1 && t.contents % 8 <= 1
    requires RunRef(r, data, pos + e.bits, 0, k) == RunAfter(r, data, pos + e.bits, t, e.bits, k')
    ensures EntrySays(l, m, r, data, pos, k', t, AfterLsb(m, r, data, e.symbol, true, pos + e.bits, 0, k))
  {
    hide RunRef, DecodeRef, ValidAlphabet;
    assert pos + e.bits + GetBits(t.contents) - e.bits == pos + GetBits(t.contents);
  }

  /** A fitting LSB's entry says the right thing. */
  lemma FoundSays(l: Alphabet, m: Alphabet, r: Alphabet, data: seq<byte>, pos: int, k: nat, t: HuffmanTriple)
    returns (k': nat)
    requires ValidAlphabet(l) && ValidAlphabet(m) && ValidAlphabet(r) && l.Coded?
    requires TripleRef(l, m, r, data, pos, k) != Unfinished
    requires FoundEntry(r, l.entries[MatchIndex(l.entries, data, pos)], data, pos, t)
    ensures EntrySays(l, m, r, data, pos, k', t, TripleRef(l, m, r, data, pos, k))
  {
    hide TripleRef, RunRef, RunSpec, EntrySays, RunAfter, Peek, CompleteCode, MatchIndex, NextSymbolIsRL,
         NextSymbolIsMSB, Clz;
    k' := k;
    var i := MatchIndex(l.entries, data, pos);
    var e := l.entries[i];
    LsbMatched(l, m, r, data, pos, k);
    CodesFitEightBits(l.entries, i);
    if NextSymbolIsMSB(e.symbol) || !NextSymbolIsRL(e.symbol) {
      FoundNoRun(l, m, r, data, pos, k, e, t);
    } else {
      k' := RunSpecSound(r, data, pos + e.bits, BitsLeftByLsb(e), e.symbol, 0, 0, e.bits, k);
      FoundRun(l, m, r, data, pos, k, k', e, BitsLeftByLsb(e), t);
    }
  }

  lemma LsbMatched(l: Alphabet, m: Alphabet, r: Alphabet, data: seq<byte>, pos: int, k: nat)
    requires ValidAlphabet(l) && ValidAlphabet(m) && ValidAlphabet(r) && l.Coded?
    ensures var e := l.entries[MatchIndex(l.entries, data, pos)];
            TripleRef(l, m, r, data, pos, k) ==
            AfterLsb(m, r, data, e.symbol, NextSymbolIsRL(e.symbol), pos + e.bits, 0, k)
  {
    hide AfterLsb;
  }

  /** The entry at the decoder's index says the right thing about every stream. */
  lemma LookupSays(l: Alphabet, m: Alphabet, r: Alphabet, state: TripleDecodeState, data: seq<byte>, pos: int, k: nat)
    returns (k': nat)
    requires ValidAlphabet(l) && ValidAlphabet(m) && ValidAlphabet(r) && StateFor(l, m, r, state)
    requires TripleRef(l, m, r, data, pos, k) != Unfinished
    ensures var idx := LutIndex(Peek(data, pos, CODE_SIZE_TO_READ), state.lsb.maxCodeLength);
            && idx < |state.tripleTable|
            && EntrySays(l, m, r, data, pos, k', state.tripleTable[idx], TripleRef(l, m, r, data, pos, k))
  {
    k' := k;
    hide Peek, LutIndex, RunRef, TripleSpec, Pow2, CompleteCode, CountedZeros, MatchIndex;
    LutIndexIs(data, pos, state.lsb.maxCodeLength);
    var idx := LutIndex(Peek(data, pos, CODE_SIZE_TO_READ), state.lsb.maxCodeLength);
    if l.Coded? {
      assert idx == TableIndex(l.entries, data, pos);
      if MatchIndex(l.entries, data, pos) < LsbCut(l) {
        EntryAt(l, r, data, pos);
        k' := FoundSays(l, m, r, data, pos, k, state.tripleTable[idx]);
      } else {
        OverflowAt(l, r, data, pos);
      }
    }
  }

  lemma OverflowedLsb(l: Alphabet, m: Alphabet, r: Alphabet, data: seq<byte>, pos: int, k: nat)
    requires ValidAlphabet(l) && ValidAlphabet(m) && ValidAlphabet(r)
    ensures var d := DecodeRef(l, data, pos);
            TripleRef(l, m, r, data, pos, k) ==
            if d.None? then Failed
            else AfterLsb(m, r, data, d.value.symbol, NextSymbolIsRL(d.value.symbol), pos + d.value.bits, 0, k)
  {
    hide RunRef, DecodeRef, AfterLsb, ValidAlphabet;
  }

  /** An entry that holds its LSB but is incomplete: the run, or the MSB, is still to come. */
  lemma IncompleteEntry(l: Alphabet, m: Alphabet, r: Alphabet, data: seq<byte>, pos: int, k': nat, t: HuffmanTriple,
                        result: Coefficient)
    requires ValidAlphabet(l) && ValidAlphabet(m) && ValidAlphabet(r)
    requires EntrySays(l, m, r, data, pos, k', t, result) && IsIncomplete(t.contents) && !LsbOverflowed(t.contents)
    ensures result == AfterLsb(m, r, data, t.lsb, true, pos + GetBits(t.contents), t.rl, k')
  {
    hide RunRef, DecodeRef, ValidAlphabet, LsbCut;
  }

  lemma OverflowedEntry(l: Alphabet, m: Alphabet, r: Alphabet, data: seq<byte>, pos: int, k': nat, t: HuffmanTriple,
                        result: Coefficient)
    requires ValidAlphabet(l) && ValidAlphabet(m) && ValidAlphabet(r)
    requires EntrySays(l, m, r, data, pos, k', t, result) && LsbOverflowed(t.contents)
    ensures t == ZERO_TRIPLE && (l.Coded? ==> MatchIndex(l.entries, data, pos) >= LsbCut(l))
  {
    hide RunRef, DecodeRef, AfterLsb;
  }

  /** The LSB of an incomplete entry: from the entry, or from the list if it overflowed. */
  method DecodeLsb(lsbState: ManualDecodeState, stream: HuffmanStream, triplet: HuffmanTriple, ghost l: Alphabet,
                   ghost m: Alphabet, ghost r: Alphabet, ghost pos: int, ghost k: nat, ghost k': nat,
                   ghost result: Coefficient)
    returns (ok: bool, lsb: nat, seek: bool, ghost left: nat)
    requires ValidAlphabet(l) && ValidAlphabet(m) && ValidAlphabet(r)
    requires LengthsFor(l, lsbState) && ListFrom(l, LsbCut(l), lsbState)
    requires Ready(stream) && stream.Position() == pos + GetBits(triplet.contents)
    requires result == TripleRef(l, m, r, stream.data, pos, k)
    requires EntrySays(l, m, r, stream.data, pos, k', triplet, result)
    requires IsIncomplete(triplet.contents)
    modifies stream
    ensures ok ==> Ready(stream)
    ensures result == if ok then AfterLsb(m, r, stream.data, lsb, seek, stream.Position(), triplet.rl, left) else Failed
  {
    hide TripleRef, AfterLsb, EntrySays, DecodeRef, LsbCut, ValidAlphabet, ListFrom, LengthsFor;
    seek := true;
    if LsbOverflowed(triplet.contents) {
      OverflowedEntry(l, m, r, stream.data, pos, k', triplet, result);
      OverflowedLsb(l, m, r, stream.data, pos, k);
      ok, lsb := ManualDecodeMaybeSingle(lsbState, stream, l, LsbCut(l));
      seek, left := NextSymbolIsRL(lsb), k;
    } else {
      IncompleteEntry(l, m, r, stream.data, pos, k', triplet, result);
      ok, lsb, left := true, triplet.lsb, k';
    }
  }

  /** The MSB, if the LSB asks for one, and the value. */
  method DecodeMsb(msbState: ManualDecodeState, stream: HuffmanStream, lsb: nat, seekAfterLsb: bool, ghost zeros: int,
                   ghost m: Alphabet, ghost r: Alphabet, ghost k: nat)
    returns (ok: bool, value: int, seek: bool)
    requires ValidAlphabet(m) && ValidAlphabet(r) && LengthsFor(m, msbState) && ListFrom(m, 0, msbState)
    requires Ready(stream)
    modifies stream
    ensures ok ==> Ready(stream)
    ensures AfterLsb(m, r, stream.data, lsb, seekAfterLsb, old(stream.Position()), zeros, k)
            == if ok then WithRun(value, RunFrom(r, stream.data, seek, stream.Position(), zeros, k)) else Failed
  {
    hide ValidAlphabet, RunRef, ListFrom, LengthsFor;
    if NextSymbolIsMSB(lsb) {
      var msb;
      ok, msb := ManualDecodeMaybeSingle(msbState, stream, m, 0);
      seek, value := NextSymbolIsRL(msb), MsbValue(lsb, msb);
    } else {
      ok, seek, value := true, seekAfterLsb, LsbValue(lsb);
    }
  }

  /** Everything after the table look-up, when the entry is incomplete. */
  method DecodeRest(state: TripleDecodeState, stream: HuffmanStream, triplet: HuffmanTriple, ghost l: Alphabet,
                    ghost m: Alphabet, ghost r: Alphabet, ghost pos: int, ghost k: nat, ghost k': nat,
                    ghost result: Coefficient)
    returns (ok: bool, value: int, zeros: int)
    requires ValidAlphabet(l) && ValidAlphabet(m) && ValidAlphabet(r) && StateFor(l, m, r, state)
    requires Ready(stream) && stream.Position() == pos + GetBits(triplet.contents)
    requires result == TripleRef(l, m, r, stream.data, pos, k)
    requires EntrySays(l, m, r, stream.data, pos, k', triplet, result)
    requires IsIncomplete(triplet.contents) && result != Unfinished
    modifies stream
    ensures ok ==> Ready(stream)
    ensures Held(result) == if ok then Coefficient(value, zeros, stream.Position()) else Failed
  {
    hide ToInt32, TripleRef, EntrySays, ValidAlphabet, RunRef;
    var lsb, seek; ghost var left;
    ok, lsb, seek, left := DecodeLsb(state.lsb, stream, triplet, l, m, r, pos, k, k', result);
    if ok {
      ok, value, seek := DecodeMsb(state.msb, stream, lsb, seek, triplet.rl, m, r, left);
    }
    if !ok {
      return false, 0, 0;
    }
    ok, zeros := SeekRunLengths(state.rl, state.rlTable, stream, seek, triplet.rl, r, left);
  }

  /** A complete entry is the whole coefficient. */
  lemma CompleteEntry(l: Alphabet, m: Alphabet, r: Alphabet, data: seq<byte>, pos: int, k': nat, t: HuffmanTriple,
                      result: Coefficient)
    requires ValidAlphabet(l) && ValidAlphabet(m) && ValidAlphabet(r)
    requires EntrySays(l, m, r, data, pos, k', t, result) && !IsIncomplete(t.contents)
    ensures result == Coefficient(LsbValue(t.lsb), t.rl, pos + GetBits(t.contents))
  {
    hide RunRef, DecodeRef, ValidAlphabet, LsbCut;
  }

  /** Consumes the bits of the entry at the decoder's index. */
  method LookUp(state: TripleDecodeState, stream: HuffmanStream, ghost l: Alphabet, ghost m: Alphabet,
                ghost r: Alphabet, ghost k: nat)
    returns (triplet: HuffmanTriple, ghost k': nat)
    requires ValidAlphabet(l) && ValidAlphabet(m) && ValidAlphabet(r) && StateFor(l, m, r, state) && Ready(stream)
    requires TripleRef(l, m, r, stream.data, stream.Position(), k) != Unfinished
    modifies stream
    ensures Ready(stream) && stream.Position() == old(stream.Position()) + GetBits(triplet.contents)
    ensures EntrySays(l, m, r, stream.data, old(stream.Position()), k', triplet,
                      TripleRef(l, m, r, stream.data, old(stream.Position()), k))
  {
    k' := LookupSays(l, m, r, state, stream.data, stream.Position(), k);
    var lutIdx := ReadTableIndex(state.lsb.maxCodeLength, stream);
    triplet := state.tripleTable[lutIdx];
    stream.Consume(GetBits(triplet.contents));
  }

  /** huffmanTripleDecode. Main result: for every stream it returns the reference coefficient and what 32 bits hold of
      its zero run, and leaves the stream just after the bits the reference read; it fails exactly when the reference
      meets an empty alphabet. k bounds the run-length symbols the stream holds; a run with no end has no result, and
      the source never returns. */
  method TripleDecode(state: TripleDecodeState, stream: HuffmanStream, ghost l: Alphabet, ghost m: Alphabet,
                      ghost r: Alphabet, ghost k: nat)
    returns (ok: bool, value: int, zeros: int)
    requires ValidAlphabet(l) && ValidAlphabet(m) && ValidAlphabet(r) && StateFor(l, m, r, state) && Ready(stream)
    requires TripleRef(l, m, r, stream.data, stream.Position(), k) != Unfinished
    modifies stream
    ensures ok ==> Ready(stream)
    ensures Held(TripleRef(l, m, r, stream.data, old(stream.Position()), k))
            == if ok then Coefficient(value, zeros, stream.Position()) else Failed
  {
    hide StateFor, TripleRef, EntrySays, ValidAlphabet;
    ghost var pos, result := stream.Position(), TripleRef(l, m, r, stream.data, stream.Position(), k);
    var triplet; ghost var left;
    triplet, left := LookUp(state, stream, l, m, r, k);
    if !IsIncomplete(triplet.contents) {
      CompleteEntry(l, m, r, stream.data, pos, left, triplet, result);
      return true, LsbValue(triplet.lsb), ToInt32(triplet.rl);
    }
    ok, value, zeros := DecodeRest(state, stream, triplet, l, m, r, pos, k, left, result);
  }
}
