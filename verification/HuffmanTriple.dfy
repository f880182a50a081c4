/** The 4096-entry triple table of src/enhancement/src/huffman.c: what each entry should hold,
    and the loops and recursion that fill it. */
module HuffmanTriples {
  import opened Symbols
  import opened PowersOfTwo
  import opened HuffmanCodes
  import opened HuffmanTables
  import opened HuffmanDecode

  const BIG_TABLE_SIZE: nat := 4096
  const BIG_CODE_BITS: nat := 8
  const BIG_CODE_MASK_SIZE: nat := 256
  const MAX_LEADING_ZEROES: nat := 15

  /** contents: bits taken times 8, plus 2 if an MSB follows, plus 1 if a run length that did not fit follows. */
  datatype HuffmanTriple = HuffmanTriple(contents: nat, lsb: nat, rl: nat)

  const ZERO_TRIPLE := HuffmanTriple(0, 0, 0)

  /** Bitwise or of numbers with no bit in common: `high` has its low n bits clear, `low` fits in n bits. */
  function OrDisjoint(high: nat, low: nat, n: nat): nat
    requires high % Pow2(n) == 0 && low < Pow2(n)
  {
    high + low
  }

  /** The number of leading zeros of x, seen as an n-bit word. */
  function Clz(x: nat, n: nat): (c: nat)
    requires x < Pow2(n)
    ensures c <= n && x < Pow2(n - c)
    ensures c < n ==> x >= Pow2(n - c - 1)
  {
    if n == 0 || x >= Pow2(n - 1) then 0 else 1 + Clz(x, n - 1)
  }

  function Min(a: int, b: int): int { if a < b then a else b }

  /** The leading zeros counted for an LSB code, and the table bits left after it (negative if it does not fit). */
  function LeadingZeroes(e: HuffmanListEntry): (z: nat)
    requires e.code < Pow2(e.bits)
    ensures z <= MAX_LEADING_ZEROES && z <= e.bits
  {
    Min(Clz(e.code, e.bits), MAX_LEADING_ZEROES)
  }

  function BitsLeftByLsb(e: HuffmanListEntry): int
    requires e.code < Pow2(e.bits)
  {
    BIG_CODE_BITS - (e.bits - LeadingZeroes(e))
  }

  /** The run lengths that can be decoded from n known bits with value v, at most two in all; `size` bits have been
      taken already and `rl` has been read from them. */
  ghost function RunSpec(r: Alphabet, lsb: nat, v: nat, n: nat, level: nat, rl: nat, size: nat): (t: HuffmanTriple)
    requires ValidAlphabet(r) && v < Pow2(n)
    ensures t.lsb == lsb && 8 * size <= t.contents <= 8 * (size + n) + 1
    ensures t.contents % 8 == 0 || t.contents % 8 == 1
    decreases 2 - level
  {
    if level < 2 && r.Coded? && v >= Floor(r.entries, ShortCount(r.entries, n), n)
    then AfterRun(r, lsb, v, n, level, rl, size, CoverIndex(r.entries, n, v))
    else HuffmanTriple(8 * size + 1, lsb, rl)
  }

  /** The entry when the known bits start with the code word of run-length entry i. */
  ghost function AfterRun(r: Alphabet, lsb: nat, v: nat, n: nat, level: nat, rl: nat, size: nat,
                          i: nat): (t: HuffmanTriple)
    requires ValidAlphabet(r) && r.Coded? && level < 2
    requires i < |r.entries| && r.entries[i].bits <= n
    ensures t.lsb == lsb && 8 * size <= t.contents <= 8 * (size + n) + 1
    ensures t.contents % 8 == 0 || t.contents % 8 == 1
    decreases 2 - level, 0
  {
    var e := r.entries[i];
    var rl' := rl * 128 + e.symbol % 128;
    if NextSymbolIsRL(e.symbol)
    then RunSpec(r, lsb, v % Pow2(n - e.bits), n - e.bits, level + 1, rl', size + e.bits)
    else HuffmanTriple(8 * (size + e.bits), lsb, rl')
  }

  ghost function CoverIndex(es: seq<HuffmanListEntry>, n: nat, v: nat): (j: nat)
    requires SortedByBits(es) && Floor(es, ShortCount(es, n), n) <= v < Pow2(n)
    ensures j < ShortCount(es, n) && Covers(es, j, n, v)
  {
    assert exists j: nat :: j < ShortCount(es, n) && Covers(es, j, n, v) by {
      var j := CoveringEntry(es, ShortCount(es, n), n, v);
    }
    var j: nat :| j < ShortCount(es, n) && Covers(es, j, n, v);
    j
  }

  lemma CoverApart(es: seq<HuffmanListEntry>, n: nat, v: nat, i: nat, j: nat)
    requires SortedByBits(es) && i < j < ShortCount(es, n)
    ensures !(Covers(es, i, n, v) && Covers(es, j, n, v))
  {
    FloorDecreases(es, i + 1, j, n);
  }

  lemma CoverUnique(es: seq<HuffmanListEntry>, n: nat, v: nat, j: nat)
    requires SortedByBits(es) && j < ShortCount(es, n) && Covers(es, j, n, v)
    ensures Floor(es, ShortCount(es, n), n) <= v < Pow2(n)
    ensures CoverIndex(es, n, v) == j
  {
    FloorDecreases(es, j + 1, ShortCount(es, n), n);
    FloorDecreases(es, 0, j, n);
    var i := CoverIndex(es, n, v);
    if i < j { CoverApart(es, n, v, i, j); }
    if j < i { CoverApart(es, n, v, j, i); }
  }

  /** Table entries for the LSB code of e, followed by n known bits with value v. */
  ghost function EntrySpec(r: Alphabet, e: HuffmanListEntry, v: nat, n: nat): (t: HuffmanTriple)
    requires ValidAlphabet(r) && v < Pow2(n)
  {
    if NextSymbolIsMSB(e.symbol) then HuffmanTriple(8 * e.bits + 2, e.symbol, 0)
    else if !NextSymbolIsRL(e.symbol) then HuffmanTriple(8 * e.bits, e.symbol, 0)
    else RunSpec(r, e.symbol, v, n, 0, 0, e.bits)
  }

  /** The first index of the range filled for LSB entry e. */
  function StartIndex(e: HuffmanListEntry): nat
    requires e.code < Pow2(e.bits) && BitsLeftByLsb(e) >= 0
  {
    LeadingZeroes(e) * BIG_CODE_MASK_SIZE + Shl(e.code, BitsLeftByLsb(e))
  }

  ghost predicate InRange(e: HuffmanListEntry, idx: nat) {
    e.code < Pow2(e.bits) && BitsLeftByLsb(e) >= 0 &&
    StartIndex(e) <= idx < StartIndex(e) + Pow2(BitsLeftByLsb(e))
  }

  /** What the table holds once the first k LSB entries have been handled. */
  ghost function TripleSpec(es: seq<HuffmanListEntry>, r: Alphabet, k: nat, idx: nat): HuffmanTriple
    requires ValidAlphabet(r) && k <= |es|
  {
    if k == 0 then ZERO_TRIPLE
    else if InRange(es[k - 1], idx) then EntrySpec(r, es[k - 1], idx - StartIndex(es[k - 1]), BitsLeftByLsb(es[k - 1]))
    else TripleSpec(es, r, k - 1, idx)
  }

  /** The number of leading LSB entries that the table takes; the rest overflow to the list. */
  ghost function TripleCut(es: seq<HuffmanListEntry>): (k: nat)
    requires forall i :: 0 <= i < |es| ==> es[i].code < Pow2(es[i].bits)
    ensures k <= |es|
    ensures forall i :: 0 <= i < k ==> BitsLeftByLsb(es[i]) >= 0
    ensures k < |es| ==> BitsLeftByLsb(es[k]) < 0
  {
    TripleCutFrom(es, 0)
  }

  ghost function TripleCutFrom(es: seq<HuffmanListEntry>, start: nat): (k: nat)
    requires forall i :: 0 <= i < |es| ==> es[i].code < Pow2(es[i].bits)
    requires start <= |es| && forall i :: 0 <= i < start ==> BitsLeftByLsb(es[i]) >= 0
    ensures start <= k <= |es|
    ensures forall i :: 0 <= i < k ==> BitsLeftByLsb(es[i]) >= 0
    ensures k < |es| ==> BitsLeftByLsb(es[k]) < 0
    decreases |es| - start
  {
    if start == |es| || BitsLeftByLsb(es[start]) < 0 then start else TripleCutFrom(es, start + 1)
  }

  /** The code of an entry that fits leaves room in its block of 256 indices. */
  lemma StartInBlock(e: HuffmanListEntry)
    requires e.code < Pow2(e.bits) && BitsLeftByLsb(e) >= 0
    ensures var n := BitsLeftByLsb(e);
            && n <= BIG_CODE_BITS
            && e.code < Pow2(BIG_CODE_BITS - n)
            && Shl(e.code, n) + Pow2(n) <= BIG_CODE_MASK_SIZE
  {
    var n, z := BitsLeftByLsb(e), LeadingZeroes(e);
    Pow2Monotone(e.bits - Clz(e.code, e.bits), e.bits - z);
    assert e.bits - z == BIG_CODE_BITS - n;
    ShlRoom(e.code, n, BIG_CODE_BITS);
    Pow2Values();
  }

  /** huffmanIterateRls fills [parentStart, parentEnd), the indices that share all but their low bitsLeft bits. */
  ghost predicate RlFrame(r: Alphabet, rlTable: seq<HuffmanEntry>, tableLength: nat, parentStart: nat, parentEnd: nat,
                          rlSymbol: nat, codeSizeInStream: nat, level: nat, bitsLeft: int)
  {
    && ValidAlphabet(r) && RlTableFor(r, rlTable)
    && level <= 2 && rlSymbol < Pow2(7 * level)
    && bitsLeft == BIG_CODE_BITS - (codeSizeInStream - parentStart / BIG_CODE_MASK_SIZE)
    && 0 <= bitsLeft <= BIG_CODE_BITS && codeSizeInStream + bitsLeft <= 23
    && parentStart % Pow2(bitsLeft) == 0 && parentEnd == parentStart + Pow2(bitsLeft) <= tableLength
    && parentStart % BIG_CODE_MASK_SIZE + Pow2(bitsLeft) <= BIG_CODE_MASK_SIZE
  }

  /** Indices [from, parentEnd) hold their final entries; indices outside the parent's range are as before. */
  ghost predicate FilledFrom(r: Alphabet, before: seq<HuffmanTriple>, now: seq<HuffmanTriple>, parentStart: nat,
                             from: nat, n: nat, lsb: nat, level: nat, rlSymbol: nat, size: nat)
    requires ValidAlphabet(r) && level <= 2
  {
    && |now| == |before|
    && (forall idx :: 0 <= idx < |now| && !(parentStart <= idx < parentStart + Pow2(n)) ==> now[idx] == before[idx])
    && (forall idx :: from <= idx < parentStart + Pow2(n) && parentStart <= idx < |now| ==>
          now[idx] == RunSpec(r, lsb, idx - parentStart, n, level, rlSymbol, size))
  }

  /** One step of the specification: the known bits start with run-length entry k, and the rest follow. */
  lemma RunSpecStep(r: Alphabet, lsb: nat, v: nat, n: nat, level: nat, rl: nat, size: nat, k: nat)
    requires ValidAlphabet(r) && r.Coded? && level < 2
    requires k < ShortCount(r.entries, n) && Covers(r.entries, k, n, v)
    ensures v < Pow2(n) && RunSpec(r, lsb, v, n, level, rl, size) == AfterRun(r, lsb, v, n, level, rl, size, k)
    ensures v % Pow2(n - r.entries[k].bits) == v - Floor(r.entries, k + 1, n)
  {
    var e := r.entries[k];
    CoverUnique(r.entries, n, v, k);
    CodeInterval(r.entries, k, n, v);
    DivModUnique(v, Pow2(n - e.bits), e.code, v - Floor(r.entries, k + 1, n));
  }

  /** The index range of a nested run length lies inside its parent's, aligned to its own size. */
  lemma ChildFrame(r: Alphabet, rlTable: seq<HuffmanEntry>, tableLength: nat, parentStart: nat, parentEnd: nat,
                   rlSymbol: nat, size: nat, level: nat, n: nat, k: nat)
    requires RlFrame(r, rlTable, tableLength, parentStart, parentEnd, rlSymbol, size, level, n)
    requires level < 2 && r.Coded? && k < ShortCount(r.entries, n)
    ensures var e := r.entries[k];
            var start := parentStart + ScanFloor(r, k + 1, n);
            var rl' := rlSymbol * 128 + e.symbol % 128;
            && ScanFloor(r, k + 1, n) == Shl(e.code, n - e.bits) < Pow2(n)
            && start + Pow2(n - e.bits) == parentStart + ScanFloor(r, k, n) <= parentEnd
            && RlFrame(r, rlTable, tableLength, start, start + Pow2(n - e.bits), rl', size + e.bits, level + 1,
                       n - e.bits)
  {
    hide CompleteCode, RlTableFor, ShortCount, Pow2;
    var e, m := r.entries[k], n - r.entries[k].bits;
    var low := Floor(r.entries, k + 1, n);
    CodeInterval(r.entries, k, n, 0);
    FloorDecreases(r.entries, 0, k, n);
    assert low == Shl(e.code, m);
    Pow2Add(7 * level, 7);
    assert 7 * level + 7 == 7 * (level + 1);
    Pow2Values();
    AlignedInBlock(parentStart, n, low);
    AlignedSum(parentStart, n, e.code, m);
  }

  lemma AlignedInBlock(start: nat, n: nat, low: nat)
    requires start % 256 + Pow2(n) <= 256 && low < Pow2(n)
    ensures (start + low) / 256 == start / 256 && (start + low) % 256 == start % 256 + low
  {}

  lemma AlignedSum(start: nat, n: nat, code: nat, m: nat)
    requires m <= n && start % Pow2(n) == 0
    ensures (start + Shl(code, m)) % Pow2(m) == 0
  {
    var q := start / Pow2(n);
    assert start == Pow2(n) * q;
    Pow2Add(n - m, m);
    assert n - m + m == n;
    assert start == (q * Pow2(n - m)) * Pow2(m) by { MulThree(Pow2(n - m), Pow2(m), q); }
    SumMul(q * Pow2(n - m), code, Pow2(m));
    DivModUnique(start + Shl(code, m), Pow2(m), q * Pow2(n - m) + code, 0);
  }

  lemma MulThree(a: int, b: int, q: int)
    ensures a * b * q == (q * a) * b
  {}

  lemma SumMul(a: int, b: int, c: int)
    ensures a * c + b * c == (a + b) * c
  {}

  /** huffmanIterateRls: fills a block of indices whose LSB is followed by a run length. It walks the small table from
      the top, where the shortest codes are, and stops at the first code that does not fit: the codes that fit fill the
      top of the block with no gap, so everything below is an overflow. The source goes on to longer codes only if more
      than 10 bits are left; at most 8 ever are, so that branch never runs. */
  method IterateRls(table: array<HuffmanTriple>, rlTable: seq<HuffmanEntry>, ghost r: Alphabet, parentStart: nat,
                    parentEnd: nat, lsb: nat, rlSymbol: nat, codeSizeInStream: nat, level: nat, ghost n: nat)
    returns (lowest: nat)
    requires RlFrame(r, rlTable, table.Length, parentStart, parentEnd, rlSymbol, codeSizeInStream, level, n)
    modifies table
    ensures FilledFrom(r, old(table[..]), table[..], parentStart, parentStart, n, lsb, level, rlSymbol,
                       codeSizeInStream)
    ensures lowest == parentStart
    decreases 2 - level, 1
  {
    hide CompleteCode, RunSpec, Pow2;
    ghost var before := table[..];
    var lowestValidlySetIdx := parentEnd;
    var codeSizeInTable := codeSizeInStream - parentStart / BIG_CODE_MASK_SIZE;
    var bitsLeft := BIG_CODE_BITS - codeSizeInTable;
    if level < 2 {
      var rlIdx: int := SMALL_TABLE_SIZE - 1;
      ghost var k: nat := 0;
      FirstScan(r, rlTable, n);
      while rlIdx >= 0
        invariant Scan(r, rlIdx, k, n)
        invariant lowestValidlySetIdx == parentStart + ScanFloor(r, k, n)
        invariant FilledFrom(r, before, table[..], parentStart, lowestValidlySetIdx, n, lsb, level, rlSymbol,
                             codeSizeInStream)
        decreases rlIdx
      {
        var nextRlEntry := rlTable[rlIdx];
        var rlBits := nextRlEntry.bits;
        ScanEntry(r, rlTable, rlIdx, k, n);
        if rlBits == 0 || rlBits > bitsLeft {
          break;
        }
        var rlCode := rlIdx / Pow2(SMALL_TABLE_BITS - rlBits);
        lowestValidlySetIdx := IterateRlsLoopBody(table, rlTable, r, parentStart, parentEnd, lsb, rlSymbol,
                                                  codeSizeInStream, rlCode, nextRlEntry.symbol, rlBits, level, n, k,
                                                      before);
        k := k + 1;
        rlIdx := rlIdx - Pow2(SMALL_TABLE_BITS - rlBits);
      }
      ScanDone(r, rlTable, rlIdx, k, n);
    }
    ghost var mid := table[..];
    FillRange(table, parentStart, lowestValidlySetIdx, HuffmanTriple(codeSizeInStream * 8 + 1, lsb, rlSymbol));
    OverflowBelow(r, before, mid, table[..], parentStart, n, lsb, level, rlSymbol, codeSizeInStream);
    lowest := Min(parentStart, lowestValidlySetIdx);
  }

  /** huffmanIterateRlsLoopBody: fills the sub-range of one run-length code, recursing if another run length follows. */
  method IterateRlsLoopBody(table: array<HuffmanTriple>, rlTable: seq<HuffmanEntry>, ghost r: Alphabet,
                            parentStart: nat, lowestValidIdxYet: nat, lsb: nat, rlSymbol: nat, codeSizeInStream: nat,
                            newRlCode: nat, newRlSymbol: nat, newRlBits: nat, level: nat, ghost n: nat, ghost k: nat,
                            ghost before: seq<HuffmanTriple>)
    returns (lowest: nat)
    requires RlFrame(r, rlTable, table.Length, parentStart, lowestValidIdxYet, rlSymbol, codeSizeInStream, level, n)
    requires level < 2 && r.Coded? && k < ShortCount(r.entries, n)
    requires r.entries[k] == HuffmanListEntry(newRlCode, newRlSymbol, newRlBits)
    requires FilledFrom(r, before, table[..], parentStart, parentStart + ScanFloor(r, k, n), n, lsb, level, rlSymbol,
                        codeSizeInStream)
    modifies table
    ensures FilledFrom(r, before, table[..], parentStart, parentStart + ScanFloor(r, k + 1, n), n, lsb, level,
                       rlSymbol, codeSizeInStream)
    ensures lowest == parentStart + ScanFloor(r, k + 1, n)
    decreases 2 - level, 0
  {
    hide RunSpec, CompleteCode, Floor, FilledFrom, RlTableFor, Pow2;
    ghost var mid := table[..];
    var startIdxRl1, endIdxRl1, bitsLeftByRl1 :=
      SubRange(table.Length, rlTable, r, parentStart, lowestValidIdxYet, rlSymbol, codeSizeInStream, newRlCode,
               newRlBits, level, n, k);
    var rl := rlSymbol * 128 + newRlSymbol % 128;
    if NextSymbolIsRL(newRlSymbol) {
      var out := IterateRls(table, rlTable, r, startIdxRl1, endIdxRl1, lsb, rl, codeSizeInStream + newRlBits,
                            level + 1, bitsLeftByRl1);
      lowest := Min(lowestValidIdxYet, out);
      ExtendByChild(r, before, mid, table[..], parentStart, endIdxRl1, n, lsb, level, rlSymbol, codeSizeInStream, k,
                    startIdxRl1, bitsLeftByRl1, level + 1, rl, codeSizeInStream + newRlBits);
    } else {
      FillLeaf(table, startIdxRl1, endIdxRl1, lsb, rl, codeSizeInStream + newRlBits,
               r, before, parentStart, n, level, rlSymbol, codeSizeInStream, k);
      lowest := Min(lowestValidIdxYet, startIdxRl1);
    }
  }

  /** The non-recursive case: no run length follows, so the whole sub-range gets one complete entry. */
  method FillLeaf(table: array<HuffmanTriple>, startIdx: nat, endIdx: nat, lsb: nat, rl: nat, codeSizeInStream: nat,
                  ghost r: Alphabet, ghost before: seq<HuffmanTriple>, ghost parentStart: nat, ghost n: nat,
                  ghost level: nat, ghost rlSymbol: nat, ghost size: nat, ghost k: nat)
    requires ValidAlphabet(r) && r.Coded? && level < 2 && k < ShortCount(r.entries, n)
    requires !NextSymbolIsRL(r.entries[k].symbol)
    requires startIdx == parentStart + ScanFloor(r, k + 1, n) && endIdx == parentStart + ScanFloor(r, k, n)
    requires startIdx < endIdx <= table.Length
    requires rl == rlSymbol * 128 + r.entries[k].symbol % 128 && codeSizeInStream == size + r.entries[k].bits
    requires FilledFrom(r, before, table[..], parentStart, endIdx, n, lsb, level, rlSymbol, size)
    modifies table
    ensures FilledFrom(r, before, table[..], parentStart, startIdx, n, lsb, level, rlSymbol, size)
  {
    ghost var mid := table[..];
    FillRange(table, startIdx, endIdx, HuffmanTriple(codeSizeInStream * 8, lsb, rl));
    ExtendByLeaf(r, before, mid, table[..], parentStart, n, lsb, level, rlSymbol, size, k);
  }

  /** The indices under one run-length code: the parent's, with the code in their top free bits. */
  method SubRange(tableLength: nat, rlTable: seq<HuffmanEntry>, ghost r: Alphabet, parentStart: nat, parentEnd: nat,
                  rlSymbol: nat, codeSizeInStream: nat, newRlCode: nat, newRlBits: nat, level: nat, ghost n: nat,
                  ghost k: nat)
    returns (startIdx: nat, endIdx: nat, bitsLeftByRl1: nat)
    requires RlFrame(r, rlTable, tableLength, parentStart, parentEnd, rlSymbol, codeSizeInStream, level, n)
    requires level < 2 && r.Coded? && k < ShortCount(r.entries, n)
    requires r.entries[k].code == newRlCode && r.entries[k].bits == newRlBits
    ensures startIdx == parentStart + ScanFloor(r, k + 1, n) && endIdx == parentStart + ScanFloor(r, k, n) <= parentEnd
    ensures startIdx < endIdx && bitsLeftByRl1 == n - newRlBits
    ensures RlFrame(r, rlTable, tableLength, startIdx, endIdx, rlSymbol * 128 + r.entries[k].symbol % 128,
                    codeSizeInStream + newRlBits, level + 1, bitsLeftByRl1)
  {
    ChildFrame(r, rlTable, tableLength, parentStart, parentEnd, rlSymbol, codeSizeInStream, level, n, k);
    var codeSizeInTable := codeSizeInStream - parentStart / BIG_CODE_MASK_SIZE;
    var bitsLeft := BIG_CODE_BITS - codeSizeInTable;
    bitsLeftByRl1 := bitsLeft - newRlBits;
    startIdx := OrDisjoint(parentStart, Shl(newRlCode, bitsLeftByRl1), bitsLeft);
    endIdx := startIdx + Pow2(bitsLeftByRl1);
  }

  ghost function ScanFloor(r: Alphabet, k: nat, n: nat): (f: nat)
    requires ValidAlphabet(r) && if r.Coded? then k <= ShortCount(r.entries, n) else k == 0
    ensures f <= Pow2(n)
  {
    if r.Coded? then
      FloorNonNegative(r.entries, k, n);
      FloorDecreases(r.entries, 0, k, n);
      Floor(r.entries, k, n)
    else Pow2(n)
  }

  /** The walk down the small table has passed the first k codes, all of which fit in n bits. */
  ghost predicate Scan(r: Alphabet, rlIdx: int, k: nat, n: nat) {
    && ValidAlphabet(r) && n <= SMALL_TABLE_BITS && rlIdx < SMALL_TABLE_SIZE
    && (if r.Coded? then k <= ShortCount(r.entries, n) && rlIdx == Floor(r.entries, k, SMALL_TABLE_BITS) - 1
        else k == 0)
  }

  lemma FirstScan(r: Alphabet, rlTable: seq<HuffmanEntry>, n: nat)
    requires ValidAlphabet(r) && n <= SMALL_TABLE_BITS
    ensures Scan(r, SMALL_TABLE_SIZE - 1, 0, n) && ScanFloor(r, 0, n) == Pow2(n)
  {
    Pow2Values();
  }

  /** What the walk finds next: code k if it is at most 10 bits long, else the empty entry. */
  lemma ScanEntry(r: Alphabet, rlTable: seq<HuffmanEntry>, rlIdx: int, k: nat, n: nat)
    requires Scan(r, rlIdx, k, n) && 0 <= rlIdx && RlTableFor(r, rlTable)
    ensures var bits := rlTable[rlIdx].bits;
            if bits == 0 || bits > n then r.Coded? ==> k == ShortCount(r.entries, n)
            else
              && r.Coded? && k < ShortCount(r.entries, n) && bits <= SMALL_TABLE_BITS
              && r.entries[k] == HuffmanListEntry(rlIdx / Pow2(SMALL_TABLE_BITS - bits), rlTable[rlIdx].symbol, bits)
              && Scan(r, rlIdx - Pow2(SMALL_TABLE_BITS - bits), k + 1, n)
  {
    if r.Coded? {
      var es, short := r.entries, ShortCount(r.entries, SMALL_TABLE_BITS);
      if k < short {
        FloorDecreases(es, k, k + 1, SMALL_TABLE_BITS);
        assert Covers(es, k, SMALL_TABLE_BITS, rlIdx);
        CodeInterval(es, k, SMALL_TABLE_BITS, rlIdx);
        CodesFitEightBits(es, k);
      }
    }
  }

  lemma ScanDone(r: Alphabet, rlTable: seq<HuffmanEntry>, rlIdx: int, k: nat, n: nat)
    requires Scan(r, rlIdx, k, n) && (rlIdx < 0 || (r.Coded? ==> k == ShortCount(r.entries, n)))
    ensures r.Coded? ==> k == ShortCount(r.entries, n)
  {
    if r.Coded? && rlIdx < 0 { FloorNonNegative(r.entries, k, SMALL_TABLE_BITS); }
  }

  /** Below the codes that fit, or at the third run length, every entry is an overflow. */
  lemma OverflowBelow(r: Alphabet, before: seq<HuffmanTriple>, mid: seq<HuffmanTriple>, now: seq<HuffmanTriple>,
                      parentStart: nat, n: nat, lsb: nat, level: nat, rlSymbol: nat, size: nat)
    requires ValidAlphabet(r) && level <= 2 && |now| == |mid|
    requires FilledFrom(r, before, mid, parentStart, parentStart + LowestFilled(r, n, level), n, lsb, level, rlSymbol,
                        size)
    requires forall idx :: 0 <= idx < |now| ==>
               now[idx] == if parentStart <= idx < parentStart + LowestFilled(r, n, level)
                           then HuffmanTriple(size * 8 + 1, lsb, rlSymbol) else mid[idx]
    ensures FilledFrom(r, before, now, parentStart, parentStart, n, lsb, level, rlSymbol, size)
  {
    forall idx | parentStart <= idx < parentStart + Pow2(n) && idx < |now|
      ensures now[idx] == RunSpec(r, lsb, idx - parentStart, n, level, rlSymbol, size)
    {
      if idx < parentStart + LowestFilled(r, n, level) {
        assert RunSpec(r, lsb, idx - parentStart, n, level, rlSymbol, size) ==
               HuffmanTriple(size * 8 + 1, lsb, rlSymbol);
      }
    }
  }

  ghost function LowestFilled(r: Alphabet, n: nat, level: nat): (f: nat)
    requires ValidAlphabet(r)
    ensures f <= Pow2(n)
  {
    if level < 2 && r.Coded? then ScanFloor(r, ShortCount(r.entries, n), n) else Pow2(n)
  }

  lemma AfterRunChild(r: Alphabet, lsb: nat, v: nat, n: nat, level: nat, rl: nat, size: nat, i: nat, v': nat, n': nat,
                      rl': nat, size': nat)
    requires ValidAlphabet(r) && r.Coded? && level < 2
    requires i < |r.entries| && n' == n - r.entries[i].bits && NextSymbolIsRL(r.entries[i].symbol)
    requires v' == v % Pow2(n') && rl' == rl * 128 + r.entries[i].symbol % 128 && size' == size + r.entries[i].bits
    ensures AfterRun(r, lsb, v, n, level, rl, size, i) == RunSpec(r, lsb, v', n', level + 1, rl', size')
  {
    hide Floor, Pow2, CompleteCode, ShortCount, Covers, RunSpec;
  }

  lemma ChildIndex(r: Alphabet, lsb: nat, v: nat, n: nat, level: nat, rl: nat, size: nat, k: nat, v': nat, n': nat,
                   rl': nat, size': nat)
    requires ValidAlphabet(r) && r.Coded? && level < 2
    requires k < ShortCount(r.entries, n) && Covers(r.entries, k, n, v) && NextSymbolIsRL(r.entries[k].symbol)
    requires v' == v - Floor(r.entries, k + 1, n) && n' == n - r.entries[k].bits
    requires rl' == rl * 128 + r.entries[k].symbol % 128 && size' == size + r.entries[k].bits
    ensures v < Pow2(n) && v' < Pow2(n')
    ensures RunSpec(r, lsb, v, n, level, rl, size) == RunSpec(r, lsb, v', n', level + 1, rl', size')
  {
    hide RunSpec, AfterRun;
    RunSpecStep(r, lsb, v, n, level, rl, size, k);
    AfterRunChild(r, lsb, v, n, level, rl, size, k, v', n', rl', size');
  }

  lemma ExtendByChild(r: Alphabet, before: seq<HuffmanTriple>, mid: seq<HuffmanTriple>, now: seq<HuffmanTriple>,
                      parentStart: nat, end: nat, n: nat, lsb: nat, level: nat, rlSymbol: nat, size: nat, k: nat,
                      start: nat, n': nat, level': nat, rl': nat, size': nat)
    requires ValidAlphabet(r) && r.Coded? && level < 2 && k < ShortCount(r.entries, n)
    requires NextSymbolIsRL(r.entries[k].symbol)
    requires start == parentStart + ScanFloor(r, k + 1, n) && end == parentStart + ScanFloor(r, k, n)
    requires n' == n - r.entries[k].bits && level' == level + 1
    requires rl' == rlSymbol * 128 + r.entries[k].symbol % 128 && size' == size + r.entries[k].bits
    requires FilledFrom(r, before, mid, parentStart, end, n, lsb, level, rlSymbol, size)
    requires FilledFrom(r, mid, now, start, start, n', lsb, level', rl', size')
    ensures FilledFrom(r, before, now, parentStart, start, n, lsb, level, rlSymbol, size)
  {
    hide RunSpec;
    assert Floor(r.entries, k + 1, n) == Floor(r.entries, k, n) - Pow2(n');
    forall idx | start <= idx < parentStart + Pow2(n) && parentStart <= idx < |now|
      ensures now[idx] == RunSpec(r, lsb, idx - parentStart, n, level, rlSymbol, size)
    {
      if idx < end {
        assert Covers(r.entries, k, n, idx - parentStart);
        ChildIndex(r, lsb, idx - parentStart, n, level, rlSymbol, size, k, idx - start, n', rl', size');
      } else {
        assert now[idx] == mid[idx];
      }
    }
  }

  lemma LeafIndex(r: Alphabet, lsb: nat, v: nat, n: nat, level: nat, rl: nat, size: nat, k: nat)
    requires ValidAlphabet(r) && r.Coded? && level < 2
    requires k < ShortCount(r.entries, n) && Covers(r.entries, k, n, v) && !NextSymbolIsRL(r.entries[k].symbol)
    ensures v < Pow2(n) && RunSpec(r, lsb, v, n, level, rl, size)
            == HuffmanTriple((size + r.entries[k].bits) * 8, lsb, rl * 128 + r.entries[k].symbol % 128)
  {
    RunSpecStep(r, lsb, v, n, level, rl, size, k);
  }

  lemma ExtendByLeaf(r: Alphabet, before: seq<HuffmanTriple>, mid: seq<HuffmanTriple>, now: seq<HuffmanTriple>,
                     parentStart: nat, n: nat, lsb: nat, level: nat, rlSymbol: nat, size: nat, k: nat)
    requires ValidAlphabet(r) && r.Coded? && level < 2 && k < ShortCount(r.entries, n)
    requires !NextSymbolIsRL(r.entries[k].symbol)
    requires FilledFrom(r, before, mid, parentStart, parentStart + ScanFloor(r, k, n), n, lsb, level, rlSymbol, size)
    requires |now| == |mid|
    requires forall idx :: 0 <= idx < |now| ==>
               now[idx] ==
               if parentStart + ScanFloor(r, k + 1, n) <= idx < parentStart + ScanFloor(r, k, n)
               then HuffmanTriple((size + r.entries[k].bits) * 8, lsb, rlSymbol * 128 + r.entries[k].symbol % 128)
               else mid[idx]
    ensures FilledFrom(r, before, now, parentStart, parentStart + ScanFloor(r, k + 1, n), n, lsb, level, rlSymbol, size)
  {
    forall idx | parentStart + ScanFloor(r, k + 1, n) <= idx < parentStart + Pow2(n) && parentStart <= idx < |now|
      ensures now[idx] == RunSpec(r, lsb, idx - parentStart, n, level, rlSymbol, size)
    {
      if idx < parentStart + ScanFloor(r, k, n) {
        assert Covers(r.entries, k, n, idx - parentStart);
        LeafIndex(r, lsb, idx - parentStart, n, level, rlSymbol, size, k);
      } else {
        assert now[idx] == mid[idx];
      }
    }
  }

  /** huffmanTripleTableAssign: fills the table from the LSB codes that fit, and the rest are the overflow list. */
  method TripleTableAssign(table: array<HuffmanTriple>, lsbList: seq<HuffmanListEntry>, rlTable: seq<HuffmanEntry>,
                           ghost r: Alphabet)
    returns (overflow: seq<HuffmanListEntry>)
    requires table.Length == BIG_TABLE_SIZE && forall idx :: 0 <= idx < table.Length ==> table[idx] == ZERO_TRIPLE
    requires ValidAlphabet(r) && RlTableFor(r, rlTable)
    requires |lsbList| > 0 ==> CompleteCode(lsbList) && |lsbList| <= 255
    modifies table
    ensures forall i :: 0 <= i < |lsbList| ==> lsbList[i].code < Pow2(lsbList[i].bits)
    ensures overflow == lsbList[TripleCut(lsbList)..]
    ensures forall idx :: 0 <= idx < table.Length ==> table[idx] == TripleSpec(lsbList, r, TripleCut(lsbList), idx)
  {
    hide TripleSpec, RlTableFor, CompleteCode, TripleCut, BitsLeftByLsb;
    CodesInRange(lsbList);
    var lsbIdx: nat := 0;
    CutStarts(table[..], lsbList, r);
    while lsbIdx < |lsbList|
      invariant lsbIdx <= TripleCut(lsbList) <= |lsbList|
      invariant TableIs(table[..], lsbList, r, lsbIdx)
    {
      if BitsLeftByLsb(lsbList[lsbIdx]) < 0 {
        break;
      }
      AssignNext(table, lsbList, rlTable, r, lsbIdx);
      lsbIdx := lsbIdx + 1;
    }
    overflow := lsbList[lsbIdx..];
  }

  /** The table when the first k LSB codes have been entered. */
  ghost predicate TableIs(table: seq<HuffmanTriple>, es: seq<HuffmanListEntry>, r: Alphabet, k: nat)
    requires ValidAlphabet(r) && k <= |es| && forall i :: 0 <= i < |es| ==> es[i].code < Pow2(es[i].bits)
  {
    forall idx :: 0 <= idx < |table| ==> table[idx] == TripleSpec(es, r, k, idx)
  }

  lemma CutStarts(table: seq<HuffmanTriple>, es: seq<HuffmanListEntry>, r: Alphabet)
    requires ValidAlphabet(r) && forall i :: 0 <= i < |es| ==> es[i].code < Pow2(es[i].bits)
    requires forall idx :: 0 <= idx < |table| ==> table[idx] == ZERO_TRIPLE
    ensures TableIs(table, es, r, 0) && TripleCut(es) <= |es|
  {}

  /** One turn of the loop. */
  method AssignNext(table: array<HuffmanTriple>, lsbList: seq<HuffmanListEntry>, rlTable: seq<HuffmanEntry>,
                    ghost r: Alphabet, k: nat)
    requires table.Length == BIG_TABLE_SIZE && ValidAlphabet(r) && RlTableFor(r, rlTable)
    requires CompleteCode(lsbList) && k < |lsbList| && forall i :: 0 <= i < |lsbList| ==>
        lsbList[i].code < Pow2(lsbList[i].bits)
    requires BitsLeftByLsb(lsbList[k]) >= 0 && TableIs(table[..], lsbList, r, k)
    modifies table
    ensures TableIs(table[..], lsbList, r, k + 1)
  {
    hide RlTableFor, CompleteCode, TripleSpec, EntryAdded, InRange;
    ghost var before := table[..];
    forall idx | 0 <= idx < table.Length && InRange(lsbList[k], idx) ensures table[idx] == ZERO_TRIPLE {
      NoOwnerBelow(lsbList, r, k, k, idx);
    }
    AssignLsb(table, lsbList, rlTable, r, k);
    NextTable(before, table[..], lsbList, r, k);
  }

  lemma NextTable(before: seq<HuffmanTriple>, now: seq<HuffmanTriple>, es: seq<HuffmanListEntry>, r: Alphabet, k: nat)
    requires ValidAlphabet(r) && k < |es| && forall i :: 0 <= i < |es| ==> es[i].code < Pow2(es[i].bits)
    requires BitsLeftByLsb(es[k]) >= 0 && TableIs(before, es, r, k) && EntryAdded(r, es[k], before, now)
    ensures TableIs(now, es, r, k + 1)
  {
    hide EntrySpec, InRange;
    forall idx: nat | idx < |now| ensures now[idx] == TripleSpec(es, r, k + 1, idx) {
      assert before[idx] == TripleSpec(es, r, k, idx);
    }
  }

  ghost predicate RlTableFor(r: Alphabet, rlTable: seq<HuffmanEntry>)
    requires ValidAlphabet(r)
  {
    && |rlTable| == SMALL_TABLE_SIZE
    && (if r.Coded? then LutFor(r.entries, rlTable)
        else forall t :: 0 <= t < |rlTable| ==> rlTable[t] == HuffmanEntry(0, 0))
  }

  lemma CodesInRange(es: seq<HuffmanListEntry>)
    requires |es| > 0 ==> CompleteCode(es)
    ensures forall i :: 0 <= i < |es| ==> es[i].code < Pow2(es[i].bits)
  {
    forall i | 0 <= i < |es| ensures es[i].code < Pow2(es[i].bits) { CodesFitEightBits(es, i); }
  }

  /** The range of e now holds the entries of e; every other index is as before. */
  ghost predicate EntryAdded(r: Alphabet, e: HuffmanListEntry, before: seq<HuffmanTriple>, now: seq<HuffmanTriple>)
    requires ValidAlphabet(r)
  {
    && |now| == |before|
    && forall idx :: 0 <= idx < |now| ==>
         now[idx] == if InRange(e, idx) then EntrySpec(r, e, idx - StartIndex(e), BitsLeftByLsb(e)) else before[idx]
  }

  /** The loop body for one LSB entry. */
  method AssignLsb(table: array<HuffmanTriple>, lsbList: seq<HuffmanListEntry>, rlTable: seq<HuffmanEntry>,
                   ghost r: Alphabet, k: nat)
    requires table.Length == BIG_TABLE_SIZE && ValidAlphabet(r) && RlTableFor(r, rlTable)
    requires CompleteCode(lsbList) && k < |lsbList| && lsbList[k].code < Pow2(lsbList[k].bits)
    requires BitsLeftByLsb(lsbList[k]) >= 0
    requires forall idx :: 0 <= idx < table.Length && InRange(lsbList[k], idx) ==> table[idx] == ZERO_TRIPLE
    modifies table
    ensures EntryAdded(r, lsbList[k], old(table[..]), table[..])
  {
    hide CompleteCode, ValidAlphabet, RlTableFor, RunSpec, Pow2, Shl, Clz, LeadingZeroes;
    var lsbEntry := lsbList[k];
    var leadingZeroes := LeadingZeroes(lsbEntry);
    var bitsLeftByLsb: nat := BitsLeftByLsb(lsbEntry);
    LsbFrame(lsbList, rlTable, r, k);
    var startIdx := OrDisjoint(leadingZeroes * BIG_CODE_MASK_SIZE, Shl(lsbEntry.code, bitsLeftByLsb), BIG_CODE_BITS);
    var endIdx := startIdx + Pow2(bitsLeftByLsb);
    if NextSymbolIsMSB(lsbEntry.symbol) {
      FillLsb(table, startIdx, endIdx, lsbEntry.symbol, lsbEntry.bits * 8 + 2);
    } else if !NextSymbolIsRL(lsbEntry.symbol) {
      FillLsb(table, startIdx, endIdx, lsbEntry.symbol, lsbEntry.bits * 8);
    } else {
      var _ := IterateRls(table, rlTable, r, startIdx, endIdx, lsbEntry.symbol, 0, lsbEntry.bits, 0, bitsLeftByLsb);
    }
  }

  /** Stores an LSB and its contents over a range, leaving each entry's run length alone. */
  method FillLsb(table: array<HuffmanTriple>, startIdx: nat, endIdx: nat, lsb: nat, contents: nat)
    requires startIdx <= endIdx <= table.Length
    modifies table
    ensures forall t :: 0 <= t < table.Length ==>
              table[t] ==
              (if startIdx <= t < endIdx then old(table[t]).(lsb := lsb, contents := contents) else old(table[t]))
  {
    for outIdx := startIdx to endIdx
      invariant forall t :: 0 <= t < table.Length ==>
                  table[t] ==
                  (if startIdx <= t < outIdx then old(table[t]).(lsb := lsb, contents := contents) else old(table[t]))
    {
      table[outIdx] := table[outIdx].(lsb := lsb, contents := contents);
    }
  }

  /** Ranges of different LSB codes do not meet: an index shows enough of the stream to tell the codes apart. */
  lemma RangesDisjoint(es: seq<HuffmanListEntry>, i: nat, j: nat, idx: nat)
    requires CompleteCode(es) && i < j < |es|
    ensures !(InRange(es[i], idx) && InRange(es[j], idx))
  {
    hide InRange, LeadingZeroes, Pow2, Clz;
    if InRange(es[i], idx) && InRange(es[j], idx) {
      var z, s := idx / BIG_CODE_MASK_SIZE, idx % BIG_CODE_MASK_SIZE;
      InRangeMeans(es[i], idx);
      InRangeMeans(es[j], idx);
      var n := BIG_CODE_BITS + z;
      CodeInterval(es, i, n, s);
      CodeInterval(es, j, n, s);
      FloorDecreases(es, i + 1, j, n);
      assert false;
    }
  }

  /** An index of z leading zeros and then the 8 bits s is in an entry's range only if the word they spell starts
      with that entry's code word. */
  lemma InRangeMeans(e: HuffmanListEntry, idx: nat)
    requires InRange(e, idx)
    ensures idx / BIG_CODE_MASK_SIZE == LeadingZeroes(e)
    ensures e.bits <= BIG_CODE_BITS + LeadingZeroes(e)
    ensures BitsLeftByLsb(e) == BIG_CODE_BITS + LeadingZeroes(e) - e.bits
    ensures (idx % BIG_CODE_MASK_SIZE) / Pow2(BitsLeftByLsb(e)) == e.code
    ensures (idx % BIG_CODE_MASK_SIZE) % Pow2(BitsLeftByLsb(e)) == idx - StartIndex(e)
  {
    StartInBlock(e);
    var n := BitsLeftByLsb(e);
    assert idx % BIG_CODE_MASK_SIZE == Shl(e.code, n) + (idx - StartIndex(e));
    DivModUnique(idx % BIG_CODE_MASK_SIZE, Pow2(n), e.code, idx - StartIndex(e));
  }

  /** The range of an LSB entry is a frame for huffmanIterateRls. */
  lemma LsbFrame(es: seq<HuffmanListEntry>, rlTable: seq<HuffmanEntry>, r: Alphabet, k: nat)
    requires ValidAlphabet(r) && RlTableFor(r, rlTable)
    requires CompleteCode(es) && k < |es| && es[k].code < Pow2(es[k].bits) && BitsLeftByLsb(es[k]) >= 0
    ensures var e := es[k]; var n := BitsLeftByLsb(e);
            && (LeadingZeroes(e) * BIG_CODE_MASK_SIZE) % Pow2(BIG_CODE_BITS) == 0
            && Shl(e.code, n) < Pow2(BIG_CODE_BITS)
            && StartIndex(e) + Pow2(n) <= BIG_TABLE_SIZE
            && RlFrame(r, rlTable, BIG_TABLE_SIZE, StartIndex(e), StartIndex(e) + Pow2(n), 0, e.bits, 0, n)
  {
    hide ValidAlphabet, CompleteCode, Pow2, Shl, Clz, RlTableFor, LeadingZeroes;
    var e := es[k];
    var n := BitsLeftByLsb(e);
    StartInBlock(e);
    Pow2Values();
    StartAligned(LeadingZeroes(e), e.code, n);
  }

  lemma StartAligned(z: nat, code: nat, n: nat)
    requires n <= BIG_CODE_BITS
    ensures (z * BIG_CODE_MASK_SIZE + Shl(code, n)) % Pow2(n) == 0
  {
    Pow2Values();
    DivModUnique(z * BIG_CODE_MASK_SIZE, BIG_CODE_MASK_SIZE, z, 0);
    DivModUnique(Shl(z, 8), Pow2(8), z, 0);
    Pow2Add(BIG_CODE_BITS - n, n);
    assert BIG_CODE_BITS - n + n == BIG_CODE_BITS;
    assert z * BIG_CODE_MASK_SIZE == Pow2(BIG_CODE_BITS - n) * Pow2(n) * z;
    MulThree(Pow2(BIG_CODE_BITS - n), Pow2(n), z);
    SumMul(z * Pow2(BIG_CODE_BITS - n), code, Pow2(n));
    DivModUnique(z * BIG_CODE_MASK_SIZE + Shl(code, n), Pow2(n), z * Pow2(BIG_CODE_BITS - n) + code, 0);
  }

  lemma {:induction false} NoOwnerBelow(es: seq<HuffmanListEntry>, r: Alphabet, k: nat, j: nat, idx: nat)
    requires ValidAlphabet(r) && CompleteCode(es) && j <= k < |es| && InRange(es[k], idx)
    ensures TripleSpec(es, r, j, idx) == ZERO_TRIPLE
  {
    if j > 0 {
      RangesDisjoint(es, j - 1, k, idx);
      NoOwnerBelow(es, r, k, j - 1, idx);
    }
  }
}
