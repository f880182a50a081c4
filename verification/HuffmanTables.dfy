/** The loops of src/enhancement/src/huffman.c that fill code lists, bit-size indices and the
    small look-up table, each proved against the code assignment of HuffmanCodes. */
module HuffmanTables {
  import opened PowersOfTwo
  import opened HuffmanCodes

  const MAX_NUM_SYMBOLS: nat := 256
  const SMALL_TABLE_BITS: nat := 10
  const SMALL_TABLE_SIZE: nat := 1024

  datatype HuffmanEntry = HuffmanEntry(symbol: nat, bits: nat)

  /** idx[b] is where the run of entries of length b, the one entry i is in, ends. */
  ghost predicate BitSizeEndsAt(es: seq<HuffmanListEntry>, i: nat, end: nat)
    requires i < |es|
  {
    && i < end <= |es|
    && (forall j :: i <= j < end ==> es[j].bits == es[i].bits)
    && (end < |es| ==> es[i].bits < es[end].bits)
  }

  ghost predicate IndexesBitSizes(es: seq<HuffmanListEntry>, idx: seq<nat>) {
    forall i {:trigger es[i].bits} :: 0 <= i < |es| ==> es[i].bits < |idx| && BitSizeEndsAt(es, i, idx[es[i].bits])
  }

  /** The look-up table of a complete code: each 10-bit index holds the entry whose code word it starts with,
      or the zero entry when that code word is longer than 10 bits. */
  ghost predicate LutFor(es: seq<HuffmanListEntry>, table: seq<HuffmanEntry>)
    requires SortedByBits(es)
  {
    && |table| == SMALL_TABLE_SIZE
    && (forall j, t {:trigger Covers(es, j, SMALL_TABLE_BITS, t)} ::
          0 <= j < ShortCount(es, SMALL_TABLE_BITS) && 0 <= t < |table| && Covers(es, j, SMALL_TABLE_BITS, t)
          ==> table[t] == HuffmanEntry(es[j].symbol, es[j].bits))
    && (forall t :: 0 <= t < |table| && t < Floor(es, ShortCount(es, SMALL_TABLE_BITS), SMALL_TABLE_BITS)
          ==> table[t] == HuffmanEntry(0, 0))
  }

  /** The loops that store one entry at every index of a range. */
  method FillRange<T>(table: array<T>, start: nat, end: nat, entry: T)
    requires start <= end <= table.Length
    modifies table
    ensures forall t :: 0 <= t < table.Length ==> table[t] == if start <= t < end then entry else old(table[t])
  {
    for idx := start to end
      invariant forall t :: 0 <= t < table.Length ==> table[t] == if start <= t < idx then entry else old(table[t])
    {
      table[idx] := entry;
    }
  }

  /** Entries idx.. of the first |es| have their codes; everything else is still as before. */
  ghost predicate CodesStored(es: seq<HuffmanListEntry>, before: seq<HuffmanListEntry>, now: seq<HuffmanListEntry>,
                              idx: nat)
    requires SortedByBits(es) && idx <= |es| <= |before|
  {
    && |now| == |before|
    && (forall k :: 0 <= k < |now| && (k < idx || k >= |es|) ==> now[k] == before[k])
    && (forall k :: idx <= k < |es| ==> now[k] == WithCodes(es)[k])
  }

  method GenerateCodes(entries: array<HuffmanListEntry>, maxIdx: nat, maxCodeLength: nat)
    requires maxIdx <= entries.Length && maxIdx <= MAX_NUM_SYMBOLS
    requires SortedByBits(entries[..maxIdx])
    requires forall i :: 0 <= i < maxIdx ==> entries[i].bits <= maxCodeLength
    modifies entries
    ensures entries[..] == WithCodes(old(entries[..maxIdx])) + old(entries[maxIdx..])
  {
    ghost var es, before := entries[..maxIdx], entries[..];
    var currLength: nat, currCode: nat, idx: nat := maxCodeLength, 0, maxIdx;
    while idx > 0
      invariant 0 <= idx <= maxIdx && CodesStored(es, before, entries[..], idx)
      invariant CodeCursor(es, idx, maxCodeLength, currLength, currCode)
    {
      idx := idx - 1;
      currLength, currCode := AssignCode(entries, es, before, maxCodeLength, idx, currLength, currCode);
    }
  }

  /** What the code loops know before they handle entry idx - 1: the length and successor of the last code. */
  ghost predicate CodeCursor(es: seq<HuffmanListEntry>, idx: nat, maxCodeLength: nat, currLength: nat, currCode: nat)
    requires idx <= |es| && SortedByBits(es)
  {
    if idx == |es| then currLength == maxCodeLength && currCode == 0
    else currLength == es[idx].bits && currCode == (Code(es, idx) + 1) % 256
  }

  /** The shift at the top of each code loop, with the code it leaves. */
  method StepCursor(ghost es: seq<HuffmanListEntry>, ghost idx: nat, ghost maxCodeLength: nat, currLength: nat,
                    currCode: nat, bits: nat)
    returns (newLength: nat, newCode: nat)
    requires SortedByBits(es) && idx < |es| <= MAX_NUM_SYMBOLS && bits == es[idx].bits <= maxCodeLength
    requires CodeCursor(es, idx + 1, maxCodeLength, currLength, currCode)
    ensures newLength == bits && newCode == Code(es, idx)
    ensures bits <= currLength
  {
    CodeStep(es, idx, maxCodeLength, currLength, currCode);
    newLength, newCode := currLength, currCode;
    if bits < currLength {
      newCode := newCode / Pow2(currLength - bits);
      newLength := bits;
    }
  }

  lemma CodeStep(es: seq<HuffmanListEntry>, idx: nat, maxCodeLength: nat, currLength: nat, currCode: nat)
    requires SortedByBits(es) && idx < |es| <= MAX_NUM_SYMBOLS && es[idx].bits <= maxCodeLength
    requires CodeCursor(es, idx + 1, maxCodeLength, currLength, currCode)
    ensures es[idx].bits <= currLength
    ensures Code(es, idx) == if es[idx].bits < currLength then currCode / Pow2(currLength - es[idx].bits) else currCode
  {
    if idx + 1 == |es| {
      DivModUnique(0, Pow2(currLength - es[idx].bits), 0, 0);
    } else {
      var d := Pow2(currLength - es[idx].bits);
      assert Code(es, idx) == (Code(es, idx + 1) + 1) / d;
      if es[idx].bits == currLength { assert d == 1; }
    }
  }

  /** One round of the loops of generateCodes and generateCodesAndIndices. */
  method AssignCode(entries: array<HuffmanListEntry>, ghost es: seq<HuffmanListEntry>,
                    ghost before: seq<HuffmanListEntry>, ghost maxCodeLength: nat, idx: nat, currLength: nat,
                    currCode: nat)
    returns (newLength: nat, newCode: nat)
    requires SortedByBits(es) && idx < |es| <= MAX_NUM_SYMBOLS && |es| <= |before| && es == before[..|es|]
    requires es[idx].bits <= maxCodeLength
    requires CodesStored(es, before, entries[..], idx + 1)
    requires CodeCursor(es, idx + 1, maxCodeLength, currLength, currCode)
    modifies entries
    ensures CodesStored(es, before, entries[..], idx)
    ensures CodeCursor(es, idx, maxCodeLength, newLength, newCode)
    ensures newLength <= currLength
  {
    newLength, newCode := StepCursor(es, idx, maxCodeLength, currLength, currCode, entries[idx].bits);
    StoreCode(entries, es, before, idx, newCode);
    newCode := (newCode + 1) % 256;
  }

  method StoreCode(entries: array<HuffmanListEntry>, ghost es: seq<HuffmanListEntry>,
                   ghost before: seq<HuffmanListEntry>, idx: nat, code: nat)
    requires SortedByBits(es) && idx < |es| <= |before| && es == before[..|es|] && code == Code(es, idx)
    requires CodesStored(es, before, entries[..], idx + 1)
    modifies entries
    ensures CodesStored(es, before, entries[..], idx)
  {
    entries[idx] := entries[idx].(code := code);
  }

  method GenerateCodesAndIndices(entries: array<HuffmanListEntry>, idxOfEachBitSize: array<nat>, maxIdx: nat,
                                 maxCodeLength: nat)
    requires maxIdx <= entries.Length && maxIdx <= MAX_NUM_SYMBOLS
    requires maxCodeLength <= MAX_CODE_LENGTH && idxOfEachBitSize.Length == MAX_CODE_LENGTH + 1
    requires SortedByBits(entries[..maxIdx])
    requires forall i :: 0 <= i < maxIdx ==> entries[i].bits <= maxCodeLength
    modifies entries, idxOfEachBitSize
    ensures entries[..] == WithCodes(old(entries[..maxIdx])) + old(entries[maxIdx..])
    ensures IndexesBitSizes(old(entries[..maxIdx]), idxOfEachBitSize[..])
  {
    ghost var es, before := entries[..maxIdx], entries[..];
    var currLength: nat, currCode: nat, idx: nat := maxCodeLength, 0, maxIdx;
    idxOfEachBitSize[currLength] := maxIdx;
    while idx > 0
      invariant 0 <= idx <= maxIdx && CodesStored(es, before, entries[..], idx)
      invariant CodeCursor(es, idx, maxCodeLength, currLength, currCode)
      invariant currLength <= maxCodeLength && IndexedFrom(es, idxOfEachBitSize[..], idx, currLength)
    {
      idx := idx - 1;
      var oldLength := currLength;
      currLength, currCode := AssignCode(entries, es, before, maxCodeLength, idx, currLength, currCode);
      RecordBitSize(idxOfEachBitSize, es, idx, oldLength, currLength);
    }
  }

  /** Entries idx.. have their bit-size ends recorded; the run of currLength, if begun, ends where idx says. */
  ghost predicate IndexedFrom(es: seq<HuffmanListEntry>, ends: seq<nat>, idx: nat, currLength: nat)
    requires idx <= |es|
  {
    && currLength < |ends|
    && (idx < |es| ==> currLength == es[idx].bits)
    && (idx == |es| ==> ends[currLength] == |es|)
    && (forall k :: idx <= k < |es| ==> es[k].bits < |ends|)
    && (forall k :: idx <= k < |es| ==> BitSizeEndsAt(es, k, ends[es[k].bits]))
  }

  method RecordBitSize(idxOfEachBitSize: array<nat>, ghost es: seq<HuffmanListEntry>, idx: nat, currLength: nat,
                       newLength: nat)
    requires SortedByBits(es) && idx < |es| && newLength == es[idx].bits <= currLength
    requires IndexedFrom(es, idxOfEachBitSize[..], idx + 1, currLength)
    modifies idxOfEachBitSize
    ensures IndexedFrom(es, idxOfEachBitSize[..], idx, newLength)
  {
    if newLength < currLength {
      idxOfEachBitSize[newLength] := idx + 1;
    }
  }

  method DetermineIdxOfEachBitSize(list: seq<HuffmanListEntry>, idxOfEachBitSize: array<nat>)
    requires 1 <= |list| <= 255 && SortedByBits(list)
    requires forall i :: 0 <= i < |list| ==> list[i].bits < idxOfEachBitSize.Length
    modifies idxOfEachBitSize
    ensures IndexesBitSizes(list, idxOfEachBitSize[..])
  {
    var bitSize := list[0].bits;
    ghost var start := 0;
    for idx := 0 to |list|
      invariant 0 <= start <= idx && start < |list| && bitSize == list[start].bits
      invariant idx > 0 ==> start < idx
      invariant forall j :: start <= j < idx ==> list[j].bits == bitSize
      invariant forall k :: 0 <= k < start ==>
                  list[k].bits < bitSize && BitSizeEndsAt(list, k, idxOfEachBitSize[list[k].bits])
    {
      if list[idx].bits > bitSize {
        idxOfEachBitSize[bitSize] := idx;
        bitSize := list[idx].bits;
        start := idx;
      }
    }
    idxOfEachBitSize[bitSize] := |list|;
  }

  /** Assigns codes longest first; a code of at most 10 bits fills its range of the table, a longer one stays in
      the list from the returned index on. */
  method GenerateCodesAndLut(entries: array<HuffmanListEntry>, table: array<HuffmanEntry>, maxIdx: nat,
                             maxCodeLength: nat)
    returns (minOversizedCodeIdx: nat)
    requires maxIdx <= entries.Length && maxIdx <= 255 && table.Length == SMALL_TABLE_SIZE
    requires KraftComplete(entries[..maxIdx])
    requires entries[maxIdx - 1].bits <= maxCodeLength
    modifies entries, table
    ensures minOversizedCodeIdx == ShortCount(old(entries[..maxIdx]), SMALL_TABLE_BITS)
    ensures LutFor(WithCodes(old(entries[..maxIdx])), table[..])
    ensures CodesStored(old(entries[..maxIdx]), old(entries[..]), entries[..], minOversizedCodeIdx)
  {
    ghost var es, before := entries[..maxIdx], entries[..];
    FillRange(table, 0, table.Length, HuffmanEntry(0, 0));
    var currLength: nat, currCode: nat, idx: nat := maxCodeLength, 0, maxIdx;
    minOversizedCodeIdx := maxIdx;
    while idx > 0
      invariant 0 <= idx <= maxIdx && minOversizedCodeIdx == Later(idx, ShortCount(es, SMALL_TABLE_BITS))
      invariant LutProgress(es, before, entries[..], table[..], idx)
      invariant CodeCursor(es, idx, maxCodeLength, currLength, currCode)
    {
      idx := idx - 1;
      currLength, currCode, minOversizedCodeIdx := PlaceCode(entries, table, es, before, maxCodeLength, idx,
                                                             currLength, currCode, minOversizedCodeIdx);
    }
    LutFilledIsLut(es, table[..], ShortCount(es, SMALL_TABLE_BITS));
  }

  ghost function Later(a: nat, b: nat): nat { if a < b then b else a }

  ghost predicate LutProgress(es: seq<HuffmanListEntry>, before: seq<HuffmanListEntry>, entries: seq<HuffmanListEntry>,
                              table: seq<HuffmanEntry>, idx: nat)
  {
    && KraftComplete(es) && idx <= |es| <= |before| && es == before[..|es|]
    && CodesStored(es, before, entries, Later(idx, ShortCount(es, SMALL_TABLE_BITS)))
    && LutFilled(es, table, idx, ShortCount(es, SMALL_TABLE_BITS))
  }

  /** One round of the loop of generateCodesAndLut. */
  method PlaceCode(entries: array<HuffmanListEntry>, table: array<HuffmanEntry>, ghost es: seq<HuffmanListEntry>,
                   ghost before: seq<HuffmanListEntry>, ghost maxCodeLength: nat, idx: nat, currLength: nat,
                   currCode: nat, minOversized: nat)
    returns (newLength: nat, newCode: nat, newMinOversized: nat)
    requires idx < |es| <= 255 && LutProgress(es, before, entries[..], table[..], idx + 1)
    requires es[|es| - 1].bits <= maxCodeLength
    requires CodeCursor(es, idx + 1, maxCodeLength, currLength, currCode)
    requires minOversized == Later(idx + 1, ShortCount(es, SMALL_TABLE_BITS))
    modifies entries, table
    ensures LutProgress(es, before, entries[..], table[..], idx)
    ensures CodeCursor(es, idx, maxCodeLength, newLength, newCode)
    ensures newMinOversized == Later(idx, ShortCount(es, SMALL_TABLE_BITS))
  {
    var entry := entries[idx];
    assert entry == es[idx];
    newLength, newCode := StepCursor(es, idx, maxCodeLength, currLength, currCode, entry.bits);
    newMinOversized := minOversized;
    if entry.bits > SMALL_TABLE_BITS {
      StoreCode(entries, es, before, idx, newCode);
      newMinOversized := idx;
    } else {
      FillLut(table, es, idx, ShortCount(es, SMALL_TABLE_BITS), newCode, entry.symbol, entry.bits);
    }
    newCode := (newCode + 1) % 256;
  }

  /** The part of LutFor that holds once entries idx.. have been handled. */
  ghost predicate LutFilled(es: seq<HuffmanListEntry>, table: seq<HuffmanEntry>, idx: nat, short: nat)
    requires idx <= |es| && short <= |es| && forall j :: 0 <= j < short ==> es[j].bits <= SMALL_TABLE_BITS
  {
    && |table| == SMALL_TABLE_SIZE
    && (forall j, t {:trigger Covers(es, j, SMALL_TABLE_BITS, t)} ::
          idx <= j < short && 0 <= t < |table| && Covers(es, j, SMALL_TABLE_BITS, t)
          ==> table[t] == HuffmanEntry(es[j].symbol, es[j].bits))
    && (forall t :: 0 <= t < |table| && t < Floor(es, short, SMALL_TABLE_BITS) ==> table[t] == HuffmanEntry(0, 0))
  }

  lemma CodeRange(es: seq<HuffmanListEntry>, i: nat)
    requires KraftComplete(es) && i < |es| && es[i].bits <= SMALL_TABLE_BITS
    ensures var w := Pow2(SMALL_TABLE_BITS - es[i].bits);
            && Floor(es, i + 1, SMALL_TABLE_BITS) == Code(es, i) * w
            && Floor(es, i, SMALL_TABLE_BITS) == Code(es, i) * w + w
            && Code(es, i) * w + w <= SMALL_TABLE_SIZE
  {
    var b := es[i].bits;
    CodeFromEnd(es, i);
    FloorScale(es, i + 1, b, SMALL_TABLE_BITS - b);
    FloorDecreases(es, 0, i, SMALL_TABLE_BITS);
    Pow2Values();
  }

  method FillLut(table: array<HuffmanEntry>, ghost es: seq<HuffmanListEntry>, ghost i: nat, ghost short: nat, code: nat,
                 symbol: nat, bits: nat)
    requires KraftComplete(es) && short == ShortCount(es, SMALL_TABLE_BITS) && i < short
    requires code == Code(es, i) && symbol == es[i].symbol && bits == es[i].bits
    requires LutFilled(es, table[..], i + 1, short)
    modifies table
    ensures LutFilled(es, table[..], i, short)
  {
    hide Pow2;
    CodeRange(es, i);
    hide Floor, Code, ShortCount, SortedByBits, KraftComplete, LutFilled, Covers;
    var w := Pow2(SMALL_TABLE_BITS - bits);
    var tableIdx := code * w;
    ghost var before := table[..];
    FillRange(table, tableIdx, tableIdx + w, HuffmanEntry(symbol, bits));
    FillOneMore(es, before, table[..], i, short, tableIdx, tableIdx + w);
  }

  lemma FillOneMore(es: seq<HuffmanListEntry>, before: seq<HuffmanEntry>, after: seq<HuffmanEntry>, i: nat, short: nat,
                    start: nat, end: nat)
    requires KraftComplete(es) && short == ShortCount(es, SMALL_TABLE_BITS) && i < short
    requires LutFilled(es, before, i + 1, short) && |after| == |before|
    requires start == Floor(es, i + 1, SMALL_TABLE_BITS) && end == Floor(es, i, SMALL_TABLE_BITS)
    requires forall t :: 0 <= t < |after| ==>
               after[t] == if start <= t < end then HuffmanEntry(es[i].symbol, es[i].bits) else before[t]
    ensures LutFilled(es, after, i, short)
  {
    FloorDecreases(es, i + 1, short, SMALL_TABLE_BITS);
    forall j, t | i <= j < short && 0 <= t < |after| && Covers(es, j, SMALL_TABLE_BITS, t)
      ensures after[t] == HuffmanEntry(es[j].symbol, es[j].bits)
    {
      if j > i { FloorDecreases(es, i + 1, j, SMALL_TABLE_BITS); }
    }
  }

  lemma LutFilledIsLut(es: seq<HuffmanListEntry>, table: seq<HuffmanEntry>, short: nat)
    requires KraftComplete(es) && short == ShortCount(es, SMALL_TABLE_BITS)
    requires LutFilled(es, table, 0, short)
    ensures LutFor(WithCodes(es), table)
  {
    var r := WithCodes(es);
    assert ShortCount(r, SMALL_TABLE_BITS) == short by {
      var k := ShortCount(r, SMALL_TABLE_BITS);
      assert k < |es| ==> r[k].bits == es[k].bits;
      assert short < |es| ==> r[short].bits == es[short].bits;
    }
    forall k | 0 <= k <= short ensures Floor(r, k, SMALL_TABLE_BITS) == Floor(es, k, SMALL_TABLE_BITS) {
      FloorSameBits(es, r, k, SMALL_TABLE_BITS);
    }
    forall j, t | 0 <= j < short && 0 <= t < |table| && Covers(r, j, SMALL_TABLE_BITS, t)
      ensures table[t] == HuffmanEntry(r[j].symbol, r[j].bits)
    {
      assert Covers(es, j, SMALL_TABLE_BITS, t);
    }
  }
}
