/** huffmanManualInitializeWithLut and huffmanTripleInitialize: from the sorted code lengths of the three alphabets to a
    decoder state that StateFor accepts, so that HuffmanTripleDecoder's main result applies to it. */
module HuffmanInit {
  import opened PowersOfTwo
  import opened HuffmanCodes
  import opened HuffmanTables
  import opened HuffmanDecode
  import opened HuffmanTriples
  import opened HuffmanTripleDecoder

  /** What huffmanManualInitializeCommon leaves: the signalled lengths, and the entries sorted by length. */
  datatype Header = Header(minCodeLength: nat, maxCodeLength: nat, singleSymbol: nat, entries: seq<HuffmanListEntry>)

  /** The alphabets the decoder supports: empty, a single symbol, or a complete code whose signalled maximum length is
      attained, of at most 255 symbols and 25 bits. */
  ghost predicate ValidHeader(h: Header) {
    if h.minCodeLength == h.maxCodeLength == MAX_CODE_LENGTH then h.entries == []
    else if h.minCodeLength == h.maxCodeLength == 0 then h.entries == [] && h.singleSymbol < 256
    else
      && KraftComplete(h.entries) && |h.entries| <= 255
      && h.entries[|h.entries| - 1].bits == h.maxCodeLength <= MAX_WINDOW
      && forall i :: 0 <= i < |h.entries| ==> h.entries[i].symbol < 256
  }

  ghost function AlphabetOf(h: Header): (a: Alphabet)
    requires ValidHeader(h)
    ensures ValidAlphabet(a)
    ensures a.Coded? <==> h.entries != []
    ensures a.Coded? ==> a.entries == WithCodes(h.entries)
  {
    if h.minCodeLength == h.maxCodeLength == MAX_CODE_LENGTH then EmptyAlphabet
    else if h.minCodeLength == h.maxCodeLength == 0 then SingleSymbol(h.singleSymbol)
    else
      AssignedCodesComplete(h.entries);
      Coded(WithCodes(h.entries))
  }

  method ToArray(s: seq<HuffmanListEntry>) returns (a: array<HuffmanListEntry>)
    ensures fresh(a) && a[..] == s
  {
    a := new HuffmanListEntry[|s|](i requires 0 <= i < |s| => s[i]);
  }

  /** The list and its bit-size ends, for the entries too long for the table. */
  method OversizedList(list: seq<HuffmanListEntry>) returns (ends: seq<nat>)
    requires |list| <= 255 && SortedByBits(list) && forall i :: 0 <= i < |list| ==> list[i].bits <= MAX_WINDOW
    ensures IndexesBitSizes(list, ends)
  {
    var idxOfEachBitSize := new nat[MAX_CODE_LENGTH + 1](i => 0);
    if |list| > 0 {
      DetermineIdxOfEachBitSize(list, idxOfEachBitSize);
    }
    ends := idxOfEachBitSize[..];
  }

  /** huffmanManualInitializeWithLut */
  method InitializeWithLut(h: Header) returns (state: ManualDecodeState, table: seq<HuffmanEntry>)
    requires ValidHeader(h)
    ensures LutStateFor(AlphabetOf(h), state, table)
  {
    if |h.entries| == 0 {
      state := ManualDecodeState([], [], h.singleSymbol, h.minCodeLength, h.maxCodeLength);
      table := seq(SMALL_TABLE_SIZE, i => HuffmanEntry(0, 0));
      return;
    }
    var list;
    table, list := CodesAndLut(h);
    SuffixSorted(WithCodes(h.entries), ShortCount(WithCodes(h.entries), SMALL_TABLE_BITS));
    var ends := OversizedList(list);
    state := ManualDecodeState(list, ends, h.singleSymbol, h.minCodeLength, h.maxCodeLength);
    AssignedCodesComplete(h.entries);
    CodesFitEightBits(WithCodes(h.entries), |h.entries| - 1);
  }

  lemma SuffixSorted(es: seq<HuffmanListEntry>, cut: nat)
    requires SortedByBits(es) && cut <= |es|
    ensures SortedByBits(es[cut..])
  {}

  method CodesAndLut(h: Header) returns (table: seq<HuffmanEntry>, list: seq<HuffmanListEntry>)
    requires ValidHeader(h) && h.entries != []
    ensures LutFor(WithCodes(h.entries), table)
    ensures list == WithCodes(h.entries)[ShortCount(WithCodes(h.entries), SMALL_TABLE_BITS)..]
  {
    hide Pow2, Floor, Code, LutFor, Covers;
    var codes := ToArray(h.entries);
    var lut := new HuffmanEntry[SMALL_TABLE_SIZE](i => HuffmanEntry(0, 0));
    assert codes[..|h.entries|] == h.entries;
    var minIdxOfOversizedCodes := GenerateCodesAndLut(codes, lut, |h.entries|, h.maxCodeLength);
    table, list := lut[..], codes[minIdxOfOversizedCodes..];
    ShortCountSame(h.entries, WithCodes(h.entries), SMALL_TABLE_BITS);
  }

  lemma ShortCountSame(es: seq<HuffmanListEntry>, cs: seq<HuffmanListEntry>, n: nat)
    requires SortedByBits(es) && SortedByBits(cs) && |es| == |cs|
    requires forall i :: 0 <= i < |es| ==> es[i].bits == cs[i].bits
    ensures ShortCount(es, n) == ShortCount(cs, n)
  {
    var a, b := ShortCount(es, n), ShortCount(cs, n);
    assert a < |es| ==> es[a].bits == cs[a].bits;
    assert b < |es| ==> es[b].bits == cs[b].bits;
  }

  /** The LSB codes: assigned, but kept as a list for the triple table. */
  method InitializeLsb(h: Header) returns (lsbList: seq<HuffmanListEntry>)
    requires ValidHeader(h)
    ensures h.entries == [] ==> lsbList == []
    ensures h.entries != [] ==> lsbList == WithCodes(h.entries)
  {
    var codes := ToArray(h.entries);
    if |h.entries| > 0 {
      assert codes[..|h.entries|] == h.entries;
      GenerateCodes(codes, |h.entries|, h.maxCodeLength);
    }
    lsbList := codes[..];
  }

  /** The MSB codes, with their bit-size ends. */
  method InitializeMsb(h: Header) returns (state: ManualDecodeState)
    requires ValidHeader(h)
    ensures LengthsFor(AlphabetOf(h), state) && ListFrom(AlphabetOf(h), 0, state)
  {
    if |h.entries| == 0 {
      return ManualDecodeState([], [], h.singleSymbol, h.minCodeLength, h.maxCodeLength);
    }
    var codes := ToArray(h.entries);
    var ends := new nat[MAX_CODE_LENGTH + 1](i => 0);
    assert codes[..|h.entries|] == h.entries;
    GenerateCodesAndIndices(codes, ends, |h.entries|, h.maxCodeLength);
    state := ManualDecodeState(codes[..], ends[..], h.singleSymbol, h.minCodeLength, h.maxCodeLength);
    IndexesSame(h.entries, codes[..], ends[..]);
    AssignedCodesComplete(h.entries);
    CodesFitEightBits(WithCodes(h.entries), |h.entries| - 1);
    assert state.list == WithCodes(h.entries)[0..];
  }

  lemma IndexesSame(es: seq<HuffmanListEntry>, cs: seq<HuffmanListEntry>, ends: seq<nat>)
    requires |es| == |cs| && forall i :: 0 <= i < |es| ==> es[i].bits == cs[i].bits
    requires IndexesBitSizes(es, ends)
    ensures IndexesBitSizes(cs, ends)
  {
    forall i | 0 <= i < |cs| ensures cs[i].bits < |ends| && BitSizeEndsAt(cs, i, ends[cs[i].bits]) {
      assert es[i].bits == cs[i].bits;
    }
  }

  /** The triple table and the overflow list. */
  method InitializeTable(lsbList: seq<HuffmanListEntry>, rlTable: seq<HuffmanEntry>, ghost r: Alphabet)
    returns (table: seq<HuffmanTriple>, overflow: seq<HuffmanListEntry>)
    requires ValidAlphabet(r) && RlTableFor(r, rlTable) && |lsbList| <= 255 && (|lsbList| > 0 ==> CompleteCode(lsbList))
    ensures forall i :: 0 <= i < |lsbList| ==> lsbList[i].code < Pow2(lsbList[i].bits)
    ensures |table| == BIG_TABLE_SIZE
    ensures forall idx :: 0 <= idx < |table| ==> table[idx] == TripleSpec(lsbList, r, TripleCut(lsbList), idx)
    ensures overflow == lsbList[TripleCut(lsbList)..]
  {
    var big := new HuffmanTriple[BIG_TABLE_SIZE](i => ZERO_TRIPLE);
    overflow := TripleTableAssign(big, lsbList, rlTable, r);
    table := big[..];
  }

  lemma TableForHeader(h: Header, lsbList: seq<HuffmanListEntry>, r: Alphabet, table: seq<HuffmanTriple>)
    requires ValidHeader(h) && ValidAlphabet(r) && lsbList == if h.entries == [] then [] else WithCodes(h.entries)
    requires forall i :: 0 <= i < |lsbList| ==> lsbList[i].code < Pow2(lsbList[i].bits)
    requires |table| == BIG_TABLE_SIZE
    requires forall idx :: 0 <= idx < |table| ==> table[idx] == TripleSpec(lsbList, r, TripleCut(lsbList), idx)
    ensures TripleTableFor(AlphabetOf(h), r, table)
    ensures lsbList == [] || LsbCut(AlphabetOf(h)) == TripleCut(lsbList)
  {}

  /** The overflow list with its ends, as the LSB's fall-back decoder. */
  method InitializeOverflow(h: Header, overflow: seq<HuffmanListEntry>) returns (lsb: ManualDecodeState)
    requires ValidHeader(h)
    requires overflow == if h.entries == [] then [] else WithCodes(h.entries)[LsbCut(AlphabetOf(h))..]
    ensures LengthsFor(AlphabetOf(h), lsb) && ListFrom(AlphabetOf(h), LsbCut(AlphabetOf(h)), lsb)
  {
    if |h.entries| > 0 {
      SuffixSorted(WithCodes(h.entries), LsbCut(AlphabetOf(h)));
      CodesFitEightBits(AlphabetOf(h).entries, |h.entries| - 1);
    }
    var ends := OversizedList(overflow);
    lsb := ManualDecodeState(overflow, ends, h.singleSymbol, h.minCodeLength, h.maxCodeLength);
  }

  /** huffmanTripleInitialize, after the three headers have been read: the state decodes the alphabets they describe. */
  method InitializeTriple(lsb: Header, msb: Header, rl: Header) returns (state: TripleDecodeState)
    requires ValidHeader(lsb) && ValidHeader(msb) && ValidHeader(rl)
    ensures StateFor(AlphabetOf(lsb), AlphabetOf(msb), AlphabetOf(rl), state)
  {
    var lsbList := InitializeLsb(lsb);
    var msbState := InitializeMsb(msb);
    var rlState, rlTable := InitializeWithLut(rl);
    if lsbList != [] { AssignedCodesComplete(lsb.entries); }
    var table, overflow := InitializeTable(lsbList, rlTable, AlphabetOf(rl));
    TableForHeader(lsb, lsbList, AlphabetOf(rl), table);
    var lsbState := InitializeOverflow(lsb, overflow);
    state := TripleDecodeState(table, rlTable, lsbState, msbState, rlState);
  }
}
