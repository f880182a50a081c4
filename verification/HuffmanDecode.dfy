/** The symbol decoders of src/enhancement/src/huffman.c and entropy.c: look-up table, sorted list
    and single symbol, each proved to return the symbol whose code word the stream starts with. */
module HuffmanDecode {
  import opened Wrappers
  import opened PowersOfTwo
  import opened Bits
  import opened HuffmanCodes
  import opened HuffmanTables
  import opened HuffmanBitStream

  /** A decoded symbol and the number of stream bits it took. */
  datatype Decoded = Decoded(symbol: nat, bits: nat)

  /** One of the three kinds of alphabet a stream can signal. */
  datatype Alphabet = EmptyAlphabet | SingleSymbol(symbol: nat) | Coded(entries: seq<HuffmanListEntry>)

  datatype ManualDecodeState = ManualDecodeState(
    list: seq<HuffmanListEntry>, idxOfEachBitSize: seq<nat>,
    singleSymbol: nat, minCodeLength: nat, maxCodeLength: nat)

  /** What every decoder needs. The source also orders symbols of equal length, the larger first, which no result
      needs. */
  ghost predicate ValidAlphabet(a: Alphabet) {
    match a
    case EmptyAlphabet => true
    case SingleSymbol(s) => s < 256
    case Coded(es) => CompleteCode(es) && |es| <= 255 && es[|es| - 1].bits <= MAX_WINDOW
                      && forall i :: 0 <= i < |es| ==> es[i].symbol < 256
  }

  /** Reference decoder: plain prefix matching against the whole alphabet. */
  ghost function DecodeRef(a: Alphabet, data: seq<byte>, pos: int): (r: Option<Decoded>)
    requires ValidAlphabet(a)
    ensures r.Some? ==> r.value.symbol < 256
  {
    match a
    case EmptyAlphabet => None
    case SingleSymbol(s) => Some(Decoded(s, 0))
    case Coded(es) => var i := MatchIndex(es, data, pos); Some(Decoded(es[i].symbol, es[i].bits))
  }

  /** The lengths a decoder state carries for its alphabet. */
  ghost predicate LengthsFor(a: Alphabet, state: ManualDecodeState)
    requires ValidAlphabet(a)
  {
    match a
    case EmptyAlphabet => state.minCodeLength == state.maxCodeLength == MAX_CODE_LENGTH
    case SingleSymbol(s) => state.minCodeLength == state.maxCodeLength == 0 && state.singleSymbol == s
    case Coded(es) => state.maxCodeLength == es[|es| - 1].bits && 0 < state.maxCodeLength
  }

  /** The state's list holds the entries of the alphabet from `cut` on. */
  ghost predicate ListFrom(a: Alphabet, cut: nat, state: ManualDecodeState)
    requires ValidAlphabet(a)
  {
    if a.Coded?
    then cut <= |a.entries| && state.list == a.entries[cut..] && IndexesBitSizes(state.list, state.idxOfEachBitSize)
    else state.list == []
  }

  /** A state and a look-up table that together decode the alphabet. */
  ghost predicate LutStateFor(a: Alphabet, state: ManualDecodeState, table: seq<HuffmanEntry>)
    requires ValidAlphabet(a)
  {
    && LengthsFor(a, state)
    && |table| == SMALL_TABLE_SIZE
    && (if a.Coded?
        then LutFor(a.entries, table) && ListFrom(a, ShortCount(a.entries, SMALL_TABLE_BITS), state)
        else ListFrom(a, 0, state) && forall t :: 0 <= t < |table| ==> table[t] == HuffmanEntry(0, 0))
  }

  /** The binary search of huffmanManualDecode over one run of equal code lengths, [first, last] inclusive. Its bounds
      stay in the interval after being ruled out, so it stops only because the codes are consecutive integers. */
  method SearchRun(list: seq<HuffmanListEntry>, first: nat, last: nat, code: nat) returns (found: bool, at: nat)
    requires first <= last < |list|
    requires forall j :: first <= j <= last ==> list[first].code == list[j].code + (j - first)
    ensures found ==> first <= at <= last && list[at].code == code
    ensures !found ==> forall j :: first <= j <= last ==> list[j].code != code
  {
    var lowerLimit, upperLimit := first, last;
    at := lowerLimit + (upperLimit - lowerLimit + 1) / 2;
    ghost var target := first + list[first].code - code;
    ghost var lo, hi := first, last;
    while true
      invariant first <= lowerLimit <= lo <= at <= hi <= upperLimit <= last
      invariant lo == lowerLimit == first || (lo == lowerLimit + 1 && lowerLimit < target)
      invariant hi == upperLimit == last || (hi == upperLimit - 1 && target < upperLimit)
      decreases hi - lo
    {
      if code > list[at].code {
        if at == lowerLimit { return false, at; }
        upperLimit, hi := at, at - 1;
        at := at - (at - lowerLimit + 1) / 2;
      } else if code < list[at].code {
        if at == upperLimit { return false, at; }
        lowerLimit, lo := at, at + 1;
        at := at + (upperLimit - at + 1) / 2;
      } else {
        return true, at;
      }
    }
  }

  /** What huffmanManualDecode needs of its list: lengths in order with their ends recorded, and codes that
      fall by exactly one along each run of equal lengths. */
  ghost predicate Searchable(list: seq<HuffmanListEntry>, ends: seq<nat>) {
    && SortedByBits(list)
    && (forall k {:trigger list[k]} :: 0 <= k < |list| ==> list[k].bits <= MAX_WINDOW)
    && IndexesBitSizes(list, ends)
    && (forall i, j {:trigger list[i].code, list[j].code} ::
          0 <= i <= j < |list| && list[i].bits == list[j].bits ==> list[i].code == list[j].code + (j - i))
  }

  /** huffmanManualDecode: finds an entry whose code word the stream starts with, and consumes it. */
  method ManualDecode(list: seq<HuffmanListEntry>, ends: seq<nat>, stream: HuffmanStream)
    returns (ok: bool, symbol: nat, ghost at: nat)
    requires Searchable(list, ends)
    requires stream.Valid() && stream.wordEndBit - stream.wordStartBit <= MAX_WINDOW
    modifies stream
    ensures stream.Valid()
    ensures ok ==> at < |list| && Matches(list[at], stream.data, old(stream.Position())) && symbol == list[at].symbol
    ensures ok ==> stream.Position() == old(stream.Position()) + list[at].bits
    ensures ok ==> stream.wordEndBit - stream.wordStartBit <= old(stream.wordEndBit - stream.wordStartBit)
    ensures !ok ==> forall k {:trigger list[k]} :: 0 <= k < |list| ==>
        !Matches(list[k], stream.data, old(stream.Position()))
  {
    ghost var pos, window := stream.Position(), stream.wordEndBit - stream.wordStartBit;
    var bits: nat := if |list| > 0 then list[0].bits else 0;
    var code := stream.AdvanceToNthBit(bits);
    var idx: nat := 0;
    while idx < |list|
      invariant Scanning(list, stream.data, pos, idx, bits, code)
      invariant WindowReady(stream, pos, window, bits)
    {
      bits, code := ExtendCode(stream, pos, window, bits, code, list[idx].bits);
      var end := ends[bits];
      var found, index := SearchRun(list, idx, end - 1, code);
      if found {
        stream.Consume(bits);
        return true, list[index].symbol, index;
      }
      RunExcluded(list, stream.data, pos, idx, end, bits, code);
      idx := end;
    }
    return false, 0, 0;
  }

  ghost predicate Scanning(list: seq<HuffmanListEntry>, data: seq<byte>, pos: int, idx: nat, bits: nat, code: nat) {
    && idx <= |list|
    && code == Peek(data, pos, bits)
    && (idx < |list| ==> bits <= list[idx].bits)
    && (forall k {:trigger list[k]} :: 0 <= k < idx ==> !Matches(list[k], data, pos))
  }

  /** The window holds at least `bits` bits from `pos`, and no more than it began with unless it was topped up. */
  ghost predicate WindowReady(stream: HuffmanStream, pos: int, window: nat, bits: nat)
    reads stream
  {
    && stream.Valid() && stream.Position() == pos && window <= MAX_WINDOW && bits <= MAX_WINDOW
    && stream.wordEndBit - stream.wordStartBit == if window < bits then bits else window
  }

  /** The inner loop of huffmanManualDecode: one more bit at a time until the entry's length is reached. */
  method ExtendCode(stream: HuffmanStream, ghost pos: int, ghost window: nat, bits: nat, code: nat, wanted: nat)
    returns (newBits: nat, newCode: nat)
    requires WindowReady(stream, pos, window, bits) && bits <= wanted <= MAX_WINDOW
    requires code == Peek(stream.data, pos, bits)
    modifies stream
    ensures newBits == wanted && WindowReady(stream, pos, window, wanted)
    ensures newCode == Peek(stream.data, pos, wanted)
  {
    newBits, newCode := bits, code;
    while newBits < wanted
      invariant newBits <= wanted && WindowReady(stream, pos, window, newBits)
      invariant newCode == Peek(stream.data, pos, newBits)
    {
      newBits := newBits + 1;
      newCode := stream.AdvanceToNthBit(newBits);
    }
  }

  lemma RunExcluded(list: seq<HuffmanListEntry>, data: seq<byte>, pos: int, idx: nat, end: nat, bits: nat, code: nat)
    requires SortedByBits(list) && idx < |list| && Scanning(list, data, pos, idx, bits, code)
    requires bits == list[idx].bits && BitSizeEndsAt(list, idx, end)
    requires forall j :: idx <= j <= end - 1 ==> list[j].code != code
    ensures Scanning(list, data, pos, end, bits, code)
  {
    forall k | 0 <= k < end ensures !Matches(list[k], data, pos) {
      if idx <= k { assert list[k].bits == bits; }
    }
  }

  /** Entries of equal length carry consecutive codes, falling by one. */
  lemma {:induction false} RunConsecutive(es: seq<HuffmanListEntry>, i: nat, j: nat)
    requires CompleteCode(es) && i <= j < |es| && es[i].bits == es[j].bits
    ensures es[i].code == es[j].code + (j - i)
  {
    if i < j {
      RunConsecutive(es, i, j - 1);
      assert es[j - 1].bits == es[j].bits;
      assert es[j - 1].code == Floor(es, j, es[j].bits);
    }
  }

  lemma SuffixRuns(es: seq<HuffmanListEntry>, cut: nat, i: nat, j: nat)
    requires CompleteCode(es) && cut <= |es| && i <= j < |es| - cut
    requires es[cut..][i].bits == es[cut..][j].bits
    ensures es[cut..][i].code == es[cut..][j].code + (j - i)
  {
    assert es[cut..][i] == es[cut + i] && es[cut..][j] == es[cut + j];
    RunConsecutive(es, cut + i, cut + j);
  }

  /** Any tail of a complete code can be searched, in particular the entries too long for a table. */
  lemma SuffixSearchable(es: seq<HuffmanListEntry>, cut: nat, ends: seq<nat>)
    requires CompleteCode(es) && cut <= |es| && es[|es| - 1].bits <= MAX_WINDOW && IndexesBitSizes(es[cut..], ends)
    ensures Searchable(es[cut..], ends)
  {
    var list := es[cut..];
    assert SortedByBits(list);
    forall i, j {:trigger list[i].code, list[j].code} | 0 <= i <= j < |list| && list[i].bits == list[j].bits
      ensures list[i].code == list[j].code + (j - i)
    {
      SuffixRuns(es, cut, i, j);
    }
  }

  lemma ListMatch(es: seq<HuffmanListEntry>, cut: nat, data: seq<byte>, pos: int)
    requires CompleteCode(es) && cut <= |es|
    ensures forall k {:trigger es[cut..][k]} :: 0 <= k < |es| - cut && Matches(es[cut..][k], data, pos)
              ==> MatchIndex(es, data, pos) == cut + k
    ensures MatchIndex(es, data, pos) >= cut ==> Matches(es[cut..][MatchIndex(es, data, pos) - cut], data, pos)
  {
    forall k | 0 <= k < |es| - cut && Matches(es[cut..][k], data, pos)
      ensures MatchIndex(es, data, pos) == cut + k
    {
      assert es[cut..][k] == es[cut + k];
      MatchIndexIs(es, data, pos, cut + k);
    }
  }

  /** Which entry of the small table the next ten bits select. */
  lemma LutEntryMatches(es: seq<HuffmanListEntry>, table: seq<HuffmanEntry>, data: seq<byte>, pos: int)
    requires CompleteCode(es) && LutFor(es, table)
    ensures Peek(data, pos, SMALL_TABLE_BITS) < |table|
    ensures var i := MatchIndex(es, data, pos);
            var e := table[Peek(data, pos, SMALL_TABLE_BITS)];
            if i < ShortCount(es, SMALL_TABLE_BITS) then e == HuffmanEntry(es[i].symbol, es[i].bits) && e.bits > 0
            else e == HuffmanEntry(0, 0)
  {
    Pow2Values();
    var i, t, short := MatchIndex(es, data, pos), Peek(data, pos, SMALL_TABLE_BITS), ShortCount(es, SMALL_TABLE_BITS);
    if i < short {
      MatchesInterval(es, i, data, pos, SMALL_TABLE_BITS);
      CodesFitEightBits(es, i);
      assert Covers(es, i, SMALL_TABLE_BITS, t);
    } else if t >= Floor(es, short, SMALL_TABLE_BITS) {
      var j := CoveringEntry(es, short, SMALL_TABLE_BITS, t);
      MatchesInterval(es, j, data, pos, SMALL_TABLE_BITS);
      MatchIndexIs(es, data, pos, j);
    }
  }

  lemma LutBitsSmall(es: seq<HuffmanListEntry>, table: seq<HuffmanEntry>)
    requires CompleteCode(es) && LutFor(es, table)
    ensures forall t :: 0 <= t < |table| ==> table[t].bits <= SMALL_TABLE_BITS
  {
    Pow2Values();
    var short := ShortCount(es, SMALL_TABLE_BITS);
    forall t | 0 <= t < |table| ensures table[t].bits <= SMALL_TABLE_BITS {
      if t >= Floor(es, short, SMALL_TABLE_BITS) {
        var j := CoveringEntry(es, short, SMALL_TABLE_BITS, t);
        assert Covers(es, j, SMALL_TABLE_BITS, t);
      }
    }
  }

  /** What every complete symbol decoder promises: the reference symbol, its bits consumed, and a window no wider
      than it was (or than a look-up needs); failure exactly when the alphabet is empty. */
  ghost predicate DecodesRef(a: Alphabet, stream: HuffmanStream, pos: int, window: int, ok: bool, symbol: nat)
    requires ValidAlphabet(a)
    reads stream
  {
    var r := DecodeRef(a, stream.data, pos);
    && stream.Valid()
    && ok == r.Some?
    && (ok ==>
          && symbol == r.value.symbol && stream.Position() == pos + r.value.bits
          && stream.wordEndBit - stream.wordStartBit <=
             (if window < SMALL_TABLE_BITS then SMALL_TABLE_BITS else window))
  }

  /** huffmanLutDecode: true with the entry of the next ten bits, or false with nothing consumed. */
  method LutDecode(table: seq<HuffmanEntry>, stream: HuffmanStream) returns (ok: bool, symbol: nat)
    requires |table| == SMALL_TABLE_SIZE && forall t :: 0 <= t < |table| ==> table[t].bits <= SMALL_TABLE_BITS
    requires stream.Valid() && stream.wordEndBit - stream.wordStartBit <= MAX_WINDOW
    modifies stream
    ensures stream.Valid() && Peek(stream.data, old(stream.Position()), SMALL_TABLE_BITS) < |table|
    ensures var e := table[Peek(stream.data, old(stream.Position()), SMALL_TABLE_BITS)];
            && ok == (e.bits != 0)
            && stream.Position() == old(stream.Position()) + e.bits
            && (ok ==> symbol == e.symbol)
    ensures stream.wordEndBit - stream.wordStartBit
            <= if old(stream.wordEndBit - stream.wordStartBit) < SMALL_TABLE_BITS then SMALL_TABLE_BITS
               else old(stream.wordEndBit - stream.wordStartBit)
  {
    var lutIdx := stream.AdvanceToNthBit(SMALL_TABLE_BITS);
    Pow2Values();
    var bits := table[lutIdx].bits;
    stream.Consume(bits);
    if bits != 0 {
      return true, table[lutIdx].symbol;
    }
    return false, 0;
  }

  /** huffmanGetSingleSymbol */
  function GetSingleSymbol(state: ManualDecodeState): Option<nat> {
    if state.maxCodeLength + state.minCodeLength == 0 then Some(state.singleSymbol) else None
  }

  /** huffmanManualDecodeMaybeSingleSymbol, called when the symbol is known to be in the list. */
  method ManualDecodeMaybeSingle(state: ManualDecodeState, stream: HuffmanStream, ghost a: Alphabet, ghost cut: nat)
    returns (ok: bool, symbol: nat)
    requires ValidAlphabet(a) && ListFrom(a, cut, state) && LengthsFor(a, state)
    requires a.Coded? ==> MatchIndex(a.entries, stream.data, stream.Position()) >= cut
    requires stream.Valid() && stream.wordEndBit - stream.wordStartBit <= MAX_WINDOW
    modifies stream
    ensures DecodesRef(a, stream, old(stream.Position()), old(stream.wordEndBit - stream.wordStartBit), ok, symbol)
  {
    ghost var pos := stream.Position();
    var single := GetSingleSymbol(state);
    if single.Some? {
      return true, single.value;
    }
    if a.Coded? {
      SuffixSearchable(a.entries, cut, state.idxOfEachBitSize);
      ListMatch(a.entries, cut, stream.data, pos);
    }
    ghost var at;
    ok, symbol, at := ManualDecode(state.list, state.idxOfEachBitSize, stream);
  }

  /** The look-up table step, for any alphabet: it decodes the symbol, or leaves it to the list. */
  lemma LutStep(a: Alphabet, state: ManualDecodeState, table: seq<HuffmanEntry>, data: seq<byte>, pos: int)
    requires ValidAlphabet(a) && LutStateFor(a, state, table)
    ensures Peek(data, pos, SMALL_TABLE_BITS) < |table|
    ensures forall t :: 0 <= t < |table| ==> table[t].bits <= SMALL_TABLE_BITS
    ensures var e := table[Peek(data, pos, SMALL_TABLE_BITS)];
            if e.bits != 0 then DecodeRef(a, data, pos) == Some(Decoded(e.symbol, e.bits))
            else a.Coded? ==> MatchIndex(a.entries, data, pos) >= ShortCount(a.entries, SMALL_TABLE_BITS)
  {
    Pow2Values();
    if a.Coded? {
      LutEntryMatches(a.entries, table, data, pos);
      LutBitsSmall(a.entries, table);
    }
  }

  /** The run-length decoder: look-up table first, then single symbol or list. */
  method LutThenListDecode(state: ManualDecodeState, table: seq<HuffmanEntry>, stream: HuffmanStream, ghost a: Alphabet)
    returns (ok: bool, symbol: nat)
    requires ValidAlphabet(a) && LutStateFor(a, state, table)
    requires stream.Valid() && stream.wordEndBit - stream.wordStartBit <= MAX_WINDOW
    modifies stream
    ensures DecodesRef(a, stream, old(stream.Position()), old(stream.wordEndBit - stream.wordStartBit), ok, symbol)
  {
    LutStep(a, state, table, stream.data, stream.Position());
    ok, symbol := LutDecode(table, stream);
    if !ok {
      ok, symbol := ManualDecodeMaybeSingle(state, stream, a,
                                            if a.Coded? then ShortCount(a.entries, SMALL_TABLE_BITS) else 0);
    }
  }

  /** huffmanSingleDecode of entropy.c: single symbol first, then table, then list. */
  method SingleDecode(state: ManualDecodeState, table: seq<HuffmanEntry>, stream: HuffmanStream, ghost a: Alphabet)
    returns (ok: bool, symbol: nat)
    requires ValidAlphabet(a) && LutStateFor(a, state, table)
    requires stream.Valid() && stream.wordEndBit - stream.wordStartBit <= MAX_WINDOW
    modifies stream
    ensures DecodesRef(a, stream, old(stream.Position()), old(stream.wordEndBit - stream.wordStartBit), ok, symbol)
  {
    var single := GetSingleSymbol(state);
    if single.Some? {
      return true, single.value;
    }
    ok, symbol := LutThenListDecode(state, table, stream, a);
  }
}
