/** Chunks of run-length data that are not Huffman coded: the decoders of src/enhancement/src/entropy.c, and the
    encoders they undo. A symbol's top bit says that more of the run follows. */
module EntropyRle {
  import opened Bits
  import opened Symbols

  // -- Runs in base 128 -------------------------------------------------------------------------

  /** A number in base 128, most significant digit first; every digit but the last is flagged. */
  function RunBytes(n: nat, more: bool): (bytes: seq<byte>)
    ensures |bytes| > 0
  {
    (if n < 128 then [] else RunBytes(n / 128, true)) + [n % 128 + if more then 128 else 0]
  }

  datatype Run = Past | Run(count: nat, next: nat)

  /** Goes on reading a run after a symbol; `Past` if it would read beyond the data. */
  function ReadRun(data: seq<byte>, at: nat, symbol: byte, count: nat): Run
    decreases |data| - at
  {
    if !NextSymbolIsRL(symbol) then Run(count, at)
    else if at >= |data| then Past
    else ReadRun(data, at + 1, data[at], count * 128 + data[at] % 128)
  }

  lemma {:induction false} ReadRunBytes(data: seq<byte>, at: nat, symbol: byte, n: nat, more: bool)
    requires NextSymbolIsRL(symbol)
    requires at + |RunBytes(n, more)| <= |data| && data[at..at + |RunBytes(n, more)|] == RunBytes(n, more)
    ensures var end := at + |RunBytes(n, more)|;
            && ReadRun(data, at, symbol, 0) == ReadRun(data, end, data[end - 1], n)
            && NextSymbolIsRL(data[end - 1]) == more
  {
    var bytes := RunBytes(n, more);
    var end := at + |bytes|;
    var digit := n % 128 + if more then 128 else 0;
    assert data[end - 1] == bytes[|bytes| - 1] == digit;
    LastDigit(n, more);
    if n >= 128 {
      var high := RunBytes(n / 128, true);
      assert bytes == high + [digit];
      hide RunBytes, ReadRun, NextSymbolIsRL;
      TwoSlices(data, at, high, [digit]);
      ReadRunBytes(data, at, symbol, n / 128, true);
    }
  }

  lemma LastDigit(n: nat, more: bool)
    ensures var digit := n % 128 + if more then 128 else 0;
            n / 128 * 128 + digit % 128 == n && NextSymbolIsRL(digit) == more
    ensures n < 128 ==> n / 128 == 0
  {}

  lemma TwoSlices(data: seq<byte>, at: nat, p: seq<byte>, q: seq<byte>)
    requires at + |p + q| <= |data| && data[at..at + |p + q|] == p + q
    ensures data[at..at + |p|] == p && data[at + |p|..at + |p| + |q|] == q
  {
    assert data[at..at + |p|] == (p + q)[..|p|];
    assert data[at + |p|..at + |p| + |q|] == (p + q)[|p|..];
  }

  // -- Coefficients -----------------------------------------------------------------------------

  predicate IsItem(item: Item) { -0x2000 <= item.value < 0x2000 && item.zeros < 0x8000_0000 }

  function Flag(zeros: nat): nat { if zeros > 0 then 128 else 0 }

  /** A small value takes one symbol, any other two. */
  function EncodeValue(item: Item): (bytes: seq<byte>)
    requires IsItem(item)
    ensures |bytes| > 0
  {
    if -32 <= item.value < 32 then [(item.value + 32) * 2 + Flag(item.zeros)]
    else
      var code := (item.value + 0x2000) * 2;
      [code % 256 + 1, code / 256 + Flag(item.zeros)]
  }

  function EncodeItem(item: Item): (bytes: seq<byte>)
    requires IsItem(item)
    ensures |bytes| > 0
  {
    EncodeValue(item) + if item.zeros > 0 then RunBytes(item.zeros, false) else []
  }

  function Encode(items: seq<Item>, n: nat): seq<byte>
    requires n <= |items| && forall k :: 0 <= k < |items| ==> IsItem(items[k])
  {
    if n == 0 then [] else Encode(items, n - 1) + EncodeItem(items[n - 1])
  }

  /** A value and the symbol it ended with; `Lost` beyond the data. */
  datatype Value = Lost | Value(value: int, symbol: byte, next: nat)

  function ReadValue(data: seq<byte>, at: nat): Value {
    if at >= |data| then Lost
    else if !NextSymbolIsMSB(data[at]) then Value(LsbValue(data[at]), data[at], at + 1)
    else if at + 1 >= |data| then Lost
    else Value(MsbValue(data[at], data[at + 1]), data[at + 1], at + 2)
  }

  /** One entropyDecode. */
  function ReadItem(data: seq<byte>, at: nat): Run {
    var v := ReadValue(data, at);
    if v.Lost? then Past else ReadRun(data, v.next, v.symbol, 0)
  }

  lemma ValueRoundTrip(data: seq<byte>, at: nat, item: Item)
    requires IsItem(item)
    requires at + |EncodeValue(item)| <= |data| && data[at..at + |EncodeValue(item)|] == EncodeValue(item)
    ensures ReadValue(data, at).Value? && ReadValue(data, at).value == item.value
    ensures ReadValue(data, at).next == at + |EncodeValue(item)|
    ensures NextSymbolIsRL(ReadValue(data, at).symbol) <==> item.zeros > 0
  {
    var bytes := EncodeValue(item);
    assert data[at] == bytes[0];
    if |bytes| == 2 {
      assert data[at + 1] == bytes[1];
      LargeRoundTrip(item.value, Flag(item.zeros));
    } else {
      SmallRoundTrip(item.value, Flag(item.zeros));
    }
  }

  lemma SmallRoundTrip(value: int, flag: nat)
    requires -32 <= value < 32 && (flag == 0 || flag == 128)
    ensures LsbValue((value + 32) * 2 + flag) == value && !NextSymbolIsMSB((value + 32) * 2 + flag)
  {}

  lemma LargeRoundTrip(value: int, flag: nat)
    requires -0x2000 <= value < 0x2000 && (flag == 0 || flag == 128)
    ensures var code := (value + 0x2000) * 2;
            MsbValue(code % 256 + 1, code / 256 + flag) == value && NextSymbolIsMSB(code % 256 + 1)
  {
    var code := (value + 0x2000) * 2;
    assert code % 256 % 2 == 0 && code % 256 <= 254 && code / 256 < 128;
    assert (code / 256 + flag) % 128 == code / 256;
    assert (code % 256 + 1) / 2 * 2 == code % 256;
  }

  lemma ItemSlices(data: seq<byte>, at: nat, item: Item)
    requires IsItem(item)
    requires at + |EncodeItem(item)| <= |data| && data[at..at + |EncodeItem(item)|] == EncodeItem(item)
    ensures var next, end := at + |EncodeValue(item)|, at + |EncodeItem(item)|;
            && next <= end && data[at..next] == EncodeValue(item)
            && if item.zeros > 0
               then end == next + |RunBytes(item.zeros, false)| && data[next..end] == RunBytes(item.zeros, false)
               else end == next
  {
    hide EncodeValue, RunBytes;
    TwoSlices(data, at, EncodeValue(item), if item.zeros > 0 then RunBytes(item.zeros, false) else []);
  }

  /** What the encoder writes for an item, the decoder reads back, up to the last byte. */
  lemma ItemRoundTrip(data: seq<byte>, at: nat, item: Item)
    requires IsItem(item)
    requires at + |EncodeItem(item)| <= |data| && data[at..at + |EncodeItem(item)|] == EncodeItem(item)
    ensures ReadValue(data, at).Value? && ReadValue(data, at).value == item.value
    ensures ReadItem(data, at) == Run(item.zeros, at + |EncodeItem(item)|)
  {
    ItemSlices(data, at, item);
    hide EncodeItem, EncodeValue, RunBytes, ReadValue;
    ValueRoundTrip(data, at, item);
    if item.zeros > 0 {
      ReadRunBytes(data, at + |EncodeValue(item)|, ReadValue(data, at).symbol, item.zeros, false);
    }
  }

  // -- Temporal signals -------------------------------------------------------------------------

  /** The first byte gives the signal of the first run; the runs alternate. */
  function EncodeTemporal(start: nat, counts: seq<nat>, n: nat): (bytes: seq<byte>)
    requires start <= 1 && n <= |counts|
    ensures |bytes| > 0
  {
    if n == 0 then [start] else EncodeTemporal(start, counts, n - 1) + RunBytes(counts[n - 1], false)
  }

  function SignalOf(start: nat, k: nat): nat { (start + k) % 2 }

  // -- The decoder ------------------------------------------------------------------------------

  /** An entropy decoder of a chunk that is run-length data only. */
  class EntropyDecoder {
    const rleData: seq<byte>
    var rawOffset: nat
    var currHuff: nat

    /** entropyInitialize */
    constructor (data: seq<byte>)
      ensures rleData == data && rawOffset == 0 && currHuff == 0
    {
      rleData, rawOffset, currHuff := data, 0, 0;
    }

    /** getNextSymbolRLEOnly; the source does not check for the end of the data. */
    method GetNextSymbol() returns (symbol: byte)
      requires rawOffset < |rleData|
      modifies this`rawOffset
      ensures symbol == rleData[old(rawOffset)] && rawOffset == old(rawOffset) + 1
    {
      symbol := rleData[rawOffset];
      rawOffset := rawOffset + 1;
    }

    /** entropyDecode, with a 32-bit counter. */
    method Decode() returns (value: int, zeros: int)
      requires ReadItem(rleData, rawOffset).Run?
      modifies this`rawOffset
      ensures var v, r := ReadValue(rleData, old(rawOffset)), ReadItem(rleData, old(rawOffset));
              v.Value? && value == v.value && zeros == ToInt32(r.count) && rawOffset == r.next
    {
      hide ToInt32;
      ghost var result, run: nat := ReadItem(rleData, rawOffset), 0;
      assert ToInt32(0) == 0;
      zeros := 0;
      var symbol := GetNextSymbol();
      if NextSymbolIsMSB(symbol) {
        var lsb := symbol;
        symbol := GetNextSymbol();
        value := MsbValue(lsb, symbol);
      } else {
        value := LsbValue(symbol);
      }
      while NextSymbolIsRL(symbol)
        invariant ReadRun(rleData, rawOffset, symbol, run) == result && result.Run? && zeros == ToInt32(run)
        decreases |rleData| - rawOffset, if NextSymbolIsRL(symbol) then 1 else 0
      {
        symbol := GetNextSymbol();
        ShiftWraps(run, symbol);
        zeros := ToInt32(ShiftInRun(zeros, symbol));
        run := ShiftInRun(run, symbol);
      }
    }

    /** Decoding what the encoder wrote: the k-th call gives the k-th item, and the last leaves no byte over. */
    method DecodeNext(items: seq<Item>, k: nat) returns (item: Item)
      requires k < |items| && (forall i :: 0 <= i < |items| ==> IsItem(items[i])) && rleData == Encode(items, |items|)
      requires rawOffset == |Encode(items, k)|
      modifies this`rawOffset
      ensures item == items[k] && rawOffset == |Encode(items, k + 1)|
    {
      EncodedAt(items, k, |items|);
      ItemRoundTrip(rleData, rawOffset, items[k]);
      var value, zeros := Decode();
      item := Item(value, zeros);
    }

    method DecodeAll(items: seq<Item>) returns (decoded: seq<Item>)
      requires (forall i :: 0 <= i < |items| ==> IsItem(items[i]))
      requires rleData == Encode(items, |items|) && rawOffset == 0
      modifies this`rawOffset
      ensures decoded == items && rawOffset == |rleData|
    {
      assert |Encode(items, 0)| == 0;
      hide Encode, EncodeItem;
      decoded := [];
      for k := 0 to |items|
        invariant decoded == items[..k] && rawOffset == |Encode(items, k)|
      {
        var item := DecodeNext(items, k);
        decoded := decoded + [item];
      }
    }

    /** getNextSymbolTemporalAndRLEOnly */
    method GetNextTemporal() returns (symbol: byte)
      requires rawOffset < |rleData| && currHuff <= 1
      modifies this`rawOffset, this`currHuff
      ensures symbol == rleData[old(rawOffset)] && rawOffset == old(rawOffset) + 1
      ensures currHuff == if rawOffset == 1 then symbol % 2
                          else if symbol >= 128 then old(currHuff) else 1 - old(currHuff)
    {
      symbol := GetNextSymbol();
      if rawOffset == 1 {
        currHuff := symbol % 2;
      } else {
        currHuff := NEXT_TEMPORAL_CONTEXT[currHuff][symbol / 128];
      }
    }

    /** entropyDecodeTemporal, with a 32-bit counter. */
    method DecodeTemporal() returns (signal: nat, count: int)
      requires currHuff <= 1 && 0 < |rleData|
      requires ReadRun(rleData, if rawOffset == 0 then 1 else rawOffset, 128, 0).Run?
      modifies this`rawOffset, this`currHuff
      ensures var r := ReadRun(rleData, if old(rawOffset) == 0 then 1 else old(rawOffset), 128, 0);
              count == ToInt32(r.count) && rawOffset == r.next && rawOffset > 1
      ensures signal == (if old(rawOffset) == 0 then rleData[0] % 2 else old(currHuff)) && currHuff == 1 - signal
    {
      hide ToInt32;
      ghost var result, run: nat := ReadRun(rleData, if rawOffset == 0 then 1 else rawOffset, 128, 0), 0;
      signal, count := currHuff, 0;
      assert ToInt32(0) == 0;
      var symbol: byte := 128;
      if rawOffset == 0 {
        symbol := GetNextTemporal();
        signal := symbol % 2;
      }
      symbol := GetNextTemporal();
      ShiftWraps(run, symbol);
      count, run := ToInt32(ShiftInRun(count, symbol)), ShiftInRun(run, symbol);
      while symbol >= 128
        invariant ReadRun(rleData, rawOffset, symbol, run) == result && result.Run? && rawOffset > 1
        invariant count == ToInt32(run)
        invariant signal <= 1 && currHuff == if symbol >= 128 then signal else 1 - signal
        decreases |rleData| - rawOffset, if symbol >= 128 then 1 else 0
      {
        symbol := GetNextTemporal();
        ShiftWraps(run, symbol);
        count, run := ToInt32(ShiftInRun(count, symbol)), ShiftInRun(run, symbol);
      }
    }

    /** Of any list of runs, each is decoded to what 32 bits hold of it, with alternating signals and no byte left over;
        so the list decodes to itself exactly when every run is below 2^31. */
    method DecodeAllTemporal(start: nat, counts: seq<nat>) returns (signals: seq<nat>, decoded: seq<int>)
      requires start <= 1 && rleData == EncodeTemporal(start, counts, |counts|) && rawOffset == 0 && currHuff <= 1
      modifies this`rawOffset, this`currHuff
      ensures |decoded| == |signals| == |counts| && (counts != [] ==> rawOffset == |rleData|)
      ensures forall k :: 0 <= k < |counts| ==> decoded[k] == ToInt32(counts[k])
      ensures decoded == counts <==> forall k :: 0 <= k < |counts| ==> counts[k] < 0x8000_0000
      ensures forall k :: 0 <= k < |counts| ==> signals[k] == SignalOf(start, k)
    {
      hide EncodeTemporal, RunBytes, ReadRun, ToInt32;
      signals, decoded := [], [];
      for k := 0 to |counts|
        invariant |decoded| == |signals| == k
        invariant forall i :: 0 <= i < k ==> decoded[i] == ToInt32(counts[i]) && signals[i] == SignalOf(start, i)
        invariant currHuff <= 1 && if k == 0 then rawOffset == 0 else rawOffset == |EncodeTemporal(start, counts, k)|
        invariant k > 0 ==> currHuff == SignalOf(start, k)
      {
        TemporalAt(start, counts, k, |counts|);
        var signal, count := DecodeTemporal();
        signals, decoded := signals + [signal], decoded + [count];
      }
    }
  }

  /** A list that does not: a run of 2^31 is decoded to -2^31. */
  method LongTemporalExample() returns (signals: seq<nat>, decoded: seq<int>)
    ensures decoded == [-0x8000_0000]
  {
    var counts := [0x8000_0000];
    var decoder := new EntropyDecoder(EncodeTemporal(0, counts, 1));
    signals, decoded := decoder.DecodeAllTemporal(0, counts);
    assert ToInt32(counts[0]) == -0x8000_0000;
  }

  const NEXT_TEMPORAL_CONTEXT: seq<seq<nat>> := [[1, 0], [0, 1]]

  lemma {:induction false} EncodedAt(items: seq<Item>, k: nat, n: nat)
    requires k < n <= |items| && forall i :: 0 <= i < |items| ==> IsItem(items[i])
    ensures var bytes, at := Encode(items, n), |Encode(items, k)|;
            && at + |EncodeItem(items[k])| == |Encode(items, k + 1)| <= |bytes|
            && bytes[at..at + |EncodeItem(items[k])|] == EncodeItem(items[k])
    decreases n
  {
    hide EncodeItem;
    var before, last, at := Encode(items, n - 1), EncodeItem(items[n - 1]), |Encode(items, k)|;
    if k < n - 1 {
      EncodedAt(items, k, n - 1);
      var size := |EncodeItem(items[k])|;
      assert (before + last)[at..at + size] == before[at..at + size];
    } else {
      assert (before + last)[at..at + |last|] == last;
    }
  }

  lemma {:induction false} TemporalAt(start: nat, counts: seq<nat>, k: nat, n: nat)
    requires start <= 1 && k < n <= |counts|
    ensures var bytes, at := EncodeTemporal(start, counts, n), |EncodeTemporal(start, counts, k)|;
            && bytes[0] == start && (k == 0 ==> at == 1)
            && ReadRun(bytes, at, 128, 0) == Run(counts[k], |EncodeTemporal(start, counts, k + 1)|)
  {
    hide RunBytes;
    var bytes, at := EncodeTemporal(start, counts, n), |EncodeTemporal(start, counts, k)|;
    TemporalBytes(start, counts, k, n);
    ReadRunBytes(bytes, at, 128, counts[k], false);
  }

  lemma {:induction false} TemporalBytes(start: nat, counts: seq<nat>, k: nat, n: nat)
    requires start <= 1 && k < n <= |counts|
    ensures var bytes, at := EncodeTemporal(start, counts, n), |EncodeTemporal(start, counts, k)|;
            && bytes[0] == start
            && at + |RunBytes(counts[k], false)| == |EncodeTemporal(start, counts, k + 1)| <= |bytes|
            && bytes[at..at + |RunBytes(counts[k], false)|] == RunBytes(counts[k], false)
    decreases n
  {
    hide RunBytes;
    var before, last, at := EncodeTemporal(start, counts, n - 1), RunBytes(counts[n - 1], false),
        |EncodeTemporal(start, counts, k)|;
    assert (before + last)[0] == before[0];
    if k < n - 1 {
      TemporalBytes(start, counts, k, n - 1);
      var size := |RunBytes(counts[k], false)|;
      assert (before + last)[at..at + size] == before[at..at + size];
    } else {
      StartsWithSignal(start, counts, k);
      assert (before + last)[at..at + |last|] == last;
    }
  }

  lemma {:induction false} StartsWithSignal(start: nat, counts: seq<nat>, n: nat)
    requires start <= 1 && n <= |counts|
    ensures EncodeTemporal(start, counts, n)[0] == start
  {
    if n > 0 { StartsWithSignal(start, counts, n - 1); }
  }
}
