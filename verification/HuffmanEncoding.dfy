/** The reference decoder of coefficients against an encoder: a coefficient whose symbols are written as code words, one
    after another, is decoded to itself. */
module HuffmanEncoding {
  import opened Wrappers
  import opened Symbols
  import opened Bits
  import opened HuffmanCodes
  import opened HuffmanDecode
  import opened HuffmanTripleDecoder
  import EntropyRle

  /** The stream has the code word of a symbol between two positions; a single symbol takes no bits. */
  ghost predicate HoldsSymbol(a: Alphabet, data: seq<byte>, pos: int, symbol: nat, end: int)
    requires ValidAlphabet(a)
  {
    match a
    case EmptyAlphabet => false
    case SingleSymbol(s) => symbol == s && end == pos
    case Coded(es) => exists i :: 0 <= i < |es| && es[i].symbol == symbol && end == pos + es[i].bits &&
                                  Peek(data, pos, es[i].bits) == es[i].code
  }

  /** Decoding a symbol undoes writing it, and only that symbol is decoded there. */
  lemma SymbolRoundTrip(a: Alphabet, data: seq<byte>, pos: int, symbol: nat, end: int)
    requires ValidAlphabet(a)
    ensures HoldsSymbol(a, data, pos, symbol, end) <==>
            end >= pos && DecodeRef(a, data, pos) == Some(Decoded(symbol, end - pos))
  {
    if a.Coded? {
      var es := a.entries;
      var k := MatchIndex(es, data, pos);
      assert Matches(es[k], data, pos);
      hide ValidAlphabet, CompleteCode, Peek;
      if HoldsSymbol(a, data, pos, symbol, end) {
        var i :| 0 <= i < |es| && es[i].symbol == symbol && end == pos + es[i].bits &&
                 Peek(data, pos, es[i].bits) == es[i].code;
        assert CompleteCode(es) by { CodeOf(a); }
        MatchIndexIs(es, data, pos, i);
      }
    }
  }

  lemma CodeOf(a: Alphabet)
    requires ValidAlphabet(a) && a.Coded?
    ensures CompleteCode(a.entries)
  {}

  /** The first symbol of a coefficient is an LSB; if its low bit is set the next one is an MSB; all others are run
      lengths. */
  function AlphabetAt(l: Alphabet, m: Alphabet, r: Alphabet, symbols: seq<byte>, i: nat): Alphabet
    requires i < |symbols|
  {
    if i == 0 then l else if i == 1 && symbols[0] % 2 == 1 then m else r
  }

  /** The stream holds the symbols of a coefficient, symbol i between ends[i] and ends[i + 1]. */
  ghost predicate HoldsSymbols(l: Alphabet, m: Alphabet, r: Alphabet, data: seq<byte>, symbols: seq<byte>,
                               ends: seq<int>)
    requires ValidAlphabet(l) && ValidAlphabet(m) && ValidAlphabet(r)
  {
    && |ends| == |symbols| + 1
    && forall i {:trigger symbols[i]} :: 0 <= i < |symbols| ==>
         HoldsSymbol(AlphabetAt(l, m, r, symbols, i), data, ends[i], symbols[i], ends[i + 1])
  }

  /** The run-length symbols, from symbol `at` on. */
  lemma {:induction false} RunOfSymbols(l: Alphabet, m: Alphabet, r: Alphabet, data: seq<byte>, symbols: seq<byte>,
                                        ends: seq<int>, at: nat, symbol: byte, zeros: nat, k: nat)
    requires ValidAlphabet(l) && ValidAlphabet(m) && ValidAlphabet(r) && HoldsSymbols(l, m, r, data, symbols, ends)
    requires 0 < at <= |symbols| && (symbols[0] % 2 == 1 ==> at > 1) && k >= |symbols| - at
    requires EntropyRle.ReadRun(symbols, at, symbol, zeros).Run?
    ensures var run := EntropyRle.ReadRun(symbols, at, symbol, zeros);
            && at <= run.next <= |symbols|
            && RunFrom(r, data, NextSymbolIsRL(symbol), ends[at], zeros, k) == RunDone(run.count, ends[run.next])
    decreases |symbols| - at
  {
    hide ValidAlphabet, HoldsSymbol, DecodeRef;
    if NextSymbolIsRL(symbol) {
      SymbolRoundTrip(r, data, ends[at], symbols[at], ends[at + 1]);
      RunOfSymbols(l, m, r, data, symbols, ends, at + 1, symbols[at], zeros * 128 + symbols[at] % 128, k - 1);
    }
  }

  /** Decoding a coefficient from code words is decoding it from the symbols they stand for, as run-length data. */
  lemma TripleOfSymbols(l: Alphabet, m: Alphabet, r: Alphabet, data: seq<byte>, symbols: seq<byte>, ends: seq<int>,
                        k: nat)
    requires ValidAlphabet(l) && ValidAlphabet(m) && ValidAlphabet(r) && HoldsSymbols(l, m, r, data, symbols, ends)
    requires k >= |symbols| && EntropyRle.ReadItem(symbols, 0).Run?
    ensures var run := EntropyRle.ReadItem(symbols, 0);
            && run.next <= |symbols| && EntropyRle.ReadValue(symbols, 0).Value?
            && TripleRef(l, m, r, data, ends[0], k) ==
               Coefficient(EntropyRle.ReadValue(symbols, 0).value, run.count, ends[run.next])
  {
    hide ValidAlphabet, HoldsSymbol, DecodeRef, RunFrom, EntropyRle.ReadRun;
    var v := EntropyRle.ReadValue(symbols, 0);
    SymbolRoundTrip(l, data, ends[0], symbols[0], ends[1]);
    if symbols[0] % 2 == 1 { SymbolRoundTrip(m, data, ends[1], symbols[1], ends[2]); }
    RunOfSymbols(l, m, r, data, symbols, ends, v.next, v.symbol, 0, k);
  }

  /** Main result on the reference: a coefficient of 14 bits and a run of zeros of 31, written as their symbols in code
      words anywhere in a stream, are what the reference decodes there, and no bit more. */
  lemma CoefficientRoundTrip(l: Alphabet, m: Alphabet, r: Alphabet, data: seq<byte>, item: Item, ends: seq<int>, k: nat)
    requires ValidAlphabet(l) && ValidAlphabet(m) && ValidAlphabet(r) && EntropyRle.IsItem(item)
    requires HoldsSymbols(l, m, r, data, EntropyRle.EncodeItem(item), ends) && k >= |ends|
    ensures TripleRef(l, m, r, data, ends[0], k) == Coefficient(item.value, item.zeros, ends[|ends| - 1])
    ensures Held(TripleRef(l, m, r, data, ends[0], k)) == TripleRef(l, m, r, data, ends[0], k)
  {
    hide ValidAlphabet, HoldsSymbol, TripleRef, EntropyRle.EncodeItem, EntropyRle.ReadItem, EntropyRle.ReadValue;
    var symbols := EntropyRle.EncodeItem(item);
    assert symbols[0..0 + |symbols|] == symbols;
    EntropyRle.ItemRoundTrip(symbols, 0, item);
    TripleOfSymbols(l, m, r, data, symbols, ends, k);
  }
}
