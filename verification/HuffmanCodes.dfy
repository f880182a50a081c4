/** Canonical code assignment of src/enhancement/src/huffman.c, and why the result is a complete prefix code. */
module HuffmanCodes {
  import opened PowersOfTwo
  import opened Bits

  datatype HuffmanListEntry = HuffmanListEntry(code: nat, symbol: nat, bits: nat)

  const MAX_CODE_LENGTH: nat := 31
  const MAX_WINDOW: nat := 25

  ghost predicate SortedByBits(es: seq<HuffmanListEntry>) {
    forall i, j :: 0 <= i <= j < |es| ==> es[i].bits <= es[j].bits
  }

  /** The code the longest-first loop gives entry i. */
  function Code(es: seq<HuffmanListEntry>, i: nat): (c: nat)
    requires i < |es| && SortedByBits(es)
    ensures c <= |es| - 1 - i
    decreases |es| - i
  {
    if i + 1 == |es| then 0
    else
      var next := Code(es, i + 1) + 1;
      var d := Pow2(es[i + 1].bits - es[i].bits);
      QuotientNotLarger(next, d);
      next / d
  }

  lemma QuotientNotLarger(x: nat, d: nat)
    requires d >= 1
    ensures x / d <= x
  {
    assert x == d * (x / d) + x % d;
    MulMonotone(1, d, x / d);
  }

  function WithCodes(es: seq<HuffmanListEntry>): (r: seq<HuffmanListEntry>)
    requires SortedByBits(es)
    ensures |r| == |es|
    ensures forall i {:trigger r[i]} :: 0 <= i < |es| ==> r[i] == es[i].(code := Code(es, i))
  {
    seq(|es|, i requires 0 <= i < |es| => es[i].(code := Code(es, i)))
  }

  /** What is left at the bottom of the n-bit space after the first k code lengths have each taken
      their share from the top. The lengths satisfy Kraft's equation when nothing is left at the end. */
  ghost function Floor(es: seq<HuffmanListEntry>, k: nat, n: nat): int
    requires k <= |es| && forall j :: 0 <= j < k ==> es[j].bits <= n
  {
    if k == 0 then Pow2(n) else Floor(es, k - 1, n) - Pow2(n - es[k - 1].bits)
  }

  /** Sorted lengths of at least two symbols with Kraft sum 1. */
  ghost predicate KraftComplete(es: seq<HuffmanListEntry>) {
    |es| >= 2 && SortedByBits(es) && Floor(es, |es|, es[|es| - 1].bits) == 0
  }

  /** Such a list when each entry's code is the floor below it, at the entry's own depth. */
  ghost predicate CompleteCode(es: seq<HuffmanListEntry>) {
    KraftComplete(es) &&
    forall i {:trigger es[i].code} :: 0 <= i < |es| ==> es[i].code == Floor(es, i + 1, es[i].bits)
  }

  lemma {:induction false} FloorScale(es: seq<HuffmanListEntry>, k: nat, n: nat, d: nat)
    requires k <= |es| && forall j :: 0 <= j < k ==> es[j].bits <= n
    ensures Floor(es, k, n + d) == Floor(es, k, n) * Pow2(d)
  {
    if k == 0 {
      Pow2Add(n, d);
    } else {
      FloorScale(es, k - 1, n, d);
      Pow2Add(n - es[k - 1].bits, d);
      assert n - es[k - 1].bits + d == n + d - es[k - 1].bits;
      SubMul(Floor(es, k - 1, n), Pow2(n - es[k - 1].bits), Pow2(d));
    }
  }

  lemma SubMul(a: int, b: int, c: int)
    ensures (a - b) * c == a * c - b * c
  {}

  lemma {:induction false} FloorDecreases(es: seq<HuffmanListEntry>, j: nat, k: nat, n: nat)
    requires j <= k <= |es| && forall i :: 0 <= i < k ==> es[i].bits <= n
    ensures Floor(es, k, n) <= Floor(es, j, n)
    ensures j < k ==> Floor(es, k, n) < Floor(es, j, n)
    decreases k
  {
    if j < k { FloorDecreases(es, j, k - 1, n); }
  }

  /** The floor never drops below zero at any depth that the first k lengths fit in. */
  lemma FloorNonNegative(es: seq<HuffmanListEntry>, k: nat, n: nat)
    requires KraftComplete(es)
    requires k <= |es| && forall j :: 0 <= j < k ==> es[j].bits <= n
    ensures Floor(es, k, n) >= 0
    ensures k < |es| ==> Floor(es, k, n) > 0
  {
    var m := es[|es| - 1].bits;
    FloorDecreases(es, k, |es|, m);
    if n >= m {
      FloorScale(es, |es|, m, n - m);
      FloorDecreases(es, k, |es|, n);
    } else {
      FloorScale(es, k, n, m - n);
      if Floor(es, k, n) < 0 { MulMonotone(Floor(es, k, n), -1, Pow2(m - n)); }
    }
  }

  lemma {:induction false} CodeFromEnd(es: seq<HuffmanListEntry>, i: nat)
    requires KraftComplete(es) && i < |es|
    ensures Code(es, i) == Floor(es, i + 1, es[i].bits)
    decreases |es| - i
  {
    if i + 1 < |es| {
      CodeFromEnd(es, i + 1);
      var b, b' := es[i].bits, es[i + 1].bits;
      FloorScale(es, i + 1, b, b' - b);
      FloorNonNegative(es, i + 1, b);
      assert Code(es, i + 1) + 1 == Floor(es, i + 1, b');
      DivModUnique(Floor(es, i + 1, b'), Pow2(b' - b), Floor(es, i + 1, b), 0);
    }
  }

  lemma {:induction false} FloorSameBits(es: seq<HuffmanListEntry>, es': seq<HuffmanListEntry>, k: nat, n: nat)
    requires |es| == |es'| && k <= |es|
    requires forall j :: 0 <= j < k ==> es[j].bits == es'[j].bits <= n
    ensures Floor(es, k, n) == Floor(es', k, n)
  {
    if k > 0 { FloorSameBits(es, es', k - 1, n); }
  }

  /** Longest-first assignment turns sorted lengths with Kraft sum 1 into a complete code. */
  lemma AssignedCodesComplete(es: seq<HuffmanListEntry>)
    requires KraftComplete(es)
    ensures CompleteCode(WithCodes(es))
  {
    var r := WithCodes(es);
    FloorSameBits(es, r, |es|, es[|es| - 1].bits);
    forall i | 0 <= i < |es| ensures r[i].code == Floor(r, i + 1, r[i].bits) {
      CodeFromEnd(es, i);
      FloorSameBits(es, r, i + 1, es[i].bits);
    }
  }

  /** Main result: in a space of n bits the words starting with entry i's code are exactly those between
      two consecutive floors, so the codes of length at most n fill the top of the space with no gap. */
  lemma CodeInterval(es: seq<HuffmanListEntry>, i: nat, n: nat, w: nat)
    requires CompleteCode(es) && i < |es| && es[i].bits <= n
    ensures Floor(es, i + 1, n) == es[i].code * Pow2(n - es[i].bits)
    ensures Floor(es, i, n) == (es[i].code + 1) * Pow2(n - es[i].bits)
    ensures w / Pow2(n - es[i].bits) == es[i].code <==> Floor(es, i + 1, n) <= w < Floor(es, i, n)
  {
    var b := es[i].bits;
    FloorScale(es, i + 1, b, n - b);
    FloorScale(es, i, b, n - b);
    QuotientInterval(w, Pow2(n - b), es[i].code);
  }

  lemma LengthsPositive(es: seq<HuffmanListEntry>)
    requires KraftComplete(es)
    ensures es[0].bits >= 1
  {
    FloorNonNegative(es, 1, es[0].bits);
    assert Floor(es, 1, es[0].bits) == Pow2(es[0].bits) - 1;
  }

  /** Every code is below the number of symbols, so eight bits hold it; only the last entry's code is zero. */
  lemma CodesFitEightBits(es: seq<HuffmanListEntry>, i: nat)
    requires CompleteCode(es) && i < |es|
    ensures es[i].code <= |es| - 1 - i && es[i].code < Pow2(es[i].bits)
    ensures es[i].bits >= 1
    ensures es[i].code == 0 <==> i == |es| - 1
  {
    var b := es[i].bits;
    LengthsPositive(es);
    CodeFromEnd(es, i);
    FloorDecreases(es, 0, i + 1, b);
    FloorNonNegative(es, i + 1, b);
  }

  /** Plain prefix matching: the next bits of the stream are the entry's code word. */
  ghost predicate Matches(e: HuffmanListEntry, data: seq<byte>, pos: int) {
    Peek(data, pos, e.bits) == e.code
  }

  /** A match can be read off any longer run of known bits. */
  lemma MatchesKnownBits(e: HuffmanListEntry, data: seq<byte>, pos: int, n: nat)
    requires e.bits <= n
    ensures Matches(e, data, pos) <==> Peek(data, pos, n) / Pow2(n - e.bits) == e.code
  {
    PeekDivMod(data, pos, e.bits, n - e.bits);
  }

  lemma MatchesInterval(es: seq<HuffmanListEntry>, i: nat, data: seq<byte>, pos: int, n: nat)
    requires CompleteCode(es) && i < |es| && es[i].bits <= n
    ensures Matches(es[i], data, pos) <==> Floor(es, i + 1, n) <= Peek(data, pos, n) < Floor(es, i, n)
  {
    MatchesKnownBits(es[i], data, pos, n);
    CodeInterval(es, i, n, Peek(data, pos, n));
  }

  /** Prefix-free: no stream position starts with two different code words. */
  lemma MatchUnique(es: seq<HuffmanListEntry>, i: nat, j: nat, data: seq<byte>, pos: int)
    requires CompleteCode(es) && i < j < |es|
    ensures !(Matches(es[i], data, pos) && Matches(es[j], data, pos))
  {
    var n := es[|es| - 1].bits;
    MatchesInterval(es, i, data, pos, n);
    MatchesInterval(es, j, data, pos, n);
    FloorDecreases(es, i + 1, j, n);
  }

  /** Complete: every stream position starts with some code word. */
  lemma MatchExists(es: seq<HuffmanListEntry>, data: seq<byte>, pos: int)
    requires CompleteCode(es)
    ensures exists i :: 0 <= i < |es| && Matches(es[i], data, pos)
  {
    var n := es[|es| - 1].bits;
    var w := Peek(data, pos, n);
    var i := 0;
    while w < Floor(es, i + 1, n)
      invariant i < |es| && w < Floor(es, i, n)
    {
      i := i + 1;
    }
    MatchesInterval(es, i, data, pos, n);
  }

  /** The one entry whose code word the stream starts with. */
  ghost function MatchIndex(es: seq<HuffmanListEntry>, data: seq<byte>, pos: int): (i: nat)
    requires CompleteCode(es)
    ensures i < |es| && Matches(es[i], data, pos)
  {
    MatchExists(es, data, pos);
    var i :| 0 <= i < |es| && Matches(es[i], data, pos);
    i
  }

  lemma MatchIndexIs(es: seq<HuffmanListEntry>, data: seq<byte>, pos: int, j: nat)
    requires CompleteCode(es) && j < |es|
    ensures Matches(es[j], data, pos) <==> j == MatchIndex(es, data, pos)
  {
    var i := MatchIndex(es, data, pos);
    if i < j { MatchUnique(es, i, j, data, pos); }
    if j < i { MatchUnique(es, j, i, data, pos); }
  }

  /** The number of leading entries that fit in n bits. */
  ghost function ShortCount(es: seq<HuffmanListEntry>, n: nat): (k: nat)
    requires SortedByBits(es)
    ensures k <= |es|
    ensures forall j :: 0 <= j < k ==> es[j].bits <= n
    ensures forall j :: k <= j < |es| ==> es[j].bits > n
  {
    ShortCountUpTo(es, n, |es|)
  }

  ghost function ShortCountUpTo(es: seq<HuffmanListEntry>, n: nat, end: nat): (k: nat)
    requires SortedByBits(es) && end <= |es| && forall j :: end <= j < |es| ==> es[j].bits > n
    ensures k <= |es|
    ensures forall j :: 0 <= j < k ==> es[j].bits <= n
    ensures forall j :: k <= j < |es| ==> es[j].bits > n
  {
    if end == 0 || es[end - 1].bits <= n then end else ShortCountUpTo(es, n, end - 1)
  }

  /** Among words of n bits, t starts with the code word of entry j. */
  ghost predicate Covers(es: seq<HuffmanListEntry>, j: nat, n: nat, t: nat)
    requires j < |es| && forall k :: 0 <= k <= j ==> es[k].bits <= n
  {
    Floor(es, j + 1, n) <= t < Floor(es, j, n)
  }

  /** Every word at or above the floor of the first k entries starts with one of their codes. */
  lemma {:induction false} CoveringEntry(es: seq<HuffmanListEntry>, k: nat, n: nat, t: nat) returns (j: nat)
    requires k <= |es| && forall i :: 0 <= i < k ==> es[i].bits <= n
    requires Floor(es, k, n) <= t < Pow2(n)
    ensures j < k && Covers(es, j, n, t)
  {
    j := k - 1;
    if t >= Floor(es, k - 1, n) { j := CoveringEntry(es, k - 1, n, t); }
  }
}
