/** The loop of ldeDecodeEnhancement in src/enhancement/src/decode.c for a tile without a temporal chunk: it visits only
    the transform units at which some layer has a decoded coefficient, and skips the zero runs common to all layers. */
module DecodeLoop {
  import opened PowersOfTwo
  import opened Symbols
  import opened TransformUnit

  /** A layer whose chunk has no data, or the results of decoding its chunk. */
  datatype Layer = NoData | Decoded(items: seq<Item>)

  /** A layer that is empty, or for which there is no decoder, is a zero for each transform unit. */
  function Items(layer: Layer, decoderExists: bool, tuTotal: nat): seq<Item>
    requires tuTotal > 0
  {
    if decoderExists && layer.Decoded? then layer.items else [Item(0, tuTotal - 1)]
  }

  function Zeros(n: nat): (z: seq<int>)
    ensures |z| == n && forall k :: 0 <= k < n ==> z[k] == 0
  {
    seq(n, i => 0)
  }

  /** The run-length expansion of the first n items. */
  function Expand(items: seq<Item>, n: nat): seq<int>
    requires n <= |items|
  {
    if n == 0 then [] else Expand(items, n - 1) + [items[n - 1].value] + Zeros(items[n - 1].zeros)
  }

  function Start(items: seq<Item>, n: nat): nat
    requires n <= |items|
  {
    if n == 0 then 0 else Start(items, n - 1) + 1 + items[n - 1].zeros
  }

  lemma {:induction false} ExpandSize(items: seq<Item>, n: nat)
    requires n <= |items|
    ensures |Expand(items, n)| == Start(items, n)
  {
    if n > 0 { ExpandSize(items, n - 1); }
  }

  /** The expansion around item i. */
  lemma {:induction false} ExpandAt(items: seq<Item>, i: nat, n: nat)
    requires i < n <= |items|
    ensures Start(items, i) + items[i].zeros < Start(items, n) == |Expand(items, n)|
    ensures Expand(items, n)[Start(items, i)] == items[i].value
    ensures forall x :: Start(items, i) < x <= Start(items, i) + items[i].zeros ==> Expand(items, n)[x] == 0
  {
    ExpandSize(items, n);
    ExpandSize(items, n - 1);
    if i < n - 1 {
      ExpandAt(items, i, n - 1);
      assert forall x :: 0 <= x < Start(items, n - 1) ==> Expand(items, n)[x] == Expand(items, n - 1)[x];
    }
  }

  /** All layers of a tile: each has enough coefficients for the tile, so no stream ends early. */
  ghost predicate Covers(runs: seq<seq<Item>>, tuTotal: nat) {
    |runs| > 0 && forall l {:trigger runs[l]} :: 0 <= l < |runs| ==> Start(runs[l], |runs[l]|) >= tuTotal
  }

  /** The coefficient of layer l at transform unit t. */
  ghost function Dense(runs: seq<seq<Item>>, l: nat, t: nat): int
    requires l < |runs| && t < Start(runs[l], |runs[l]|)
  {
    ExpandSize(runs[l], |runs[l]|);
    Expand(runs[l], |runs[l]|)[t]
  }

  /** A layer whose chunk has no data, or for which there is no decoder, is zero at every transform unit. */
  lemma NoDataIsZero(runs: seq<seq<Item>>, l: nat, layer: Layer, decoderExists: bool, tuTotal: nat, t: nat)
    requires t < tuTotal && l < |runs| && runs[l] == Items(layer, decoderExists, tuTotal)
    requires layer.NoData? || !decoderExists
    ensures Start(runs[l], |runs[l]|) == tuTotal && Dense(runs, l, t) == 0
  {
    assert Start(runs[l], 0) == 0;
    ExpandAt(runs[l], 0, 1);
  }

  /** The coefficients of any other layer are those of its chunk: each item's value, and after it its zeros. */
  lemma DataIsItems(runs: seq<seq<Item>>, l: nat, items: seq<Item>, tuTotal: nat, i: nat)
    requires tuTotal > 0 && l < |runs| && runs[l] == Items(Decoded(items), true, tuTotal) && i < |items|
    ensures Start(runs[l], i) + items[i].zeros < Start(runs[l], |runs[l]|)
    ensures Dense(runs, l, Start(runs[l], i)) == items[i].value
    ensures forall x :: Start(runs[l], i) < x <= Start(runs[l], i) + items[i].zeros ==> Dense(runs, l, x) == 0
  {
    ExpandAt(runs[l], i, |items|);
  }

  /** A decoder at transform unit t: `pos` items have been taken, and `zeros` zeros of the last of them remain. */
  ghost predicate At(items: seq<Item>, pos: nat, zeros: int, t: nat) {
    && pos <= |items| && zeros >= 0 && Start(items, pos) - zeros == t
    && (if pos > 0 then zeros <= items[pos - 1].zeros else zeros == 0)
  }

  /** Inside a run the coefficients are zero; at its end the next item says what comes. */
  lemma DenseAt(runs: seq<seq<Item>>, l: nat, pos: nat, zeros: int, t: nat)
    requires l < |runs| && At(runs[l], pos, zeros, t) && t < Start(runs[l], |runs[l]|)
    ensures forall x: nat :: t <= x < t + zeros ==> x < Start(runs[l], |runs[l]|) && Dense(runs, l, x) == 0
    ensures zeros == 0 ==> pos < |runs[l]| && Dense(runs, l, t) == runs[l][pos].value
  {
    ExpandSize(runs[l], |runs[l]|);
    if pos > 0 { ExpandAt(runs[l], pos - 1, |runs[l]|); }
    if zeros == 0 { ExpandAt(runs[l], pos, |runs[l]|); }
  }

  lemma AtNext(items: seq<Item>, pos: nat, zeros: int, t: nat)
    requires At(items, pos, zeros, t)
    ensures zeros > 0 ==> At(items, pos, zeros - 1, t + 1)
    ensures zeros == 0 && pos < |items| ==> At(items, pos + 1, items[pos].zeros, t + 1)
  {}

  ghost predicate Decodes(runs: seq<seq<Item>>, coeffs: seq<int>, l: nat, t: nat)
    requires |coeffs| == |runs|
  {
    l < |runs| && t < Start(runs[l], |runs[l]|) && coeffs[l] == Dense(runs, l, t)
  }

  ghost predicate LayerAt(runs: seq<seq<Item>>, pos: seq<nat>, zeros: seq<int>, l: nat, t: nat)
    requires |pos| == |zeros| == |runs|
  {
    l < |runs| && At(runs[l], pos[l], zeros[l], t)
  }

  /** The state of all layers before transform unit t. */
  ghost predicate AllAt(runs: seq<seq<Item>>, pos: seq<nat>, zeros: seq<int>, t: nat) {
    |pos| == |zeros| == |runs| && forall l: nat {:trigger LayerAt(runs, pos, zeros, l, t)} :: l < |runs| ==>
        LayerAt(runs, pos, zeros, l, t)
  }

  /** What the loop does at one transform unit. */
  datatype Visit = Visit(tu: nat, coeffs: seq<int>, mask: nat)

  /** The visit has the coefficients of dense decoding, and its mask is zero exactly when they all are. */
  ghost predicate VisitOk(runs: seq<seq<Item>>, v: Visit) {
    && |v.coeffs| == |runs|
    && (forall l: nat {:trigger Decodes(runs, v.coeffs, l, v.tu)} :: l < |runs| ==> Decodes(runs, v.coeffs, l, v.tu))
    && (v.mask != 0 <==> exists l :: 0 <= l < |v.coeffs| && v.coeffs[l] != 0)
  }

  ghost predicate AllZero(runs: seq<seq<Item>>, t: nat) {
    forall l: nat {:trigger runs[l]} :: l < |runs| ==> t < Start(runs[l], |runs[l]|) && Dense(runs, l, t) == 0
  }

  /** The visits stand for all transform units below t: they are in order, and between them everything is zero. */
  ghost predicate Stands(runs: seq<seq<Item>>, visits: seq<Visit>, t: nat) {
    && (forall k {:trigger visits[k]} :: 0 <= k < |visits| ==> visits[k].tu < t && VisitOk(runs, visits[k]))
    && (forall k, m :: 0 <= k < m < |visits| ==> visits[k].tu < visits[m].tu)
    && (forall x: nat {:trigger AllZero(runs, x)} ::
          x < t && (forall k :: 0 <= k < |visits| ==> visits[k].tu != x) ==> AllZero(runs, x))
  }

  // -- entropyDecodeAllLayers -------------------------------------------------------------------

  /** The state after layers [0, n) have been decoded at transform unit t. */
  ghost predicate PartlyDecoded(runs: seq<seq<Item>>, pos: seq<nat>, zeros: seq<int>, coeffs: seq<int>, t: nat,
                                n: nat) {
    && |pos| == |zeros| == |coeffs| == |runs|
    && (forall l: nat {:trigger LayerAt(runs, pos, zeros, l, t + 1)} :: l < n && l < |runs| ==>
        LayerAt(runs, pos, zeros, l, t + 1))
    && (forall l: nat {:trigger LayerAt(runs, pos, zeros, l, t)} :: n <= l < |runs| ==> LayerAt(runs, pos, zeros, l, t))
    && (forall l: nat {:trigger Decodes(runs, coeffs, l, t)} :: l < n && l < |runs| ==> Decodes(runs, coeffs, l, t))
  }

  /** One entropyDecode, or the step over a zero, for one layer. */
  method DecodeLayer(ghost runs: seq<seq<Item>>, layer: Layer, decoderExists: bool, tuTotal: nat, l: nat,
                     pos: array<nat>, zeros: array<int>, coeffs: array<int>, ghost t: nat)
    requires pos.Length == zeros.Length == coeffs.Length == |runs| && l < |runs| && zeros != coeffs
    requires t < tuTotal && Covers(runs, tuTotal) && runs[l] == Items(layer, decoderExists, tuTotal)
    requires PartlyDecoded(runs, pos[..], zeros[..], coeffs[..], t, l)
    modifies pos, zeros, coeffs
    ensures PartlyDecoded(runs, pos[..], zeros[..], coeffs[..], t, l + 1)
    ensures coeffs[..] == old(coeffs[..])[l := coeffs[l]] && zeros[..] == old(zeros[..])[l := zeros[l]] && zeros[l] >= 0
  {
    assert LayerAt(runs, pos[..], zeros[..], l, t);
    DenseAt(runs, l, pos[l], zeros[l], t);
    AtNext(runs[l], pos[l], zeros[l], t);
    ghost var pos0, zeros0, coeffs0 := pos[..], zeros[..], coeffs[..];
    if zeros[l] > 0 {
      zeros[l] := zeros[l] - 1;
      coeffs[l] := 0;
    } else if decoderExists {
      var item := if layer.Decoded? then layer.items[pos[l]] else Item(0, 0);
      pos[l] := pos[l] + 1;
      coeffs[l] := item.value;
      zeros[l] := if layer.NoData? then tuTotal - 1 else item.zeros;
    } else {
      pos[l] := pos[l] + 1;
      zeros[l] := tuTotal - 1;
      coeffs[l] := 0;
    }
    LayerDone(runs, pos0, zeros0, coeffs0, pos[..], zeros[..], coeffs[..], t, l);
  }

  lemma LayerDone(runs: seq<seq<Item>>, pos: seq<nat>, zeros: seq<int>, coeffs: seq<int>, pos': seq<nat>,
                  zeros': seq<int>, coeffs': seq<int>, t: nat, l: nat)
    requires PartlyDecoded(runs, pos, zeros, coeffs, t, l) && l < |runs|
    requires |pos'| == |zeros'| == |coeffs'| == |runs|
    requires pos' == pos[l := pos'[l]] && zeros' == zeros[l := zeros'[l]] && coeffs' == coeffs[l := coeffs'[l]]
    requires At(runs[l], pos'[l], zeros'[l], t + 1) && t < Start(runs[l], |runs[l]|) && coeffs'[l] == Dense(runs, l, t)
    ensures PartlyDecoded(runs, pos', zeros', coeffs', t, l + 1)
  {
    hide At, Start, Dense;
    forall x: nat {:trigger LayerAt(runs, pos', zeros', x, t + 1)} | x < l + 1 && x < |runs|
      ensures LayerAt(runs, pos', zeros', x, t + 1)
    {
      if x < l { assert LayerAt(runs, pos, zeros, x, t + 1); }
    }
    forall x: nat {:trigger LayerAt(runs, pos', zeros', x, t)} | l + 1 <= x < |runs|
      ensures LayerAt(runs, pos', zeros', x, t)
    {
      assert LayerAt(runs, pos, zeros, x, t);
    }
    forall x: nat {:trigger Decodes(runs, coeffs', x, t)} | x < l + 1 && x < |runs|
      ensures Decodes(runs, coeffs', x, t)
    {
      if x < l { assert Decodes(runs, coeffs, x, t); }
    }
  }

  /** entropyDecodeAllLayers: the bit of each layer is added to the mask at most once, so "or" is "plus". */
  method DecodeAllLayers(ghost runs: seq<seq<Item>>, layers: seq<Layer>, decoderExists: bool, tuTotal: nat,
                         pos: array<nat>, zeros: array<int>, coeffs: array<int>, ghost t: nat)
    returns (mask: nat, minZeroCount: int)
    requires pos.Length == zeros.Length == coeffs.Length == |runs| == |layers| && zeros != coeffs
    requires t < tuTotal && Covers(runs, tuTotal)
    requires forall l {:trigger layers[l]} :: 0 <= l < |layers| ==> runs[l] == Items(layers[l], decoderExists, tuTotal)
    requires AllAt(runs, pos[..], zeros[..], t)
    modifies pos, zeros, coeffs
    ensures AllAt(runs, pos[..], zeros[..], t + 1) && VisitOk(runs, Visit(t, coeffs[..], mask))
    ensures 0 <= minZeroCount && (forall l :: 0 <= l < |runs| ==> minZeroCount <= zeros[l])
    ensures exists l :: 0 <= l < |runs| && minZeroCount == zeros[l]
  {
    hide At, Dense, Start;
    mask, minZeroCount := 0, -1;
    for l := 0 to |layers|
      invariant PartlyDecoded(runs, pos[..], zeros[..], coeffs[..], t, l)
      invariant mask != 0 <==> exists k :: 0 <= k < l && coeffs[k] != 0
      invariant if l == 0 then minZeroCount == -1 else IsMin(zeros[..], minZeroCount, l)
    {
      ghost var coeffs0, zeros0 := coeffs[..], zeros[..];
      DecodeLayer(runs, layers[l], decoderExists, tuTotal, l, pos, zeros, coeffs, t);
      assert forall k :: 0 <= k < l ==> coeffs[k] == coeffs0[k] && zeros[k] == zeros0[k];
      mask := mask + if coeffs[l] != 0 then Pow2(l) else 0;
      NextMin(zeros0, zeros[..], minZeroCount, l);
      if minZeroCount < 0 || minZeroCount > zeros[l] {
        minZeroCount := zeros[l];
      }
    }
  }

  /** The least of the first n runs. */
  ghost predicate IsMin(zeros: seq<int>, min: int, n: nat) {
    && 0 < n <= |zeros| && min >= 0 && (forall l :: 0 <= l < n ==> min <= zeros[l])
    && exists l :: 0 <= l < n && min == zeros[l]
  }

  lemma NextMin(zeros: seq<int>, zeros': seq<int>, min: int, n: nat)
    requires n < |zeros| == |zeros'| && zeros' == zeros[n := zeros'[n]] && zeros'[n] >= 0
    requires if n == 0 then min == -1 else IsMin(zeros, min, n)
    ensures IsMin(zeros', if min < 0 || min > zeros'[n] then zeros'[n] else min, n + 1)
  {
    if n > 0 {
      var l :| 0 <= l < n && min == zeros[l];
      assert zeros'[l] == zeros[l];
    }
  }

  // -- The loop ---------------------------------------------------------------------------------

  lemma {:induction false} StartGrows(items: seq<Item>, m: nat, n: nat)
    requires m <= n <= |items|
    ensures Start(items, m) <= Start(items, n)
  {
    if m < n { StartGrows(items, m, n - 1); }
  }

  /** The next transform unit to visit is the end of some layer's run. */
  lemma NextIsRunEnd(runs: seq<seq<Item>>, pos: seq<nat>, zeros: seq<int>, t: nat, n: int, tuTotal: nat)
    requires AllAt(runs, pos, zeros, t) && exists l :: 0 <= l < |runs| && n == zeros[l]
    requires forall l {:trigger runs[l]} :: 0 <= l < |runs| ==> Start(runs[l], |runs[l]|) == tuTotal
    ensures t + n <= tuTotal
  {
    var l :| 0 <= l < |runs| && n == zeros[l];
    assert LayerAt(runs, pos, zeros, l, t);
    StartGrows(runs[l], pos[l], |runs[l]|);
  }

  /** Whether the loop appends a command for a visit; there is no temporal chunk, so the signal is always "inter". */
  predicate Emits(v: Visit, temporalEnabled: bool) { v.mask != 0 || !temporalEnabled }

  function Emitted(visits: seq<Visit>, n: nat, temporalEnabled: bool): seq<nat>
    requires n <= |visits|
  {
    if n == 0 then []
    else
      Emitted(visits, n - 1, temporalEnabled)
      + if Emits(visits[n - 1], temporalEnabled) then [visits[n - 1].tu] else []
  }

  lemma {:induction false} EmittedPrefix(visits: seq<Visit>, v: Visit, n: nat, temporalEnabled: bool)
    requires n <= |visits|
    ensures Emitted(visits + [v], n, temporalEnabled) == Emitted(visits, n, temporalEnabled)
  {
    if n > 0 { EmittedPrefix(visits, v, n - 1, temporalEnabled); }
  }

  /** Where a command goes: its index in raster order of the surface, or in aligned block order. */
  function Place(s: TUState, rasterOrder: bool, t: nat): int
    requires Valid(s) && s.numAcross > 0
  {
    if rasterOrder then t else IndexBlockAlignedIndex(s, t)
  }

  /** The difference of two 32-bit indices. */
  function Jump(last: int, place: int): int { if place >= last then place - last else place - last + 0x1_0000_0000 }

  function Jumps(s: TUState, rasterOrder: bool, emitted: seq<nat>, n: nat): (jumps: seq<int>)
    requires Valid(s) && s.numAcross > 0 && n <= |emitted|
    ensures |jumps| == n
  {
    if n == 0 then []
    else
      Jumps(s, rasterOrder, emitted, n - 1)
      + [Jump(LastPlace(s, rasterOrder, emitted, n - 1), Place(s, rasterOrder, emitted[n - 1]))]
  }

  function LastPlace(s: TUState, rasterOrder: bool, emitted: seq<nat>, n: nat): int
    requires Valid(s) && s.numAcross > 0 && n <= |emitted|
  {
    if n == 0 then 0 else Place(s, rasterOrder, emitted[n - 1])
  }

  lemma {:induction false} JumpsPrefix(s: TUState, rasterOrder: bool, emitted: seq<nat>, t: nat, n: nat)
    requires Valid(s) && s.numAcross > 0 && n <= |emitted|
    ensures Jumps(s, rasterOrder, emitted + [t], n) == Jumps(s, rasterOrder, emitted, n)
    ensures LastPlace(s, rasterOrder, emitted + [t], n) == LastPlace(s, rasterOrder, emitted, n)
  {
    if n > 0 { JumpsPrefix(s, rasterOrder, emitted, t, n - 1); }
  }

  /** Appending the command for a visit, if it has one. */
  method EmitCommand(s: TUState, rasterOrder: bool, temporalEnabled: bool, ghost before: seq<Visit>, v: Visit,
                     emitted: seq<nat>, jumps: seq<int>, lastTuIndex: int)
    returns (emitted': seq<nat>, jumps': seq<int>, last': int)
    requires Valid(s) && s.numAcross > 0
    requires emitted == Emitted(before, |before|, temporalEnabled)
    requires jumps == Jumps(s, rasterOrder, emitted, |emitted|)
    requires lastTuIndex == LastPlace(s, rasterOrder, emitted, |emitted|)
    ensures emitted' == Emitted(before + [v], |before| + 1, temporalEnabled)
    ensures jumps' == Jumps(s, rasterOrder, emitted', |emitted'|)
    ensures last' == LastPlace(s, rasterOrder, emitted', |emitted'|)
  {
    hide Place, Jump;
    EmittedPrefix(before, v, |before|, temporalEnabled);
    emitted', jumps', last' := emitted, jumps, lastTuIndex;
    if Emits(v, temporalEnabled) {
      var currentIndex := Place(s, rasterOrder, v.tu);
      JumpsPrefix(s, rasterOrder, emitted, v.tu, |emitted|);
      jumps' := jumps + [Jump(lastTuIndex, currentIndex)];
      emitted' := emitted + [v.tu];
      last' := currentIndex;
    } else {
      assert emitted + [] == emitted;
    }
  }

  /** Main result: the loop ends at or after tuTotal, having visited transform units in increasing order, each with the
      coefficients dense decoding gives it; every transform unit it did not visit has only zeros. */
  method DecodeTile(layers: seq<Layer>, decoderExists: bool, s: TUState, rasterOrder: bool, temporalEnabled: bool,
                    ghost runs: seq<seq<Item>>)
    returns (visits: seq<Visit>, end: nat, emitted: seq<nat>, jumps: seq<int>)
    requires Valid(s) && s.tuTotal > 0 && |runs| == |layers| && Covers(runs, s.tuTotal)
    requires forall l {:trigger layers[l]} :: 0 <= l < |layers| ==>
      runs[l] == Items(layers[l], decoderExists, s.tuTotal)
    ensures end >= s.tuTotal && Stands(runs, visits, s.tuTotal)
    ensures (forall l {:trigger runs[l]} :: 0 <= l < |runs| ==> Start(runs[l], |runs[l]|) == s.tuTotal) ==>
        end == s.tuTotal
    ensures |visits| > 0 && visits[0].tu == 0
    ensures emitted == Emitted(visits, |visits|, temporalEnabled)
    ensures s.numAcross > 0 && jumps == Jumps(s, rasterOrder, emitted, |emitted|)
  {
    hide Valid, At, LastPlace, AllZero, VisitOk, Covers, AllAt, Emitted, Jumps, Stands;
    NotEmpty(s, 0);
    var tuTotal := s.tuTotal;
    hide Dense, Start;
    var lastTuIndex: int := 0;
    emitted, jumps := [], [];
    NothingEmitted(s, rasterOrder, temporalEnabled);
    var coeffs, zeros, pos := new int[|layers|](i => 0), new int[|layers|](i => 0), new nat[|layers|](i => 0);
    visits, end := [], 0;
    StartOfTile(runs, pos[..], zeros[..]);
    while true
      invariant end < tuTotal && AllAt(runs, pos[..], zeros[..], end) && Stands(runs, visits, end)
      invariant if end == 0 then visits == [] else |visits| > 0 && visits[0].tu == 0
      invariant emitted == Emitted(visits, |visits|, temporalEnabled)
      invariant jumps == Jumps(s, rasterOrder, emitted, |emitted|)
      invariant lastTuIndex == LastPlace(s, rasterOrder, emitted, |emitted|)
      decreases tuTotal - end
    {
      var mask, minZeroCount := DecodeAllLayers(runs, layers, decoderExists, tuTotal, pos, zeros, coeffs, end);
      ghost var before := visits;
      emitted, jumps, lastTuIndex :=
        EmitCommand(s, rasterOrder, temporalEnabled, visits, Visit(end, coeffs[..], mask), emitted, jumps, lastTuIndex);
      visits := visits + [Visit(end, coeffs[..], mask)];
      SkippedZero(runs, pos[..], zeros[..], before, visits, end, minZeroCount, tuTotal);
      ghost var next := end + 1;
      if forall l {:trigger runs[l]} :: 0 <= l < |runs| ==> Start(runs[l], |runs[l]|) == tuTotal {
        NextIsRunEnd(runs, pos[..], zeros[..], end + 1, minZeroCount, tuTotal);
      }
      end := end + minZeroCount + 1;
      if end >= tuTotal {
        break;
      }
      SkipRuns(runs, pos, zeros, next, minZeroCount);
    }
  }

  /** Moves every layer on by a common part of the zero runs. */
  method SkipRuns(ghost runs: seq<seq<Item>>, pos: array<nat>, zeros: array<int>, ghost t: nat, minZeroCount: int)
    requires AllAt(runs, pos[..], zeros[..], t) && 0 <= minZeroCount
    requires forall l :: 0 <= l < zeros.Length ==> minZeroCount <= zeros[l]
    modifies zeros
    ensures AllAt(runs, pos[..], zeros[..], t + minZeroCount)
  {
    ghost var zeros0, pos0 := zeros[..], pos[..];
    if minZeroCount > 0 {
      for l := 0 to zeros.Length
        invariant pos[..] == pos0
        invariant forall k :: 0 <= k < zeros.Length ==>
            zeros[k] == if k < l then zeros0[k] - minZeroCount else zeros0[k]
      {
        zeros[l] := zeros[l] - minZeroCount;
      }
    }
    SkipZeros(runs, pos0, zeros0, zeros[..], t, minZeroCount);
  }

  lemma NothingEmitted(s: TUState, rasterOrder: bool, temporalEnabled: bool)
    requires Valid(s) && s.numAcross > 0
    ensures Emitted([], 0, temporalEnabled) == []
    ensures Jumps(s, rasterOrder, [], 0) == [] && LastPlace(s, rasterOrder, [], 0) == 0
  {}

  lemma StartOfTile(runs: seq<seq<Item>>, pos: seq<nat>, zeros: seq<int>)
    requires |pos| == |zeros| == |runs| && forall l :: 0 <= l < |runs| ==> pos[l] == 0 && zeros[l] == 0
    ensures AllAt(runs, pos, zeros, 0) && Stands(runs, [], 0)
  {}

  /** Moving on by a common part of the zero runs. */
  lemma SkipZeros(runs: seq<seq<Item>>, pos: seq<nat>, zeros: seq<int>, zeros': seq<int>, t: nat, n: int)
    requires AllAt(runs, pos, zeros, t) && 0 <= n && |zeros'| == |zeros|
    requires forall l :: 0 <= l < |zeros| ==> n <= zeros[l] && zeros'[l] == zeros[l] - n
    ensures AllAt(runs, pos, zeros', t + n)
  {
    forall l: nat {:trigger LayerAt(runs, pos, zeros', l, t + n)} | l < |runs|
      ensures LayerAt(runs, pos, zeros', l, t + n)
    {
      assert LayerAt(runs, pos, zeros, l, t);
    }
  }

  /** The visit, and the zeros after it, up to the end of the tile. */
  lemma SkippedZero(runs: seq<seq<Item>>, pos: seq<nat>, zeros: seq<int>, before: seq<Visit>, visits: seq<Visit>,
                    t: nat, n: int, tuTotal: nat)
    requires t < tuTotal && Covers(runs, tuTotal) && Stands(runs, before, t)
    requires |visits| == |before| + 1 && visits[..|before|] == before && visits[|before|].tu == t
    requires VisitOk(runs, visits[|before|])
    requires AllAt(runs, pos, zeros, t + 1) && 0 <= n && forall l :: 0 <= l < |zeros| ==> n <= zeros[l]
    ensures Stands(runs, visits, if t + 1 + n < tuTotal then t + 1 + n else tuTotal)
  {
    var t' := if t + 1 + n < tuTotal then t + 1 + n else tuTotal;
    hide VisitOk, AllZero;
    assert forall k :: 0 <= k < |before| ==> visits[k] == before[k];
    forall x: nat {:trigger AllZero(runs, x)} | x < t' && (forall k :: 0 <= k < |visits| ==> visits[k].tu != x)
      ensures AllZero(runs, x)
    {
      if x < t {
        assert forall k :: 0 <= k < |before| ==> before[k].tu == visits[k].tu;
      } else {
        assert visits[|before|].tu != x;
        RunIsZero(runs, pos, zeros, t + 1, n, x, tuTotal);
      }
    }
  }

  lemma RunIsZero(runs: seq<seq<Item>>, pos: seq<nat>, zeros: seq<int>, t: nat, n: int, x: nat, tuTotal: nat)
    requires Covers(runs, tuTotal) && AllAt(runs, pos, zeros, t) && forall l :: 0 <= l < |zeros| ==> n <= zeros[l]
    requires t <= x < t + n && x < tuTotal
    ensures AllZero(runs, x)
  {
    forall l: nat {:trigger runs[l]} | l < |runs| ensures x < Start(runs[l], |runs[l]|) && Dense(runs, l, x) == 0 {
      assert LayerAt(runs, pos, zeros, l, t);
      DenseAt(runs, l, pos[l], zeros[l], t);
    }
  }
}
