/** Where the chunks of a frame lie in the chunk array (src/enhancement/src/chunk_parser.c and chunk.c): for each plane
    its residual chunks, by level, tile and layer, and then its temporal chunks, by tile. */
module ChunkLayout {
  import opened PowersOfTwo

  /** The tiles of a plane at the two enhanced levels of quality. */
  datatype Tiles = Tiles(loq0: nat, loq1: nat) {
    function At(loq: nat): nat { if loq == 0 then loq0 else loq1 }
  }

  /** What the layout depends on, of the global and of the frame configuration. */
  datatype Config = Config(planes: seq<Tiles>, numLayers: nat, temporalEnabled: bool,
                           entropyEnabled: bool, temporalRefresh: bool, temporalSignallingPresent: bool)

  /** The flags of a frame, as parseBlockPictureConfig takes them from its first byte. */
  function ParsePicture(planes: seq<Tiles>, numLayers: nat, temporalEnabled: bool, data: nat): Config
    requires data < 256
  {
    var entropyEnabled, temporalRefresh := data / 128 == 0, data / 2 % 2 == 1;
    Config(planes, numLayers, temporalEnabled, entropyEnabled, temporalRefresh,
           if entropyEnabled then temporalEnabled && !temporalRefresh else data % 2 == 1)
  }

  predicate TemporalChunkEnabled(c: Config) {
    if c.entropyEnabled then c.temporalEnabled && !c.temporalRefresh
    else c.temporalEnabled && !c.temporalRefresh && c.temporalSignallingPresent
  }

  // -- The layout -------------------------------------------------------------------------------

  function Residuals(c: Config, plane: nat, loq: nat): nat
    requires plane < |c.planes|
  {
    if c.entropyEnabled then c.planes[plane].At(loq) * c.numLayers else 0
  }

  function Temporals(c: Config, plane: nat): nat
    requires plane < |c.planes|
  {
    if TemporalChunkEnabled(c) then c.planes[plane].loq0 else 0
  }

  /** The chunks of the planes before this one. */
  function Offset(c: Config, plane: nat): nat
    requires plane <= |c.planes|
  {
    if plane == 0 then 0
    else Offset(c, plane - 1) + Residuals(c, plane - 1, 0) + Residuals(c, plane - 1, 1) + Temporals(c, plane - 1)
  }

  function ResidualBase(c: Config, plane: nat, loq: nat): nat
    requires plane < |c.planes|
  {
    Offset(c, plane) + if loq == 0 then 0 else Residuals(c, plane, 0)
  }

  function TemporalBase(c: Config, plane: nat): nat
    requires plane < |c.planes|
  {
    Offset(c, plane) + Residuals(c, plane, 0) + Residuals(c, plane, 1)
  }

  /** calculateTileChunkIndices */
  method CalculateTileChunkIndices(c: Config) returns (residual: array2<nat>, temporal: array<nat>, total: nat)
    ensures residual.Length0 == temporal.Length == |c.planes| && residual.Length1 == 2
    ensures forall p, q :: 0 <= p < |c.planes| && 0 <= q < 2 ==>
      residual[p, q] == if c.entropyEnabled then ResidualBase(c, p, q) else 0
    ensures forall p :: 0 <= p < |c.planes| ==> temporal[p] == if TemporalChunkEnabled(c) then TemporalBase(c, p) else 0
    ensures total == Offset(c, |c.planes|)
  {
    var offset: nat := 0;
    residual := new nat[|c.planes|, 2]((p, q) => 0);
    temporal := new nat[|c.planes|](p => 0);
    for plane := 0 to |c.planes|
      invariant offset == Offset(c, plane)
      invariant forall p, q :: 0 <= p < |c.planes| && 0 <= q < 2 ==>
        residual[p, q] == if p < plane && c.entropyEnabled then ResidualBase(c, p, q) else 0
      invariant forall p :: 0 <= p < |c.planes| ==>
        temporal[p] == if p < plane && TemporalChunkEnabled(c) then TemporalBase(c, p) else 0
    {
      if c.entropyEnabled {
        for loq := 0 to 2
          modifies residual
          invariant offset == Offset(c, plane) + (if loq > 0 then Residuals(c, plane, 0) else 0)
                              + (if loq > 1 then Residuals(c, plane, 1) else 0)
          invariant forall p, q :: 0 <= p < |c.planes| && 0 <= q < 2 ==>
            residual[p, q] == if p < plane || (p == plane && q < loq) then ResidualBase(c, p, q) else 0
        {
          var chunkCount := c.planes[plane].At(loq) * c.numLayers;
          residual[plane, loq] := offset;
          offset := offset + chunkCount;
        }
      }
      if TemporalChunkEnabled(c) {
        temporal[plane] := offset;
        offset := offset + c.planes[plane].loq0;
      }
    }
    total := offset;
  }

  /** The number of chunks chunkCheckAlloc asks for. */
  method ChunkCount(c: Config) returns (count: nat)
    ensures count == Allocated(c, |c.planes|)
  {
    count := 0;
    if c.entropyEnabled {
      for plane := 0 to |c.planes|
        invariant count == ResidualTotal(c, plane)
      {
        count := count + (c.planes[plane].loq0 + c.planes[plane].loq1) * c.numLayers;
      }
    }
    ghost var residuals := count;
    if c.temporalSignallingPresent {
      for plane := 0 to |c.planes|
        invariant count == residuals + TileTotal(c, plane)
      {
        count := count + c.planes[plane].loq0;
      }
    }
  }

  function ResidualTotal(c: Config, n: nat): nat
    requires n <= |c.planes|
  {
    if n == 0 then 0 else ResidualTotal(c, n - 1) + Residuals(c, n - 1, 0) + Residuals(c, n - 1, 1)
  }

  function TileTotal(c: Config, n: nat): nat
    requires n <= |c.planes|
  {
    if n == 0 then 0 else TileTotal(c, n - 1) + c.planes[n - 1].loq0
  }

  function Allocated(c: Config, n: nat): nat
    requires n <= |c.planes|
  {
    (if c.entropyEnabled then ResidualTotal(c, n) else 0) + if c.temporalSignallingPresent then TileTotal(c, n) else 0
  }

  // -- One place for each chunk -----------------------------------------------------------------

  datatype Chunk = Residual(plane: nat, loq: nat, tile: nat, layer: nat) | Temporal(plane: nat, tile: nat)

  /** The chunks a frame has. */
  predicate Has(c: Config, k: Chunk) {
    k.plane < |c.planes| &&
    match k
    case Residual(p, loq, tile, layer) =>
      c.entropyEnabled && loq < 2 && tile < c.planes[p].At(loq) && layer < c.numLayers
    case Temporal(p, tile) => TemporalChunkEnabled(c) && tile < c.planes[p].loq0
  }

  /** getLayerChunkIndex, and the index used by getTemporalChunk. */
  function IndexOf(c: Config, k: Chunk): int
    requires Has(c, k)
  {
    match k
    case Residual(p, loq, tile, layer) => ResidualBase(c, p, loq) + tile * c.numLayers + layer
    case Temporal(p, tile) => TemporalBase(c, p) + tile
  }

  lemma {:induction false} OffsetGrows(c: Config, p: nat, q: nat)
    requires p <= q <= |c.planes|
    ensures Offset(c, p) <= Offset(c, q)
  {
    if p < q { OffsetGrows(c, p, q - 1); }
  }

  lemma TileMajor(tile: nat, layer: nat, tiles: nat, layers: nat)
    requires tile < tiles && layer < layers
    ensures 0 <= tile * layers + layer < tiles * layers
    ensures (tile * layers + layer) / layers == tile && (tile * layers + layer) % layers == layer
  {
    DivModUnique(tile * layers + layer, layers, tile, layer);
    MulMonotone(0, tile, layers);
    MulMonotone(tile + 1, tiles, layers);
  }

  /** Every chunk lies in the range of its kind in its plane. */
  lemma InRange(c: Config, k: Chunk)
    requires Has(c, k)
    ensures Offset(c, k.plane) <= IndexOf(c, k) < Offset(c, k.plane + 1)
    ensures k.Residual? ==>
      ResidualBase(c, k.plane, k.loq) <= IndexOf(c, k) < ResidualBase(c, k.plane, k.loq) + Residuals(c, k.plane, k.loq)
    ensures k.Temporal? ==> TemporalBase(c, k.plane) <= IndexOf(c, k)
  {
    if k.Residual? { TileMajor(k.tile, k.layer, c.planes[k.plane].At(k.loq), c.numLayers); }
  }

  /** Main result on the layout: no two chunks share a place. */
  lemma IndicesDistinct(c: Config, k: Chunk, m: Chunk)
    requires Has(c, k) && Has(c, m) && IndexOf(c, k) == IndexOf(c, m)
    ensures k == m
  {
    InRange(c, k);
    InRange(c, m);
    if k.plane < m.plane { OffsetGrows(c, k.plane + 1, m.plane); }
    if m.plane < k.plane { OffsetGrows(c, m.plane + 1, k.plane); }
    if k.Residual? && m.Residual? && k.loq == m.loq {
      TileMajor(k.tile, k.layer, c.planes[k.plane].At(k.loq), c.numLayers);
      TileMajor(m.tile, m.layer, c.planes[m.plane].At(m.loq), c.numLayers);
    }
  }

  /** By plane; in a plane, the residual chunks come first, by level, tile and layer, then the temporal chunks by
      tile. */
  predicate Earlier(k: Chunk, m: Chunk) {
    || k.plane < m.plane
    || (k.plane == m.plane &&
        match (k, m)
        case (Residual(_, loq, tile, layer), Residual(_, loq', tile', layer')) =>
          loq < loq' || (loq == loq' && (tile < tile' || (tile == tile' && layer < layer')))
        case (Temporal(_, tile), Temporal(_, tile')) => tile < tile'
        case _ => k.Residual? && m.Temporal?)
  }

  /** The indices follow that order. */
  lemma IndexOrder(c: Config, k: Chunk, m: Chunk)
    requires Has(c, k) && Has(c, m) && Earlier(k, m)
    ensures IndexOf(c, k) < IndexOf(c, m)
  {
    InRange(c, k);
    InRange(c, m);
    if k.plane < m.plane {
      OffsetGrows(c, k.plane + 1, m.plane);
    } else if k.Residual? && m.Residual? && k.loq == m.loq {
      hide Residuals, Temporals, Offset, TemporalChunkEnabled;
      TileOrder(k.tile, k.layer, m.tile, m.layer, c.numLayers);
    }
  }

  lemma TileOrder(tile: nat, layer: nat, tile': nat, layer': nat, layers: nat)
    requires layer < layers && (tile < tile' || (tile == tile' && layer < layer'))
    ensures tile * layers + layer < tile' * layers + layer'
  {
    if tile < tile' { MulMonotone(tile + 1, tile', layers); }
  }

  lemma {:induction false} PlaneOf(c: Config, i: nat, n: nat) returns (p: nat)
    requires n <= |c.planes| && i < Offset(c, n)
    ensures p < n && Offset(c, p) <= i < Offset(c, p + 1)
  {
    if Offset(c, n - 1) <= i { p := n - 1; } else { p := PlaneOf(c, i, n - 1); }
  }

  /** And no place below the total is left over. */
  lemma EveryPlaceUsed(c: Config, i: nat) returns (k: Chunk)
    requires i < Offset(c, |c.planes|)
    ensures Has(c, k) && IndexOf(c, k) == i
  {
    var p := PlaneOf(c, i, |c.planes|);
    if i < TemporalBase(c, p) {
      var loq := if i < ResidualBase(c, p, 1) then 0 else 1;
      var j: nat := i - ResidualBase(c, p, loq);
      k := Residual(p, loq, j / c.numLayers, j % c.numLayers) by { TileOf(j, c.planes[p].At(loq), c.numLayers); }
      TileOf(j, c.planes[p].At(loq), c.numLayers);
    } else {
      k := Temporal(p, i - TemporalBase(c, p));
    }
  }

  lemma TileOf(j: nat, tiles: nat, layers: nat)
    requires j < tiles * layers
    ensures layers > 0 && 0 <= j / layers < tiles && 0 <= j % layers < layers && j == j / layers * layers + j % layers
  {
    assert layers == 0 ==> tiles * layers == 0;
    assert j == layers * (j / layers) + j % layers;
    if j / layers >= tiles { MulMonotone(tiles, j / layers, layers); }
  }

  // -- The layout and the allocation ------------------------------------------------------------

  lemma {:induction false} OffsetIs(c: Config, n: nat)
    requires n <= |c.planes|
    ensures Offset(c, n) ==
            (if c.entropyEnabled then ResidualTotal(c, n) else 0)
            + (if TemporalChunkEnabled(c) then TileTotal(c, n) else 0)
  {
    if n > 0 { OffsetIs(c, n - 1); }
  }

  lemma IndexBelowTotal(c: Config, k: Chunk)
    requires Has(c, k)
    ensures 0 <= IndexOf(c, k) < Offset(c, |c.planes|)
  {
    InRange(c, k);
    OffsetGrows(c, k.plane + 1, |c.planes|);
  }

  /** Main result on the allocation: whatever the first byte of the picture configuration is, every chunk of the frame
      has a place in the array. The array is larger than the frame needs exactly when the frame has tiles, enhancement
      is disabled and temporal chunks are signalled, but temporal processing is off or is being refreshed. */
  lemma AllocationFits(planes: seq<Tiles>, numLayers: nat, temporalEnabled: bool, data: nat)
    requires data < 256
    ensures var c, n := ParsePicture(planes, numLayers, temporalEnabled, data), |planes|;
            && Offset(c, n) <= Allocated(c, n)
            && (Offset(c, n) < Allocated(c, n) <==>
                  TileTotal(c, n) > 0 && data >= 128 && data % 2 == 1 && (!temporalEnabled || data / 2 % 2 == 1))
            && forall k :: Has(c, k) ==> 0 <= IndexOf(c, k) < Allocated(c, n)
  {
    var c := ParsePicture(planes, numLayers, temporalEnabled, data);
    OffsetIs(c, |planes|);
    forall k | Has(c, k) ensures 0 <= IndexOf(c, k) < Offset(c, |planes|) { IndexBelowTotal(c, k); }
  }
}
