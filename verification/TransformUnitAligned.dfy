/** What the block raster promises: one index for each unit, in order; block starts; and the indices of the surface
    rounded up to whole blocks. */
module TransformUnitAligned {
  import opened Wrappers
  import opened PowersOfTwo
  import opened TransformUnit
  import opened TransformUnitOrder

  // -- One index for each unit ------------------------------------------------------------------

  /** Main result on the raster: ldeTuCoordsBlockRaster takes [0, tuTotal) one to one onto the units of the surface. */
  lemma BlockRasterBijection(s: TUState)
    requires Valid(s)
    ensures forall t: nat :: t < s.tuTotal ==>
      s.tuPerRow > 0 && OnSurface(s, BlockRasterTu(s, t)) && CoordsBlockRaster(s, t) == Pixels(s, BlockRasterTu(s, t))
    ensures forall u :: OnSurface(s, u) ==>
      0 <= RasterIndex(s, u) < s.tuTotal && CoordsBlockRaster(s, RasterIndex(s, u)) == Pixels(s, u)
    ensures forall t: nat, u :: t < s.tuTotal && OnSurface(s, u) && CoordsBlockRaster(s, t) == Pixels(s, u) ==>
        t == RasterIndex(s, u)
  {
    forall t: nat | t < s.tuTotal
      ensures s.tuPerRow > 0 && OnSurface(s, BlockRasterTu(s, t))
      ensures CoordsBlockRaster(s, t) == Pixels(s, BlockRasterTu(s, t))
    {
      IndexOfRaster(s, t);
    }
    forall u | OnSurface(s, u)
      ensures 0 <= RasterIndex(s, u) < s.tuTotal && CoordsBlockRaster(s, RasterIndex(s, u)) == Pixels(s, u)
    {
      RasterOfIndex(s, u);
    }
    forall t: nat, u | t < s.tuTotal && OnSurface(s, u) && CoordsBlockRaster(s, t) == Pixels(s, u)
      ensures t == RasterIndex(s, u)
    {
      IndexOfRaster(s, t);
      PixelsDiffer(s, BlockRasterTu(s, t), u);
    }
  }

  lemma PixelsDiffer(s: TUState, u: Tu, v: Tu)
    requires s.tuSize > 0 && Pixels(s, u) == Pixels(s, v)
    ensures u == v
  {
    DivModUnique(u.x * s.tuSize, s.tuSize, u.x, 0);
    DivModUnique(v.x * s.tuSize, s.tuSize, v.x, 0);
    DivModUnique(u.y * s.tuSize, s.tuSize, u.y, 0);
    DivModUnique(v.y * s.tuSize, s.tuSize, v.y, 0);
  }

  /** Rows of blocks, then blocks, then rows of units in a block. */
  predicate Before(s: TUState, u: Tu, v: Tu)
    requires Valid(s)
  {
    var n := s.tuPerBlockDims;
    || u.y / n < v.y / n
    || (u.y / n == v.y / n &&
        (u.x / n < v.x / n || (u.x / n == v.x / n && (u.y % n < v.y % n || (u.y % n == v.y % n && u.x % n < v.x % n)))))
  }

  /** Numbers with digits q, r in a base no smaller than r's range compare by their digits. */
  lemma DigitsCompare(q: nat, q': nat, base: nat, r: int, r': int)
    requires r < base && r' >= 0 && (q < q' || (q == q' && r < r'))
    ensures q * base + r < q' * base + r'
  {
    if q < q' { MulMonotone(q + 1, q', base); }
  }

  /** The index follows the order. */
  lemma RasterOrder(s: TUState, u: Tu, v: Tu)
    requires Valid(s) && OnSurface(s, u) && OnSurface(s, v) && Before(s, u, v)
    ensures RasterIndex(s, u) < RasterIndex(s, v)
  {
    var n := s.tuPerBlockDims;
    InRowBounds(s, u);
    InRowBounds(s, v);
    BlockOf(u.x, n, s.wholeBlocksPerRow, s.tuPerBlockRowRightEdge);
    BlockOf(v.x, n, s.wholeBlocksPerRow, s.tuPerBlockRowRightEdge);
    BlockOf(u.y, n, s.wholeBlocksPerCol, s.tuPerBlockColBottomEdge);
    BlockOf(v.y, n, s.wholeBlocksPerCol, s.tuPerBlockColBottomEdge);
    hide Valid;
    if u.y / n == v.y / n {
      if u.x / n == v.x / n {
        DigitsCompare(u.y % n, v.y % n, Width(s, u.x / n), u.x % n, v.x % n);
      }
      DigitsCompare(u.x / n, v.x / n, Height(s, u.y / n) * n,
                    u.y % n * Width(s, u.x / n) + u.x % n, v.y % n * Width(s, v.x / n) + v.x % n);
    }
    DigitsCompare(u.y / n, v.y / n, s.tuPerRow, InRow(s, u), InRow(s, v));
  }

  /** ldeTuIsBlockStart holds exactly at the top left unit of each block. */
  lemma BlockStartIs(s: TUState, t: nat)
    requires Valid(s) && t < s.tuTotal
    ensures s.tuPerRow > 0
    ensures var u, n := BlockRasterTu(s, t), s.tuPerBlockDims; IsBlockStart(s, t) <==> u.x % n == 0 && u.y % n == 0
  {
    IndexOfRaster(s, t);
    var u, n := BlockRasterTu(s, t), s.tuPerBlockDims;
    RasterOfIndex(s, u);
    InRowBounds(s, u);
    BottomRow(s, u);
    var h, w := Height(s, u.y / n), Width(s, u.x / n);
    CornerIff(u.y % n, u.x % n, w);
    assert h * n == if t >= s.maxWholeBlockTu then s.tuPerBlockBottomEdge else s.tuPerBlock;
  }

  lemma CornerIff(y: int, x: int, w: nat)
    requires 0 <= y && 0 <= x < w && (y * w + x) / w == y && (y * w + x) % w == x
    ensures y * w + x == 0 <==> y == 0 && x == 0
  {}

  /** The bottom row of blocks starts at maxWholeBlockTu. */
  lemma BottomRow(s: TUState, u: Tu)
    requires Valid(s) && OnSurface(s, u)
    ensures RasterIndex(s, u) >= s.maxWholeBlockTu <==> u.y / s.tuPerBlockDims == s.wholeBlocksPerCol
    ensures RasterIndex(s, u) >= s.maxWholeBlockTu ==> RasterIndex(s, u) - s.maxWholeBlockTu == InRow(s, u)
    ensures s.tuPerBlockColBottomEdge == 0 ==> RasterIndex(s, u) < s.maxWholeBlockTu
  {
    InRowBounds(s, u);
    var whole, perRow := s.wholeBlocksPerCol, s.tuPerRow;
    assert s.maxWholeBlockTu == whole * perRow && Height(s, whole) == s.tuPerBlockColBottomEdge;
    LastRow(u.y / s.tuPerBlockDims, whole, perRow, InRow(s, u));
  }

  lemma LastRow(q: nat, whole: nat, perRow: nat, r: nat)
    requires q <= whole && (q < whole ==> r < perRow)
    ensures q * perRow + r >= whole * perRow <==> q == whole
  {
    if q < whole { MulMonotone(q + 1, whole, perRow); }
  }

  // -- The surface rounded up to whole blocks ---------------------------------------------------

  /** The index of a unit when every block is counted as whole. */
  function Aligned(s: TUState, u: Tu): int
    requires Valid(s)
  {
    var n := s.tuPerBlockDims;
    u.y / n * s.alignedTuPerRow + (u.x / n * s.tuPerBlock + (u.y % n * n + u.x % n))
  }

  predicate OnAligned(s: TUState, u: Tu) { 0 <= u.x < s.blocksPerRow * s.tuPerBlockDims && 0 <= u.y }

  /** ldeTuCoordsBlockAlignedIndex of a unit's position. */
  lemma AlignedIndexOf(s: TUState, u: Tu)
    requires Valid(s) && u.x >= 0 && u.y >= 0
    ensures CoordsBlockAlignedIndex(s, Pixels(s, u).x, Pixels(s, u).y) == Aligned(s, u)
  {
    PixelBlock(u.x, s.tuPerBlockDims, s.tuSize);
    PixelBlock(u.y, s.tuPerBlockDims, s.tuSize);
  }

  lemma PixelBlock(x: nat, n: nat, size: nat)
    requires (n == 8 && size == 4) || (n == 16 && size == 2)
    ensures x * size / BS_TEMPORAL == x / n
    ensures (x * size - x / n * BS_TEMPORAL) / size == x % n
  {}

  /** The aligned raster undoes the aligned index, for every unit of the rounded-up surface. */
  lemma AlignedRasterOfIndex(s: TUState, u: Tu)
    requires Valid(s) && OnAligned(s, u)
    ensures 0 <= Aligned(s, u) && s.alignedTuPerRow > 0
    ensures CoordsBlockAlignedRaster(s, Aligned(s, u)) == Pixels(s, u)
  {
    hide DoubleCounted;
    var n := s.tuPerBlockDims;
    BlockOf(u.x, n, s.blocksPerRow, 0);
    BlockOf(u.y, n, u.y / n + 1, 0) by { WithinBlock(u.y, n); }
    RowMajor(u.y % n, u.x % n, n, n);
    RowPlace(u.x / n, s.blocksPerRow, n * n, 0, u.y % n * n + u.x % n);
    var r := u.x / n * s.tuPerBlock + (u.y % n * n + u.x % n);
    assert r < s.alignedTuPerRow;
    DivModUnique(Aligned(s, u), s.alignedTuPerRow, u.y / n, r);
    MulMonotone(0, u.y / n, s.alignedTuPerRow);
  }

  lemma WithinBlock(y: nat, n: nat)
    requires n > 0
    ensures 0 <= y / n && y < (y / n + 1) * n + 0
  {
    assert y == n * (y / n) + y % n;
  }

  /** The unit the aligned raster finds for an index. */
  function AlignedTu(s: TUState, t: nat): Tu
    requires Valid(s) && s.alignedTuPerRow > 0
  {
    var n, row, r := s.tuPerBlockDims, t / s.alignedTuPerRow, t % s.alignedTuPerRow;
    Tu(r % s.tuPerBlock % n + r / s.tuPerBlock * n, r % s.tuPerBlock / n + row * n)
  }

  lemma AlignedTuFound(s: TUState, t: nat)
    requires Valid(s) && s.alignedTuPerRow > 0
    ensures CoordsBlockAlignedRaster(s, t) == Pixels(s, AlignedTu(s, t))
  {
    var row, r := t / s.alignedTuPerRow, t % s.alignedTuPerRow;
    assert r == t - row * s.alignedTuPerRow;
    var block, k := r / s.tuPerBlock, r % s.tuPerBlock;
    assert k == r - block * s.tuPerBlock;
    assert k % s.tuPerBlockDims == k - k / s.tuPerBlockDims * s.tuPerBlockDims;
    hide Valid;
  }

  /** The aligned index undoes the aligned raster, for every index. */
  lemma AlignedIndexOfRaster(s: TUState, t: nat)
    requires Valid(s) && s.alignedTuPerRow > 0
    ensures CoordsBlockAlignedRaster(s, t) == Pixels(s, AlignedTu(s, t))
    ensures OnAligned(s, AlignedTu(s, t)) && Aligned(s, AlignedTu(s, t)) == t
  {
    AlignedTuFound(s, t);
    AlignedTuDigits(s, t);
    hide Valid, CoordsBlockAlignedRaster, AlignedTu, OnAligned;
    RowOf(t, s.alignedTuPerRow);
  }

  lemma RowOf(t: nat, perRow: nat)
    requires perRow > 0
    ensures t / perRow * perRow + t % perRow == t && t / perRow >= 0
  {
    assert t == perRow * (t / perRow) + t % perRow;
  }

  lemma AlignedTuDigits(s: TUState, t: nat)
    requires Valid(s) && s.alignedTuPerRow > 0
    ensures var u, n := AlignedTu(s, t), s.tuPerBlockDims;
            && OnAligned(s, u) && u.y / n == t / s.alignedTuPerRow
            && u.x / n * s.tuPerBlock + (u.y % n * n + u.x % n) == t % s.alignedTuPerRow
  {
    var n, whole := s.tuPerBlockDims, s.blocksPerRow;
    assert s.tuPerBlock == n * n && s.alignedTuPerRow == whole * s.tuPerBlock && n > 0 && s.tuPerBlock > 0;
    RowOf(t, s.alignedTuPerRow);
    hide Valid;
    AlignedDigitsBack(t / s.alignedTuPerRow, t % s.alignedTuPerRow, n, s.tuPerBlock, whole);
  }

  lemma AlignedDigitsBack(row: nat, r: nat, n: nat, perBlock: nat, whole: nat)
    requires n > 0 && perBlock == n * n && perBlock > 0 && r < whole * perBlock
    ensures var block, k := r / perBlock, r % perBlock;
            var x, y := k % n + block * n, k / n + row * n;
            && 0 <= x < whole * n && 0 <= y && x / n == block && x % n == k % n && y / n == row && y % n == k / n
            && r == block * perBlock + k && k == k / n * n + k % n
  {
    RowMajorBack(r, whole, perBlock);
    var block, k := r / perBlock, r % perBlock;
    RowMajorBack(k, n, n);
    InBlock(k % n + block * n, n, whole, 0, block, k % n);
    InBlock(k / n + row * n, n, row + 1, 0, row, k / n);
  }

  /** The aligned index follows the same order. */
  lemma AlignedOrder(s: TUState, u: Tu, v: Tu)
    requires Valid(s) && OnSurface(s, u) && OnSurface(s, v) && Before(s, u, v)
    ensures Aligned(s, u) < Aligned(s, v)
  {
    var n := s.tuPerBlockDims;
    AlignedDigits(s, u);
    AlignedDigits(s, v);
    hide Valid;
    if u.y / n == v.y / n {
      if u.x / n == v.x / n {
        DigitsCompare(u.y % n, v.y % n, n, u.x % n, v.x % n);
      }
      DigitsCompare(u.x / n, v.x / n, s.tuPerBlock, u.y % n * n + u.x % n, v.y % n * n + v.x % n);
    }
    DigitsCompare(u.y / n, v.y / n, s.alignedTuPerRow,
                  u.x / n * s.tuPerBlock + (u.y % n * n + u.x % n), v.x / n * s.tuPerBlock + (v.y % n * n + v.x % n));
  }

  lemma AlignedDigits(s: TUState, u: Tu)
    requires Valid(s) && OnSurface(s, u)
    ensures var n := s.tuPerBlockDims;
            && 0 <= u.y / n && 0 <= u.x / n < s.blocksPerRow && 0 <= u.y % n < n && 0 <= u.x % n < n
            && 0 <= u.y % n * n + u.x % n < s.tuPerBlock
            && 0 <= u.x / n * s.tuPerBlock + (u.y % n * n + u.x % n) < s.alignedTuPerRow
  {
    var n := s.tuPerBlockDims;
    BlockOf(u.x, n, s.wholeBlocksPerRow, s.tuPerBlockRowRightEdge);
    BlockOf(u.y, n, s.wholeBlocksPerCol, s.tuPerBlockColBottomEdge);
    RowMajor(u.y % n, u.x % n, n, n);
    RowPlace(u.x / n, s.blocksPerRow, n * n, 0, u.y % n * n + u.x % n);
  }

  // -- The index with block edges counted as whole blocks ---------------------------------------

  /** Where lines 177-181 of src/enhancement/src/transform_unit.c add for the right edge although the bottom edge's own
      term does too: a unit of a partial bottom row, beyond the place where the right edge would be if that row were
      whole. */
  predicate DoubleCounted(s: TUState, t: nat)
    requires Valid(s) && s.numAcross > 0
  {
    && s.tuPerBlockRowRightEdge > 0 && t >= s.maxWholeBlockTu
    && t % s.tuPerRow > s.wholeBlocksPerRow * s.tuPerBlock
    && t % s.tuPerRow % s.tuPerBlock >= s.tuPerBlockRowRightEdge
  }

  /** What the right edge's term adds too much. */
  function Excess(s: TUState, t: nat): int
    requires Valid(s) && s.numAcross > 0
  {
    var edge := s.tuPerBlockRowRightEdge;
    if edge > 0 && t >= s.maxWholeBlockTu && t % s.tuPerRow > s.wholeBlocksPerRow * s.tuPerBlock then
      t % s.tuPerRow % s.tuPerBlock / edge * (s.tuPerBlockDims - edge)
    else 0
  }

  lemma ExcessIff(s: TUState, t: nat)
    requires Valid(s) && s.numAcross > 0
    ensures Excess(s, t) >= 0 && (Excess(s, t) == 0 <==> !DoubleCounted(s, t))
  {
    var edge := s.tuPerBlockRowRightEdge;
    assert s.tuPerBlockDims > edge && s.tuPerBlock > 0 && s.tuPerRow > 0;
    assert t % s.tuPerRow % s.tuPerBlock >= 0;
    hide Valid;
    if edge > 0 { QuotientPositive(t % s.tuPerRow % s.tuPerBlock, edge, s.tuPerBlockDims - edge); }
  }

  /** It is less than 16 units for each of the 256 in a block. */
  lemma ExcessBelow(s: TUState, t: nat)
    requires Valid(s) && s.numAcross > 0
    ensures Excess(s, t) < 0x1000
  {
    var edge, n := s.tuPerBlockRowRightEdge, s.tuPerBlockDims;
    assert s.tuPerBlock <= 256 && n <= 16 && edge < n && s.tuPerBlock > 0 && s.tuPerRow > 0;
    hide Valid;
    if edge > 0 {
      var r := t % s.tuPerRow % s.tuPerBlock;
      assert 0 <= r < 256;
      DivAtMost(r, edge);
      MulMonotone(r / edge, 255, n - edge);
    }
  }

  lemma DivAtMost(x: nat, d: nat)
    requires d > 0
    ensures 0 <= x / d <= x
  {
    if x / d > x { MulMonotone(1, d, x / d); }
  }

  /** The bottom row ends within one whole block of its last column. */
  lemma BottomRest(s: TUState, t: nat)
    requires Valid(s) && s.maxWholeBlockTu <= t < s.tuTotal
    ensures s.tuPerRow > 0 && t % s.tuPerRow == t - s.maxWholeBlockTu < (s.wholeBlocksPerRow + 1) * s.tuPerBlock
  {
    hide Valid, RasterIndex, BlockRasterTu, Height, InRow, Width, OnSurface;
    NotEmpty(s, t);
    IndexOfRaster(s, t);
    var u := BlockRasterTu(s, t);
    RasterOfIndex(s, u);
    InRowBounds(s, u);
    BottomRow(s, u);
    RowWidth(s, u.y / s.tuPerBlockDims);
    RowFits(InRow(s, u), Height(s, u.y / s.tuPerBlockDims), s.tuPerBlockDims, s.numAcross, s.wholeBlocksPerRow);
  }

  lemma RowWidth(s: TUState, blockY: int)
    requires Valid(s)
    ensures Height(s, blockY) <= s.tuPerBlockDims && s.tuPerBlock == s.tuPerBlockDims * s.tuPerBlockDims
    ensures s.numAcross <= (s.wholeBlocksPerRow + 1) * s.tuPerBlockDims
  {}

  lemma RowFits(r: int, h: nat, n: nat, across: nat, whole: nat)
    requires r < h * across && h <= n && across <= (whole + 1) * n
    ensures r < (whole + 1) * (n * n)
  {
    MulMonotone(across, (whole + 1) * n, h);
    MulMonotone(h, n, (whole + 1) * n);
    assert n * ((whole + 1) * n) == (whole + 1) * (n * n);
  }

  /** Within the bottom row the excess does not shrink, so it never undoes the order. */
  lemma ExcessGrows(s: TUState, t: nat, t': nat)
    requires Valid(s) && t < t' < s.tuTotal && s.numAcross > 0
    ensures Excess(s, t) <= Excess(s, t')
  {
    ExcessIff(s, t');
    var edge, n := s.tuPerBlockRowRightEdge, s.tuPerBlockDims;
    assert edge < n && s.tuPerBlock > 0 && s.tuPerRow > 0;
    if edge > 0 && t >= s.maxWholeBlockTu && t % s.tuPerRow > s.wholeBlocksPerRow * s.tuPerBlock {
      hide Valid;
      BottomRest(s, t);
      BottomRest(s, t');
      SameColumn(t % s.tuPerRow, t' % s.tuPerRow, s.wholeBlocksPerRow, s.tuPerBlock, edge, n - edge);
    }
  }

  lemma SameColumn(r: nat, r': nat, whole: nat, perBlock: nat, edge: nat, k: nat)
    requires edge > 0 && whole * perBlock < r < r' < (whole + 1) * perBlock
    ensures r % perBlock / edge * k <= r' % perBlock / edge * k
  {
    DivModUnique(r, perBlock, whole, r - whole * perBlock);
    DivModUnique(r', perBlock, whole, r' - whole * perBlock);
    DivMonotone(r % perBlock, r' % perBlock, edge);
    MulMonotone(r % perBlock / edge, r' % perBlock / edge, k);
  }

  /** What is missing from each earlier block for it to be whole. */
  lemma AlignedGap(s: TUState, u: Tu)
    requires Valid(s) && OnSurface(s, u)
    ensures var n, edge := s.tuPerBlockDims, s.tuPerBlockRowRightEdge;
            var h, w := Height(s, u.y / n), Width(s, u.x / n);
            Aligned(s, u) - RasterIndex(s, u) ==
            (if edge > 0 then (s.tuPerBlock - edge * n) * (u.y / n) else 0)
            + (s.tuPerBlock - h * n) * (u.x / n) + u.y % n * (n - w)
  {
    var n, blockY, blockX := s.tuPerBlockDims, u.y / s.tuPerBlockDims, u.x / s.tuPerBlockDims;
    var h, w := Height(s, blockY), Width(s, blockX);
    RowGap(s);
    TimesDifference(blockY, s.alignedTuPerRow, s.tuPerRow);
    TimesDifference(blockX, s.tuPerBlock, h * n);
    TimesDifference(u.y % n, n, w);
  }

  lemma TimesDifference(q: int, a: int, b: int)
    ensures q * a - q * b == (a - b) * q == q * (a - b)
  {}

  lemma RowGap(s: TUState)
    requires Valid(s)
    ensures s.alignedTuPerRow - s.tuPerRow ==
            if s.tuPerBlockRowRightEdge > 0 then s.tuPerBlock - s.tuPerBlockRowRightEdge * s.tuPerBlockDims else 0
  {
    var n, whole, edge := s.tuPerBlockDims, s.wholeBlocksPerRow, s.tuPerBlockRowRightEdge;
    RowGapOf(n, whole, edge, if edge > 0 then 1 else 0);
  }

  lemma RowGapOf(n: nat, whole: nat, edge: nat, last: nat)
    requires last == if edge > 0 then 1 else 0
    ensures (whole + last) * (n * n) - (whole * n + edge) * n == if edge > 0 then n * n - edge * n else 0
  {
    assert whole * n * n == whole * (n * n);
    assert (whole * n + edge) * n == whole * n * n + edge * n;
  }

  /** In the last column of blocks of a whole row, the place in the row is that of the whole blocks and the block's
      own. */
  lemma LastColumn(blockX: nat, whole: nat, perBlock: nat, k: nat)
    requires blockX <= whole && k < perBlock
    ensures var r := blockX * perBlock + k;
            r % perBlock == k && (r > whole * perBlock <==> blockX == whole && k > 0)
  {
    DivModUnique(blockX * perBlock + k, perBlock, blockX, k);
    if blockX < whole { MulMonotone(blockX + 1, whole, perBlock); }
  }

  /** What the right edge's term adds, in whole rows of blocks. */
  lemma RightTermIs(s: TUState, u: Tu)
    requires Valid(s) && OnSurface(s, u) && u.y / s.tuPerBlockDims < s.wholeBlocksPerCol
    ensures var n, edge := s.tuPerBlockDims, s.tuPerBlockRowRightEdge;
            && RasterIndex(s, u) >= 0 && s.tuPerRow > 0 && s.numAcross > 0
            && RightEdgeTerm(s, RasterIndex(s, u)) ==
               (if edge > 0 then (s.tuPerBlock - edge * n) * (u.y / n) else 0) + u.y % n * (n - Width(s, u.x / n))
  {
    var n, edge, t := s.tuPerBlockDims, s.tuPerBlockRowRightEdge, RasterIndex(s, u);
    RasterOfIndex(s, u);
    InRowBounds(s, u);
    var w, k := Width(s, u.x / n), u.y % n * Width(s, u.x / n) + u.x % n;
    assert InRow(s, u) == u.x / n * s.tuPerBlock + k && k < s.tuPerBlock && edge < n;
    assert w == if u.x / n < s.wholeBlocksPerRow then n else edge;
    assert s.tuPerRow > 0 && s.numAcross > 0;
    RightTermUnfolds(s, t);
    hide Valid, RasterIndex, InRow, Width, Height, RightEdgeTerm, PartialTerm;
    if edge > 0 { PartialTermIs(u.x / n, s.wholeBlocksPerRow, s.tuPerBlock, k, edge, n, w); }
  }

  lemma RightTermUnfolds(s: TUState, t: nat)
    requires Valid(s) && s.numAcross > 0
    ensures var edge, n := s.tuPerBlockRowRightEdge, s.tuPerBlockDims;
            && s.tuPerRow > 0 && t % s.tuPerRow >= 0 && s.tuPerBlock > 0
            && RightEdgeTerm(s, t) == if edge == 0 then 0 else
                 (s.tuPerBlock - edge * n) * (t / s.tuPerRow)
                 + PartialTerm(t % s.tuPerRow, s.wholeBlocksPerRow, s.tuPerBlock, edge, n)
  {}

  /** The part of the right edge's term for units in the last column of blocks. */
  function PartialTerm(r: nat, whole: nat, perBlock: nat, edge: nat, n: nat): int
    requires perBlock > 0 && edge > 0
  {
    if r > whole * perBlock then r % perBlock / edge * (n - edge) else 0
  }

  lemma PartialTermIs(q: nat, whole: nat, perBlock: nat, k: nat, edge: nat, n: nat, w: nat)
    requires q <= whole && k < perBlock && edge > 0 && n > 0 && w == if q < whole then n else edge
    ensures q * perBlock + k >= 0 && PartialTerm(q * perBlock + k, whole, perBlock, edge, n) == k / w * (n - w)
  {
    MulMonotone(0, q, perBlock);
    LastColumn(q, whole, perBlock, k);
  }

  /** In whole rows of blocks the two edge terms supply exactly what is missing. */
  lemma WholeRowTerms(s: TUState, u: Tu)
    requires Valid(s) && OnSurface(s, u) && u.y / s.tuPerBlockDims < s.wholeBlocksPerCol
    ensures var t := RasterIndex(s, u);
            t >= 0 && s.numAcross > 0 && t + RightEdgeTerm(s, t) + BottomEdgeTerm(s, t) == Aligned(s, u)
  {
    AlignedGap(s, u);
    RightTermIs(s, u);
    NoBottomTerm(s, u);
    hide Aligned, RasterIndex, RightEdgeTerm, BottomEdgeTerm;
  }

  lemma NoBottomTerm(s: TUState, u: Tu)
    requires Valid(s) && OnSurface(s, u) && u.y / s.tuPerBlockDims < s.wholeBlocksPerCol
    ensures RasterIndex(s, u) >= 0 && BottomEdgeTerm(s, RasterIndex(s, u)) == 0
    ensures var n := s.tuPerBlockDims; (s.tuPerBlock - Height(s, u.y / n) * n) * (u.x / n) == 0
  {
    RasterOfIndex(s, u);
    BottomRow(s, u);
    assert s.tuPerBlock - Height(s, u.y / s.tuPerBlockDims) * s.tuPerBlockDims == 0;
    hide Valid, RasterIndex, InRow;
  }

  /** In the bottom row too, but for the right edge's term for whole rows, which also applies there. */
  lemma BottomRowTerms(s: TUState, u: Tu)
    requires Valid(s) && OnSurface(s, u) && u.y / s.tuPerBlockDims == s.wholeBlocksPerCol
    ensures var t := RasterIndex(s, u);
            && t >= 0 && s.numAcross > 0
            && t + RightEdgeTerm(s, t) + BottomEdgeTerm(s, t) == Aligned(s, u) + Excess(s, t)
  {
    RasterOfIndex(s, u);
    InRowBounds(s, u);
    BottomRow(s, u);
    AlignedGap(s, u);
    assert RasterIndex(s, u) - s.maxWholeBlockTu == InRow(s, u);
    assert Height(s, u.y / s.tuPerBlockDims) == s.tuPerBlockColBottomEdge;
    BottomTermIs(s, u);
  }

  lemma BottomTermIs(s: TUState, u: Tu)
    requires Valid(s) && OnSurface(s, u) && u.y / s.tuPerBlockDims == s.wholeBlocksPerCol
    ensures var n, h := s.tuPerBlockDims, s.tuPerBlockColBottomEdge;
            && RasterIndex(s, u) >= 0
            && BottomEdgeTerm(s, RasterIndex(s, u)) ==
               (s.tuPerBlock - h * n) * (u.x / n) + u.y % n * (n - Width(s, u.x / n))
  {
    hide BlockRasterTu, IsBlockStart;
    var n, edge, t := s.tuPerBlockDims, s.tuPerBlockRowRightEdge, RasterIndex(s, u);
    RasterOfIndex(s, u);
    InRowBounds(s, u);
    BottomRow(s, u);
    var w, k := Width(s, u.x / n), u.y % n * Width(s, u.x / n) + u.x % n;
    var h := s.tuPerBlockColBottomEdge;
    assert Height(s, u.y / n) == h > 0 && w == if u.x / n < s.wholeBlocksPerRow then n else edge;
    assert s.blocksPerRow == s.wholeBlocksPerRow + if edge > 0 then 1 else 0;
    assert InRow(s, u) == u.x / n * (h * n) + k;
    hide Valid, RasterIndex, InRow, Width, Height;
    if t == s.maxWholeBlockTu {
      FirstInRow(u.x / n, h * n, k);
      CornerIff(u.y % n, u.x % n, w);
    }
  }

  lemma FirstInRow(q: nat, p: nat, k: nat)
    requires p > 0 && q * p + k == 0
    ensures q == 0 && k == 0
  {
    if q > 0 { MulMonotone(1, q, p); }
  }

  lemma QuotientPositive(x: nat, d: nat, m: nat)
    requires d > 0 && m > 0
    ensures x / d * m >= 0 && (x / d * m == 0 <==> x < d)
  {
    MulMonotone(0, x / d, m);
    if x < d {
      DivModUnique(x, d, 0, x);
    } else {
      DivMonotone(d, x, d);
      DivModUnique(d, d, 1, 0);
      MulMonotone(1, x / d, m);
    }
  }

  /** Main result on aligned indices: ldeTuIndexBlockAlignedIndex gives the aligned index of the unit that
      ldeTuCoordsBlockRaster finds, exactly when the right edge is not counted twice. */
  lemma IndexIsAlignedIff(s: TUState, t: nat)
    requires Valid(s) && t < s.tuTotal
    ensures s.numAcross > 0
    ensures var c := CoordsBlockRaster(s, t);
            IndexBlockAlignedIndex(s, t) == CoordsBlockAlignedIndex(s, c.x, c.y) <==> !DoubleCounted(s, t)
  {
    IndexOfRaster(s, t);
    var u := BlockRasterTu(s, t);
    AlignedIndexOf(s, u);
    IndexIsAlignedOf(s, u);
  }

  lemma IndexIsAlignedOf(s: TUState, u: Tu)
    requires Valid(s) && OnSurface(s, u)
    ensures var t := RasterIndex(s, u);
            && t >= 0 && s.numAcross > 0 && IndexBlockAlignedIndex(s, t) == Aligned(s, u) + Excess(s, t)
            && Excess(s, t) >= 0 && (Excess(s, t) == 0 <==> !DoubleCounted(s, t))
  {
    RasterOfIndex(s, u);
    BottomRow(s, u);
    InRowBounds(s, u);
    ExcessIff(s, RasterIndex(s, u));
    hide Aligned, RasterIndex, RightEdgeTerm, BottomEdgeTerm, Valid, InRow, BlockRasterTu, DoubleCounted;
    if u.y / s.tuPerBlockDims < s.wholeBlocksPerCol { WholeRowTerms(s, u); } else { BottomRowTerms(s, u); }
  }

  /** Right or wrong, the index it gives grows strictly with the index it is given. */
  lemma AlignedIncreases(s: TUState, t: nat, t': nat)
    requires Valid(s) && t < t' < s.tuTotal && s.numAcross > 0
    ensures IndexBlockAlignedIndex(s, t) < IndexBlockAlignedIndex(s, t')
  {
    var u, v := BlockRasterTu(s, t), BlockRasterTu(s, t');
    hide Excess, DoubleCounted, IndexBlockAlignedIndex, Aligned, Valid, RasterIndex, OnSurface, BlockRasterTu;
    IndexOfRaster(s, t);
    IndexOfRaster(s, t');
    IndexIsAlignedOf(s, u);
    IndexIsAlignedOf(s, v);
    ExcessGrows(s, t, t');
    if Before(s, v, u) { RasterOrder(s, v, u); } else { AlignedOrder(s, u, v); }
  }

  /** The place the applicators find for an index is that of a unit exactly when the index is its aligned one. */
  lemma AlignedPlace(s: TUState, t: nat, i: nat)
    requires Valid(s) && t < s.tuTotal
    ensures s.numAcross > 0 && s.alignedTuPerRow > 0
    ensures CoordsBlockAlignedRaster(s, i) == CoordsBlockRaster(s, t) <==>
            IndexBlockAlignedIndex(s, t) == i + Excess(s, t)
  {
    IndexOfRaster(s, t);
    var u := BlockRasterTu(s, t);
    assert s.tuSize > 0 && CoordsBlockRaster(s, t) == Pixels(s, u);
    hide IndexBlockAlignedIndex, CoordsBlockAlignedRaster, CoordsBlockRaster, Valid, DoubleCounted, Aligned, AlignedTu,
         RasterIndex, BlockRasterTu, OnAligned, Pixels;
    IndexIsAlignedOf(s, u);
    OnSurfaceAligned(s, u);
    AlignedRasterOfIndex(s, u);
    AlignedIndexOfRaster(s, i);
    if Pixels(s, u) == Pixels(s, AlignedTu(s, i)) { SamePlace(s, u, AlignedTu(s, i)); }
  }

  /** So for the index ldeTuIndexBlockAlignedIndex gives it is the unit's own exactly when the right edge is not counted
      twice. */
  lemma AlignedPlaceIff(s: TUState, t: nat)
    requires Valid(s) && t < s.tuTotal
    ensures s.numAcross > 0 && s.alignedTuPerRow > 0 && IndexBlockAlignedIndex(s, t) >= 0
    ensures CoordsBlockAlignedRaster(s, IndexBlockAlignedIndex(s, t)) == CoordsBlockRaster(s, t) <==>
            !DoubleCounted(s, t)
  {
    hide IndexBlockAlignedIndex, CoordsBlockAlignedRaster, CoordsBlockRaster, Valid, DoubleCounted, Aligned,
         RasterIndex, BlockRasterTu, Excess;
    NotEmpty(s, t);
    IndexOfRaster(s, t);
    var u := BlockRasterTu(s, t);
    IndexIsAlignedOf(s, u);
    OnSurfaceAligned(s, u);
    AlignedRasterOfIndex(s, u);
    AlignedPlace(s, t, IndexBlockAlignedIndex(s, t));
  }

  lemma OnSurfaceAligned(s: TUState, u: Tu)
    requires Valid(s) && OnSurface(s, u)
    ensures OnAligned(s, u)
  {
    if s.tuPerBlockRowRightEdge > 0 { assert s.blocksPerRow == s.wholeBlocksPerRow + 1; }
  }

  lemma SamePlace(s: TUState, u: Tu, v: Tu)
    requires s.tuSize > 0 && Pixels(s, u) == Pixels(s, v)
    ensures u == v
  {}

  /** An 8x8 surface of units of four pixels: its third unit, at (0, 4), has aligned index 8, but the right edge is
      added twice and the result is 14. The place with that index, (24, 4), is not on the surface, which
      apply_cmdbuffer_applicator.h asserts at line 220. */
  lemma DoubleCountedExample(s: TUState)
    requires Initialize(8, 8, 0, 0, 2) == Some(s)
    ensures Valid(s) && s.numAcross > 0 && s.alignedTuPerRow > 0 && DoubleCounted(s, 2)
    ensures CoordsBlockRaster(s, 2) == TUMore(0, 4) && CoordsBlockAlignedIndex(s, 0, 4) == 8
    ensures IndexBlockAlignedIndex(s, 2) == 14
    ensures CoordsBlockAlignedRaster(s, 14) == TUMore(24, 4) && !OnSurface(s, AlignedTu(s, 14))
  {}
}
