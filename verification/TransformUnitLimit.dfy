/** The assertion at the end of ldeTuIndexBlockAlignedIndex (line 199 of src/enhancement/src/transform_unit.c), and the
    surfaces on which counting the right edge twice breaks it. */
module TransformUnitLimit {
  import opened Wrappers
  import opened PowersOfTwo
  import opened TransformUnit
  import opened TransformUnitOrder
  import opened TransformUnitAligned

  /** What the index is asserted not to exceed. */
  function Limit(s: TUState): int { s.alignedTuPerRow * (s.wholeBlocksPerCol + 1) }

  /** The edges of the surface leave room for what is counted twice: the last unit lies h rows and e columns of units
      into the bottom right block, and h * numAcross - 1 units into the bottom row. */
  predicate WithinLimit(s: TUState) {
    var n, e, h := s.tuPerBlockDims, s.tuPerBlockRowRightEdge, s.tuPerBlockColBottomEdge;
    var beyond := h * s.numAcross - 1 - s.wholeBlocksPerRow * s.tuPerBlock;
    e == 0 || h == 0 || beyond <= 0 || beyond / e * (n - e) <= s.tuPerBlock - (h - 1) * n - (e - 1)
  }

  /** Main result on the assertion: it holds for every unit of a surface exactly when the edges leave that room, and
      always for a unit whose right edge is not counted twice. */
  lemma LimitIff(s: TUState)
    requires Valid(s) && s.tuTotal > 0
    ensures s.numAcross > 0
    ensures WithinLimit(s) <==> forall t: nat :: t < s.tuTotal ==> IndexBlockAlignedIndex(s, t) <= Limit(s)
    ensures forall t: nat :: t < s.tuTotal && !DoubleCounted(s, t) ==> IndexBlockAlignedIndex(s, t) < Limit(s)
  {
    NotEmpty(s, 0);
    hide Valid, IndexBlockAlignedIndex, DoubleCounted, Excess, Limit;
    forall t: nat | t < s.tuTotal
      ensures IndexBlockAlignedIndex(s, t) < Limit(s) + Excess(s, t)
      ensures Excess(s, t) == 0 <==> !DoubleCounted(s, t)
    {
      IndexBelow(s, t);
      ExcessIff(s, t);
    }
    if s.tuPerBlockRowRightEdge == 0 || s.tuPerBlockColBottomEdge == 0 {
      forall t: nat | t < s.tuTotal ensures Excess(s, t) == 0 { NoEdge(s, t); }
    } else {
      var last := s.tuTotal - 1;
      LastIndex(s);
      forall t: nat | t < last ensures IndexBlockAlignedIndex(s, t) < IndexBlockAlignedIndex(s, last) {
        AlignedIncreases(s, t, last);
      }
    }
  }

  lemma IndexBelow(s: TUState, t: nat)
    requires Valid(s) && t < s.tuTotal && s.numAcross > 0
    ensures IndexBlockAlignedIndex(s, t) < Limit(s) + Excess(s, t)
  {
    NotEmpty(s, t);
    hide Valid, IndexBlockAlignedIndex, DoubleCounted, Excess, OnSurface, BlockRasterTu, RasterIndex, Aligned, Limit;
    IndexOfRaster(s, t);
    IndexIsAlignedOf(s, BlockRasterTu(s, t));
    AlignedBelow(s, BlockRasterTu(s, t));
  }

  lemma AlignedBelow(s: TUState, u: Tu)
    requires Valid(s) && OnSurface(s, u)
    ensures Aligned(s, u) < Limit(s)
  {
    hide Valid, Height, Width, InRow, OnSurface;
    AlignedDigits(s, u);
    InRowBounds(s, u);
    var n := s.tuPerBlockDims;
    RowBelow(u.y / n, s.wholeBlocksPerCol, s.alignedTuPerRow, u.x / n * s.tuPerBlock + (u.y % n * n + u.x % n));
  }

  lemma RowBelow(q: int, whole: nat, row: nat, r: int)
    requires q <= whole && r < row
    ensures q * row + r < row * (whole + 1)
  {
    MulMonotone(q, whole, row);
  }

  lemma NoEdge(s: TUState, t: nat)
    requires Valid(s) && t < s.tuTotal && s.numAcross > 0
    requires s.tuPerBlockRowRightEdge == 0 || s.tuPerBlockColBottomEdge == 0
    ensures Excess(s, t) == 0
  {
    if s.tuPerBlockColBottomEdge == 0 {
      Distribute(s.numAcross, s.wholeBlocksPerCol, s.tuPerBlockDims, 0);
      assert s.tuTotal == s.maxWholeBlockTu;
    }
  }

  /** Where the last unit is: at the corner of the bottom right block. */
  lemma LastDigits(s: TUState)
    requires Valid(s) && s.tuTotal > 0 && s.tuPerBlockRowRightEdge > 0 && s.tuPerBlockColBottomEdge > 0
    ensures var n := s.tuPerBlockDims;
            && (s.numAcross - 1) / n == s.wholeBlocksPerRow && (s.numAcross - 1) % n == s.tuPerBlockRowRightEdge - 1
            && (s.numDown - 1) / n == s.wholeBlocksPerCol && (s.numDown - 1) % n == s.tuPerBlockColBottomEdge - 1
    ensures s.numAcross > 0 && s.numDown > 0
    ensures s.numAcross == s.wholeBlocksPerRow * s.tuPerBlockDims + s.tuPerBlockRowRightEdge
  {
    EdgeDigits(s.numAcross, s.tuPerBlockDims, s.wholeBlocksPerRow, s.tuPerBlockRowRightEdge);
    EdgeDigits(s.numDown, s.tuPerBlockDims, s.wholeBlocksPerCol, s.tuPerBlockColBottomEdge);
  }

  lemma EdgeDigits(length: nat, n: nat, whole: nat, edge: nat)
    requires 0 < edge < n && length == whole * n + edge
    ensures length > 0 && (length - 1) / n == whole && (length - 1) % n == edge - 1
  {
    DivModUnique(length - 1, n, whole, edge - 1);
  }

  /** How many units the rows of blocks have. */
  lemma LastSizes(s: TUState)
    requires Valid(s) && s.tuPerBlockRowRightEdge > 0
    ensures s.tuTotal == s.maxWholeBlockTu + s.tuPerBlockColBottomEdge * s.numAcross
    ensures s.maxWholeBlockTu == s.wholeBlocksPerCol * s.tuPerRow
    ensures s.alignedTuPerRow == s.wholeBlocksPerRow * s.tuPerBlock + s.tuPerBlock
  {
    Sizes(s.numAcross, s.wholeBlocksPerCol, s.tuPerBlockDims, s.tuPerBlockColBottomEdge);
    OneMore(s.wholeBlocksPerRow, s.tuPerBlock);
  }

  lemma Sizes(across: nat, whole: nat, n: nat, edge: nat)
    ensures across * (whole * n + edge) == whole * (across * n) + edge * across
  {
    Distribute(across, whole, n, edge);
  }

  lemma OneMore(whole: nat, perBlock: nat)
    ensures (whole + 1) * perBlock == whole * perBlock + perBlock
  {}

  lemma LastUnit(s: TUState)
    requires Valid(s) && s.tuTotal > 0 && s.tuPerBlockRowRightEdge > 0 && s.tuPerBlockColBottomEdge > 0
    ensures var u, n := Tu(s.numAcross - 1, s.numDown - 1), s.tuPerBlockDims;
            var e, h := s.tuPerBlockRowRightEdge, s.tuPerBlockColBottomEdge;
            && OnSurface(s, u) && RasterIndex(s, u) == s.tuTotal - 1 && InRow(s, u) == h * s.numAcross - 1
            && Aligned(s, u) == Limit(s) - (s.tuPerBlock - (h - 1) * n - (e - 1))
  {
    hide Valid;
    LastDigits(s);
    LastSizes(s);
    LastSums(s.tuPerBlockDims, s.tuPerBlockRowRightEdge, s.tuPerBlockColBottomEdge, s.wholeBlocksPerRow, s.numAcross);
  }

  lemma LastSums(n: int, e: int, h: int, whole: int, across: int)
    requires across == whole * n + e
    ensures whole * (h * n) + (h - 1) * e + (e - 1) == h * across - 1
  {
    Distribute(h, whole, n, e);
  }

  /** The excess of a unit of the bottom row, by how far it lies beyond the whole blocks. */
  lemma ExcessBeyond(s: TUState, t: nat)
    requires Valid(s) && s.numAcross > 0 && s.tuPerBlockRowRightEdge > 0 && s.maxWholeBlockTu <= t < s.tuTotal
    ensures var e, beyond := s.tuPerBlockRowRightEdge, t - s.maxWholeBlockTu - s.wholeBlocksPerRow * s.tuPerBlock;
            Excess(s, t) == if beyond <= 0 then 0 else beyond / e * (s.tuPerBlockDims - e)
  {
    assert s.tuPerBlock > 0 && s.tuPerRow > 0;
    hide Valid;
    BottomRest(s, t);
    var beyond := t - s.maxWholeBlockTu - s.wholeBlocksPerRow * s.tuPerBlock;
    if beyond > 0 { DivModUnique(t % s.tuPerRow, s.tuPerBlock, s.wholeBlocksPerRow, beyond); }
  }

  lemma LastIndex(s: TUState)
    requires Valid(s) && s.tuTotal > 0 && s.numAcross > 0
    requires s.tuPerBlockRowRightEdge > 0 && s.tuPerBlockColBottomEdge > 0
    ensures WithinLimit(s) <==> IndexBlockAlignedIndex(s, s.tuTotal - 1) <= Limit(s)
  {
    hide Valid, IndexBlockAlignedIndex, DoubleCounted, Excess, Limit, RasterIndex, InRow, OnSurface, Aligned;
    LastUnit(s);
    LastSizes(s);
    Positive(s.tuPerBlockColBottomEdge, s.numAcross);
    AlignedBelow(s, Tu(s.numAcross - 1, s.numDown - 1));
    IndexIsAlignedOf(s, Tu(s.numAcross - 1, s.numDown - 1));
    ExcessBeyond(s, s.tuTotal - 1);
  }

  lemma Positive(a: nat, b: nat)
    requires a > 0 && b > 0
    ensures a * b > 0
  {}

  /** A surface on which it does not hold: 4x28 pixels in units of four, where the last of 7 units has index 90 instead
      of 48, and at most 64 is asserted. */
  lemma LimitExample(s: TUState)
    requires Initialize(4, 28, 0, 0, 2) == Some(s)
    ensures Valid(s) && s.numAcross > 0 && s.tuTotal == 7 && !WithinLimit(s)
    ensures IndexBlockAlignedIndex(s, 6) == 90 && Limit(s) == 64
  {}
}
