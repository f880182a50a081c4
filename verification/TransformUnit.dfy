/** The transform unit indices of src/enhancement/src/transform_unit.c. Shifts and masks by a fixed number of bits are
    written as products, quotients and remainders. */
module TransformUnit {
  import opened Wrappers
  import opened PowersOfTwo

  /** Pixels across a block. */
  const BS_TEMPORAL: nat := 32

  /** `numDown` is not stored by the source; it is the height in transform units. */
  datatype TUState = TUState(
    tuTotal: nat, numAcross: nat, numDown: nat, xOffset: nat, yOffset: nat, tuSize: nat,
    tuPerBlockBottomEdge: nat, tuPerBlockRowRightEdge: nat, tuPerBlockColBottomEdge: nat, tuPerRow: nat,
    wholeBlocksPerRow: nat, wholeBlocksPerCol: nat, blocksPerRow: nat,
    tuPerBlock: nat, tuPerBlockDims: nat, maxWholeBlockTu: nat, alignedTuPerRow: nat)

  /** ldeTuStateInitialize; tuWidthShift is 1 or 2 for transform units of 2 or 4 pixels. */
  function Initialize(width: nat, height: nat, xOffset: nat, yOffset: nat, tuWidthShift: nat): (r: Option<TUState>)
    requires 0 < tuWidthShift < 32
    ensures r.Some? <==> width % Pow2(tuWidthShift) == 0 && height % Pow2(tuWidthShift) == 0
  {
    var tuSize := Pow2(tuWidthShift);
    if width % tuSize != 0 || height % tuSize != 0 then None
    else
      var dims := if tuWidthShift == 1 then 16 else 8;
      var numAcross, numDown := Shr(width, tuWidthShift), Shr(height, tuWidthShift);
      var right := Shr(width % BS_TEMPORAL, tuWidthShift);
      var bottom := Shr(height % BS_TEMPORAL, tuWidthShift);
      var down, blocks: nat := height / BS_TEMPORAL, (width + BS_TEMPORAL - 1) / BS_TEMPORAL;
      Some(TUState(numAcross * numDown, numAcross, numDown, xOffset, yOffset, tuSize,
                   bottom * dims, right, bottom, numAcross * dims,
                   width / BS_TEMPORAL, down, blocks,
                   dims * dims, dims, down * (numAcross * dims),
                   Shr(blocks * BS_TEMPORAL, tuWidthShift) * dims))
  }

  /** How the fields fit together when a transform unit is a whole part of a block. */
  ghost predicate Valid(s: TUState) {
    && s.tuSize > 0 && (s.tuPerBlockDims == 8 || s.tuPerBlockDims == 16) && s.tuPerBlockDims * s.tuSize == BS_TEMPORAL
    && s.tuPerBlockRowRightEdge < s.tuPerBlockDims && s.tuPerBlockColBottomEdge < s.tuPerBlockDims
    && s.numAcross == s.wholeBlocksPerRow * s.tuPerBlockDims + s.tuPerBlockRowRightEdge
    && s.numDown == s.wholeBlocksPerCol * s.tuPerBlockDims + s.tuPerBlockColBottomEdge
    && s.tuTotal == s.numAcross * s.numDown && s.tuPerRow == s.numAcross * s.tuPerBlockDims
    && s.tuPerBlock == s.tuPerBlockDims * s.tuPerBlockDims
    && s.tuPerBlockBottomEdge == s.tuPerBlockColBottomEdge * s.tuPerBlockDims
    && s.maxWholeBlockTu == s.wholeBlocksPerCol * s.tuPerRow
    && s.blocksPerRow == s.wholeBlocksPerRow + (if s.tuPerBlockRowRightEdge > 0 then 1 else 0)
    && s.alignedTuPerRow == s.blocksPerRow * s.tuPerBlock
  }

  /** The fields of a new state fit together exactly for the two sizes of transform unit there are; a larger shift
      passes the checks of ldeTuStateInitialize, but its eight units are more than a block across. */
  lemma InitializeValid(width: nat, height: nat, xOffset: nat, yOffset: nat, tuWidthShift: nat)
    requires 0 < tuWidthShift < 32
    ensures var r := Initialize(width, height, xOffset, yOffset, tuWidthShift);
            r.Some? ==> (Valid(r.value) <==> tuWidthShift <= 2)
  {
    hide Shr, Pow2;
    SmallShifts();
    if tuWidthShift > 2 { Pow2Monotone(3, tuWidthShift); }
  }

  lemma SmallShifts()
    ensures Pow2(1) == 2 && Pow2(2) == 4 && Pow2(3) == 8
    ensures forall x: nat {:trigger Shr(x, 1)} :: Shr(x, 1) == x / 2
    ensures forall x: nat {:trigger Shr(x, 2)} :: Shr(x, 2) == x / 4
  {
    assert Pow2(3) == 8;
  }

  datatype TuStateReturn = TUMore(x: int, y: int) | TUComplete | TUError

  /** A transform unit by its column and row on the surface. */
  datatype Tu = Tu(x: int, y: int)

  predicate OnSurface(s: TUState, u: Tu) { 0 <= u.x < s.numAcross && 0 <= u.y < s.numDown }

  function Pixels(s: TUState, u: Tu): TuStateReturn { TUMore(u.x * s.tuSize + s.xOffset, u.y * s.tuSize + s.yOffset) }

  /** The unit ldeTuCoordsBlockRaster finds for an index below the total. */
  function BlockRasterTu(s: TUState, tuIndex: nat): Tu
    requires s.tuPerRow > 0 && s.tuPerBlock > 0 && s.tuPerBlockDims > 0
  {
    var blockRowIndex := tuIndex / s.tuPerRow;
    var rowTUIndex := tuIndex - blockRowIndex * s.tuPerRow;
    var bottom := blockRowIndex >= s.wholeBlocksPerCol;
    var perBlock := if bottom then s.tuPerBlockBottomEdge else s.tuPerBlock;
    if perBlock == 0 then Tu(-1, -1)
    else
      var blockColIndex := rowTUIndex / perBlock;
      var blockTUIndex := rowTUIndex - blockColIndex * perBlock;
      var perRow := if blockColIndex >= s.wholeBlocksPerRow then s.tuPerBlockRowRightEdge else s.tuPerBlockDims;
      if perRow == 0 then Tu(-1, -1)
      else Tu(blockTUIndex % perRow + blockColIndex * s.tuPerBlockDims,
              blockTUIndex / perRow + blockRowIndex * s.tuPerBlockDims)
  }

  /** ldeTuCoordsBlockRaster */
  function CoordsBlockRaster(s: TUState, tuIndex: nat): TuStateReturn
    requires Valid(s)
  {
    if tuIndex > s.tuTotal then TUError
    else if tuIndex == s.tuTotal then TUComplete
    else
      NotEmpty(s, tuIndex);
      Pixels(s, BlockRasterTu(s, tuIndex))
  }

  lemma NotEmpty(s: TUState, tuIndex: nat)
    requires Valid(s) && tuIndex < s.tuTotal
    ensures s.tuPerRow > 0 && s.numAcross > 0 && s.numDown > 0 && s.tuPerBlock > 0 && s.tuPerBlockDims > 0
  {}

  /** ldeTuCoordsBlockAlignedIndex, for a pixel position at or after the offsets. */
  function CoordsBlockAlignedIndex(s: TUState, x: int, y: int): int
    requires Valid(s)
  {
    var x', y' := x - s.xOffset, y - s.yOffset;
    var blockX, blockY := x' / BS_TEMPORAL, y' / BS_TEMPORAL;
    blockY * s.alignedTuPerRow + blockX * s.tuPerBlock
    + (y' - blockY * BS_TEMPORAL) / s.tuSize * s.tuPerBlockDims + (x' - blockX * BS_TEMPORAL) / s.tuSize
  }

  /** ldeTuCoordsBlockAlignedRaster, for a surface that is not empty. */
  function CoordsBlockAlignedRaster(s: TUState, tuIndex: nat): TuStateReturn
    requires Valid(s) && s.alignedTuPerRow > 0
  {
    var blockY := tuIndex / s.alignedTuPerRow;
    var rowTUIndex := tuIndex - blockY * s.alignedTuPerRow;
    var blockX := rowTUIndex / s.tuPerBlock;
    var blockTUIndex := rowTUIndex - blockX * s.tuPerBlock;
    var yy := blockTUIndex / s.tuPerBlockDims;
    var xx := blockTUIndex - yy * s.tuPerBlockDims;
    Pixels(s, Tu(xx + blockX * s.tuPerBlockDims, yy + blockY * s.tuPerBlockDims))
  }

  /** ldeTuIndexBlockAlignedIndex */
  function IndexBlockAlignedIndex(s: TUState, tuIndex: nat): int
    requires Valid(s) && s.numAcross > 0
  {
    tuIndex + RightEdgeTerm(s, tuIndex) + BottomEdgeTerm(s, tuIndex)
  }

  /** What is added for the blocks at the right edge. */
  function RightEdgeTerm(s: TUState, tuIndex: nat): int
    requires Valid(s) && s.numAcross > 0
  {
    if s.tuPerBlockRowRightEdge == 0 then 0
    else
      (s.tuPerBlock - s.tuPerBlockRowRightEdge * s.tuPerBlockDims) * (tuIndex / s.tuPerRow)
      + if tuIndex % s.tuPerRow > s.wholeBlocksPerRow * s.tuPerBlock then
          tuIndex % s.tuPerRow % s.tuPerBlock / s.tuPerBlockRowRightEdge * (s.tuPerBlockDims - s.tuPerBlockRowRightEdge)
        else 0
  }

  /** What is added for the blocks at the bottom edge. */
  function BottomEdgeTerm(s: TUState, tuIndex: nat): int
    requires Valid(s)
  {
    if s.tuPerBlockColBottomEdge == 0 || tuIndex <= s.maxWholeBlockTu then 0
    else
      var perBlock, edge := s.tuPerBlockColBottomEdge * s.tuPerBlockDims, s.tuPerBlockRowRightEdge;
      var last := (tuIndex - s.maxWholeBlockTu) / perBlock;
      (s.tuPerBlock - perBlock) * last
      + if last == s.blocksPerRow - 1 && edge > 0 then
          (tuIndex - s.maxWholeBlockTu) % perBlock / edge * (s.tuPerBlockDims - edge)
        else 0
  }

  /** ldeTuIsBlockStart */
  predicate IsBlockStart(s: TUState, tuIndex: nat)
    requires Valid(s) && tuIndex < s.tuTotal
  {
    NotEmpty(s, tuIndex);
    if tuIndex >= s.maxWholeBlockTu then
      s.tuPerBlockBottomEdge > 0 && (tuIndex - s.maxWholeBlockTu) % s.tuPerBlockBottomEdge == 0
    else tuIndex % s.tuPerRow % s.tuPerBlock == 0
  }
}
