/** What the blocks of the command buffer's splitter are: the squares of 32x32 pixels of the surface the commands are
    for. So workers that apply different entry points never write into the same square. */
module CmdBufferBlocks {
  import opened PowersOfTwo
  import opened Wrappers
  import opened CmdBufferFormat
  import opened CmdBufferSplit
  import opened TransformUnit
  import opened TransformUnitOrder
  import opened TransformUnitAligned

  /** A command has one value for each pixel of its transform unit. */
  predicate SizeFor(s: TUState, transformSize: nat) { transformSize == s.tuSize * s.tuSize }

  /** The column and row of squares a position lies in. */
  function Square(s: TUState, p: TuStateReturn): (int, int)
    requires p.TUMore?
  {
    ((p.x - s.xOffset) / 32, (p.y - s.yOffset) / 32)
  }

  /** The splitter's block has as many transform units as a square, for both sizes of unit. */
  lemma BlockFillsSquare(width: nat, height: nat, xOffset: nat, yOffset: nat, tuWidthShift: nat, s: TUState)
    requires 1 <= tuWidthShift <= 2 && Initialize(width, height, xOffset, yOffset, tuWidthShift) == Some(s)
    ensures Valid(s) && SizeFor(s, if tuWidthShift == 1 then 4 else 16)
    ensures var n := BlockSize(if tuWidthShift == 1 then 4 else 16);
            n == s.tuPerBlock && n * (s.tuSize * s.tuSize) == 32 * 32
  {
    InitializeValid(width, height, xOffset, yOffset, tuWidthShift);
    SmallShifts();
  }

  lemma SquareOfUnit(s: TUState, u: Tu)
    requires Valid(s) && u.x >= 0 && u.y >= 0
    ensures Square(s, Pixels(s, u)) == (u.x / s.tuPerBlockDims, u.y / s.tuPerBlockDims)
  {
    PixelBlock(u.x, s.tuPerBlockDims, s.tuSize);
    PixelBlock(u.y, s.tuPerBlockDims, s.tuSize);
  }

  /** The block of an aligned index counts the squares row by row. */
  lemma BlockOfIndex(s: TUState, t: nat, transformSize: nat)
    requires Valid(s) && s.alignedTuPerRow > 0 && SizeFor(s, transformSize)
    ensures var (column, row) := Square(s, CoordsBlockAlignedRaster(s, t));
            0 <= column < s.blocksPerRow && 0 <= row && t / BlockSize(transformSize) == row * s.blocksPerRow + column
  {
    AlignedIndexOfRaster(s, t);
    AlignedTuDigits(s, t);
    SquareOfUnit(s, AlignedTu(s, t));
    BlockSizes(s, transformSize);
    hide Valid, AlignedTu, CoordsBlockAlignedRaster, Square, BlockSize, Aligned;
    var u, n := AlignedTu(s, t), s.tuPerBlockDims;
    RowOf(t, s.alignedTuPerRow);
    CountSquares(t, n, u.x, u.y, s.blocksPerRow);
  }

  lemma BlockSizes(s: TUState, transformSize: nat)
    requires Valid(s) && SizeFor(s, transformSize)
    ensures BlockSize(transformSize) == s.tuPerBlock == s.tuPerBlockDims * s.tuPerBlockDims && s.tuPerBlockDims > 0
    ensures s.alignedTuPerRow == s.blocksPerRow * s.tuPerBlock
  {}

  lemma CountSquares(t: nat, n: nat, x: nat, y: nat, perRow: nat)
    requires n > 0 && x < perRow * n && 0 <= y / n
    requires t == y / n * (perRow * (n * n)) + (x / n * (n * n) + (y % n * n + x % n))
    ensures n * n > 0 && 0 <= x / n < perRow && t / (n * n) == y / n * perRow + x / n
  {
    BlockOf(x, n, perRow, 0);
    RowMajor(y % n, x % n, n, n);
    CountBlocks(t, n * n, y / n, x / n, perRow, y % n * n + x % n);
  }

  lemma CountBlocks(t: nat, perBlock: nat, row: nat, column: nat, perRow: nat, k: nat)
    requires k < perBlock && t == row * (perRow * perBlock) + (column * perBlock + k)
    ensures t / perBlock == row * perRow + column
  {
    assert row * (perRow * perBlock) == row * perRow * perBlock;
    assert (row * perRow + column) * perBlock == row * perRow * perBlock + column * perBlock;
    DivModUnique(t, perBlock, row * perRow + column, k);
  }

  /** Two aligned indices are in one block of the splitter exactly when their positions are in one square. */
  lemma SameSquareIff(s: TUState, t: nat, t': nat, transformSize: nat)
    requires Valid(s) && s.alignedTuPerRow > 0 && SizeFor(s, transformSize)
    ensures Square(s, CoordsBlockAlignedRaster(s, t)) == Square(s, CoordsBlockAlignedRaster(s, t')) <==>
            t / BlockSize(transformSize) == t' / BlockSize(transformSize)
  {
    var p, q := Square(s, CoordsBlockAlignedRaster(s, t)), Square(s, CoordsBlockAlignedRaster(s, t'));
    hide Valid, CoordsBlockAlignedRaster, Square, BlockSize;
    BlockOfIndex(s, t, transformSize);
    BlockOfIndex(s, t', transformSize);
    if p.1 * s.blocksPerRow + p.0 == q.1 * s.blocksPerRow + q.0 {
      DivModUnique(p.1 * s.blocksPerRow + p.0, s.blocksPerRow, p.1, p.0);
      DivModUnique(q.1 * s.blocksPerRow + q.0, s.blocksPerRow, q.1, q.0);
    }
  }

  /** Main result on the split, on the surface: commands of different entry points are applied in different squares. */
  lemma SquaresApart(s: TUState, cmds: seq<Command>, starts: seq<nat>, numEntryPoints: nat, transformSize: nat, i: nat,
                     k: nat, j: nat, l: nat)
    requires Valid(s) && s.alignedTuPerRow > 0 && SizeFor(s, transformSize)
    requires numEntryPoints > 0 && IsSplit(cmds, starts, numEntryPoints, transformSize) && i < j < |starts|
    requires Bound(cmds, starts, i) <= k < Bound(cmds, starts, i + 1)
    requires Bound(cmds, starts, j) <= l < Bound(cmds, starts, j + 1)
    ensures k < |cmds| && l < |cmds|
    ensures Square(s, CoordsBlockAlignedRaster(s, TuIndex(cmds, k + 1))) !=
            Square(s, CoordsBlockAlignedRaster(s, TuIndex(cmds, l + 1)))
  {
    hide Valid, CoordsBlockAlignedRaster, Square, BlockSize, IsSplit, TuIndex;
    BlocksApart(cmds, starts, numEntryPoints, transformSize, i, k, j, l);
    SameSquareIff(s, TuIndex(cmds, k + 1), TuIndex(cmds, l + 1), transformSize);
  }

  /** The command goes on to another square than the one before it. */
  ghost predicate NextSquare(s: TUState, cmds: seq<Command>, k: nat)
    requires Valid(s) && s.alignedTuPerRow > 0 && k < |cmds|
  {
    Square(s, CoordsBlockAlignedRaster(s, TuIndex(cmds, k + 1))) !=
    Square(s, CoordsBlockAlignedRaster(s, TuIndex(cmds, k)))
  }

  lemma NextSquareIff(s: TUState, cmds: seq<Command>, k: nat, transformSize: nat)
    requires Valid(s) && s.alignedTuPerRow > 0 && SizeFor(s, transformSize) && k < |cmds|
    ensures StartsBlock(cmds, k, transformSize) <==> k > 0 && NextSquare(s, cmds, k)
  {
    hide Valid, CoordsBlockAlignedRaster, Square, BlockSize, TuIndex;
    SameSquareIff(s, TuIndex(cmds, k + 1), TuIndex(cmds, k), transformSize);
  }

  /** Main result on where entries start: after entry i - 1, the commands go to entry i from the first one on that is
      behind i equal shares of all commands and goes on to another square; to no other entry if there is none. */
  lemma StartsNextSquare(s: TUState, cmds: seq<Command>, starts: seq<nat>, numEntryPoints: nat, transformSize: nat,
                         i: nat, k: nat)
    requires Valid(s) && s.alignedTuPerRow > 0 && SizeFor(s, transformSize)
    requires numEntryPoints > 0 && IsSplit(cmds, starts, numEntryPoints, transformSize)
    requires 0 < i <= |starts| && i < numEntryPoints && starts[i - 1] < k < |cmds|
    requires i < |starts| ==> k <= starts[i]
    ensures (i < |starts| && k == starts[i]) <==> i * (|cmds| / numEntryPoints) < k && NextSquare(s, cmds, k)
  {
    hide Valid, NextSquare, TuIndex, SplitPoint, StartsBlock;
    SplitPointIs(i, |cmds| / numEntryPoints);
    if i < |starts| {
      assert FirstStart(cmds, starts[i - 1], SplitPoint(i, |cmds| / numEntryPoints), starts[i], transformSize);
    }
    NextSquareIff(s, cmds, k, transformSize);
  }

  lemma {:induction false} SplitPointIs(i: nat, share: nat)
    ensures SplitPoint(i, share) == i * share
  {
    if i > 0 { SplitPointIs(i - 1, share); }
  }
}
