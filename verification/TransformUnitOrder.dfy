/** The block raster order: its indices and the units of the surface correspond one to one, in order. */
module TransformUnitOrder {
  import opened PowersOfTwo
  import opened TransformUnit

  // -- Splitting a coordinate into a block and a place in it ------------------------------------

  /** A length of `whole` pieces of n units and a last one of `edge`. */
  lemma BlockOf(x: nat, n: nat, whole: nat, edge: nat)
    requires edge < n && x < whole * n + edge
    ensures 0 <= x / n <= whole && 0 <= x % n && x == x / n * n + x % n
    ensures x % n < if x / n < whole then n else edge
  {
    assert x == n * (x / n) + x % n;
    if x / n > whole { MulMonotone(whole + 1, x / n, n); }
  }

  lemma InBlock(x: int, n: nat, whole: nat, edge: nat, q: int, r: int)
    requires 0 <= edge < n && x == q * n + r && 0 <= q <= whole && 0 <= r < (if q < whole then n else edge)
    ensures 0 <= x < whole * n + edge && x / n == q && x % n == r
  {
    DivModUnique(x, n, q, r);
    MulMonotone(0, q, n);
    if q < whole { MulMonotone(q + 1, whole, n); }
  }

  /** Row-major places in a rectangle. */
  lemma RowMajor(y: int, x: int, h: nat, w: nat)
    requires 0 <= y < h && 0 <= x < w
    ensures 0 <= y * w + x < h * w
    ensures (y * w + x) / w == y && (y * w + x) % w == x
  {
    DivModUnique(y * w + x, w, y, x);
    MulMonotone(0, y, w);
    MulMonotone(y + 1, h, w);
    assert (y + 1) * w == y * w + w;
  }

  lemma RowMajorBack(k: nat, h: nat, w: nat)
    requires k < h * w && w > 0
    ensures 0 <= k / w < h && 0 <= k % w < w && k == k / w * w + k % w
  {
    assert k == w * (k / w) + k % w;
    if k / w >= h { MulMonotone(h, k / w, w); }
  }

  // -- The order --------------------------------------------------------------------------------

  function Height(s: TUState, blockY: int): nat {
    if blockY < s.wholeBlocksPerCol then s.tuPerBlockDims else s.tuPerBlockColBottomEdge
  }

  function Width(s: TUState, blockX: int): nat {
    if blockX < s.wholeBlocksPerRow then s.tuPerBlockDims else s.tuPerBlockRowRightEdge
  }

  /** The number of units before u: whole rows of blocks, then whole blocks, then whole rows of its block. */
  function RasterIndex(s: TUState, u: Tu): int
    requires Valid(s)
  {
    var n := s.tuPerBlockDims;
    u.y / n * s.tuPerRow + InRow(s, u)
  }

  function InRow(s: TUState, u: Tu): int
    requires Valid(s)
  {
    var n := s.tuPerBlockDims;
    u.x / n * (Height(s, u.y / n) * n) + u.y % n * Width(s, u.x / n) + u.x % n
  }

  lemma InRowBounds(s: TUState, u: Tu)
    requires Valid(s) && OnSurface(s, u)
    ensures var n := s.tuPerBlockDims;
            var h, w, k := Height(s, u.y / n), Width(s, u.x / n), u.y % n * Width(s, u.x / n) + u.x % n;
            && 0 <= u.y / n <= s.wholeBlocksPerCol && 0 <= u.x / n <= s.wholeBlocksPerRow
            && h > 0 && w > 0 && 0 <= k < h * w && k / w == u.y % n && k % w == u.x % n
            && h * w <= h * n && k < h * n
            && InRow(s, u) / (h * n) == u.x / n && InRow(s, u) % (h * n) == k
            && 0 <= InRow(s, u) < h * s.numAcross <= s.tuPerRow
  {
    var n := s.tuPerBlockDims;
    BlockOf(u.x, n, s.wholeBlocksPerRow, s.tuPerBlockRowRightEdge);
    BlockOf(u.y, n, s.wholeBlocksPerCol, s.tuPerBlockColBottomEdge);
    var h, w, k := Height(s, u.y / n), Width(s, u.x / n), u.y % n * Width(s, u.x / n) + u.x % n;
    RowMajor(u.y % n, u.x % n, h, w);
    RowBounds(s, u.x / n, h, w, k);
  }

  lemma RowBounds(s: TUState, blockX: int, h: nat, w: nat, k: int)
    requires Valid(s) && 0 <= blockX <= s.wholeBlocksPerRow && 0 < h <= s.tuPerBlockDims
    requires w == Width(s, blockX) && 0 <= k < h * w
    ensures var n, r := s.tuPerBlockDims, blockX * (h * s.tuPerBlockDims) + k;
            && h * w <= h * n && 0 < h * n && r / (h * n) == blockX && r % (h * n) == k
            && 0 <= r < h * s.numAcross <= s.tuPerRow
  {
    var n, whole, edge, across := s.tuPerBlockDims, s.wholeBlocksPerRow, s.tuPerBlockRowRightEdge, s.numAcross;
    assert across == whole * n + edge && s.tuPerRow == across * n && edge < n && w <= n;
    hide Valid;
    Scale(h, w, n, across);
    ScaledPlace(blockX, whole, n, edge, h, k, across);
  }

  lemma ScaledPlace(q: nat, whole: nat, n: nat, edge: nat, h: nat, k: nat, across: nat)
    requires q <= whole && edge < n && 0 < h && k < h * (if q < whole then n else edge) && across == whole * n + edge
    ensures 0 < h * n && (q * (h * n) + k) / (h * n) == q && (q * (h * n) + k) % (h * n) == k
    ensures 0 <= q * (h * n) + k < h * across
  {
    Distribute(h, whole, n, edge);
    MulMonotone(edge, n, h);
    MulMonotone(0, edge, h);
    RowPlace(q, whole, h * n, h * edge, k);
  }

  lemma Scale(h: nat, w: nat, n: nat, across: nat)
    requires 0 < h <= n && w <= n && 0 < n
    ensures h * w <= h * n && 0 < h * n && h * across <= across * n
  {
    MulMonotone(w, n, h);
    MulMonotone(1, h, n);
    MulMonotone(h, n, across);
  }

  /** A place in a row of `whole` blocks of p units and a last one of `edge`. */
  lemma RowPlace(q: nat, whole: nat, p: nat, edge: nat, k: nat)
    requires q <= whole && edge <= p && k < (if q < whole then p else edge)
    ensures p > 0 && (q * p + k) / p == q && (q * p + k) % p == k && 0 <= q * p + k < whole * p + edge
  {
    DivModUnique(q * p + k, p, q, k);
    MulMonotone(0, q, p);
    if q < whole { MulMonotone(q + 1, whole, p); }
  }

  lemma Distribute(h: int, w: int, n: int, r: int)
    ensures h * (w * n + r) == w * (h * n) + h * r
  {
    assert h * (w * n) == w * (h * n);
  }

  /** Every unit has an index below the total, and decoding it gives the unit back. */
  lemma RasterOfIndex(s: TUState, u: Tu)
    requires Valid(s) && OnSurface(s, u)
    ensures 0 <= RasterIndex(s, u) < s.tuTotal
    ensures s.tuPerRow > 0 && RasterIndex(s, u) / s.tuPerRow == u.y / s.tuPerBlockDims
    ensures RasterIndex(s, u) % s.tuPerRow == InRow(s, u)
    ensures BlockRasterTu(s, RasterIndex(s, u)) == u
  {
    var n := s.tuPerBlockDims;
    InRowBounds(s, u);
    BlockOf(u.x, n, s.wholeBlocksPerRow, s.tuPerBlockRowRightEdge);
    BlockOf(u.y, n, s.wholeBlocksPerCol, s.tuPerBlockColBottomEdge);
    DivModUnique(RasterIndex(s, u), s.tuPerRow, u.y / n, InRow(s, u));
    MulMonotone(0, u.y / n, s.tuPerRow);
    IndexBelowTotal(s, u.y / n, InRow(s, u));
    var h, k := Height(s, u.y / n), u.y % n * Width(s, u.x / n) + u.x % n;
    assert h * n == if u.y / n >= s.wholeBlocksPerCol then s.tuPerBlockBottomEdge else s.tuPerBlock;
    assert InRow(s, u) - u.x / n * (h * n) == k;
  }

  lemma IndexBelowTotal(s: TUState, blockY: int, r: int)
    requires Valid(s) && 0 <= blockY <= s.wholeBlocksPerCol && 0 <= r < Height(s, blockY) * s.numAcross <= s.tuPerRow
    ensures blockY * s.tuPerRow + r < s.tuTotal
  {
    var n := s.tuPerBlockDims;
    assert s.tuTotal == s.wholeBlocksPerCol * s.tuPerRow + s.tuPerBlockColBottomEdge * s.numAcross by {
      Distribute(s.numAcross, s.wholeBlocksPerCol, n, s.tuPerBlockColBottomEdge);
    }
    if blockY < s.wholeBlocksPerCol {
      MulMonotone(blockY + 1, s.wholeBlocksPerCol, s.tuPerRow);
      assert (blockY + 1) * s.tuPerRow == blockY * s.tuPerRow + s.tuPerRow;
      MulMonotone(0, s.tuPerBlockColBottomEdge, s.numAcross);
    }
  }

  /** Every index below the total decodes to a unit of the surface with that index. */
  lemma IndexOfRaster(s: TUState, t: nat)
    requires Valid(s) && t < s.tuTotal
    ensures s.tuPerRow > 0 && OnSurface(s, BlockRasterTu(s, t)) && RasterIndex(s, BlockRasterTu(s, t)) == t
  {
    NotEmpty(s, t);
    var n, blockY, r := s.tuPerBlockDims, t / s.tuPerRow, t % s.tuPerRow;
    RowOfIndex(s, t);
    var h := Height(s, blockY);
    ColumnOfIndex(s, h, r);
    var blockX, k := r / (h * n), r % (h * n);
    var w := Width(s, blockX);
    RowMajorBack(k, h, w);
    assert h * n == if blockY >= s.wholeBlocksPerCol then s.tuPerBlockBottomEdge else s.tuPerBlock;
    assert r == t - blockY * s.tuPerRow && k == r - blockX * (h * n);
    var u := BlockRasterTu(s, t);
    assert u == Tu(k % w + blockX * n, k / w + blockY * n);
    InBlock(u.x, n, s.wholeBlocksPerRow, s.tuPerBlockRowRightEdge, blockX, k % w);
    InBlock(u.y, n, s.wholeBlocksPerCol, s.tuPerBlockColBottomEdge, blockY, k / w);
  }

  lemma RowOfIndex(s: TUState, t: nat)
    requires Valid(s) && t < s.tuTotal && s.tuPerRow > 0
    ensures var blockY, r := t / s.tuPerRow, t % s.tuPerRow;
            && t == blockY * s.tuPerRow + r
            && 0 <= blockY <= s.wholeBlocksPerCol && Height(s, blockY) > 0 && 0 <= r < Height(s, blockY) * s.numAcross
  {
    var n, whole, edge, across, perRow := s.tuPerBlockDims, s.wholeBlocksPerCol, s.tuPerBlockColBottomEdge,
        s.numAcross, s.tuPerRow;
    assert s.numDown == whole * n + edge && perRow == across * n && edge < n && s.tuTotal == across * s.numDown;
    hide Valid;
    Distribute(across, whole, n, edge);
    EdgeRow(edge, n, across);
    BlockOf(t, perRow, whole, across * edge);
    assert n * across == perRow && edge * across == across * edge;
  }

  lemma EdgeRow(edge: nat, n: nat, across: nat)
    requires edge < n && across * n > 0
    ensures 0 <= across * edge < across * n && (edge == 0 ==> across * edge == 0)
  {
    MulMonotone(edge + 1, n, across);
    MulMonotone(0, edge, across);
    assert (edge + 1) * across == across * edge + across;
  }

  lemma ColumnOfIndex(s: TUState, h: nat, r: int)
    requires Valid(s) && 0 < h <= s.tuPerBlockDims && 0 <= r < h * s.numAcross
    ensures h * s.tuPerBlockDims > 0
    ensures var perBlock := h * s.tuPerBlockDims;
            var blockX, k := r / perBlock, r % perBlock;
            && 0 <= blockX <= s.wholeBlocksPerRow && r == blockX * perBlock + k
            && Width(s, blockX) > 0 && 0 <= k < h * Width(s, blockX)
  {
    var n, whole, edge, across := s.tuPerBlockDims, s.wholeBlocksPerRow, s.tuPerBlockRowRightEdge, s.numAcross;
    assert across == whole * n + edge && edge < n;
    hide Valid;
    Distribute(h, whole, n, edge);
    MulMonotone(1, h, n);
    EdgeRow(edge, n, h);
    BlockOf(r, h * n, whole, h * edge);
  }
}
