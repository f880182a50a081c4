/** The transform units of a surface cover its pixels, each of them once. */
module TransformUnitSurface {
  import opened Wrappers
  import opened PowersOfTwo
  import opened TransformUnit
  import opened TransformUnitOrder

  /** Pixel (x, y) is one of the square that ldeTuCoordsBlockRaster places for index t. */
  predicate Contains(s: TUState, t: nat, x: int, y: int)
    requires Valid(s)
  {
    var p := CoordsBlockRaster(s, t);
    p.TUMore? && p.x <= x < p.x + s.tuSize && p.y <= y < p.y + s.tuSize
  }

  /** Main result on the surface: of the indices below the total, exactly one contains a pixel of the rectangle the
      state was made for, and none contains any other pixel. */
  lemma EachPixelOnce(width: nat, height: nat, xOffset: nat, yOffset: nat, tuWidthShift: nat, s: TUState, x: int,
                      y: int)
    requires 1 <= tuWidthShift <= 2 && Initialize(width, height, xOffset, yOffset, tuWidthShift) == Some(s)
    ensures Valid(s) && s.tuSize == 2 * tuWidthShift && s.tuTotal * (s.tuSize * s.tuSize) == width * height
    ensures xOffset <= x < xOffset + width && yOffset <= y < yOffset + height <==>
            exists t: nat :: t < s.tuTotal && Contains(s, t, x, y)
    ensures forall t: nat, t': nat ::
      t < s.tuTotal && t' < s.tuTotal && Contains(s, t, x, y) && Contains(s, t', x, y) ==> t == t'
  {
    Dimensions(width, height, xOffset, yOffset, tuWidthShift, s);
    hide Initialize, Valid, Contains;
    if xOffset <= x < xOffset + width && yOffset <= y < yOffset + height {
      var _ := FindUnit(s, x, y);
    }
    forall t: nat | t < s.tuTotal && Contains(s, t, x, y)
      ensures xOffset <= x < xOffset + width && yOffset <= y < yOffset + height
    {
      UnitOf(s, t, x, y);
    }
    forall t: nat, t': nat | t < s.tuTotal && t' < s.tuTotal && Contains(s, t, x, y) && Contains(s, t', x, y)
      ensures t == t'
    {
      UnitOf(s, t, x, y);
      UnitOf(s, t', x, y);
    }
  }

  /** Any other index is the end of the surface, or an error. */
  lemma OtherIndices(s: TUState, t: nat)
    requires Valid(s)
    ensures CoordsBlockRaster(s, t).TUMore? <==> t < s.tuTotal
    ensures CoordsBlockRaster(s, t).TUComplete? <==> t == s.tuTotal
  {}

  lemma Dimensions(width: nat, height: nat, xOffset: nat, yOffset: nat, tuWidthShift: nat, s: TUState)
    requires 1 <= tuWidthShift <= 2 && Initialize(width, height, xOffset, yOffset, tuWidthShift) == Some(s)
    ensures Valid(s) && s.tuSize == 2 * tuWidthShift && s.xOffset == xOffset && s.yOffset == yOffset
    ensures width == s.numAcross * s.tuSize && height == s.numDown * s.tuSize
    ensures s.tuTotal * (s.tuSize * s.tuSize) == width * height
  {
    InitializeValid(width, height, xOffset, yOffset, tuWidthShift);
    SmallShifts();
    hide Valid, Shr;
    Area(s.numAcross, s.numDown, s.tuSize);
  }

  lemma Area(across: nat, down: nat, size: nat)
    ensures across * down * (size * size) == across * size * (down * size)
  {}

  /** The unit that contains a pixel, and its index. */
  lemma UnitOf(s: TUState, t: nat, x: int, y: int)
    requires Valid(s) && t < s.tuTotal && Contains(s, t, x, y)
    ensures s.tuSize > 0
    ensures var u := Tu((x - s.xOffset) / s.tuSize, (y - s.yOffset) / s.tuSize);
            OnSurface(s, u) && RasterIndex(s, u) == t
    ensures s.xOffset <= x < s.xOffset + s.numAcross * s.tuSize && s.yOffset <= y < s.yOffset + s.numDown * s.tuSize
  {
    IndexOfRaster(s, t);
    assert s.tuSize > 0;
    hide Valid, BlockRasterTu, RasterIndex;
    var u := BlockRasterTu(s, t);
    Cell(x - s.xOffset, u.x, s.tuSize, s.numAcross);
    Cell(y - s.yOffset, u.y, s.tuSize, s.numDown);
  }

  lemma Cell(x: int, q: nat, size: nat, n: nat)
    requires q < n && q * size <= x < q * size + size
    ensures size > 0 && x / size == q && 0 <= x < n * size
  {
    DivModUnique(x, size, q, x - q * size);
    MulMonotone(0, q, size);
    MulMonotone(q + 1, n, size);
  }

  lemma FindUnit(s: TUState, x: int, y: int) returns (t: nat)
    requires Valid(s)
    requires s.xOffset <= x < s.xOffset + s.numAcross * s.tuSize && s.yOffset <= y < s.yOffset + s.numDown * s.tuSize
    ensures t < s.tuTotal && Contains(s, t, x, y)
  {
    assert s.tuSize > 0;
    var u := Tu((x - s.xOffset) / s.tuSize, (y - s.yOffset) / s.tuSize);
    RowMajorBack(x - s.xOffset, s.numAcross, s.tuSize);
    RowMajorBack(y - s.yOffset, s.numDown, s.tuSize);
    RasterOfIndex(s, u);
    t := RasterIndex(s, u);
    hide Valid, RasterIndex, BlockRasterTu;
  }
}
