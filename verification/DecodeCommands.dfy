/** From the decode loop through the bytes of the command buffer to the picture: where the residual of a transform unit
    is applied. */
module DecodeCommands {
  import opened Wrappers
  import opened Symbols
  import opened TransformUnit
  import opened TransformUnitAligned
  import opened DecodeLoop
  import opened CmdBufferFormat

  /** The emitted indices are in order, below the total, and keep the loop's order. */
  lemma {:induction false} EmittedOrdered(runs: seq<seq<Item>>, visits: seq<Visit>, n: nat, temporalEnabled: bool,
                                          total: nat)
    requires Stands(runs, visits, total) && n <= |visits|
    ensures forall k :: 0 <= k < |Emitted(visits, n, temporalEnabled)| ==>
      Emitted(visits, n, temporalEnabled)[k] < total &&
      (n < |visits| ==> Emitted(visits, n, temporalEnabled)[k] < visits[n].tu)
    ensures forall k, m :: 0 <= k < m < |Emitted(visits, n, temporalEnabled)| ==>
      Emitted(visits, n, temporalEnabled)[k] < Emitted(visits, n, temporalEnabled)[m]
  {
    hide VisitOk, AllZero;
    if n > 0 {
      EmittedOrdered(runs, visits, n - 1, temporalEnabled, total);
      var before, after := Emitted(visits, n - 1, temporalEnabled), Emitted(visits, n, temporalEnabled);
      assert visits[n - 1].tu < total;
      assert n < |visits| ==> visits[n - 1].tu < visits[n].tu;
      assert forall k :: 0 <= k < |after| ==>
          if k < |before| then after[k] == before[k] else after[k] == visits[n - 1].tu;
    }
  }

  lemma {:induction false} EmittedVisits(visits: seq<Visit>, n: nat, temporalEnabled: bool, t: nat)
    requires n <= |visits|
    ensures t in Emitted(visits, n, temporalEnabled) <==>
            exists k :: 0 <= k < n && visits[k].tu == t && (visits[k].mask != 0 || !temporalEnabled)
  {
    if n > 0 { EmittedVisits(visits, n - 1, temporalEnabled, t); }
  }

  /** Some layer has a coefficient at transform unit t. */
  ghost predicate HasCoefficient(runs: seq<seq<Item>>, t: nat) {
    exists l: nat {:trigger runs[l]} :: l < |runs| && t < Start(runs[l], |runs[l]|) && Dense(runs, l, t) != 0
  }

  /** Main result on what is emitted: there is a command for every transform unit at which some layer has a coefficient,
      and for no other one when temporal decoding is enabled. */
  lemma EmittedIff(runs: seq<seq<Item>>, visits: seq<Visit>, temporalEnabled: bool, total: nat, t: nat)
    requires Stands(runs, visits, total) && t < total
    ensures HasCoefficient(runs, t) ==> t in Emitted(visits, |visits|, temporalEnabled)
    ensures t in Emitted(visits, |visits|, true) ==> HasCoefficient(runs, t)
    ensures t in Emitted(visits, |visits|, false) <==> exists k :: 0 <= k < |visits| && visits[k].tu == t
  {
    hide Dense, Start, Emitted;
    EmittedVisits(visits, |visits|, temporalEnabled, t);
    EmittedVisits(visits, |visits|, true, t);
    EmittedVisits(visits, |visits|, false, t);
    if k :| 0 <= k < |visits| && visits[k].tu == t {
      VisitCoefficient(runs, visits[k]);
    } else {
      assert AllZero(runs, t);
    }
  }

  lemma VisitCoefficient(runs: seq<seq<Item>>, v: Visit)
    requires VisitOk(runs, v)
    ensures v.mask != 0 <==> HasCoefficient(runs, v.tu)
  {
    hide Dense, Start;
    if v.mask != 0 {
      var l :| 0 <= l < |v.coeffs| && v.coeffs[l] != 0;
      assert Decodes(runs, v.coeffs, l, v.tu) && runs[l] == runs[l];
    }
    if l: nat :| l < |runs| && v.tu < Start(runs[l], |runs[l]|) && Dense(runs, l, v.tu) != 0 {
      assert Decodes(runs, v.coeffs, l, v.tu);
    }
  }

  /** The commands the loop appends: without a temporal chunk all of them add a residual. */
  function Commands(jumps: seq<int>, residuals: seq<seq<Int16>>): (cmds: seq<Command>)
    requires |residuals| == |jumps| && forall k :: 0 <= k < |jumps| ==> jumps[k] >= 0
    ensures |cmds| == |jumps|
  {
    seq(|jumps|, k requires 0 <= k < |jumps| => Command(ADD, jumps[k], residuals[k]))
  }

  /** Indices below the total, in order, as the loop emits them. */
  ghost predicate InOrder(emitted: seq<nat>, total: nat) {
    && (forall i :: 0 <= i < |emitted| ==> emitted[i] < total)
    && (forall i, j :: 0 <= i < j < |emitted| ==> emitted[i] < emitted[j])
  }

  lemma {:induction false} JumpsAt(s: TUState, rasterOrder: bool, emitted: seq<nat>, n: nat, k: nat)
    requires Valid(s) && s.numAcross > 0 && k < n <= |emitted|
    ensures Jumps(s, rasterOrder, emitted, n)[k] ==
            Jump(LastPlace(s, rasterOrder, emitted, k), Place(s, rasterOrder, emitted[k]))
  {
    hide Place, Jump;
    if k < n - 1 { JumpsAt(s, rasterOrder, emitted, n - 1, k); }
  }

  /** Places follow the emitted indices, in either order, so no jump wraps. */
  lemma NoJumpWraps(s: TUState, rasterOrder: bool, emitted: seq<nat>, k: nat)
    requires Valid(s) && s.numAcross > 0 && k < |emitted| && InOrder(emitted, s.tuTotal)
    ensures Jumps(s, rasterOrder, emitted, |emitted|)[k] ==
            Place(s, rasterOrder, emitted[k]) - LastPlace(s, rasterOrder, emitted, k) >= 0
  {
    hide IndexBlockAlignedIndex, DoubleCounted, Valid, Jumps;
    JumpsAt(s, rasterOrder, emitted, |emitted|, k);
    if !rasterOrder {
      AlignedPlaceIff(s, emitted[k]);
      if k > 0 { AlignedIncreases(s, emitted[k - 1], emitted[k]); }
    }
  }

  // -- The bytes of the commands ----------------------------------------------------------------

  /** The jumps to the first n commands are those the command buffer has room for. */
  ghost predicate JumpsFit(s: TUState, rasterOrder: bool, emitted: seq<nat>, n: nat)
    requires Valid(s) && s.numAcross > 0 && n <= |emitted|
  {
    forall i {:trigger Jumps(s, rasterOrder, emitted, |emitted|)[i]} :: 0 <= i < n ==>
      Jumps(s, rasterOrder, emitted, |emitted|)[i] < 0x1000000
  }

  /** Adding up the jumps as they are read back gives each command its place, less 2^24 for each time a jump was cut. */
  lemma {:induction false} JumpsAddUp(s: TUState, rasterOrder: bool, emitted: seq<nat>, residuals: seq<seq<Int16>>,
                                      n: nat)
    returns (lost: nat)
    requires Valid(s) && s.numAcross > 0 && n <= |emitted| == |residuals| && InOrder(emitted, s.tuTotal)
    ensures forall k :: 0 <= k < |emitted| ==> Jumps(s, rasterOrder, emitted, |emitted|)[k] >= 0
    ensures TuIndex(Commands(Jumps(s, rasterOrder, emitted, |emitted|), residuals), n) + 0x1000000 * lost ==
            LastPlace(s, rasterOrder, emitted, n)
    ensures lost == 0 <==> JumpsFit(s, rasterOrder, emitted, n)
  {
    hide Jumps, Place, Valid, InOrder, Carried;
    forall k: nat | k < |emitted| ensures Jumps(s, rasterOrder, emitted, |emitted|)[k] >= 0 {
      NoJumpWraps(s, rasterOrder, emitted, k);
    }
    lost := 0;
    if n > 0 {
      NoJumpWraps(s, rasterOrder, emitted, n - 1);
      lost := JumpsAddUp(s, rasterOrder, emitted, residuals, n - 1);
      var cut := Cut(Jumps(s, rasterOrder, emitted, |emitted|)[n - 1]);
      lost := lost + cut;
    }
  }

  lemma Cut(jump: nat) returns (lost: nat)
    ensures jump == Carried(jump) + 0x1000000 * lost
    ensures lost == 0 <==> jump < 0x1000000
  {
    lost := jump / 0x1000000;
  }

  /** The applicator finds transform unit t at this index: its index in surface raster order; in block order, the
      position ldeTuCoordsBlockRaster gives it. */
  predicate Lands(s: TUState, rasterOrder: bool, tu: nat, t: nat)
    requires Valid(s) && s.numAcross > 0
  {
    AlignedRowNotEmpty(s);
    if rasterOrder then tu == t else CoordsBlockAlignedRaster(s, tu) == CoordsBlockRaster(s, t)
  }

  lemma AlignedRowNotEmpty(s: TUState)
    requires Valid(s) && s.numAcross > 0
    ensures s.alignedTuPerRow > 0
  {
    assert s.blocksPerRow > 0 && s.tuPerBlock > 0;
  }

  /** A multiple of 2^24 that was cut never makes up for the right edge being counted twice. */
  lemma LandsIff(s: TUState, rasterOrder: bool, tu: nat, t: nat, lost: nat)
    requires Valid(s) && t < s.tuTotal && s.numAcross > 0 && tu + 0x1000000 * lost == Place(s, rasterOrder, t)
    ensures Lands(s, rasterOrder, tu, t) <==> lost == 0 && (rasterOrder || !DoubleCounted(s, t))
  {
    hide Valid, IndexBlockAlignedIndex, CoordsBlockAlignedRaster, CoordsBlockRaster, DoubleCounted, Excess;
    AlignedPlace(s, t, tu);
    ExcessIff(s, t);
    ExcessBelow(s, t);
  }

  /** Command k as it was applied: it adds its residual, to the unit it was emitted for under those conditions. */
  ghost predicate AppliedAt(s: TUState, rasterOrder: bool, emitted: seq<nat>, residuals: seq<seq<Int16>>,
                            placed: Placed, transformSize: nat, k: nat)
    requires Valid(s) && s.numAcross > 0 && k < |emitted| == |residuals| && |residuals[k]| == transformSize
  {
    && placed.kind == ADD && placed.residual == Stored(residuals[k], transformSize)
    && (Lands(s, rasterOrder, placed.tu, emitted[k]) <==>
        JumpsFit(s, rasterOrder, emitted, k + 1) && (rasterOrder || !DoubleCounted(s, emitted[k])))
  }

  ghost predicate AppliedWhereDecoded(s: TUState, rasterOrder: bool, emitted: seq<nat>, residuals: seq<seq<Int16>>,
                                      applied: Applied, transformSize: nat)
    requires Valid(s) && s.numAcross > 0 && |emitted| == |residuals|
    requires forall k :: 0 <= k < |residuals| ==> |residuals[k]| == transformSize
  {
    && applied.Applied? && |applied.placed| == |emitted|
    && forall k: nat {:trigger applied.placed[k]} :: k < |emitted| ==>
         AppliedAt(s, rasterOrder, emitted, residuals, applied.placed[k], transformSize, k)
  }

  lemma MeaningLands(s: TUState, rasterOrder: bool, emitted: seq<nat>, residuals: seq<seq<Int16>>, transformSize: nat,
                     k: nat)
    requires Valid(s) && s.numAcross > 0 && InOrder(emitted, s.tuTotal) && k < |emitted| == |residuals|
    requires forall i :: 0 <= i < |residuals| ==> |residuals[i]| == transformSize
    ensures var jumps := Jumps(s, rasterOrder, emitted, |emitted|);
            && (forall i :: 0 <= i < |jumps| ==> jumps[i] >= 0)
            && var meaning := Meaning(Commands(jumps, residuals), k, transformSize);
               AppliedAt(s, rasterOrder, emitted, residuals, meaning, transformSize, k)
  {
    assert emitted[k] < s.tuTotal;
    hide Jumps, Stored, IndexBlockAlignedIndex, Valid, Lands, DoubleCounted, JumpsFit, Place, InOrder, TuIndex;
    var lost := JumpsAddUp(s, rasterOrder, emitted, residuals, k + 1);
    var cmds := Commands(Jumps(s, rasterOrder, emitted, |emitted|), residuals);
    LandsIff(s, rasterOrder, TuIndex(cmds, k + 1), emitted[k], lost);
  }

  lemma MeaningsLand(s: TUState, rasterOrder: bool, emitted: seq<nat>, residuals: seq<seq<Int16>>, transformSize: nat)
    requires Valid(s) && s.numAcross > 0 && InOrder(emitted, s.tuTotal) && |emitted| == |residuals|
    requires forall k :: 0 <= k < |residuals| ==> |residuals[k]| == transformSize
    ensures var jumps := Jumps(s, rasterOrder, emitted, |emitted|);
            && (forall i :: 0 <= i < |jumps| ==> jumps[i] >= 0)
            && AreCommands(Commands(jumps, residuals), transformSize)
            && var meanings := Meanings(Commands(jumps, residuals), 0, |emitted|, transformSize);
               AppliedWhereDecoded(s, rasterOrder, emitted, residuals, Applied(meanings), transformSize)
  {
    hide Jumps, Valid, AppliedAt, InOrder, Meaning;
    var _ := JumpsAddUp(s, rasterOrder, emitted, residuals, 0);
    var cmds := Commands(Jumps(s, rasterOrder, emitted, |emitted|), residuals);
    var applied := Applied(Meanings(cmds, 0, |emitted|, transformSize));
    forall k: nat {:trigger applied.placed[k]} | k < |emitted|
      ensures AppliedAt(s, rasterOrder, emitted, residuals, applied.placed[k], transformSize, k)
    {
      MeaningLands(s, rasterOrder, emitted, residuals, transformSize, k);
      assert applied.placed[k] == Meaning(cmds, k, transformSize);
    }
  }

  /** Main result on placement. Whatever the decode loop visited, applying the bytes of its commands adds the residual
      of the k-th at the transform unit it was emitted for, exactly when no jump up to it was cut and, in block order,
      the right edge is not counted twice for that unit. */
  lemma ResidualsLandWhereDecoded(runs: seq<seq<Item>>, visits: seq<Visit>, s: TUState, rasterOrder: bool,
                                  temporalEnabled: bool, residuals: seq<seq<Int16>>, transformSize: nat)
    requires Valid(s) && s.numAcross > 0 && Stands(runs, visits, s.tuTotal)
    requires |Emitted(visits, |visits|, temporalEnabled)| == |residuals|
    requires forall k :: 0 <= k < |residuals| ==> |residuals[k]| == transformSize
    ensures var emitted := Emitted(visits, |visits|, temporalEnabled);
            var jumps := Jumps(s, rasterOrder, emitted, |emitted|);
            && (forall i :: 0 <= i < |jumps| ==> jumps[i] >= 0)
            && var cmds := Commands(jumps, residuals);
               AreCommands(cmds, transformSize) && AppliedWhereDecoded(s, rasterOrder, emitted, residuals,
                 Apply(CommandBytes(cmds, |cmds|, transformSize), ResidualBytes(cmds, |cmds|, transformSize),
                       transformSize, 0, 0, 0, |cmds|), transformSize)
  {
    hide Emitted, Jumps, Stands, Apply, CommandBytes, ResidualBytes, Stored, IndexBlockAlignedIndex, Valid,
         AppliedWhereDecoded, Commands, Meanings, AreCommands;
    var emitted := Emitted(visits, |visits|, temporalEnabled);
    EmittedOrdered(runs, visits, |visits|, temporalEnabled, s.tuTotal);
    MeaningsLand(s, rasterOrder, emitted, residuals, transformSize);
    ApplyIs(Commands(Jumps(s, rasterOrder, emitted, |emitted|), residuals), 0, |emitted|, transformSize);
  }

  // -- When the jumps fit -----------------------------------------------------------------------

  /** Places grow with the index. */
  lemma PlaceGrows(s: TUState, rasterOrder: bool, t: nat, t': nat)
    requires Valid(s) && s.numAcross > 0 && t <= t' < s.tuTotal
    ensures 0 <= Place(s, rasterOrder, t) <= Place(s, rasterOrder, t')
  {
    hide Valid, IndexBlockAlignedIndex, DoubleCounted;
    AlignedPlaceIff(s, t);
    if t < t' { AlignedIncreases(s, t, t'); }
  }

  /** Main result on jumps: whatever the loop visits in a tile, none is cut, exactly when the place of the last
      transform unit is below 2^24. */
  lemma JumpsFitIff(s: TUState, rasterOrder: bool)
    requires Valid(s) && s.numAcross > 0 && s.tuTotal > 0
    ensures Place(s, rasterOrder, s.tuTotal - 1) < 0x1000000 <==>
            forall runs, visits, temporalEnabled: bool
              {:trigger Stands(runs, visits, s.tuTotal), Emitted(visits, |visits|, temporalEnabled)} ::
              Stands(runs, visits, s.tuTotal) ==>
                var emitted := Emitted(visits, |visits|, temporalEnabled);
                JumpsFit(s, rasterOrder, emitted, |emitted|)
  {
    hide Valid, Place, Stands, Emitted, Jumps;
    var last := s.tuTotal - 1;
    if Place(s, rasterOrder, last) < 0x1000000 {
      forall runs, visits, temporalEnabled: bool
        {:trigger Stands(runs, visits, s.tuTotal), Emitted(visits, |visits|, temporalEnabled)} |
        Stands(runs, visits, s.tuTotal)
        ensures var emitted := Emitted(visits, |visits|, temporalEnabled);
                JumpsFit(s, rasterOrder, emitted, |emitted|)
      {
        EmittedOrdered(runs, visits, |visits|, temporalEnabled, s.tuTotal);
        SmallJumps(s, rasterOrder, Emitted(visits, |visits|, temporalEnabled));
      }
    } else {
      FirstIsZero(s, rasterOrder);
      assert last > 0;
      var runs, visits := TwoUnits(last, s.tuTotal);
      var emitted := Emitted(visits, |visits|, true);
      NoJumpWraps(s, rasterOrder, emitted, 1);
      assert Jumps(s, rasterOrder, emitted, |emitted|)[1] >= 0x1000000;
    }
  }

  lemma FirstIsZero(s: TUState, rasterOrder: bool)
    requires Valid(s) && s.numAcross > 0
    ensures Place(s, rasterOrder, 0) == 0
  {}

  lemma SmallJumps(s: TUState, rasterOrder: bool, emitted: seq<nat>)
    requires Valid(s) && s.numAcross > 0 && InOrder(emitted, s.tuTotal)
    requires s.tuTotal > 0 && Place(s, rasterOrder, s.tuTotal - 1) < 0x1000000
    ensures JumpsFit(s, rasterOrder, emitted, |emitted|)
  {
    hide Valid, Place, Jumps;
    forall k {:trigger Jumps(s, rasterOrder, emitted, |emitted|)[k]} | 0 <= k < |emitted|
      ensures Jumps(s, rasterOrder, emitted, |emitted|)[k] < 0x1000000
    {
      NoJumpWraps(s, rasterOrder, emitted, k);
      PlaceGrows(s, rasterOrder, emitted[k], s.tuTotal - 1);
      if k > 0 { PlaceGrows(s, rasterOrder, emitted[k - 1], s.tuTotal - 1); }
    }
  }

  /** A layer with a coefficient of 1 at the first transform unit and at unit n, and what the loop does with it. */
  lemma TwoUnits(n: nat, total: nat) returns (runs: seq<seq<Item>>, visits: seq<Visit>)
    requires 0 < n < total
    ensures Stands(runs, visits, total) && Emitted(visits, |visits|, true) == Emitted(visits, |visits|, false) == [0, n]
    ensures runs == [[Item(1, n - 1), Item(1, total - 1 - n)]]
    ensures visits == [Visit(0, [1], 1), Visit(n, [1], 1)]
  {
    runs, visits := [[Item(1, n - 1), Item(1, total - 1 - n)]], [Visit(0, [1], 1), Visit(n, [1], 1)];
    var items := runs[0];
    TwoStarts(n, total);
    ExpandAt(items, 0, 2);
    ExpandAt(items, 1, 2);
    forall x: nat {:trigger AllZero(runs, x)} | x < total && x != 0 && x != n ensures AllZero(runs, x) {
      assert Dense(runs, 0, x) == 0;
    }
    forall k {:trigger visits[k]} | 0 <= k < 2 ensures VisitOk(runs, visits[k]) {
      assert Decodes(runs, visits[k].coeffs, 0, visits[k].tu);
      assert visits[k].coeffs[0] != 0;
    }
    TwoEmitted(visits, true);
    TwoEmitted(visits, false);
  }

  lemma TwoStarts(n: nat, total: nat)
    requires 0 < n < total
    ensures var items := [Item(1, n - 1), Item(1, total - 1 - n)];
            Start(items, 0) == 0 && Start(items, 1) == n && Start(items, 2) == total
  {}

  lemma TwoEmitted(visits: seq<Visit>, temporalEnabled: bool)
    requires |visits| == 2 && visits[0].mask != 0 && visits[1].mask != 0
    ensures Emitted(visits, 2, temporalEnabled) == [visits[0].tu, visits[1].tu]
  {
    assert Emitted(visits, 1, temporalEnabled) == [visits[0].tu];
  }

  /** A tile that is accepted and whose jumps do not fit: 16384x16384 pixels in units of two. With coefficients only at
      transform units 0 and 2^24, the jump between their commands is cut to 0, and the second residual is added to the
      first unit. */
  lemma CutJumpExample(s: TUState, rasterOrder: bool, residuals: seq<seq<Int16>>)
    returns (runs: seq<seq<Item>>, visits: seq<Visit>)
    requires Initialize(16384, 16384, 0, 0, 1) == Some(s)
    requires |residuals| == 2 && |residuals[0]| == |residuals[1]| == 4
    ensures Valid(s) && s.numAcross > 0 && s.tuTotal == 0x4000000 && Stands(runs, visits, s.tuTotal)
    ensures forall temporalEnabled :: Emitted(visits, |visits|, temporalEnabled) == [0, 0x1000000]
    ensures Jumps(s, rasterOrder, [0, 0x1000000], 2) == [0, 0x1000000]
    ensures var cmds := Commands([0, 0x1000000], residuals);
            && AreCommands(cmds, 4)
            && Apply(CommandBytes(cmds, 2, 4), ResidualBytes(cmds, 2, 4), 4, 0, 0, 0, 2) ==
               Applied([Placed(0, ADD, residuals[0]), Placed(0, ADD, residuals[1])])
  {
    LargeTile(s);
    runs, visits := TwoUnits(0x1000000, s.tuTotal);
    NoEdges(s, rasterOrder, 0x1000000);
    FirstIsZero(s, rasterOrder);
    hide Valid, Place, Stands, Emitted, Initialize, Commands, AreCommands;
    assert Jumps(s, rasterOrder, [0, 0x1000000], 1) == [0];
    CutCommands(residuals);
  }

  lemma CutCommands(residuals: seq<seq<Int16>>)
    requires |residuals| == 2 && |residuals[0]| == |residuals[1]| == 4
    ensures var cmds := Commands([0, 0x1000000], residuals);
            && AreCommands(cmds, 4)
            && Apply(CommandBytes(cmds, 2, 4), ResidualBytes(cmds, 2, 4), 4, 0, 0, 0, 2) ==
               Applied([Placed(0, ADD, residuals[0]), Placed(0, ADD, residuals[1])])
  {
    hide Apply, CommandBytes, ResidualBytes;
    var cmds := Commands([0, 0x1000000], residuals);
    ApplyIs(cmds, 0, 2, 4);
    assert TuIndex(cmds, 1) == 0;
    assert Meanings(cmds, 0, 2, 4) == [Meaning(cmds, 0, 4), Meaning(cmds, 1, 4)];
  }

  lemma LargeTile(s: TUState)
    requires Initialize(16384, 16384, 0, 0, 1) == Some(s)
    ensures Valid(s) && s.numAcross > 0 && s.tuTotal == 0x4000000
    ensures s.tuPerBlockRowRightEdge == 0 && s.tuPerBlockColBottomEdge == 0
  {}

  lemma NoEdges(s: TUState, rasterOrder: bool, t: nat)
    requires Valid(s) && s.numAcross > 0 && s.tuPerBlockRowRightEdge == 0 && s.tuPerBlockColBottomEdge == 0
    ensures Place(s, rasterOrder, t) == t
  {}
}
