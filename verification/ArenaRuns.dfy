/** Whole runs of the rolling arena, down to the bytes the callers hold. */
module ArenaRuns {
  import opened ArenaSpec
  import opened ArenaSafety
  import opened PowersOfTwo

  datatype Op = Allocate(size: nat, align: nat) | Release(idx: nat)

  /** The state after ldcRollingArenaInitialize. */
  function Initial(size: nat): Arena { Arena([size], [0], [false], 0, 0, 0, [], map[]) }

  /** What a caller may do: ask for a positive size, and free what it holds. */
  predicate Legal(a: Arena, op: Op) {
    Shape(a) &&
    match op
    case Allocate(size, align) => size > 0 && align > 0
    case Release(idx) => CanFree(a, idx)
  }

  function Step(a: Arena, op: Op): Arena
    requires Legal(a, op)
  {
    match op
    case Allocate(size, align) => Alloc(a, size, align)
    case Release(idx) => Free(a, idx)
  }

  predicate Lands(a: Arena, op: Op)
    requires Legal(a, op)
  {
    op.Allocate? && LandsOnBack(a, op.size + op.align - 1)
  }

  predicate Overrun(a: Arena, op: Op)
    requires Legal(a, op)
  {
    op.Allocate? && Overruns(a, op.size + op.align - 1)
  }

  /** A run of operations, none of which lands on `back` or runs out of buffer records. */
  predicate SafeRun(a: Arena, ops: seq<Op>)
    decreases |ops|
  {
    ops == [] ||
    (Legal(a, ops[0]) && !Lands(a, ops[0]) && !Overrun(a, ops[0]) && SafeRun(Step(a, ops[0]), ops[1..]))
  }

  function Run(a: Arena, ops: seq<Op>): Arena
    requires SafeRun(a, ops)
    decreases |ops|
  {
    if ops == [] then a else Run(Step(a, ops[0]), ops[1..])
  }

  lemma StepSound(a: Arena, op: Op)
    requires Sound(a) && Legal(a, op)
    ensures Sound(Step(a, op)) <==> !Lands(a, op) && !Overrun(a, op)
  {
    hide Inv, Sound, Alloc, Free, LandsOnBack, Overruns;
    match op
    case Allocate(size, align) => AllocSoundIff(a, size, align);
    case Release(idx) => FreeSound(a, idx);
  }

  lemma InitialSound(size: nat)
    requires size > 0
    ensures Sound(Initial(size))
  {}

  /** Every safe run keeps the arena sound. */
  lemma {:induction false} RunSound(a: Arena, ops: seq<Op>)
    requires Sound(a) && SafeRun(a, ops)
    ensures Sound(Run(a, ops))
    decreases |ops|
  {
    hide Sound, Legal, Lands, Overrun, Step;
    if ops != [] {
      StepSound(a, ops[0]);
      RunSound(Step(a, ops[0]), ops[1..]);
    }
  }

  // -- Bytes ------------------------------------------------------------------------------------

  /** (x + align - 1) & ~(align - 1), for an alignment that is a power of two. */
  function RoundUp(x: nat, align: nat): int
    requires align > 0
  {
    (x + align - 1) / align * align
  }

  lemma RoundUpIs(x: nat, align: nat)
    requires align > 0
    ensures x <= RoundUp(x, align) <= x + align - 1
    ensures RoundUp(x, align) % align == 0
  {
    var q := (x + align - 1) / align;
    assert x + align - 1 == align * q + (x + align - 1) % align;
    DivModUnique(q * align, align, q, 0);
  }

  /** The pointer handed out for a block, when buffer b starts at address bases[b]. */
  function Pointer(bases: seq<nat>, b: Block): int
    requires b.buffer < |bases| && b.align > 0
  {
    RoundUp(bases[b.buffer] + b.offset, b.align)
  }

  /** The parent allocator never hands out memory that is in use: buffers that have not been given back do not overlap.
      The memory of a released buffer may be that of a later one. */
  predicate BuffersApart(a: Arena, bases: seq<nat>)
    requires |bases| == |a.sizes| == |a.released|
  {
    forall i, j :: 0 <= i < |bases| && 0 <= j < |bases| && i != j && !a.released[i] && !a.released[j] ==>
      bases[i] + a.sizes[i] <= bases[j] || bases[j] + a.sizes[j] <= bases[i]
  }

  /** Block i is aligned, inside its buffer, and in a buffer that has not been released. */
  ghost predicate Holds(a: Arena, bases: seq<nat>, i: nat)
    requires |bases| == |a.sizes| == |a.released| && i in a.live
  {
    var b := a.live[i];
    && b.buffer < |bases| && b.align > 0 && !a.released[b.buffer]
    && Pointer(bases, b) % b.align == 0
    && bases[b.buffer] <= Pointer(bases, b) && Pointer(bases, b) + b.size <= bases[b.buffer] + a.sizes[b.buffer]
  }

  /** No byte belongs to two live allocations. */
  ghost predicate BytesDisjoint(a: Arena, bases: seq<nat>)
    requires |bases| == |a.sizes| == |a.released|
  {
    forall i, j :: i in a.live && j in a.live && i != j && Holds(a, bases, i) && Holds(a, bases, j) ==>
      || Pointer(bases, a.live[i]) + a.live[i].size <= Pointer(bases, a.live[j])
      || Pointer(bases, a.live[j]) + a.live[j].size <= Pointer(bases, a.live[i])
  }

  /** The bytes a block reserves lie in a buffer that has not been released. */
  ghost predicate InBuffer(a: Arena, i: nat) {
    && |a.sizes| == |a.released| && i in a.live
    && var b := a.live[i];
       && b.buffer < |a.sizes| && b.size > 0 && b.align > 0 && !a.released[b.buffer]
       && b.offset + b.Reserved() <= a.sizes[b.buffer]
  }

  lemma InBufferHolds(a: Arena, bases: seq<nat>, i: nat)
    requires InBuffer(a, i) && |bases| == |a.sizes|
    ensures Holds(a, bases, i)
    ensures var b := a.live[i];
            && bases[b.buffer] + b.offset <= Pointer(bases, b)
            && Pointer(bases, b) + b.size <= bases[b.buffer] + b.offset + b.Reserved()
  {
    hide RoundUp;
    var b := a.live[i];
    RoundUpIs(bases[b.buffer] + b.offset, b.align);
  }

  lemma PointerInside(a: Arena, bases: seq<nat>, i: nat)
    requires Inv(a) && i in a.live && |bases| == |a.sizes|
    ensures Holds(a, bases, i)
    ensures var b := a.live[i];
            && bases[b.buffer] + b.offset <= Pointer(bases, b)
            && Pointer(bases, b) + b.size <= bases[b.buffer] + b.offset + b.Reserved()
  {
    assert BlockOk(a, i);
    var b := a.live[i];
    assert i in LiveIn(a.live, b.buffer);
    assert a.counts[b.buffer] == |LiveIn(a.live, b.buffer)|;
    InBufferHolds(a, bases, i);
  }

  lemma LiveBytes(a: Arena, bases: seq<nat>)
    requires Inv(a) && |bases| == |a.sizes| && BuffersApart(a, bases)
    ensures forall i :: i in a.live ==> Holds(a, bases, i)
    ensures BytesDisjoint(a, bases)
  {
    forall i | i in a.live ensures Holds(a, bases, i) { PointerInside(a, bases, i); }
    forall i, j | i in a.live && j in a.live && i != j
      ensures || Pointer(bases, a.live[i]) + a.live[i].size <= Pointer(bases, a.live[j])
              || Pointer(bases, a.live[j]) + a.live[j].size <= Pointer(bases, a.live[i])
    {
      PointerInside(a, bases, i);
      PointerInside(a, bases, j);
      assert Apart(a.live[i], a.live[j]);
    }
  }

  /** Main result: after any safe run from the initial state, the live allocations occupy disjoint bytes, each aligned
      as asked, inside its buffer, and in a buffer that has not been released. */
  lemma LiveBytesDisjoint(size: nat, ops: seq<Op>, bases: seq<nat>)
    requires size > 0 && SafeRun(Initial(size), ops)
    requires var a := Run(Initial(size), ops);
             |bases| == |a.sizes| == |a.released| && BuffersApart(a, bases)
    ensures var a := Run(Initial(size), ops);
            Sound(a) && BytesDisjoint(a, bases) && forall i :: i in a.live ==> Holds(a, bases, i)
  {
    InitialSound(size);
    RunSound(Initial(size), ops);
    LiveBytes(Run(Initial(size), ops), bases);
  }

  // -- Landing on back --------------------------------------------------------------------------

  /** Wherever the buffers are, some byte belongs to two live allocations. */
  ghost predicate BytesShared(a: Arena) {
    |a.sizes| == |a.released| && forall bases: seq<nat> :: |bases| == |a.sizes| ==> !BytesDisjoint(a, bases)
  }

  /** Two blocks at the same place, aligned alike, share bytes. */
  lemma SamePlace(a: Arena, i: nat, j: nat)
    requires InBuffer(a, i) && InBuffer(a, j) && i != j
    requires a.live[i].buffer == a.live[j].buffer && a.live[i].offset == a.live[j].offset
    requires a.live[i].align == a.live[j].align
    ensures BytesShared(a)
  {
    hide RoundUp, Holds;
    forall bases: seq<nat> | |bases| == |a.sizes| ensures !BytesDisjoint(a, bases) {
      InBufferHolds(a, bases, i);
      InBufferHolds(a, bases, j);
      assert Pointer(bases, a.live[i]) == Pointer(bases, a.live[j]);
    }
  }

  lemma ActiveNotReleased(a: Arena)
    requires Inv(a)
    ensures !a.released[Current(a)]
  {}

  /** A landing leaves front and back equal, which reads as an empty ring. */
  lemma Landed(a: Arena, size: nat, align: nat)
    requires Shape(a) && size > 0 && align > 0 && LandsOnBack(a, size + align - 1)
    ensures var n, r := size + align - 1, Alloc(a, size, align);
            && Shape(r) && r.sizes == a.sizes && r.released == a.released && FreeSize(r) == Size(r) - 1
            && r.front == r.back == a.back == n
            && r.oldest == a.oldest && |r.slots| == |a.slots| + 1
            && r.live == a.live[a.oldest + |a.slots| := Block(Current(a), 0, size, align)]
  {
    hide FreeSize, DoubleUntil;
    var n, r := size + align - 1, Place(a, size, align);
    assert Alloc(a, size, align) == r;
    FreeSizeIs(r);
  }

  /** An allocation that fits in the ring as it is. */
  lemma AllocatedHere(a: Arena, size: nat, align: nat)
    requires Shape(a) && size > 0 && align > 0 && Fits(a, size + align - 1)
    ensures var t := Alloc(a, size, align);
            && t.sizes == a.sizes && t.released == a.released
            && t.live == a.live[a.oldest + |a.slots| :=
                                Block(Current(a), PlaceOffset(a, size + align - 1), size, align)]
  {
    hide Fits, PlaceFront, PlaceOffset, DoubleUntil;
  }

  /** What a landing costs: with blocks still live in the ring, the next allocation that fits in front of `back` is
      given the reserved bytes of the oldest of them, and the oldest's own bytes if it is aligned alike. */
  lemma LandingOverlaps(a: Arena, size: nat, align: nat, size': nat, align': nat)
    requires Inv(a) && size > 0 && align > 0 && LandsOnBack(a, size + align - 1) && a.front != a.back
    requires size' > 0 && align' > 0 && size' + align' - 1 <= Size(a) - (size + align - 1)
    ensures Shape(Alloc(a, size, align)) && a.oldest + First(a) in a.live
    ensures var t := Alloc(Alloc(a, size, align), size', align');
            !AllApart(t) && (align' == a.live[a.oldest + First(a)].align ==> BytesShared(t))
  {
    LandingNotWrapped(a, size + align - 1);
    OldestAtBack(a);
    NewIndex(a);
    ActiveNotReleased(a);
    Landed(a, size, align);
    AllocatedHere(Alloc(a, size, align), size', align');
    hide Inv, BytesShared, Alloc, LandsOnBack, Chain, LiveMatches, Counted;
    var r := Alloc(a, size, align);
    var i, j, t := a.oldest + First(a), r.oldest + |r.slots|, Alloc(r, size', align');
    LiveBelow(a, i);
    assert t.live[j] == Block(Current(a), a.back, size', align') && t.live[i] == a.live[i];
    assert !Apart(t.live[i], t.live[j]) && InBuffer(t, i) && InBuffer(t, j);
    if align' == a.live[i].align { SamePlace(t, i, j); }
  }

  lemma LiveBelow(a: Arena, i: nat)
    requires Inv(a) && i in a.live
    ensures i < a.oldest + |a.slots|
  {
    assert BlockOk(a, i);
  }

  /** On an empty ring a landing leaves its own block at the start of the ring and an empty ring behind it. A request
      that does not fit behind the block, but is no longer than it, is then given the block's reserved bytes, and its
      own bytes if it is aligned alike; it need not land. */
  lemma EmptyLandingOverlaps(a: Arena, size: nat, align: nat, size': nat, align': nat)
    requires Inv(a) && size > 0 && align > 0 && LandsOnBack(a, size + align - 1) && a.front == a.back
    requires size' > 0 && align' > 0
    requires Size(a) - (size + align - 1) < size' + align' - 1 <= size + align - 1
    ensures var r := Alloc(a, size, align);
            && Shape(r) && !AllApart(Alloc(r, size', align'))
            && (align' == align ==> BytesShared(Alloc(r, size', align')))
            && (LandsOnBack(r, size' + align' - 1) <==> size' + align' - 1 == size + align - 1)
  {
    ActiveNotReleased(a);
    Landed(a, size, align);
    AllocatedHere(Alloc(a, size, align), size', align');
    hide Inv, BytesShared, Alloc;
    var r := Alloc(a, size, align);
    var i, j, t := a.oldest + |a.slots|, r.oldest + |r.slots|, Alloc(r, size', align');
    assert t.live[j] == Block(Current(a), 0, size', align') && t.live[i] == Block(Current(a), 0, size, align);
    assert !Apart(t.live[i], t.live[j]) && InBuffer(t, i) && InBuffer(t, j);
    if align' == align { SamePlace(t, i, j); }
  }

  lemma LandingNotWrapped(a: Arena, n: nat)
    requires Inv(a) && LandsOnBack(a, n) && n > 0 && a.front != a.back
    ensures a.back < a.front
  {
    FreeSizeIs(a);
  }

  /** A ring that is not empty and has not wrapped has its oldest block at `back`. */
  lemma OldestAtBack(a: Arena)
    requires Inv(a) && a.back < a.front
    ensures First(a) < |a.slots| && a.oldest + First(a) in a.live
    ensures var b := a.live[a.oldest + First(a)];
            && b.buffer == Current(a) && b.offset == a.back && b.size > 0 && b.align > 0
            && b.offset + b.Reserved() <= Size(a)
  {
    var f := First(a);
    assert LinkAt(a, f, f) && SlotOk(a, f) && BlockOk(a, a.oldest + f);
    EndsOrdered(a, f);
  }

  const TwoBlocks := Arena([256], [2], [false], 200, 0, 0, [Slot(0, 100, 0), Slot(100, 200, 0)],
                           map[0 := Block(0, 0, 37, 64), 1 := Block(0, 100, 37, 64)])
  const OneFreed := Arena([256], [1], [false], 200, 100, 1, [Slot(100, 200, 0)], map[1 := Block(0, 100, 37, 64)])

  const OneBlock := Arena([256], [1], [false], 100, 0, 0, [Slot(0, 100, 0)], map[0 := Block(0, 0, 37, 64)])

  lemma TwoBlocksReached()
    ensures Alloc(Initial(256), 37, 64) == OneBlock && Alloc(OneBlock, 37, 64) == TwoBlocks
  {
    var a1 := Alloc(Initial(256), 37, 64);
    FirstTwoFit(Initial(256));
    assert a1 == OneBlock;
    FirstTwoFit(a1);
  }

  lemma OneOfTwoEmpty(s: seq<Slot>, back: nat)
    requires |s| == 2 && !IsLive(s[0]) && IsLive(s[1])
    ensures LeadingEmpty(s) == 1 && BumpBack(s, 0, back) == s[0].end
  {
    assert BumpBack(s, 1, s[0].end) == s[0].end;
  }

  lemma OneFreedReached()
    ensures CanFree(TwoBlocks, 0) && Free(TwoBlocks, 0) == OneFreed
  {
    assert TwoBlocks.oldest == 0;
    hide Free, CanFree;
    FreeFirstOfTwo(TwoBlocks, Slot(0, 100, 0), Slot(100, 200, 0));
    DropFirst(Block(0, 0, 37, 64), Block(0, 100, 37, 64));
  }

  lemma DropFirst(b: Block, c: Block)
    ensures map[0 := b, 1 := c] - {0} == map[1 := c]
  {}

  lemma FreeFirstOfTwo(a: Arena, s: Slot, t: Slot)
    requires Shape(a) && a.slots == [s, t] && |a.counts| == 1 && a.counts[0] == 2 && a.oldest in a.live
    requires s.buffer == t.buffer == 0 && IsLive(t) && s.begin == a.back
    ensures CanFree(a, a.oldest)
    ensures Free(a, a.oldest) ==
            a.(back := s.end, slots := [t], oldest := a.oldest + 1, counts := [1], live := a.live - {a.oldest})
  {
    var emptied := a.slots[0 := s.(begin := s.end)];
    OneOfTwoEmpty(emptied, a.back);
    assert emptied[1..] == [t] && a.counts[0 := 1] == [1];
  }

  lemma SafeStep(a: Arena, op: Op, rest: seq<Op>)
    requires Legal(a, op) && !Lands(a, op) && !Overrun(a, op) && SafeRun(Step(a, op), rest)
    ensures SafeRun(a, [op] + rest) && Run(a, [op] + rest) == Run(Step(a, op), rest)
  {
    hide Legal, Lands, Overrun, Step;
    assert ([op] + rest)[1..] == rest;
  }

  lemma FitsDoesNotLand(a: Arena, size: nat, align: nat)
    requires Shape(a) && size > 0 && align > 0 && FitsAtFront(a, size + align - 1) && |a.sizes| <= MAX_BUFFERS
    ensures Legal(a, Allocate(size, align)) && !Lands(a, Allocate(size, align)) && !Overrun(a, Allocate(size, align))
    ensures Step(a, Allocate(size, align)) == Alloc(a, size, align)
  {}

  lemma OneFreedLands(a: Arena)
    requires Shape(a) && Size(a) == 256 && a.front == 200 && a.back == 100
    ensures LandsOnBack(a, 100)
  {}

  lemma FirstTwoFit(a: Arena)
    requires Shape(a) && Size(a) == 256 && a.back == 0 && a.front <= 100
    ensures FitsAtFront(a, 100)
  {}

  /** A landing can happen: a ring of 256 bytes, two blocks of 37 bytes, the first freed, a third of the same size. */
  lemma LandingReachable()
    ensures var ops := [Allocate(37, 64)] + ([Allocate(37, 64)] + ([Release(0)] + []));
            SafeRun(Initial(256), ops) && Run(Initial(256), ops) == OneFreed
    ensures Legal(OneFreed, Allocate(37, 64)) && Lands(OneFreed, Allocate(37, 64))
  {
    hide Alloc, Free, Fits, FitsAtFront, FitsAtStart, LandsOnBack, FreeSize;
    TwoBlocksReached();
    OneFreedReached();
    var a0, a1 := Initial(256), OneBlock;
    OneFreedLands(OneFreed);
    FirstTwoFit(a0);
    FirstTwoFit(a1);
    FitsDoesNotLand(a0, 37, 64);
    FitsDoesNotLand(a1, 37, 64);
    assert Step(TwoBlocks, Release(0)) == OneFreed && SafeRun(OneFreed, []);
    hide Initial, Step, Legal;
    SafeStep(TwoBlocks, Release(0), []);
    SafeStep(a1, Allocate(37, 64), [Release(0)] + []);
    SafeStep(a0, Allocate(37, 64), [Allocate(37, 64)] + ([Release(0)] + []));
  }

  /** What a landing costs happens: two more such blocks after that run, and two live blocks share bytes. */
  lemma OverlapReachable()
    ensures var ops := [Allocate(37, 64)] + ([Allocate(37, 64)] + ([Release(0)] + []));
            && SafeRun(Initial(256), ops) && Shape(Run(Initial(256), ops))
            && Shape(Alloc(Run(Initial(256), ops), 37, 64))
            && BytesShared(Alloc(Alloc(Run(Initial(256), ops), 37, 64), 37, 64))
  {
    hide Alloc, BytesShared, SafeRun, Run, Inv, FirstLive, LandsOnBack;
    LandingReachable();
    InitialSound(256);
    RunSound(Initial(256), [Allocate(37, 64)] + ([Allocate(37, 64)] + ([Release(0)] + [])));
    LandingOverlaps(OneFreed, 37, 64, 37, 64);
  }

  // -- Running out of records -------------------------------------------------------------------

  /** k requests, each as long as the active buffer when it is made. */
  function Doubling(size: nat, k: nat): seq<Op>
    requires size >= 64
    decreases k
  {
    if k == 0 then [] else [Allocate(size - 63, 64)] + Doubling(2 * size, k - 1)
  }

  /** A ring that no more than its first half has been taken of. */
  predicate HalfTaken(a: Arena, size: int) { Shape(a) && Size(a) == size >= 64 && a.back == 0 && 2 * a.front <= size }

  /** A request as long as the buffer does not fit, and is given half of one twice as long. */
  lemma DoublesOnce(a: Arena, size: nat)
    requires HalfTaken(a, size)
    ensures var op := Allocate(size - 63, 64);
            && Legal(a, op) && !Lands(a, op) && (Overrun(a, op) <==> |a.sizes| >= MAX_BUFFERS)
            && HalfTaken(Step(a, op), 2 * size) && |Step(a, op).sizes| == |a.sizes| + 1
  {
    FreeSizeIs(a);
    var b := AddBuffer(a, 2 * size);
    assert DoubleUntil(2 * size, FreeSize(a) + size) == 2 * size;
    FreshFits(a, 2 * size, size);
    FreeSizeIs(b);
    hide DoubleUntil, FreeSize;
    assert Grown(a, size) == b;
    PlaceFrontIs(b, size);
  }

  lemma {:induction false} DoublingRun(a: Arena, size: nat, k: nat)
    requires size >= 64 && HalfTaken(a, size) && |a.sizes| + k <= MAX_BUFFERS
    ensures SafeRun(a, Doubling(size, k))
    ensures var r := Run(a, Doubling(size, k)); HalfTaken(r, size * Pow2(k)) && |r.sizes| == |a.sizes| + k
    decreases k
  {
    hide Legal, Lands, Overrun, Step, HalfTaken, Pow2;
    if k == 0 {
      TwiceAsLong(size, k);
    } else {
      var op := Allocate(size - 63, 64);
      DoublesOnce(a, size);
      DoublingRun(Step(a, op), 2 * size, k - 1);
      TwiceAsLong(size, k);
      SafeStep(a, op, Doubling(2 * size, k - 1));
    }
  }

  lemma TwiceAsLong(size: nat, k: nat)
    ensures size * Pow2(0) == size && (k > 0 ==> 2 * size * Pow2(k - 1) == size * Pow2(k))
  {
    if k > 0 { assert Pow2(k) == 2 * Pow2(k - 1); }
  }

  /** The records do run out: an arena of 1024 bytes has 16 buffers after 15 such requests, which are safe, and the next
      one, which does not land, needs one more, of 2^26 bytes. */
  lemma RecordsRunOut()
    ensures SafeRun(Initial(1024), Doubling(1024, 15))
    ensures var a := Run(Initial(1024), Doubling(1024, 15));
            var op := Allocate(0x200_0000 - 63, 64);
            && |a.sizes| == MAX_BUFFERS && Legal(a, op) && !Lands(a, op) && Overrun(a, op)
            && Shape(Step(a, op)) && Size(Step(a, op)) == 0x400_0000
  {
    hide Doubling, Run, SafeRun, Legal, Lands, Overrun, Step, Pow2;
    DoublingRun(Initial(1024), 1024, 15);
    var a := Run(Initial(1024), Doubling(1024, 15));
    Pow2Values();
    Pow2Add(7, 8);
    DoublesOnce(a, 0x200_0000);
  }
}
