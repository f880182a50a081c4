/** When the rolling arena reuses its memory: which requests are placed in the buffer there is, and where; how large a
    buffer any other is given; and when a buffer is handed back. */
module ArenaReuse {
  import opened PowersOfTwo
  import opened ArenaSpec
  import opened ArenaSafety
  import opened ArenaRuns

  /** The bytes of the ring in use. */
  function Used(a: Arena): int
    requires Shape(a)
  {
    if a.front >= a.back then a.front - a.back else a.front + Size(a) - a.back
  }

  /** The request fits between front and the end of the memory, or of the free part of it. The byte before `back` stays
      free. */
  predicate RoomAtFront(a: Arena, n: nat)
    requires Shape(a)
  {
    if a.front < a.back then n < a.back - a.front
    else if a.back == 0 then n < Size(a) - a.front
    else n <= Size(a) - a.front
  }

  /** It fits at the start of the memory, which the ring has moved on from. */
  predicate RoomAtStart(a: Arena, n: nat)
    requires Shape(a)
  {
    a.front >= a.back && n <= a.back
  }

  lemma RoomIs(a: Arena, n: nat)
    requires Shape(a)
    ensures FitsAtFront(a, n) <==> RoomAtFront(a, n)
    ensures !FitsAtFront(a, n) ==> (FitsAtStart(a, n) <==> RoomAtStart(a, n))
    ensures FreeSize(a) == Size(a) - Used(a) - 1 >= 0
  {
    FreeSizeIs(a);
  }

  /** Main result on reuse: no buffer is added exactly when there is room in front of the ring's end or, if the ring has
      not wrapped, before its beginning; and that is where the block goes, the first of the two if there is a choice. */
  lemma ReusedIff(a: Arena, size: nat, align: nat)
    requires Shape(a) && size > 0 && align > 0
    ensures var n, r := size + align - 1, Alloc(a, size, align);
            && (r.sizes == a.sizes <==> RoomAtFront(a, n) || RoomAtStart(a, n))
            && (|r.sizes| == |a.sizes| <==> r.sizes == a.sizes)
            && (RoomAtFront(a, n) || RoomAtStart(a, n) ==>
                  && a.oldest + |a.slots| in r.live && r.back == a.back
                  && var b := r.live[a.oldest + |a.slots|];
                     && b == Block(Current(a), if RoomAtFront(a, n) then a.front else 0, size, align)
                     && r.front == if b.offset + n == Size(a) then 0 else b.offset + n)
  {
    hide DoubleUntil, Used;
    var n := size + align - 1;
    DoublingFits(a, n);
    RoomIs(a, n);
    if RoomAtFront(a, n) { PlaceFrontIs(a, n); }
    if FitsAtStart(a, n) { assert RoomAtStart(a, n) || RoomAtFront(a, n); }
    hide FitsAtFront, FitsAtStart, FreeSize, RoomAtFront, RoomAtStart;
  }

  /** The least number of doublings that is enough. */
  lemma {:induction false} Doublings(size: nat, wanted: nat) returns (k: nat)
    requires size > 0
    ensures DoubleUntil(size, wanted) == size * Pow2(k) >= wanted
    ensures k > 0 ==> size * Pow2(k - 1) < wanted
    decreases wanted - size
  {
    k := 0;
    if size < wanted {
      k := Doublings(2 * size, wanted);
      PowSteps(size, k);
      k := k + 1;
    }
  }

  lemma PowSteps(size: nat, k: nat)
    ensures size * Pow2(0) == size && size * Pow2(k + 1) == 2 * size * Pow2(k)
    ensures k > 0 ==> 2 * size * Pow2(k - 1) == size * Pow2(k)
  {
    assert size * Pow2(k + 1) == size * (2 * Pow2(k));
  }

  /** Main result on growth: without room, the new buffer is the least, doubled at least once, that would hold what is
      free and the request; the block is at its start. If that is no more than the request, which takes a full ring, one
      twice as large follows. */
  lemma GrowsTo(a: Arena, size: nat, align: nat) returns (k: nat)
    requires Shape(a) && size > 0 && align > 0
    requires !RoomAtFront(a, size + align - 1) && !RoomAtStart(a, size + align - 1)
    ensures k > 0 && size + align - 1 <= Size(a) * Pow2(k)
    ensures var n, r, free, larger := size + align - 1, Alloc(a, size, align), Size(a) - Used(a) - 1, Size(a) * Pow2(k);
            && larger >= free + n && (k > 1 ==> Size(a) * Pow2(k - 1) < free + n)
            && r.sizes == a.sizes + (if n < larger then [larger] else [larger, 2 * larger])
            && (n == larger ==> free == 0)
            && r.front == n && r.back == 0
            && a.oldest + |a.slots| in r.live
            && r.live[a.oldest + |a.slots|] == Block(Current(r), 0, size, align)
  {
    hide DoubleUntil, FreeSize, FitsAtFront, FitsAtStart, RoomAtFront, RoomAtStart, PlaceFront, PlaceOffset, Pow2, Used;
    var n := size + align - 1;
    RoomIs(a, n);
    k := Doublings(Size(a) * 2, FreeSize(a) + n);
    PowSteps(Size(a), k);
    k := k + 1;
    var larger := NextSize(a, n);
    var b := AddBuffer(a, larger);
    if n < larger {
      FreshPlaced(b, n);
    } else {
      FreshPlaced(b, larger - 1);
      AlreadyEnough(2 * larger, FreeSize(b) + n);
      FreshFits(a, larger, n);
      FreshPlaced(AddBuffer(b, 2 * larger), n);
    }
  }

  /** In a buffer that is empty from the start. */
  lemma FreshPlaced(b: Arena, n: nat)
    requires Shape(b) && b.front == b.back == 0 && n < Size(b)
    ensures Fits(b, n) && PlaceOffset(b, n) == 0 && PlaceFront(b, n) == n && FreeSize(b) == Size(b) - 1
  {
    RoomIs(b, n);
  }

  lemma AlreadyEnough(size: nat, wanted: nat)
    requires size > 0 && wanted <= size
    ensures DoubleUntil(size, wanted) == size
  {}

  // -- Giving back ------------------------------------------------------------------------------

  /** Main result on release: a buffer is handed back exactly when its last block is freed and it is not active. */
  lemma ReleasedIff(a: Arena, idx: nat, b: nat)
    requires Inv(a) && idx in a.live && b < |a.sizes|
    ensures CanFree(a, idx) && |Free(a, idx).released| == |a.sizes|
    ensures var r := Free(a, idx);
            r.released[b] <==>
            || a.released[b]
            || (b == a.live[idx].buffer && b != Current(a) && forall i :: i in r.live ==> r.live[i].buffer != b)
  {
    LiveCanFree(a, idx);
    FreeInv(a, idx);
    assert BlockOk(a, idx);
    var r := Free(a, idx);
    assert r.counts[b] == |LiveIn(r.live, b)|;
    hide Chain, LiveMatches, AllApart, BumpBack;
    if i :| i in r.live && r.live[i].buffer == b { assert i in LiveIn(r.live, b); }
  }

  /** The oldest slot holds a live block. */
  predicate OldestLive(a: Arena) { a.slots == [] || IsLive(a.slots[0]) }

  lemma StepOldest(a: Arena, op: Op)
    requires Sound(a) && OldestLive(a) && Legal(a, op) && !Lands(a, op) && !Overrun(a, op)
    ensures OldestLive(Step(a, op))
  {
    StepSound(a, op);
    var r := Step(a, op);
    hide Chain, AllApart, Counted, BumpBack, Grown, PlaceFront, PlaceOffset, Lands, Overrun;
    if r.slots != [] { assert SlotOk(r, 0); }
  }

  /** No slot outlives all blocks as old as its own: after every safe run the oldest slot kept is that of a live block,
      so no slot is kept when nothing is live. */
  lemma {:induction false} RunOldest(a: Arena, ops: seq<Op>)
    requires Sound(a) && OldestLive(a) && SafeRun(a, ops)
    ensures OldestLive(Run(a, ops)) && (Run(a, ops).live == map[] ==> Run(a, ops).slots == [])
    decreases |ops|
  {
    hide Inv, Legal, Lands, Overrun, Step, OldestLive;
    if ops == [] {
      LiveUnlessEmpty(a);
    } else {
      StepSound(a, ops[0]);
      StepOldest(a, ops[0]);
      RunOldest(Step(a, ops[0]), ops[1..]);
    }
  }

  lemma LiveUnlessEmpty(a: Arena)
    requires Sound(a) && OldestLive(a)
    ensures a.live == map[] ==> a.slots == []
  {
    if a.slots != [] { assert SlotOk(a, 0); }
  }
}
