/** Safety of the rolling arena over every run: live blocks never overlap, no buffer is released while it holds one,
    and the exact condition under which an allocation breaks this. */
module ArenaSafety {
  import opened ArenaSpec

  // -- The invariant ----------------------------------------------------------------------------

  /** How far x lies ahead of `back` in the ring. */
  ghost function Rel(a: Arena, x: nat): int
    requires Shape(a)
  {
    if x >= a.back then x - a.back else x + Size(a) - a.back
  }

  /** The first slot of the active buffer, at or after k, that is still live. */
  ghost function FirstLive(slots: seq<Slot>, current: int, k: nat): (f: nat)
    requires k <= |slots|
    ensures k <= f <= |slots|
    ensures f < |slots| ==> IsLive(slots[f]) && slots[f].buffer == current
    ensures forall i :: k <= i < f ==> !(IsLive(slots[i]) && slots[i].buffer == current)
    decreases |slots| - k
  {
    if k == |slots| || (IsLive(slots[k]) && slots[k].buffer == current) then k else FirstLive(slots, current, k + 1)
  }

  ghost function First(a: Arena): (f: nat)
    ensures f <= |a.slots|
  {
    FirstLive(a.slots, Current(a), 0)
  }

  /** Where slot k's part of the ring starts: at the end of the slot before it. */
  ghost function Start(a: Arena, f: nat, k: nat): nat
    requires f <= k <= |a.slots|
  {
    if k == f then a.back else a.slots[k - 1].end
  }

  /** A block lies inside the part [begin, end) of the ring, at `begin` or, if that wraps, at 0. */
  ghost predicate InSlot(b: Block, s: Slot, size: nat) {
    if s.begin < s.end then b.offset == s.begin && s.begin + b.Reserved() == s.end
    else if s.end == 0 then b.offset == s.begin && s.begin + b.Reserved() == size
    else b.offset == 0 && b.Reserved() == s.end
  }

  /** Slot k of the active buffer goes on from the slot before it and moves strictly ahead. */
  ghost predicate LinkAt(a: Arena, f: nat, k: nat)
    requires Shape(a) && f <= k < |a.slots|
  {
    && a.slots[k].buffer == Current(a) && a.slots[k].end < Size(a)
    && Rel(a, Start(a, f, k)) < Rel(a, a.slots[k].end)
    && (IsLive(a.slots[k]) ==> a.slots[k].begin == Start(a, f, k))
  }

  /** From the first live slot on, the slots of the active buffer tile the ring from `back` to `front`. */
  ghost predicate Chain(a: Arena)
    requires Shape(a)
  {
    && Start(a, First(a), |a.slots|) == a.front
    && forall k {:trigger LinkAt(a, First(a), k)} :: First(a) <= k < |a.slots| ==> LinkAt(a, First(a), k)
  }

  ghost predicate SlotOk(a: Arena, k: nat)
    requires Shape(a) && k < |a.slots|
  {
    a.slots[k].buffer <= Current(a) && (IsLive(a.slots[k]) <==> a.oldest + k in a.live)
  }

  ghost predicate BlockOk(a: Arena, i: nat)
    requires Shape(a) && i in a.live
  {
    var b := a.live[i];
    && a.oldest <= i < a.oldest + |a.slots|
    && b.buffer == a.slots[i - a.oldest].buffer < |a.sizes|
    && b.size > 0 && b.align > 0 && b.offset + b.Reserved() <= a.sizes[b.buffer]
    && (b.buffer == Current(a) ==> InSlot(b, a.slots[i - a.oldest], Size(a)))
  }

  /** The live blocks are those of the live slots, each inside its buffer. */
  ghost predicate LiveMatches(a: Arena)
    requires Shape(a)
  {
    && (forall k {:trigger SlotOk(a, k)} :: 0 <= k < |a.slots| ==> SlotOk(a, k))
    && (forall i {:trigger BlockOk(a, i)} :: i in a.live ==> BlockOk(a, i))
  }

  ghost predicate Apart(b: Block, c: Block) {
    b.buffer != c.buffer || b.offset + b.Reserved() <= c.offset || c.offset + c.Reserved() <= b.offset
  }

  ghost predicate AllApart(a: Arena) {
    forall i, j :: i in a.live && j in a.live && i != j ==> Apart(a.live[i], a.live[j])
  }

  ghost function LiveIn(live: map<nat, Block>, b: nat): set<nat> {
    set i | i in live && live[i].buffer == b
  }

  /** Each buffer's count is the number of live blocks in it, and a released buffer has none and is not active. */
  ghost predicate Counted(a: Arena)
    requires Shape(a)
  {
    && (forall b {:trigger a.counts[b]} :: 0 <= b < |a.sizes| ==> a.counts[b] == |LiveIn(a.live, b)|)
    && (forall b {:trigger a.released[b]} :: 0 <= b < |a.sizes| && a.released[b] ==>
          a.counts[b] == 0 && b != Current(a))
  }

  ghost predicate Inv(a: Arena) {
    Shape(a) && Chain(a) && LiveMatches(a) && AllApart(a) && Counted(a)
  }

  // -- The ring ---------------------------------------------------------------------------------

  lemma FreeSizeIs(a: Arena)
    requires Shape(a)
    ensures FreeSize(a) == Size(a) - Rel(a, a.front) - 1
  {
    var d := a.front + Size(a) - a.back;
    if a.front >= a.back {
      assert d == Size(a) + (a.front - a.back);
    }
  }

  /** The new front, without the mask. */
  lemma PlaceFrontIs(a: Arena, n: nat)
    requires Shape(a) && FitsAtFront(a, n) && n > 0
    ensures PlaceFront(a, n) == if a.front + n == Size(a) then 0 else a.front + n
  {}

  /** Unless it lands on `back`, a placement moves the front strictly ahead and stays short of `back`. */
  lemma FrontAdvances(a: Arena, n: nat)
    requires Shape(a) && Fits(a, n) && n > 0
    ensures PlaceFront(a, n) < Size(a)
    ensures LandsOnBack(a, n) ==> PlaceFront(a, n) == a.back
    ensures !LandsOnBack(a, n) ==> Rel(a, a.front) < Rel(a, PlaceFront(a, n))
  {
    FreeSizeIs(a);
    if FitsAtFront(a, n) { PlaceFrontIs(a, n); }
  }

  /** Along the chain the ends only move ahead, and none passes the front. */
  lemma {:induction false} EndsOrdered(a: Arena, k: nat)
    requires Shape(a) && Chain(a) && First(a) <= k < |a.slots|
    ensures Rel(a, a.slots[k].end) <= Rel(a, a.front)
    decreases |a.slots| - k
  {
    if k + 1 < |a.slots| {
      EndsOrdered(a, k + 1);
      assert LinkAt(a, First(a), k + 1);
    }
  }

  /** The bytes of a placed block are apart from those of every live block of the active buffer. */
  lemma NewBlockApart(a: Arena, n: nat, k: nat, b: Block)
    requires Shape(a) && Chain(a) && Fits(a, n) && n > 0
    requires First(a) <= k < |a.slots| && IsLive(a.slots[k]) && InSlot(b, a.slots[k], Size(a))
    requires b.offset + b.Reserved() <= Size(a) && b.Reserved() > 0
    ensures PlaceOffset(a, n) + n <= Size(a)
    ensures b.offset + b.Reserved() <= PlaceOffset(a, n) || PlaceOffset(a, n) + n <= b.offset
  {
    FreeSizeIs(a);
    EndsOrdered(a, k);
    assert LinkAt(a, First(a), k);
    if k > First(a) { EndsOrdered(a, k - 1); }
  }

  // -- Allocation keeps the invariant, except when it lands on back -----------------------------

  lemma {:induction false} FirstLiveAppend(slots: seq<Slot>, s: Slot, current: int, k: nat)
    requires k <= |slots|
    ensures FirstLive(slots + [s], current, k) ==
            if FirstLive(slots, current, k) < |slots| then FirstLive(slots, current, k)
            else if IsLive(s) && s.buffer == current then |slots| else |slots| + 1
    decreases |slots| - k
  {
    var t := slots + [s];
    assert forall i :: 0 <= i < |slots| ==> t[i] == slots[i];
    if k == |slots| {
      assert t[k] == s;
      if !(IsLive(s) && s.buffer == current) { assert FirstLive(t, current, k + 1) == |t|; }
    } else {
      FirstLiveAppend(slots, s, current, k + 1);
    }
  }

  lemma LiveInInsert(live: map<nat, Block>, i: nat, block: Block, b: nat)
    requires i !in live
    ensures LiveIn(live[i := block], b) == if block.buffer == b then LiveIn(live, b) + {i} else LiveIn(live, b)
    ensures i !in LiveIn(live, b)
  {}

  lemma AddBufferLive(a: Arena, size: nat)
    requires Shape(a) && LiveMatches(a) && size > 0
    ensures LiveMatches(AddBuffer(a, size))
  {
    var r := AddBuffer(a, size);
    forall k | 0 <= k < |r.slots| ensures SlotOk(r, k) { assert SlotOk(a, k); }
    forall i | i in r.live ensures BlockOk(r, i) {
      assert BlockOk(a, i);
      assert SlotOk(a, i - a.oldest);
    }
  }

  lemma AddBufferCounted(a: Arena, size: nat)
    requires Shape(a) && LiveMatches(a) && Counted(a) && size > 0
    ensures Counted(AddBuffer(a, size))
  {
    var r := AddBuffer(a, size);
    forall i | i in a.live ensures a.live[i].buffer < |a.sizes| { assert BlockOk(a, i); }
    assert LiveIn(r.live, |a.sizes|) == {};
    hide LiveMatches;
    forall b {:trigger r.counts[b]} | 0 <= b < |r.sizes| ensures r.counts[b] == |LiveIn(r.live, b)| {
      if b < |a.sizes| { assert r.counts[b] == a.counts[b]; }
    }
    forall b {:trigger r.released[b]} | 0 <= b < |r.sizes| && r.released[b]
      ensures r.counts[b] == 0 && b != Current(r)
    {
      assert b < |a.sizes| && a.released[b];
    }
  }

  /** A new buffer starts with an empty ring; the blocks of the old ones stay as they are. */
  lemma AddBufferInv(a: Arena, size: nat)
    requires Inv(a) && size > 0
    ensures Inv(AddBuffer(a, size))
  {
    forall i | 0 <= i < |a.slots| ensures a.slots[i].buffer < |a.sizes| { assert SlotOk(a, i); }
    AddBufferLive(a, size);
    AddBufferCounted(a, size);
    hide LiveMatches, Counted;
  }

  lemma GrownInv(a: Arena, n: nat)
    requires Inv(a)
    ensures Inv(Grown(a, n)) && Grown(a, n).live == a.live
    ensures !LandsOnBack(a, n) && n > 0 ==> !LandsOnBack(Grown(a, n), n)
  {
    if !Fits(a, n) {
      AddBufferInv(a, NextSize(a, n));
      var b := AddBuffer(a, NextSize(a, n));
      if !Fits(b, n) { AddBufferInv(b, NextSize(b, n)); }
    }
  }

  lemma PlaceFirst(a: Arena, size: nat, align: nat)
    requires Shape(a) && size > 0 && align > 0 && Fits(a, size + align - 1) && !LandsOnBack(a, size + align - 1)
    ensures Shape(Place(a, size, align))
    ensures First(Place(a, size, align)) == First(a)
  {
    FrontAdvances(a, size + align - 1);
    FirstLiveAppend(a.slots, Slot(a.front, PlaceFront(a, size + align - 1), Current(a)), Current(a), 0);
  }

  lemma PlaceChain(a: Arena, size: nat, align: nat)
    requires Shape(a) && Chain(a)
    requires size > 0 && align > 0 && Fits(a, size + align - 1) && !LandsOnBack(a, size + align - 1)
    ensures Shape(Place(a, size, align)) && Chain(Place(a, size, align))
  {
    var n, r := size + align - 1, Place(a, size, align);
    FrontAdvances(a, n);
    PlaceFirst(a, size, align);
    var f := First(a);
    assert Start(a, f, |a.slots|) == a.front;
    hide FirstLive, Fits, FitsAtFront, FitsAtStart, PlaceFront, LandsOnBack;
    forall k | f <= k < |r.slots| ensures LinkAt(r, f, k) {
      assert Start(r, f, k) == Start(a, f, k);
      if k < |a.slots| { assert LinkAt(a, f, k) && r.slots[k] == a.slots[k]; }
    }
  }

  lemma PlaceInSlot(a: Arena, size: nat, align: nat)
    requires Shape(a) && size > 0 && align > 0 && Fits(a, size + align - 1) && !LandsOnBack(a, size + align - 1)
    ensures InSlot(Block(Current(a), PlaceOffset(a, size + align - 1), size, align),
                   Slot(a.front, PlaceFront(a, size + align - 1), Current(a)), Size(a))
    ensures a.front != PlaceFront(a, size + align - 1)
  {
    var n := size + align - 1;
    FreeSizeIs(a);
    if FitsAtFront(a, n) { PlaceFrontIs(a, n); }
  }

  lemma PlaceLive(a: Arena, size: nat, align: nat)
    requires Shape(a) && LiveMatches(a)
    requires size > 0 && align > 0 && Fits(a, size + align - 1) && !LandsOnBack(a, size + align - 1)
    ensures LiveMatches(Place(a, size, align))
  {
    var r, idx := Place(a, size, align), a.oldest + |a.slots|;
    PlaceInSlot(a, size, align);
    hide Fits, FitsAtFront, FitsAtStart, PlaceFront, LandsOnBack, PlaceOffset, InSlot;
    NewIndex(a);
    assert r.slots[|a.slots|].buffer == Current(a) && IsLive(r.slots[|a.slots|]);
    forall k | 0 <= k < |r.slots| ensures SlotOk(r, k) {
      if k < |a.slots| { assert SlotOk(a, k) && r.slots[k] == a.slots[k]; }
    }
    forall i | i in r.live ensures BlockOk(r, i) {
      if i != idx { assert BlockOk(a, i) && r.slots[i - a.oldest] == a.slots[i - a.oldest]; }
    }
  }

  lemma NewIndex(a: Arena)
    requires Shape(a) && LiveMatches(a)
    ensures a.oldest + |a.slots| !in a.live
  {
    assert a.oldest + |a.slots| in a.live ==> BlockOk(a, a.oldest + |a.slots|);
  }

  lemma PlaceApart(a: Arena, size: nat, align: nat)
    requires Inv(a) && size > 0 && align > 0 && Fits(a, size + align - 1)
    ensures AllApart(Place(a, size, align))
  {
    var n, r, idx := size + align - 1, Place(a, size, align), a.oldest + |a.slots|;
    NewIndex(a);
    forall i | i in a.live ensures Apart(a.live[i], r.live[idx]) {
      assert BlockOk(a, i);
      var k := i - a.oldest;
      assert SlotOk(a, k);
      if a.live[i].buffer == Current(a) {
        assert k >= First(a);
        NewBlockApart(a, n, k, a.live[i]);
      }
    }
  }

  lemma PlaceCounted(a: Arena, size: nat, align: nat)
    requires Inv(a) && size > 0 && align > 0 && Fits(a, size + align - 1)
    ensures Shape(Place(a, size, align)) ==> Counted(Place(a, size, align))
  {
    var r, idx := Place(a, size, align), a.oldest + |a.slots|;
    NewIndex(a);
    forall b {:trigger r.counts[b]} | 0 <= b < |r.sizes| ensures r.counts[b] == |LiveIn(r.live, b)| {
      LiveInInsert(a.live, idx, r.live[idx], b);
      assert a.counts[b] == |LiveIn(a.live, b)|;
    }
    forall b {:trigger r.released[b]} | 0 <= b < |r.sizes| && r.released[b]
      ensures r.counts[b] == 0 && b != Current(r)
    {
      assert a.released[b];
    }
  }

  lemma PlaceInv(a: Arena, size: nat, align: nat)
    requires Inv(a) && size > 0 && align > 0 && Fits(a, size + align - 1) && !LandsOnBack(a, size + align - 1)
    ensures Inv(Place(a, size, align))
  {
    PlaceChain(a, size, align);
    PlaceLive(a, size, align);
    PlaceApart(a, size, align);
    PlaceCounted(a, size, align);
  }

  /** A placement that lands on `back` leaves front == back, which reads as an empty ring while a block is live. */
  lemma LandingBreaks(a: Arena, size: nat, align: nat)
    requires Inv(a) && size > 0 && align > 0 && LandsOnBack(a, size + align - 1)
    ensures !Inv(Place(a, size, align))
  {
    var n, r, idx := size + align - 1, Place(a, size, align), a.oldest + |a.slots|;
    FrontAdvances(a, n);
    var s := Slot(a.front, PlaceFront(a, n), Current(a));
    assert r.slots[|a.slots|] == s && r.oldest + |a.slots| == idx && idx in r.live;
    FirstLiveAppend(a.slots, s, Current(a), 0);
    if a.front == a.back {
      assert !SlotOk(r, |a.slots|);
    } else {
      assert First(r) <= |a.slots|;
      assert !LinkAt(r, First(r), |a.slots|);
    }
  }

  lemma LandingFits(a: Arena, n: nat)
    requires Shape(a) && LandsOnBack(a, n)
    ensures Fits(a, n)
  {}

  /** Main result for allocation: it keeps the invariant exactly when it does not land on `back`. */
  lemma AllocInvIff(a: Arena, size: nat, align: nat)
    requires Inv(a) && size > 0 && align > 0
    ensures Inv(Alloc(a, size, align)) <==> !LandsOnBack(a, size + align - 1)
  {
    hide Chain, LiveMatches, AllApart, Counted, Fits, Grown, Place, LandsOnBack;
    var n := size + align - 1;
    DoublingFits(a, n);
    if LandsOnBack(a, n) {
      LandingFits(a, n);
      LandingBreaks(a, size, align);
    } else {
      GrownInv(a, n);
      PlaceInv(Grown(a, n), size, align);
    }
  }

  // -- Freeing keeps the invariant --------------------------------------------------------------

  /** A live block can always be freed. */
  lemma LiveCanFree(a: Arena, idx: nat)
    requires Inv(a) && idx in a.live
    ensures CanFree(a, idx)
  {
    assert BlockOk(a, idx);
    var b := a.live[idx].buffer;
    assert idx in LiveIn(a.live, b);
    assert a.counts[b] == |LiveIn(a.live, b)|;
  }

  /** The slots after slot k is emptied. */
  ghost function Emptied(slots: seq<Slot>, k: nat): (r: seq<Slot>)
    requires k < |slots|
    ensures |r| == |slots| && !IsLive(r[k]) && r[k].end == slots[k].end && r[k].buffer == slots[k].buffer
    ensures forall i :: 0 <= i < |slots| && i != k ==> r[i] == slots[i]
  {
    slots[k := slots[k].(begin := slots[k].end)]
  }

  /** The state between emptying the slot and dropping empty slots from the old end of the queue. */
  ghost function Unlinked(a: Arena, idx: nat): Arena
    requires CanFree(a, idx)
  {
    var k := idx - a.oldest;
    Free(a, idx).(slots := Emptied(a.slots, k), oldest := a.oldest)
  }

  /** The chain starts at the freed slot exactly when that slot begins at `back`. */
  lemma OldestOfRing(a: Arena, k: nat)
    requires Shape(a) && Chain(a) && k < |a.slots| && IsLive(a.slots[k]) && a.slots[k].buffer == Current(a)
    ensures First(a) <= k
    ensures a.slots[k].begin == a.back <==> k == First(a)
  {
    assert LinkAt(a, First(a), k);
    if k > First(a) { assert LinkAt(a, First(a), k - 1); }
  }

  /** Bumping `back` over the empty slots of the active buffer takes it to where the next live slot starts. */
  lemma {:induction false} BumpStops(slots: seq<Slot>, current: int, k: nat, back: nat)
    requires k <= |slots| && forall i :: k <= i < |slots| ==> slots[i].buffer == current
    ensures var f := FirstLive(slots, current, k);
            BumpBack(slots, k, back) == if f == k then back else slots[f - 1].end
    decreases |slots| - k
  {
    if k < |slots| && !IsLive(slots[k]) { BumpStops(slots, current, k + 1, slots[k].end); }
  }

  lemma {:induction false} EndsIncrease(a: Arena, j: nat, k: nat)
    requires Shape(a) && Chain(a) && First(a) <= j <= k < |a.slots|
    ensures Rel(a, a.slots[j].end) <= Rel(a, a.slots[k].end)
    decreases k
  {
    if j < k {
      EndsIncrease(a, j, k - 1);
      assert LinkAt(a, First(a), k);
    }
  }

  /** If the freed slot was not the oldest of the ring, the chain loses a block but no link. */
  lemma UnlinkedChainSame(a: Arena, idx: nat)
    requires Inv(a) && idx in a.live && CanFree(a, idx)
    requires First(a) != idx - a.oldest
    ensures Unlinked(a, idx).back == a.back && Chain(Unlinked(a, idx))
  {
    var k, r := idx - a.oldest, Unlinked(a, idx);
    assert SlotOk(a, k);
    if a.slots[k].buffer == Current(a) { OldestOfRing(a, k); }
    var f := First(a);
    assert First(r) == f;
    forall j | f <= j < |r.slots| ensures LinkAt(r, f, j) { assert LinkAt(a, f, j); }
  }

  /** If it was, the chain starts again at the next live slot, and `back` is where that starts. */
  lemma NextStart(a: Arena, idx: nat)
    requires Inv(a) && idx in a.live && CanFree(a, idx) && First(a) == idx - a.oldest
    ensures var r, k, f := Unlinked(a, idx), idx - a.oldest, First(Unlinked(a, idx));
            && k < f <= |r.slots| == |a.slots| && r.back == a.slots[f - 1].end < Size(a) && LinkAt(a, k, f - 1)
            && forall i :: f <= i < |r.slots| ==> r.slots[i] == a.slots[i]
  {
    hide LiveMatches, AllApart, Counted, Free, Unlinked, BumpBack, Emptied;
    var k, r := idx - a.oldest, Unlinked(a, idx);
    UnlinkedIs(a, idx);
    assert First(r) == FirstLive(r.slots, Current(a), k) > k;
    hide FirstLive;
    forall i | k <= i < |r.slots| ensures r.slots[i].buffer == Current(a) { assert LinkAt(a, k, i); }
    BumpStops(r.slots, Current(a), k, a.back);
    assert LinkAt(a, k, First(r) - 1);
  }

  lemma UnlinkedIs(a: Arena, idx: nat)
    requires Shape(a) && Chain(a) && LiveMatches(a) && idx in a.live && CanFree(a, idx) && First(a) == idx - a.oldest
    ensures var r, k := Unlinked(a, idx), First(a);
            && r.slots == Emptied(a.slots, k) && r.sizes == a.sizes && r.back == BumpBack(r.slots, k, a.back)
  {
    hide FirstLive, BumpBack, LeadingEmpty, LinkAt;
    assert SlotOk(a, idx - a.oldest);
    OldestOfRing(a, idx - a.oldest);
  }

  lemma UnlinkedChainNext(a: Arena, idx: nat)
    requires Inv(a) && idx in a.live && CanFree(a, idx) && First(a) == idx - a.oldest
    ensures Shape(Unlinked(a, idx)) && Chain(Unlinked(a, idx))
  {
    hide LiveMatches, AllApart, Counted, FirstLive, BumpBack, LinkAt, LeadingEmpty;
    NextStart(a, idx);
    var r, f: nat := Unlinked(a, idx), First(Unlinked(a, idx));
    assert r.sizes == a.sizes && r.front == a.front;
    forall j | f <= j < |r.slots| ensures LinkAt(r, f, j) { LinkAhead(a, r, First(a), f, j); }
  }

  /** A link ahead of the new `back` is a link of the shortened chain. */
  lemma LinkAhead(a: Arena, r: Arena, k: nat, f: nat, j: nat)
    requires Shape(a) && Shape(r) && Chain(a) && k == First(a) < f <= j < |a.slots|
    requires r.sizes == a.sizes && |r.slots| == |a.slots| && r.back == a.slots[f - 1].end
    requires forall i :: f <= i < |r.slots| ==> r.slots[i] == a.slots[i]
    ensures LinkAt(r, f, j)
  {
    assert LinkAt(a, k, j) && LinkAt(a, k, j - 1) && LinkAt(a, k, f - 1);
    EndsIncrease(a, f - 1, j - 1);
  }

  lemma UnlinkedLive(a: Arena, idx: nat)
    requires Inv(a) && idx in a.live && CanFree(a, idx) && Shape(Unlinked(a, idx))
    ensures LiveMatches(Unlinked(a, idx))
  {
    var r := Unlinked(a, idx);
    forall j | 0 <= j < |r.slots| ensures SlotOk(r, j) { assert SlotOk(a, j); }
    forall i | i in r.live ensures BlockOk(r, i) { assert BlockOk(a, i); }
  }

  lemma LiveInRemove(live: map<nat, Block>, i: nat, b: nat)
    requires i in live
    ensures LiveIn(live - {i}, b) == if live[i].buffer == b then LiveIn(live, b) - {i} else LiveIn(live, b)
    ensures live[i].buffer == b ==> i in LiveIn(live, b)
  {}

  lemma UnlinkedCounted(a: Arena, idx: nat)
    requires Inv(a) && idx in a.live && CanFree(a, idx) && Shape(Unlinked(a, idx))
    ensures Counted(Unlinked(a, idx))
  {
    var r := Unlinked(a, idx);
    assert BlockOk(a, idx);
    forall b {:trigger r.counts[b]} | 0 <= b < |r.sizes| ensures r.counts[b] == |LiveIn(r.live, b)| {
      assert a.counts[b] == |LiveIn(a.live, b)|;
      LiveInRemove(a.live, idx, b);
    }
    forall b {:trigger r.released[b]} | 0 <= b < |r.sizes| && r.released[b]
      ensures r.counts[b] == 0 && b != Current(r)
    {
      if a.released[b] { assert a.counts[b] == 0; }
    }
  }

  // -- Dropping empty slots from the old end ----------------------------------------------------

  lemma DropFirst(a: Arena, d: nat)
    requires d <= |a.slots| && forall i :: 0 <= i < d ==> !IsLive(a.slots[i])
    ensures First(a) >= d && FirstLive(a.slots[d..], Current(a), 0) == First(a) - d
  {}

  lemma DropChain(a: Arena, r: Arena, d: nat)
    requires Shape(a) && Chain(a) && d <= |a.slots| && forall i :: 0 <= i < d ==> !IsLive(a.slots[i])
    requires r == a.(slots := a.slots[d..], oldest := a.oldest + d)
    ensures Chain(r)
  {
    hide FirstLive;
    DropFirst(a, d);
    var f, f': nat := First(a), First(a) - d;
    assert First(r) == f';
    forall j | f' <= j < |r.slots| ensures LinkAt(r, f', j) {
      assert LinkAt(a, f, j + d) && r.slots[j] == a.slots[j + d];
      assert j > f' ==> r.slots[j - 1] == a.slots[j + d - 1];
    }
  }

  /** Empty slots at the old end of the queue carry nothing. */
  lemma DropInv(a: Arena, d: nat)
    requires Inv(a) && d <= |a.slots| && forall i :: 0 <= i < d ==> !IsLive(a.slots[i])
    ensures Inv(a.(slots := a.slots[d..], oldest := a.oldest + d))
  {
    hide Chain, LiveMatches, Apart, LiveIn;
    var r := a.(slots := a.slots[d..], oldest := a.oldest + d);
    DropChain(a, r, d);
    DropLive(a, r, d);
  }

  lemma DropLive(a: Arena, r: Arena, d: nat)
    requires Shape(a) && LiveMatches(a) && d <= |a.slots| && forall i :: 0 <= i < d ==> !IsLive(a.slots[i])
    requires r == a.(slots := a.slots[d..], oldest := a.oldest + d)
    ensures LiveMatches(r)
  {
    forall j | 0 <= j < |r.slots| ensures SlotOk(r, j) { assert SlotOk(a, j + d) && r.slots[j] == a.slots[j + d]; }
    forall i | i in r.live ensures BlockOk(r, i) {
      assert BlockOk(a, i) && SlotOk(a, i - a.oldest);
      assert i - a.oldest >= d;
      assert r.slots[i - r.oldest] == a.slots[i - a.oldest];
    }
  }

  /** Main result for freeing: it keeps the invariant. */
  lemma FreeInv(a: Arena, idx: nat)
    requires Inv(a) && idx in a.live
    ensures CanFree(a, idx) && Inv(Free(a, idx))
  {
    LiveCanFree(a, idx);
    var k, u := idx - a.oldest, Unlinked(a, idx);
    if First(a) == k { UnlinkedChainNext(a, idx); } else { UnlinkedChainSame(a, idx); }
    UnlinkedLive(a, idx);
    UnlinkedCounted(a, idx);
    hide Chain, LiveMatches, Counted, First, BumpBack;
    assert Inv(u);
    var d := if k == 0 then LeadingEmpty(u.slots) else 0;
    DropInv(u, d);
    assert Free(a, idx) == u.(slots := u.slots[d..], oldest := u.oldest + d);
  }

  // -- Buffer records ---------------------------------------------------------------------------

  /** The invariant, and a record for every buffer. */
  ghost predicate Sound(a: Arena) { Inv(a) && |a.sizes| <= MAX_BUFFERS }

  /** An allocation of n bytes adds a buffer for which there is no record left. */
  predicate Overruns(a: Arena, n: nat)
    requires Shape(a)
  {
    |Grown(a, n).sizes| > MAX_BUFFERS
  }

  /** Main result for whole arenas: an allocation keeps an arena sound exactly when it neither lands on `back` nor runs
      out of records. */
  lemma AllocSoundIff(a: Arena, size: nat, align: nat)
    requires Sound(a) && size > 0 && align > 0
    ensures Sound(Alloc(a, size, align)) <==>
            !LandsOnBack(a, size + align - 1) && !Overruns(a, size + align - 1)
  {
    hide Chain, LiveMatches, AllApart, Counted, Grown, LandsOnBack, PlaceFront, PlaceOffset, Fits;
    DoublingFits(a, size + align - 1);
    AllocInvIff(a, size, align);
  }

  lemma FreeSound(a: Arena, idx: nat)
    requires Sound(a) && idx in a.live
    ensures CanFree(a, idx) && Sound(Free(a, idx))
  {
    hide Inv, BumpBack, LeadingEmpty, CanFree;
    FreeInv(a, idx);
  }
}
