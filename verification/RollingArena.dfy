/** The rolling arena object of src/common/src/rolling_arena.c, with its slot ring and its buffers, refining ArenaSpec.
    Slot counts and buffer sizes are powers of two in the source, so a mask is a remainder. */
module RollingArena {
  import opened ArenaSpec


  /** The slots of a ring, from `back` on. */
  ghost function RingOf(slots: seq<Slot>, back: nat, n: nat): (q: seq<Slot>)
    requires back < |slots| && n < |slots|
    ensures |q| == n
    ensures forall k :: 0 <= k < n ==> q[k] == slots[Wrap(back + k, |slots|)]
  {
    seq(n, k requires 0 <= k < n => slots[Wrap(back + k, |slots|)])
  }

  /** x & (count - 1), for x below twice the count: one step around the ring. */
  function Wrap(x: nat, count: nat): (r: nat)
    requires x < 2 * count
    ensures r < count
  {
    if x < count then x else x - count
  }

  class LdcMemoryAllocatorRollingArena {
    var slots: array<Slot>
    var slotFront: nat
    var slotBack: nat
    var allocationIndexNext: nat
    var allocationIndexOldest: nat
    var sizes: seq<nat>
    var counts: seq<nat>
    var released: seq<bool>
    var bufferFront: nat
    var bufferBack: nat
    ghost var live: map<nat, Block>

    ghost predicate SlotsValid()
      reads this, slots
    {
      && slotFront < slots.Length && slotBack < slots.Length
      && allocationIndexOldest <= allocationIndexNext < allocationIndexOldest + slots.Length
      && slotFront == Wrap(slotBack + (allocationIndexNext - allocationIndexOldest), slots.Length)
    }

    ghost function Queue(): (q: seq<Slot>)
      requires SlotsValid()
      reads this, slots
      ensures |q| == allocationIndexNext - allocationIndexOldest
    {
      RingOf(slots[..], slotBack, allocationIndexNext - allocationIndexOldest)
    }

    ghost predicate Valid()
      reads this, slots
    {
      SlotsValid() && Shape(State())
    }

    ghost function State(): Arena
      requires SlotsValid()
      reads this, slots
    {
      Arena(sizes, counts, released, bufferFront, bufferBack, allocationIndexOldest, Queue(), live)
    }

    constructor (initialCount: nat, initialSize: nat)
      requires initialCount > 0 && initialSize > 0
      ensures Valid() && fresh(slots)
      ensures State() == Arena([initialSize], [0], [false], 0, 0, 0, [], map[])
    {
      slots := new Slot[initialCount](i => Slot(0, 0, 0));
      slotFront, slotBack, allocationIndexNext, allocationIndexOldest := 0, 0, 0, 0;
      sizes, counts, released, bufferFront, bufferBack := [initialSize], [0], [false], 0, 0;
      live := map[];
    }

    /** rollingArenaDoubleSlots: the map from allocation index to slot is unchanged, wrapped or not. */
    method DoubleSlots()
      requires SlotsValid() && allocationIndexNext - allocationIndexOldest == slots.Length - 1
      modifies this`slots, this`slotFront
      ensures SlotsValid() && fresh(slots) && slots.Length == 2 * old(slots.Length)
      ensures Queue() == old(Queue())
    {
      var count := slots.Length;
      var newSlots := new Slot[2 * count](i => Slot(0, 0, 0));
      CopySlots(slots, newSlots, 0, count);
      if slotFront < slotBack {
        CopySlots(slots, newSlots, count, slotFront);
        slotFront := slotFront + count;
      }
      slots := newSlots;
    }

    method CopySlots(from: array<Slot>, to: array<Slot>, at: nat, n: nat)
      requires from != to && n <= from.Length && at + n <= to.Length
      modifies to
      ensures forall i :: 0 <= i < to.Length ==> to[i] == if at <= i < at + n then from[i - at] else old(to[i])
    {
      for k := 0 to n
        invariant forall i :: 0 <= i < to.Length ==> to[i] == if at <= i < at + k then from[i - at] else old(to[i])
      {
        to[at + k] := from[k];
      }
    }

    /** rollingArenaAddBuffer. The buffer is added whether or not there is a record left for it; that there is none is
        only logged, and the record is then one that lies outside the array of records. */
    method AddBuffer(bufferSize: nat) returns (recorded: bool)
      requires Valid() && bufferSize > 0
      modifies this`sizes, this`counts, this`released, this`bufferFront, this`bufferBack
      ensures Valid() && recorded == (|old(sizes)| < MAX_BUFFERS)
      ensures State() == ArenaSpec.AddBuffer(old(State()), bufferSize)
    {
      recorded := |sizes| < MAX_BUFFERS;
      sizes, counts, released := sizes + [bufferSize], counts + [0], released + [false];
      bufferFront, bufferBack := 0, 0;
    }

    /** Takes n bytes of the active buffer if they fit, in front of the ring or at its start. */
    method TryPlace(n: nat) returns (found: bool, offset: nat, oldBufferFront: nat)
      requires Valid() && n > 0
      modifies this`bufferFront
      ensures found == Fits(old(State()), n)
      ensures if found then Taken(old(State()), n, State(), offset, oldBufferFront) else State() == old(State())
    {
      oldBufferFront := bufferFront;
      var bufferSize := sizes[|sizes| - 1];
      var freeSize := bufferSize - (bufferFront + bufferSize - bufferBack) % bufferSize - 1;
      found, offset := true, 0;
      if freeSize >= n && bufferSize - bufferFront >= n {
        offset := bufferFront;
        bufferFront := (bufferFront + n) % bufferSize;
      } else if freeSize >= n && bufferBack >= n {
        bufferFront := n;
      } else {
        found := false;
      }
    }

    /** Adds a buffer large enough to be worth trying again. */
    method AddLarger(n: nat) returns (recorded: bool)
      requires Valid()
      modifies this`sizes, this`counts, this`released, this`bufferFront, this`bufferBack
      ensures Valid() && recorded == (|old(sizes)| < MAX_BUFFERS)
      ensures State() == ArenaSpec.AddBuffer(old(State()), NextSize(old(State()), n))
    {
      var bufferSize := sizes[|sizes| - 1];
      var freeSize := bufferSize - (bufferFront + bufferSize - bufferBack) % bufferSize - 1;
      var nextSize := DoubleSize(bufferSize, freeSize + n);
      recorded := AddBuffer(nextSize);
    }

    /** The loop of internalAllocate: finds room for n bytes, adding larger buffers until they fit. */
    method FindRoom(n: nat) returns (recorded: bool, offset: nat, oldBufferFront: nat)
      requires Valid() && n > 0
      modifies this`sizes, this`counts, this`released, this`bufferFront, this`bufferBack
      ensures SlotsValid() && Queue() == old(Queue())
      ensures recorded == (|Grown(old(State()), n).sizes| <= MAX_BUFFERS || Fits(old(State()), n))
      ensures Taken(Grown(old(State()), n), n, State(), offset, oldBufferFront)
    {
      ghost var a, adds: nat := State(), 0;
      TrialGrown(a, n, 0);
      hide Grown, Fits, Taken;
      var found;
      found, offset, oldBufferFront := TryPlace(n);
      recorded := true;
      while !found
        invariant SlotsValid() && Queue() == a.slots && adds <= 2
        invariant recorded == (adds == 0 || |a.sizes| + adds <= MAX_BUFFERS)
        invariant forall i :: 0 <= i < adds ==> !Fits(Trial(a, n, i), n)
        invariant if found then Fits(Trial(a, n, adds), n) && Taken(Grown(a, n), n, State(), offset, oldBufferFront)
                  else !Fits(Trial(a, n, adds), n) && State() == Trial(a, n, adds)
        decreases 2 - adds
      {
        TrialGrown(a, n, adds);
        recorded := AddLarger(n);
        adds := adds + 1;
        TrialGrown(a, n, adds);
        found, offset, oldBufferFront := TryPlace(n);
      }
      TrialGrown(a, n, adds);
    }

    /** Doubles the ring if one more slot would fill it. */
    method MakeRoom()
      requires SlotsValid()
      modifies this`slots, this`slotFront
      ensures SlotsValid() && (slots == old(slots) || fresh(slots))
      ensures Queue() == old(Queue()) && |Queue()| + 1 < slots.Length
    {
      if Wrap(slotFront + 1, slots.Length) == slotBack {
        DoubleSlots();
      }
    }

    /** Takes the next slot of the ring for s. */
    method PushSlot(s: Slot) returns (index: nat)
      requires SlotsValid() && |Queue()| + 1 < slots.Length
      modifies this`slotFront, this`allocationIndexNext, slots
      ensures SlotsValid()
      ensures index == old(allocationIndexNext) && allocationIndexNext == index + 1
      ensures Queue() == old(Queue()) + [s]
    {
      index := allocationIndexNext;
      var slot := slotFront;
      allocationIndexNext := allocationIndexNext + 1;
      slotFront := Wrap(slotFront + 1, slots.Length);
      slots[slot] := s;
    }

    /** internalAllocate. The block is where the pointer handed out lies before it is rounded up; `recorded` says that
        every buffer added has a record. */
    method Allocate(size: nat, alignment: nat) returns (recorded: bool, index: nat, block: Block)
      requires Valid() && size > 0
      modifies this, slots
      ensures (slots == old(slots) || fresh(slots))
      ensures recorded == (|Grown(old(State()), size + Align(alignment) - 1).sizes| <= MAX_BUFFERS
                           || Fits(old(State()), size + Align(alignment) - 1))
      ensures Valid() && State() == Alloc(old(State()), size, Align(alignment))
      ensures index == old(allocationIndexNext) && index in live && live[index] == block
      ensures block.size == size && block.align == if alignment > 64 then alignment else 64
    {
      hide Grown, Fits, PlaceFront, PlaceOffset, DoubleUntil, RingOf, Wrap;
      ghost var a := State();
      var align := Align(alignment);
      var n := size + align - 1;
      var offset, oldBufferFront;
      recorded, offset, oldBufferFront := FindRoom(n);
      ghost var g := Grown(a, n);
      DoublingFits(a, n);
      block := Block(|sizes| - 1, offset, size, align);
      index := Record(Slot(oldBufferFront, bufferFront, |sizes| - 1), block);
      AllocIs(a, size, align, g, State());
    }

    /** The end of internalAllocate: a slot for the allocation, and its buffer's count. */
    method Record(slot: Slot, block: Block) returns (index: nat)
      requires SlotsValid() && |sizes| == |counts| > 0
      modifies this`slots, this`slotFront, this`allocationIndexNext, this`counts, this`live, slots
      ensures SlotsValid() && (slots == old(slots) || fresh(slots)) && index == old(allocationIndexNext)
      ensures State() == old(State()).(slots := old(Queue()) + [slot],
                                       counts := old(counts)[|sizes| - 1 := old(counts)[|sizes| - 1] + 1],
                                       live := old(live)[index := block])
    {
      hide RingOf, Wrap;
      MakeRoom();
      index := PushSlot(slot);
      counts := counts[|sizes| - 1 := counts[|sizes| - 1] + 1];
      live := live[index := block];
    }

    /** Marks the slot of allocation oldest + k as empty. */
    method ClearSlot(slot: nat, ghost k: nat)
      requires SlotsValid() && k < |Queue()| && slot == Wrap(k + slotBack, slots.Length)
      modifies slots
      ensures SlotsValid()
      ensures Queue() == old(Queue())[k := old(Queue())[k].(begin := old(Queue())[k].end)]
    {
      slots[slot] := slots[slot].(begin := slots[slot].end);
    }

    /** Moves bufferBack over the empty slots from `slot` on, which is that of allocation oldest + k. */
    method BumpBufferBack(slot: nat, ghost k: nat)
      requires SlotsValid() && k < |Queue()| && slot == Wrap(slotBack + k, slots.Length)
      modifies this`bufferBack
      ensures bufferBack == BumpBack(Queue(), k, old(bufferBack))
    {
      hide RingOf, Wrap, BumpBack;
      var s := slot;
      ghost var j, q := k, Queue();
      while s != slotFront && slots[s].begin == slots[s].end
        invariant k <= j <= |q| && SlotsValid() && Queue() == q
        invariant s == Wrap(slotBack + j, slots.Length) && s < slots.Length
        invariant BumpBack(q, j, bufferBack) == BumpBack(q, k, old(bufferBack))
        decreases |q| - j
      {
        WrapNext(slotBack, j, |q|, slots.Length);
        QueueAt(j);
        BumpOne(q, j, bufferBack);
        bufferBack := slots[s].end;
        s := Wrap(s + 1, slots.Length);
        j := j + 1;
      }
      WrapNext(slotBack, j, |q|, slots.Length);
      if j < |q| { QueueAt(j); }
      BumpOne(q, j, bufferBack);
    }

    /** Drops the empty slots at the old end of the ring. */
    method BumpSlotBack()
      requires SlotsValid()
      modifies this`slotBack, this`allocationIndexOldest
      ensures SlotsValid() && Queue() == old(Queue())[LeadingEmpty(old(Queue()))..]
      ensures allocationIndexOldest == old(allocationIndexOldest) + LeadingEmpty(old(Queue()))
    {
      ghost var q, d: nat := Queue(), 0;
      while slotBack != slotFront && slots[slotBack].begin == slots[slotBack].end
        invariant d <= |q| && SlotsValid() && Queue() == q[d..]
        invariant allocationIndexOldest == old(allocationIndexOldest) + d
        invariant forall i :: 0 <= i < d ==> !IsLive(q[i])
        invariant LeadingEmptyFrom(q, d) == LeadingEmpty(q)
        decreases |q| - d
      {
        d := AdvanceSlotBack(q, d);
      }
      assert d < |q| ==> q[d] == Queue()[0];
    }

    method AdvanceSlotBack(ghost q: seq<Slot>, ghost d: nat) returns (ghost d': nat)
      requires SlotsValid() && slotBack != slotFront && d <= |q| && Queue() == q[d..] && !IsLive(slots[slotBack])
      modifies this`slotBack, this`allocationIndexOldest
      ensures d' == d + 1 <= |q| && !IsLive(q[d]) && SlotsValid() && Queue() == q[d + 1..]
      ensures allocationIndexOldest == old(allocationIndexOldest) + 1
    {
      assert q[d] == Queue()[0];
      slotBack := Wrap(slotBack + 1, slots.Length);
      allocationIndexOldest := allocationIndexOldest + 1;
      d' := d + 1;
      assert q[d..][1..] == q[d + 1..];
    }

    /** The first half of internalFree: empties the slot of allocation oldest + k and gives its bytes back to the
        ring. */
    method ReleaseSlot(ghost k: nat, slot: nat)
      requires SlotsValid() && |sizes| > 0 && k < |Queue()| && slot == Wrap(k + slotBack, slots.Length)
      modifies this`bufferBack, slots
      ensures SlotsValid()
      ensures var q, s := old(Queue()), old(Queue())[k];
              && Queue() == q[k := s.(begin := s.end)]
              && bufferBack == if s.buffer == |sizes| - 1 && s.begin == old(bufferBack)
                               then BumpBack(Queue(), k, old(bufferBack)) else old(bufferBack)
    {
      hide BumpBack;
      var beginOffset, buffer := slots[slot].begin, slots[slot].buffer;
      ClearSlot(slot, k);
      if buffer == |sizes| - 1 && beginOffset == bufferBack {
        BumpBufferBack(slot, k);
      }
    }

    /** Both loops of internalFree: drops the freed slot too if it is the oldest, and the empty ones after it. */
    method FreeSlot(ghost k: nat, slot: nat)
      requires SlotsValid() && |sizes| > 0 && k < |Queue()| && slot == Wrap(k + slotBack, slots.Length)
      modifies this`bufferBack, this`slotBack, this`allocationIndexOldest, slots
      ensures SlotsValid()
      ensures var s := old(Queue())[k];
              var emptied := old(Queue())[k := s.(begin := s.end)];
              var d := if k == 0 then LeadingEmpty(emptied) else 0;
              && Queue() == emptied[d..] && allocationIndexOldest == old(allocationIndexOldest) + d
              && bufferBack == if s.buffer == |sizes| - 1 && s.begin == old(bufferBack)
                               then BumpBack(emptied, k, old(bufferBack)) else old(bufferBack)
    {
      hide BumpBack, LeadingEmpty, Wrap, RingOf;
      ReleaseSlot(k, slot);
      ghost var emptied := Queue();
      BackIsOldest(slotBack, k, slots.Length);
      if slot == slotBack {
        BumpSlotBack();
      } else {
        assert emptied[0..] == emptied;
      }
    }

    /** The slot of a place in the queue. */
    lemma QueueAt(k: nat)
      requires SlotsValid() && k < |Queue()|
      ensures slotBack + k == k + slotBack && Wrap(slotBack + k, slots.Length) < slots.Length
      ensures Queue()[k] == slots[Wrap(slotBack + k, slots.Length)]
    {}

    /** internalFree */
    method Free(allocationIndex: nat)
      requires SlotsValid() && CanFree(State(), allocationIndex)
      modifies this, slots
      ensures SlotsValid() && slots == old(slots)
      ensures State() == ArenaSpec.Free(old(State()), allocationIndex)
    {
      hide BumpBack, LeadingEmpty, ArenaSpec.Free, Wrap, RingOf;
      ghost var a, k: nat := State(), allocationIndex - allocationIndexOldest;
      QueueAt(k);
      var slot := Wrap(allocationIndex - allocationIndexOldest + slotBack, slots.Length);
      var buffer := slots[slot].buffer;
      ghost var emptied := a.slots[k := a.slots[k].(begin := a.slots[k].end)];
      FreeSlot(k, slot);
      DropCount(buffer);
      live := live - {allocationIndex};
      FreeIs(a, allocationIndex, emptied, State());
    }

    /** One allocation less in a buffer; the memory of an empty buffer that is not the active one goes back. */
    method DropCount(buffer: nat)
      requires buffer < |sizes| == |counts| == |released| && counts[buffer] > 0
      modifies this`counts, this`released
      ensures counts == old(counts)[buffer := old(counts)[buffer] - 1]
      ensures released == if old(counts)[buffer] == 1 && buffer != |sizes| - 1 then old(released)[buffer := true]
                          else old(released)
    {
      counts := counts[buffer := counts[buffer] - 1];
      if counts[buffer] == 0 && buffer != |sizes| - 1 {
        released := released[buffer := true];
      }
    }

    method DoubleSize(bufferSize: nat, wanted: int) returns (nextSize: nat)
      requires bufferSize > 0 && wanted >= 0
      ensures nextSize == DoubleUntil(bufferSize * 2, wanted)
    {
      nextSize := bufferSize * 2;
      while nextSize < wanted
        invariant nextSize > 0 && DoubleUntil(nextSize, wanted) == DoubleUntil(bufferSize * 2, wanted)
      {
        nextSize := nextSize * 2;
      }
    }
  }

  /** The state after 0, 1 or 2 buffers have been added for an allocation of n bytes. */
  ghost function Trial(a: Arena, n: nat, adds: nat): (r: Arena)
    requires Shape(a)
    ensures Shape(r) && r.slots == a.slots && r.oldest == a.oldest && r.live == a.live
  {
    if adds == 0 then a
    else var b := Trial(a, n, adds - 1); ArenaSpec.AddBuffer(b, NextSize(b, n))
  }

  /** The first trial that fits is the one Grown describes; the third always does. */
  lemma TrialGrown(a: Arena, n: nat, adds: nat)
    requires Shape(a) && adds <= 2 && forall i :: 0 <= i < adds ==> !Fits(Trial(a, n, i), n)
    ensures Fits(Trial(a, n, adds), n) ==> Trial(a, n, adds) == Grown(a, n)
    ensures adds == 2 ==> Fits(Trial(a, n, adds), n)
    ensures |Trial(a, n, adds).sizes| == |a.sizes| + adds
    ensures !Fits(Trial(a, n, adds), n) ==> |Grown(a, n).sizes| > |a.sizes| + adds
  {
    DoublingFits(a, n);
    assert Trial(a, n, 0) == a;
    if adds >= 1 {
      assert !Fits(Trial(a, n, 0), n);
      assert Trial(a, n, 1) == ArenaSpec.AddBuffer(a, NextSize(a, n));
    }
    if adds == 2 {
      assert !Fits(Trial(a, n, 1), n);
      assert Trial(a, n, 2) == Grown(a, n);
    }
  }

  /** Room has been taken: the front has moved on, and nothing else has changed. */
  ghost predicate Taken(a: Arena, n: nat, r: Arena, offset: nat, oldFront: nat)
    requires Shape(a)
  {
    Fits(a, n) && r == a.(front := PlaceFront(a, n)) && offset == PlaceOffset(a, n) && oldFront == a.front
  }

  const MIN_ALIGNMENT: nat := 64

  function Align(alignment: nat): nat { if alignment > MIN_ALIGNMENT then alignment else MIN_ALIGNMENT }

  lemma AllocIs(a: Arena, size: nat, align: nat, g: Arena, r: Arena)
    requires Shape(a) && size > 0 && align > 0 && g == Grown(a, size + align - 1) && Fits(g, size + align - 1)
    requires var n := size + align - 1;
             r == g.(front := PlaceFront(g, n),
                     slots := g.slots + [Slot(g.front, PlaceFront(g, n), Current(g))],
                     counts := g.counts[Current(g) := g.counts[Current(g)] + 1],
                     live := g.live[g.oldest + |g.slots| := Block(Current(g), PlaceOffset(g, n), size, align)])
    ensures r == Alloc(a, size, align) && Shape(r)
  {}

  lemma BumpOne(q: seq<Slot>, j: nat, back: nat)
    requires j <= |q|
    ensures BumpBack(q, j, back) == if j < |q| && !IsLive(q[j]) then BumpBack(q, j + 1, q[j].end) else back
  {}

  lemma WrapNext(back: nat, j: nat, n: nat, count: nat)
    requires back < count && j <= n < count
    ensures Wrap(back + j, count) == Wrap(back + n, count) <==> j == n
    ensures j < n ==> Wrap(Wrap(back + j, count) + 1, count) == Wrap(back + (j + 1), count)
  {}

  lemma BackIsOldest(back: nat, k: nat, count: nat)
    requires back < count && k < count
    ensures Wrap(back + k, count) == back <==> k == 0
  {}

  lemma FreeIs(a: Arena, idx: nat, emptied: seq<Slot>, r: Arena)
    requires CanFree(a, idx)
    requires var k := idx - a.oldest; emptied == a.slots[k := a.slots[k].(begin := a.slots[k].end)]
    requires var k := idx - a.oldest;
             var s := a.slots[k];
             var d := if k == 0 then LeadingEmpty(emptied) else 0;
             r == a.(back := if s.buffer == Current(a) && s.begin == a.back then BumpBack(emptied, k, a.back)
                             else a.back,
                     slots := emptied[d..], oldest := a.oldest + d,
                     counts := a.counts[s.buffer := a.counts[s.buffer] - 1],
                     released := if a.counts[s.buffer] == 1 && s.buffer != Current(a) then a.released[s.buffer := true]
                                 else a.released,
                     live := a.live - {idx})
    ensures r == Free(a, idx)
  {}
}
