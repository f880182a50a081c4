/** The rolling arena of src/common/src/rolling_arena.c as a transition system: a ring buffer of memory, replaced by a
    larger one when it is full, and a queue of slots that are freed in any order. */
module ArenaSpec {

  /** The buffer records an arena has (line 24 of src/common/include/LCEVC/common/detail/rolling_arena.h). */
  const MAX_BUFFERS: nat := 16

  /** The part of the ring an allocation took; it is empty once the allocation is freed. */
  datatype Slot = Slot(begin: nat, end: nat, buffer: nat)

  /** What the caller holds: `size` bytes aligned to `align` somewhere in [offset, offset + size + align - 1). */
  datatype Block = Block(buffer: nat, offset: nat, size: nat, align: nat) {
    function Reserved(): int { size + align - 1 }
  }

  /** `slots` holds the allocations oldest, oldest + 1, ...; `live` the ones not yet freed; `counts` and `released` are
      kept for each buffer; the last buffer is the active one, with its ring in [back, front). */
  datatype Arena = Arena(sizes: seq<nat>, counts: seq<nat>, released: seq<bool>, front: nat, back: nat,
                         oldest: nat, slots: seq<Slot>, live: map<nat, Block>)

  predicate IsLive(s: Slot) { s.begin != s.end }

  function Current(a: Arena): int { |a.sizes| - 1 }

  function Size(a: Arena): nat
    requires |a.sizes| > 0
  {
    a.sizes[|a.sizes| - 1]
  }

  /** Well-formed fields, before anything is said about the blocks. */
  predicate Shape(a: Arena) {
    && |a.sizes| == |a.counts| == |a.released| && |a.sizes| > 0
    && a.front < Size(a) && a.back < Size(a)
  }

  function FreeSize(a: Arena): int
    requires Shape(a)
  {
    Size(a) - (a.front + Size(a) - a.back) % Size(a) - 1
  }

  predicate FitsAtFront(a: Arena, n: nat)
    requires Shape(a)
  {
    FreeSize(a) >= n && Size(a) - a.front >= n
  }

  predicate FitsAtStart(a: Arena, n: nat)
    requires Shape(a)
  {
    FreeSize(a) >= n && a.back >= n
  }

  predicate Fits(a: Arena, n: nat)
    requires Shape(a)
  {
    FitsAtFront(a, n) || FitsAtStart(a, n)
  }

  /** The allocation wraps to the start of the ring and ends exactly on `back`. */
  predicate LandsOnBack(a: Arena, n: nat)
    requires Shape(a)
  {
    !FitsAtFront(a, n) && FitsAtStart(a, n) && a.back == n
  }

  // -- Allocation -------------------------------------------------------------------------------

  function DoubleUntil(size: nat, wanted: nat): (r: nat)
    requires size > 0
    ensures r >= size && r >= wanted
    decreases wanted - size
  {
    if size < wanted then DoubleUntil(size * 2, wanted) else size
  }

  function NextSize(a: Arena, n: nat): nat
    requires Shape(a)
  {
    DoubleUntil(Size(a) * 2, FreeSize(a) + n)
  }

  function AddBuffer(a: Arena, size: nat): (r: Arena)
    requires Shape(a) && size > 0
    ensures Shape(r) && r.front == r.back == 0 && Size(r) == size
  {
    a.(sizes := a.sizes + [size], counts := a.counts + [0], released := a.released + [false], front := 0, back := 0)
  }

  /** The buffers an allocation of n bytes adds: none, or one, or two. */
  function Grown(a: Arena, n: nat): (r: Arena)
    requires Shape(a)
    ensures Shape(r)
    ensures Fits(a, n) ==> r == a
  {
    if Fits(a, n) then a
    else
      var b := AddBuffer(a, NextSize(a, n));
      if Fits(b, n) then b else AddBuffer(b, NextSize(b, n))
  }

  function PlaceOffset(a: Arena, n: nat): nat
    requires Shape(a)
  {
    if FitsAtFront(a, n) then a.front else 0
  }

  function PlaceFront(a: Arena, n: nat): nat
    requires Shape(a) && Fits(a, n)
  {
    if FitsAtFront(a, n) then (a.front + n) % Size(a) else n
  }

  function Place(a: Arena, size: nat, align: nat): Arena
    requires Shape(a) && size > 0 && align > 0 && Fits(a, size + align - 1)
  {
    var n := size + align - 1;
    a.(front := PlaceFront(a, n),
       slots := a.slots + [Slot(a.front, PlaceFront(a, n), Current(a))],
       counts := a.counts[Current(a) := a.counts[Current(a)] + 1],
       live := a.live[a.oldest + |a.slots| := Block(Current(a), PlaceOffset(a, n), size, align)])
  }

  lemma DoublingFits(a: Arena, n: nat)
    requires Shape(a)
    ensures Fits(Grown(a, n), n)
    ensures |Grown(a, n).sizes| <= |a.sizes| + 2
  {
    if !Fits(a, n) {
      FreshFits(a, NextSize(a, n), n);
      var b := AddBuffer(a, NextSize(a, n));
      if !Fits(b, n) { FreshFits(b, NextSize(b, n), n); }
    }
  }

  lemma FreshFits(a: Arena, size: nat, n: nat)
    requires Shape(a) && size > 0
    ensures Fits(AddBuffer(a, size), n) <==> n < size
  {
    var b := AddBuffer(a, size);
    assert (b.front + size - b.back) % size == 0;
  }

  /** internalAllocate */
  function Alloc(a: Arena, size: nat, align: nat): Arena
    requires Shape(a) && size > 0 && align > 0
  {
    DoublingFits(a, size + align - 1);
    Place(Grown(a, size + align - 1), size, align)
  }

  // -- Freeing ----------------------------------------------------------------------------------

  /** Walks over empty slots from k, moving `back` to the end of each. */
  function BumpBack(slots: seq<Slot>, k: nat, back: nat): nat
    requires k <= |slots|
    decreases |slots| - k
  {
    if k < |slots| && !IsLive(slots[k]) then BumpBack(slots, k + 1, slots[k].end) else back
  }

  /** The number of empty slots at the old end of the queue. */
  function LeadingEmpty(slots: seq<Slot>): (d: nat)
    ensures d <= |slots|
    ensures forall i :: 0 <= i < d ==> !IsLive(slots[i])
    ensures d < |slots| ==> IsLive(slots[d])
  {
    LeadingEmptyFrom(slots, 0)
  }

  function LeadingEmptyFrom(slots: seq<Slot>, k: nat): (d: nat)
    requires k <= |slots| && forall i :: 0 <= i < k ==> !IsLive(slots[i])
    ensures k <= d <= |slots|
    ensures forall i :: 0 <= i < d ==> !IsLive(slots[i])
    ensures d < |slots| ==> IsLive(slots[d])
    decreases |slots| - k
  {
    if k < |slots| && !IsLive(slots[k]) then LeadingEmptyFrom(slots, k + 1) else k
  }

  predicate CanFree(a: Arena, idx: nat) {
    && Shape(a) && a.oldest <= idx < a.oldest + |a.slots| && idx in a.live
    && a.slots[idx - a.oldest].buffer < |a.sizes| && a.counts[a.slots[idx - a.oldest].buffer] > 0
  }

  /** internalFree */
  function Free(a: Arena, idx: nat): Arena
    requires CanFree(a, idx)
  {
    var k := idx - a.oldest;
    var s := a.slots[k];
    var slots := a.slots[k := s.(begin := s.end)];
    var d := if k == 0 then LeadingEmpty(slots) else 0;
    var count := a.counts[s.buffer] - 1;
    a.(back := if s.buffer == Current(a) && s.begin == a.back then BumpBack(slots, k, a.back) else a.back,
       slots := slots[d..], oldest := a.oldest + d,
       counts := a.counts[s.buffer := count],
       released := if count == 0 && s.buffer != Current(a) then a.released[s.buffer := true] else a.released,
       live := a.live - {idx})
  }
}
