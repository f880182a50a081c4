/** Splitting a command buffer into entry points that workers apply side by side. */
module CmdBufferSplit {
  import opened CmdBufferFormat
  import opened PowersOfTwo

  datatype EntryPoint = EntryPoint(count: nat, initialJump: nat, commandOffset: nat, dataOffset: nat)

  /** Transform units in a block of 32x32 pixels. */
  function BlockSize(transformSize: nat): (n: nat)
    ensures n > 0
  {
    if transformSize == 16 then 64 else 256
  }

  /** The block command k lands in. */
  function Block(cmds: seq<Command>, k: nat, transformSize: nat): nat
    requires k < |cmds|
  {
    TuIndex(cmds, k + 1) / BlockSize(transformSize)
  }

  predicate StartsBlock(cmds: seq<Command>, k: nat, transformSize: nat)
    requires k < |cmds|
  {
    k > 0 && Block(cmds, k, transformSize) != Block(cmds, k - 1, transformSize)
  }

  /** k is the first command after `from`, and after the split point, that starts a block. */
  ghost predicate FirstStart(cmds: seq<Command>, from: nat, point: nat, k: nat, transformSize: nat) {
    && from < k < |cmds| && point < k && StartsBlock(cmds, k, transformSize)
    && NoStart(cmds, from, point, k, transformSize)
  }

  ghost predicate NoStart(cmds: seq<Command>, from: nat, point: nat, to: nat, transformSize: nat)
    requires to <= |cmds|
  {
    forall j {:trigger StartsBlock(cmds, j, transformSize)} ::
      from < j < to && point < j ==> !StartsBlock(cmds, j, transformSize)
  }

  /** The commands an entry is meant to have. */
  function GroupSize(count: nat, numEntryPoints: nat): nat
    requires numEntryPoints > 0
  {
    count / numEntryPoints
  }

  /** Where the split is next wanted, when i entries have been started. */
  function SplitPoint(i: nat, groupSize: nat): nat {
    if i == 0 then 0 else SplitPoint(i - 1, groupSize) + groupSize
  }

  /** starts[i] is the first command of entry i. */
  ghost predicate AreStarts(cmds: seq<Command>, starts: seq<nat>, groupSize: nat, transformSize: nat) {
    && |starts| > 0 && starts[0] == 0
    && forall i {:trigger starts[i]} :: 0 < i < |starts| ==>
         FirstStart(cmds, starts[i - 1], SplitPoint(i, groupSize), starts[i], transformSize)
  }

  /** The whole split: the bounds of the entries in use, the last of them running to the end; there are fewer than the
      entries available only when no later command could start another. */
  ghost predicate IsSplit(cmds: seq<Command>, starts: seq<nat>, numEntryPoints: nat, transformSize: nat)
    requires numEntryPoints > 0
  {
    var groupSize := GroupSize(|cmds|, numEntryPoints);
    && AreStarts(cmds, starts, groupSize, transformSize) && |starts| <= numEntryPoints
    && (|starts| < numEntryPoints ==>
          NoStart(cmds, starts[|starts| - 1], SplitPoint(|starts|, groupSize), |cmds|, transformSize))
  }

  function Bound(cmds: seq<Command>, starts: seq<nat>, i: nat): nat
    requires i <= |starts|
  {
    if i < |starts| then starts[i] else |cmds|
  }

  function EntryFor(cmds: seq<Command>, from: nat, to: nat, transformSize: nat): EntryPoint
    requires from <= to <= |cmds|
  {
    EntryPoint(to - from, TuIndex(cmds, from), CommandOffset(cmds, from), DataOffset(cmds, from, transformSize))
  }

  /** Entry point i as it is written; an unused one is left as it was. */
  ghost predicate EntryFinal(cmds: seq<Command>, starts: seq<nat>, was: EntryPoint, entry: EntryPoint, i: nat,
                             transformSize: nat) {
    if i < |starts| then
      && Bound(cmds, starts, i) <= Bound(cmds, starts, i + 1) <= |cmds|
      && entry == EntryFor(cmds, Bound(cmds, starts, i), Bound(cmds, starts, i + 1), transformSize)
    else entry == was
  }

  ghost predicate AreEntries(cmds: seq<Command>, starts: seq<nat>, was: seq<EntryPoint>, entries: seq<EntryPoint>,
                             transformSize: nat) {
    && |entries| == |was|
    && forall i {:trigger entries[i]} :: 0 <= i < |entries| ==>
         EntryFinal(cmds, starts, was[i], entries[i], i, transformSize)
  }

  // -- The entries cover the buffer once --------------------------------------------------------

  function Counts(entries: seq<EntryPoint>, n: nat): nat
    requires n <= |entries|
  {
    if n == 0 then 0 else Counts(entries, n - 1) + entries[n - 1].count
  }

  lemma {:induction false} CountsAre(cmds: seq<Command>, starts: seq<nat>, was: seq<EntryPoint>,
                                     entries: seq<EntryPoint>, transformSize: nat, n: nat)
    requires AreEntries(cmds, starts, was, entries, transformSize)
    requires 0 < |starts| <= |entries| && starts[0] == 0 && n <= |entries|
    ensures Counts(entries, n) ==
            if n < |starts| then Bound(cmds, starts, n)
            else |cmds| + Counts(was, n) - Counts(was, |starts|)
  {
    if n > 0 {
      CountsAre(cmds, starts, was, entries, transformSize, n - 1);
      assert entries[n - 1].count >= 0;
    }
  }

  /** No command is left out or given out twice: the counts of the entries in use add up to the commands, so those of
      all entries do when the unused ones counted nothing before. */
  lemma CountsSum(cmds: seq<Command>, starts: seq<nat>, was: seq<EntryPoint>, entries: seq<EntryPoint>,
                  transformSize: nat)
    requires |entries| > 0 && IsSplit(cmds, starts, |entries|, transformSize)
    requires AreEntries(cmds, starts, was, entries, transformSize)
    ensures 0 < |starts| <= |entries| && Counts(entries, |starts|) == |cmds|
    ensures Counts(entries, |entries|) == |cmds| + Counts(was, |entries|) - Counts(was, |starts|)
  {
    CountsAre(cmds, starts, was, entries, transformSize, |starts|);
    CountsAre(cmds, starts, was, entries, transformSize, |entries|);
  }

  /** Applying an entry point applies its own commands, exactly as they were appended. */
  lemma EntryApplies(cmds: seq<Command>, starts: seq<nat>, was: seq<EntryPoint>, entries: seq<EntryPoint>,
                     transformSize: nat, i: nat)
    requires AreCommands(cmds, transformSize) && AreEntries(cmds, starts, was, entries, transformSize)
    requires i < |entries| && i < |starts|
    ensures Bound(cmds, starts, i) <= Bound(cmds, starts, i + 1) <= |cmds|
    ensures Apply(CommandBytes(cmds, |cmds|, transformSize), ResidualBytes(cmds, |cmds|, transformSize), transformSize,
                  entries[i].initialJump, entries[i].commandOffset, entries[i].dataOffset, entries[i].count) ==
            Applied(Meanings(cmds, Bound(cmds, starts, i), Bound(cmds, starts, i + 1), transformSize))
  {
    hide Apply, CommandBytes, ResidualBytes, AreCommands, Meanings, DataOffset, CommandOffset, TuIndex, IsCommand;
    assert EntryFinal(cmds, starts, was[i], entries[i], i, transformSize);
    ApplyIs(cmds, Bound(cmds, starts, i), Bound(cmds, starts, i + 1), transformSize);
  }

  // -- No block is shared -----------------------------------------------------------------------

  lemma {:induction false} TuIndexGrows(cmds: seq<Command>, j: nat, k: nat)
    requires j <= k <= |cmds|
    ensures TuIndex(cmds, j) <= TuIndex(cmds, k)
  {
    if j < k { TuIndexGrows(cmds, j, k - 1); }
  }

  lemma BlockGrows(cmds: seq<Command>, j: nat, k: nat, transformSize: nat)
    requires j <= k < |cmds|
    ensures Block(cmds, j, transformSize) <= Block(cmds, k, transformSize)
  {
    TuIndexGrows(cmds, j + 1, k + 1);
    DivMonotone(TuIndex(cmds, j + 1), TuIndex(cmds, k + 1), BlockSize(transformSize));
  }

  lemma {:induction false} StartsGrow(cmds: seq<Command>, starts: seq<nat>, groupSize: nat, transformSize: nat, i: nat,
                                      j: nat)
    requires AreStarts(cmds, starts, groupSize, transformSize) && i <= j < |starts|
    ensures starts[i] <= starts[j] && (j > 0 ==> starts[j] < |cmds|)
  {
    if i < j {
      assert FirstStart(cmds, starts[j - 1], SplitPoint(j, groupSize), starts[j], transformSize);
      StartsGrow(cmds, starts, groupSize, transformSize, i, j - 1);
    } else if j > 0 {
      assert FirstStart(cmds, starts[j - 1], SplitPoint(j, groupSize), starts[j], transformSize);
    }
  }

  /** A command of an earlier entry lands in an earlier block than any command of a later one. */
  lemma BlocksApart(cmds: seq<Command>, starts: seq<nat>, numEntryPoints: nat, transformSize: nat, i: nat, k: nat,
                    j: nat, l: nat)
    requires numEntryPoints > 0 && IsSplit(cmds, starts, numEntryPoints, transformSize) && i < j < |starts|
    requires Bound(cmds, starts, i) <= k < Bound(cmds, starts, i + 1)
    requires Bound(cmds, starts, j) <= l < Bound(cmds, starts, j + 1)
    ensures k < |cmds| && l < |cmds| && Block(cmds, k, transformSize) < Block(cmds, l, transformSize)
  {
    OrderedStarts(cmds, starts, GroupSize(|cmds|, numEntryPoints), transformSize, i, j);
    hide IsSplit, Block, StartsBlock;
    AcrossStart(cmds, starts[j], transformSize, k, l);
  }

  /** A command that starts a block separates the blocks before it from its own and those after it. */
  lemma AcrossStart(cmds: seq<Command>, start: nat, transformSize: nat, k: nat, l: nat)
    requires start < |cmds| && StartsBlock(cmds, start, transformSize) && k < start <= l < |cmds|
    ensures Block(cmds, k, transformSize) < Block(cmds, l, transformSize)
  {
    hide Block;
    BlockGrows(cmds, k, start - 1, transformSize);
    BlockGrows(cmds, start - 1, start, transformSize);
    BlockGrows(cmds, start, l, transformSize);
  }

  lemma OrderedStarts(cmds: seq<Command>, starts: seq<nat>, groupSize: nat, transformSize: nat, i: nat, j: nat)
    requires AreStarts(cmds, starts, groupSize, transformSize) && i < j < |starts|
    ensures starts[i + 1] <= starts[j] < |cmds| && StartsBlock(cmds, starts[j], transformSize)
    ensures Bound(cmds, starts, j + 1) <= |cmds|
  {
    hide Block, SplitPoint;
    StartsGrow(cmds, starts, groupSize, transformSize, i + 1, j);
    if j + 1 < |starts| { StartsGrow(cmds, starts, groupSize, transformSize, j + 1, j + 1); }
  }

  // -- Any interleaving of the workers ----------------------------------------------------------

  /** The part of a sequence of commands that lands in block b. */
  ghost function OnBlock(placed: seq<Placed>, n: nat, b: nat, size: nat): seq<Placed>
    requires n <= |placed| && size > 0
  {
    if n == 0 then []
    else if placed[n - 1].tu / size == b then OnBlock(placed, n - 1, b, size) + [placed[n - 1]]
    else OnBlock(placed, n - 1, b, size)
  }

  /** How many commands worker e has applied after n steps. */
  ghost function Done(order: seq<nat>, n: nat, e: nat): nat
    requires n <= |order|
  {
    if n == 0 then 0 else Done(order, n - 1, e) + if order[n - 1] == e then 1 else 0
  }

  /** `order` says whose turn each step is; every worker applies its commands in order and to the end. */
  ghost predicate IsOrder(parts: seq<seq<Placed>>, order: seq<nat>) {
    && (forall n :: 0 <= n < |order| ==> order[n] < |parts| && Done(order, n, order[n]) < |parts[order[n]]|)
    && (forall e {:trigger parts[e]} :: 0 <= e < |parts| ==> Done(order, |order|, e) == |parts[e]|)
  }

  ghost function Interleaved(parts: seq<seq<Placed>>, order: seq<nat>, n: nat): (r: seq<Placed>)
    requires IsOrder(parts, order) && n <= |order|
    ensures |r| == n
  {
    if n == 0 then [] else Interleaved(parts, order, n - 1) + [parts[order[n - 1]][Done(order, n - 1, order[n - 1])]]
  }

  lemma {:induction false} OnBlockPrefix(p: seq<Placed>, q: seq<Placed>, n: nat, b: nat, size: nat)
    requires n <= |p| && n <= |q| && size > 0 && p[..n] == q[..n]
    ensures OnBlock(p, n, b, size) == OnBlock(q, n, b, size)
  {
    if n > 0 {
      assert p[..n][..n - 1] == p[..n - 1] && q[..n][..n - 1] == q[..n - 1];
      assert p[n - 1] == p[..n][n - 1] && q[n - 1] == q[..n][n - 1];
      OnBlockPrefix(p, q, n - 1, b, size);
    }
  }

  /** Nothing in the sequence lands in block b. */
  ghost predicate Misses(placed: seq<Placed>, b: nat, size: nat)
    requires size > 0
  {
    forall k {:trigger placed[k]} :: 0 <= k < |placed| ==> placed[k].tu / size != b
  }

  lemma {:induction false} OnlyOneWorker(parts: seq<seq<Placed>>, order: seq<nat>, n: nat, e: nat, b: nat, size: nat)
    requires IsOrder(parts, order) && n <= |order| && e < |parts| && size > 0
    requires forall x {:trigger parts[x]} :: 0 <= x < |parts| && x != e ==> Misses(parts[x], b, size)
    ensures Done(order, n, e) <= |parts[e]|
    ensures OnBlock(Interleaved(parts, order, n), n, b, size) == OnBlock(parts[e], Done(order, n, e), b, size)
  {
    hide Interleaved, BlockSize, IsOrder;
    if n > 0 {
      OnlyOneWorker(parts, order, n - 1, e, b, size);
      OneMoreStep(parts, order, n, b, size);
      var w := order[n - 1];
      assert Done(order, n - 1, w) < |parts[w]|;
      assert w != e ==> Misses(parts[w], b, size);
    }
  }

  lemma OneMoreStep(parts: seq<seq<Placed>>, order: seq<nat>, n: nat, b: nat, size: nat)
    requires IsOrder(parts, order) && 0 < n <= |order| && size > 0
    ensures order[n - 1] < |parts| && Done(order, n - 1, order[n - 1]) < |parts[order[n - 1]]|
    ensures var all, step := Interleaved(parts, order, n), parts[order[n - 1]][Done(order, n - 1, order[n - 1])];
            OnBlock(all, n, b, size) ==
            OnBlock(Interleaved(parts, order, n - 1), n - 1, b, size) + if step.tu / size == b then [step] else []
  {
    var all, before := Interleaved(parts, order, n), Interleaved(parts, order, n - 1);
    assert Done(order, n - 1, order[n - 1]) < |parts[order[n - 1]]|;
    assert all[..n - 1] == before[..n - 1];
    OnBlockPrefix(all, before, n - 1, b, size);
  }

  lemma {:induction false} OnBlockOfMissing(placed: seq<Placed>, n: nat, b: nat, size: nat)
    requires n <= |placed| && size > 0 && forall k {:trigger placed[k]} :: 0 <= k < n ==> placed[k].tu / size != b
    ensures OnBlock(placed, n, b, size) == []
  {
    if n > 0 { OnBlockOfMissing(placed, n - 1, b, size); }
  }

  /** What one entry holds of a block is what the whole buffer holds of it. */
  lemma {:induction false} OnBlockWithin(all: seq<Placed>, from: nat, to: nat, n: nat, b: nat, size: nat)
    requires from <= to <= |all| && from <= n <= |all| && size > 0
    requires forall k {:trigger all[k]} :: 0 <= k < |all| && !(from <= k < to) ==> all[k].tu / size != b
    ensures OnBlock(all, n, b, size) == OnBlock(all[from..to], if n < to then n - from else to - from, b, size)
    decreases n
  {
    if n == from {
      OnBlockOfMissing(all, n, b, size);
    } else {
      OnBlockWithin(all, from, to, n - 1, b, size);
      if n <= to { assert all[from..to][n - 1 - from] == all[n - 1]; }
    }
  }

  ghost function Parts(cmds: seq<Command>, starts: seq<nat>, transformSize: nat): (parts: seq<seq<Placed>>)
    requires AreCommands(cmds, transformSize) && InBounds(cmds, starts)
    ensures |parts| == |starts|
  {
    seq(|starts|, i requires 0 <= i < |starts| =>
      Meanings(cmds, Bound(cmds, starts, i), Bound(cmds, starts, i + 1), transformSize))
  }

  ghost predicate InBounds(cmds: seq<Command>, starts: seq<nat>) {
    forall i: nat {:trigger Bound(cmds, starts, i)} :: i < |starts| ==>
      Bound(cmds, starts, i) <= Bound(cmds, starts, i + 1) <= |cmds|
  }

  /** The entries of a split follow each other and end with the buffer. */
  lemma SplitInBounds(cmds: seq<Command>, starts: seq<nat>, numEntryPoints: nat, transformSize: nat)
    requires numEntryPoints > 0 && IsSplit(cmds, starts, numEntryPoints, transformSize)
    ensures InBounds(cmds, starts)
  {
    hide StartsBlock, SplitPoint, NoStart, TuIndex;
    var groupSize := GroupSize(|cmds|, numEntryPoints);
    forall i: nat {:trigger Bound(cmds, starts, i)} | i < |starts|
      ensures Bound(cmds, starts, i) <= Bound(cmds, starts, i + 1) <= |cmds|
    {
      StartsGrow(cmds, starts, groupSize, transformSize, i, i);
      if i + 1 < |starts| { StartsGrow(cmds, starts, groupSize, transformSize, i, i + 1); }
    }
  }

  /** What each worker applies after a split. */
  ghost function Work(cmds: seq<Command>, starts: seq<nat>, numEntryPoints: nat, transformSize: nat): seq<seq<Placed>>
    requires AreCommands(cmds, transformSize) && numEntryPoints > 0
    requires IsSplit(cmds, starts, numEntryPoints, transformSize)
  {
    SplitInBounds(cmds, starts, numEntryPoints, transformSize);
    Parts(cmds, starts, transformSize)
  }

  /** Command k belongs to entry x. */
  predicate InEntry(cmds: seq<Command>, starts: seq<nat>, x: nat, k: nat) {
    x < |starts| && Bound(cmds, starts, x) <= k < Bound(cmds, starts, x + 1)
  }

  /** Some entry holds all there is of block b. */
  lemma OwnerOf(cmds: seq<Command>, starts: seq<nat>, numEntryPoints: nat, transformSize: nat, b: nat) returns (e: nat)
    requires numEntryPoints > 0 && IsSplit(cmds, starts, numEntryPoints, transformSize)
    ensures e < |starts|
    ensures forall x: nat, k: nat :: x != e && InEntry(cmds, starts, x, k) ==>
      k < |cmds| && Block(cmds, k, transformSize) != b
  {
    assert |starts| > 0;
    hide IsSplit, Block;
    if y: nat, l: nat :| InEntry(cmds, starts, y, l) && l < |cmds| && Block(cmds, l, transformSize) == b {
      e := y;
      forall x: nat, k: nat | x != e && InEntry(cmds, starts, x, k)
        ensures k < |cmds| && Block(cmds, k, transformSize) != b
      {
        if x < y {
          BlocksApart(cmds, starts, numEntryPoints, transformSize, x, k, y, l);
        } else {
          BlocksApart(cmds, starts, numEntryPoints, transformSize, y, l, x, k);
        }
      }
    } else {
      e := 0;
    }
  }

  /** Main result on the split: however the workers interleave, every block sees the commands it was meant to see, in
      the order in which they were appended. */
  lemma AnyInterleaving(cmds: seq<Command>, starts: seq<nat>, numEntryPoints: nat, transformSize: nat, order: seq<nat>,
                        b: nat)
    requires AreCommands(cmds, transformSize) && numEntryPoints > 0
    requires IsSplit(cmds, starts, numEntryPoints, transformSize)
    requires IsOrder(Work(cmds, starts, numEntryPoints, transformSize), order)
    ensures var all := Meanings(cmds, 0, |cmds|, transformSize);
            var applied := Interleaved(Work(cmds, starts, numEntryPoints, transformSize), order, |order|);
            OnBlock(applied, |order|, b, BlockSize(transformSize)) == OnBlock(all, |all|, b, BlockSize(transformSize))
  {
    SplitInBounds(cmds, starts, numEntryPoints, transformSize);
    assert starts[0] == 0;
    assert forall e {:trigger Parts(cmds, starts, transformSize)[e]} :: 0 <= e < |starts| ==>
      Done(order, |order|, e) == |Parts(cmds, starts, transformSize)[e]|;
    hide IsSplit, IsOrder, Interleaved, OnBlock, BlockSize, InBounds;
    var e := OwnerOf(cmds, starts, numEntryPoints, transformSize, b);
    var parts, size := Parts(cmds, starts, transformSize), BlockSize(transformSize);
    forall x {:trigger parts[x]} | 0 <= x < |parts| && x != e ensures Misses(parts[x], b, size) {
      PartMisses(cmds, starts, transformSize, e, x, b);
    }
    OnlyOneWorker(parts, order, |order|, e, b, size);
    assert Done(order, |order|, e) == |parts[e]|;
    OwnerHoldsAll(cmds, starts, transformSize, e, b);
  }

  ghost predicate Owns(cmds: seq<Command>, starts: seq<nat>, transformSize: nat, e: nat, b: nat) {
    forall x: nat, k: nat :: x != e && InEntry(cmds, starts, x, k) ==> k < |cmds| && Block(cmds, k, transformSize) != b
  }

  lemma PartMisses(cmds: seq<Command>, starts: seq<nat>, transformSize: nat, e: nat, x: nat, b: nat)
    requires AreCommands(cmds, transformSize) && InBounds(cmds, starts) && Owns(cmds, starts, transformSize, e, b)
    requires x < |starts| && x != e
    ensures Misses(Parts(cmds, starts, transformSize)[x], b, BlockSize(transformSize))
  {
    var part, from := Parts(cmds, starts, transformSize)[x], Bound(cmds, starts, x);
    forall k {:trigger part[k]} | 0 <= k < |part| ensures part[k].tu / BlockSize(transformSize) != b {
      assert InEntry(cmds, starts, x, from + k);
      assert part[k] == Meaning(cmds, from + k, transformSize);
    }
  }

  /** Every command belongs to an entry. */
  lemma {:induction false} FindEntry(cmds: seq<Command>, starts: seq<nat>, k: nat, n: nat) returns (x: nat)
    requires 0 < n <= |starts| && starts[0] == 0 && k < Bound(cmds, starts, n)
    ensures x < n && InEntry(cmds, starts, x, k)
  {
    if Bound(cmds, starts, n - 1) <= k { x := n - 1; } else { x := FindEntry(cmds, starts, k, n - 1); }
  }

  lemma OwnerHoldsAll(cmds: seq<Command>, starts: seq<nat>, transformSize: nat, e: nat, b: nat)
    requires AreCommands(cmds, transformSize) && InBounds(cmds, starts) && e < |starts| && starts[0] == 0
    requires Owns(cmds, starts, transformSize, e, b)
    ensures var all, part := Meanings(cmds, 0, |cmds|, transformSize), Parts(cmds, starts, transformSize)[e];
            OnBlock(all, |all|, b, BlockSize(transformSize)) == OnBlock(part, |part|, b, BlockSize(transformSize))
  {
    hide OnBlock, BlockSize, Owns, Meaning, Parts, InBounds, AreCommands;
    var all, from, to := Meanings(cmds, 0, |cmds|, transformSize), Bound(cmds, starts, e), Bound(cmds, starts, e + 1);
    PartIs(cmds, starts, transformSize, e);
    forall k {:trigger all[k]} | 0 <= k < |all| && !(from <= k < to) ensures all[k].tu / BlockSize(transformSize) != b {
      ElsewhereMisses(cmds, starts, transformSize, e, b, k);
    }
    OnBlockWithin(all, from, to, |all|, b, BlockSize(transformSize));
  }

  lemma PartIs(cmds: seq<Command>, starts: seq<nat>, transformSize: nat, e: nat)
    requires AreCommands(cmds, transformSize) && InBounds(cmds, starts) && e < |starts|
    ensures var all, from, to :=
              Meanings(cmds, 0, |cmds|, transformSize), Bound(cmds, starts, e), Bound(cmds, starts, e + 1);
            from <= to <= |all| && Parts(cmds, starts, transformSize)[e] == all[from..to]
  {
    assert Bound(cmds, starts, e) <= Bound(cmds, starts, e + 1) <= |cmds|;
  }

  lemma ElsewhereMisses(cmds: seq<Command>, starts: seq<nat>, transformSize: nat, e: nat, b: nat, k: nat)
    requires AreCommands(cmds, transformSize) && Owns(cmds, starts, transformSize, e, b)
    requires |starts| > 0 && starts[0] == 0 && k < |cmds| && !InEntry(cmds, starts, e, k)
    ensures Meanings(cmds, 0, |cmds|, transformSize)[k].tu / BlockSize(transformSize) != b
  {
    var _ := FindEntry(cmds, starts, k, |starts|);
    assert Meanings(cmds, 0, |cmds|, transformSize)[k] == Meaning(cmds, k, transformSize);
  }
}
