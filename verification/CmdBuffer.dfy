/** The command buffer object of src/enhancement/src/cmdbuffer_cpu.c: one block of memory written from both ends. */
module CmdBuffer {
  import opened Bits
  import opened CmdBufferFormat
  import opened CmdBufferSplit

  const INITIAL_CAPACITY: nat := 32768
  const MAX_ENTRY_POINTS: nat := 16

  class LdeCmdBufferCpu {
    var data: array<byte>
    var currentCommand: nat
    var currentResidual: nat
    var count: nat
    var transformSize: nat
    const entryPoints: array<EntryPoint>
    ghost var appended: seq<Command>

    /** The bytes of a residual. */
    function LayerSize(): nat
      reads this
    {
      if transformSize == 16 then 32 else 8
    }

    ghost predicate Allocated()
      reads this
    {
      data.Length >= INITIAL_CAPACITY
    }

    /** The two ends hold what has been appended, and have not met. */
    ghost predicate Holds()
      reads this, data
    {
      && Allocated() && (transformSize == 4 || transformSize == 16)
      && AreCommands(appended, transformSize) && count == |appended|
      && currentCommand < currentResidual <= data.Length
      && data[..currentCommand] == CommandBytes(appended, |appended|, transformSize)
      && data[currentResidual..] == ResidualBytes(appended, |appended|, transformSize)
    }

    /** There is also room for one more command. */
    ghost predicate Valid()
      reads this, data
    {
      Holds() && currentResidual - currentCommand >= LayerSize() + 5
    }

    /** ldeCmdBufferCpuInitialize, for a number of entry points it accepts. */
    constructor (numEntryPoints: nat)
      requires numEntryPoints <= MAX_ENTRY_POINTS
      ensures Allocated() && fresh(data) && fresh(entryPoints) && entryPoints.Length == numEntryPoints
    {
      data := new byte[INITIAL_CAPACITY](i => 0);
      currentCommand, currentResidual, count, transformSize := 0, INITIAL_CAPACITY - 32, 0, 0;
      entryPoints := new EntryPoint[numEntryPoints](i => EntryPoint(0, 0, 0, 0));
      appended := [];
    }

    /** ldeCmdBufferCpuReset */
    method Reset(size: nat)
      requires Allocated() && (size == 4 || size == 16)
      modifies this`currentCommand, this`currentResidual, this`count, this`transformSize, this`appended, entryPoints
      ensures Valid() && appended == [] && transformSize == size
      ensures forall i :: 0 <= i < entryPoints.Length ==> entryPoints[i] == EntryPoint(0, 0, 0, 0)
    {
      for i := 0 to entryPoints.Length
        modifies entryPoints
        invariant forall k :: 0 <= k < i ==> entryPoints[k] == EntryPoint(0, 0, 0, 0)
      {
        entryPoints[i] := EntryPoint(0, 0, 0, 0);
      }
      currentCommand, currentResidual, count, transformSize := 0, data.Length, 0, size;
      appended := [];
      assert data[data.Length..] == [];
    }

    /** cmdBufferStorageResize to a larger capacity: the commands stay at the start, the residuals move to the end. */
    method Grow(capacity: nat)
      requires currentCommand <= currentResidual <= data.Length <= capacity
      modifies this`data, this`currentResidual
      ensures fresh(data) && data.Length == capacity
      ensures currentResidual - currentCommand == old(currentResidual - currentCommand) + capacity - old(data.Length)
      ensures currentResidual <= capacity
      ensures data[..currentCommand] == old(data[..currentCommand])
      ensures data[currentResidual..] == old(data[currentResidual..])
    {
      var larger := new byte[capacity](i => 0);
      forall i | 0 <= i < data.Length {
        larger[i] := data[i];
      }
      var dataOffset := data.Length - currentResidual;
      var from, to := currentResidual, capacity - dataOffset;
      forall i | 0 <= i < dataOffset {
        larger[to + i] := larger[from + i];
      }
      data, currentResidual := larger, to;
    }

    /** The command byte and the bytes of the jump. */
    method PutCommand(command: nat, jump: nat)
      requires IsKind(command) && currentCommand + 4 <= data.Length
      modifies data, this`currentCommand
      ensures currentCommand == old(currentCommand) + JumpSize(jump)
      ensures data[..currentCommand] == old(data[..currentCommand]) + Encode(command, jump)
      ensures data[currentCommand..] == old(data[..])[currentCommand..]
    {
      ghost var before, at := data[..], currentCommand;
      if jump < BIG_JUMP_SIGNAL {
        data[currentCommand] := command + jump;
        currentCommand := currentCommand + 1;
      } else if jump < EXTRA_BIG_JUMP {
        data[currentCommand] := command + BIG_JUMP_SIGNAL;
        data[currentCommand + 1] := jump % 256;
        data[currentCommand + 2] := jump / 256;
        currentCommand := currentCommand + 3;
      } else {
        data[currentCommand] := command + EXTRA_BIG_JUMP_SIGNAL;
        data[currentCommand + 1] := jump % 256;
        data[currentCommand + 2] := jump / 256 % 256;
        data[currentCommand + 3] := jump / 0x10000 % 256;
        currentCommand := currentCommand + 4;
      }
      Appended(before, data[..], at, Encode(command, jump));
    }

    /** The values, in their stored order, below the residuals so far. */
    method PutResidual(values: seq<Int16>)
      requires (transformSize == 4 || transformSize == 16) && |values| == transformSize
      requires LayerSize() <= currentResidual <= data.Length
      modifies data, this`currentResidual
      ensures currentResidual == old(currentResidual) - LayerSize()
      ensures data[currentResidual..] == LayerBytes(Stored(values, transformSize)) + old(data[currentResidual..])
      ensures data[..currentResidual] == old(data[..])[..currentResidual]
    {
      hide LayerBytes, Stored, LowByte, HighByte;
      ghost var before, end, bytes := data[..], currentResidual, LayerBytes(Stored(values, transformSize));
      currentResidual := currentResidual - LayerSize();
      for i := 0 to transformSize
        modifies data
        invariant forall k :: 0 <= k < data.Length && !(currentResidual <= k < end) ==> data[k] == before[k]
        invariant forall k :: 0 <= k < 2 * i ==> data[currentResidual + k] == bytes[k]
      {
        LayerByteAt(values, transformSize, i);
        var v := if transformSize == 16 then values[DDS_ORDER[i]] else values[i];
        data[currentResidual + 2 * i] := LowByte(v);
        data[currentResidual + 2 * i + 1] := HighByte(v);
      }
    }

    /** ldeCmdBufferCpuAppend, with an allocator that does not fail. */
    method Append(command: nat, values: seq<Int16>, jump: nat)
      requires Valid() && IsCommand(Command(command, jump, values), transformSize)
      modifies this`data, this`currentCommand, this`currentResidual, this`count, this`appended, data
      ensures Valid() && appended == old(appended) + [Command(command, jump, values)]
      ensures data == old(data) || fresh(data)
      ensures var gap := old(currentResidual - currentCommand) - JumpSize(jump)
                         - if HasResidual(command) then LayerSize() else 0;
              data.Length == if gap < LayerSize() + 5 then 2 * old(data.Length) else old(data.Length)
    {
      hide Encode, LayerBytes, Stored, CommandBytes, ResidualBytes, IsKind, JumpSize, AreCommands, HasResidual;
      ghost var cmds, upper := appended, data[currentResidual..];
      PutCommand(command, jump);
      assert data[currentResidual..] == upper;
      ghost var commands := data[..currentCommand];
      if HasResidual(command) {
        PutResidual(values);
        assert data[..currentCommand] == commands;
      }
      count := count + 1;
      appended := appended + [Command(command, jump, values)];
      AppendedBytes(cmds, Command(command, jump, values), transformSize);
      if currentResidual - currentCommand < LayerSize() + 5 {
        Grow(data.Length * 2);
      }
    }

    /** The command at an offset, as the splitter and the applicator read it. */
    method ReadCommand(at: nat) returns (command: nat, jump: nat, size: nat)
      requires at < data.Length && at + SizeOfSignal(data[at] % 64) <= data.Length
      ensures command == DecodeKind(data[..], at) && (jump, size) == DecodeJump(data[..], at)
    {
      command := data[at] / 64 * 64;
      var jumpSignal := data[at] % 64;
      if jumpSignal < BIG_JUMP_SIGNAL {
        jump, size := jumpSignal, 1;
      } else if jumpSignal == BIG_JUMP_SIGNAL {
        jump, size := Little(data[at + 1], data[at + 2], 0), 3;
      } else {
        jump, size := Little(data[at + 1], data[at + 2], data[at + 3]), 4;
      }
    }

    /** ldeCmdBufferCpuSplit. `starts` are the commands at which the entries start. */
    method Split() returns (ghost starts: seq<nat>)
      requires Holds() && entryPoints.Length > 0
      modifies entryPoints
      ensures Holds() && IsSplit(appended, starts, entryPoints.Length, transformSize)
      ensures AreEntries(appended, starts, old(entryPoints[..]), entryPoints[..], transformSize)
    {
      hide GroupSize, CommandBytes, ResidualBytes, Splitting, IsSplit, AreEntries, JumpSize, DecodeKind, DecodeJump,
           AreStarts, SplitPoint, NoStart, EntryFor, IsCommand, Carried;
      ghost var cmds, was := appended, entryPoints[..];
      var groupSize := GroupSize(count, entryPoints.Length);
      var splitPoint, dataOffset, cmdOffset, tuIndex, bufferIndex := groupSize, 0, 0, 0, 0;
      var lastCmdBlock: int, lastBufferCount := -1, 0;
      entryPoints[0] := EntryPoint(entryPoints[0].count, 0, 0, 0);
      starts := [0];
      SplittingStarts(cmds, was, entryPoints[..], groupSize, transformSize);
      for cmdCount := 0 to count
        modifies entryPoints
        invariant Holds() && appended == cmds
        invariant cmdOffset == CommandOffset(cmds, cmdCount) && tuIndex == TuIndex(cmds, cmdCount)
        invariant dataOffset == Residuals(cmds, cmdCount)
        invariant lastCmdBlock == if cmdCount == 0 then -1 else Block(cmds, cmdCount - 1, transformSize)
        invariant |starts| == bufferIndex + 1 <= entryPoints.Length && lastBufferCount == starts[bufferIndex]
        invariant splitPoint == SplitPoint(|starts|, groupSize)
        invariant Splitting(cmds, starts, was, entryPoints[..], groupSize, transformSize, cmdCount)
      {
        ReadFacts(cmdCount);
        var command, jump, cmdIncrement := ReadCommand(cmdOffset);
        var currentBlock := (tuIndex + jump) / BlockSize(transformSize);
        assert tuIndex + jump == TuIndex(cmds, cmdCount + 1);
        if cmdCount > splitPoint && bufferIndex < entryPoints.Length - 1 && currentBlock != lastCmdBlock {
          ghost var before := entryPoints[..];
          SplittingBounds(cmds, starts, was, before, groupSize, transformSize, cmdCount);
          entryPoints[bufferIndex] := entryPoints[bufferIndex].(count := cmdCount - lastBufferCount);
          bufferIndex := bufferIndex + 1;
          entryPoints[bufferIndex] :=
            EntryPoint(entryPoints[bufferIndex].count, tuIndex, cmdOffset, dataOffset * transformSize * 2);
          splitPoint := splitPoint + groupSize;
          lastBufferCount := cmdCount;
          DataOffsetIs(cmds, cmdCount, transformSize);
          SplittingCuts(cmds, starts, was, before, entryPoints[..], groupSize, transformSize, cmdCount);
          starts := starts + [cmdCount];
        } else {
          SplittingGoesOn(cmds, starts, was, entryPoints[..], groupSize, transformSize, cmdCount);
        }
        lastCmdBlock := currentBlock;
        cmdOffset := cmdOffset + cmdIncrement;
        tuIndex := tuIndex + jump;
        if command == SET || command == ADD {
          dataOffset := dataOffset + 1;
        }
      }
      ghost var before := entryPoints[..];
      SplittingBounds(cmds, starts, was, before, groupSize, transformSize, count);
      entryPoints[bufferIndex] := entryPoints[bufferIndex].(count := count - lastBufferCount);
      SplittingEnds(cmds, starts, was, before, entryPoints[..], groupSize, transformSize);
    }

    /** Command k can be read where the commands before it end. */
    lemma ReadFacts(k: nat)
      requires Holds() && k < count
      ensures var at := CommandOffset(appended, k);
              && at < data.Length && SizeOfSignal(data[at] % 64) == JumpSize(appended[k].jump)
              && at + JumpSize(appended[k].jump) <= data.Length
              && DecodeKind(data[..], at) == appended[k].kind
              && DecodeJump(data[..], at) == (Carried(appended[k].jump), JumpSize(appended[k].jump))
    {
      ReadAt(data[..], currentCommand, appended, transformSize, k);
    }

    /** Everything appended since the reset is read back, in order, with its jumps and values. */
    lemma ReadsBack()
      requires Holds()
      ensures Apply(data[..currentCommand], data[currentResidual..], transformSize, 0, 0, 0, count) ==
              Applied(Meanings(appended, 0, count, transformSize))
    {
      ApplyIs(appended, 0, count, transformSize);
    }
  }

  /** Bytes that start with the commands can be decoded at each of them. */
  lemma ReadAt(bytes: seq<byte>, n: nat, cmds: seq<Command>, transformSize: nat, k: nat)
    requires n <= |bytes| && AreCommands(cmds, transformSize) && k < |cmds|
    requires bytes[..n] == CommandBytes(cmds, |cmds|, transformSize)
    ensures var at, size := CommandOffset(cmds, k), JumpSize(cmds[k].jump);
            && at + size <= |bytes| && at < |bytes| && SizeOfSignal(bytes[at] % 64) == size
            && DecodeKind(bytes, at) == cmds[k].kind && DecodeJump(bytes, at) == (Carried(cmds[k].jump), size)
  {
    var at, size := CommandOffset(cmds, k), JumpSize(cmds[k].jump);
    CommandAt(cmds, k, |cmds|, transformSize);
    hide Encode, DecodeKind, DecodeJump, CommandBytes, CommandOffset, JumpSize, SizeOfSignal;
    assert bytes[at..at + size] == bytes[..n][at..at + size];
    DecodeEncoded(bytes, at, cmds[k].kind, cmds[k].jump);
  }

  /** The two bytes of value i in the order in which it is stored. */
  lemma LayerByteAt(values: seq<Int16>, transformSize: nat, i: nat)
    requires (transformSize == 4 || transformSize == 16) && |values| == transformSize && i < transformSize
    ensures var v := if transformSize == 16 then values[DDS_ORDER[i]] else values[i];
            var bytes := LayerBytes(Stored(values, transformSize));
            2 * i + 1 < |bytes| && bytes[2 * i] == LowByte(v) && bytes[2 * i + 1] == HighByte(v)
  {
    assert 2 * i % 2 == 0 && 2 * i / 2 == i && (2 * i + 1) % 2 == 1 && (2 * i + 1) / 2 == i;
  }

  // -- The loop of the splitter -----------------------------------------------------------------

  /** The entries after k commands: all but the last are finished, the last still has its old count. */
  ghost predicate Splitting(cmds: seq<Command>, starts: seq<nat>, was: seq<EntryPoint>, entries: seq<EntryPoint>,
                            groupSize: nat, transformSize: nat, k: nat) {
    && AreStarts(cmds, starts, groupSize, transformSize) && |starts| <= |entries| == |was|
    && k <= |cmds| && (if k == 0 then |starts| == 1 else starts[|starts| - 1] < k)
    && (|starts| < |entries| ==> NoStart(cmds, starts[|starts| - 1], SplitPoint(|starts|, groupSize), k, transformSize))
    && forall i {:trigger entries[i]} :: 0 <= i < |entries| ==>
         EntryNow(cmds, starts, was[i], entries[i], i, transformSize)
  }

  ghost predicate EntryNow(cmds: seq<Command>, starts: seq<nat>, was: EntryPoint, entry: EntryPoint, i: nat,
                           transformSize: nat) {
    if i + 1 < |starts| then
      starts[i] <= starts[i + 1] <= |cmds| && entry == EntryFor(cmds, starts[i], starts[i + 1], transformSize)
    else if i < |starts| then
      starts[i] <= |cmds| && entry == EntryFor(cmds, starts[i], starts[i], transformSize).(count := was.count)
    else entry == was
  }

  lemma SplittingStarts(cmds: seq<Command>, was: seq<EntryPoint>, entries: seq<EntryPoint>, groupSize: nat,
                        transformSize: nat)
    requires |was| > 0 && entries == was[0 := EntryPoint(was[0].count, 0, 0, 0)]
    ensures Splitting(cmds, [0], was, entries, groupSize, transformSize, 0) && SplitPoint(1, groupSize) == groupSize
  {}

  lemma SplittingBounds(cmds: seq<Command>, starts: seq<nat>, was: seq<EntryPoint>, entries: seq<EntryPoint>,
                        groupSize: nat, transformSize: nat, k: nat)
    requires Splitting(cmds, starts, was, entries, groupSize, transformSize, k)
    ensures 0 < |starts| <= |entries| && starts[|starts| - 1] <= k <= |cmds|
  {}

  lemma SplittingGoesOn(cmds: seq<Command>, starts: seq<nat>, was: seq<EntryPoint>, entries: seq<EntryPoint>,
                        groupSize: nat, transformSize: nat, k: nat)
    requires Splitting(cmds, starts, was, entries, groupSize, transformSize, k) && k < |cmds|
    requires !(SplitPoint(|starts|, groupSize) < k && |starts| < |entries| && StartsBlock(cmds, k, transformSize))
    ensures Splitting(cmds, starts, was, entries, groupSize, transformSize, k + 1)
  {
    assert AreStarts(cmds, starts, groupSize, transformSize);
    assert |starts| > 0 && starts[0] == 0;
    hide EntryNow, AreStarts, StartsBlock;
  }

  lemma SplittingCuts(cmds: seq<Command>, starts: seq<nat>, was: seq<EntryPoint>, before: seq<EntryPoint>,
                      after: seq<EntryPoint>, groupSize: nat, transformSize: nat, k: nat)
    requires Splitting(cmds, starts, was, before, groupSize, transformSize, k) && k < |cmds|
    requires SplitPoint(|starts|, groupSize) < k && |starts| < |before| && StartsBlock(cmds, k, transformSize)
    requires |after| == |before| && starts[|starts| - 1] <= k
    requires var b := |starts| - 1;
             after == before[b := before[b].(count := k - starts[b])]
                            [b + 1 := EntryPoint(before[b + 1].count, TuIndex(cmds, k), CommandOffset(cmds, k),
                                                 DataOffset(cmds, k, transformSize))]
    ensures Splitting(cmds, starts + [k], was, after, groupSize, transformSize, k + 1)
    ensures SplitPoint(|starts| + 1, groupSize) == SplitPoint(|starts|, groupSize) + groupSize
  {
    assert SplitPoint(|starts| + 1, groupSize) == SplitPoint(|starts|, groupSize) + groupSize;
    hide StartsBlock, SplitPoint;
    var all := starts + [k];
    forall i {:trigger all[i]} | 0 < i < |all|
      ensures FirstStart(cmds, all[i - 1], SplitPoint(i, groupSize), all[i], transformSize)
    {
      if i < |starts| { assert FirstStart(cmds, starts[i - 1], SplitPoint(i, groupSize), starts[i], transformSize); }
    }
    forall i {:trigger after[i]} | 0 <= i < |after| ensures EntryNow(cmds, all, was[i], after[i], i, transformSize) {
      assert EntryNow(cmds, starts, was[i], before[i], i, transformSize);
    }
  }

  lemma SplittingEnds(cmds: seq<Command>, starts: seq<nat>, was: seq<EntryPoint>, before: seq<EntryPoint>,
                      after: seq<EntryPoint>, groupSize: nat, transformSize: nat)
    requires Splitting(cmds, starts, was, before, groupSize, transformSize, |cmds|) && |before| > 0
    requires groupSize == GroupSize(|cmds|, |before|)
    requires |starts| > 0 && starts[|starts| - 1] <= |cmds|
    requires var b := |starts| - 1; after == before[b := before[b].(count := |cmds| - starts[b])]
    ensures IsSplit(cmds, starts, |after|, transformSize) && AreEntries(cmds, starts, was, after, transformSize)
  {
    hide EntryNow, AreStarts, NoStart, GroupSize, SplitPoint;
    EntriesEnd(cmds, starts, was, before, after, groupSize, transformSize);
  }

  lemma EntriesEnd(cmds: seq<Command>, starts: seq<nat>, was: seq<EntryPoint>, before: seq<EntryPoint>,
                   after: seq<EntryPoint>, groupSize: nat, transformSize: nat)
    requires Splitting(cmds, starts, was, before, groupSize, transformSize, |cmds|) && |before| > 0
    requires |starts| > 0 && starts[|starts| - 1] <= |cmds|
    requires var b := |starts| - 1; after == before[b := before[b].(count := |cmds| - starts[b])]
    ensures AreEntries(cmds, starts, was, after, transformSize)
  {
    hide AreStarts, NoStart, GroupSize, SplitPoint;
    forall i {:trigger after[i]} | 0 <= i < |after|
      ensures EntryFinal(cmds, starts, was[i], after[i], i, transformSize)
    {
      assert EntryNow(cmds, starts, was[i], before[i], i, transformSize);
    }
  }

  lemma Appended(before: seq<byte>, after: seq<byte>, at: nat, bytes: seq<byte>)
    requires |after| == |before| && at + |bytes| <= |before|
    requires forall k :: 0 <= k < |before| ==> after[k] == if at <= k < at + |bytes| then bytes[k - at] else before[k]
    ensures after[..at + |bytes|] == before[..at] + bytes && after[at + |bytes|..] == before[at + |bytes|..]
  {}

  /** Both ends after one more command. */
  lemma AppendedBytes(cmds: seq<Command>, c: Command, transformSize: nat)
    requires AreCommands(cmds, transformSize) && IsCommand(c, transformSize)
    ensures AreCommands(cmds + [c], transformSize)
    ensures CommandBytes(cmds + [c], |cmds| + 1, transformSize) ==
            CommandBytes(cmds, |cmds|, transformSize) + Encode(c.kind, c.jump)
    ensures ResidualBytes(cmds + [c], |cmds| + 1, transformSize) ==
            (if HasResidual(c.kind) then LayerBytes(Stored(c.values, transformSize)) else [])
            + ResidualBytes(cmds, |cmds|, transformSize)
  {
    PrefixBytes(cmds, c, |cmds|, transformSize);
    assert [] + ResidualBytes(cmds, |cmds|, transformSize) == ResidualBytes(cmds, |cmds|, transformSize);
  }

  lemma {:induction false} PrefixBytes(cmds: seq<Command>, c: Command, n: nat, transformSize: nat)
    requires n <= |cmds| && AreCommands(cmds, transformSize) && IsCommand(c, transformSize)
    ensures AreCommands(cmds + [c], transformSize)
    ensures CommandBytes(cmds + [c], n, transformSize) == CommandBytes(cmds, n, transformSize)
    ensures ResidualBytes(cmds + [c], n, transformSize) == ResidualBytes(cmds, n, transformSize)
  {
    if n > 0 { PrefixBytes(cmds, c, n - 1, transformSize); }
  }
}
