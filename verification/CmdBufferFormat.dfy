/** The byte format of the CPU command buffer of src/enhancement/src/cmdbuffer_cpu.c: commands and jumps grow up from
    the start, residuals down from the end. */
module CmdBufferFormat {
  import opened PowersOfTwo
  import opened Bits

  type Int16 = v: int | -0x8000 <= v < 0x8000

  const ADD: nat := 0
  const SET: nat := 64
  const SET_ZERO: nat := 128
  const CLEAR: nat := 192

  const BIG_JUMP_SIGNAL: nat := 62
  const EXTRA_BIG_JUMP_SIGNAL: nat := 63
  const EXTRA_BIG_JUMP: nat := 0xFFFF

  predicate IsKind(kind: nat) { kind == ADD || kind == SET || kind == SET_ZERO || kind == CLEAR }

  predicate HasResidual(kind: nat) { kind == ADD || kind == SET }

  /** One appended command: its kind, how many transform units to move on, and the values, which matter only to
      commands with a residual. */
  datatype Command = Command(kind: nat, jump: nat, values: seq<Int16>)

  predicate IsCommand(c: Command, transformSize: nat) {
    IsKind(c.kind) && (HasResidual(c.kind) ==> |c.values| == transformSize)
  }

  ghost predicate AreCommands(cmds: seq<Command>, transformSize: nat) {
    forall k :: 0 <= k < |cmds| ==> IsCommand(cmds[k], transformSize)
  }

  // -- Commands and jumps -----------------------------------------------------------------------

  function JumpSize(jump: nat): (n: nat)
    ensures 1 <= n <= 4
  {
    if jump < BIG_JUMP_SIGNAL then 1 else if jump < EXTRA_BIG_JUMP then 3 else 4
  }

  /** What is left of a jump in the three bytes there are for it. Line 216 of cmdbuffer_cpu.c asserts that this is all
      of it; where assertions are compiled out, a larger jump loses the rest. */
  function Carried(jump: nat): nat { jump % 0x1000000 }

  function Encode(kind: nat, jump: nat): (bytes: seq<byte>)
    requires IsKind(kind)
    ensures |bytes| == JumpSize(jump)
  {
    if jump < BIG_JUMP_SIGNAL then [kind + jump]
    else if jump < EXTRA_BIG_JUMP then [kind + BIG_JUMP_SIGNAL, jump % 256, jump / 256]
    else [kind + EXTRA_BIG_JUMP_SIGNAL, jump % 256, jump / 256 % 256, jump / 0x10000 % 256]
  }

  /** The kinds, and the three forms by their bytes: a jump in six bits beside the kind, or 62 or 63 there and the jump
      in two or three bytes, lowest first. */
  lemma Forms(kind: nat, jump: nat)
    requires kind in {0x00, 0x40, 0x80, 0xC0}
    ensures IsKind(kind) && (HasResidual(kind) <==> kind < 0x80)
    ensures ADD == 0x00 && SET == 0x40 && SET_ZERO == 0x80 && CLEAR == 0xC0
    ensures var bytes := Encode(kind, jump);
            if jump < 62 then bytes == [kind + jump]
            else if jump < 0xFFFF then |bytes| == 3 && bytes[0] == kind + 62 && Little(bytes[1], bytes[2], 0) == jump
            else |bytes| == 4 && bytes[0] == kind + 63 && Little(bytes[1], bytes[2], bytes[3]) == jump % 0x1000000
  {
    ThreeBytes(jump);
  }

  /** The bytes a signal byte is followed by, itself included. */
  function SizeOfSignal(signal: nat): nat {
    if signal < BIG_JUMP_SIGNAL then 1 else if signal == BIG_JUMP_SIGNAL then 3 else 4
  }

  /** A number from its bytes, lowest first. */
  function Little(b0: nat, b1: nat, b2: nat): nat { b0 + b1 * 256 + b2 * 0x10000 }

  function DecodeKind(bytes: seq<byte>, at: nat): nat
    requires at < |bytes|
  {
    bytes[at] / 64 * 64
  }

  /** The jump at a position, and the size of the command; the bytes are there. */
  function DecodeJump(bytes: seq<byte>, at: nat): (nat, nat)
    requires at < |bytes| && at + SizeOfSignal(bytes[at] % 64) <= |bytes|
  {
    var signal := bytes[at] % 64;
    (if signal < BIG_JUMP_SIGNAL then signal
     else if signal == BIG_JUMP_SIGNAL then Little(bytes[at + 1], bytes[at + 2], 0)
     else Little(bytes[at + 1], bytes[at + 2], bytes[at + 3]),
     SizeOfSignal(signal))
  }

  /** Decoding undoes encoding, whatever comes before and after, but for what the jump has beyond 24 bits. */
  lemma DecodeEncoded(bytes: seq<byte>, at: nat, kind: nat, jump: nat)
    requires IsKind(kind)
    requires at + JumpSize(jump) <= |bytes| && bytes[at..at + JumpSize(jump)] == Encode(kind, jump)
    ensures SizeOfSignal(bytes[at] % 64) == JumpSize(jump)
    ensures DecodeKind(bytes, at) == kind && DecodeJump(bytes, at) == (Carried(jump), JumpSize(jump))
  {
    var e := bytes[at..at + JumpSize(jump)];
    assert bytes[at] == e[0];
    if jump >= BIG_JUMP_SIGNAL {
      assert bytes[at + 1] == e[1] && bytes[at + 2] == e[2];
      if jump >= EXTRA_BIG_JUMP {
        assert bytes[at + 3] == e[3];
        ThreeBytes(jump);
      }
    }
  }

  lemma ThreeBytes(jump: nat)
    ensures Little(jump % 256, jump / 256 % 256, jump / 0x10000 % 256) == Carried(jump)
  {
    var high := jump / 256 / 256;
    var low := Little(jump % 256, jump / 256 % 256, 0);
    DivModUnique(jump, 0x10000, high, low);
    DivModUnique(jump, 0x1000000, high / 256, low + high % 256 * 0x10000);
  }

  // -- Residuals --------------------------------------------------------------------------------

  const DDS_ORDER: seq<nat> := [0, 1, 4, 5, 2, 3, 6, 7, 8, 9, 12, 13, 10, 11, 14, 15]

  /** The order in which the values of a command are stored. */
  function Stored(values: seq<Int16>, transformSize: nat): (r: seq<Int16>)
    requires |values| == transformSize
    ensures |r| == transformSize
  {
    if transformSize == 16 then seq(16, i requires 0 <= i < 16 => values[DDS_ORDER[i]]) else values
  }

  /** The order loses nothing: storing in it twice gives the values back. */
  lemma StoredTwice(values: seq<Int16>, transformSize: nat)
    requires |values| == transformSize
    ensures Stored(Stored(values, transformSize), transformSize) == values
  {
    if transformSize == 16 {
      forall i | 0 <= i < 16 ensures DDS_ORDER[i] < 16 && DDS_ORDER[DDS_ORDER[i]] == i {}
    }
  }

  /** What the order is for: the values come as 2x2 pixels at a time, and are stored as rows of four pixels. The pixel
      in row c and column d of the square in row a and column b goes to its place in the rows. */
  lemma StoredInRows(values: seq<Int16>, a: nat, b: nat, c: nat, d: nat)
    requires |values| == 16 && a < 2 && b < 2 && c < 2 && d < 2
    ensures Stored(values, 16)[4 * (2 * a + c) + (2 * b + d)] == values[4 * (2 * a + b) + (2 * c + d)]
  {}

  function LowByte(v: Int16): byte { v % 256 }

  function HighByte(v: Int16): byte { if v < 0 then v / 256 + 256 else v / 256 }

  /** A 16-bit value from its two bytes, low byte first. */
  function FromBytes(low: byte, high: byte): Int16 {
    var u: int := Little(low, high, 0);
    if u < 0x8000 then u else u - 0x10000
  }

  function LayerBytes(values: seq<Int16>): (bytes: seq<byte>)
    ensures |bytes| == 2 * |values|
  {
    seq(2 * |values|, i requires 0 <= i < 2 * |values| =>
      if i % 2 == 0 then LowByte(values[i / 2]) else HighByte(values[i / 2]))
  }

  /** The values of n 16-bit samples at a position. */
  function ReadLayer(bytes: seq<byte>, at: nat, n: nat): (values: seq<Int16>)
    requires at + 2 * n <= |bytes|
    ensures |values| == n
  {
    seq(n, i requires 0 <= i < n => FromBytes(bytes[at + 2 * i], bytes[at + 2 * i + 1]))
  }

  lemma ReadLayerOf(bytes: seq<byte>, at: nat, values: seq<Int16>)
    requires at + 2 * |values| <= |bytes| && bytes[at..at + 2 * |values|] == LayerBytes(values)
    ensures ReadLayer(bytes, at, |values|) == values
  {
    forall i | 0 <= i < |values| ensures FromBytes(bytes[at + 2 * i], bytes[at + 2 * i + 1]) == values[i] {
      var e := bytes[at..at + 2 * |values|];
      assert bytes[at + 2 * i] == e[2 * i] && bytes[at + 2 * i + 1] == e[2 * i + 1];
    }
  }

  // -- The two ends of the buffer ---------------------------------------------------------------

  function CommandBytes(cmds: seq<Command>, n: nat, transformSize: nat): seq<byte>
    requires n <= |cmds| && AreCommands(cmds, transformSize)
  {
    if n == 0 then [] else CommandBytes(cmds, n - 1, transformSize) + Encode(cmds[n - 1].kind, cmds[n - 1].jump)
  }

  /** The stored residual of command k. */
  function Layer(cmds: seq<Command>, k: nat, transformSize: nat): (bytes: seq<byte>)
    requires k < |cmds| && AreCommands(cmds, transformSize) && HasResidual(cmds[k].kind)
    ensures |bytes| == 2 * transformSize
  {
    LayerBytes(Stored(cmds[k].values, transformSize))
  }

  /** The newest residual comes first. */
  function ResidualBytes(cmds: seq<Command>, n: nat, transformSize: nat): seq<byte>
    requires n <= |cmds| && AreCommands(cmds, transformSize)
  {
    if n == 0 then []
    else if HasResidual(cmds[n - 1].kind) then
      Layer(cmds, n - 1, transformSize) + ResidualBytes(cmds, n - 1, transformSize)
    else ResidualBytes(cmds, n - 1, transformSize)
  }

  // -- Where a decoder is before command n ------------------------------------------------------

  function TuIndex(cmds: seq<Command>, n: nat): nat
    requires n <= |cmds|
  {
    if n == 0 then 0 else TuIndex(cmds, n - 1) + Carried(cmds[n - 1].jump)
  }

  function CommandOffset(cmds: seq<Command>, n: nat): nat
    requires n <= |cmds|
  {
    if n == 0 then 0 else CommandOffset(cmds, n - 1) + JumpSize(cmds[n - 1].jump)
  }

  function Residuals(cmds: seq<Command>, n: nat): nat
    requires n <= |cmds|
  {
    if n == 0 then 0 else Residuals(cmds, n - 1) + if HasResidual(cmds[n - 1].kind) then 1 else 0
  }

  /** The bytes of residuals, from the end down. */
  function DataOffset(cmds: seq<Command>, n: nat, transformSize: nat): nat
    requires n <= |cmds|
  {
    if n == 0 then 0
    else DataOffset(cmds, n - 1, transformSize) + if HasResidual(cmds[n - 1].kind) then 2 * transformSize else 0
  }

  lemma {:induction false} DataOffsetIs(cmds: seq<Command>, n: nat, transformSize: nat)
    requires n <= |cmds|
    ensures DataOffset(cmds, n, transformSize) == Residuals(cmds, n) * transformSize * 2
  {
    if n > 0 {
      DataOffsetIs(cmds, n - 1, transformSize);
    }
  }

  lemma {:induction false} SizesAre(cmds: seq<Command>, n: nat, transformSize: nat)
    requires n <= |cmds| && AreCommands(cmds, transformSize)
    ensures |CommandBytes(cmds, n, transformSize)| == CommandOffset(cmds, n)
    ensures |ResidualBytes(cmds, n, transformSize)| == DataOffset(cmds, n, transformSize)
  {
    if n > 0 { SizesAre(cmds, n - 1, transformSize); }
  }

  /** The first bytes stay the first as more is appended. */
  lemma {:induction false} CommandAt(cmds: seq<Command>, k: nat, n: nat, transformSize: nat)
    requires k < n <= |cmds| && AreCommands(cmds, transformSize)
    ensures var bytes, at := CommandBytes(cmds, n, transformSize), CommandOffset(cmds, k);
            && at + JumpSize(cmds[k].jump) <= |bytes|
            && bytes[at..at + JumpSize(cmds[k].jump)] == Encode(cmds[k].kind, cmds[k].jump)
    decreases n
  {
    hide Encode, JumpSize, CommandOffset, IsKind;
    var before, last := CommandBytes(cmds, n - 1, transformSize), Encode(cmds[n - 1].kind, cmds[n - 1].jump);
    var bytes, at := before + last, CommandOffset(cmds, k);
    SizesAre(cmds, n - 1, transformSize);
    if k == n - 1 {
      assert bytes[at..at + |last|] == last;
    } else {
      CommandAt(cmds, k, n - 1, transformSize);
      var size := JumpSize(cmds[k].jump);
      assert bytes[at..at + size] == before[at..at + size];
    }
  }

  /** A residual stays at its distance from the end. */
  lemma {:induction false} ResidualAt(cmds: seq<Command>, k: nat, n: nat, transformSize: nat)
    requires k < n <= |cmds| && AreCommands(cmds, transformSize) && HasResidual(cmds[k].kind)
    ensures var bytes := ResidualBytes(cmds, n, transformSize);
            var below := DataOffset(cmds, k, transformSize) + 2 * transformSize;
            && below <= |bytes|
            && bytes[|bytes| - below..|bytes| - below + 2 * transformSize] == Layer(cmds, k, transformSize)
    decreases n
  {
    hide Layer, HasResidual, AreCommands;
    SizesAre(cmds, n - 1, transformSize);
    if k < n - 1 { ResidualAt(cmds, k, n - 1, transformSize); }
  }

  // -- Applying ---------------------------------------------------------------------------------

  /** A command as it reaches the picture: the transform unit, and the residual in stored order. */
  datatype Placed = Placed(tu: nat, kind: nat, residual: seq<Int16>)

  /** What the applicator does with `count` commands from a position in the bytes, counting `data` residuals down from
      the end: `Stuck` if it would read outside the bytes. */
  datatype Applied = Stuck | Applied(placed: seq<Placed>)

  function Apply(commands: seq<byte>, residuals: seq<byte>, transformSize: nat, tu: nat, at: nat, data: nat,
                 count: nat): Applied
    decreases count
  {
    if count == 0 then Applied([])
    else if at >= |commands| || at + SizeOfSignal(commands[at] % 64) > |commands| then Stuck
    else
      var (jump, size) := DecodeJump(commands, at);
      var kind := DecodeKind(commands, at);
      var below := data + 2 * transformSize;
      if HasResidual(kind) && below > |residuals| then Stuck
      else
        var residual := if HasResidual(kind) then ReadLayer(residuals, |residuals| - below, transformSize) else [];
        var rest := Apply(commands, residuals, transformSize, tu + jump, at + size,
            if HasResidual(kind) then below else data, count - 1);
        if rest.Stuck? then Stuck else Applied([Placed(tu + jump, kind, residual)] + rest.placed)
  }

  /** What command k means: where it lands, and the values it was appended with. */
  function Meaning(cmds: seq<Command>, k: nat, transformSize: nat): Placed
    requires k < |cmds| && IsCommand(cmds[k], transformSize)
  {
    Placed(TuIndex(cmds, k + 1), cmds[k].kind,
           if HasResidual(cmds[k].kind) then Stored(cmds[k].values, transformSize) else [])
  }

  function Meanings(cmds: seq<Command>, from: nat, to: nat, transformSize: nat): seq<Placed>
    requires from <= to <= |cmds| && AreCommands(cmds, transformSize)
  {
    seq(to - from, i requires 0 <= i < to - from => Meaning(cmds, from + i, transformSize))
  }

  lemma ApplyOne(cmds: seq<Command>, k: nat, commands: seq<byte>, residuals: seq<byte>, transformSize: nat, count: nat)
    requires k < |cmds| && AreCommands(cmds, transformSize) && count > 0
    requires commands == CommandBytes(cmds, |cmds|, transformSize)
    requires residuals == ResidualBytes(cmds, |cmds|, transformSize)
    ensures var rest := Apply(commands, residuals, transformSize, TuIndex(cmds, k + 1), CommandOffset(cmds, k + 1),
                              DataOffset(cmds, k + 1, transformSize), count - 1);
            Apply(commands, residuals, transformSize, TuIndex(cmds, k), CommandOffset(cmds, k),
                  DataOffset(cmds, k, transformSize), count)
            == if rest.Stuck? then Stuck else Applied([Meaning(cmds, k, transformSize)] + rest.placed)
  {
    hide Stored, Encode, DecodeKind, DecodeJump, ReadLayer, LayerBytes, CommandBytes, ResidualBytes, JumpSize,
         SizeOfSignal, Carried;
    CommandAt(cmds, k, |cmds|, transformSize);
    DecodeEncoded(commands, CommandOffset(cmds, k), cmds[k].kind, cmds[k].jump);
    if HasResidual(cmds[k].kind) {
      ResidualAt(cmds, k, |cmds|, transformSize);
      ReadLayerOf(residuals, |residuals| - (DataOffset(cmds, k, transformSize) + 2 * transformSize),
                  Stored(cmds[k].values, transformSize));
    }
  }

  /** Main result on the format: from the decoder's state before command k, the next commands are read back exactly. */
  lemma {:induction false} ApplyIs(cmds: seq<Command>, k: nat, to: nat, transformSize: nat)
    requires k <= to <= |cmds| && AreCommands(cmds, transformSize)
    ensures Apply(CommandBytes(cmds, |cmds|, transformSize), ResidualBytes(cmds, |cmds|, transformSize), transformSize,
                  TuIndex(cmds, k), CommandOffset(cmds, k), DataOffset(cmds, k, transformSize), to - k) ==
            Applied(Meanings(cmds, k, to, transformSize))
    decreases |cmds| - k
  {
    hide Apply, CommandBytes, ResidualBytes, TuIndex, CommandOffset, DataOffset, Meaning, AreCommands;
    var commands, residuals := CommandBytes(cmds, |cmds|, transformSize), ResidualBytes(cmds, |cmds|, transformSize);
    if k == to {
      assert Meanings(cmds, k, to, transformSize) == [];
      ApplyNone(commands, residuals, transformSize, TuIndex(cmds, k), CommandOffset(cmds, k),
                DataOffset(cmds, k, transformSize));
    } else {
      ApplyIs(cmds, k + 1, to, transformSize);
      ApplyOne(cmds, k, commands, residuals, transformSize, to - k);
    }
  }

  lemma ApplyNone(commands: seq<byte>, residuals: seq<byte>, transformSize: nat, tu: nat, at: nat, data: nat)
    ensures Apply(commands, residuals, transformSize, tu, at, data, 0) == Applied([])
  {}

}
