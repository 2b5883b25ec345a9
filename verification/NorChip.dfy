/** The serial NOR flash chip at command level, and the SPI bus in front of it.

    A command is the byte frame clocked in while chip select is low; it takes effect when chip
    select rises.  The chip ignores everything but status reads while it is busy, needs the
    write-enable latch for every program and erase, wraps programs inside a page, and can only
    clear bits when programming.  A failing SPI transfer delivers an arbitrary prefix of its bytes. */
module NorChip {
  import opened Bits

  datatype Opcode = StatusOp | EnableOp | ReadOp | ProgramOp | SectorOp | BlockOp | ChipOp
                  | ResetEnableOp | ResetOp | UnknownOp

  /** Geometry (log2 bytes), command codes and timeouts (ms) of a chip. */
  datatype FlashInfo = FlashInfo(
    capacity: nat, pageSize: nat, sectorSize: nat, blockSize: nat,
    cmdReadStatus: byte, statusBusyBit: byte, cmdWriteEnable: byte, cmdRead: byte, cmdProgramPage: byte,
    cmdEraseSector: byte, cmdEraseBlock: byte, cmdEraseChip: byte, cmdResetEnable: byte, cmdReset: byte,
    timeoutPageProgram: nat, timeoutSectorErase: nat, timeoutBlockErase: nat, timeoutChipErase: nat)
  {
    function CapacityBytes(): nat { Pow2(capacity) }
    function PageSizeBytes(): nat { Pow2(pageSize) }
    function SectorSizeBytes(): nat { Pow2(sectorSize) }
    function BlockSizeBytes(): nat { Pow2(blockSize) }

    function Decode(op: byte): Opcode {
      if op == cmdReadStatus then StatusOp
      else if op == cmdWriteEnable then EnableOp
      else if op == cmdRead then ReadOp
      else if op == cmdProgramPage then ProgramOp
      else if op == cmdEraseSector then SectorOp
      else if op == cmdEraseBlock then BlockOp
      else if op == cmdEraseChip then ChipOp
      else if op == cmdResetEnable then ResetEnableOp
      else if op == cmdReset then ResetOp
      else UnknownOp
    }

    /** Nested power-of-two units within 24 address bits, and command codes that are told apart. */
    ghost predicate Valid() {
      && pageSize <= capacity && sectorSize <= blockSize <= capacity <= 24
      && statusBusyBit > 0
      && Decode(cmdWriteEnable) == EnableOp && Decode(cmdRead) == ReadOp && Decode(cmdProgramPage) == ProgramOp
      && Decode(cmdEraseSector) == SectorOp && Decode(cmdEraseBlock) == BlockOp
      && Decode(cmdEraseChip) == ChipOp && Decode(cmdResetEnable) == ResetEnableOp && Decode(cmdReset) == ResetOp
    }
  }

  /** The one chip the firmware knows. */
  const W25Q64JV := FlashInfo(23, 8, 12, 16, 0x05, 0x01, 0x06, 0x03, 0x02, 0x20, 0xD8, 0xC7, 0x66, 0x99,
                              3, 400, 2000, 100 * 1000)

  datatype EraseUnit = Sector(address: nat) | Block(address: nat) | Whole

  /** Cell contents, write-enable latch, how many more status reads can show the busy bit, and the
      erase commands carried out so far. */
  datatype Chip = Chip(mem: seq<byte>, writeEnabled: bool, busyFor: nat, erases: seq<EraseUnit>)

  // ----- what a program or an erase does to the array -----

  /** Programming: every byte of the range becomes `old & new`, all others stay. */
  function AndWrite(mem: seq<byte>, a: nat, data: seq<byte>): (r: seq<byte>)
    requires a + |data| <= |mem|
    ensures |r| == |mem|
  {
    seq(|mem|, i requires 0 <= i < |mem| => if a <= i < a + |data| then And(mem[i], data[i - a]) else mem[i])
  }

  /** Erasing: every byte of the range becomes 0xFF, all others stay. */
  function Erased(mem: seq<byte>, a: nat, n: nat): (r: seq<byte>)
    ensures |r| == |mem|
  {
    seq(|mem|, i requires 0 <= i < |mem| => if a <= i < a + n then 0xFF else mem[i])
  }

  function AlignDown(a: nat, unit: nat): (r: nat)
    requires unit > 0
    ensures r <= a
  {
    a - a % unit
  }

  /** The chip's page latch after clocking in `data` from offset `at`: positions wrap, later bytes win. */
  function Latch(page: nat, at: nat, data: seq<byte>): (latch: seq<byte>)
    requires page > 0
    ensures |latch| == page
  {
    if data == [] then seq(page, _ => 0xFF)
    else
      var n := |data| - 1;
      Latch(page, at, data[..n])[(at + n) % page := data[n]]
  }

  /** The program command: AND the latch onto the page that holds address `a`. */
  function Programmed(page: nat, mem: seq<byte>, a: nat, data: seq<byte>): (r: seq<byte>)
    requires page > 0
    ensures |r| == |mem|
  {
    var base := AlignDown(a, page);
    var latch := Latch(page, a % page, data);
    seq(|mem|, i requires 0 <= i < |mem| => if base <= i < base + page then And(mem[i], latch[i - base]) else mem[i])
  }

  predicate MayWrite(info: FlashInfo, c: Chip) {
    c.writeEnabled || info.cmdWriteEnable == 0
  }

  function FrameAddress(info: FlashInfo, frame: seq<byte>): nat
    requires |frame| >= 4
  {
    DecodeAddress(frame[1..4]) % info.CapacityBytes()
  }

  /** The chip after chip select rises on `frame`; an accepted operation keeps it busy for `duration`
      status reads. */
  function Execute(info: FlashInfo, c: Chip, frame: seq<byte>, duration: nat): (c': Chip)
    ensures |c'.mem| == |c.mem|
  {
    if c.busyFor > 0 || frame == [] then c
    else match info.Decode(frame[0])
      case EnableOp =>
        if |frame| == 1 then c.(writeEnabled := true) else c
      case ProgramOp =>
        if |frame| > 4 && MayWrite(info, c) then
          Chip(Programmed(info.PageSizeBytes(), c.mem, FrameAddress(info, frame), frame[4..]), false, duration, c.erases)
        else c
      case SectorOp =>
        if |frame| == 4 && MayWrite(info, c) then
          EraseUnitAt(c, Sector(AlignDown(FrameAddress(info, frame), info.SectorSizeBytes())), info.SectorSizeBytes(), duration)
        else c
      case BlockOp =>
        if |frame| == 4 && MayWrite(info, c) then
          EraseUnitAt(c, Block(AlignDown(FrameAddress(info, frame), info.BlockSizeBytes())), info.BlockSizeBytes(), duration)
        else c
      case ChipOp =>
        if |frame| == 1 && MayWrite(info, c) then
          Chip(Erased(c.mem, 0, |c.mem|), false, duration, c.erases + [Whole])
        else c
      case ResetOp =>
        c.(writeEnabled := false)
      case _ => c
  }

  /** One frame on the bus: the chip may get ready before it, and all of it arrives or some prefix. */
  ghost predicate Delivered(info: FlashInfo, c: Chip, c': Chip, frame: seq<byte>, whole: bool) {
    exists k, busyFor: nat ::
      && 0 <= k <= |frame| && busyFor <= c.busyFor && (whole ==> k == |frame|)
      && c' == Execute(info, c.(busyFor := busyFor), frame[..k], c'.busyFor)
  }

  function EraseUnitAt(c: Chip, u: EraseUnit, size: nat, duration: nat): (c': Chip)
    requires !u.Whole?
    ensures |c'.mem| == |c.mem|
  {
    Chip(Erased(c.mem, u.address, size), false, duration, c.erases + [u])
  }

  // ----- array lemmas -----

  lemma {:induction false} LatchWithoutWrap(page: nat, at: nat, data: seq<byte>)
    requires page > 0 && at + |data| <= page
    ensures forall j :: 0 <= j < page ==>
              Latch(page, at, data)[j] == if at <= j < at + |data| then data[j - at] else 0xFF
  {
    if data == [] {
    } else {
      var n := |data| - 1;
      LatchWithoutWrap(page, at, data[..n]);
      ModIs(at + n, page, 0, at + n);
    }
  }

  /** A program that stays inside its page is a plain AND over its range. */
  lemma ProgramInsidePage(page: nat, mem: seq<byte>, a: nat, data: seq<byte>)
    requires page > 0 && a % page + |data| <= page && a + |data| <= |mem|
    ensures Programmed(page, mem, a, data) == AndWrite(mem, a, data)
  {
    var base := AlignDown(a, page);
    LatchWithoutWrap(page, a % page, data);
    forall i | 0 <= i < |mem|
      ensures Programmed(page, mem, a, data)[i] == AndWrite(mem, a, data)[i]
    {
      AndAllOnes(mem[i]);
    }
  }

  /** Two adjacent erases are one. */
  lemma ErasedJoin(mem: seq<byte>, a: nat, n1: nat, n2: nat)
    ensures Erased(Erased(mem, a, n1), a + n1, n2) == Erased(mem, a, n1 + n2)
  {
  }

  /** Erase, write, read back: on an erased range the array holds exactly the data, and a range
      disjoint from it is not disturbed. */
  lemma WriteAfterErase(mem: seq<byte>, a: nat, data: seq<byte>)
    requires a + |data| <= |mem|
    requires forall i :: a <= i < a + |data| ==> mem[i] == 0xFF
    ensures AndWrite(mem, a, data)[a..a + |data|] == data
    ensures AndWrite(mem, a, data)[..a] == mem[..a]
    ensures AndWrite(mem, a, data)[a + |data|..] == mem[a + |data|..]
  {
    var r := AndWrite(mem, a, data);
    forall i | 0 <= i < |data|
      ensures r[a + i] == data[i]
    {
      AndAllOnes(data[i]);
    }
  }

  // ----- the bus -----

  class SpiBus {
    const info: FlashInfo
    var chip: Chip
    var frame: seq<byte>
    ghost var statusReads: nat
    ghost var faults: nat   // transfers that failed so far

    ghost predicate Valid()
      reads this
    {
      info.Valid() && |chip.mem| == info.CapacityBytes()
    }

    constructor (info: FlashInfo, chip: Chip)
      requires info.Valid() && |chip.mem| == info.CapacityBytes()
      ensures Valid() && this.info == info && this.chip == chip
    {
      this.info, this.chip, frame, statusReads, faults := info, chip, [], 0, 0;
    }

    /** Chip select falls.  Time has passed since the last frame, so the chip may have come closer to the
        end of what it was doing, or reached it. */
    method Select()
      requires Valid()
      modifies this
      ensures Valid() && frame == [] && statusReads == old(statusReads) && faults == old(faults)
      ensures chip == old(chip).(busyFor := chip.busyFor) && chip.busyFor <= old(chip.busyFor)
    {
      var busyFor: nat :| busyFor <= chip.busyFor;
      chip := chip.(busyFor := busyFor);
      frame := [];
    }

    /** Clock out `bytes`; on failure only some prefix of them reached the chip. */
    method Transmit(bytes: seq<byte>) returns (ok: bool)
      requires Valid()
      modifies this
      ensures Valid() && chip == old(chip) && statusReads == old(statusReads)
      ensures faults == old(faults) + if ok then 0 else 1
      ensures ok ==> frame == old(frame) + bytes
      ensures exists k :: 0 <= k <= |bytes| && frame == old(frame) + bytes[..k]
    {
      ok := *;
      if ok {
        assert bytes[..|bytes|] == bytes;
        frame := frame + bytes;
      } else {
        var k :| 0 <= k <= |bytes|;
        frame := frame + bytes[..k];
        faults := faults + 1;
      }
    }

    /** Clock in `n` bytes: the status register, memory contents, or noise. */
    method Receive(n: nat) returns (ok: bool, data: seq<byte>)
      requires Valid()
      modifies this
      ensures Valid() && frame == old(frame)
      ensures chip == old(chip).(busyFor := chip.busyFor) && chip.busyFor <= old(chip.busyFor)
      ensures |data| == n && faults == old(faults) + if ok then 0 else 1
      ensures ok && frame == [info.cmdReadStatus] && n == 1 ==>
                && (And(data[0], info.statusBusyBit) != 0 <==> old(chip.busyFor) > 0)
                && (old(chip.busyFor) > 0 ==> chip.busyFor == old(chip.busyFor) - 1)
      ensures frame == [info.cmdReadStatus] && n == 1 ==> statusReads == old(statusReads) + 1
      ensures !(frame == [info.cmdReadStatus] && n == 1) ==>
                statusReads == old(statusReads) && chip == old(chip)
      ensures ok && |frame| == 4 && frame[0] == info.cmdRead && chip.busyFor == 0 ==>
                forall i :: 0 <= i < n ==>
                  data[i] == chip.mem[(FrameAddress(info, frame) + i) % info.CapacityBytes()]
    {
      ok := *;
      if !ok {
        faults := faults + 1;
      }
      data := seq(n, _ => 0xFF);
      if frame == [info.cmdReadStatus] && n == 1 {
        statusReads := statusReads + 1;
        data := [if chip.busyFor > 0 then info.statusBusyBit else 0];
        AndItself(info.statusBusyBit);
        if chip.busyFor > 0 {
          chip := chip.(busyFor := chip.busyFor - 1);
        }
      } else if |frame| == 4 && frame[0] == info.cmdRead && chip.busyFor == 0 {
        var a, mem := FrameAddress(info, frame), chip.mem;
        data := seq(n, i requires 0 <= i => mem[(a + i) % |mem|]);
      }
    }

    /** Time passes with no traffic: whatever the chip was doing completes. */
    method Settle()
      requires Valid()
      modifies this
      ensures Valid() && chip == old(chip).(busyFor := 0) && statusReads == old(statusReads) && faults == old(faults)
    {
      chip := chip.(busyFor := 0);
    }

    /** Chip select rises: the frame takes effect. */
    method Deselect()
      requires Valid()
      modifies this
      ensures Valid() && statusReads == old(statusReads) && faults == old(faults)
      ensures chip == Execute(info, old(chip), old(frame), chip.busyFor)
    {
      var duration: nat := *;
      chip := Execute(info, chip, frame, duration);
      frame := [];
    }
  }

  lemma {:induction false} AndItself(x: nat)
    ensures And(x, x) == x
    decreases x
  {
    if x == 0 {
    } else {
      AndItself(x / 2);
    }
  }
}
