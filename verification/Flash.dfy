/** The flash driver: splits writes into page programs and erases into sector and block commands,
    and sequences write-enable, command and busy-wait on the chip. */
module Flash {
  import opened Common
  import opened Bits
  import opened NorChip
  import opened EraseTiling

  datatype Error = NoError | UnalignedSize | Timeout | IoCommand | IoPayload | UnalignedAddress
                 | PageWriteTooBig | InvalidArguments

  const TICK_RATE_HZ: nat := 250

  function MsToTicks(ms: nat): nat {
    ms * TICK_RATE_HZ % WRAP32 / 1000
  }

  /** The scheduler tick: 32 bits wide, and frozen until the scheduler starts. */
  class Clock {
    const running: bool
    var ticks: nat

    constructor (running: bool)
      ensures this.running == running
    {
      this.running, ticks := running, 0;
    }

    method Now() returns (now: nat)
      modifies this
      ensures old(ticks) <= ticks && (!running ==> ticks == old(ticks))
      ensures now == ticks % WRAP32
    {
      var elapsed: nat :| elapsed >= 0;
      ticks := ticks + if running then elapsed else 0;
      now := ticks % WRAP32;
    }

    method Delay(n: nat)
      requires running
      modifies this
      ensures ticks >= old(ticks) + n
    {
      var late: nat :| late >= 0;
      ticks := ticks + n + late;
    }
  }

  /** The driver's check of a deadline, on 32-bit ticks. */
  predicate Expired(t: nat, now: nat, timeout: nat) {
    now % WRAP32 > (t % WRAP32 + timeout) % WRAP32
  }

  predicate IsIoError(e: Error) { e == IoCommand || e == IoPayload }

  class Driver {
    const info: FlashInfo
    const bus: SpiBus
    const clock: Clock

    ghost predicate Valid()
      reads this, bus
    {
      bus.Valid() && bus.info == info
    }

    /** The byte array the driver presents. */
    ghost function Mem(): seq<byte>
      reads bus
    {
      bus.chip.mem
    }

    /** No program or erase is in progress on the chip. */
    ghost predicate Idle()
      reads bus
    {
      bus.chip.busyFor == 0
    }

    /** A transfer has failed exactly if the error says so. */
    twostate predicate Faulted(err: Error)
      reads bus
    {
      bus.faults == old(bus.faults) + if IsIoError(err) then 1 else 0
    }

    /** A wait of `ms` milliseconds, begun in tick `since` or later, has gone past its deadline as the driver
        reckons it; without wrap-around of the tick, more than `ms` milliseconds have passed. */
    ghost predicate TimedOut(since: nat, ms: nat)
      reads clock
    {
      && (exists t, now :: since <= t <= now <= clock.ticks && Expired(t, now, MsToTicks(ms)))
      && (clock.ticks + MsToTicks(ms) < WRAP32 ==> clock.ticks > since + MsToTicks(ms))
    }

    /** One of the waits for a program or an erase unit has taken too long. */
    ghost predicate SomeTimeout(since: nat)
      reads clock
    {
      || TimedOut(since, info.timeoutPageProgram) || TimedOut(since, info.timeoutSectorErase)
      || TimedOut(since, info.timeoutBlockErase) || TimedOut(since, info.timeoutChipErase)
    }

    /** The chip was asked for its status no more often than a timeout of `ms` milliseconds allows, as far as
        the scheduler is running and the tick has not wrapped. */
    twostate predicate FewPolls(ms: nat)
      reads bus, clock
    {
      clock.running && clock.ticks < WRAP32 ==> bus.statusReads - old(bus.statusReads) <= MsToTicks(ms) / 2 + 2
    }

    constructor (bus: SpiBus, clock: Clock)
      requires bus.Valid()
      ensures Valid() && this.bus == bus && this.clock == clock && info == bus.info
    {
      this.bus, this.clock, info := bus, clock, bus.info;
    }

    /** A command without payload: it takes effect whole on success, as a prefix on failure. */
    method ExecCmd(cmd: seq<byte>) returns (err: Error)
      requires Valid()
      modifies bus
      ensures Valid() && bus.statusReads == old(bus.statusReads)
      ensures (err == NoError || err == IoCommand) && Faulted(err)
      ensures Delivered(info, old(bus.chip), bus.chip, cmd, err == NoError)
    {
      bus.Select();
      var ok := bus.Transmit(cmd);
      assert cmd[..|cmd|] == cmd;
      ghost var k := |cmd|;
      if !ok {
        k :| 0 <= k <= |cmd| && bus.frame == [] + cmd[..k];
      }
      assert bus.frame == cmd[..k];
      ghost var selected := bus.chip;
      bus.Deselect();
      assert selected == old(bus.chip).(busyFor := selected.busyFor);
      assert bus.chip == Execute(info, old(bus.chip).(busyFor := selected.busyFor), cmd[..k], bus.chip.busyFor);
      err := if ok then NoError else IoCommand;
    }

    /** A status or memory read: command, then `n` payload bytes in. */
    method ExecCmdRead(cmd: seq<byte>, n: nat) returns (err: Error, data: seq<byte>)
      requires Valid()
      requires |cmd| > 0 && n > 0 && info.Decode(cmd[0]) in {StatusOp, ReadOp}
      modifies bus
      ensures Valid()
      ensures (err == NoError || IsIoError(err)) && Faulted(err)
      ensures err == NoError ==> |data| == n
      ensures bus.chip == old(bus.chip).(busyFor := bus.chip.busyFor) && bus.chip.busyFor <= old(bus.chip.busyFor)
      ensures cmd == [info.cmdReadStatus] && n == 1 ==> bus.statusReads <= old(bus.statusReads) + 1
      ensures cmd == [info.cmdReadStatus] && n == 1 && err == NoError ==>
                && bus.statusReads == old(bus.statusReads) + 1
                && if And(data[0], info.statusBusyBit) == 0 then Idle() else bus.chip.busyFor < old(bus.chip.busyFor)
      ensures |cmd| == 4 && cmd[0] == info.cmdRead && err == NoError && old(Idle()) ==>
                forall i :: 0 <= i < n ==> data[i] == old(Mem())[(FrameAddress(info, cmd) + i) % info.CapacityBytes()]
    {
      data := [];
      err := NoError;
      bus.Select();
      var ok := bus.Transmit(cmd);
      if !ok {
        err := IoCommand;
      } else {
        assert bus.frame == cmd;
        ok, data := bus.Receive(n);
        if !ok {
          err := IoPayload;
        }
      }
      bus.Deselect();
    }

    /** Command, then payload out. */
    method ExecCmdWrite(cmd: seq<byte>, data: seq<byte>) returns (err: Error)
      requires Valid()
      modifies bus
      ensures Valid() && bus.statusReads == old(bus.statusReads)
      ensures (err == NoError || IsIoError(err)) && Faulted(err)
      ensures Delivered(info, old(bus.chip), bus.chip, cmd + data, err == NoError)
    {
      err := NoError;
      bus.Select();
      var ok := bus.Transmit(cmd);
      ghost var whole := cmd + data;
      assert cmd[..|cmd|] == cmd && data[..|data|] == data;
      ghost var k :| 0 <= k <= |cmd| && bus.frame == cmd[..k];
      assert bus.frame == whole[..k];
      if !ok {
        err := IoCommand;
      } else if |data| > 0 {
        ok := bus.Transmit(data);
        ghost var j :| 0 <= j <= |data| && bus.frame == cmd + data[..j];
        k := |cmd| + j;
        if !ok {
          err := IoPayload;
        }
      }
      if err == NoError {
        k := |whole|;
      }
      assert bus.frame == whole[..k];
      ghost var selected := bus.chip;
      bus.Deselect();
      assert bus.chip == Execute(info, old(bus.chip).(busyFor := selected.busyFor), whole[..k], bus.chip.busyFor);
    }

    method Read(address: nat, n: nat) returns (err: Error, buffer: seq<byte>)
      requires Valid()
      modifies bus
      ensures Valid()
      ensures bus.chip == old(bus.chip).(busyFor := bus.chip.busyFor) && bus.chip.busyFor <= old(bus.chip.busyFor)
      ensures n == 0 <==> err == InvalidArguments
      ensures (err == NoError || err == InvalidArguments || IsIoError(err)) && Faulted(err)
      ensures err == NoError ==> |buffer| == n
      ensures err == NoError && old(Idle()) && address + n <= info.CapacityBytes() ==>
                buffer == Mem()[address..address + n]
    {
      if n == 0 {
        return InvalidArguments, [];
      }
      var cmd := [info.cmdRead] + AddressBytes(address);
      err, buffer := ExecCmdRead(cmd, n);
      if err == NoError && old(Idle()) && address + n <= info.CapacityBytes() {
        FrameAddressIs(info, cmd, address);
        forall i | 0 <= i < n
          ensures buffer[i] == Mem()[address + i]
        {
          ModIs(address + i, info.CapacityBytes(), 0, address + i);
        }
      }
    }

    /** Sets the latch, unless the chip has none or is busy and ignores the command. */
    method WriteEnable() returns (err: Error)
      requires Valid()
      modifies bus
      ensures Valid() && bus.statusReads == old(bus.statusReads)
      ensures (err == NoError || err == IoCommand) && Faulted(err)
      ensures bus.chip == old(bus.chip).(writeEnabled := bus.chip.writeEnabled, busyFor := bus.chip.busyFor)
      ensures bus.chip.busyFor <= old(bus.chip.busyFor)
      ensures err == NoError && Idle() ==> MayWrite(info, bus.chip)
    {
      if info.cmdWriteEnable == 0 {
        return NoError;
      }
      var cmd := [info.cmdWriteEnable];
      err := ExecCmd(cmd);
      assert cmd[..0] == [] && cmd[..1] == cmd;
    }

    /** Poll until the chip is no longer busy.  With the scheduler started and the tick not wrapping,
        the number of status reads is bounded by the timeout (the delay between two reads is two
        ticks), and a timeout is reported only when the deadline has passed. */
    method WaitForCompletion(timeoutMsec: nat) returns (err: Error)
      requires Valid()
      modifies bus, clock
      ensures Valid()
      ensures (err == NoError || err == Timeout || IsIoError(err)) && Faulted(err)
      ensures bus.chip == old(bus.chip).(busyFor := bus.chip.busyFor)
      ensures err == NoError ==> Idle()
      ensures err == Timeout ==> !old(Idle()) && bus.statusReads - old(bus.statusReads) <= old(bus.chip.busyFor)
      ensures err == Timeout ==> TimedOut(old(clock.ticks), timeoutMsec)
      ensures bus.statusReads - old(bus.statusReads) <= old(bus.chip.busyFor) + 1
      ensures FewPolls(timeoutMsec) && old(clock.ticks) <= clock.ticks
    {
      hide And, Pow2, Execute, MsToTicks, InTime;
      TenMilliseconds();
      var cmd := [info.cmdReadStatus];
      var now := clock.Now();
      ghost var t0 := clock.ticks;
      var timeout := MsToTicks(timeoutMsec);
      var expires := (now + timeout) % WRAP32;
      ghost var i, last := 0, t0;
      NoPollYet(t0, timeout);
      while true
        invariant Valid() && bus.faults == old(bus.faults)
        invariant bus.chip == old(bus.chip).(busyFor := bus.chip.busyFor)
        invariant bus.statusReads == old(bus.statusReads) + i
        invariant i + bus.chip.busyFor <= old(bus.chip.busyFor)
        invariant t0 <= last <= clock.ticks
        invariant clock.running ==> t0 + 2 * i <= clock.ticks
        invariant clock.running ==> InTime(t0, last, i, timeout)
        decreases bus.chip.busyFor
      {
        if clock.running && clock.ticks < WRAP32 {
          PollBound(t0, last, i, timeout);
        }
        var status;
        err, status := ExecCmdRead(cmd, 1);
        if err != NoError {
          return;
        }
        if And(status[0], info.statusBusyBit) == 0 {
          return NoError;
        }
        var tick := clock.Now();
        if tick > expires {
          DeadlinePassed(t0, clock.ticks, timeout);
          assert Expired(t0, clock.ticks, timeout);
          return Timeout;
        }
        last := clock.ticks;
        if clock.running {
          InTimeStep(t0, last, i, timeout);
          clock.Delay(MsToTicks(10));
        }
        i := i + 1;
      }
    }

    /** Program at most one page.  Whatever goes wrong, a prefix of the data has been programmed; a
        success programs all of it or, if the chip was still busy and ignored the command, nothing. */
    method WritePage(address: nat, data: seq<byte>) returns (err: Error)
      requires Valid() && address < info.CapacityBytes()
      modifies bus, clock
      ensures Valid()
      ensures data == [] <==> err == InvalidArguments
      ensures data != [] && !PageGuard(info.PageSizeBytes(), address, |data|) <==> err == PageWriteTooBig
      ensures err == InvalidArguments || err == PageWriteTooBig ==> bus.chip == old(bus.chip)
      ensures bus.chip.erases == old(bus.chip.erases)
      ensures err != UnalignedAddress && err != UnalignedSize
      ensures Faulted(err) && FewPolls(info.timeoutPageProgram) && old(clock.ticks) <= clock.ticks
      ensures err == Timeout ==> TimedOut(old(clock.ticks), info.timeoutPageProgram)
      ensures err == NoError ==> Idle()
      ensures PageWritten(info.PageSizeBytes(), old(bus.chip), bus.chip, err, address, data)
    {
      hide And, Pow2, Programmed, Delivered, Execute, AddressBytes;
      if data == [] {
        return InvalidArguments;
      }
      ByteMasks();
      var lowByte := LowBits(address, 8);
      var wrapBytes := |data| + lowByte;
      if wrapBytes > info.PageSizeBytes() {
        return PageWriteTooBig;
      }
      err := WriteEnable();
      if err != NoError {
        return;
      }
      var cmd := [info.cmdProgramPage] + AddressBytes(address);
      ghost var before := bus.chip;
      err := ExecCmdWrite(cmd, data);
      ProgramDelivered(info, before, bus.chip, address, cmd, data, err == NoError);
      if err != NoError {
        return;
      }
      err := WaitForCompletion(info.timeoutPageProgram);
    }

    /** Program any range inside the chip.  On success the range is `old & data` and nothing else
        changed; on any failure exactly a prefix of the data took effect.  If the chip was still busy
        when the call started, the first page's share may be lost without an error, all of it or
        none. */
    method Write(address: nat, data: seq<byte>) returns (err: Error)
      requires Valid() && address + |data| <= info.CapacityBytes()
      modifies bus, clock
      ensures Valid()
      ensures data == [] <==> err == InvalidArguments
      ensures info.pageSize >= 8 ==> err != PageWriteTooBig
      ensures err == PageWriteTooBig ==> exists k :: 0 <= k < |data| && Rejects(address, |data|, k)
      ensures err != UnalignedAddress && err != UnalignedSize
      ensures Faulted(err) && old(clock.ticks) <= clock.ticks
      ensures err == Timeout ==> TimedOut(old(clock.ticks), info.timeoutPageProgram)
      ensures bus.chip.erases == old(bus.chip.erases)
      ensures err == NoError ==> Idle()
      ensures err == NoError ==>
                || ProgrammedUpTo(old(Mem()), Mem(), address, data, 0, |data|)
                || ProgrammedUpTo(old(Mem()), Mem(), address, data, Lost(old(Idle()), address, |data|), |data|)
      ensures || ProgrammedPrefix(old(Mem()), Mem(), address, data, 0)
              || ProgrammedPrefix(old(Mem()), Mem(), address, data, Lost(old(Idle()), address, |data|))
    {
      hide ProgrammedUpTo, ProgrammedPrefix, PageWritten, Programmed, Pow2, And, Piece, PageGuard;
      ghost var lost := 0;
      ProgrammedNothing(Mem(), address, data);
      if data == [] {
        return InvalidArguments;
      }
      var totalBytes: nat, offset: nat := |data|, 0;
      var pageSize := info.PageSizeBytes();
      while totalBytes > 0
        invariant Valid() && offset + totalBytes == |data| && bus.faults == old(bus.faults) && old(clock.ticks) <= clock.ticks
        invariant bus.chip.erases == old(bus.chip.erases)
        invariant offset == 0 ==> bus.chip == old(bus.chip) && lost == 0
        invariant offset > 0 ==> Idle()
        invariant lost <= offset && lost in {0, Lost(old(Idle()), address, |data|)}
        invariant ProgrammedUpTo(old(Mem()), Mem(), address, data, lost, offset)
        decreases totalBytes
      {
        var start := address + offset;
        var numBytes := LargestPiece(start, totalBytes);
        var chunk := data[offset..offset + numBytes];
        ghost var before := bus.chip;
        err := WritePage(start, chunk);
        GuardAcceptsChunk(info, start, numBytes);
        lost := WriteStep(pageSize, old(Mem()), before, bus.chip, err, address, data, lost, offset, numBytes);
        if err != NoError {
          assert err == PageWriteTooBig ==> Rejects(address, |data|, offset);
          return;
        }
        offset := offset + numBytes;
        totalBytes := totalBytes - numBytes;
      }
      ProgrammedWholePrefix(old(Mem()), Mem(), address, data, lost);
      return NoError;
    }

    /** Write enable, one erase command, wait.  The unit is erased or untouched, never in between; a
        chip still busy ignores the command. */
    method EraseWithAddress(cmd: byte, unit: EraseUnit, timeoutMsec: nat) returns (err: Error)
      requires Valid()
      requires (unit.Sector? && cmd == info.cmdEraseSector) || (unit.Block? && cmd == info.cmdEraseBlock)
      requires unit.address < info.CapacityBytes() && unit.address % UnitSize(unit) == 0
      modifies bus, clock
      ensures Valid()
      ensures err != UnalignedAddress && EraseOutcome(err, old(bus.chip), bus.chip, unit)
      ensures Faulted(err) && FewPolls(timeoutMsec) && old(clock.ticks) <= clock.ticks
      ensures err == Timeout ==> TimedOut(old(clock.ticks), timeoutMsec)
    {
      hide Erased, Delivered, Execute, AddressBytes, Pow2, And;
      err := WriteEnable();
      if err != NoError {
        return;
      }
      var frame := [cmd] + AddressBytes(unit.address);
      ghost var before := bus.chip;
      err := ExecCmd(frame);
      EraseDelivered(info, before, bus.chip, unit, frame, err == NoError);
      if err != NoError {
        return;
      }
      err := WaitForCompletion(timeoutMsec);
    }

    function UnitSize(u: EraseUnit): nat {
      SizeOf(u, info.SectorSizeBytes(), info.BlockSizeBytes())
    }

    method EraseSector(address: nat) returns (err: Error)
      requires Valid() && address < info.CapacityBytes()
      modifies bus, clock
      ensures Valid()
      ensures address % info.SectorSizeBytes() != 0 <==> err == UnalignedAddress
      ensures EraseOutcome(err, old(bus.chip), bus.chip, Sector(address))
      ensures Faulted(err) && FewPolls(info.timeoutSectorErase) && old(clock.ticks) <= clock.ticks
      ensures err == Timeout ==> TimedOut(old(clock.ticks), info.timeoutSectorErase)
    {
      var low := LowBits(address, info.sectorSize);
      if low != 0 {
        return UnalignedAddress;
      }
      err := EraseWithAddress(info.cmdEraseSector, Sector(address), info.timeoutSectorErase);
    }

    method EraseBlock(address: nat) returns (err: Error)
      requires Valid() && address < info.CapacityBytes()
      modifies bus, clock
      ensures Valid()
      ensures address % info.BlockSizeBytes() != 0 <==> err == UnalignedAddress
      ensures EraseOutcome(err, old(bus.chip), bus.chip, Block(address))
      ensures Faulted(err) && FewPolls(info.timeoutBlockErase) && old(clock.ticks) <= clock.ticks
      ensures err == Timeout ==> TimedOut(old(clock.ticks), info.timeoutBlockErase)
    {
      var low := LowBits(address, info.blockSize);
      if low != 0 {
        return UnalignedAddress;
      }
      err := EraseWithAddress(info.cmdEraseBlock, Block(address), info.timeoutBlockErase);
    }

    /** What one unit erase leaves behind: everything or nothing, and everything on success unless the
        chip was still busy. */
    ghost predicate EraseOutcome(err: Error, c0: Chip, c1: Chip, u: EraseUnit)
      requires !u.Whole?
    {
      && err !in {UnalignedSize, PageWriteTooBig, InvalidArguments}
      && (err == NoError ==> c1.busyFor == 0)
      && (Untouched(c0, c1) || (c1.mem == Erased(c0.mem, u.address, UnitSize(u)) && c1.erases == c0.erases + [u]))
      && (err == NoError && c0.busyFor == 0 ==>
            c1.mem == Erased(c0.mem, u.address, UnitSize(u)) && c1.erases == c0.erases + [u])
      && (err == UnalignedAddress ==> Untouched(c0, c1))
    }

    ghost predicate Untouched(c0: Chip, c1: Chip) {
      c1.mem == c0.mem && c1.erases == c0.erases
    }

    /** Erase a sector-aligned range with the fewest commands.  On success exactly the range reads
        0xFF; on failure a prefix of whole units does.  A chip still busy from before may ignore the first
        unit without an error. */
    method Erase(address: nat, length: nat) returns (err: Error)
      requires Valid() && address + length <= info.CapacityBytes()
      modifies bus, clock
      ensures Valid()
      ensures address % info.SectorSizeBytes() != 0 <==> err == UnalignedAddress
      ensures address % info.SectorSizeBytes() == 0 && length % info.SectorSizeBytes() != 0 <==> err == UnalignedSize
      ensures err == UnalignedAddress || err == UnalignedSize ==> bus.chip == old(bus.chip)
      ensures err != PageWriteTooBig && err != InvalidArguments
      ensures Faulted(err) && old(clock.ticks) <= clock.ticks
      ensures err == Timeout ==>
                TimedOut(old(clock.ticks), info.timeoutSectorErase) || TimedOut(old(clock.ticks), info.timeoutBlockErase)
      ensures err == NoError && (length > 0 || old(Idle())) ==> Idle()
      ensures err == NoError ==>
                || (&& Mem() == Erased(old(Mem()), address, length)
                    && bus.chip.erases == old(bus.chip.erases) + Tiles(address, length))
                || (&& !old(Idle()) && length > 0
                    && ErasedUpTo(old(Mem()), Mem(), address, Skipped(old(Idle()), address, length), length)
                    && bus.chip.erases == old(bus.chip.erases) + Tiles(address, length)[1..])
      ensures Aligned(address, length) ==>
                || ErasedPrefix(old(Mem()), Mem(), address, 0, length)
                || ErasedPrefix(old(Mem()), Mem(), address, Skipped(old(Idle()), address, length), length)
    {
      hide Erased, Pow2, ErasedUpTo, ErasedPrefix, EraseTiling.Units, And, EraseOutcome, Covered, ToDo, Tiles, Skipped,
           FlashInfo.Valid, Expired;
      BlocksHoldSectors();
      ghost var skipped := 0;
      ErasedUpToNothing(Mem(), address);
      var low := LowBits(address, info.sectorSize);
      if low != 0 {
        return UnalignedAddress;
      }
      low := LowBits(length, info.sectorSize);
      if low != 0 {
        return UnalignedSize;
      }
      SkipsFirstUnit(Idle(), address, length);
      var totalBytes: nat, offset: nat := length, 0;
      ghost var done := [];
      FirstUnit(address, length);
      while totalBytes > 0
        invariant bus.faults == old(bus.faults) && old(clock.ticks) <= clock.ticks
        invariant Valid() && offset + totalBytes == length && ToDo(address, length, done, offset, totalBytes)
        invariant offset == 0 ==> bus.chip == old(bus.chip) && done == [] && skipped == 0
        invariant offset > 0 ==> Idle() && done != []
        invariant skipped <= offset && skipped in {0, Skipped(old(Idle()), address, length)}
        invariant skipped > 0 ==> !old(Idle())
        invariant ErasedUpTo(old(Mem()), Mem(), address, skipped, offset)
        invariant bus.chip.erases == old(bus.chip.erases) + if skipped == 0 then done else done[1..]
        decreases totalBytes
      {
        var start := address + offset;
        ghost var before := bus.chip;
        var step;
        NextUnit(address, length, done, offset, totalBytes);
        ghost var unit := UnitAt(start, totalBytes);
        err, step := EraseNext(start, totalBytes);
        skipped := UnitStep(old(Mem()), before, bus.chip, err, unit, address, length, skipped, done);
        if err != NoError {
          return;
        }
        done := done + [unit];
        offset := offset + step;
        totalBytes := totalBytes - step;
      }
      LastUnit(address, length, done, offset);
      ErasedUpToIsErased(old(Mem()), Mem(), address, skipped, length);
      IsErasedPrefix(old(Mem()), Mem(), address, skipped, length, done);
      return NoError;
    }

    /** Erase the sector or the block that comes next. */
    method EraseNext(start: nat, total: nat) returns (err: Error, step: nat)
      requires Valid() && start < info.CapacityBytes() && start % UnitSize(UnitAt(start, total)) == 0
      modifies bus, clock
      ensures Valid() && step == UnitSize(UnitAt(start, total))
      ensures err != UnalignedAddress && EraseOutcome(err, old(bus.chip), bus.chip, UnitAt(start, total))
      ensures Faulted(err) && old(clock.ticks) <= clock.ticks
      ensures err == Timeout ==>
                TimedOut(old(clock.ticks), info.timeoutSectorErase) || TimedOut(old(clock.ticks), info.timeoutBlockErase)
    {
      hide Pow2, EraseOutcome, TimedOut, FewPolls;
      var low := LowBits(start, info.blockSize);
      if low != 0 || total < info.BlockSizeBytes() {
        err := EraseSector(start);
        step := info.SectorSizeBytes();
      } else {
        err := EraseBlock(start);
        step := info.BlockSizeBytes();
      }
    }

    /** With `done` issued, covering `offset` bytes, the rest of the tiling is that of the remaining bytes. */
    ghost predicate ToDo(address: nat, length: nat, done: seq<EraseUnit>, offset: nat, total: nat)
      requires info.Valid() && Aligned(address, length)
    {
      && EraseTiling.Units(info.SectorSizeBytes(), info.BlockSizeBytes())
      && offset == Covered(done) && Aligned(address + offset, total)
      && Tiles(address, length) == done + Greedy(info.SectorSizeBytes(), info.BlockSizeBytes(), address + offset, total)
    }

    /** The unit the driver issues at an address with some bytes left. */
    ghost function UnitAt(start: nat, total: nat): EraseUnit {
      if start % info.BlockSizeBytes() != 0 || total < info.BlockSizeBytes() then Sector(start) else Block(start)
    }

    lemma FirstUnit(address: nat, length: nat)
      requires info.Valid() && Aligned(address, length)
      ensures ToDo(address, length, [], 0, length)
    {
      hide Pow2, Greedy, Extent;
      BlocksHoldSectors();
      NothingExtends(info.SectorSizeBytes(), info.BlockSizeBytes());
    }

    lemma NextUnit(address: nat, length: nat, done: seq<EraseUnit>, offset: nat, total: nat)
      requires info.Valid() && Aligned(address, length) && ToDo(address, length, done, offset, total) && total > 0
      ensures var u := UnitAt(address + offset, total);
              && 0 < UnitSize(u) <= total && (address + offset) % UnitSize(u) == 0
              && ToDo(address, length, done + [u], offset + UnitSize(u), total - UnitSize(u))
              && done + [u] <= Tiles(address, length) && offset == Covered(done)
    {
      hide Pow2, Greedy, Extent, EraseTiling.Units, Tiles;
      var s, b := info.SectorSizeBytes(), info.BlockSizeBytes();
      var u := UnitAt(address + offset, total);
      GreedyStep(s, b, address + offset, total);
      ExtentAppend(s, b, done, u);
      var rest := Greedy(s, b, address + offset + UnitSize(u), total - UnitSize(u));
      assert Tiles(address, length) == (done + [u]) + rest;
    }

    lemma LastUnit(address: nat, length: nat, done: seq<EraseUnit>, offset: nat)
      requires info.Valid() && Aligned(address, length) && ToDo(address, length, done, offset, 0)
      ensures done == Tiles(address, length) && offset == Covered(done)
    {
      hide Pow2, Greedy, Extent, EraseTiling.Units, Tiles;
      GreedyNothing(info.SectorSizeBytes(), info.BlockSizeBytes(), address + offset);
    }

    /** With `done` issued, one more unit of the tiling extends the erased prefix on success, unless it is
        the first and a busy chip ignored it; a failure leaves a prefix of whole units. */
    lemma UnitStep(m0: seq<byte>, c1: Chip, c2: Chip, err: Error, unit: EraseUnit, address: nat, length: nat,
                   skipped: nat, done: seq<EraseUnit>) returns (skipped': nat)
      requires info.Valid() && Aligned(address, length) && done + [unit] <= Tiles(address, length)
      requires !unit.Whole? && unit.address == address + Covered(done)
      requires ErasedUpTo(m0, c1.mem, address, skipped, Covered(done))
      requires c1.busyFor > 0 ==> done == [] && skipped == 0
      requires EraseOutcome(err, c1, c2, unit)
      ensures Covered(done + [unit]) == Covered(done) + UnitSize(unit)
      ensures skipped' == skipped || (c1.busyFor > 0 && err == NoError && skipped' == UnitSize(unit))
      ensures ErasedPrefix(m0, c2.mem, address, skipped', length)
      ensures err == NoError ==> c2.busyFor == 0 && ErasedUpTo(m0, c2.mem, address, skipped', Covered(done + [unit]))
      ensures err == NoError ==> c2.erases == c1.erases + if skipped' == skipped then [unit] else []
      ensures err !in {UnalignedSize, PageWriteTooBig, InvalidArguments}
    {
      hide ErasedUpTo, ErasedPrefix, Erased, Pow2, Greedy, Tiles;
      ExtentAppend(info.SectorSizeBytes(), info.BlockSizeBytes(), done, unit);
      NothingCovered();
      var step := UnitSize(unit);
      var erased := c2.mem == Erased(c1.mem, unit.address, step) && c2.erases == c1.erases + [unit];
      if erased || err != NoError {
        skipped' := skipped;
        EraseStep(m0, c1.mem, c2.mem, address, skipped, Covered(done), step, erased);
        IsErasedPrefix(m0, c2.mem, address, skipped, length, if erased then done + [unit] else done);
      } else {
        skipped' := step;
        ErasedUpToIsErased(m0, c1.mem, address, 0, 0);
        ErasedNothing(m0, address);
        ErasedUpToShift(m0, c2.mem, address, step);
        IsErasedPrefix(m0, c2.mem, address, step, length, done + [unit]);
      }
    }

    lemma NothingCovered()
      ensures Covered([]) == 0
    {
    }

    /** The units `Erase` issues. */
    ghost function Tiles(address: nat, length: nat): seq<EraseUnit>
      requires info.Valid() && Aligned(address, length)
    {
      BlocksHoldSectors();
      Greedy(info.SectorSizeBytes(), info.BlockSizeBytes(), address, length)
    }

    lemma BlocksHoldSectors()
      requires info.Valid()
      ensures Units(info.SectorSizeBytes(), info.BlockSizeBytes())
    {
      Pow2Splits(info.sectorSize, info.blockSize);
      ModIs(info.BlockSizeBytes(), info.SectorSizeBytes(), Pow2(info.blockSize - info.sectorSize), 0);
    }

    /** How many leading bytes of an erase a still busy chip can ignore: its first unit. */
    ghost function Skipped(idle: bool, address: nat, length: nat): nat
      requires info.Valid()
    {
      if idle || length == 0 || address % info.SectorSizeBytes() != 0 || length % info.SectorSizeBytes() != 0 then 0
      else if address % info.BlockSizeBytes() != 0 || length < info.BlockSizeBytes() then info.SectorSizeBytes()
      else info.BlockSizeBytes()
    }

    /** `m1` is `m0` after erasing, from `address + skipped` on, what some prefix of the units covers. */
    ghost predicate ErasedPrefix(m0: seq<byte>, m1: seq<byte>, address: nat, skipped: nat, length: nat)
      requires info.Valid() && Aligned(address, length)
    {
      exists j :: 0 <= j <= |Tiles(address, length)| && ErasedUpTo(m0, m1, address, skipped, Covered(Tiles(address, length)[..j]))
    }

    predicate Aligned(address: nat, length: nat) {
      address % info.SectorSizeBytes() == 0 && length % info.SectorSizeBytes() == 0
    }

    function Covered(ts: seq<EraseUnit>): nat {
      Extent(info.SectorSizeBytes(), info.BlockSizeBytes(), ts)
    }

    lemma IsErasedPrefix(m0: seq<byte>, m1: seq<byte>, address: nat, skipped: nat, length: nat, done: seq<EraseUnit>)
      requires info.Valid() && Aligned(address, length)
      requires done <= Tiles(address, length) && ErasedUpTo(m0, m1, address, skipped, Covered(done))
      ensures ErasedPrefix(m0, m1, address, skipped, length)
    {
      hide ErasedUpTo, Pow2, Greedy;
      assert Tiles(address, length)[..|done|] == done;
    }

    /** Outside the range nothing is erased, whatever the prefix. */
    lemma ErasedPrefixStaysInside(m0: seq<byte>, m1: seq<byte>, address: nat, skipped: nat, length: nat)
      requires info.Valid() && Aligned(address, length)
      requires ErasedPrefix(m0, m1, address, 0, length) || ErasedPrefix(m0, m1, address, skipped, length)
      ensures |m1| == |m0| && forall i :: 0 <= i < |m0| && !(address <= i < address + length) ==> m1[i] == m0[i]
    {
      hide Pow2, Greedy, Extent;
      BlocksHoldSectors();
      var from := if ErasedPrefix(m0, m1, address, 0, length) then 0 else skipped;
      var j :| 0 <= j <= |Tiles(address, length)| && ErasedUpTo(m0, m1, address, from, Covered(Tiles(address, length)[..j]));
      GreedyExtent(info.SectorSizeBytes(), info.BlockSizeBytes(), address, length, j);
    }

    lemma SkipsFirstUnit(idle: bool, address: nat, length: nat)
      requires info.Valid() && Aligned(address, length)
      ensures Skipped(idle, address, length) == if idle || length == 0 then 0 else UnitSize(UnitAt(address, length))
      ensures Skipped(idle, address, length) <= length
    {
      hide Pow2;
      if length > 0 {
        AlignedAtLeast(length, info.SectorSizeBytes());
      }
    }

    /** Erase everything: all or nothing, and all on success unless a chip still busy ignored it. */
    method EraseChip() returns (err: Error)
      requires Valid()
      modifies bus, clock
      ensures Valid()
      ensures (err == NoError || err == Timeout || IsIoError(err)) && Faulted(err)
      ensures FewPolls(info.timeoutChipErase) && old(clock.ticks) <= clock.ticks
      ensures err == Timeout ==> TimedOut(old(clock.ticks), info.timeoutChipErase)
      ensures err == NoError ==> Idle()
      ensures err == NoError && old(Idle()) ==> Mem() == Erased(old(Mem()), 0, info.CapacityBytes())
      ensures Mem() == old(Mem()) || Mem() == Erased(old(Mem()), 0, info.CapacityBytes())
    {
      hide Erased, Pow2;
      err := WriteEnable();
      if err != NoError {
        return;
      }
      var cmd := [info.cmdEraseChip];
      err := ExecCmd(cmd);
      assert cmd[..0] == [] && cmd[..1] == cmd;
      if err != NoError {
        return;
      }
      err := WaitForCompletion(info.timeoutChipErase);
    }

    /** Software reset: drops the write-enable latch, never touches the array. */
    method Reset() returns (err: Error)
      requires Valid()
      modifies bus
      ensures Valid() && (err == NoError || err == IoCommand) && Faulted(err)
      ensures bus.chip == old(bus.chip).(writeEnabled := bus.chip.writeEnabled, busyFor := bus.chip.busyFor)
      ensures bus.chip.busyFor <= old(bus.chip.busyFor)
      ensures err == NoError && old(Idle()) ==> !bus.chip.writeEnabled
    {
      hide Pow2;
      if info.cmdResetEnable != 0 {
        var cmd := [info.cmdResetEnable];
        err := ExecCmd(cmd);
        assert cmd[..0] == [] && cmd[..1] == cmd;
        if err != NoError {
          return;
        }
      }
      var cmd := [info.cmdReset];
      err := ExecCmd(cmd);
      assert cmd[..0] == [] && cmd[..1] == cmd;
    }

    /** How many leading bytes of a write the chip can ignore because it is still busy: the share of the
        first page if an operation is in progress, nothing otherwise. */
    function Lost(idle: bool, address: nat, n: nat): (c: nat)
      ensures c <= n
    {
      if idle then 0 else Piece(address, n)
    }

    /** The largest piece of a page that can be written next. */
    function Piece(start: nat, total: nat): (n: nat)
      ensures n <= total
    {
      Min(info.PageSizeBytes() - start % info.PageSizeBytes(), total)
    }

    /** The guard of `WritePage` turns away the piece of an n-byte write that starts at byte k. */
    predicate Rejects(address: nat, n: nat, k: nat)
      requires k <= n
    {
      !PageGuard(info.PageSizeBytes(), address + k, Piece(address + k, n - k))
    }

    method LargestPiece(start: nat, total: nat) returns (n: nat)
      requires total > 0
      ensures n == Piece(start, total) > 0 && start % info.PageSizeBytes() + n <= info.PageSizeBytes()
    {
      var inPage := LowBits(start, info.pageSize);
      n := Min(info.PageSizeBytes() - inPage, total);
    }
  }

  /** `m1` is `m0` after programming bytes [lost, k) of a write of `data` at `address`. */
  ghost predicate ProgrammedUpTo(m0: seq<byte>, m1: seq<byte>, address: nat, data: seq<byte>, lost: nat, k: nat) {
    && lost <= k <= |data| && address + |data| <= |m0| == |m1|
    && forall i :: 0 <= i < |m0| ==>
         m1[i] == if address + lost <= i < address + k then And(m0[i], data[i - address]) else m0[i]
  }

  /** Some prefix of the data, from byte `lost` on, has been programmed and nothing else changed. */
  ghost predicate ProgrammedPrefix(m0: seq<byte>, m1: seq<byte>, address: nat, data: seq<byte>, lost: nat) {
    exists k :: ProgrammedUpTo(m0, m1, address, data, lost, k)
  }

  lemma ProgrammedNothing(m: seq<byte>, address: nat, data: seq<byte>)
    requires address + |data| <= |m|
    ensures ProgrammedUpTo(m, m, address, data, 0, 0) && ProgrammedPrefix(m, m, address, data, 0)
  {
    assert ProgrammedUpTo(m, m, address, data, 0, 0);
  }

  lemma ProgrammedWholePrefix(m0: seq<byte>, m1: seq<byte>, address: nat, data: seq<byte>, lost: nat)
    requires ProgrammedUpTo(m0, m1, address, data, lost, |data|)
    ensures ProgrammedPrefix(m0, m1, address, data, lost)
  {
  }

  lemma ProgrammedWhole(m0: seq<byte>, m1: seq<byte>, address: nat, data: seq<byte>)
    requires ProgrammedUpTo(m0, m1, address, data, 0, |data|)
    ensures m1 == AndWrite(m0, address, data)
  {
  }

  lemma TenMilliseconds()
    ensures MsToTicks(10) == 2
  {
  }

  /** After i polls from tick t0 on, two ticks apart, the last check of the deadline was made in tick
      `last` and passed. */
  ghost predicate InTime(t0: nat, last: nat, i: nat, timeout: nat) {
    i > 0 ==> t0 + 2 * i <= last + 2 && last % WRAP32 <= (t0 % WRAP32 + timeout) % WRAP32
  }

  lemma NoPollYet(t0: nat, timeout: nat)
    ensures InTime(t0, t0, 0, timeout)
  {
  }

  lemma InTimeStep(t0: nat, last: nat, i: nat, timeout: nat)
    requires t0 + 2 * i <= last && last % WRAP32 <= (t0 % WRAP32 + timeout) % WRAP32
    ensures InTime(t0, last, i + 1, timeout)
  {
  }

  /** Each poll but the first follows a check that the deadline had not passed. */
  lemma PollBound(t0: nat, last: nat, i: nat, timeout: nat)
    requires t0 <= last < WRAP32 && InTime(t0, last, i, timeout)
    ensures i <= timeout / 2 + 1
  {
  }

  lemma DeadlinePassed(t0: nat, t: nat, timeout: nat)
    requires t0 <= t && t % WRAP32 > (t0 % WRAP32 + timeout) % WRAP32
    ensures t + timeout < WRAP32 ==> t > t0 + timeout
  {
  }

  /** `m1` is `m0` after erasing bytes [skipped, k) of an erase at `address`. */
  ghost predicate ErasedUpTo(m0: seq<byte>, m1: seq<byte>, address: nat, skipped: nat, k: nat) {
    skipped <= k && m1 == Erased(m0, address + skipped, k - skipped)
  }

  lemma ErasedUpToNothing(m: seq<byte>, address: nat)
    ensures ErasedUpTo(m, m, address, 0, 0)
  {
  }

  /** Skipping everything so far leaves the array as it was. */
  lemma ErasedUpToShift(m0: seq<byte>, m1: seq<byte>, address: nat, step: nat)
    requires m1 == m0
    ensures ErasedUpTo(m0, m1, address, step, step)
  {
  }

  lemma ErasedNothing(m: seq<byte>, address: nat)
    ensures Erased(m, address, 0) == m
  {
  }

  lemma ErasedUpToIsErased(m0: seq<byte>, m1: seq<byte>, address: nat, skipped: nat, k: nat)
    requires ErasedUpTo(m0, m1, address, skipped, k)
    ensures skipped <= k && m1 == Erased(m0, address + skipped, k - skipped)
  {
  }

  /** One unit of an erase extends the erased prefix, or leaves it as it was. */
  lemma EraseStep(m0: seq<byte>, m1: seq<byte>, m2: seq<byte>, address: nat, skipped: nat, offset: nat, step: nat, done: bool)
    requires ErasedUpTo(m0, m1, address, skipped, offset)
    requires if done then m2 == Erased(m1, address + offset, step) else m2 == m1
    ensures ErasedUpTo(m0, m2, address, skipped, if done then offset + step else offset)
  {
    hide Erased;
    ErasedJoin(m0, address + skipped, offset - skipped, step);
  }

  /** `x & (2^k - 1)`, the driver's alignment arithmetic. */
  method LowBits(x: nat, k: nat) returns (r: nat)
    ensures r == x % Pow2(k)
  {
    MaskIsMod(x, k);
    r := And(x, Pow2(k) - 1);
  }

  lemma FrameAddressIs(info: FlashInfo, frame: seq<byte>, address: nat)
    requires info.Valid() && address < info.CapacityBytes()
    requires |frame| >= 4 && frame[1..4] == AddressBytes(address)
    ensures FrameAddress(info, frame) == address
  {
    ByteMasks();
    Pow2Splits(info.capacity, 24);
    AddressRoundTrip(address);
    ModIs(address, 0x100_0000, 0, address);
    ModIs(address, info.CapacityBytes(), 0, address);
  }

  /** The effect of (part of) a page program frame. */
  lemma ProgramEffect(info: FlashInfo, c: Chip, address: nat, cmd: seq<byte>, data: seq<byte>, k: nat, duration: nat)
    requires info.Valid() && address < info.CapacityBytes()
    requires cmd == [info.cmdProgramPage] + AddressBytes(address) && k <= |cmd + data|
    ensures var c' := Execute(info, c, (cmd + data)[..k], duration);
            if c.busyFor == 0 && k > 4 && MayWrite(info, c) then
              c' == Chip(Programmed(info.PageSizeBytes(), c.mem, address, data[..k - 4]), false, duration, c.erases)
            else c' == c
  {
    var frame := (cmd + data)[..k];
    if k > 0 {
      assert frame[0] == info.cmdProgramPage;
    }
    if k > 4 {
      assert frame[1] == cmd[1] && frame[2] == cmd[2] && frame[3] == cmd[3];
      assert frame[1..4] == AddressBytes(address);
      assert frame[4..] == data[..k - 4];
      FrameAddressIs(info, frame, address);
    }
  }

  /** A page program frame on the bus, the chip getting ready before it or not. */
  lemma ProgramDelivered(info: FlashInfo, c: Chip, c': Chip, address: nat, cmd: seq<byte>, data: seq<byte>, whole: bool)
    requires info.Valid() && address < info.CapacityBytes() && data != []
    requires cmd == [info.cmdProgramPage] + AddressBytes(address) && Delivered(info, c, c', cmd + data, whole)
    ensures c'.erases == c.erases && |c'.mem| == |c.mem|
    ensures var page := info.PageSizeBytes();
            && (c'.mem == c.mem || exists k :: 0 <= k <= |data| && c'.mem == Programmed(page, c.mem, address, data[..k]))
            && (whole && c.busyFor == 0 && MayWrite(info, c) ==> c'.mem == Programmed(page, c.mem, address, data))
            && (whole ==> c'.mem == c.mem || c'.mem == Programmed(page, c.mem, address, data))
  {
    hide Programmed, Execute, Pow2, And, AddressBytes;
    var k, busyFor: nat :| && 0 <= k <= |cmd + data| && busyFor <= c.busyFor && (whole ==> k == |cmd + data|)
                           && c' == Execute(info, c.(busyFor := busyFor), (cmd + data)[..k], c'.busyFor);
    ProgramEffect(info, c.(busyFor := busyFor), address, cmd, data, k, c'.busyFor);
    assert data[..|data|] == data;
  }

  /** What one page program leaves behind: a prefix of the data, and on success all of it unless the chip
      was still busy. */
  ghost predicate PageWritten(page: nat, c0: Chip, c1: Chip, err: Error, address: nat, data: seq<byte>)
    requires page > 0
  {
    && (err == NoError ==> c1.mem == Programmed(page, c0.mem, address, data) || (c0.busyFor > 0 && c1.mem == c0.mem))
    && (c1.mem == c0.mem || exists k :: 0 <= k <= |data| && c1.mem == Programmed(page, c0.mem, address, data[..k]))
  }

  /** One chunk of a write extends the programmed prefix, unless it is the first and a busy chip ignored
      it. */
  lemma WriteStep(page: nat, m0: seq<byte>, c1: Chip, c2: Chip, err: Error, address: nat, data: seq<byte>,
                  lost: nat, offset: nat, n: nat) returns (lost': nat)
    requires page > 0 && offset + n <= |data| && (address + offset) % page + n <= page
    requires ProgrammedUpTo(m0, c1.mem, address, data, lost, offset)
    requires c1.busyFor > 0 ==> offset == 0
    requires PageWritten(page, c1, c2, err, address + offset, data[offset..offset + n])
    ensures lost' == lost || (c1.busyFor > 0 && err == NoError && lost' == n)
    ensures ProgrammedPrefix(m0, c2.mem, address, data, lost')
    ensures err == NoError ==> ProgrammedUpTo(m0, c2.mem, address, data, lost', offset + n)
  {
    hide Programmed, And;
    var chunk := data[offset..offset + n];
    var ok := err == NoError && c2.mem == Programmed(page, c1.mem, address + offset, chunk);
    if ok || err != NoError {
      lost' := lost;
      var k := PageOutcome(page, c1.mem, c2.mem, address + offset, chunk, ok);
      ExtendProgrammed(m0, c1.mem, c2.mem, address, data, lost, offset, n, k);
    } else {
      lost' := n;
      assert ProgrammedUpTo(m0, c2.mem, address, data, n, n);
    }
  }

  lemma ExtendProgrammed(m0: seq<byte>, m1: seq<byte>, m2: seq<byte>, address: nat, data: seq<byte>,
                         lost: nat, offset: nat, n: nat, k: nat)
    requires offset + n <= |data| && ProgrammedUpTo(m0, m1, address, data, lost, offset)
    requires ProgrammedUpTo(m1, m2, address + offset, data[offset..offset + n], 0, k)
    ensures ProgrammedUpTo(m0, m2, address, data, lost, offset + k)
  {
  }

  /** A page program that cannot wrap leaves a prefix of its data, all of it on success. */
  lemma PageOutcome(page: nat, m0: seq<byte>, m1: seq<byte>, a: nat, data: seq<byte>, ok: bool) returns (k: nat)
    requires page > 0 && a % page + |data| <= page && a + |data| <= |m0|
    requires ok ==> m1 == Programmed(page, m0, a, data)
    requires m1 == m0 || exists k :: 0 <= k <= |data| && m1 == Programmed(page, m0, a, data[..k])
    ensures ProgrammedUpTo(m0, m1, a, data, 0, k) && (ok ==> k == |data|)
  {
    hide Programmed, And;
    if ok {
      k := |data|;
      assert data[..k] == data;
    } else if m1 == m0 {
      return 0;
    } else {
      k :| 0 <= k <= |data| && m1 == Programmed(page, m0, a, data[..k]);
    }
    ProgramInsidePage(page, m0, a, data[..k]);
  }

  /** With pages of at least 256 bytes the guard never rejects what the driver splits off. */
  lemma GuardAcceptsChunk(info: FlashInfo, start: nat, n: nat)
    requires start % info.PageSizeBytes() + n <= info.PageSizeBytes()
    ensures info.pageSize >= 8 ==> PageGuard(info.PageSizeBytes(), start, n)
  {
    if info.pageSize >= 8 {
      ByteMasks();
      Pow2Splits(8, info.pageSize);
      LowByteOfRest(start, info.PageSizeBytes());
    }
  }

  lemma LowByteOfRest(x: nat, page: nat)
    requires page >= 0x100 && page % 0x100 == 0
    ensures x % 0x100 <= x % page
  {
    var q, r := x / page, x % page;
    var m := page / 0x100;
    assert q * page == (q * m) * 0x100;
    ModIs(x, 0x100, q * m + r / 0x100, r % 0x100);
  }

  /** The driver's guard against programs that would wrap: it always looks at the low eight address
      bits, whatever the page size. */
  predicate PageGuard(page: nat, address: nat, n: nat) {
    n + address % 0x100 <= page
  }

  /** The guard tells wrapping programs from others exactly when pages are 256 bytes: smaller pages
      make it reject harmless programs, larger ones make it admit programs that wrap. */
  lemma GuardIsExactOnlyFor256(info: FlashInfo)
    ensures (forall a: nat, n: nat :: n > 0 ==>
              (PageGuard(info.PageSizeBytes(), a, n) <==> a % info.PageSizeBytes() + n <= info.PageSizeBytes()))
            <==> info.PageSizeBytes() == 0x100
  {
    var page := info.PageSizeBytes();
    if page < 0x100 {
      ModIs(page, page, 1, 0);
      assert !PageGuard(page, page, 1);
    } else if page > 0x100 {
      ModIs(0x100, page, 0, 0x100);
      assert PageGuard(page, 0x100, page);
    }
  }

  /** Two frames of a page program on a busy chip that gets ready just before frame number `ready`: with
      1, before the write enable; with 2, between that and the program; later otherwise. */
  function WriteEnableThenProgram(info: FlashInfo, c: Chip, address: nat, data: seq<byte>, ready: nat, duration: nat): Chip {
    var first := if ready <= 1 then c.(busyFor := 0) else c;
    var enabled := Execute(info, first, [info.cmdWriteEnable], duration);
    var second := if ready <= 2 then enabled.(busyFor := 0) else enabled;
    Execute(info, second, [info.cmdProgramPage] + AddressBytes(address) + data, duration)
  }

  /** Whether a program on a busy chip is lost depends on when the chip gets ready.  In time for the write
      enable, it is not; if that came too early and the latch was not set before, the program is ignored,
      although every frame is delivered and, with `ready` being 2, the next status read shows the chip
      idle: the call succeeds and leaves no trace. */
  lemma BusyChipLosesWrites(info: FlashInfo, c: Chip, address: nat, data: seq<byte>, ready: nat, duration: nat)
    requires info.Valid() && info.cmdWriteEnable != 0 && address < info.CapacityBytes() && data != []
    requires c.busyFor > 0 && !c.writeEnabled && 1 <= ready <= 3
    ensures var c' := WriteEnableThenProgram(info, c, address, data, ready, duration);
            && (ready == 1 ==> c'.mem == Programmed(info.PageSizeBytes(), c.mem, address, data))
            && (ready >= 2 ==> c'.mem == c.mem)
            && (ready == 2 ==> c'.busyFor == 0)
  {
    hide Programmed, Pow2;
    var cmd := [info.cmdProgramPage] + AddressBytes(address);
    var first := if ready <= 1 then c.(busyFor := 0) else c;
    var enabled := Execute(info, first, [info.cmdWriteEnable], duration);
    var second := if ready <= 2 then enabled.(busyFor := 0) else enabled;
    ProgramEffect(info, second, address, cmd, data, |cmd + data|, duration);
    assert (cmd + data)[..|cmd + data|] == cmd + data && data[..|data|] == data;
  }

  /** Erase a range, write into it, read back: if every call reports success the data comes back, the
      rest of the erased range is blank and the flash around it is untouched. */
  method EraseWriteRead(d: Driver, address: nat, length: nat, data: seq<byte>) returns (err: Error, buffer: seq<byte>)
    requires d.Valid() && d.Idle() && |data| <= length && address + length <= d.info.CapacityBytes()
    modifies d.bus, d.clock
    ensures d.Valid() && |d.Mem()| == |old(d.Mem())|
    ensures d.Faulted(err) && (err == Timeout ==> d.SomeTimeout(old(d.clock.ticks)))
    ensures err == NoError ==> buffer == data && d.Mem()[address..address + |data|] == data
    ensures err == NoError ==> forall i :: address + |data| <= i < address + length ==> d.Mem()[i] == 0xFF
    ensures forall i :: 0 <= i < |d.Mem()| && !(address <= i < address + length) ==> d.Mem()[i] == old(d.Mem())[i]
  {
    hide Pow2, And, Programmed, Execute;
    ghost var m0 := d.Mem();
    buffer := [];
    err := d.Erase(address, length);
    if d.Aligned(address, length) {
      d.ErasedPrefixStaysInside(m0, d.Mem(), address, 0, length);
    }
    if err != NoError {
      return;
    }
    ghost var m1 := d.Mem();
    err := d.Write(address, data);
    if err != NoError {
      return;
    }
    ProgrammedWhole(m1, d.Mem(), address, data);
    WriteAfterErase(m1, address, data);
    err, buffer := d.Read(address, |data|);
  }

  /** A sector or block erase frame on the bus, the chip getting ready before it or not. */
  lemma EraseDelivered(info: FlashInfo, c: Chip, c': Chip, unit: EraseUnit, frame: seq<byte>, whole: bool)
    requires info.Valid() && !unit.Whole? && unit.address < info.CapacityBytes()
    requires frame == [if unit.Sector? then info.cmdEraseSector else info.cmdEraseBlock] + AddressBytes(unit.address)
    requires unit.address % SizeOf(unit, info.SectorSizeBytes(), info.BlockSizeBytes()) == 0
    requires Delivered(info, c, c', frame, whole)
    ensures var size := SizeOf(unit, info.SectorSizeBytes(), info.BlockSizeBytes());
            var erased := c'.mem == Erased(c.mem, unit.address, size) && c'.erases == c.erases + [unit];
            && ((c'.mem == c.mem && c'.erases == c.erases) || erased)
            && (whole && c.busyFor == 0 && MayWrite(info, c) ==> erased)
            && |c'.mem| == |c.mem|
  {
    hide Erased, Execute, Pow2, And, AddressBytes;
    var k, busyFor: nat :| && 0 <= k <= |frame| && busyFor <= c.busyFor && (whole ==> k == |frame|)
                           && c' == Execute(info, c.(busyFor := busyFor), frame[..k], c'.busyFor);
    EraseEffect(info, c.(busyFor := busyFor), unit, frame, k, c'.busyFor);
  }

  /** The effect of (part of) a sector or block erase frame. */
  lemma EraseEffect(info: FlashInfo, c: Chip, unit: EraseUnit, frame: seq<byte>, k: nat, duration: nat)
    requires info.Valid() && !unit.Whole? && unit.address < info.CapacityBytes() && k <= |frame|
    requires frame == [if unit.Sector? then info.cmdEraseSector else info.cmdEraseBlock] + AddressBytes(unit.address)
    requires unit.address % SizeOf(unit, info.SectorSizeBytes(), info.BlockSizeBytes()) == 0
    ensures var c' := Execute(info, c, frame[..k], duration);
            if c.busyFor == 0 && k == 4 && MayWrite(info, c) then
              c' == EraseUnitAt(c, unit, SizeOf(unit, info.SectorSizeBytes(), info.BlockSizeBytes()), duration)
            else c' == c
  {
    if k > 0 {
      assert frame[..k][0] == frame[0];
    }
    if k == 4 {
      assert frame[..k] == frame && frame[1..4] == AddressBytes(unit.address);
      FrameAddressIs(info, frame, unit.address);
    }
  }
}
