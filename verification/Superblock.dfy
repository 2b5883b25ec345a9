/** The filesystem superblock: layout, formatting, and what a boot makes of the flash contents. */
module Superblock {
  import opened Common
  import opened Bits
  import opened NorChip
  import opened Flash

  const MAGIC: u32 := 0x424C415A
  const VERSION: u32 := 0x00000100
  const FS_SPIFFS: u32 := 1
  const SIZE := 28
  const CRC_OFFSET := 24

  datatype Superblock = Superblock(magic: u32, version: u32, totalLength: u32, fsType: u32,
                                   fsStart: u32, fsEnd: u32, crc: u32)

  /** Everything before the checksum. */
  function Body(sb: Superblock): (bs: seq<byte>)
    ensures |bs| == CRC_OFFSET
  {
    Le32(sb.magic) + Le32(sb.version) + Le32(sb.totalLength) + Le32(sb.fsType) + Le32(sb.fsStart) + Le32(sb.fsEnd)
  }

  function Bytes(sb: Superblock): (bs: seq<byte>)
    ensures |bs| == SIZE
  {
    Body(sb) + Le32(sb.crc)
  }

  function Field(bs: seq<byte>, i: nat): u32
    requires i + 4 <= |bs|
  {
    FromLe32(bs[i], bs[i + 1], bs[i + 2], bs[i + 3])
  }

  function Parse(bs: seq<byte>): Superblock
    requires |bs| == SIZE
  {
    Superblock(Field(bs, 0), Field(bs, 4), Field(bs, 8), Field(bs, 12), Field(bs, 16), Field(bs, 20), Field(bs, 24))
  }

  /** A superblock survives being written out and read back. */
  lemma ParseInvertsBytes(sb: Superblock)
    ensures Parse(Bytes(sb)) == sb
  {
    Le32RoundTrip(sb.magic);
    Le32RoundTrip(sb.version);
    Le32RoundTrip(sb.totalLength);
    Le32RoundTrip(sb.fsType);
    Le32RoundTrip(sb.fsStart);
    Le32RoundTrip(sb.fsEnd);
    Le32RoundTrip(sb.crc);
  }

  /** SPIFFS geometry handed to the mount call. */
  datatype FsConfig = FsConfig(physSize: u32, physAddr: u32, physEraseBlock: nat, logBlockSize: nat, logPageSize: nat)

  datatype PanicReason = DeviceOrLibrary | BadLength | BadMagic | BadChecksum | UnsupportedFs

  datatype Boot = Formatted | Mounted(config: FsConfig) | Panicked(reason: PanicReason)

  /** The chip has room for a superblock sector and something behind it. */
  ghost predicate HoldsFs(info: FlashInfo) {
    info.Valid() && 5 <= info.sectorSize < info.capacity && info.pageSize >= 8
  }

  /** The chip the firmware is built for qualifies, and its page-write guard is exact. */
  lemma KnownChipQualifies()
    ensures HoldsFs(W25Q64JV) && W25Q64JV.PageSizeBytes() == 0x100
  {
    ByteMasks();
  }

  function Wrap32(x: int): u32 {
    x % WRAP32
  }

  function FsConfigOf(info: FlashInfo, fsStart: u32): FsConfig {
    FsConfig(Wrap32(info.CapacityBytes() - fsStart), fsStart, info.BlockSizeBytes(), info.BlockSizeBytes(), info.PageSizeBytes())
  }

  /** The whole chip behind the first sector. */
  ghost function ExpectedConfig(info: FlashInfo): FsConfig
    requires info.Valid()
  {
    SizesFit(info);
    FsConfig(info.CapacityBytes() - info.SectorSizeBytes(), info.SectorSizeBytes(),
             info.BlockSizeBytes(), info.BlockSizeBytes(), info.PageSizeBytes())
  }

  ghost predicate AllErased(bs: seq<byte>) {
    forall i :: 0 <= i < |bs| ==> bs[i] == 0xFF
  }

  /** What a boot decides from the first bytes of the flash. */
  ghost function Decide(info: FlashInfo, crc32: seq<byte> -> u32, bs: seq<byte>): Boot
    requires |bs| == SIZE
  {
    var sb := Parse(bs);
    if AllErased(bs) then Formatted
    else if sb.totalLength < SIZE then Panicked(BadLength)
    else if sb.magic != MAGIC then Panicked(BadMagic)
    else if sb.crc != crc32(bs[..CRC_OFFSET]) then Panicked(BadChecksum)
    else if sb.fsType != FS_SPIFFS then Panicked(UnsupportedFs)
    else Mounted(FsConfigOf(info, sb.fsStart))
  }

  // the four checks, on the bytes themselves

  /** The length field is 28 or more. */
  predicate LengthFits(bs: seq<byte>)
    requires |bs| == 28
  {
    bs[8] as nat + bs[9] as nat * 0x100 + bs[10] as nat * 0x1_0000 + bs[11] as nat * 0x100_0000 >= 28
  }

  predicate HasMagic(bs: seq<byte>)
    requires |bs| == 28
  {
    bs[0] == 0x5A && bs[1] == 0x41 && bs[2] == 0x4C && bs[3] == 0x42
  }

  /** The last four bytes are the checksum of the others. */
  predicate HasChecksum(crc32: seq<byte> -> u32, bs: seq<byte>)
    requires |bs| == 28
  {
    LeAt(bs, 24, crc32(bs[..24]))
  }

  predicate HasType(bs: seq<byte>)
    requires |bs| == 28
  {
    bs[12] == 1 && bs[13] == 0 && bs[14] == 0 && bs[15] == 0
  }

  /** What the outcome of a boot says about the bytes it found: blank, good in every respect, or failing
      the one check that is named and none of those before it.  A filesystem that is mounted starts where
      the superblock says and fills the rest of the chip. */
  ghost predicate Explained(info: FlashInfo, crc32: seq<byte> -> u32, bs: seq<byte>, boot: Boot)
    requires |bs| == 28
  {
    && (boot == Formatted ==> forall i :: 0 <= i < 28 ==> bs[i] == 0xFF)
    && (boot !in {Formatted, Panicked(DeviceOrLibrary)} ==> exists i :: 0 <= i < 28 && bs[i] != 0xFF)
    && match boot {
         case Formatted => true
         case Panicked(DeviceOrLibrary) => true
         case Panicked(BadLength) => !LengthFits(bs)
         case Panicked(BadMagic) => LengthFits(bs) && !HasMagic(bs)
         case Panicked(BadChecksum) => LengthFits(bs) && HasMagic(bs) && !HasChecksum(crc32, bs)
         case Panicked(UnsupportedFs) => LengthFits(bs) && HasMagic(bs) && HasChecksum(crc32, bs) && !HasType(bs)
         case Mounted(config) =>
           && LengthFits(bs) && HasMagic(bs) && HasChecksum(crc32, bs) && HasType(bs)
           && LeAt(bs, 16, config.physAddr) && Same(config.physAddr + config.physSize, info.CapacityBytes())
           && config.physEraseBlock == config.logBlockSize == info.BlockSizeBytes()
           && config.logPageSize == info.PageSizeBytes()
       }
  }

  /** The decision is the one outcome that the bytes explain, a device error apart. */
  lemma DecideExactly(info: FlashInfo, crc32: seq<byte> -> u32, bs: seq<byte>, boot: Boot)
    requires |bs| == 28
    ensures boot == Decide(info, crc32, bs) <==> Explained(info, crc32, bs, boot) && boot != Panicked(DeviceOrLibrary)
  {
    hide Parse, LengthFits, HasMagic, HasChecksum, HasType, FsConfigOf, Field, LeAt, Same, FlashInfo.BlockSizeBytes,
         FlashInfo.PageSizeBytes, FlashInfo.CapacityBytes;
    Checks(crc32, bs);
    ParsedFields(bs);
    if boot.Mounted? {
      ConfigIs(info, bs, boot.config);
    }
  }

  lemma ParsedFields(bs: seq<byte>)
    requires |bs| == SIZE
    ensures var sb := Parse(bs);
            && sb.magic == Field(bs, 0) && sb.totalLength == Field(bs, 8) && sb.fsType == Field(bs, 12)
            && sb.fsStart == Field(bs, 16) && sb.crc == Field(bs, 24)
  {
  }

  /** The checks of the fields are those of the bytes. */
  lemma Checks(crc32: seq<byte> -> u32, bs: seq<byte>)
    requires |bs| == SIZE
    ensures LengthFits(bs) <==> Field(bs, 8) >= SIZE
    ensures HasMagic(bs) <==> Field(bs, 0) == MAGIC
    ensures HasType(bs) <==> Field(bs, 12) == FS_SPIFFS
    ensures HasChecksum(crc32, bs) <==> Field(bs, 24) == crc32(bs[..CRC_OFFSET])
  {
    hide LeAt;
    FromLe32Injective(bs[0], bs[1], bs[2], bs[3], 0x5A, 0x41, 0x4C, 0x42);
    FromLe32Injective(bs[12], bs[13], bs[14], bs[15], 1, 0, 0, 0);
    FieldShows(bs, 24, crc32(bs[..CRC_OFFSET]));
  }

  lemma ConfigIs(info: FlashInfo, bs: seq<byte>, config: FsConfig)
    requires |bs| == SIZE
    ensures config == FsConfigOf(info, Field(bs, 16)) <==>
            && LeAt(bs, 16, config.physAddr) && Same(config.physAddr + config.physSize, info.CapacityBytes())
            && config.physEraseBlock == config.logBlockSize == info.BlockSizeBytes()
            && config.logPageSize == info.PageSizeBytes()
  {
    hide Pow2, Same, LeAt, Field, Wrap32;
    FieldShows(bs, 16, config.physAddr);
    RestOfChip(config.physAddr, config.physSize, info.CapacityBytes());
  }

  lemma FieldShows(bs: seq<byte>, i: nat, x: u32)
    requires i + 4 <= |bs|
    ensures LeAt(bs, i, x) <==> Field(bs, i) == x
  {
    SmallMod(x);
  }

  lemma RestOfChip(start: u32, size: u32, capacity: nat)
    ensures size == Wrap32(capacity - start) <==> Same(start + size, capacity)
  {
    hide Same;
    SameSelf(start);
    WrapIsSame(capacity - start);
    if size == Wrap32(capacity - start) {
      SameSum(start, size, start, capacity - start);
    }
    if Same(start + size, capacity) {
      SameSelf(0 - start);
      SameSum(start + size, 0 - start, capacity, 0 - start);
      SameSmall(size, capacity - start);
    }
  }

  lemma WrapIsSame(x: int)
    ensures Same(Wrap32(x), x)
  {
  }

  lemma SameSmall(x: u32, y: int)
    requires Same(x, y)
    ensures x == Wrap32(y)
  {
  }

  /** The superblock a format writes for a chip. */
  ghost function Fresh(info: FlashInfo, crc32: seq<byte> -> u32): (sb: Superblock)
    requires info.Valid()
  {
    SizesFit(info);
    var sb := Superblock(MAGIC, VERSION, SIZE, FS_SPIFFS, info.SectorSizeBytes(),
                         Wrap32(info.CapacityBytes() - 1 - info.SectorSizeBytes()), 0);
    sb.(crc := crc32(Body(sb)))
  }

  lemma SizesFit(info: FlashInfo)
    requires info.Valid()
    ensures info.SectorSizeBytes() <= info.CapacityBytes() <= 0x100_0000
    ensures HoldsFs(info) ==> SIZE <= info.SectorSizeBytes()
  {
    hide Pow2;
    ByteMasks();
    Pow2Splits(info.sectorSize, info.capacity);
    Pow2Splits(info.capacity, 24);
    if HoldsFs(info) {
      Pow2Splits(5, info.sectorSize);
      assert Pow2(5) == 32 by { Pow2Of5(); }
    }
  }

  lemma Pow2Of5()
    ensures Pow2(5) == 32
  {
  }

  /** For every chip and every checksum function, a boot accepts what a format wrote and mounts the
      filesystem behind the superblock's sector. */
  lemma FreshSuperblockMounts(info: FlashInfo, crc32: seq<byte> -> u32)
    requires info.Valid()
    ensures Decide(info, crc32, Bytes(Fresh(info, crc32))) == Mounted(ExpectedConfig(info))
  {
    hide Pow2, Wrap32, Body, Bytes, Fresh, Parse, FsConfigOf, ExpectedConfig;
    var sb := Fresh(info, crc32);
    FreshChecksum(info, crc32);
    ParseInvertsBytes(sb);
    StartsWithMagic(sb);
    BodyFirst(sb);
    FreshConfig(info, crc32);
  }

  /** What a format writes, byte by byte. */
  lemma FreshInBytes(info: FlashInfo, crc32: seq<byte> -> u32)
    requires info.Valid()
    ensures var bs := Bytes(Fresh(info, crc32));
            && bs[..4] == [0x5A, 0x41, 0x4C, 0x42] && bs[4..8] == [0, 1, 0, 0] && bs[8..12] == [28, 0, 0, 0]
            && bs[12..16] == [1, 0, 0, 0] && LeAt(bs, 16, info.SectorSizeBytes())
            && Same(FromLe32(bs[20], bs[21], bs[22], bs[23]), info.CapacityBytes() - 1 - info.SectorSizeBytes())
            && LeAt(bs, 24, crc32(bs[..24]))
  {
    hide Pow2, LeAt, FromLe32, Same, Le32;
    var sb := Fresh(info, crc32);
    SizesFit(info);
    FreshChecksum(info, crc32);
    BodyFirst(sb);
    Le32RoundTrip(sb.fsEnd);
    WrapIsSame(info.CapacityBytes() - 1 - info.SectorSizeBytes());
    BytesOf(sb);
    Constants();
    LeAtOf(Bytes(sb), 16, sb.fsStart);
    LeAtOf(Bytes(sb), 24, sb.crc);
  }

  lemma Constants()
    ensures Le32(MAGIC) == [0x5A, 0x41, 0x4C, 0x42] && Le32(VERSION) == [0, 1, 0, 0]
    ensures Le32(SIZE) == [28, 0, 0, 0] && Le32(FS_SPIFFS) == [1, 0, 0, 0]
  {
  }

  lemma LeAtOf(bs: seq<byte>, i: nat, x: u32)
    requires i + 4 <= |bs| && bs[i..i + 4] == Le32(x)
    ensures LeAt(bs, i, x)
  {
    hide Le32;
    Le32Shows(x);
    var w := bs[i..i + 4];
    assert w[0] == bs[i] && w[1] == bs[i + 1] && w[2] == bs[i + 2] && w[3] == bs[i + 3];
  }

  /** Where the fields stand. */
  lemma BytesOf(sb: Superblock)
    ensures var bs := Bytes(sb);
            && bs[..4] == Le32(sb.magic) && bs[4..8] == Le32(sb.version) && bs[8..12] == Le32(sb.totalLength)
            && bs[12..16] == Le32(sb.fsType) && bs[16..20] == Le32(sb.fsStart) && bs[20..24] == Le32(sb.fsEnd)
            && bs[24..] == Le32(sb.crc)
  {
    hide Le32;
  }

  lemma FreshChecksum(info: FlashInfo, crc32: seq<byte> -> u32)
    requires info.Valid()
    ensures var sb := Fresh(info, crc32);
            sb.crc == crc32(Body(sb)) && sb.magic == MAGIC && sb.totalLength == SIZE && sb.fsType == FS_SPIFFS
  {
    hide Pow2, Wrap32, Body;
    BodyIgnoresChecksum(Fresh(info, crc32), 0);
    SizesFit(info);
  }

  lemma BodyFirst(sb: Superblock)
    ensures Bytes(sb)[..CRC_OFFSET] == Body(sb)
  {
    hide Body;
  }

  lemma WrapSmall(x: u32)
    ensures Wrap32(x) == x
  {
  }

  lemma StartsWithMagic(sb: Superblock)
    requires sb.magic == MAGIC
    ensures Bytes(sb)[0] == 0x5A
  {
  }

  lemma BodyIgnoresChecksum(sb: Superblock, crc: u32)
    ensures Body(sb.(crc := crc)) == Body(sb)
  {
  }

  /** What is read back of a superblock of which the first k bytes arrived on erased flash. */
  function Torn(bs: seq<byte>, k: nat): (read: seq<byte>)
    requires |bs| == SIZE
    ensures |read| == SIZE
  {
    seq(SIZE, i requires 0 <= i < SIZE => if i < k then bs[i] else 0xFF)
  }

  lemma BlankAfterErase(m0: seq<byte>, bs: seq<byte>)
    requires |bs| == SIZE <= |m0|
    ensures AllErased(Erased(m0, 0, |m0|)) && Erased(m0, 0, |m0|)[..SIZE] == Torn(bs, 0)
  {
  }

  /** A write of the superblock on erased flash, completed or not, leaves it torn somewhere. */
  lemma TornAfterWrite(m0: seq<byte>, m1: seq<byte>, bs: seq<byte>, ok: bool) returns (k: nat)
    requires |bs| == SIZE <= |m0| && AllErased(m0)
    requires ProgrammedPrefix(m0, m1, 0, bs, 0) && (ok ==> ProgrammedUpTo(m0, m1, 0, bs, 0, SIZE))
    ensures k <= SIZE <= |m1| && m1[..SIZE] == Torn(bs, k) && (ok ==> k == SIZE)
  {
    if ok {
      k := SIZE;
    } else {
      k :| ProgrammedUpTo(m0, m1, 0, bs, 0, k);
    }
    TornRead(bs, m0, m1, k);
  }

  lemma TornRead(bs: seq<byte>, m0: seq<byte>, m1: seq<byte>, k: nat)
    requires |bs| == SIZE <= |m0| && AllErased(m0) && ProgrammedUpTo(m0, m1, 0, bs, 0, k)
    ensures SIZE <= |m1| && m1[..SIZE] == Torn(bs, k)
  {
    forall i | 0 <= i < k
      ensures m1[i] == bs[i]
    {
      AndAllOnes(bs[i]);
    }
  }

  /** A field that is in whole reads as written; one whose last byte is missing reads as a huge number. */
  lemma TornField(bs: seq<byte>, k: nat, i: nat)
    requires |bs| == SIZE && i + 4 <= SIZE
    ensures i + 4 <= k ==> Field(Torn(bs, k), i) == Field(bs, i)
    ensures k <= i + 3 ==> Field(Torn(bs, k), i) >= 0xFF00_0000
  {
  }

  lemma FreshFields(info: FlashInfo, crc32: seq<byte> -> u32)
    requires info.Valid()
    ensures var sb, bs := Fresh(info, crc32), Bytes(Fresh(info, crc32));
            && Field(bs, 0) == MAGIC && Field(bs, 8) == SIZE && Field(bs, 12) == FS_SPIFFS && Field(bs, 16) == sb.fsStart
            && bs[0] == 0x5A
  {
    hide Le32, FromLe32, Pow2;
    ParseInvertsBytes(Fresh(info, crc32));
    StartsWithMagic(Fresh(info, crc32));
  }

  /** A format cut short while writing the superblock, k bytes of which arrived, is repeated at the next
      boot exactly when k is zero.  Up to three bytes every boot panics over the magic number; from then
      on length and magic pass and the checksum alone decides, except that up to 15 bytes the type may
      look wrong; and once the first 20 bytes are in, the right filesystem is mounted or none. */
  lemma InterruptedFormat(info: FlashInfo, crc32: seq<byte> -> u32, k: nat)
    requires info.Valid() && k <= SIZE
    ensures var read := Torn(Bytes(Fresh(info, crc32)), k);
            var boot := Decide(info, crc32, read);
            && (boot == Formatted <==> k == 0)
            && (0 < k < 4 ==> boot == Panicked(BadMagic))
            && (k >= 4 ==> (boot == Panicked(BadChecksum) <==> Field(read, CRC_OFFSET) != crc32(read[..CRC_OFFSET])))
            && (k >= 4 ==> boot.Mounted? || boot in {Panicked(BadChecksum), Panicked(UnsupportedFs)})
            && (k >= 16 ==> boot != Panicked(UnsupportedFs))
            && (k >= 20 ==> boot in {Panicked(BadChecksum), Mounted(ExpectedConfig(info))})
            && (k == SIZE ==> boot == Mounted(ExpectedConfig(info)))
  {
    hide Bytes, Fresh, Field, Torn, Pow2, Wrap32;
    var bs := Bytes(Fresh(info, crc32));
    FreshFields(info, crc32);
    TornField(bs, k, 0);
    TornField(bs, k, 8);
    TornField(bs, k, 12);
    TornField(bs, k, 16);
    TornBytes(bs, k);
    FreshConfig(info, crc32);
    if k == SIZE {
      FreshSuperblockMounts(info, crc32);
    }
  }

  lemma TornBytes(bs: seq<byte>, k: nat)
    requires |bs| == SIZE && bs[0] == 0x5A
    ensures AllErased(Torn(bs, k)) <==> k == 0
    ensures 0 < k < 4 ==> Field(Torn(bs, k), 0) != MAGIC
    ensures k == SIZE ==> Torn(bs, k) == bs
  {
    if k > 0 {
      assert Torn(bs, k)[0] == 0x5A;
    }
  }

  lemma FreshConfig(info: FlashInfo, crc32: seq<byte> -> u32)
    requires info.Valid()
    ensures FsConfigOf(info, Fresh(info, crc32).fsStart) == ExpectedConfig(info)
  {
    SizesFit(info);
    WrapSmall(info.CapacityBytes() - info.SectorSizeBytes());
  }

  // ----- the boot path -----

  /** A flash access the filesystem library makes through its hooks. */
  datatype HalOp = HalWrite(address: nat, data: seq<byte>) | HalErase(address: nat, size: nat)

  ghost predicate InRegion(info: FlashInfo, op: HalOp) {
    && info.SectorSizeBytes() <= op.address
    && op.address + (if op.HalWrite? then |op.data| else op.size) <= info.CapacityBytes()
  }

  /** No access of the library leaves [fsStart, capacity). */
  ghost predicate AllInRegion(info: FlashInfo, ops: seq<HalOp>) {
    forall i :: 0 <= i < |ops| ==> InRegion(info, ops[i])
  }

  lemma ProgrammedKeepsBelow(m0: seq<byte>, m1: seq<byte>, address: nat, data: seq<byte>, lost: nat, n: nat)
    requires (ProgrammedPrefix(m0, m1, address, data, 0) || ProgrammedPrefix(m0, m1, address, data, lost)) && n <= address
    ensures |m0| == |m1| && n <= |m0| && m0[..n] == m1[..n]
  {
  }

  class FileSystem {
    const flash: Driver
    const crc32: seq<byte> -> u32

    ghost predicate Valid()
      reads flash, flash.bus
    {
      flash.Valid() && HoldsFs(flash.info)
    }

    /** The superblock sector's first bytes, as they are on the chip. */
    ghost function Stored(): (bs: seq<byte>)
      requires Valid()
      reads flash, flash.bus
      ensures |bs| == SIZE
    {
      SizesFit(flash.info);
      flash.Mem()[..SIZE]
    }

    constructor (flash: Driver, crc32: seq<byte> -> u32)
      requires flash.Valid() && HoldsFs(flash.info)
      ensures Valid() && this.flash == flash && this.crc32 == crc32
    {
      this.flash, this.crc32 := flash, crc32;
    }

    /** Time does not go back, and failed transfers stay on record. */
    ghost predicate NotBefore(since: nat, faults: nat)
      reads flash.bus, flash.clock
    {
      since <= flash.clock.ticks && faults <= flash.bus.faults
    }

    method HalAccess(op: HalOp) returns (err: Error)
      requires Valid() && InRegion(flash.info, op)
      modifies flash.bus, flash.clock
      ensures Valid() && Stored() == old(Stored()) && NotBefore(old(flash.clock.ticks), old(flash.bus.faults))
    {
      hide Erased, ErasedUpTo, ProgrammedPrefix, ProgrammedUpTo, Pow2, Driver.ErasedPrefix, Driver.Skipped;
      SizesFit(flash.info);
      ghost var m0 := flash.Mem();
      match op
      case HalWrite(address, data) =>
        ghost var lost := flash.Lost(flash.Idle(), address, |data|);
        err := flash.Write(address, data);
        ProgrammedKeepsBelow(m0, flash.Mem(), address, data, lost, SIZE);
      case HalErase(address, size) =>
        ghost var skipped := flash.Skipped(flash.Idle(), address, size);
        err := flash.Erase(address, size);
        if flash.Aligned(address, size) {
          flash.ErasedPrefixStaysInside(m0, flash.Mem(), address, skipped, size);
        }
        assert flash.Mem()[..SIZE] == m0[..SIZE];
    }

    /** The library at work: any sequence of accesses to its region, successful or not. */
    method RunLibrary(ops: seq<HalOp>)
      requires Valid() && AllInRegion(flash.info, ops)
      modifies flash.bus, flash.clock
      ensures Valid() && Stored() == old(Stored()) && NotBefore(old(flash.clock.ticks), old(flash.bus.faults))
    {
      for i := 0 to |ops|
        invariant Valid() && Stored() == old(Stored()) && NotBefore(old(flash.clock.ticks), old(flash.bus.faults))
      {
        var _ := HalAccess(ops[i]);
      }
    }

    method InitSuperblock() returns (sb: Superblock)
      requires Valid()
      ensures sb == Fresh(flash.info, crc32)
    {
      SizesFit(flash.info);
      var info := flash.info;
      var fsStart: u32 := info.SectorSizeBytes();
      var fsEnd := Wrap32(info.CapacityBytes() - 1 - fsStart);
      sb := Superblock(MAGIC, VERSION, SIZE, FS_SPIFFS, fsStart, fsEnd, 0);
      sb := sb.(crc := crc32(Body(sb)));
    }

    /** Some first part of the superblock a format writes is stored, and blanks behind it. */
    ghost predicate Written(k: nat)
      requires Valid()
      reads flash, flash.bus
    {
      k <= SIZE && Stored() == Torn(Bytes(Fresh(flash.info, crc32)), k)
    }

    /** Since tick `since` and with `faults` failed transfers before, something has gone wrong: another
        transfer failed, or the chip erase or the superblock's program took too long. */
    ghost predicate DeviceTrouble(since: nat, faults: nat)
      reads flash.bus, flash.clock
    {
      || flash.bus.faults > faults
      || flash.TimedOut(since, flash.info.timeoutChipErase) || flash.TimedOut(since, flash.info.timeoutPageProgram)
    }

    /** Erase the chip, write the superblock, let the library format its region and take its verdict.  It
        fails only because of that or of the device.  From an idle chip a failure leaves the stored bytes as
        they were or some first part of the superblock. */
    method FormatNor(ops: seq<HalOp>, verdict: bool) returns (ok: bool)
      requires Valid() && AllInRegion(flash.info, ops)
      modifies flash.bus, flash.clock
      ensures Valid() && NotBefore(old(flash.clock.ticks), old(flash.bus.faults))
      ensures ok ==> verdict
      ensures !ok && verdict ==> DeviceTrouble(old(flash.clock.ticks), old(flash.bus.faults))
      ensures old(flash.Idle()) ==> Stored() == old(Stored()) || exists k :: Written(k)
      ensures ok && old(flash.Idle()) ==> Written(SIZE)
    {
      hide Pow2, Torn, Erased, Fresh, ProgrammedUpTo, ProgrammedPrefix;
      SizesFit(flash.info);
      var err := flash.EraseChip();
      ghost var m1 := flash.Mem();
      ghost var erased := m1 == Erased(old(flash.Mem()), 0, flash.info.CapacityBytes());
      if erased {
        BlankAfterErase(old(flash.Mem()), Bytes(Fresh(flash.info, crc32)));
      }
      if err != NoError {
        if erased {
          assert Written(0);
        }
        return false;
      }
      var sb := InitSuperblock();
      err := flash.Write(0, Bytes(sb));
      if old(flash.Idle()) {
        ghost var k := TornAfterWrite(m1, flash.Mem(), Bytes(sb), err == NoError);
        assert Written(k);
      }
      if err != NoError {
        return false;
      }
      RunLibrary(ops);
      ok := verdict;
      assert old(flash.Idle()) ==> Written(SIZE);
    }

    method IsErased(bs: seq<byte>) returns (isEmpty: bool)
      ensures isEmpty <==> AllErased(bs)
    {
      isEmpty := true;
      var i := 0;
      while i < |bs|
        invariant 0 <= i <= |bs| && forall j :: 0 <= j < i ==> bs[j] == 0xFF
      {
        if bs[i] != 0xFF {
          return false;
        }
        i := i + 1;
      }
    }

    /** One boot; `ops` and `verdict` are the library's accesses and its answer when it is asked to format or
        to mount.  On an idle chip the outcome is the decision on the stored bytes.  It is a device error
        instead only if a transfer failed, the library said no, or a format took too long.  A format writes
        the superblock, or some first part of it if it fails, and bytes that are not blank are left alone. */
    method Init(ops: seq<HalOp>, verdict: bool) returns (boot: Boot)
      requires Valid() && AllInRegion(flash.info, ops)
      modifies flash.bus, flash.clock
      ensures Valid() && NotBefore(old(flash.clock.ticks), old(flash.bus.faults))
      ensures boot == Formatted || boot.Mounted? ==> verdict
      ensures old(flash.Idle()) ==> boot == Panicked(DeviceOrLibrary) || boot == Decide(flash.info, crc32, old(Stored()))
      ensures old(flash.Idle()) ==> Explained(flash.info, crc32, old(Stored()), boot)
      ensures old(flash.Idle()) && boot == Panicked(DeviceOrLibrary) && flash.bus.faults == old(flash.bus.faults) && verdict ==>
                AllErased(old(Stored())) && DeviceTrouble(old(flash.clock.ticks), old(flash.bus.faults))
      ensures old(flash.Idle()) && boot == Formatted ==> Written(SIZE)
      ensures old(flash.Idle() && Written(0)) ==> exists k :: Written(k)
      ensures old(flash.Idle()) && !AllErased(old(Stored())) ==> Stored() == old(Stored())
    {
      hide Pow2, Torn, Fresh, Bytes, Parse, FsConfigOf, Execute;
      SizesFit(flash.info);
      var err := flash.Reset();
      assert old(Written(0)) ==> Written(0);
      if err != NoError {
        return Panicked(DeviceOrLibrary);
      }
      var bs;
      err, bs := flash.Read(0, SIZE);
      assert old(Written(0)) ==> Written(0);
      if err != NoError {
        return Panicked(DeviceOrLibrary);
      }
      var isEmpty := IsErased(bs);
      if isEmpty {
        var ok := FormatNor(ops, verdict);
        if old(Written(0)) && Stored() == old(Stored()) {
          assert Written(0);
        }
        return if ok then Formatted else Panicked(DeviceOrLibrary);
      }
      boot := Validate(bs);
      if boot.Mounted? {
        RunLibrary(ops);
        if !verdict {
          boot := Panicked(DeviceOrLibrary);
        }
      }
      assert old(Written(0)) ==> Written(0);
    }

    /** Check what was read, if it is not blank, and mount. */
    method Validate(bs: seq<byte>) returns (boot: Boot)
      requires |bs| == SIZE && !AllErased(bs)
      ensures boot == Decide(flash.info, crc32, bs) && Explained(flash.info, crc32, bs, boot)
    {
      DecideExactly(flash.info, crc32, bs, Decide(flash.info, crc32, bs));
      var computed := crc32(bs[..CRC_OFFSET]);
      var sb := Parse(bs);
      if sb.totalLength < SIZE {
        return Panicked(BadLength);
      } else if sb.magic != MAGIC {
        return Panicked(BadMagic);
      } else if sb.crc != computed {
        return Panicked(BadChecksum);
      } else if sb.fsType != FS_SPIFFS {
        return Panicked(UnsupportedFs);
      }
      boot := Mounted(FsConfigOf(flash.info, sb.fsStart));
    }
  }

  /** One boot and what follows: the library's accesses while it formats or mounts, its verdict, and its
      accesses once mounted. */
  datatype Session = Session(library: seq<HalOp>, verdict: bool, traffic: seq<HalOp>)

  /** Boots of a device from the factory on: the first j find it blank, and format it or fail; the last of
      them leaves k bytes of the superblock, all of it if it reports success; from then on every boot
      decides on those same bytes, or reports a device or library error. */
  ghost predicate Story(info: FlashInfo, crc32: seq<byte> -> u32, boots: seq<Boot>, j: nat, k: nat)
    requires info.Valid()
  {
    && j <= |boots| && k <= SIZE
    && (forall i :: 0 <= i < j ==> boots[i] in {Panicked(DeviceOrLibrary), Formatted})
    && (forall i :: 0 <= i < j && boots[i] == Formatted ==> i == j - 1 && k == SIZE)
    && (forall i :: j <= i < |boots| ==>
          boots[i] in {Panicked(DeviceOrLibrary), Decide(info, crc32, Torn(Bytes(Fresh(info, crc32)), k))})
    && (j < |boots| ==> k > 0)
  }

  /** How many of the boots from number j on ended in a device or library error. */
  function Troubles(boots: seq<Boot>, j: nat): nat {
    if |boots| <= j then 0
    else Troubles(boots[..|boots| - 1], j) + if boots[|boots| - 1] == Panicked(DeviceOrLibrary) then 1 else 0
  }

  lemma {:induction false} NoTroubles(boots: seq<Boot>, j: nat, i: nat)
    requires Troubles(boots, j) == 0 && j <= i < |boots|
    ensures boots[i] != Panicked(DeviceOrLibrary)
  {
    if i < |boots| - 1 {
      NoTroubles(boots[..|boots| - 1], j, i);
    }
  }

  lemma TroublesAppend(boots: seq<Boot>, boot: Boot, j: nat)
    ensures Troubles(boots + [boot], j) ==
            if |boots| < j then 0 else Troubles(boots, j) + if boot == Panicked(DeviceOrLibrary) then 1 else 0
  {
    assert (boots + [boot])[..|boots|] == boots;
  }

  /** How often the library has said no. */
  function Refusals(sessions: seq<Session>): nat {
    if sessions == [] then 0
    else Refusals(sessions[..|sessions| - 1]) + if sessions[|sessions| - 1].verdict then 0 else 1
  }

  lemma RefusalsAppend(sessions: seq<Session>, i: nat)
    requires i < |sessions|
    ensures Refusals(sessions[..i + 1]) == Refusals(sessions[..i]) + if sessions[i].verdict then 0 else 1
  {
    assert sessions[..i + 1][..i] == sessions[..i];
  }

  lemma {:induction false} NoRefusals(sessions: seq<Session>)
    requires forall s <- sessions :: s.verdict
    ensures Refusals(sessions) == 0
  {
    if sessions != [] {
      NoRefusals(sessions[..|sessions| - 1]);
    }
  }

  /** A device from the factory on, over any number of boots, each followed by arbitrary library traffic
      if it mounts.  In particular, once a boot has formatted the chip every later one mounts the same
      filesystem or reports a device or library error.  Every such error, once the chip is no longer blank,
      is paid for by a failed transfer or a refusal of the library; without any, a formatted chip is
      mounted at every boot, and the first boot formats it unless that takes too long. */
  method Lifetime(fs: FileSystem, sessions: seq<Session>) returns (boots: seq<Boot>, ghost j: nat, ghost k: nat)
    requires fs.Valid() && AllErased(fs.Stored())
    requires forall s <- sessions :: AllInRegion(fs.flash.info, s.library) && AllInRegion(fs.flash.info, s.traffic)
    modifies fs.flash.bus, fs.flash.clock
    ensures fs.Valid() && |boots| == |sessions| && fs.Written(k)
    ensures Story(fs.flash.info, fs.crc32, boots, j, k)
    ensures forall i, m :: 0 <= i < m < |boots| && boots[i] == Formatted ==>
              boots[m] in {Panicked(DeviceOrLibrary), Mounted(ExpectedConfig(fs.flash.info))}
    ensures Troubles(boots, j) <= fs.flash.bus.faults - old(fs.flash.bus.faults) + Refusals(sessions)
    ensures fs.flash.bus.faults == old(fs.flash.bus.faults) && (forall s <- sessions :: s.verdict) ==>
              && (sessions != [] ==> boots[0] == Formatted || fs.DeviceTrouble(old(fs.flash.clock.ticks), fs.flash.bus.faults))
              && forall i, m :: 0 <= i < m < |boots| && boots[i] == Formatted ==>
                   boots[m] == Mounted(ExpectedConfig(fs.flash.info))
  {
    hide ExpectedConfig, Fresh, Bytes, Pow2, AllErased, HoldsFs, AllInRegion, Torn, Decide, Troubles, Refusals, MsToTicks;
    boots, j, k := [], 0, 0;
    ghost var ticks, faults := fs.flash.clock.ticks, fs.flash.bus.faults;
    BlankIsTorn(fs);
    NothingYet(sessions);
    for i := 0 to |sessions|
      invariant fs.Valid() && |boots| == i && fs.Written(k) && (k == 0 ==> j == i)
      invariant Story(fs.flash.info, fs.crc32, boots, j, k)
      invariant fs.NotBefore(ticks, faults) && Troubles(boots, j) <= fs.flash.bus.faults - faults + Refusals(sessions[..i])
      invariant if i == 0 then fs.flash.clock.ticks == ticks && fs.flash.bus.faults == faults && k == 0
                else sessions[0].verdict ==> boots[0] == Formatted || fs.DeviceTrouble(ticks, faults)
    {
      var boot;
      ghost var k';
      boot, k' := Live(fs, sessions[i], k);
      TroublesAppend(boots, boot, j);
      TroublesAppend(boots, boot, i + 1);
      RefusalsAppend(sessions, i);
      boots := boots + [boot];
      j, k := if k == 0 then i + 1 else j, k';
    }
    assert sessions[..|sessions|] == sessions;
    AllWell(fs.flash.info, fs.crc32, boots, j, k, sessions);
  }

  /** One boot of a device that holds the first k bytes of the superblock, and the traffic after it. */
  method Live(fs: FileSystem, s: Session, ghost k: nat) returns (boot: Boot, ghost k': nat)
    requires fs.Valid() && fs.Written(k) && AllInRegion(fs.flash.info, s.library) && AllInRegion(fs.flash.info, s.traffic)
    modifies fs.flash.bus, fs.flash.clock
    ensures fs.Valid() && fs.Written(k') && fs.NotBefore(old(fs.flash.clock.ticks), old(fs.flash.bus.faults))
    ensures if k == 0 then boot in {Panicked(DeviceOrLibrary), Formatted} && (boot == Formatted ==> k' == SIZE)
            else
              var read := Torn(Bytes(Fresh(fs.flash.info, fs.crc32)), k);
              k' == k && boot in {Panicked(DeviceOrLibrary), Decide(fs.flash.info, fs.crc32, read)}
    ensures k > 0 && boot == Panicked(DeviceOrLibrary) ==> fs.flash.bus.faults > old(fs.flash.bus.faults) || !s.verdict
    ensures k == 0 && s.verdict ==>
              boot == Formatted || fs.DeviceTrouble(old(fs.flash.clock.ticks), old(fs.flash.bus.faults))
    ensures boot == Formatted ==> k == 0
  {
    hide Fresh, Bytes, Pow2, AllErased, HoldsFs, AllInRegion, Torn, Decide, Explained, MsToTicks;
    fs.flash.bus.Settle();
    TornVerdict(fs.flash.info, fs.crc32, k);
    boot := fs.Init(s.library, s.verdict);
    if k > 0 {
      k' := k;
    } else if boot == Formatted {
      k' := SIZE;
    } else {
      k' :| fs.Written(k');
    }
    if boot.Mounted? {
      fs.RunLibrary(s.traffic);
    }
  }

  /** What the end of a story says once nothing has failed. */
  lemma AllWell(info: FlashInfo, crc32: seq<byte> -> u32, boots: seq<Boot>, j: nat, k: nat, sessions: seq<Session>)
    requires info.Valid() && Story(info, crc32, boots, j, k)
    ensures forall i, m :: 0 <= i < m < |boots| && boots[i] == Formatted ==>
              boots[m] in {Panicked(DeviceOrLibrary), Mounted(ExpectedConfig(info))}
    ensures (forall s <- sessions :: s.verdict) ==> Refusals(sessions) == 0
    ensures Troubles(boots, j) == 0 ==>
              forall i, m :: 0 <= i < m < |boots| && boots[i] == Formatted ==> boots[m] == Mounted(ExpectedConfig(info))
  {
    hide ExpectedConfig, Fresh, Bytes, Pow2, Torn, Decide, Troubles, Refusals;
    TornVerdict(info, crc32, k);
    TornVerdict(info, crc32, SIZE);
    if forall s <- sessions :: s.verdict {
      NoRefusals(sessions);
    }
    if Troubles(boots, j) == 0 {
      forall i | j <= i < |boots|
        ensures boots[i] != Panicked(DeviceOrLibrary)
      {
        NoTroubles(boots, j, i);
      }
    }
  }

  lemma NothingYet(sessions: seq<Session>)
    ensures Troubles([], 0) == 0 && Refusals(sessions[..0]) == 0
  {
  }

  lemma BlankIsTorn(fs: FileSystem)
    requires fs.Valid() && AllErased(fs.Stored())
    ensures fs.Written(0)
  {
  }

  lemma TornVerdict(info: FlashInfo, crc32: seq<byte> -> u32, k: nat)
    requires info.Valid() && k <= SIZE
    ensures var read := Torn(Bytes(Fresh(info, crc32)), k);
            && (AllErased(read) <==> k == 0) && (Decide(info, crc32, read) == Formatted <==> k == 0)
            && (k == SIZE ==> Decide(info, crc32, read) == Mounted(ExpectedConfig(info)))
  {
    hide Bytes, Fresh, Torn, Decide, ExpectedConfig, Pow2;
    FreshFields(info, crc32);
    TornBytes(Bytes(Fresh(info, crc32)), k);
    InterruptedFormat(info, crc32, k);
  }
}
