/** The host interface: one SPI transfer at a time, commands dispatched to handlers, received packets
    handed over, interrupts reported and acknowledged, the beacon and the radio configured. */
module HostIf {
  import opened Common
  import opened Bits
  import opened TxScheduler
  import opened Irq
  import opened PacketTransmitter
  import opened PacketReceiver

  const PAYLOAD_SIZE := 256
  const NUM_COMMANDS := 0x0B
  const CMD_GET_INFO := 0x01
  const CMD_RADIO_CONFIG := 0x02
  const CMD_GET_STATUS := 0x03
  const CMD_IRQ_CONFIG := 0x04
  const CMD_QUEUE_STATUS := 0x05
  const CMD_READ_PACKET := 0x06
  const CMD_TRANSMIT_PACKET := 0x07
  const CMD_BEACON_CONFIG := 0x08
  const CMD_GET_COUNTERS := 0x09
  const CMD_IRQ_STATUS := 0x0A

  const INFO_SIZE := 39
  const RADIO_CONFIG_SIZE := 6
  const BEACON_HEADER := 3
  const COUNTERS_SIZE := 68

  // ----- the handler table -----

  predicate SupportsRead(cmd: nat) { cmd in {0x01, 0x03, 0x04, 0x05, 0x06, 0x09, 0x0A} }

  predicate SupportsWrite(cmd: nat) { cmd in {0x00, 0x02, 0x04, 0x07, 0x08, 0x0A} }

  predicate WantsPostRead(cmd: nat) { cmd == CMD_READ_PACKET }

  // ----- formats on the wire -----

  function BitIf(c: bool, b: byte): byte { if c then b else 0 }

  /** Interrupts as a byte: command error, packet received, packet transmitted, queue empty, from bit 0. */
  function ToBits(s: set<Interrupt>): (b: byte)
    ensures FromBits(b) == s && b < 16
    ensures (b % 2 == 1 <==> CommandError in s) && (b / 2 % 2 == 1 <==> PacketReceived in s)
    ensures (b / 4 % 2 == 1 <==> PacketTransmitted in s) && (b / 8 % 2 == 1 <==> TxQueueEmpty in s)
  {
    var b: byte := BitIf(CommandError in s, 1) + BitIf(PacketReceived in s, 2)
                   + BitIf(PacketTransmitted in s, 4) + BitIf(TxQueueEmpty in s, 8);
    Nibble(BitIf(CommandError in s, 1), BitIf(PacketReceived in s, 1), BitIf(PacketTransmitted in s, 1),
           BitIf(TxQueueEmpty in s, 1), b);
    assert forall i <- s :: i.CommandError? || i.PacketReceived? || i.PacketTransmitted? || i.TxQueueEmpty?;
    b
  }

  lemma Nibble(c: nat, r: nat, t: nat, q: nat, b: nat)
    requires c <= 1 && r <= 1 && t <= 1 && q <= 1 && b == c + 2 * r + 4 * t + 8 * q
    ensures b % 2 == c && b / 2 % 2 == r && b / 4 % 2 == t && b / 8 % 2 == q
  {
  }

  lemma Octet(low: nat, c: nat, r: nat, t: nat, q: nat, b: nat)
    requires low < 16 && c <= 1 && r <= 1 && t <= 1 && q <= 1 && b == low + 16 * (c + 2 * r + 4 * t + 8 * q)
    ensures b % 2 == low % 2 && b / 2 % 2 == low / 2 % 2 && b / 4 % 2 == low / 4 % 2 && b / 8 % 2 == low / 8 % 2
    ensures b / 16 % 2 == c && b / 32 % 2 == r && b / 64 % 2 == t && b / 128 == q
  {
    var high := c + 2 * r + 4 * t + 8 * q;
    assert b / 16 == high && b / 2 == low / 2 + 8 * high && b / 4 == low / 4 + 4 * high && b / 8 == low / 8 + 2 * high;
    assert b / 32 == high / 2 && b / 64 == high / 4 && b / 128 == high / 8;
    Nibble(c, r, t, q, high);
    Parity(low, 8 * high);
    Parity(low / 2, 4 * high);
    Parity(low / 4, 2 * high);
    Parity(low / 8, high);
  }

  lemma Parity(x: nat, y: nat)
    ensures (x + 2 * y) % 2 == x % 2
  {
  }

  function FromBits(b: byte): (s: set<Interrupt>)
    ensures (CommandError in s <==> b % 2 == 1) && (PacketReceived in s <==> b / 2 % 2 == 1)
    ensures (PacketTransmitted in s <==> b / 4 % 2 == 1) && (TxQueueEmpty in s <==> b / 8 % 2 == 1)
  {
    (if b % 2 == 1 then {CommandError} else {}) + (if b / 2 % 2 == 1 then {PacketReceived} else {})
    + (if b / 4 % 2 == 1 then {PacketTransmitted} else {}) + (if b / 8 % 2 == 1 then {TxQueueEmpty} else {})
  }

  function Word(x: nat): (bs: seq<byte>)
    ensures |bs| == 4 && LeAt(bs, 0, x)
  {
    Le32Shows(x % WRAP32);
    Le32(x % WRAP32)
  }

  function QueueWords(q: QueueCounters): (bs: seq<byte>)
    ensures |bs| == 20
  {
    Word(q.packetsPending) + Word(q.bufferSize) + Word(q.bufferDiscards) + Word(q.bufferAllocFails) + Word(q.queueDiscards)
  }

  function CountersReply(ticks: nat, tq: QueueCounters, tr: TxRadioCounters,
                         rq: QueueCounters, rr: RxRadioCounters): (bs: seq<byte>)
    ensures |bs| == COUNTERS_SIZE
  {
    Word(ticks) + QueueWords(tq) + Word(tr.fifoDrops) + Word(tr.ccaFails) + Word(tr.goodFrames)
    + QueueWords(rq) + Word(rr.fifoOverflows) + Word(rr.frameErrors) + Word(rr.goodFrames)
  }

  lemma QueueLayout(q: QueueCounters)
    ensures var bs := QueueWords(q);
            && LeAt(bs, 0, q.packetsPending) && LeAt(bs, 4, q.bufferSize) && LeAt(bs, 8, q.bufferDiscards)
            && LeAt(bs, 12, q.bufferAllocFails) && LeAt(bs, 16, q.queueDiscards)
  {
    hide Word;
  }

  /** Where each of the seventeen statistics stands in the reply. */
  lemma CountersLayout(ticks: nat, tq: QueueCounters, tr: TxRadioCounters, rq: QueueCounters, rr: RxRadioCounters)
    ensures var bs := CountersReply(ticks, tq, tr, rq, rr);
            && LeAt(bs, 0, ticks) && LeAt(bs, 4, tq.packetsPending) && LeAt(bs, 8, tq.bufferSize)
            && LeAt(bs, 12, tq.bufferDiscards) && LeAt(bs, 16, tq.bufferAllocFails) && LeAt(bs, 20, tq.queueDiscards)
            && LeAt(bs, 24, tr.fifoDrops) && LeAt(bs, 28, tr.ccaFails) && LeAt(bs, 32, tr.goodFrames)
            && LeAt(bs, 36, rq.packetsPending) && LeAt(bs, 40, rq.bufferSize) && LeAt(bs, 44, rq.bufferDiscards)
            && LeAt(bs, 48, rq.bufferAllocFails) && LeAt(bs, 52, rq.queueDiscards)
            && LeAt(bs, 56, rr.fifoOverflows) && LeAt(bs, 60, rr.frameErrors) && LeAt(bs, 64, rr.goodFrames)
  {
    QueueLayout(tq);
    QueueLayout(rq);
    hide Word, QueueWords;
  }

  function Half(lo: byte, hi: byte): nat { lo + hi * 0x100 }

  // ----- transfers -----

  /** An SPI transfer the interface is waiting for. */
  datatype Transfer = Header | Payload(size: nat) | Response(size: nat)

  /** How a transfer ends; a failed payload reception delivers nothing. */
  datatype Completion = HeaderDone(ok: bool, command: byte, length: byte) | PayloadDone(bytes: seq<byte>) | ResponseDone

  /** How the interface fares: still running; nothing armed for ever; left the loop; read out of bounds;
      stopped by a failed requirement; or with a transmit ledger that a new beacon payload has broken. */
  datatype Health = Running | Stalled | Stopped | Undefined | Panicked | LedgerBroken

  /** What the outside answers while a command is handled: malloc, the radio asked to transmit, the radio
      asked to tune in (0 for success), whether it is active, and the time. */
  datatype Env = Env(block: Option<Ptr>, radio: Radio, tuning: int, active: bool, ticks: nat)

  /** One thing the outside world does. */
  datatype Stimulus = Bus(c: Completion, env: Env)
                    | RxFrame(frame: seq<byte>, rssi: byte, lqi: byte, block: Option<Ptr>)
                    | RxFault(overflow: bool)
                    | TxReport(report: Report)
                    | BeaconTimer(radio: Radio)

  function PayloadOf(c: Completion): seq<byte> {
    if c.PayloadDone? then c.bytes else []
  }

  predicate Answers(t: Transfer, c: Completion) {
    match t
    case Header => c.HeaderDone?
    case Payload(n) => c.PayloadDone? && |c.bytes| <= n
    case Response(_) => c.ResponseDone?
  }

  class Interface {
    const rx: Receiver
    const irq: IrqManager
    const beacon: Beacon
    const info: seq<byte>
    const gPayloadBuffer: array<byte>

    var gCommandBufferValid: bool
    var command: byte
    var payloadLength: byte
    var gCurrentHandler: Option<nat>
    var gPayloadBytesReceived: nat
    var gErrorFlag: bool
    var armed: Option<Transfer>

    /** The host has acknowledged PacketReceived, and since then no frame has come in and no packet has been
        read out. */
    ghost var owes: bool

    /** The receiver, transmitter, beacon and interrupt line are sound, and waiting packets are announced
        exactly unless the host owes a read-out for them. */
    ghost predicate Backed()
      reads this, rx, irq, rx.tx, rx.tx.irq, beacon, beacon.tx
    {
      && Linked() && rx.Valid() && irq.Valid() && beacon.Alive()
      && (rx.gRxQueue != [] ==> (irq.rxAcked <==> owes))
    }

    predicate Linked() {
      rx.irq == irq && beacon.tx == rx.tx && gPayloadBuffer.Length == PAYLOAD_SIZE && |info| == INFO_SIZE
    }

    /** At every wait: exactly one transfer is armed, the current handler is the one that transfer
        belongs to, and a buffer is checked out exactly while its packet is being sent. */
    ghost predicate Valid()
      reads this, rx, irq, rx.tx, rx.tx.irq, beacon, beacon.tx
    {
      && Backed() && armed.Some?
      && match armed.value {
           case Header => gCurrentHandler == None && rx.checkedOut == None
           case Payload(n) => gCurrentHandler == Some(command % 0x80) && 0 < n < PAYLOAD_SIZE && command < NUM_COMMANDS
                              && rx.checkedOut == None
           case Response(n) => gCurrentHandler == Some(command % 0x80) && n < PAYLOAD_SIZE && SupportsRead(command % 0x80)
                               && (rx.checkedOut.Some? <==> command % 0x80 == CMD_READ_PACKET)
                               && (rx.checkedOut.Some? ==> rx.gPbuf == rx.checkedOut)
         }
    }

    constructor (rx: Receiver, beacon: Beacon, info: seq<byte>)
      requires rx.Valid() && rx.checkedOut == None && rx.gRxQueue == [] && rx.irq.Valid()
      requires beacon.tx == rx.tx && beacon.Alive() && |info| == INFO_SIZE
      ensures Valid() && this.rx == rx && this.beacon == beacon && armed == Some(Header)
    {
      hide Receiver.Sound;
      this.rx, irq, this.beacon, this.info := rx, rx.irq, beacon, info;
      gPayloadBuffer := new byte[PAYLOAD_SIZE];
      gCommandBufferValid, command, payloadLength, gCurrentHandler := false, 0, 0, None;
      gPayloadBytesReceived, gErrorFlag, armed, owes := 0, false, None, false;
      new;
      ReadCommand();
    }

    /** Wait for the next header.  Arming while another transfer is outstanding would be a driver error. */
    method ReadCommand()
      requires armed == None
      modifies this`gCommandBufferValid, this`gCurrentHandler, this`armed
      ensures armed == Some(Header) && gCurrentHandler == None && !gCommandBufferValid
    {
      gCommandBufferValid := false;
      gCurrentHandler := None;
      armed := Some(Header);
    }

    method ReadPayload(numBytes: nat)
      requires armed == None
      modifies this`gPayloadBytesReceived, this`armed
      ensures armed == Some(Payload(Min(numBytes, gPayloadBuffer.Length))) && gPayloadBytesReceived == 0
    {
      gPayloadBytesReceived := 0;
      armed := Some(Payload(Min(numBytes, gPayloadBuffer.Length)));
    }

    /** Others have changed the interrupts; waiting packets are still announced. */
    twostate lemma StillBacked()
      requires old(Backed()) && unchanged(rx) && unchanged(rx.tx) && unchanged(beacon) && irq.Valid()
      requires rx.gRxQueue != [] ==> (PacketReceived in irq.gActive <==> !irq.rxAcked)
      requires rx.gRxQueue != [] ==> (irq.rxAcked <==> owes)
      ensures Backed()
    {
      hide Receiver.Sound;
      rx.InterruptsChanged();
    }

    lemma Announced()
      requires Backed()
      ensures rx.gRxQueue != [] ==> (PacketReceived in irq.gActive <==> !irq.rxAcked) && (irq.rxAcked <==> owes)
      ensures irq.Valid() && rx.tx.irq == irq && !rx.tx.panicked && |rx.tx.gTxQueues| == CLASSES
      ensures rx.tx.Valid() || rx.tx.Wedged()
      ensures rx.tx.Valid() <==> rx.tx.Moving()
    {
      hide Handler.Valid, Handler.Wedged, Receiver.InOrder, Receiver.BytesBalance, Receiver.Counted;
      rx.tx.Counting();
    }

    // ----- read handlers -----

    /** From bit 0: last command good, radio active, packets waiting, receive queue full, receive overflow,
        nothing to transmit, a bit that is always zero, transmit overflow. */
    function StatusByte(active: bool): (x: byte)
      reads this`gErrorFlag, rx`gRxQueue, rx`gRxOverflowFlag, rx.tx`gTxPacketsPending, rx.tx`gTxOverflowFlag
      ensures (x % 2 == 1 <==> !gErrorFlag) && (x / 2 % 2 == 1 <==> active) && (x / 4 % 2 == 1 <==> rx.gRxQueue != [])
      ensures (x / 8 % 2 == 1 <==> |rx.gRxQueue| == 255) && (x / 16 % 2 == 1 <==> rx.gRxOverflowFlag)
      ensures (x / 32 % 2 == 1 <==> rx.tx.gTxPacketsPending == 0) && x / 64 % 2 == 0
      ensures x / 128 == 1 <==> rx.tx.gTxOverflowFlag
    {
      var low := BitIf(!gErrorFlag, 1) + BitIf(active, 2) + BitIf(rx.gRxQueue != [], 4) + BitIf(|rx.gRxQueue| == MAX_RX_QUEUE, 8);
      var x: byte := low + BitIf(rx.gRxOverflowFlag, 16) + BitIf(rx.tx.gTxPacketsPending == 0, 32)
                     + BitIf(rx.tx.gTxOverflowFlag, 128);
      Nibble(BitIf(!gErrorFlag, 1), BitIf(active, 1), BitIf(rx.gRxQueue != [], 1), BitIf(|rx.gRxQueue| == MAX_RX_QUEUE, 1), low);
      Octet(low, BitIf(rx.gRxOverflowFlag, 1), BitIf(rx.tx.gTxPacketsPending == 0, 1), 0, BitIf(rx.tx.gTxOverflowFlag, 1), x);
      x
    }

    /** Whether a command looks at the oldest received packet. */
    predicate LooksAtFront(cmd: nat) {
      cmd in {CMD_QUEUE_STATUS, CMD_READ_PACKET}
    }

    /** What a read command is to tell the host in full, from the state it finds. */
    ghost function Reply(cmd: nat, env: Env): seq<byte>
      reads this`gErrorFlag, rx, irq, rx.tx
    {
      if cmd == CMD_GET_INFO then info
      else if cmd == CMD_GET_STATUS then [StatusByte(env.active)]
      else if cmd == CMD_IRQ_CONFIG then [ToBits(irq.gMask)]
      else if cmd == CMD_GET_COUNTERS then
        CountersReply(env.ticks, rx.tx.QueueNow(), rx.tx.RadioNow(), rx.QueueNow(), rx.RadioNow())
      else if cmd == CMD_IRQ_STATUS then [ToBits(irq.gActive * irq.gMask)]
      else if rx.gRxQueue != [] && rx.gRxQueue[0] in rx.rxHeap then
        var b := rx.rxHeap[rx.gRxQueue[0]];
        if cmd == CMD_QUEUE_STATUS then [1 + BitIf(rx.tx.gTxPacketsPending > 0, 2), b.packetSize % 0x100]
        else [b.rssi, b.lqi] + b.data
      else []
    }

    lemma FrontIsAlive()
      requires Backed() && rx.gRxQueue != []
      ensures rx.gRxQueue[0] in rx.rxHeap
    {
    }

    /** The first bytes of the transfer buffer are those of a reply, as far as both go. */
    ghost predicate Carries(n: nat, reply: seq<byte>)
      reads gPayloadBuffer
    {
      Min(n, |reply|) <= gPayloadBuffer.Length && gPayloadBuffer[..Min(n, |reply|)] == reply[..Min(n, |reply|)]
    }

    method Copy(reply: seq<byte>, requested: nat) returns (n: nat)
      requires requested < gPayloadBuffer.Length
      modifies gPayloadBuffer
      ensures n == Min(requested, |reply|) && Carries(n, reply)
    {
      n := Min(requested, |reply|);
      forall i | 0 <= i < n {
        gPayloadBuffer[i] := reply[i];
      }
    }

    method IrqStatusRead(requested: nat) returns (n: nat)
      requires Backed() && 0 < requested < PAYLOAD_SIZE
      modifies irq, gPayloadBuffer, this`owes
      ensures Backed() && n == 1 && Carries(1, [ToBits(old(irq.gActive * irq.gMask))])
      ensures var x, told := gPayloadBuffer[0], old(irq.gActive * irq.gMask);
              && x < 16 && (x % 2 == 1 <==> CommandError in told) && (x / 2 % 2 == 1 <==> PacketReceived in told)
              && (x / 4 % 2 == 1 <==> PacketTransmitted in told) && (x / 8 % 2 == 1 <==> TxQueueEmpty in told)
      ensures irq.gMask == old(irq.gMask) && irq.gActive == old(irq.gActive - irq.gMask)
    {
      hide Receiver.Valid, ToBits, FromBits;
      Announced();
      var pending := irq.ReadStatus();
      owes := owes || PacketReceived in pending;
      StillBacked();
      n := CopyBits(pending, requested);
    }

    /** Copy an interrupt set to the transfer buffer. */
    method CopyBits(told: set<Interrupt>, requested: nat) returns (n: nat)
      requires 0 < requested < gPayloadBuffer.Length
      modifies gPayloadBuffer
      ensures n == 1 && Carries(1, [ToBits(told)])
      ensures var x := gPayloadBuffer[0];
              && x < 16 && (x % 2 == 1 <==> CommandError in told) && (x / 2 % 2 == 1 <==> PacketReceived in told)
              && (x / 4 % 2 == 1 <==> PacketTransmitted in told) && (x / 8 % 2 == 1 <==> TxQueueEmpty in told)
    {
      hide ToBits, FromBits;
      var bits := ToBits(told);
      n := Copy([bits], requested);
      assert gPayloadBuffer[..1][0] == bits;
    }

    /** The statistics of both directions, cleared as they are reported. */
    method CountersRead(requested: nat, ticks: nat) returns (n: int)
      requires Backed() && requested < PAYLOAD_SIZE
      modifies rx`gRxQueueDiscarded, rx`gRxBufferDiscarded, rx`gRxBufferAllocFailed, rx`toldQueue, rx`toldBuffer, rx`toldAlloc,
               rx`gRxFrames, rx`gRxFrameErrors, rx`gRxFifoOverflows, rx`toldGood,
               rx.tx`gTxBufferDiscarded, rx.tx`gTxBufferAllocFailed, rx.tx`gTxQueueDiscarded,
               rx.tx`gTxFifoDrops, rx.tx`gTxCcaFails, rx.tx`gTxFrames, gPayloadBuffer
      ensures Backed()
      ensures n == if requested < COUNTERS_SIZE then -1 else requested
      ensures n >= 0 ==>
                && Carries(requested, old(CountersReply(ticks, rx.tx.QueueNow(), rx.tx.RadioNow(), rx.QueueNow(), rx.RadioNow())))
                && rx.toldGood == old(rx.toldGood + rx.gRxFrames) && rx.gRxFrames == 0
                && rx.toldQueue == old(rx.toldQueue + rx.gRxQueueDiscarded) && rx.gRxQueueDiscarded == 0
                && rx.toldBuffer == old(rx.toldBuffer + rx.gRxBufferDiscarded) && rx.gRxBufferDiscarded == 0
                && rx.toldAlloc == old(rx.toldAlloc + rx.gRxBufferAllocFailed) && rx.gRxBufferAllocFailed == 0
      ensures n >= 0 ==> ShowsCounters(gPayloadBuffer[..COUNTERS_SIZE], ticks)
    {
      hide Receiver.Valid, CountersReply, LeAt;
      if requested < COUNTERS_SIZE {
        return -1;
      }
      var tq, rq := QueueCountersRead();
      var tr, rr := RadioCountersRead();
      CountersLayout(ticks, tq, tr, rq, rr);
      var reply := CountersReply(ticks, tq, tr, rq, rr);
      var _ := Copy(reply, requested);
      n := requested;
      assert gPayloadBuffer[..COUNTERS_SIZE] == reply;
    }

    /** The statistics as they stood before, in 32-bit words, lowest byte first. */
    twostate predicate ShowsCounters(bs: seq<byte>, ticks: nat)
      reads rx, rx.tx
    {
      && LeAt(bs, 0, ticks) && LeAt(bs, 4, old(rx.tx.gTxPacketsPending)) && LeAt(bs, 8, old(rx.tx.gTxAllocBytes))
      && LeAt(bs, 12, old(rx.tx.gTxBufferDiscarded)) && LeAt(bs, 16, old(rx.tx.gTxBufferAllocFailed))
      && LeAt(bs, 20, old(rx.tx.gTxQueueDiscarded)) && LeAt(bs, 24, old(rx.tx.gTxFifoDrops))
      && LeAt(bs, 28, old(rx.tx.gTxCcaFails)) && LeAt(bs, 32, old(rx.tx.gTxFrames))
      && LeAt(bs, 36, old(|rx.gRxQueue|)) && LeAt(bs, 40, old(rx.gRxAllocBytes))
      && LeAt(bs, 44, old(rx.gRxBufferDiscarded)) && LeAt(bs, 48, old(rx.gRxBufferAllocFailed))
      && LeAt(bs, 52, old(rx.gRxQueueDiscarded)) && LeAt(bs, 56, old(rx.gRxFifoOverflows))
      && LeAt(bs, 60, old(rx.gRxFrameErrors)) && LeAt(bs, 64, old(rx.gRxFrames))
    }

    /** What each read command tells the host, byte by byte; for the statistics see `CountersRead`. */
    lemma ReplyInBytes(cmd: nat, env: Env)
      requires Backed() && SupportsRead(cmd) && (LooksAtFront(cmd) ==> rx.gRxQueue != [])
      ensures var r, told := Reply(cmd, env), if cmd == 0x04 then irq.gMask else irq.gActive * irq.gMask;
              && (cmd == 0x01 ==> r == info)
              && (cmd == 0x03 ==>
                    && |r| == 1 && (r[0] % 2 == 1 <==> !gErrorFlag) && (r[0] / 2 % 2 == 1 <==> env.active)
                    && (r[0] / 4 % 2 == 1 <==> rx.gRxQueue != []) && (r[0] / 8 % 2 == 1 <==> |rx.gRxQueue| == 255)
                    && (r[0] / 16 % 2 == 1 <==> rx.gRxOverflowFlag) && (r[0] / 32 % 2 == 1 <==> rx.tx.gTxPacketsPending == 0)
                    && r[0] / 64 % 2 == 0 && (r[0] / 128 == 1 <==> rx.tx.gTxOverflowFlag))
              && (cmd == 0x04 || cmd == 0x0A ==>
                    && |r| == 1 && r[0] < 16
                    && (r[0] % 2 == 1 <==> CommandError in told) && (r[0] / 2 % 2 == 1 <==> PacketReceived in told)
                    && (r[0] / 4 % 2 == 1 <==> PacketTransmitted in told) && (r[0] / 8 % 2 == 1 <==> TxQueueEmpty in told))
              && (cmd == 0x05 ==>
                    r == [if rx.tx.gTxPacketsPending == 0 then 1 else 3, rx.rxHeap[rx.gRxQueue[0]].packetSize % 0x100])
              && (cmd == 0x06 ==>
                    var b := rx.rxHeap[rx.gRxQueue[0]];
                    |r| == 2 + |b.data| && r[0] == b.rssi && r[1] == b.lqi && r[2..] == b.data)
              && (cmd == 0x09 ==> |r| == 68)
    {
      hide Receiver.Valid, ToBits, CountersReply;
      if LooksAtFront(cmd) {
        FrontIsAlive();
      }
    }

    /** The packet handler's part of the statistics. */
    method QueueCountersRead() returns (tq: QueueCounters, rq: QueueCounters)
      requires Backed()
      modifies rx`gRxQueueDiscarded, rx`gRxBufferDiscarded, rx`gRxBufferAllocFailed, rx`toldQueue, rx`toldBuffer, rx`toldAlloc,
               rx.tx`gTxBufferDiscarded, rx.tx`gTxBufferAllocFailed, rx.tx`gTxQueueDiscarded
      ensures Backed() && tq == old(rx.tx.QueueNow()) && rq == old(rx.QueueNow())
      ensures rx.toldQueue == old(rx.toldQueue + rx.gRxQueueDiscarded) && rx.gRxQueueDiscarded == 0
      ensures rx.toldBuffer == old(rx.toldBuffer + rx.gRxBufferDiscarded) && rx.gRxBufferDiscarded == 0
      ensures rx.toldAlloc == old(rx.toldAlloc + rx.gRxBufferAllocFailed) && rx.gRxBufferAllocFailed == 0
    {
      hide Receiver.Sound, Handler.Valid, Handler.Wedged;
      Announced();
      tq := rx.tx.ReadCounters();
      rx.TransmitterChanged();
      rq := rx.ReadCounters();
    }

    /** The radio loop's part of the statistics. */
    method RadioCountersRead() returns (tr: TxRadioCounters, rr: RxRadioCounters)
      requires Backed()
      modifies rx`gRxFrames, rx`gRxFrameErrors, rx`gRxFifoOverflows, rx`toldGood,
               rx.tx`gTxFifoDrops, rx.tx`gTxCcaFails, rx.tx`gTxFrames
      ensures Backed() && tr == old(rx.tx.RadioNow()) && rr == old(rx.RadioNow())
      ensures rx.toldGood == old(rx.toldGood + rx.gRxFrames) && rx.gRxFrames == 0
    {
      hide Receiver.Sound, Handler.Valid, Handler.Wedged;
      Announced();
      tr := rx.tx.ReadRadioCounters();
      rx.TransmitterChanged();
      rr := rx.ReadRadioCounters();
    }

    /** Run a read handler; the host is told what `Reply` says, cut to the request, or the handler fails. */
    method ReadHandler(cmd: nat, requested: nat, env: Env) returns (ret: int)
      requires Backed() && SupportsRead(cmd) && 0 < requested < PAYLOAD_SIZE && rx.checkedOut == None
      requires LooksAtFront(cmd) ==> rx.gRxQueue != []
      modifies rx, rx.tx, irq, gPayloadBuffer, this`owes, this`gErrorFlag
      ensures Backed()
      ensures ret == if cmd == CMD_GET_COUNTERS then (if requested < COUNTERS_SIZE then -1 else requested)
                     else Min(requested, |old(Reply(cmd, env))|)
      ensures ret >= 0 ==> Carries(ret, old(Reply(cmd, env)))
      ensures if cmd == CMD_READ_PACKET then
                rx.checkedOut == Some(old(rx.gRxQueue)[0]) == rx.gPbuf && rx.gRxQueue == old(rx.gRxQueue)[1..] && !owes
              else rx.checkedOut == None && rx.gRxQueue == old(rx.gRxQueue)
      ensures irq.gMask == old(irq.gMask) && rx.rxHeap == old(rx.rxHeap)
      ensures ActiveAfterRead(cmd)
      ensures old(rx.tx.Moving()) ==> rx.tx.Moving()
    {
      hide Receiver.Valid, ToBits, FromBits, CountersReply, Handler.Valid, Handler.Wedged,
           StatusByte, ShowsCounters, LeAt, IrqManager.Valid;
      Announced();
      if cmd == CMD_READ_PACKET {
        FrontIsAlive();
        ret := ReadPacket(requested);
      } else if cmd == CMD_IRQ_STATUS {
        ret := IrqStatusRead(requested);
      } else if cmd == CMD_GET_COUNTERS {
        ret := CountersRead(requested, env.ticks);
      } else if cmd == CMD_GET_STATUS {
        var status := StatusByte(env.active);
        gErrorFlag := false;
        ret := Copy([status], requested);
      } else if cmd == CMD_IRQ_CONFIG {
        ret := CopyBits(irq.gMask, requested);
      } else if cmd == CMD_QUEUE_STATUS {
        FrontIsAlive();
        var front := rx.rxHeap[rx.gRxQueue[0]];
        ret := Copy([1 + BitIf(rx.tx.gTxPacketsPending > 0, 2), front.packetSize % 0x100], requested);
      } else {
        ret := Copy(info, requested);
      }
    }

    /** The active interrupts after a read command: less those told, or with the packets still waiting
        announced, or the same. */
    twostate predicate ActiveAfterRead(cmd: nat)
      reads irq, rx
    {
      if cmd == CMD_IRQ_STATUS then irq.gActive == old(irq.gActive - irq.gMask)
      else if cmd == CMD_READ_PACKET then
        irq.gActive == old(irq.gActive) + if rx.gRxQueue != [] then {PacketReceived} else {}
      else irq.gActive == old(irq.gActive)
    }

    /** Hand the oldest packet over. */
    method ReadPacket(requested: nat) returns (n: nat)
      requires Backed() && rx.gRxQueue != [] && rx.gRxQueue[0] in rx.rxHeap && rx.checkedOut == None
      requires 0 < requested < PAYLOAD_SIZE
      modifies rx, irq, gPayloadBuffer, this`owes
      ensures Backed() && irq.gMask == old(irq.gMask) && !owes && rx.rxHeap == old(rx.rxHeap) && rx.WaitingTold()
      ensures rx.checkedOut == Some(old(rx.gRxQueue)[0]) == rx.gPbuf && rx.gRxQueue == old(rx.gRxQueue)[1..]
      ensures var b := old(rx.rxHeap[rx.gRxQueue[0]]);
              var reply := [b.rssi, b.lqi] + b.data;
              n == Min(requested, |reply|) && Carries(n, reply)
    {
      hide Receiver.Sound;
      n := rx.DoRead(requested, gPayloadBuffer);
      rx.TransmitterUp();
      owes := false;
    }

    // ----- write handlers -----

    method IrqStatusWrite(payload: seq<byte>) returns (err: int)
      requires Backed()
      modifies irq, this`owes
      ensures Backed() && irq.gMask == old(irq.gMask) && (payload == [] <==> err != 0)
      ensures irq.gActive == if payload == [] then old(irq.gActive) else old(irq.gActive) - FromBits(payload[0])
      ensures payload != [] ==>
                && (CommandError in irq.gActive <==> CommandError in old(irq.gActive) && payload[0] % 2 == 0)
                && (PacketReceived in irq.gActive <==> PacketReceived in old(irq.gActive) && payload[0] / 2 % 2 == 0)
                && (PacketTransmitted in irq.gActive <==> PacketTransmitted in old(irq.gActive) && payload[0] / 4 % 2 == 0)
                && (TxQueueEmpty in irq.gActive <==> TxQueueEmpty in old(irq.gActive) && payload[0] / 8 % 2 == 0)
    {
      hide Receiver.Valid, FromBits;
      Announced();
      if payload == [] {
        return -1;
      }
      var ack := FromBits(payload[0]);
      irq.Acknowledge(ack);
      owes := owes || PacketReceived in ack;
      StillBacked();
      err := 0;
    }

    method IrqConfigWrite(payload: seq<byte>) returns (err: int)
      requires Backed()
      modifies irq
      ensures Backed() && irq.gActive == old(irq.gActive) && (payload == [] <==> err != 0)
      ensures irq.gMask == if payload == [] then old(irq.gMask) else FromBits(payload[0])
      ensures payload != [] ==>
                && (CommandError in irq.gMask <==> payload[0] % 2 == 1)
                && (PacketReceived in irq.gMask <==> payload[0] / 2 % 2 == 1)
                && (PacketTransmitted in irq.gMask <==> payload[0] / 4 % 2 == 1)
                && (TxQueueEmpty in irq.gMask <==> payload[0] / 8 % 2 == 1)
    {
      hide Receiver.Valid, FromBits;
      Announced();
      if payload == [] {
        return -1;
      }
      irq.SetMask(FromBits(payload[0]));
      StillBacked();
      err := 0;
    }

    method TransmitPacketWrite(payload: seq<byte>, block: Option<Ptr>, radio: Radio) returns (err: int)
      requires Backed() && (block.Some? ==> block.value !in rx.tx.heap)
      modifies rx.tx, irq
      ensures Backed() && irq.Raised({TxQueueEmpty}) && (old(rx.tx.Moving()) ==> rx.tx.Moving())
      ensures if payload == [] then irq.gActive == old(irq.gActive) else rx.tx.EmptyTold()
      ensures err == 0 <==>
                && payload != [] && old(rx.tx.HasRoom(payload[0] % 4, |payload| - 1, block))
                && (old(rx.tx.gTxPacketsPending) > 0 || radio.Starts?)
      ensures old(rx.tx.Moving()) ==>
                rx.tx.events == if err == 0 then old(rx.tx.events) + [Accept(payload[0] % 4, block.value)] else old(rx.tx.events)
      ensures err == 0 ==> block.value in rx.tx.heap && rx.tx.heap[block.value].data == payload[1..]
    {
      hide Receiver.Sound, Handler.Valid, Handler.Wedged;
      Announced();
      if payload == [] {
        return -1;
      }
      var r := rx.tx.QueueTxPacket(payload[0] % 4, payload[1..], false, block, radio);
      rx.tx.Counting();
      rx.TransmitterChanged();
      err := if r == None then -2 else 0;
    }

    method RadioConfigWrite(payload: seq<byte>, tuning: int) returns (err: int)
      requires Backed()
      modifies rx`gAddress
      ensures Backed()
      ensures err == 0 <==>
                |payload| >= 6 && tuning == 0 && payload[4] as nat + payload[5] as nat * 0x100 !in {0, 0xFFFF}
      ensures rx.gAddress == if err == 0 then payload[4] as nat + payload[5] as nat * 0x100 else old(rx.gAddress)
    {
      hide Receiver.Sound;
      if |payload| < RADIO_CONFIG_SIZE {
        return -1;
      }
      if tuning != 0 {
        return tuning;
      }
      err := rx.SetAddress(Half(payload[4], payload[5]));
    }

    /** Whether a beacon configuration replaces a payload whose packet is not the one count too many. */
    predicate Breaks(cmd: nat, payload: seq<byte>)
      reads beacon`gPacket, rx.tx`gTxPacketsPending, rx.tx`gLastTx
    {
      cmd == CMD_BEACON_CONFIG && |payload| > BEACON_HEADER && beacon.gPacket.Some? && !rx.tx.Stranded()
    }

    /** Configure the beacon's timer, its payload, or both. */
    method BeaconConfigWrite(payload: seq<byte>, block: Option<Ptr>) returns (err: int)
      requires Backed() && (block.Some? ==> block.value !in rx.tx.heap || block == beacon.gPacket)
      modifies beacon, rx.tx, irq
      ensures irq.Valid() && irq.Raised({TxQueueEmpty}) && Linked() && !rx.tx.panicked && rx.tx.events == old(rx.tx.events)
      ensures if |payload| > 3 && (old(beacon.gPacket).Some? || err != 0) then rx.tx.EmptyTold()
              else irq.gActive == old(irq.gActive)
      ensures if old(Breaks(CMD_BEACON_CONFIG, payload)) then rx.tx.Broken() else Backed()
      ensures !old(Breaks(CMD_BEACON_CONFIG, payload)) && old(rx.tx.Moving()) ==> rx.tx.Moving()
      ensures |payload| < 3 ==> err != 0
      ensures |payload| == 3 ==> err == 0
      ensures |payload| <= BEACON_HEADER ==>
                beacon.gPacket == old(beacon.gPacket) && rx.tx.heap == old(rx.tx.heap)
                && rx.tx.gTxPacketsPending == old(rx.tx.gTxPacketsPending)
      ensures |payload| > BEACON_HEADER ==>
                && (err == 0 <==> beacon.gPacket.Some?)
                && (beacon.gPacket.Some? <==> block.Some? && old(beacon.Fits(|payload| - BEACON_HEADER)))
                && (beacon.gPacket.Some? ==>
                      beacon.gPacket.value in rx.tx.heap && rx.tx.heap[beacon.gPacket.value].data == payload[BEACON_HEADER..])
                && rx.tx.gTxPacketsPending ==
                   if old(beacon.gPacket).Some? then (old(rx.tx.gTxPacketsPending) + WRAP32 - 1) % WRAP32
                   else old(rx.tx.gTxPacketsPending)
      ensures if |payload| >= 3 && payload[0] % 2 == 1 then
                && beacon.gEnabled == (payload[0] / 2 % 2 == 1)
                && beacon.gInterval == payload[1] as nat + payload[2] as nat * 0x100
              else beacon.gEnabled == old(beacon.gEnabled) && beacon.gInterval == old(beacon.gInterval)
    {
      hide Receiver.Sound, Handler.Valid, Handler.Wedged, Handler.Broken, Handler.Stranded,
           Handler.InQueues, Handler.BytesBalance;
      Announced();
      if |payload| < BEACON_HEADER {
        return -1;
      }
      if payload[0] % 2 == 1 {
        beacon.SetEnabled(payload[0] / 2 % 2 == 1);
        beacon.SetInterval(Half(payload[1], payload[2]));
      }
      if |payload| == BEACON_HEADER {
        return 0;
      }
      err := beacon.SetPayload(payload[BEACON_HEADER..], block);
      if !old(Breaks(CMD_BEACON_CONFIG, payload)) {
        rx.tx.Counting();
        rx.TransmitterChanged();
      }
    }

    // ----- dispatch -----

    /** What a write command does to the error flag, the interrupts, the radio's address, the beacon and
        the transmitter. */
    twostate predicate Dispatched(cmd: nat, payload: seq<byte>, env: Env)
      reads this`gErrorFlag, irq, rx, rx.tx, beacon
    {
      && (if SupportsWrite(cmd) then gErrorFlag <==> !old(WriteSucceeds(cmd, payload, env)) else gErrorFlag == old(gErrorFlag))
      && ActiveAfter(cmd, payload, !gErrorFlag, if SupportsWrite(cmd) && gErrorFlag then {CommandError} else {})
      && Written(cmd, payload, env, !gErrorFlag) && BeaconAfter(cmd, payload, !gErrorFlag)
    }

    /** The active interrupts after a write command: less what it acknowledges, the empty transmit queue
        announced if it had the transmitter look and nothing is pending, and `alarm`. */
    twostate predicate ActiveAfter(cmd: nat, payload: seq<byte>, ok: bool, alarm: set<Interrupt>)
      reads irq, rx.tx, beacon
    {
      var looked := (cmd == CMD_TRANSMIT_PACKET && payload != [])
                    || (cmd == CMD_BEACON_CONFIG && |payload| > 3 && (old(beacon.gPacket).Some? || !ok));
      irq.gActive == old(irq.gActive) - (if cmd == CMD_IRQ_STATUS && payload != [] then FromBits(payload[0]) else {})
                     + (if looked && rx.tx.gTxPacketsPending == 0 then {TxQueueEmpty} else {}) + alarm
    }

    /** The mask, the address and the transmitter after a write command. */
    twostate predicate Written(cmd: nat, payload: seq<byte>, env: Env, ok: bool)
      reads irq, rx, rx.tx
    {
      && irq.gMask == (if cmd == CMD_IRQ_CONFIG && payload != [] then FromBits(payload[0]) else old(irq.gMask))
      && rx.gAddress == (if cmd == CMD_RADIO_CONFIG && ok && |payload| >= RADIO_CONFIG_SIZE
                         then Half(payload[4], payload[5]) else old(rx.gAddress))
      && (cmd == CMD_TRANSMIT_PACKET && ok ==>
            && payload != [] && env.block.Some?
            && env.block.value in rx.tx.heap && rx.tx.heap[env.block.value].data == payload[1..])
      && (old(rx.tx.Moving()) ==>
            rx.tx.events == if cmd == CMD_TRANSMIT_PACKET && ok && payload != [] && env.block.Some?
                            then old(rx.tx.events) + [Accept(payload[0] % 4, env.block.value)] else old(rx.tx.events))
    }

    /** Whether a write command has what it needs. */
    ghost predicate WriteSucceeds(cmd: nat, payload: seq<byte>, env: Env)
      reads rx.tx, beacon, beacon.tx
    {
      if cmd == CMD_IRQ_STATUS || cmd == CMD_IRQ_CONFIG then payload != []
      else if cmd == CMD_TRANSMIT_PACKET then
        && payload != [] && |rx.tx.gTxQueues| == CLASSES && rx.tx.HasRoom(payload[0] % 4, |payload| - 1, env.block)
        && (rx.tx.gTxPacketsPending > 0 || env.radio.Starts?)
      else if cmd == CMD_RADIO_CONFIG then
        |payload| >= RADIO_CONFIG_SIZE && env.tuning == 0 && Half(payload[4], payload[5]) !in {0, 0xFFFF}
      else if cmd == CMD_BEACON_CONFIG then
        && |payload| >= BEACON_HEADER
        && (|payload| > BEACON_HEADER ==> env.block.Some? && beacon.Alive() && beacon.Fits(|payload| - BEACON_HEADER))
      else true
    }

    /** The beacon after a write command, and what that leaves of the pending counter. */
    twostate predicate BeaconAfter(cmd: nat, payload: seq<byte>, ok: bool)
      reads rx.tx, beacon
    {
      && (if cmd == CMD_BEACON_CONFIG && |payload| >= BEACON_HEADER && payload[0] % 2 == 1 then
            beacon.gEnabled == (payload[0] / 2 % 2 == 1) && beacon.gInterval == Half(payload[1], payload[2])
          else beacon.gEnabled == old(beacon.gEnabled) && beacon.gInterval == old(beacon.gInterval))
      && (if cmd == CMD_BEACON_CONFIG && |payload| > BEACON_HEADER then
            && (beacon.gPacket.Some? <==> ok)
            && (beacon.gPacket.Some? ==>
                  beacon.gPacket.value in rx.tx.heap && rx.tx.heap[beacon.gPacket.value].data == payload[BEACON_HEADER..])
            && (old(beacon.gPacket).Some? ==>
                  rx.tx.gTxPacketsPending == (old(rx.tx.gTxPacketsPending) + WRAP32 - 1) % WRAP32)
          else beacon.gPacket == old(beacon.gPacket))
    }

    /** A block malloc may return while a command is handled: unused, or just given back by the beacon. */
    predicate Mallocs(cmd: nat, block: Option<Ptr>)
      reads beacon`gPacket, rx.tx`heap
    {
      block.Some? ==> block.value !in rx.tx.heap || (cmd == CMD_BEACON_CONFIG && block == beacon.gPacket)
    }

    /** Run a command's write handler and note its result. */
    method DispatchCommand(cmd: nat, payload: seq<byte>, env: Env)
      requires Backed() && Mallocs(cmd, env.block)
      modifies this`gErrorFlag, this`owes, rx`gAddress, irq, rx.tx, beacon
      ensures if old(Breaks(cmd, payload)) then rx.tx.Broken() else Backed()
      ensures !rx.tx.panicked && (!old(Breaks(cmd, payload)) && old(rx.tx.Moving()) ==> rx.tx.Moving())
      ensures !SupportsWrite(cmd) ==> owes == old(owes)
      ensures Dispatched(cmd, payload, env)
    {
      hide Receiver.Valid, Handler.Valid, Handler.Wedged, FromBits, WriteSucceeds;
      Announced();
      if !SupportsWrite(cmd) {
        return;
      }
      var err := WriteHandler(cmd, payload, env);
      gErrorFlag := err != 0;
      if err != 0 {
        RaiseCommandError();
      }
    }

    method WriteHandler(cmd: nat, payload: seq<byte>, env: Env) returns (err: int)
      requires Backed() && Mallocs(cmd, env.block) && SupportsWrite(cmd)
      modifies this`owes, rx`gAddress, irq, rx.tx, beacon
      ensures if old(Breaks(cmd, payload)) then rx.tx.Broken() else Backed()
      ensures !rx.tx.panicked && (!old(Breaks(cmd, payload)) && old(rx.tx.Moving()) ==> rx.tx.Moving())
      ensures irq.Valid() && (err == 0 <==> old(WriteSucceeds(cmd, payload, env)))
      ensures ActiveAfter(cmd, payload, err == 0, {})
      ensures Written(cmd, payload, env, err == 0)
      ensures BeaconAfter(cmd, payload, err == 0)
    {
      hide Receiver.Valid, Handler.Valid, Handler.Wedged, FromBits;
      Announced();
      err := 0;
      if cmd == CMD_IRQ_STATUS {
        err := IrqStatusWrite(payload);
      } else if cmd == CMD_IRQ_CONFIG {
        err := IrqConfigWrite(payload);
      } else if cmd == CMD_TRANSMIT_PACKET {
        err := TransmitPacketWrite(payload, env.block, env.radio);
      } else if cmd == CMD_RADIO_CONFIG {
        err := RadioConfigWrite(payload, env.tuning);
      } else if cmd == CMD_BEACON_CONFIG {
        err := BeaconConfigWrite(payload, env.block);
      }
      if !old(Breaks(cmd, payload)) {
        Announced();
      }
    }

    method RaiseCommandError()
      requires irq.Valid()
      modifies irq
      ensures irq.Raised({CommandError}) && irq.gActive == old(irq.gActive) + {CommandError}
      ensures old(Backed()) ==> Backed()
    {
      hide Receiver.Valid;
      if Backed() {
        Announced();
      }
      irq.Assert({CommandError});
      if old(Backed()) {
        StillBacked();
      }
    }

    /** Answer a read command; nothing is re-armed when the handler cannot or does not deliver. */
    method DispatchCommandWithResponse(cmd: nat, requested: nat, env: Env) returns (h: Health)
      requires Backed() && armed == None && rx.checkedOut == None && 0 < requested < PAYLOAD_SIZE
      modifies this`gErrorFlag, this`owes, this`armed, rx, rx.tx, irq, gPayloadBuffer
      ensures Backed() && (old(rx.tx.Moving()) ==> rx.tx.Moving())
      ensures h == ReadOutcome(cmd, requested, old(rx.gRxQueue))
      ensures h != Running ==> armed == None
      ensures h == Running ==> Told(cmd, requested, env)
      ensures h == Running ==> rx.checkedOut == if cmd == CMD_READ_PACKET then Some(old(rx.gRxQueue)[0]) else None
      ensures h == Running && cmd == CMD_READ_PACKET ==> rx.gPbuf == rx.checkedOut
      ensures h == Running ==> Kept(cmd == CMD_READ_PACKET)
      ensures h == Running ==> ActiveAfterRead(cmd)
      ensures h != Running ==> irq.gActive == old(irq.gActive) + if SupportsRead(cmd) && h == Stalled then {CommandError} else {}
      ensures SupportsRead(cmd) && h != Undefined ==> (gErrorFlag <==> h == Stalled)
    {
      hide Receiver.Valid, Handler.Valid, Handler.Wedged, ToBits, FromBits, Carries, Reply;
      if !SupportsRead(cmd) {
        return Stalled;
      }
      if LooksAtFront(cmd) && rx.gRxQueue == [] {
        return Undefined;   // the front of an empty queue
      }
      var ret := ReadHandler(cmd, requested, env);
      Announced();
      gErrorFlag := ret < 0;
      if ret < 0 {
        RaiseCommandError();
        assert !WantsPostRead(cmd);   // the firmware would run the post-read routine with `success` false
        return Stalled;
      }
      assert ret < gPayloadBuffer.Length;   // the "invalid reply length" panic cannot happen
      armed := Some(Response(ret));
      return Running;
    }

    /** A response is on its way that carries what the command is to tell, cut to the request; the
        statistics alone are padded to it. */
    twostate predicate Told(cmd: nat, requested: nat, env: Env)
      reads this, gPayloadBuffer
    {
      && armed == Some(Response(if cmd == CMD_GET_COUNTERS then requested else Min(requested, |old(Reply(cmd, env))|)))
      && Carries(armed.value.size, old(Reply(cmd, env)))
    }

    /** The response is out, or will never be: the handler may clean up. */
    method DispatchCommandPostRead(cmd: nat, success: bool, env: Env)
      requires Backed() && (rx.checkedOut.Some? <==> WantsPostRead(cmd)) && Mallocs(0, env.block)
      requires rx.checkedOut.Some? ==> rx.gPbuf == rx.checkedOut
      modifies rx, rx.tx, irq
      ensures rx.tx.panicked <==> success && old(AckPanics(env))
      ensures !rx.tx.panicked ==>
                && Backed() && rx.checkedOut == None && rx.gRxQueue == old(rx.gRxQueue)
                && rx.rxHeap == old(rx.rxHeap) - (if old(rx.checkedOut).Some? then {old(rx.checkedOut).value} else {})
                && (old(rx.tx.Moving()) ==> rx.tx.Moving())
    {
      hide Receiver.Sound, Handler.Valid, Handler.Wedged;
      rx.TransmitterUp();
      if !WantsPostRead(cmd) {
        return;
      }
      rx.PostRead(success, env.block, env.radio);
      if !rx.tx.panicked {
        rx.TransmitterUp();
      }
    }

    /** Whether releasing the packet checked out queues an acknowledgement, which panics the firmware. */
    ghost predicate AckPanics(env: Env)
      reads rx, rx.tx
    {
      && rx.checkedOut.Some? && rx.checkedOut.value in rx.rxHeap && rx.rxHeap[rx.checkedOut.value].autoAck
      && |rx.tx.gTxQueues| == CLASSES && rx.tx.HasRoom(3, MAC_HEADER, env.block)
      && (rx.tx.gTxPacketsPending > 0 || env.radio.Starts?)
    }

    /** What a valid header leads to: an unknown command nothing but the next header, a write without
        payload its handler, a write with payload its reception, a read the response. */
    twostate predicate HeaderServed(env: Env)
      reads this, rx, irq, rx.tx, beacon, gPayloadBuffer
    {
      var cmd := command % 0x80;
      && Kept(TakesPacket(command, payloadLength))
      && if cmd > NUM_COMMANDS then armed == Some(Header) && irq.gActive == old(irq.gActive)
         else if payloadLength == 0 then armed == Some(Header) && Dispatched(cmd, [], env)
         else if command < 0x80 then armed == Some(Payload(payloadLength)) && irq.gActive == old(irq.gActive)
         else
           && Told(cmd, payloadLength, env) && ActiveAfterRead(cmd)
           && rx.checkedOut == (if cmd == CMD_READ_PACKET && old(rx.gRxQueue) != [] then Some(old(rx.gRxQueue)[0]) else None)
    }

    method ProcessCommand(env: Env) returns (h: Health)
      requires Backed() && armed == None && gCurrentHandler == None && rx.checkedOut == None && Mallocs(0, env.block)
      modifies this, rx, irq, gPayloadBuffer, rx.tx, beacon
      ensures h == Running ==> Valid() && HeaderServed(env)
      ensures h == HeaderOutcome(old(command), old(payloadLength), old(rx.gRxQueue))
      ensures h == Stalled ==> armed == None
      ensures !rx.tx.panicked && (old(rx.tx.Moving()) ==> rx.tx.Moving())
      ensures command == old(command) && payloadLength == old(payloadLength)
      ensures beacon.gPacket == old(beacon.gPacket)
    {
      hide Receiver.Valid, Handler.Valid, Handler.Wedged, Reply, Carries, FromBits, WriteSucceeds, SupportsWrite,
           Half, IrqManager.Valid, Handler.Stranded;
      Announced();
      var cmd: nat := command % 0x80;
      if cmd > NUM_COMMANDS {
        ReadCommand();
        return Running;
      }
      if cmd == NUM_COMMANDS {
        return Undefined;   // one past the end of the handler table
      }
      gCurrentHandler := Some(cmd);
      h := RunCommand(env);
    }

    /** The second half of `ProcessCommand`: the handler is known. */
    method RunCommand(env: Env) returns (h: Health)
      requires Backed() && armed == None && rx.checkedOut == None && Mallocs(0, env.block)
      requires command % 0x80 < NUM_COMMANDS && gCurrentHandler == Some(command % 0x80)
      modifies this, rx, irq, gPayloadBuffer, rx.tx, beacon
      ensures h == Running ==> Valid() && HeaderServed(env)
      ensures h == HeaderOutcome(old(command), old(payloadLength), old(rx.gRxQueue))
      ensures h == Stalled ==> armed == None
      ensures !rx.tx.panicked && (old(rx.tx.Moving()) ==> rx.tx.Moving())
      ensures command == old(command) && payloadLength == old(payloadLength)
      ensures beacon.gPacket == old(beacon.gPacket)
    {
      hide Receiver.Valid, Handler.Valid, Handler.Wedged, Reply, Carries, FromBits, Half, IrqManager.Valid, Handler.Moving;
      Announced();
      if payloadLength > 0 {
        if command >= 0x80 {
          h := DispatchCommandWithResponse(command % 0x80, payloadLength, env);
          Announced();
        } else {
          ReadPayload(payloadLength);
          gPayloadBytesReceived := 0;
          h := Running;
        }
      } else {
        DispatchCommand(command % 0x80, [], env);
        ReadCommand();
        h := Running;
      }
    }

    /** The transfer completes: payload and its length, which is zero for a failure, are noted. */
    method ReceivePayload(bytes: seq<byte>)
      requires |bytes| <= gPayloadBuffer.Length
      modifies this`gPayloadBytesReceived, gPayloadBuffer
      ensures gPayloadBytesReceived == |bytes| && gPayloadBuffer[..|bytes|] == bytes
    {
      gPayloadBytesReceived := |bytes|;
      forall i | 0 <= i < |bytes| {
        gPayloadBuffer[i] := bytes[i];
      }
    }

    /** The payload of a write is in, or failed to arrive, which ends the loop. */
    method ProcessPayload(bytes: seq<byte>, env: Env) returns (h: Health)
      requires Valid() && Answers(armed.value, PayloadDone(bytes)) && Mallocs(command, env.block)
      modifies this, rx`gAddress, irq, gPayloadBuffer, rx.tx, beacon
      ensures h == if bytes == [] then Stopped else if old(Breaks(command, bytes)) then LedgerBroken else Running
      ensures h == Running ==> Valid()
      ensures h == LedgerBroken ==> rx.tx.Broken()
      ensures h in {Running, LedgerBroken} ==> armed == Some(Header) && Dispatched(command, bytes, env)
      ensures !rx.tx.panicked && command == old(command)
      ensures h == Running && old(rx.tx.Moving()) ==> rx.tx.Moving()
    {
      hide Receiver.Valid, Handler.Valid, Handler.Wedged, FromBits, Handler.Broken, Handler.Moving, Half, WriteSucceeds,
           IrqManager.Valid, Handler.InQueues;
      Announced();
      armed := None;
      ReceivePayload(bytes);
      if gPayloadBytesReceived == 0 {
        return Stopped;
      }
      h := RunPayload(bytes, env);
    }

    /** The second half of `ProcessPayload`, with the payload in the buffer. */
    method RunPayload(ghost bytes: seq<byte>, env: Env) returns (h: Health)
      requires Backed() && armed == None && rx.checkedOut == None && Mallocs(command, env.block)
      requires gPayloadBytesReceived <= gPayloadBuffer.Length && gPayloadBuffer[..gPayloadBytesReceived] == bytes
      modifies this, rx`gAddress, irq, rx.tx, beacon
      ensures h == if old(Breaks(command, bytes)) then LedgerBroken else Running
      ensures h == Running ==> Backed() && (old(rx.tx.Moving()) ==> rx.tx.Moving())
      ensures h == LedgerBroken ==> rx.tx.Broken()
      ensures armed == Some(Header) && gCurrentHandler == None && Dispatched(command, bytes, env)
      ensures !rx.tx.panicked && command == old(command)
    {
      hide Receiver.Valid, Handler.Valid, Handler.Wedged, FromBits, Handler.Broken, Handler.Moving, Half, WriteSucceeds,
           IrqManager.Valid, Handler.InQueues;
      h := if Breaks(command, gPayloadBuffer[..gPayloadBytesReceived]) then LedgerBroken else Running;
      DispatchCommand(command, gPayloadBuffer[..gPayloadBytesReceived], env);
      ReadCommand();
    }

    /** What a completed transfer leads to, as long as the loop goes on. */
    twostate predicate Served(c: Completion, env: Env)
      reads this, rx, irq, rx.tx, beacon, gPayloadBuffer
    {
      match c
      case HeaderDone(ok, cmd, length) =>
        && command == cmd && payloadLength == length && beacon.gPacket == old(beacon.gPacket)
        && if ok then HeaderServed(env) else armed == Some(Header) && Kept(false)
      case PayloadDone(bytes) =>
        command == old(command) && armed == Some(Header) && Dispatched(command, bytes, env) && Kept(false)
      case ResponseDone =>
        && armed == Some(Header) && rx.gRxQueue == old(rx.gRxQueue) && beacon.gPacket == old(beacon.gPacket)
        && Kept(false)
        && rx.rxHeap == old(rx.rxHeap) - (if old(rx.checkedOut).Some? then {old(rx.checkedOut).value} else {})
    }

    /** One turn of the main loop: an armed transfer has completed.  The loop goes on exactly in the
        cases `Outcome` calls running, and whenever it goes on, exactly one transfer is armed again. */
    method Handle(c: Completion, env: Env) returns (h: Health)
      requires Valid() && Answers(armed.value, c) && Mallocs(if c.PayloadDone? then command else 0, env.block)
      modifies this, rx, irq, gPayloadBuffer, rx.tx, beacon
      ensures h == Outcome(c, old(rx.gRxQueue), old(Breaks(command, PayloadOf(c))), old(AckPanics(env)))
      ensures rx.tx.panicked <==> h == Panicked
      ensures h == Running ==> Valid() && (old(rx.tx.Moving()) ==> rx.tx.Moving())
      ensures h == Stalled ==> armed == None
      ensures h == LedgerBroken ==> rx.tx.Broken() && Dispatched(command, PayloadOf(c), env)
      ensures h == Running ==> Served(c, env)
    {
      hide Backed, HeaderServed, Dispatched, Breaks, AckPanics, Mallocs;
      match c
      case HeaderDone(ok, cmd, length) => h := HeaderReceived(ok, cmd, length, env);
      case PayloadDone(bytes) => h := ProcessPayload(bytes, env);
      case ResponseDone => h := ResponseSent(env);
    }

    /** A header is in, or failed to arrive. */
    method HeaderReceived(ok: bool, cmd: byte, length: byte, env: Env) returns (h: Health)
      requires Valid() && armed == Some(Header) && Mallocs(0, env.block)
      modifies this, rx, irq, gPayloadBuffer, rx.tx, beacon
      ensures h == if ok then HeaderOutcome(cmd, length, old(rx.gRxQueue)) else Running
      ensures h == Running ==> Valid() && if ok then HeaderServed(env) else armed == Some(Header) && Kept(false)
      ensures h == Stalled ==> armed == None
      ensures !rx.tx.panicked && (old(rx.tx.Moving()) ==> rx.tx.Moving())
      ensures command == cmd && payloadLength == length && beacon.gPacket == old(beacon.gPacket)
    {
      hide Receiver.Valid, Handler.Valid, Handler.Wedged, FromBits, Reply, Carries, WriteSucceeds,
           IrqManager.Valid, Handler.Moving;
      Announced();
      armed := None;
      gCommandBufferValid, command, payloadLength := ok, cmd, length;
      if gCommandBufferValid {
        h := ProcessCommand(env);
      } else {
        ReadCommand();
        h := Running;
      }
    }

    /** The response has been read by the host. */
    method ResponseSent(env: Env) returns (h: Health)
      requires Valid() && armed.value.Response? && Mallocs(0, env.block)
      modifies this, rx, irq, gPayloadBuffer, rx.tx
      ensures h == (if old(AckPanics(env)) then Panicked else Running) && (rx.tx.panicked <==> h == Panicked)
      ensures h == Running ==>
                && Valid() && armed == Some(Header) && rx.gRxQueue == old(rx.gRxQueue) && (old(rx.tx.Moving()) ==> rx.tx.Moving())
                && rx.rxHeap == old(rx.rxHeap) - (if old(rx.checkedOut).Some? then {old(rx.checkedOut).value} else {})
    {
      hide Receiver.Valid, Handler.Valid, Handler.Wedged;
      armed := None;
      DispatchCommandPostRead(command % 0x80, true, env);
      if rx.tx.panicked {
        return Panicked;
      }
      ReadCommand();
      h := Running;
    }

    /** No lost wakeup: with packets waiting, the interrupt is active exactly unless the host has
        acknowledged it and since then no frame has come in and nothing has been read out; active and
        unmasked, it asserts the line. */
    lemma NoLostWakeup()
      requires Valid() && rx.gRxQueue != []
      ensures PacketReceived in irq.gActive <==> !owes
      ensures PacketReceived in irq.gMask && !owes ==> irq.lineAsserted
    {
      hide Receiver.Valid, Handler.Valid, Handler.Wedged;
      Announced();
      if PacketReceived in irq.gMask && !owes {
        assert PacketReceived in irq.gMaskedActive;
      }
    }

    /** Whether a radio report makes the firmware ask for a start that the radio refuses. */
    ghost predicate ReportPanics(report: Report)
      reads rx.tx`gLastTx, rx.tx`heap, rx.tx`gTxPacketsPending
    {
      && rx.tx.gLastTx.Some? && !report.radio.Starts?
      && (rx.tx.gTxPacketsPending > 1 || (!report.sent && rx.tx.RetriesLeft()))
    }

    /** A radio report while a packet is on the air; the host side and the beacon's packet do not notice. */
    method OnTxReport(report: Report)
      requires Valid()
      modifies rx.tx, irq
      ensures rx.tx.panicked <==> old(ReportPanics(report))
      ensures if old(rx.tx.gLastTx).Some? then rx.tx.EmptyTold() else irq.gActive == old(irq.gActive)
      ensures if old(rx.tx.gLastTx).None? then rx.tx.events == old(rx.tx.events)
              else !rx.tx.panicked ==> rx.tx.events == old(rx.tx.events) + [if report.sent then Sent else Busy]
      ensures !rx.tx.panicked ==> Valid() && (old(rx.tx.Moving()) ==> rx.tx.Moving())
    {
      hide Receiver.Sound, Handler.Valid, Handler.Wedged;
      Announced();
      if rx.tx.gLastTx.Some? {
        rx.OnAirIsSound();
        rx.tx.OnReport(report);
        if !rx.tx.panicked {
          rx.tx.Counting();
          rx.TransmitterChanged();
        }
      }
    }

    /** The beacon timer fires.  Without a payload the firmware panics; with one, the ledger stays right
        if the radio starts. */
    method OnBeaconTimer(radio: Radio)
      requires Valid()
      modifies rx.tx, irq
      ensures rx.tx.panicked <==> beacon.gEnabled && beacon.gPacket.None?
      ensures if beacon.gEnabled && beacon.gPacket.Some? then rx.tx.EmptyTold() else irq.gActive == old(irq.gActive)
      ensures !rx.tx.panicked ==>
                rx.tx.submitted == old(rx.tx.submitted) + if beacon.gEnabled && |old(rx.tx.gTxQueues)[3]| < 16 then 1 else 0
      ensures !rx.tx.panicked ==> Valid()
      ensures !rx.tx.panicked && old(rx.tx.Moving()) && radio.Starts? ==> rx.tx.Moving()
    {
      hide Receiver.Sound, Handler.Valid, Handler.Wedged;
      Announced();
      rx.tx.Counting();
      if beacon.gEnabled {
        beacon.EmitBeacon(radio);
        if beacon.gPacket.Some? {
          rx.tx.Counting();
          rx.TransmitterChanged();
        }
      }
    }

    /** A frame arrives, and whether it can be taken in or not, waiting packets are announced again. */
    method OnRxFrame(frame: seq<byte>, rssi: byte, lqi: byte, block: Option<Ptr>)
      requires Valid() && (block.Some? ==> block.value !in rx.rxHeap)
      modifies rx, irq, this`owes
      ensures Valid() && !owes
      ensures rx.gRxQueue != [] && PacketReceived in irq.gMask ==> irq.lineAsserted
      ensures Arrived(frame) && rx.WaitingTold()
      ensures rx.accepted == old(rx.accepted) + if old(rx.HasRoom(|frame|, block)) then [frame] else []
      ensures rx.Handled() == old(rx.Handled()) + 1 && rx.gRxFrames == Bumped(old(rx.gRxFrames), true)
    {
      hide Receiver.Sound, Handler.Valid, Handler.Wedged;
      rx.OnPacketReceived(frame, rssi, lqi, block);
      owes := false;
      rx.TransmitterUp();
      if rx.gRxQueue != [] {
        NoLostWakeup();
      }
    }

    /** At most one buffer is new, and it is to be acknowledged only if the frame asks for it. */
    twostate predicate Arrived(frame: seq<byte>)
      reads rx
    {
      && |rx.gRxQueue| >= |old(rx.gRxQueue)|
      && forall p <- rx.rxHeap ::
           (p in old(rx.rxHeap) && rx.rxHeap[p] == old(rx.rxHeap)[p]) || (rx.rxHeap[p].autoAck ==> AsksForAck(frame))
    }

    /** No packet waiting or being read asks for an acknowledgement. */
    ghost predicate NoAcks()
      reads rx`rxHeap
    {
      forall p <- rx.rxHeap :: !rx.rxHeap[p].autoAck
    }

    /** Nothing is new among the received packets, and the queue is one shorter if one was taken. */
    twostate predicate Kept(takes: bool)
      reads rx
    {
      && (if takes then old(rx.gRxQueue) != [] && rx.gRxQueue == old(rx.gRxQueue)[1..] else rx.gRxQueue == old(rx.gRxQueue))
      && forall p <- rx.rxHeap :: p in old(rx.rxHeap) && rx.rxHeap[p] == old(rx.rxHeap)[p]
    }

    method OnRxFault(overflow: bool)
      requires Valid()
      modifies rx`gRxFrameErrors, rx`gRxFifoOverflows
      ensures Valid()
      ensures rx.gRxFifoOverflows == Bumped(old(rx.gRxFifoOverflows), overflow)
      ensures rx.gRxFrameErrors == Bumped(old(rx.gRxFrameErrors), !overflow)
    {
      hide Receiver.Sound, Handler.Valid, Handler.Wedged;
      rx.OnRxFault(overflow);
    }

    /** One when a beacon payload is installed, and one more when another may be on its way. */
    function Beacons(): nat
      reads this`armed, this`command, beacon`gPacket
    {
      (if beacon.gPacket.Some? then 1 else 0)
      + (if armed.Some? && armed.value.Payload? && armed.value.size > BEACON_HEADER && command == CMD_BEACON_CONFIG then 1 else 0)
    }

    /** The environment of a transfer, with a block malloc cannot return taken as none. */
    function Usable(c: Completion, env: Env): Env
      reads this`command, beacon`gPacket, rx.tx`heap
    {
      if Mallocs(if c.PayloadDone? then command else 0, env.block) then env else env.(block := None)
    }

    /** How the interface fares with what happens next. */
    ghost function Verdict(s: Stimulus): Health
      reads this, rx, rx.tx, beacon
    {
      match s
      case Bus(c, env) =>
        if armed.Some? && Answers(armed.value, c) then
          Outcome(c, rx.gRxQueue, Breaks(command, PayloadOf(c)), AckPanics(Usable(c, env)))
        else Running
      case RxFrame(_, _, _, _) => Running
      case RxFault(_) => Running
      case TxReport(report) => if ReportPanics(report) then Panicked else Running
      case BeaconTimer(_) => if beacon.gEnabled && beacon.gPacket.None? then Panicked else Running
    }

    /** One thing happens.  Before each the interface waits, afterwards it does again, exactly if the verdict
        is that it is still running. */
    method Turn(s: Stimulus) returns (h: Health)
      requires Valid()
      modifies this, rx, irq, gPayloadBuffer, rx.tx, beacon
      ensures h == old(Verdict(s))
      ensures h == Running ==> Valid()
      ensures h == Running && old(rx.tx.Moving()) && (s.BeaconTimer? ==> s.radio.Starts?) ==> rx.tx.Moving()
      ensures h == Running ==> Beacons() <= old(Beacons()) + (if BeaconHeader(s) then 1 else 0)
      ensures h == Running && old(Beacons()) <= 1 && old(beacon.gPacket).Some? ==> beacon.gPacket.Some?
      ensures h == Running ==> |rx.gRxQueue| + (if LooksForPacket(s) then 1 else 0) >= |old(rx.gRxQueue)|
      ensures h == Running && old(NoAcks()) && (s.RxFrame? ==> !AsksForAck(s.frame)) ==> NoAcks()
      ensures h == LedgerBroken ==> old(Beacons()) > 1 && rx.tx.Broken()
    {
      hide Backed, AckPanics, Mallocs, ReportPanics, Breaks, Outcome;
      h := Running;
      match s
      case Bus(c, env) =>
        if Answers(armed.value, c) {
          h := OnTransfer(c, env);
        }
      case RxFrame(frame, rssi, lqi, block) =>
        OnRxFrame(frame, rssi, lqi, if block.Some? && block.value in rx.rxHeap then None else block);
      case RxFault(overflow) =>
        OnRxFault(overflow);
      case TxReport(report) =>
        OnTxReport(report);
        if rx.tx.panicked {
          h := Panicked;
        }
      case BeaconTimer(radio) =>
        OnBeaconTimer(radio);
        if rx.tx.panicked {
          h := Panicked;
        }
    }

    /** `Handle`, in an environment that is possible. */
    method OnTransfer(c: Completion, env: Env) returns (h: Health)
      requires Valid() && Answers(armed.value, c)
      modifies this, rx, irq, gPayloadBuffer, rx.tx, beacon
      ensures h == old(Outcome(c, rx.gRxQueue, Breaks(command, PayloadOf(c)), AckPanics(Usable(c, env))))
      ensures h == Running ==> Valid() && (old(rx.tx.Moving()) ==> rx.tx.Moving())
      ensures h == Running ==> Beacons() <= old(Beacons()) + (if BeaconHeader(Bus(c, env)) then 1 else 0)
      ensures h == Running && old(Beacons()) <= 1 && old(beacon.gPacket).Some? ==> beacon.gPacket.Some?
      ensures h == Running ==> Kept(LooksForPacket(Bus(c, env)) && c.command == 0x80 + CMD_READ_PACKET)
      ensures h == LedgerBroken ==> old(Beacons()) > 1 && rx.tx.Broken()
    {
      hide Backed, AckPanics, WriteSucceeds, Reply, Carries, Written, Kept;
      h := Handle(c, Usable(c, env));
    }

    /** Nothing happens that stops the interface: commands are known ones in a direction they support,
        payloads arrive, no frame asks for an acknowledgement, packets are looked for at most as often as
        they are waiting now, the radio starts, and at most one beacon payload is sent, before no beacon. */
    ghost predicate Calm(stimuli: seq<Stimulus>)
      reads this`armed, this`command, beacon`gPacket, rx`rxHeap, rx`gRxQueue
    {
      && NoAcks() && Beacons() + BeaconHeaders(stimuli) <= 1 && PacketLooks(stimuli) <= |rx.gRxQueue|
      && (forall s <- stimuli :: Harmless(s))
      && (beacon.gPacket.Some? || forall s <- stimuli :: !s.BeaconTimer?)
    }

    lemma CalmGoesOn(stimuli: seq<Stimulus>)
      requires Valid() && Calm(stimuli) && stimuli != []
      ensures Verdict(stimuli[0]) == Running
    {
      hide Backed;
      var s := stimuli[0];
      assert Harmless(s);
      if s.Bus? && s.c.ResponseDone? {
        assert !AckPanics(Usable(s.c, s.env));
      }
    }

    /** Any interleaving of bus transfers, received frames, radio reports and beacons, as long as the loop
        keeps going: at every wait one transfer is armed, buffers are owned once, packets stay announced
        and the transmitter is sound or wedged.  If the radio never refuses a beacon it is sound.  The
        ledger is not broken if beacon payloads are sent at most once; and if what happens is calm the
        loop does keep going. */
    method Drive(stimuli: seq<Stimulus>) returns (h: Health)
      requires Valid()
      modifies this, rx, irq, gPayloadBuffer, rx.tx, beacon
      ensures h == Running ==> Valid()
      ensures h == Running && old(rx.tx.Moving()) && (forall s <- stimuli :: s.BeaconTimer? ==> s.radio.Starts?) ==> rx.tx.Valid()
      ensures h == Running && rx.gRxQueue != [] ==>
                && (PacketReceived in irq.gActive <==> !owes)
                && (PacketReceived in irq.gMask && !owes ==> irq.lineAsserted)
      ensures old(Beacons()) + BeaconHeaders(stimuli) <= 1 ==> h != LedgerBroken
      ensures old(Calm(stimuli)) ==> h == Running
    {
      hide Backed, Beacons, Handler.Moving, NoAcks, Harmless, Verdict;
      h := Running;
      for i := 0 to |stimuli|
        invariant Valid() && h == Running
        invariant old(rx.tx.Moving()) && (forall s <- stimuli[..i] :: s.BeaconTimer? ==> s.radio.Starts?) ==> rx.tx.Moving()
        invariant Beacons() + BeaconHeaders(stimuli[i..]) <= old(Beacons()) + BeaconHeaders(stimuli)
        invariant old(Calm(stimuli)) ==> Calm(stimuli[i..])
      {
        assert stimuli[i..][0] == stimuli[i] && stimuli[i..][1..] == stimuli[i + 1..];
        assert stimuli[..i + 1] == stimuli[..i] + [stimuli[i]];
        if old(Calm(stimuli)) {
          CalmGoesOn(stimuli[i..]);
          assert Harmless(stimuli[i..][0]);
        }
        HarmlessFrame(stimuli[i]);
        h := Turn(stimuli[i]);
        if h != Running {
          return;
        }
      }
      assert stimuli[..|stimuli|] == stimuli;
      Announced();
      if rx.gRxQueue != [] {
        NoLostWakeup();
      }
    }
  }

  /** A full header with the request flag. */
  predicate AsksForAck(frame: seq<byte>) {
    |frame| >= MAC_HEADER && And(frame[0], ACK_REQUEST) != 0
  }

  /** A header that reads out a packet. */
  predicate TakesPacket(command: byte, length: byte) {
    command == 0x80 + CMD_READ_PACKET && length > 0
  }

  /** A header that looks at the oldest packet. */
  predicate LooksForPacket(s: Stimulus) {
    && s.Bus? && s.c.HeaderDone? && s.c.ok && s.c.length > 0
    && s.c.command in {0x80 + CMD_READ_PACKET, 0x80 + CMD_QUEUE_STATUS}
  }

  function PacketLooks(stimuli: seq<Stimulus>): nat {
    if stimuli == [] then 0 else (if LooksForPacket(stimuli[0]) then 1 else 0) + PacketLooks(stimuli[1..])
  }

  /** Nothing that could stop the interface by itself. */
  predicate Harmless(s: Stimulus) {
    match s
    case Bus(HeaderDone(ok, command, length), _) =>
      ok ==>
        && command % 0x80 != NUM_COMMANDS
        && (command >= 0x80 && length > 0 && command % 0x80 < NUM_COMMANDS ==>
              SupportsRead(command % 0x80) && (command % 0x80 == CMD_GET_COUNTERS ==> length >= COUNTERS_SIZE))
    case Bus(PayloadDone(bytes), _) => bytes != []
    case Bus(ResponseDone, _) => true
    case RxFrame(frame, _, _, _) => !AsksForAck(frame)
    case RxFault(_) => true
    case TxReport(report) => report.radio.Starts?
    case BeaconTimer(_) => true
  }

  lemma HarmlessFrame(s: Stimulus)
    ensures Harmless(s) && s.RxFrame? ==> !AsksForAck(s.frame)
  {
  }

  /** A header that announces a beacon payload. */
  predicate BeaconHeader(s: Stimulus) {
    s.Bus? && s.c.HeaderDone? && s.c.ok && s.c.command == CMD_BEACON_CONFIG && s.c.length > BEACON_HEADER
  }

  function BeaconHeaders(stimuli: seq<Stimulus>): nat {
    if stimuli == [] then 0 else (if BeaconHeader(stimuli[0]) then 1 else 0) + BeaconHeaders(stimuli[1..])
  }

  /** How the interface fares with a read command. */
  function ReadOutcome(cmd: nat, requested: nat, queue: seq<Ptr>): Health {
    if !SupportsRead(cmd) then Stalled
    else if cmd in {CMD_QUEUE_STATUS, CMD_READ_PACKET} && queue == [] then Undefined
    else if cmd == CMD_GET_COUNTERS && requested < COUNTERS_SIZE then Stalled
    else Running
  }

  function HeaderOutcome(command: byte, length: byte, queue: seq<Ptr>): (h: Health)
    ensures h in {Running, Stalled, Undefined}
    ensures h == Stalled <==> length > 0 && (command in {0x80, 0x82, 0x87, 0x88} || (command == 0x89 && length < 68))
    ensures h == Undefined <==> command in {0x0B, 0x8B} || (command in {0x85, 0x86} && length > 0 && queue == [])
  {
    if command % 0x80 == NUM_COMMANDS then Undefined
    else if command % 0x80 > NUM_COMMANDS || length == 0 || command < 0x80 then Running
    else ReadOutcome(command % 0x80, length, queue)
  }

  /** Whether the interface keeps going after a transfer; see `Interface.Handle`. */
  function Outcome(c: Completion, queue: seq<Ptr>, breaks: bool, ackPanics: bool): Health {
    match c
    case HeaderDone(ok, command, length) => if ok then HeaderOutcome(command, length, queue) else Running
    case PayloadDone(bytes) => if bytes == [] then Stopped else if breaks then LedgerBroken else Running
    case ResponseDone => if ackPanics then Panicked else Running
  }
}
