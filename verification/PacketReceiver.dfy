/** The receive half of the packet handler and of the radio loop, and the host's packet read-out:
    bounded buffering, arrival order, statistics, automatic acknowledgement, buffer ownership. */
module PacketReceiver {
  import opened Common
  import opened Bits
  import opened MapSum
  import opened TxScheduler
  import opened Irq
  import opened PacketTransmitter

  const RX_HEADER := 6
  const MAX_RX_BYTES := 8 * 1024
  const MAX_RX_QUEUE := 255
  const MAC_HEADER := 6
  const ACK_REQUEST := 4
  const ACK_RESPONSE: byte := 8

  datatype RxPacketBuffer = RxPacketBuffer(packetSize: nat, rssi: byte, lqi: byte, autoAck: bool, data: seq<byte>)

  datatype RxRadioCounters = RxRadioCounters(fifoOverflows: nat, frameErrors: nat, goodFrames: nat)

  /** The first n bytes of an output buffer are now a packet with its signal report, as far as they were
      asked for, and the others are as before. */
  ghost predicate HandedOut(b: RxPacketBuffer, requested: nat, n: nat, before: seq<byte>, after: seq<byte>) {
    && n == Min(requested, 2 + |b.data|) <= |after| == |before|
    && after[..n] == ([b.rssi, b.lqi] + b.data)[..n]
    && after[n..] == before[n..]
  }

  /** Why a frame is not taken in. */
  datatype Cause = QueueFull | PoolFull | NoMemory

  function RxSizes(heap: map<Ptr, RxPacketBuffer>): map<Ptr, nat> {
    map p | p in heap :: RX_HEADER + heap[p].packetSize
  }

  function Source(frame: seq<byte>): nat
    requires |frame| >= MAC_HEADER
  {
    frame[2] as nat + frame[3] as nat * 0x100
  }

  function Destination(frame: seq<byte>): nat
    requires |frame| >= MAC_HEADER
  {
    frame[4] as nat + frame[5] as nat * 0x100
  }

  /** The acknowledgement of a frame: response flag, same tag, addresses exchanged. */
  function AckFor(frame: seq<byte>): (ack: seq<byte>)
    requires |frame| >= MAC_HEADER
    ensures |ack| == 6 && ack[0] == 8 && ack[1] == frame[1] && ack[2..4] == frame[4..6] && ack[4..6] == frame[2..4]
    ensures Source(ack) == Destination(frame) && Destination(ack) == Source(frame)
    ensures And(ack[0], ACK_REQUEST) == 0
  {
    AckAsksForNothing();
    [ACK_RESPONSE, frame[1], frame[4], frame[5], frame[2], frame[3]]
  }

  /** An acknowledgement never requests one, so two nodes cannot acknowledge each other forever. */
  lemma AckAsksForNothing()
    ensures And(ACK_RESPONSE, ACK_REQUEST) == 0
  {
    assert And(8, 4) == 2 * And(4, 2) == 4 * And(2, 1) == 8 * And(1, 0) == 0;
  }

  lemma BitTwo(x: nat)
    ensures And(x, 4) != 0 <==> x / 4 % 2 == 1
  {
    hide And;
    AndEven(x, 2);
    AndEven(x / 2, 1);
    MaskIsMod(x / 4, 1);
    assert Pow2(1) == 2;
  }

  /** The payloads of the buffers in a queue, oldest first. */
  function Frames(queue: seq<Ptr>, heap: map<Ptr, RxPacketBuffer>): (fs: seq<seq<byte>>)
    requires forall p <- queue :: p in heap
    ensures |fs| == |queue|
  {
    seq(|queue|, i requires 0 <= i < |queue| => heap[queue[i]].data)
  }

  /** The buffers alive are exactly those queued, each once, and the one checked out to the host. */
  ghost predicate Owned(queue: seq<Ptr>, heap: map<Ptr, RxPacketBuffer>, checkedOut: Option<Ptr>) {
    && (forall i, j :: 0 <= i < j < |queue| ==> queue[i] != queue[j])
    && (forall p <- queue :: p in heap && checkedOut != Some(p))
    && (checkedOut.Some? ==> checkedOut.value in heap)
    && (forall p <- heap :: p in queue || checkedOut == Some(p))
  }

  /** Sizes are those of the payloads, and only frames with a full header are to be acknowledged. */
  ghost predicate WellFormed(heap: map<Ptr, RxPacketBuffer>) {
    forall p <- heap :: heap[p].packetSize == |heap[p].data| && (heap[p].autoAck ==> |heap[p].data| >= MAC_HEADER)
  }

  /** A 32-bit counter that is cleared when it is reported: what was told so far plus what it shows now
      is the true number, modulo 2^32. */
  ghost predicate Agrees(told: nat, counter: nat, truth: nat) {
    Same(told + counter, truth)
  }

  lemma AgreesAfterOne(told: nat, counter: nat, truth: nat)
    requires Agrees(told, counter, truth)
    ensures Agrees(told, (counter + 1) % WRAP32, truth + 1)
  {
    hide Same;
    BumpedIsSame(counter, true);
    SameSelf(told);
    SameSelf(1);
    SameSum(told, Bumped(counter, true), told, counter + 1);
    SameSum(told + counter, 1, truth, 1);
    SameStep(told + Bumped(counter, true), told + counter + 1, 0, truth + 1);
  }

  lemma AgreesAfterReport(told: nat, counter: nat, truth: nat)
    requires Agrees(told, counter, truth)
    ensures Agrees(told + counter, 0, truth)
  {
  }

  lemma Appended(queue: seq<Ptr>, heap: map<Ptr, RxPacketBuffer>, checkedOut: Option<Ptr>, p: Ptr, b: RxPacketBuffer)
    requires Owned(queue, heap, checkedOut) && p !in heap
    requires forall q <- queue :: q in heap
    requires WellFormed(heap) && b.packetSize == |b.data| && (b.autoAck ==> |b.data| >= MAC_HEADER)
    ensures WellFormed(heap[p := b])
    ensures Owned(queue + [p], heap[p := b], checkedOut)
    ensures forall q <- queue + [p] :: q in heap[p := b]
    ensures Frames(queue + [p], heap[p := b]) == Frames(queue, heap) + [b.data]
    ensures Sum(RxSizes(heap[p := b])) == Sum(RxSizes(heap)) + RX_HEADER + b.packetSize
  {
    hide Sum;
    SumPut(RxSizes(heap), p, RX_HEADER + b.packetSize);
    assert RxSizes(heap[p := b]) == RxSizes(heap)[p := RX_HEADER + b.packetSize];
    forall i | 0 <= i <= |queue|
      ensures Frames(queue + [p], heap[p := b])[i] == (Frames(queue, heap) + [b.data])[i]
    {
      if i < |queue| {
        assert queue[i] in queue;
      }
    }
  }

  /** Popping the front checks it out. */
  lemma Taken(queue: seq<Ptr>, heap: map<Ptr, RxPacketBuffer>, checkedOut: Option<Ptr>)
    requires Owned(queue, heap, checkedOut) && checkedOut == None && queue != []
    requires forall q <- queue :: q in heap
    ensures forall q <- queue[1..] :: q in heap
    ensures Owned(queue[1..], heap, Some(queue[0]))
    ensures Frames(queue, heap) == [heap[queue[0]].data] + Frames(queue[1..], heap)
  {
    assert queue == [queue[0]] + queue[1..];
  }

  /** Freeing the checked-out buffer leaves the queue's. */
  lemma Released(queue: seq<Ptr>, heap: map<Ptr, RxPacketBuffer>, p: Ptr)
    requires Owned(queue, heap, Some(p)) && WellFormed(heap) && p in heap
    requires forall q <- queue :: q in heap
    ensures forall q <- queue :: q in heap - {p}
    ensures Owned(queue, heap - {p}, None) && WellFormed(heap - {p})
    ensures Frames(queue, heap - {p}) == Frames(queue, heap)
    ensures Sum(RxSizes(heap)) == Sum(RxSizes(heap - {p})) + RX_HEADER + heap[p].packetSize
  {
    hide Sum;
    SumRemove(RxSizes(heap), p);
    assert RxSizes(heap - {p}) == RxSizes(heap) - {p};
  }

  lemma SumAgrees(a: nat, a': nat, b: nat, b': nat, c: nat, c': nat, d: nat)
    requires Same(a, a') && Same(b, b') && Same(c, c')
    ensures Same(d + a + b + c, d + a' + b' + c')
  {
    hide Same;
    SameSelf(d);
    SameSum(d, a, d, a');
    SameSum(d + a, b, d + a', b');
    SameSum(d + a + b, c, d + a' + b', c');
  }

  class Receiver {
    const tx: Handler
    const irq: IrqManager

    // Packet::Handler
    var gRxQueue: seq<Ptr>
    var gRxAllocBytes: nat
    var gRxOverflowFlag: bool
    var gRxQueueDiscarded: nat
    var gRxBufferDiscarded: nat
    var gRxBufferAllocFailed: nat

    // Radio::Task
    var gRxFrames: nat
    var gRxFrameErrors: nat
    var gRxFifoOverflows: nat
    var gAddress: nat

    // Handlers::ReadPacket
    var gPbuf: Option<Ptr>

    // the C heap, as far as receive buffers are concerned
    var rxHeap: map<Ptr, RxPacketBuffer>

    // histories: frames taken in and frames handed to the host; frames lost, by cause; totals the host
    // has been told; the buffer the host currently holds
    ghost var accepted: seq<seq<byte>>
    ghost var popped: seq<seq<byte>>
    ghost var lostQueue: nat
    ghost var lostBuffer: nat
    ghost var lostAlloc: nat
    ghost var toldGood: nat
    ghost var toldQueue: nat
    ghost var toldBuffer: nat
    ghost var toldAlloc: nat
    ghost var checkedOut: Option<Ptr>

    ghost predicate BytesBalance()
      reads this`gRxAllocBytes, this`rxHeap
    {
      gRxAllocBytes == Sum(RxSizes(rxHeap)) <= MAX_RX_BYTES && WellFormed(rxHeap)
    }

    /** What was taken in is what was handed out followed by what is queued. */
    ghost predicate InOrder()
      reads this`gRxQueue, this`rxHeap, this`checkedOut, this`accepted, this`popped
    {
      && Owned(gRxQueue, rxHeap, checkedOut) && |gRxQueue| <= MAX_RX_QUEUE && (forall p <- gRxQueue :: p in rxHeap)
      && accepted == popped + Frames(gRxQueue, rxHeap)
    }

    /** Frames handled so far, taken in or lost. */
    ghost function Handled(): nat
      reads this`accepted, this`lostQueue, this`lostBuffer, this`lostAlloc
    {
      |accepted| + lostQueue + lostBuffer + lostAlloc
    }

    /** Every counter agrees with the truth, `unseen` frames being handled but not yet counted as good. */
    ghost predicate Counted(unseen: nat)
      reads this
    {
      && unseen <= Handled() && Agrees(toldGood, gRxFrames, Handled() - unseen)
      && Agrees(toldQueue, gRxQueueDiscarded, lostQueue)
      && Agrees(toldBuffer, gRxBufferDiscarded, lostBuffer)
      && Agrees(toldAlloc, gRxBufferAllocFailed, lostAlloc)
    }

    /** With packets waiting, the interrupt is active unless the host has acknowledged it since the last
        receive attempt or read-out. */
    ghost predicate Announced()
      reads this`gRxQueue, irq
    {
      gRxQueue != [] ==> (PacketReceived in irq.gActive <==> !irq.rxAcked)
    }

    /** PacketReceived is raised exactly if packets are waiting now; nothing else is. */
    twostate predicate WaitingTold()
      reads this`gRxQueue, irq
    {
      irq.gActive == old(irq.gActive) + if gRxQueue != [] then {PacketReceived} else {}
    }

    ghost predicate Sound(unseen: nat)
      reads this, irq, tx, tx.irq
    {
      TransmitterOk() && BytesBalance() && InOrder() && Counted(unseen) && Announced()
    }

    ghost predicate TransmitterOk()
      reads irq, tx, tx.irq
    {
      tx.irq == irq && irq.Valid() && (tx.Valid() || tx.Wedged())
    }

    ghost predicate Valid()
      reads this, irq, tx, tx.irq
    {
      Sound(0)
    }

    constructor (tx: Handler)
      requires tx.Valid() && tx.irq.Valid()
      ensures Valid() && this.tx == tx && irq == tx.irq && checkedOut == None && gRxQueue == []
    {
      hide Handler.Valid, Handler.Wedged;
      this.tx, irq := tx, tx.irq;
      gRxQueue, gRxAllocBytes, gRxOverflowFlag, gRxQueueDiscarded, gRxBufferDiscarded := [], 0, false, 0, 0;
      gRxBufferAllocFailed, gRxFrames, gRxFrameErrors, gRxFifoOverflows := 0, 0, 0, 0;
      gAddress, gPbuf, rxHeap := 0, None, map[];
      accepted, popped, lostQueue, lostBuffer, lostAlloc := [], [], 0, 0, 0;
      toldGood, toldQueue, toldBuffer, toldAlloc, checkedOut := 0, 0, 0, 0, None;
      new;
      assert RxSizes(rxHeap) == map[];
    }

    /** Others may change the interrupts, as long as waiting packets stay announced. */
    twostate lemma InterruptsChanged()
      requires old(Valid()) && unchanged(this) && unchanged(tx) && irq.Valid() && Announced()
      ensures Valid()
    {
      hide InOrder, BytesBalance, Counted;
      tx.Undisturbed();
      hide Handler.Valid, Handler.Wedged;
    }

    /** The transmit side may work on, raising its own interrupt. */
    twostate lemma TransmitterChanged()
      requires old(Valid()) && unchanged(this) && TransmitterOk() && irq.Raised({TxQueueEmpty})
      ensures Valid()
    {
      hide InOrder, BytesBalance, Counted, TransmitterOk;
    }

    method UpdateRxQueueState()
      requires TransmitterOk()
      modifies irq
      ensures TransmitterOk() && irq.gMask == old(irq.gMask)
      ensures WaitingTold()
      ensures irq.rxAcked == (old(irq.rxAcked) && gRxQueue == [])
    {
      if gRxQueue != [] {
        irq.Assert({PacketReceived});
        tx.Undisturbed();
      }
    }

    lemma QueueFits()
      requires Valid()
      ensures |gRxQueue| <= MAX_RX_QUEUE
    {
    }

    /** The queue of 255, the pool of 8192 bytes and the C heap can all take a frame of n bytes and its
        six-byte header. */
    predicate HasRoom(n: nat, block: Option<Ptr>)
      reads this`gRxQueue, this`gRxAllocBytes
    {
      |gRxQueue| < 255 && gRxAllocBytes + 6 + n <= 8192 && block.Some?
    }

    /** Take a frame in, or count why not; `block` is what malloc would return. */
    method HandleRxPacket(frame: seq<byte>, rssi: byte, lqi: byte, block: Option<Ptr>) returns (r: Option<Ptr>)
      requires Valid() && (block.Some? ==> block.value !in rxHeap)
      modifies this`gRxAllocBytes, this`rxHeap, this`gRxQueue, this`accepted, this`gRxOverflowFlag, this`gRxQueueDiscarded,
               this`gRxBufferDiscarded, this`gRxBufferAllocFailed, this`lostQueue, this`lostBuffer, this`lostAlloc, irq
      ensures Sound(1) && irq.gMask == old(irq.gMask) && WaitingTold()
      ensures gRxQueue != [] ==> !irq.rxAcked
      ensures Handled() == old(Handled()) + 1
      ensures r.Some? <==> old(HasRoom(|frame|, block))
      ensures accepted == if r.Some? then old(accepted) + [frame] else old(accepted)
      ensures r.None? ==> gRxQueue == old(gRxQueue) && rxHeap == old(rxHeap)
      ensures gRxOverflowFlag <==> old(gRxOverflowFlag) || r.None?
      ensures var full, over := |old(gRxQueue)| == MAX_RX_QUEUE, old(gRxAllocBytes) + RX_HEADER + |frame| > MAX_RX_BYTES;
              && gRxQueueDiscarded == Bumped(old(gRxQueueDiscarded), full)
              && gRxBufferDiscarded == Bumped(old(gRxBufferDiscarded), !full && over)
              && gRxBufferAllocFailed == Bumped(old(gRxBufferAllocFailed), !full && !over && block.None?)
      ensures r.Some? ==>
                && gRxQueue == old(gRxQueue) + [r.value] && r == block
                && rxHeap == old(rxHeap)[r.value := RxPacketBuffer(|frame|, rssi, lqi, WantsAck(frame), frame)]
                && (rxHeap[r.value].autoAck <==>
                      |frame| >= 6 && frame[0] / 4 % 2 == 1 && frame[4] as nat + frame[5] as nat * 0x100 == old(gAddress))
    {
      hide Sound, And, WantsAck;
      AckFlag(frame);
      QueueFits();
      if |gRxQueue| == MAX_RX_QUEUE {
        Overflow(QueueFull);
        return None;
      }
      var requiredBytes := RX_HEADER + |frame|;
      if gRxAllocBytes + requiredBytes > MAX_RX_BYTES {
        Overflow(PoolFull);
        return None;
      }
      if block == None {
        Overflow(NoMemory);
        return None;
      }
      Enqueue(block.value, frame, rssi, lqi);
      return block;
    }

    /** The refusing half of `HandleRxPacket`: flag the overflow and count the lost frame by its cause. */
    method Overflow(cause: Cause)
      requires Valid()
      modifies this`gRxOverflowFlag, this`gRxQueueDiscarded, this`gRxBufferDiscarded, this`gRxBufferAllocFailed,
               this`lostQueue, this`lostBuffer, this`lostAlloc, irq
      ensures Sound(1) && irq.gMask == old(irq.gMask) && gRxOverflowFlag && WaitingTold()
      ensures gRxQueue != [] ==> !irq.rxAcked
      ensures Handled() == old(Handled()) + 1
      ensures gRxQueueDiscarded == Bumped(old(gRxQueueDiscarded), cause == QueueFull)
      ensures gRxBufferDiscarded == Bumped(old(gRxBufferDiscarded), cause == PoolFull)
      ensures gRxBufferAllocFailed == Bumped(old(gRxBufferAllocFailed), cause == NoMemory)
    {
      hide TransmitterOk, InOrder, BytesBalance, Counted;
      CountLoss(cause);
      UpdateRxQueueState();
    }

    method CountLoss(cause: Cause)
      requires Counted(0)
      modifies this`gRxOverflowFlag, this`gRxQueueDiscarded, this`gRxBufferDiscarded, this`gRxBufferAllocFailed,
               this`lostQueue, this`lostBuffer, this`lostAlloc
      ensures Counted(1) && gRxOverflowFlag && Handled() == old(Handled()) + 1
      ensures gRxQueueDiscarded == Bumped(old(gRxQueueDiscarded), cause == QueueFull)
      ensures gRxBufferDiscarded == Bumped(old(gRxBufferDiscarded), cause == PoolFull)
      ensures gRxBufferAllocFailed == Bumped(old(gRxBufferAllocFailed), cause == NoMemory)
    {
      hide Agrees;
      gRxOverflowFlag := true;
      match cause {
        case QueueFull =>
          AgreesAfterOne(toldQueue, gRxQueueDiscarded, lostQueue);
          gRxQueueDiscarded, lostQueue := (gRxQueueDiscarded + 1) % WRAP32, lostQueue + 1;
        case PoolFull =>
          AgreesAfterOne(toldBuffer, gRxBufferDiscarded, lostBuffer);
          gRxBufferDiscarded, lostBuffer := (gRxBufferDiscarded + 1) % WRAP32, lostBuffer + 1;
        case NoMemory =>
          AgreesAfterOne(toldAlloc, gRxBufferAllocFailed, lostAlloc);
          gRxBufferAllocFailed, lostAlloc := (gRxBufferAllocFailed + 1) % WRAP32, lostAlloc + 1;
      }
    }

    /** The accepting half of `HandleRxPacket`: fill in the buffer at `p` and append it to the queue. */
    method Enqueue(p: Ptr, frame: seq<byte>, rssi: byte, lqi: byte)
      requires Valid() && p !in rxHeap && |gRxQueue| < MAX_RX_QUEUE && gRxAllocBytes + RX_HEADER + |frame| <= MAX_RX_BYTES
      modifies this`gRxAllocBytes, this`rxHeap, this`gRxQueue, this`accepted, irq
      ensures Sound(1) && irq.gMask == old(irq.gMask) && !irq.rxAcked && WaitingTold()
      ensures accepted == old(accepted) + [frame] && gRxQueue == old(gRxQueue) + [p]
      ensures rxHeap == old(rxHeap)[p := RxPacketBuffer(|frame|, rssi, lqi, WantsAck(frame), frame)]
    {
      hide TransmitterOk, InOrder, BytesBalance, Agrees, And, Destination;
      Store(p, RxPacketBuffer(|frame|, rssi, lqi, WantsAck(frame), frame));
      assert Counted(1);
      UpdateRxQueueState();
    }

    method Store(p: Ptr, buffer: RxPacketBuffer)
      requires BytesBalance() && InOrder() && p !in rxHeap && |gRxQueue| < MAX_RX_QUEUE
      requires buffer.packetSize == |buffer.data| && (buffer.autoAck ==> |buffer.data| >= MAC_HEADER)
      requires gRxAllocBytes + RX_HEADER + buffer.packetSize <= MAX_RX_BYTES
      modifies this`gRxAllocBytes, this`rxHeap, this`gRxQueue, this`accepted
      ensures BytesBalance() && InOrder()
      ensures accepted == old(accepted) + [buffer.data] && gRxQueue == old(gRxQueue) + [p]
      ensures rxHeap == old(rxHeap)[p := buffer]
    {
      hide Owned, Frames, RxSizes, Sum, WellFormed;
      Appended(gRxQueue, rxHeap, checkedOut, p, buffer);
      gRxAllocBytes := gRxAllocBytes + RX_HEADER + buffer.packetSize;
      rxHeap := rxHeap[p := buffer];
      gRxQueue := gRxQueue + [p];
      accepted := accepted + [buffer.data];
    }

    lemma AckFlag(frame: seq<byte>)
      ensures WantsAck(frame) <==>
                |frame| >= 6 && frame[0] / 4 % 2 == 1 && frame[4] as nat + frame[5] as nat * 0x100 == gAddress
    {
      if |frame| >= MAC_HEADER {
        BitTwo(frame[0]);
      }
    }

    /** A full header that asks for an acknowledgement from this very node. */
    predicate WantsAck(frame: seq<byte>)
      reads this`gAddress
    {
      |frame| >= MAC_HEADER && And(frame[0], ACK_REQUEST) != 0 && Destination(frame) == gAddress
    }

    /** The radio has a complete frame: hand it to the packet handler, count it either way. */
    method OnPacketReceived(frame: seq<byte>, rssi: byte, lqi: byte, block: Option<Ptr>)
      requires Valid() && (block.Some? ==> block.value !in rxHeap)
      modifies this`gRxAllocBytes, this`rxHeap, this`gRxQueue, this`accepted, this`gRxOverflowFlag, this`gRxQueueDiscarded,
               this`gRxBufferDiscarded, this`gRxBufferAllocFailed, this`lostQueue, this`lostBuffer, this`lostAlloc,
               this`gRxFrames, irq
      ensures Valid() && irq.gMask == old(irq.gMask) && WaitingTold()
      ensures gRxQueue != [] ==> !irq.rxAcked
      ensures if !old(HasRoom(|frame|, block)) then
                accepted == old(accepted) && gRxQueue == old(gRxQueue) && rxHeap == old(rxHeap)
              else
                && accepted == old(accepted) + [frame] && block.Some? && gRxQueue == old(gRxQueue) + [block.value]
                && rxHeap == old(rxHeap)[block.value := RxPacketBuffer(|frame|, rssi, lqi, WantsAck(frame), frame)]
      ensures Handled() == old(Handled()) + 1 && gRxFrames == Bumped(old(gRxFrames), true)
    {
      hide TransmitterOk, Owned, Frames, RxSizes, Sum, WellFormed, Agrees;
      var _ := HandleRxPacket(frame, rssi, lqi, block);
      AgreesAfterOne(toldGood, gRxFrames, Handled() - 1);
      gRxFrames := (gRxFrames + 1) % WRAP32;
    }

    /** Take the oldest packet off the queue and check it out. */
    method PopRxQueue() returns (p: Ptr)
      requires Valid() && gRxQueue != [] && checkedOut == None
      modifies this`gRxQueue, this`popped, this`checkedOut, irq
      ensures Valid() && irq.gMask == old(irq.gMask) && WaitingTold()
      ensures p == old(gRxQueue)[0] && p in rxHeap && gRxQueue == old(gRxQueue)[1..] && checkedOut == Some(p)
      ensures popped == old(popped) + [rxHeap[p].data]
      ensures gRxQueue != [] ==> !irq.rxAcked
    {
      hide TransmitterOk, RxSizes, Sum, Agrees, Frames, WellFormed, Owned;
      Taken(gRxQueue, rxHeap, checkedOut);
      p := gRxQueue[0];
      gRxQueue := gRxQueue[1..];
      popped := popped + [rxHeap[p].data];
      checkedOut := Some(p);
      UpdateRxQueueState();
    }

    /** Serve a read-out: the oldest packet, header first, cut to what the host asked for.  The buffer
        stays checked out until `PostRead`. */
    method DoRead(requested: nat, outBuffer: array<byte>) returns (n: nat)
      requires Valid() && gRxQueue != [] && checkedOut == None
      requires requested <= outBuffer.Length
      modifies this`gRxQueue, this`popped, this`checkedOut, this`gPbuf, irq, outBuffer
      ensures Valid() && irq.gMask == old(irq.gMask) && WaitingTold()
      ensures gRxQueue == old(gRxQueue)[1..] && checkedOut == Some(old(gRxQueue)[0]) == gPbuf
      ensures gRxQueue != [] ==> !irq.rxAcked
      ensures rxHeap == old(rxHeap) && accepted == old(accepted)
      ensures checkedOut.value in rxHeap && popped == old(popped) + [rxHeap[checkedOut.value].data]
      ensures HandedOut(rxHeap[checkedOut.value], requested, n, old(outBuffer[..]), outBuffer[..])
    {
      hide TransmitterOk, RxSizes, Sum, Agrees, Frames, Owned;
      var p := PopRxQueue();
      var pbuf := rxHeap[p];
      assert pbuf.packetSize == |pbuf.data|;
      hide InOrder, Announced, Counted, BytesBalance, WellFormed;
      n := Min(requested, 2 + pbuf.packetSize);
      var packet := [pbuf.rssi, pbuf.lqi] + pbuf.data;
      forall i | 0 <= i < n {
        outBuffer[i] := packet[i];
      }
      gPbuf := Some(p);
    }

    /** Acknowledge a frame through the transmit queue.  The requirement that follows has the wrong
        sense: the firmware panics exactly when the acknowledgement was queued. */
    method QueueAck(frame: seq<byte>, block: Option<Ptr>, radio: Radio)
      requires TransmitterOk() && |frame| >= MAC_HEADER && (block.Some? ==> block.value !in tx.heap)
      modifies tx, irq
      ensures irq.Valid() && irq.Raised({TxQueueEmpty}) && tx.EmptyTold()
      ensures !tx.panicked ==> TransmitterOk() && tx.heap == old(tx.heap) && (old(tx.Moving()) ==> tx.Moving())
      ensures tx.panicked ==> block.Some? && block.value in tx.heap && tx.heap[block.value].data == AckFor(frame)
      ensures tx.panicked <==> old(tx.HasRoom(3, MAC_HEADER, block)) && (old(tx.gTxPacketsPending) > 0 || radio.Starts?)
    {
      hide Handler.Valid, Handler.Wedged, AckFor, And;
      tx.Counting();
      var r := tx.QueueTxPacket(3, AckFor(frame), false, block, radio);
      tx.Counting();
      if r.Some? {
        tx.panicked := true;
      }
    }

    /** Free the buffer the host held. */
    method Release(p: Ptr)
      requires Valid() && checkedOut == Some(p) && p in rxHeap
      modifies this`rxHeap, this`gRxAllocBytes, this`checkedOut
      ensures Valid() && checkedOut == None && rxHeap == old(rxHeap) - {p}
    {
      hide TransmitterOk, Agrees, Owned, Frames, RxSizes, Sum;
      Released(gRxQueue, rxHeap, p);
      var numBytes := RX_HEADER + rxHeap[p].packetSize;
      hide WellFormed;
      rxHeap := rxHeap - {p};
      gRxAllocBytes := gRxAllocBytes - numBytes;
      checkedOut := None;
    }

    lemma TransmitterUp()
      requires Valid()
      ensures !tx.panicked && irq.Valid() && tx.irq == irq && |tx.gTxQueues| == CLASSES
    {
    }

    /** Something on the air means the transmitter is not wedged. */
    lemma OnAirIsSound()
      requires Valid() && tx.gLastTx.Some?
      ensures tx.Valid()
    {
    }

    lemma CheckedOutIsAlive()
      requires Valid() && checkedOut.Some?
      ensures checkedOut.value in rxHeap
      ensures rxHeap[checkedOut.value].autoAck ==> |rxHeap[checkedOut.value].data| >= MAC_HEADER
    {
    }

    /** The host is done with the packet it read: acknowledge it if that was asked for and the read
        succeeded, then release the buffer. */
    method PostRead(success: bool, block: Option<Ptr>, radio: Radio)
      requires Valid() && checkedOut.Some? && gPbuf == checkedOut && (block.Some? ==> block.value !in tx.heap)
      modifies this`rxHeap, this`gRxAllocBytes, this`checkedOut, tx, irq
      ensures irq.Valid() && irq.Raised({TxQueueEmpty})
      ensures old(checkedOut).value in old(rxHeap)
      ensures if success && old(rxHeap)[old(checkedOut).value].autoAck then tx.EmptyTold() else irq.gActive == old(irq.gActive)
      ensures !tx.panicked ==>
                && Valid() && checkedOut == None && rxHeap == old(rxHeap) - {old(checkedOut).value}
                && gRxQueue == old(gRxQueue) && accepted == old(accepted) && popped == old(popped)
      ensures tx.panicked <==>
                && success && old(rxHeap)[old(checkedOut).value].autoAck
                && old(tx.HasRoom(3, MAC_HEADER, block)) && (old(tx.gTxPacketsPending) > 0 || radio.Starts?)
      ensures !tx.panicked ==> tx.heap == old(tx.heap) && (old(tx.Moving()) ==> tx.Moving())
    {
      hide InOrder, Agrees, BytesBalance, Counted, TransmitterOk;
      CheckedOutIsAlive();
      TransmitterUp();
      var p := gPbuf.value;
      var buffer := rxHeap[p];
      if buffer.autoAck && success {
        QueueAck(buffer.data, block, radio);
        if tx.panicked {
          return;
        }
      }
      Release(p);
    }

    function QueueNow(): QueueCounters
      reads this
    {
      QueueCounters(|gRxQueue|, gRxAllocBytes, gRxBufferDiscarded, gRxBufferAllocFailed, gRxQueueDiscarded)
    }

    function RadioNow(): RxRadioCounters
      reads this
    {
      RxRadioCounters(gRxFifoOverflows, gRxFrameErrors, gRxFrames)
    }

    /** Report the queue statistics and clear them. */
    method ReadCounters() returns (queue: QueueCounters)
      requires Valid()
      modifies this`gRxQueueDiscarded, this`gRxBufferDiscarded, this`gRxBufferAllocFailed,
               this`toldQueue, this`toldBuffer, this`toldAlloc
      ensures Valid()
      ensures queue == old(QueueNow())
      ensures queue.packetsPending == |gRxQueue| && queue.bufferSize == gRxAllocBytes
      ensures queue.bufferDiscards == old(gRxBufferDiscarded) && queue.bufferAllocFails == old(gRxBufferAllocFailed)
      ensures queue.queueDiscards == old(gRxQueueDiscarded)
      ensures toldQueue == old(toldQueue) + queue.queueDiscards && toldBuffer == old(toldBuffer) + queue.bufferDiscards
      ensures toldAlloc == old(toldAlloc) + queue.bufferAllocFails
      ensures gRxQueueDiscarded == gRxBufferDiscarded == gRxBufferAllocFailed == 0
    {
      hide TransmitterOk, InOrder, BytesBalance, Announced, Handled, Agrees;
      AgreesAfterReport(toldQueue, gRxQueueDiscarded, lostQueue);
      AgreesAfterReport(toldBuffer, gRxBufferDiscarded, lostBuffer);
      AgreesAfterReport(toldAlloc, gRxBufferAllocFailed, lostAlloc);
      queue := QueueNow();
      gRxBufferDiscarded, toldBuffer := 0, toldBuffer + gRxBufferDiscarded;
      gRxBufferAllocFailed, toldAlloc := 0, toldAlloc + gRxBufferAllocFailed;
      gRxQueueDiscarded, toldQueue := 0, toldQueue + gRxQueueDiscarded;
      assert InOrder();
      assert Counted(0);
    }

    /** Report the radio's receive statistics and clear them. */
    method ReadRadioCounters() returns (radio: RxRadioCounters)
      requires Valid()
      modifies this`gRxFrames, this`gRxFrameErrors, this`gRxFifoOverflows, this`toldGood
      ensures Valid() && toldGood == old(toldGood) + radio.goodFrames
      ensures radio == old(RadioNow())
      ensures radio.fifoOverflows == old(gRxFifoOverflows) && radio.frameErrors == old(gRxFrameErrors)
      ensures radio.goodFrames == old(gRxFrames)
      ensures gRxFrames == gRxFrameErrors == gRxFifoOverflows == 0
    {
      hide TransmitterOk, InOrder, BytesBalance, Announced, Handled, Agrees;
      AgreesAfterReport(toldGood, gRxFrames, Handled());
      radio := RadioNow();
      gRxFifoOverflows, gRxFrameErrors := 0, 0;
      gRxFrames, toldGood := 0, toldGood + gRxFrames;
      assert InOrder();
      assert Counted(0);
    }

    /** The radio reports a damaged frame, or one it had no room for. */
    method OnRxFault(overflow: bool)
      requires Valid()
      modifies this`gRxFrameErrors, this`gRxFifoOverflows
      ensures Valid()
      ensures gRxFifoOverflows == Bumped(old(gRxFifoOverflows), overflow)
      ensures gRxFrameErrors == Bumped(old(gRxFrameErrors), !overflow)
    {
      hide TransmitterOk, InOrder, BytesBalance, Announced, Handled, Agrees;
      if overflow {
        gRxFifoOverflows := (gRxFifoOverflows + 1) % WRAP32;
      } else {
        gRxFrameErrors := (gRxFrameErrors + 1) % WRAP32;
      }
    }

    /** The node's short address: neither zero nor the broadcast address. */
    method SetAddress(newAddress: nat) returns (err: int)
      requires Valid()
      modifies this`gAddress
      ensures Valid() && (err == 0 <==> newAddress != 0 && newAddress != 0xFFFF)
      ensures gAddress == if err == 0 then newAddress else old(gAddress)
    {
      hide TransmitterOk, InOrder, BytesBalance, Announced, Handled, Agrees;
      if newAddress == 0 || newAddress == 0xFFFF {
        return -1;
      }
      gAddress := newAddress;
      return 0;
    }

    /** Nothing is lost without being counted: good frames, told and current, are the frames taken in
        plus the discards, told and current (32-bit arithmetic); the frames taken in are those handed
        out plus those queued; and the pool holds the queued buffers and the one checked out. */
    lemma Conservation()
      requires Valid()
      ensures Same(toldGood + gRxFrames,
                   |accepted| + (toldQueue + gRxQueueDiscarded) + (toldBuffer + gRxBufferDiscarded)
                   + (toldAlloc + gRxBufferAllocFailed))
      ensures |accepted| == |popped| + |gRxQueue| && popped <= accepted
      ensures rxHeap.Keys == (set p | p in gRxQueue) + (if checkedOut.Some? then {checkedOut.value} else {})
      ensures gRxAllocBytes == Sum(RxSizes(rxHeap)) <= MAX_RX_BYTES
    {
      hide TransmitterOk, Frames, WellFormed, RxSizes, Sum, Announced;
      assert Same(toldGood + gRxFrames, Handled());
      SumAgrees(toldQueue + gRxQueueDiscarded, lostQueue, toldBuffer + gRxBufferDiscarded, lostBuffer,
                toldAlloc + gRxBufferAllocFailed, lostAlloc, |accepted|);
      hide Agrees;
    }
  }
}
