/** The transmit half of the packet handler and of the radio loop: buffers on the C heap, four
    priority queues with a fast path around them, one packet on the air, and CSMA retries. */
module PacketTransmitter {
  import opened Common
  import opened Bits
  import opened MapSum
  import opened TxScheduler
  import opened Irq

  const TX_HEADER := 4
  const MAX_TX_BYTES := 4 * 1024

  /** A transmit buffer: 16-bit size, sticky flag, 8-bit failure count, payload. */
  datatype TxPacketBuffer = TxPacketBuffer(packetSize: nat, isSticky: bool, csmaFailCount: nat, data: seq<byte>)

  /** What the radio makes of a start: it begins, the FIFO has no room, or the request is refused. */
  datatype Radio = Starts | FifoFull | Refuses

  function Sizes(heap: map<Ptr, TxPacketBuffer>): map<Ptr, nat> {
    map p | p in heap :: TX_HEADER + heap[p].packetSize
  }

  /** The heap once a finished packet's buffer has been freed, unless it is sticky. */
  function Freed(heap: map<Ptr, TxPacketBuffer>, p: Ptr): map<Ptr, TxPacketBuffer>
    requires p in heap
  {
    if heap[p].isSticky then heap else heap - {p}
  }

  /** The heap once another failure of a packet has been counted. */
  function Struck(heap: map<Ptr, TxPacketBuffer>, p: Ptr): map<Ptr, TxPacketBuffer>
    requires p in heap
  {
    heap[p := heap[p].(csmaFailCount := heap[p].csmaFailCount + 1)]
  }

  function OnAirPtr(s: Sched): Option<Ptr> {
    match s.current case None => None case Some(j) => Some(j.ptr)
  }

  /** A 32-bit statistics counter, one further if something happened. */
  function Bumped(counter: nat, happened: bool): nat {
    if happened then (counter + 1) % WRAP32 else counter
  }

  lemma RunSnoc(es: seq<Event>, e: Event)
    ensures Run(es + [e]) == Step(Run(es), e)
  {
    assert (es + [e])[..|es|] == es;
  }

  /** Every outstanding buffer is alive and carries its failure count; every buffer that is not sticky
      is outstanding exactly once, so it cannot be freed twice or leak. */
  ghost predicate HeapMatches(heap: map<Ptr, TxPacketBuffer>, s: Sched, loose: set<Ptr>)
    requires |s.queues| == CLASSES
  {
    && (forall p <- Outstanding(s) :: p in heap && p in s.fails && heap[p].csmaFailCount == s.fails[p])
    && (forall p <- heap :: !heap[p].isSticky ==> Outstanding(s)[p] == if p in loose then 0 else 1)
  }

  lemma HeapAfterAlloc(heap: map<Ptr, TxPacketBuffer>, s: Sched, p: Ptr, b: TxPacketBuffer)
    requires |s.queues| == CLASSES && p !in heap && HeapMatches(heap, s, {})
    ensures HeapMatches(heap[p := b], s, if b.isSticky then {} else {p})
  {
    hide Outstanding;
  }

  lemma HeapAfterAccept(heap: map<Ptr, TxPacketBuffer>, s: Sched, c: nat, p: Ptr, loose: set<Ptr>)
    requires Inv(s) && c < CLASSES && |s.queues[c]| < MAX_QUEUE && p in heap
    requires HeapMatches(heap, s, loose) && loose <= {p} && (heap[p].isSticky || p in loose)
    ensures Inv(Step(s, Accept(c, p)))
    ensures HeapMatches(heap[p := heap[p].(csmaFailCount := 0)], Step(s, Accept(c, p)), {})
  {
    hide Outstanding, Step, Core, Waiting, Pending;
    AcceptFacts(s, c, p);
    hide Inv;
  }

  lemma HeapAfterFailure(heap: map<Ptr, TxPacketBuffer>, s: Sched)
    requires Core(s) && s.current.Some? && HeapMatches(heap, s, {})
    ensures var p := s.current.value.ptr;
            && p in heap && heap[p].csmaFailCount == s.fails[p]
            && HeapMatches(heap[p := heap[p].(csmaFailCount := s.fails[p] + 1)], Failed(s), {})
  {
    assert Outstanding(Failed(s)) == Outstanding(s);
    assert s.current.value.ptr in Outstanding(s);
    hide Outstanding;
  }

  lemma HeapAfterComplete(heap: map<Ptr, TxPacketBuffer>, s: Sched)
    requires Core(s) && s.current.Some? && HeapMatches(heap, s, {})
    ensures var p := s.current.value.ptr;
            p in heap && Inv(Complete(s)) && HeapMatches(if heap[p].isSticky then heap else heap - {p}, Complete(s), {})
  {
    assert s.current.value.ptr in Outstanding(s);
    CompleteFacts(s);
    ReleasedHeapMatches(heap, s, Complete(s));
  }

  /** One occurrence of the buffer on the air less, and the buffer gone unless it is sticky. */
  lemma ReleasedHeapMatches(heap: map<Ptr, TxPacketBuffer>, s: Sched, t: Sched)
    requires |s.queues| == CLASSES && |t.queues| == CLASSES && s.current.Some? && HeapMatches(heap, s, {})
    requires t.fails == s.fails && s.current.value.ptr in Outstanding(s)
    requires Outstanding(t) == Outstanding(s) - multiset{s.current.value.ptr}
    ensures var p := s.current.value.ptr; HeapMatches(if heap[p].isSticky then heap else heap - {p}, t, {})
  {
    hide Outstanding;
  }

  /** With nothing outstanding only sticky buffers are alive, and their failure counts do not matter. */
  lemma HeapOfIdle(heap: map<Ptr, TxPacketBuffer>, heap': map<Ptr, TxPacketBuffer>, s: Sched)
    requires |s.queues| == CLASSES && Pending(s) == 0 && HeapMatches(heap, s, {})
    requires forall p <- heap' :: heap'[p].isSticky || (p in heap && !heap[p].isSticky)
    ensures HeapMatches(heap', s, {}) && forall p <- heap :: heap[p].isSticky
  {
    assert Outstanding(s) == multiset{};
  }

  class Handler {
    const irq: IrqManager

    // Packet::Handler
    var gTxQueues: seq<seq<Ptr>>
    var gTxPacketsPending: nat
    var gTxAllocBytes: nat
    var gTxOverflowFlag: bool
    var gTxQueueDiscarded: nat
    var gTxBufferDiscarded: nat
    var gTxBufferAllocFailed: nat

    // Radio::Task
    var gLastTx: Option<Ptr>
    var gTxFifoDrops: nat
    var gTxCcaFails: nat
    var gTxFrames: nat
    var criticalNesting: nat
    var panicked: bool

    // the C heap, as far as transmit buffers are concerned
    var heap: map<Ptr, TxPacketBuffer>

    // what happened so far: accepted packets and radio reports, the reference scheduler's state after
    // them, and every transmission actually begun; how often the radio was asked to start, and how many
    // submissions got past the check for a full queue
    ghost var events: seq<Event>
    ghost var model: Sched
    ghost var onAir: seq<Transmission>
    ghost var asked: nat
    ghost var submitted: nat

    /** Every allocated byte belongs to a live buffer, within the pool's limit; because of the limit no
        size was truncated to 16 bits. */
    ghost predicate BytesBalance()
      reads this`gTxAllocBytes, this`heap
    {
      && gTxAllocBytes == Sum(Sizes(heap)) <= MAX_TX_BYTES
      && forall p <- heap :: heap[p].packetSize == |heap[p].data|
    }

    /** The handler's fields are those of scheduler state `s`, and the buffers in `h` fit it. */
    ghost predicate Follows(s: Sched, h: map<Ptr, TxPacketBuffer>)
      reads this`gTxQueues, this`gLastTx, this`onAir
    {
      && Core(s)
      && gTxQueues == s.queues && gLastTx == OnAirPtr(s) && onAir == s.air
      && HeapMatches(h, s, {})
    }

    /** Every submission led to an acceptance or to one refused start. */
    ghost predicate Tallied()
      reads this`asked, this`submitted, this`onAir, this`model
    {
      asked + |model.accepted| == submitted + |onAir| && |model.accepted| <= submitted
    }

    /** The reference scheduler has seen `events` and the handler is in its state, as far as the buffers
        in `h` are concerned; the pending counter counts exactly the queued packets and the one on the
        air. */
    ghost predicate Sound(h: map<Ptr, TxPacketBuffer>)
      reads this, irq
    {
      && irq.Valid() && !panicked
      && model == Run(events) && Follows(model, h) && gTxPacketsPending == Pending(model) && Tallied()
    }

    /** What holds between calls. */
    ghost predicate Valid()
      reads this, irq
    {
      BytesBalance() && Sound(heap)
    }

    /** The pending counter is one too high and nothing is on the air.  Until something is queued, that
        is all that is wrong. */
    ghost predicate Stuck(h: map<Ptr, TxPacketBuffer>)
      reads this, irq
    {
      && irq.Valid() && !panicked
      && |gTxQueues| == CLASSES && (forall c :: 0 <= c < CLASSES ==> |gTxQueues[c]| <= MAX_QUEUE)
      && gLastTx == None && gTxPacketsPending == 1 + InQueues()
      && asked <= MAX_CSMA_FAILS * submitted
      && (InQueues() == 0 ==> model == Run(events) && Follows(model, h) && Pending(model) == 0 && Tallied())
    }

    /** No submission can start a packet any more. */
    ghost predicate Wedged()
      reads this, irq
    {
      BytesBalance() && Stuck(heap)
    }

    /** The pending counter is neither right nor one too high for a transmitter at rest. */
    predicate Broken()
      reads this`gTxQueues, this`gTxPacketsPending, this`gLastTx
    {
      |gTxQueues| == CLASSES
      && gTxPacketsPending != InQueues() + 1
      && (gLastTx == None && InQueues() == 0 ==> gTxPacketsPending != 0)
    }

    function InQueues(): nat
      requires |gTxQueues| == CLASSES
      reads this`gTxQueues
    {
      |gTxQueues[0]| + |gTxQueues[1]| + |gTxQueues[2]| + |gTxQueues[3]|
    }

    /** An empty transmit queue is announced exactly if nothing is pending now; nothing else is. */
    twostate predicate EmptyTold()
      reads this`gTxPacketsPending, irq
    {
      irq.gActive == old(irq.gActive) + if gTxPacketsPending == 0 then {TxQueueEmpty} else {}
    }

    /** Something is on the air, or nothing is pending. */
    predicate Moving()
      reads this`gTxPacketsPending, this`gLastTx
    {
      gLastTx.Some? || gTxPacketsPending == 0
    }

    /** Wedged with nothing queued: the one case in which lowering the counter is right. */
    predicate Stranded()
      reads this`gTxPacketsPending, this`gLastTx
    {
      gTxPacketsPending == 1 && gLastTx == None
    }

    constructor (irq: IrqManager)
      requires irq.Valid()
      ensures Valid() && this.irq == irq && model == IDLE && heap == map[] && gTxAllocBytes == gTxPacketsPending == 0
      ensures gTxQueues == [[], [], [], []]
    {
      this.irq := irq;
      gTxQueues, gTxPacketsPending, gTxAllocBytes := [[], [], [], []], 0, 0;
      gTxOverflowFlag, gTxQueueDiscarded, gTxBufferDiscarded, gTxBufferAllocFailed := false, 0, 0, 0;
      gTxCcaFails, gTxFrames := 0, 0;
      gLastTx, gTxFifoDrops, criticalNesting, panicked, heap := None, 0, 0, false, map[];
      events, model, onAir, asked, submitted := [], IDLE, [], 0, 0;
      new;
      assert Sizes(heap) == map[];
      EmptyQueues(IDLE.queues);
    }

    /** Hand a packet, of class `cls`, to the radio.  On failure the critical section is never left and
        the packet on the air is not recorded. */
    method TxPacketImmediate(p: Ptr, radio: Radio, ghost t: Transmission) returns (err: int)
      requires p in heap && t.job.ptr == p
      modifies this`gLastTx, this`gTxFifoDrops, this`criticalNesting, this`onAir, this`asked
      ensures err == match radio case Starts => 0 case FifoFull => -1 case Refuses => -2
      ensures radio.Starts? ==> gLastTx == Some(p) && onAir == old(onAir) + [t] && criticalNesting == old(criticalNesting)
      ensures !radio.Starts? ==> gLastTx == old(gLastTx) && onAir == old(onAir) && criticalNesting == old(criticalNesting) + 1
      ensures gTxFifoDrops == if radio.FifoFull? then (old(gTxFifoDrops) + 1) % WRAP32 else old(gTxFifoDrops)
      ensures asked == old(asked) + 1
    {
      asked := asked + 1;
      criticalNesting := criticalNesting + 1;
      if radio.FifoFull? {
        gTxFifoDrops := (gTxFifoDrops + 1) % WRAP32;
        return -1;
      }
      if radio.Refuses? {
        return -2;
      }
      onAir := onAir + [t];
      gLastTx := Some(p);
      criticalNesting := criticalNesting - 1;
      return 0;
    }

    method UpdateTxQueueState()
      requires irq.Valid()
      modifies irq
      ensures irq.Valid() && irq.Raised({TxQueueEmpty})
      ensures irq.gActive == old(irq.gActive) + if gTxPacketsPending == 0 then {TxQueueEmpty} else {}
    {
      if gTxPacketsPending == 0 {
        irq.Assert({TxQueueEmpty});
      }
    }

    /** Take the oldest packet of the highest non-empty class. */
    method PopTxQueue() returns (r: Option<Ptr>)
      requires |gTxQueues| == CLASSES
      modifies this`gTxQueues
      ensures match TopClass(old(gTxQueues)) {
                case None => r == None && gTxQueues == old(gTxQueues)
                case Some(c) => r == Some(old(gTxQueues)[c][0]) && gTxQueues == old(gTxQueues)[c := old(gTxQueues)[c][1..]]
              }
    {
      for i := 0 to 4
        invariant gTxQueues == old(gTxQueues)
        invariant forall d :: 4 - i <= d < 4 ==> gTxQueues[d] == []
      {
        var queue := gTxQueues[3 - i];
        if queue == [] {
          continue;
        }
        gTxQueues := gTxQueues[3 - i := queue[1..]];
        return Some(queue[0]);
      }
      return None;
    }

    /** Allocate a buffer for a payload; `block` is what malloc would return. */
    method AllocTxPacket(payload: seq<byte>, isSticky: bool, block: Option<Ptr>) returns (r: Option<Ptr>)
      requires irq.Valid() && BytesBalance() && (block.Some? ==> block.value !in heap)
      modifies this`gTxAllocBytes, this`gTxOverflowFlag, this`gTxBufferDiscarded, this`gTxBufferAllocFailed, this`heap, irq
      ensures irq.Valid() && irq.Raised({TxQueueEmpty}) && BytesBalance()
      ensures if r.Some? then irq.gActive == old(irq.gActive) else EmptyTold()
      ensures r.Some? <==> old(gTxAllocBytes) + TX_HEADER + |payload| <= MAX_TX_BYTES && block.Some?
      ensures r.None? ==> heap == old(heap)
      ensures gTxOverflowFlag <==> old(gTxOverflowFlag) || r.None?
      ensures gTxBufferDiscarded == Bumped(old(gTxBufferDiscarded), old(gTxAllocBytes) + TX_HEADER + |payload| > MAX_TX_BYTES)
      ensures gTxBufferAllocFailed == Bumped(old(gTxBufferAllocFailed),
                                             old(gTxAllocBytes) + TX_HEADER + |payload| <= MAX_TX_BYTES && block.None?)
      ensures r.Some? ==> r == block && heap == old(heap)[r.value := TxPacketBuffer(|payload|, isSticky, 0, payload)]
    {
      var requiredBytes := TX_HEADER + |payload|;
      if gTxAllocBytes + requiredBytes > MAX_TX_BYTES {
        gTxOverflowFlag := true;
        gTxBufferDiscarded := (gTxBufferDiscarded + 1) % WRAP32;
        UpdateTxQueueState();
        return None;
      }
      if block == None {
        gTxOverflowFlag := true;
        gTxBufferAllocFailed := (gTxBufferAllocFailed + 1) % WRAP32;
        UpdateTxQueueState();
        return None;
      }
      var p := block.value;
      ghost var before := Sizes(heap);
      gTxAllocBytes := gTxAllocBytes + requiredBytes;
      heap := heap[p := TxPacketBuffer(|payload| % 0x1_0000, isSticky, 0, payload)];
      assert Sizes(heap) == before[p := requiredBytes];
      SumPut(before, p, requiredBytes);
      return block;
    }

    /** Allocate a buffer for later use; unless it is submitted the ledger does not notice. */
    method AllocSticky(payload: seq<byte>, block: Option<Ptr>) returns (r: Option<Ptr>)
      requires irq.Valid() && BytesBalance() && (block.Some? ==> block.value !in heap)
      modifies this`gTxAllocBytes, this`gTxOverflowFlag, this`gTxBufferDiscarded, this`gTxBufferAllocFailed, this`heap, irq
      ensures irq.Valid() && irq.Raised({TxQueueEmpty}) && BytesBalance()
      ensures if r.Some? then irq.gActive == old(irq.gActive) else EmptyTold()
      ensures r.Some? <==> old(gTxAllocBytes) + TX_HEADER + |payload| <= MAX_TX_BYTES && block.Some?
      ensures if r.Some? then r == block && heap == old(heap)[r.value := TxPacketBuffer(|payload|, true, 0, payload)]
              else heap == old(heap)
      ensures gTxOverflowFlag <==> old(gTxOverflowFlag) || r.None?
      ensures gTxBufferDiscarded == Bumped(old(gTxBufferDiscarded), old(gTxAllocBytes) + TX_HEADER + |payload| > MAX_TX_BYTES)
      ensures gTxBufferAllocFailed == Bumped(old(gTxBufferAllocFailed),
                                             old(gTxAllocBytes) + TX_HEADER + |payload| <= MAX_TX_BYTES && block.None?)
      ensures old(Valid()) ==> Valid()
      ensures old(Wedged()) ==> Wedged()
    {
      hide Outstanding, Run, Sizes, Sum, HeapMatches, Pending, Counted, BytesBalance;
      ghost var before := heap;
      r := AllocTxPacket(payload, true, block);
      if old(Valid() || Wedged()) && r.Some? {
        if |model.queues| == CLASSES && HeapMatches(before, model, {}) {
          HeapAfterAlloc(before, model, r.value, heap[r.value]);
        }
      }
    }

    /** Release a transmitted packet: free it unless it is sticky, and count it off. */
    method DiscardTxPacket(p: Ptr, force: bool)
      requires irq.Valid() && BytesBalance() && p in heap
      modifies this`gTxAllocBytes, this`gTxPacketsPending, this`heap, irq
      ensures irq.Valid() && BytesBalance() && irq.Raised({TxQueueEmpty})
      ensures heap == if old(heap)[p].isSticky && !force then old(heap) else old(heap) - {p}
      ensures !force ==> StickyStay()
      ensures gTxAllocBytes == old(gTxAllocBytes)
                               - (if old(heap)[p].isSticky && !force then 0 else TX_HEADER + old(heap)[p].packetSize)
      ensures gTxPacketsPending == (old(gTxPacketsPending) + WRAP32 - 1) % WRAP32
      ensures EmptyTold()
    {
      var buffer := heap[p];
      if !buffer.isSticky || force {
        ghost var before := Sizes(heap);
        heap := heap - {p};
        assert Sizes(heap) == before - {p};
        SumRemove(before, p);
        gTxAllocBytes := gTxAllocBytes - (TX_HEADER + buffer.packetSize);
      }
      gTxPacketsPending := (gTxPacketsPending + WRAP32 - 1) % WRAP32;
      UpdateTxQueueState();
    }

    /** Common end of both submissions: start at once if nothing is pending, else join the queue. */
    method QueueTxPacketFinal(c: nat, p: Ptr, radio: Radio) returns (err: int)
      requires irq.Valid() && BytesBalance() && |gTxQueues| == CLASSES && c < CLASSES && p in heap
      modifies this`heap, this`gTxPacketsPending, this`gTxQueues, this`gLastTx, this`gTxFifoDrops, this`criticalNesting,
               this`onAir, this`asked, this`submitted, irq
      ensures irq.Valid() && irq.Raised({TxQueueEmpty}) && BytesBalance() && EmptyTold()
      ensures heap == if old(heap)[p].isSticky then old(heap)[p := old(heap)[p].(csmaFailCount := 0)] else old(heap)
      ensures gTxPacketsPending == (old(gTxPacketsPending) + 1) % WRAP32
      ensures err == 0 <==> old(gTxPacketsPending) > 0 || radio.Starts?
      ensures submitted == old(submitted) + 1
      ensures gTxFifoDrops == Bumped(old(gTxFifoDrops), old(gTxPacketsPending) == 0 && radio.FifoFull?)
      ensures old(gTxPacketsPending) > 0 ==>
                && gTxQueues == old(gTxQueues)[c := old(gTxQueues)[c] + [p]]
                && gLastTx == old(gLastTx) && onAir == old(onAir) && asked == old(asked)
                && criticalNesting == old(criticalNesting)
      ensures old(gTxPacketsPending) == 0 ==> gTxQueues == old(gTxQueues) && asked == old(asked) + 1
      ensures old(gTxPacketsPending) == 0 && err == 0 ==>
                && gLastTx == Some(p) && onAir == old(onAir) + [Transmission(Job(c, p), false)]
                && criticalNesting == old(criticalNesting)
      ensures err != 0 ==>
                gLastTx == old(gLastTx) && onAir == old(onAir) && criticalNesting == old(criticalNesting) + 1
    {
      hide Sizes, Sum;
      err := 0;
      if heap[p].isSticky {
        heap := heap[p := heap[p].(csmaFailCount := 0)];
        SameSizes(old(heap), heap);
      }
      var wasPending := gTxPacketsPending;
      gTxPacketsPending := (gTxPacketsPending + 1) % WRAP32;
      submitted := submitted + 1;
      if wasPending == 0 {
        err := TxPacketImmediate(p, radio, Transmission(Job(c, p), false));
      } else {
        gTxQueues := gTxQueues[c := gTxQueues[c] + [p]];
      }
      UpdateTxQueueState();
    }

    /** An accepted packet is on the air if nothing was pending, else at the end of its class's queue; a
        refused one is nowhere. */
    twostate predicate Placed(c: nat, p: Ptr, ok: bool)
      reads this`gTxPacketsPending, this`gTxQueues, this`gLastTx
    {
      var start := old(gTxPacketsPending) == 0;
      && gTxPacketsPending == old(gTxPacketsPending) + (if ok then 1 else 0)
      && gTxQueues == (if ok && !start && c < |old(gTxQueues)| then old(gTxQueues)[c := old(gTxQueues)[c] + [p]]
                       else old(gTxQueues))
      && gLastTx == if ok && start then Some(p) else old(gLastTx)
    }

    /** What asking the radio for a start, or not, does to the count of full FIFOs and to the critical
        section, which a failed start never leaves. */
    twostate predicate Tried(asks: bool, radio: Radio)
      reads this`gTxFifoDrops, this`criticalNesting
    {
      && gTxFifoDrops == Bumped(old(gTxFifoDrops), asks && radio.FifoFull?)
      && criticalNesting == old(criticalNesting) + if asks && !radio.Starts? then 1 else 0
    }

    /** Interrupts of others do not concern the transmit side. */
    twostate lemma Undisturbed()
      requires unchanged(this) && irq.Valid()
      ensures old(Valid()) ==> Valid()
      ensures old(Wedged()) ==> Wedged()
    {
    }

    /** Memory and statistics are not part of the ledger. */
    twostate lemma LedgerUntouched(h: map<Ptr, TxPacketBuffer>)
      requires unchanged(this`panicked, this`events, this`model, this`onAir, this`asked, this`submitted, this`gTxQueues,
                         this`gLastTx, this`gTxPacketsPending)
      requires irq.Valid()
      ensures old(Sound(h)) ==> Sound(h)
      ensures old(Stuck(h)) ==> Stuck(h)
    {
      hide Run, HeapMatches, Core, Pending;
    }

    /** A handler cannot be both sound and wedged, nor either of them with a broken counter. */
    lemma ValidIsNotWedged()
      ensures !(Valid() && Wedged())
      ensures Broken() ==> !Valid() && !Wedged()
    {
      hide Run, HeapMatches, BytesBalance;
    }

    /** The counter of a sound or wedged handler. */
    lemma Counting()
      requires Valid() || Wedged()
      ensures irq.Valid() && !panicked && BytesBalance() && |gTxQueues| == CLASSES && InQueues() <= CLASSES * MAX_QUEUE
      ensures forall c :: 0 <= c < CLASSES ==> |gTxQueues[c]| <= MAX_QUEUE
      ensures gTxPacketsPending == InQueues() + 1 || (gTxPacketsPending == InQueues() == 0 && gLastTx == None)
      ensures Valid() <==> Moving()
    {
      hide Run, HeapMatches, Counted, Sizes, Sum;
    }

    /** Something on the air means the transmitter is not wedged. */
    lemma OnAirIsSound()
      requires (Valid() || Wedged()) && gLastTx.Some?
      ensures Valid()
    {
    }

    /** Counting off one buffer too many repairs a wedged handler with nothing queued. */
    twostate lemma Repaired(p: Ptr)
      requires old(Wedged()) && old(Stranded()) && gTxPacketsPending == 0 && heap == old(heap) - {p}
      requires unchanged(this`panicked, this`events, this`model, this`onAir, this`asked, this`submitted, this`gTxQueues,
                         this`gLastTx)
      requires BytesBalance() && irq.Valid()
      ensures Valid()
    {
      hide Run, HeapMatches, Counted, Sizes, Sum, BytesBalance;
      HeapOfIdle(old(heap), heap, model);
    }

    /** A class's queue is full: flag and count it. */
    method RejectFull()
      requires Valid() || Wedged()
      modifies this`gTxOverflowFlag, this`gTxQueueDiscarded, irq
      ensures irq.Raised({TxQueueEmpty}) && EmptyTold()
      ensures gTxOverflowFlag && gTxQueueDiscarded == Bumped(old(gTxQueueDiscarded), true)
      ensures old(Valid()) ==> Valid()
      ensures old(Wedged()) ==> Wedged()
    {
      hide Sound, Stuck;
      Counting();
      gTxOverflowFlag := true;
      gTxQueueDiscarded := (gTxQueueDiscarded + 1) % WRAP32;
      UpdateTxQueueState();
      LedgerUntouched(heap);
    }

    /** Submit an allocated sticky packet again.  A failed immediate start leaves the pending counter
        raised: the ledger survives exactly when the queue was full, something was pending, or the radio
        starts. */
    method QueueSticky(c: nat, p: Ptr, radio: Radio) returns (err: int)
      requires (Valid() || Wedged()) && c < CLASSES && p in heap && heap[p].isSticky
      modifies this`heap, this`gTxAllocBytes, this`gTxPacketsPending, this`gTxQueues, this`gLastTx, this`gTxFifoDrops,
               this`criticalNesting, this`onAir, this`asked, this`submitted, this`events, this`model,
               this`gTxOverflowFlag, this`gTxQueueDiscarded, irq
      ensures irq.Raised({TxQueueEmpty}) && EmptyTold()
      ensures heap == if |old(gTxQueues)[c]| == MAX_QUEUE then old(heap) else old(heap)[p := old(heap)[p].(csmaFailCount := 0)]
      ensures old(Wedged()) ==> Wedged() && onAir == old(onAir) && events == old(events)
      ensures old(Valid()) ==>
                if |old(gTxQueues)[c]| == MAX_QUEUE || old(gTxPacketsPending) > 0 || radio.Starts? then Valid()
                else Wedged() && Stranded() && onAir == old(onAir)
      ensures |old(gTxQueues)[c]| == MAX_QUEUE ==> err != 0
      ensures gTxOverflowFlag <==> old(gTxOverflowFlag) || |old(gTxQueues)[c]| == MAX_QUEUE
      ensures |old(gTxQueues)[c]| < MAX_QUEUE ==> (err == 0 <==> old(gTxPacketsPending) > 0 || radio.Starts?)
      ensures old(Valid()) ==> events == if err == 0 then old(events) + [Accept(c, p)] else old(events)
      ensures gTxQueueDiscarded == Bumped(old(gTxQueueDiscarded), |old(gTxQueues)[c]| == MAX_QUEUE)
      ensures submitted == old(submitted) + if |old(gTxQueues)[c]| < MAX_QUEUE then 1 else 0
      ensures Tried(|old(gTxQueues)[c]| < MAX_QUEUE && old(gTxPacketsPending) == 0, radio)
    {
      hide Valid, Wedged;
      Counting();
      ValidIsNotWedged();
      if |gTxQueues[c]| == MAX_QUEUE {
        RejectFull();
        ValidIsNotWedged();
        return -1;
      }
      err := SubmitSticky(c, p, radio);
    }

    /** The second half of `QueueSticky`, with room in the queue. */
    method SubmitSticky(c: nat, p: Ptr, radio: Radio) returns (err: int)
      requires (Valid() || Wedged()) && c < CLASSES && p in heap && heap[p].isSticky && |gTxQueues[c]| < MAX_QUEUE
      modifies this`heap, this`gTxAllocBytes, this`gTxPacketsPending, this`gTxQueues, this`gLastTx, this`gTxFifoDrops,
               this`criticalNesting, this`onAir, this`asked, this`submitted, this`events, this`model, irq
      ensures irq.Raised({TxQueueEmpty}) && EmptyTold()
      ensures heap == old(heap)[p := old(heap)[p].(csmaFailCount := 0)]
      ensures old(Wedged()) ==> Wedged() && onAir == old(onAir) && events == old(events)
      ensures err == 0 <==> old(gTxPacketsPending) > 0 || radio.Starts?
      ensures submitted == old(submitted) + 1 && Tried(old(gTxPacketsPending) == 0, radio)
      ensures old(Valid()) ==> if err == 0 then Valid() else Wedged() && Stranded() && onAir == old(onAir)
      ensures old(Valid()) ==> events == if err == 0 then old(events) + [Accept(c, p)] else old(events)
    {
      hide Step, Outstanding, Waiting, Counted, Run, Sizes, Sum, HeapMatches;
      ghost var before := heap;
      ValidIsNotWedged();
      if Valid() {
        PendingIsSmall(model);
        AttemptsAreBounded(events);
      }
      err := QueueTxPacketFinal(c, p, radio);
      if old(Valid()) {
        if err == 0 {
          Accepted(c, p, before, {});
        } else {
          HeapOfIdle(before, heap, model);
        }
      }
    }

    /** Bring the reference scheduler up to date with a packet that was just started or queued. */
    ghost method Accepted(c: nat, p: Ptr, before: map<Ptr, TxPacketBuffer>, loose: set<Ptr>)
      requires irq.Valid() && !panicked && BytesBalance() && model == Run(events)
      requires c < CLASSES && |model.queues[c]| < MAX_QUEUE
      requires if model.current.None? then
                 && gTxQueues == model.queues && gLastTx == Some(p)
                 && onAir == model.air + [Transmission(Job(c, p), false)]
                 && asked + |model.accepted| + 1 == submitted + |onAir| && |model.accepted| < submitted
               else
                 && gTxQueues == model.queues[c := model.queues[c] + [p]] && gLastTx == OnAirPtr(model) && onAir == model.air
                 && asked + |model.accepted| + 1 == submitted + |onAir| && |model.accepted| < submitted
      requires HeapMatches(before, model, loose) && p in before && loose <= {p} && (before[p].isSticky || p in loose)
      requires heap == before[p := before[p].(csmaFailCount := 0)] && gTxPacketsPending == Pending(model) + 1
      modifies this`events, this`model
      ensures Valid() && events == old(events) + [Accept(c, p)]
    {
      hide Step, Outstanding, Waiting, Counted, HeapMatches, Run, Pending, Sizes, Sum;
      HeapAfterAccept(before, model, c, p, loose);
      AcceptFacts(model, c, p);
      RunSnoc(events, Accept(c, p));
      events := events + [Accept(c, p)];
      model := Run(events);
    }

    /** The class's queue of 16, the pool of 4096 bytes and the C heap can all take a payload of n bytes
        and its four-byte header. */
    ghost predicate HasRoom(c: nat, n: nat, block: Option<Ptr>)
      requires c < |gTxQueues|
      reads this
    {
      |gTxQueues[c]| < 16 && block.Some? && gTxAllocBytes + 4 + n <= 4096
    }

    /** Submit a payload.  Refusals, exhausted memory and failed starts leave the ledger as it was; an
        accepted packet is a new buffer that the scheduler has seen. */
    method QueueTxPacket(c: nat, payload: seq<byte>, isSticky: bool, block: Option<Ptr>, radio: Radio) returns (r: Option<Ptr>)
      requires (Valid() || Wedged()) && c < CLASSES && (block.Some? ==> block.value !in heap)
      modifies this`heap, this`gTxAllocBytes, this`gTxPacketsPending, this`gTxQueues, this`gLastTx, this`gTxFifoDrops,
               this`criticalNesting, this`onAir, this`asked, this`submitted, this`events, this`model,
               this`gTxOverflowFlag, this`gTxBufferDiscarded, this`gTxBufferAllocFailed, this`gTxQueueDiscarded, irq
      ensures irq.Raised({TxQueueEmpty}) && EmptyTold()
      ensures old(Wedged()) ==> Wedged() && onAir == old(onAir) && events == old(events)
      ensures old(Valid()) ==> Valid()
      ensures r.Some? <==> old(HasRoom(c, |payload|, block)) && (old(gTxPacketsPending) > 0 || radio.Starts?)
      ensures r.None? ==> heap == old(heap)
      ensures r.Some? ==> r == block && heap == old(heap)[r.value := TxPacketBuffer(|payload|, isSticky, 0, payload)]
      ensures old(Valid()) ==> events == if r.Some? then old(events) + [Accept(c, r.value)] else old(events)
      ensures gTxOverflowFlag <==> old(gTxOverflowFlag) || !old(HasRoom(c, |payload|, block))
      ensures gTxQueueDiscarded == Bumped(old(gTxQueueDiscarded), |old(gTxQueues)[c]| == MAX_QUEUE)
      ensures var full, over := |old(gTxQueues)[c]| == MAX_QUEUE, old(gTxAllocBytes) + TX_HEADER + |payload| > MAX_TX_BYTES;
              && gTxBufferDiscarded == Bumped(old(gTxBufferDiscarded), !full && over)
              && gTxBufferAllocFailed == Bumped(old(gTxBufferAllocFailed), !full && !over && block.None?)
      ensures submitted == old(submitted) + if old(HasRoom(c, |payload|, block)) then 1 else 0
      ensures Placed(c, if block.Some? then block.value else 0, r.Some?)
      ensures Tried(old(HasRoom(c, |payload|, block)) && old(gTxPacketsPending) == 0, radio)
    {
      hide Sound, Stuck, BytesBalance, InQueues,
           IrqManager.Valid;
      Counting();
      if |gTxQueues[c]| == MAX_QUEUE {
        RejectFull();
        return None;
      }
      ghost var before := heap;
      r := AllocTxPacket(payload, isSticky, block);
      LedgerUntouched(before);
      if r == None {
        return;
      }
      var err := SubmitNew(c, r.value, radio, before);
      if err != 0 {
        r := None;
      }
    }

    /** The second half of `QueueTxPacket`: enqueue or transmit the new buffer, and take it back if the
        start failed.  `before` is the heap without it. */
    method SubmitNew(c: nat, p: Ptr, radio: Radio, ghost before: map<Ptr, TxPacketBuffer>) returns (err: int)
      requires BytesBalance() && (Sound(before) || Stuck(before))
      requires p in heap && p !in before && heap == before[p := heap[p]] && heap[p].csmaFailCount == 0
      requires c < CLASSES && |gTxQueues[c]| < MAX_QUEUE
      modifies this`heap, this`gTxAllocBytes, this`gTxPacketsPending, this`gTxQueues, this`gLastTx, this`gTxFifoDrops,
               this`criticalNesting, this`onAir, this`asked, this`submitted, this`events, this`model, irq
      ensures irq.Raised({TxQueueEmpty}) && EmptyTold()
      ensures old(Stuck(before)) ==> Wedged() && onAir == old(onAir) && events == old(events)
      ensures old(Sound(before)) ==> Valid()
      ensures heap == if err == 0 then old(heap) else before
      ensures old(Sound(before)) ==> events == if err == 0 then old(events) + [Accept(c, p)] else old(events)
      ensures err == 0 <==> old(gTxPacketsPending) > 0 || radio.Starts?
      ensures submitted == old(submitted) + 1 && Placed(c, p, err == 0) && Tried(old(gTxPacketsPending) == 0, radio)
    {
      hide Step, Outstanding, Waiting, Counted, Run, Sizes, Sum, HeapMatches, BytesBalance, IrqManager.Valid,
           Stickies, Pending;
      ghost var sound := Sound(before);
      if sound {
        PendingIsSmall(model);
      }
      err := EnqueueOrTakeBack(c, p, radio);
      if err != 0 {
        assert heap == before;
      } else if sound {
        HeapAfterAlloc(before, model, p, heap[p]);
        Accepted(c, p, heap, if heap[p].isSticky then {} else {p});
      }
    }

    /** Enqueue or transmit a new buffer; if the start failed, free it and count it off. */
    method EnqueueOrTakeBack(c: nat, p: Ptr, radio: Radio) returns (err: int)
      requires irq.Valid() && BytesBalance() && |gTxQueues| == CLASSES && c < CLASSES && gTxPacketsPending < WRAP32 - 1
      requires p in heap && heap[p].csmaFailCount == 0
      modifies this`heap, this`gTxAllocBytes, this`gTxPacketsPending, this`gTxQueues, this`gLastTx, this`gTxFifoDrops,
               this`criticalNesting, this`onAir, this`asked, this`submitted, irq
      ensures irq.Valid() && irq.Raised({TxQueueEmpty}) && EmptyTold() && BytesBalance()
      ensures heap == if err == 0 then old(heap) else old(heap) - {p}
      ensures err == 0 <==> old(gTxPacketsPending) > 0 || radio.Starts?
      ensures submitted == old(submitted) + 1 && Placed(c, p, err == 0) && Tried(old(gTxPacketsPending) == 0, radio)
      ensures asked == old(asked) + if old(gTxPacketsPending) == 0 then 1 else 0
      ensures onAir == old(onAir)
                       + if old(gTxPacketsPending) == 0 && err == 0 then [Transmission(Job(c, p), false)] else []
    {
      hide BytesBalance, IrqManager.Valid, Stickies;
      err := QueueTxPacketFinal(c, p, radio);
      assert heap == old(heap) == old(heap)[p := old(heap)[p].(csmaFailCount := 0)];
      assert old(onAir) + [] == old(onAir);
      if err != 0 {
        DiscardTxPacket(p, true);
      }
    }

    /** Sticky buffers outlive whatever the radio reports. */
    twostate predicate StickyStay()
      reads this`heap
    {
      Stickies(old(heap)) <= Stickies(heap)
    }

    /** The packet on the air is done: release it and start the next one.  `s` is the scheduler state
        with any failure already recorded, `e` the radio report being handled. */
    method HandleTxComplete(ghost s: Sched, ghost e: Event, radio: Radio)
      requires irq.Valid() && !panicked && BytesBalance() && model == Run(events)
      requires Follows(s, heap) && s.current.Some? && gTxPacketsPending == Pending(s) && gLastTx.Some?
      requires Step(model, e) == Complete(s) && s.accepted == model.accepted && Tallied()
      modifies this`gTxAllocBytes, this`heap, this`gTxPacketsPending, this`gTxQueues, this`gLastTx, this`gTxFifoDrops,
               this`criticalNesting, this`onAir, this`asked, this`panicked, this`events, this`model, irq
      ensures irq.Raised({TxQueueEmpty}) && EmptyTold()
      ensures panicked <==> old(gTxPacketsPending) > 1 && !radio.Starts?
      ensures old(gLastTx).value in old(heap) && heap == Freed(old(heap), old(gLastTx).value)
      ensures Tried(old(gTxPacketsPending) > 1, radio)
      ensures !panicked ==> Valid() && events == old(events) + [e]
      ensures StickyStay()
    {
      hide Step, Outstanding, Waiting, Counted, Run, Sizes, Sum, HeapMatches, Complete, Pending, TopClass, Core, Inv, Stickies,
           BytesBalance, IrqManager.Valid, StickyStay, Failed, Again;
      FourQueues(s);
      HeapAfterComplete(heap, s);
      CompleteFacts(s);
      PendingIsSmall(s);
      ghost var t := Complete(s);
      DiscardTxPacket(gLastTx.value, false);
      gLastTx := None;
      StartNext(s, radio);
      if panicked {
        return;
      }
      Reported(t, e);
    }

    /** The second half of `HandleTxComplete`: if anything is pending, pop it and transmit it. */
    method StartNext(ghost s: Sched, radio: Radio)
      requires Core(s) && s.current.Some? && gTxQueues == s.queues && onAir == s.air && gLastTx == None && !panicked
      requires gTxPacketsPending == Pending(s) - 1 && |Complete(s).queues| == CLASSES && HeapMatches(heap, Complete(s), {})
      modifies this`gTxQueues, this`gLastTx, this`gTxFifoDrops, this`criticalNesting, this`onAir, this`asked, this`panicked
      ensures panicked <==> gTxPacketsPending > 0 && !radio.Starts?
      ensures !panicked ==> Follows(Complete(s), heap) && gTxPacketsPending == Pending(Complete(s))
      ensures !panicked ==> asked + |old(onAir)| == old(asked) + |onAir|
      ensures Tried(gTxPacketsPending > 0, radio)
    {
      hide TopClass, Complete, HeapMatches, Core, Pending, Outstanding;
      FourQueues(s);
      CompleteFacts(s);
      ghost var t := Complete(s);
      var empty := gTxPacketsPending == 0;
      if !empty {
        var next := PopTxQueue();
        assert next.Some?;   // the "failed to pop tx packet" panic cannot happen
        NextIsAlive(heap, t);
        var err := TxPacketImmediate(next.value, radio, Transmission(t.current.value, false));
        if err != 0 {
          panicked := true;
        }
      }
    }

    /** Bring the reference scheduler up to date with a radio report that leads to state `t`. */
    ghost method Reported(t: Sched, e: Event)
      requires irq.Valid() && !panicked && BytesBalance() && model == Run(events)
      requires Step(model, e) == t && Core(t) && Follows(t, heap) && gTxPacketsPending == Pending(t)
      requires asked + |t.accepted| == submitted + |onAir| && |t.accepted| <= submitted
      modifies this`events, this`model
      ensures Valid() && events == old(events) + [e]
    {
      hide Step, Core, HeapMatches, Run, Pending, Sizes, Sum;
      RunSnoc(events, e);
      events := events + [e];
      model := Run(events);
    }

    /** The radio reports the packet as sent. */
    method OnPacketTransmitted(radio: Radio)
      requires Valid() && gLastTx.Some?
      modifies this`gTxAllocBytes, this`heap, this`gTxPacketsPending, this`gTxQueues, this`gLastTx, this`gTxFifoDrops,
               this`criticalNesting, this`onAir, this`asked, this`panicked, this`events, this`model, this`gTxFrames, irq
      ensures irq.Raised({TxQueueEmpty}) && EmptyTold()
      ensures panicked <==> old(gTxPacketsPending) > 1 && !radio.Starts?
      ensures old(gLastTx).value in old(heap) && heap == Freed(old(heap), old(gLastTx).value)
      ensures Tried(old(gTxPacketsPending) > 1, radio)
      ensures !panicked ==> Valid() && events == old(events) + [Sent]
      ensures StickyStay() && gTxFrames == Bumped(old(gTxFrames), true)
    {
      hide Run, Pending, HeapMatches, Core, BytesBalance, Stickies;
      HandleTxComplete(model, Sent, radio);
      gTxFrames := (gTxFrames + 1) % WRAP32;
    }

    /** The packet on the air may fail once more without being dropped. */
    ghost predicate RetriesLeft()
      reads this`gLastTx, this`heap
    {
      gLastTx.Some? && gLastTx.value in heap && heap[gLastTx.value].csmaFailCount + 1 < MAX_CSMA_FAILS
    }

    /** The radio found the channel busy: retry, or drop the packet at the fifth failure. */
    method OnTxChannelBusy(radio: Radio)
      requires Valid() && gLastTx.Some?
      modifies this`gTxAllocBytes, this`heap, this`gTxPacketsPending, this`gTxQueues, this`gLastTx, this`gTxFifoDrops,
               this`criticalNesting, this`onAir, this`asked, this`panicked, this`events, this`model, this`gTxCcaFails, irq
      ensures irq.Raised({TxQueueEmpty}) && EmptyTold()
      ensures panicked <==> !radio.Starts? && (old(RetriesLeft()) || old(gTxPacketsPending) > 1)
      ensures old(gLastTx).value in old(heap)
      ensures var failed := Struck(old(heap), old(gLastTx).value);
              heap == if old(RetriesLeft()) then failed else Freed(failed, old(gLastTx).value)
      ensures Tried(old(RetriesLeft()) || old(gTxPacketsPending) > 1, radio)
      ensures !panicked ==> Valid() && events == old(events) + [Busy]
      ensures StickyStay() && gTxCcaFails == Bumped(old(gTxCcaFails), true)
    {
      hide Step, Outstanding, Waiting, Counted, Run, Sizes, Sum, HeapMatches, Complete, Core, Inv, Pending, Stickies,
           Tallied, BytesBalance, IrqManager.Valid;
      gTxCcaFails := (gTxCcaFails + 1) % WRAP32;
      HeapAfterFailure(heap, model);
      FailCountsFit(events, gLastTx.value);
      BusyStep(model);
      CountFailure();
      ghost var s := Failed(model);
      if heap[gLastTx.value].csmaFailCount < MAX_CSMA_FAILS {
        Retry(s, radio);
      } else {
        HandleTxComplete(s, Busy, radio);
      }
    }

    /** Another attempt at the packet on the air, its failure already recorded in `s`. */
    method Retry(ghost s: Sched, radio: Radio)
      requires irq.Valid() && !panicked && BytesBalance() && model == Run(events)
      requires Follows(s, heap) && s.current.Some? && gTxPacketsPending == Pending(s) && gLastTx.Some? && gLastTx.value in heap
      requires var t := Again(s); Step(model, Busy) == t && Core(t) && Pending(t) == Pending(s)
      requires s.accepted == model.accepted && Tallied() && onAir == model.air
      modifies this`gLastTx, this`gTxFifoDrops, this`criticalNesting, this`onAir, this`asked, this`panicked, this`events,
               this`model
      ensures (panicked <==> !radio.Starts?) && Tried(true, radio)
      ensures !panicked ==> Valid() && events == old(events) + [Busy]
    {
      hide Step, Outstanding, Waiting, Counted, Run, Sizes, Sum, HeapMatches, Core, Inv, Pending;
      FourQueues(s);
      var err := TxPacketImmediate(gLastTx.value, radio, Transmission(s.current.value, true));
      if err != 0 {
        panicked := true;
        return;
      }
      HeapIgnoresAir(heap, s, Again(s).air);
      Reported(Again(s), Busy);
    }

    /** Raise the eight-bit failure count of the packet on the air. */
    method CountFailure()
      requires gLastTx.Some? && gLastTx.value in heap && BytesBalance() && heap[gLastTx.value].csmaFailCount < 0xFF
      modifies this`heap
      ensures BytesBalance() && StickyStay()
      ensures heap == Struck(old(heap), gLastTx.value)
    {
      var p := gLastTx.value;
      heap := heap[p := heap[p].(csmaFailCount := (heap[p].csmaFailCount + 1) % 0x100)];
      SameSizes(old(heap), heap);
    }

    /** The three counters of packets lost. */
    function Discards(): nat
      reads this`gTxQueueDiscarded, this`gTxBufferDiscarded, this`gTxBufferAllocFailed
    {
      gTxQueueDiscarded + gTxBufferDiscarded + gTxBufferAllocFailed
    }

    function QueueNow(): QueueCounters
      reads this
    {
      QueueCounters(gTxPacketsPending, gTxAllocBytes, gTxBufferDiscarded, gTxBufferAllocFailed, gTxQueueDiscarded)
    }

    function RadioNow(): TxRadioCounters
      reads this
    {
      TxRadioCounters(gTxFifoDrops, gTxCcaFails, gTxFrames)
    }

    /** Report the queue statistics and clear them. */
    method ReadCounters() returns (queue: QueueCounters)
      requires Valid() || Wedged()
      modifies this`gTxBufferDiscarded, this`gTxBufferAllocFailed, this`gTxQueueDiscarded
      ensures old(Valid()) ==> Valid()
      ensures old(Wedged()) ==> Wedged()
      ensures queue == old(QueueNow())
      ensures queue.packetsPending == gTxPacketsPending == old(gTxPacketsPending) && queue.bufferSize == gTxAllocBytes
      ensures queue.bufferDiscards == old(gTxBufferDiscarded) && queue.bufferAllocFails == old(gTxBufferAllocFailed)
      ensures queue.queueDiscards == old(gTxQueueDiscarded)
      ensures gTxBufferDiscarded == gTxBufferAllocFailed == gTxQueueDiscarded == 0
    {
      hide Sound, Stuck;
      Counting();
      queue := QueueNow();
      gTxBufferDiscarded, gTxBufferAllocFailed, gTxQueueDiscarded := 0, 0, 0;
      LedgerUntouched(heap);
    }

    /** Report the radio's transmit statistics and clear them. */
    method ReadRadioCounters() returns (radio: TxRadioCounters)
      requires Valid() || Wedged()
      modifies this`gTxFifoDrops, this`gTxCcaFails, this`gTxFrames
      ensures old(Valid()) ==> Valid()
      ensures old(Wedged()) ==> Wedged()
      ensures radio == old(RadioNow())
      ensures radio.fifoDrops == old(gTxFifoDrops) && radio.ccaFails == old(gTxCcaFails) && radio.goodFrames == old(gTxFrames)
      ensures gTxFifoDrops == gTxCcaFails == gTxFrames == 0
    {
      hide Sound, Stuck;
      Counting();
      radio := RadioNow();
      gTxFifoDrops, gTxCcaFails, gTxFrames := 0, 0, 0;
      LedgerUntouched(heap);
    }

    /** What the ledger means for a sound handler, whatever happened before: nothing on the air exactly
        when nothing is pending; each class's accepted packets are those whose first transmission is on
        record, in order, followed by its real queue; at most five transmissions per accepted packet, and
        at most five requests to the radio per submission, refused ones included; and once nothing is
        pending only sticky buffers are allocated. */
    lemma Guarantees(c: nat)
      requires Valid() && c < CLASSES
      ensures gLastTx == None <==> gTxPacketsPending == 0
      ensures gTxPacketsPending == InQueues() + if gLastTx.Some? then 1 else 0
      ensures OfClass(model.accepted, c) == Started(onAir, c) + gTxQueues[c]
      ensures |onAir| <= 5 * |model.accepted|
      ensures asked <= 5 * submitted && submitted + |onAir| == |model.accepted| + asked
      ensures gTxPacketsPending == 0 ==> forall p <- heap :: heap[p].isSticky
      ensures gTxAllocBytes <= MAX_TX_BYTES
    {
      hide Outstanding, Run;
      PendingIsSmall(model);
      ClassesAreFifo(events, c);
      AttemptsAreBounded(events);
      if gTxPacketsPending == 0 {
        HeapOfIdle(heap, heap, model);
      }
    }

    /** Every transmission of a sound handler is another attempt at the packet on the air, or the first
        of a packet with every higher queue empty. */
    twostate lemma StartsRespectPriority(e: Event)
      requires old(Valid()) && Valid() && events == old(events) + [e]
      ensures || onAir == old(onAir)
              || (exists t: Transmission ::
                    && onAir == old(onAir) + [t] && gLastTx == Some(t.job.ptr)
                    && if t.retry then old(gLastTx) == gLastTx && gTxQueues == old(gTxQueues)
                       else forall d :: t.job.cls < d < CLASSES ==> gTxQueues[d] == [])
    {
      hide Run, HeapMatches, Core, BytesBalance, Pending;
      PriorityIsRespected(old(events), e);
      FourQueues(model);
      if onAir != old(onAir) {
        var t := onAir[|onAir| - 1];
        assert onAir == old(onAir) + [t];
      }
    }

    /** With no new submissions, any radio reports drain the handler: after five reports per pending
        packet nothing is pending and the host has been told, unless the radio refused a start. */
    method Drain(reports: seq<Report>)
      requires Valid() && |reports| >= MAX_CSMA_FAILS * gTxPacketsPending > 0
      modifies this, irq
      ensures irq.Raised({TxQueueEmpty}) && EmptyTold() && StickyStay()
      ensures (forall r <- reports :: r.radio.Starts?) ==> !panicked
      ensures !panicked ==> Valid() && gTxPacketsPending == 0 && TxQueueEmpty in irq.gActive
    {
      hide Run, HeapMatches, BytesBalance;
      var i := 0;
      WorkIsSmall(model);
      while i < |reports| && gTxPacketsPending > 0
        invariant 0 <= i <= |reports| && Valid() && irq.Raised({TxQueueEmpty}) && StickyStay()
        invariant EmptyTold()
        invariant gTxPacketsPending > 0 ==> Work(model) <= |reports| - i
      {
        ghost var e := if reports[i].sent then Sent else Busy;
        PendingIsSmall(model);
        ReportsReduceWork(model, e);
        RunSnoc(events, e);
        OnReport(reports[i]);
        if panicked {
          return;
        }
        WorkIsSmall(model);
        i := i + 1;
      }
    }

    method OnReport(report: Report)
      requires Valid() && gLastTx.Some?
      modifies this`gTxAllocBytes, this`heap, this`gTxPacketsPending, this`gTxQueues, this`gLastTx, this`gTxFifoDrops,
               this`criticalNesting, this`onAir, this`asked, this`panicked, this`events, this`model, this`gTxFrames,
               this`gTxCcaFails, irq
      ensures irq.Raised({TxQueueEmpty}) && EmptyTold() && StickyStay()
      ensures panicked <==>
                !report.radio.Starts? && (old(gTxPacketsPending) > 1 || (!report.sent && old(RetriesLeft())))
      ensures old(gLastTx).value in old(heap)
      ensures heap == if report.sent then Freed(old(heap), old(gLastTx).value)
                      else if old(RetriesLeft()) then Struck(old(heap), old(gLastTx).value)
                      else Freed(Struck(old(heap), old(gLastTx).value), old(gLastTx).value)
      ensures !panicked ==> Valid() && events == old(events) + [if report.sent then Sent else Busy]
      ensures gTxFrames == Bumped(old(gTxFrames), report.sent)
    {
      hide Valid;
      if report.sent {
        OnPacketTransmitted(report.radio);
      } else {
        OnTxChannelBusy(report.radio);
      }
    }
  }

  function Stickies(heap: map<Ptr, TxPacketBuffer>): (ps: set<Ptr>)
    ensures forall p :: p in ps <==> p in heap && heap[p].isSticky
  {
    set p | p in heap && heap[p].isSticky
  }

  /** The radio's verdict on the packet on the air, and what it will make of the start that follows. */
  datatype Report = Report(sent: bool, radio: Radio)

  /** What the host is told about a queue: packets and bytes now, packets lost by cause. */
  datatype QueueCounters = QueueCounters(packetsPending: nat, bufferSize: nat, bufferDiscards: nat,
                                         bufferAllocFails: nat, queueDiscards: nat)

  datatype TxRadioCounters = TxRadioCounters(fifoDrops: nat, ccaFails: nat, goodFrames: nat)

  lemma EmptyQueues(queues: seq<seq<Ptr>>)
    requires queues == [[], [], [], []]
    ensures Waiting(queues) == multiset{}
  {
  }

  lemma FourQueues(s: Sched)
    requires Core(s)
    ensures |s.queues| == CLASSES
  {
  }

  lemma NextIsAlive(heap: map<Ptr, TxPacketBuffer>, t: Sched)
    requires |t.queues| == CLASSES && HeapMatches(heap, t, {}) && t.current.Some?
    ensures t.current.value.ptr in heap
  {
    assert t.current.value.ptr in Outstanding(t);
  }

  lemma HeapIgnoresAir(heap: map<Ptr, TxPacketBuffer>, s: Sched, air: seq<Transmission>)
    requires |s.queues| == CLASSES && HeapMatches(heap, s, {})
    ensures HeapMatches(heap, s.(air := air), {})
  {
    assert Outstanding(s.(air := air)) == Outstanding(s);
  }

  lemma SameSizes(h1: map<Ptr, TxPacketBuffer>, h2: map<Ptr, TxPacketBuffer>)
    requires h1.Keys == h2.Keys && forall p <- h1 :: h1[p].packetSize == h2[p].packetSize
    ensures Sizes(h1) == Sizes(h2)
  {
  }

  lemma BusyStep(s: Sched)
    requires Inv(s) && s.current.Some?
    ensures s.current.value.ptr in s.fails
    ensures var t := Failed(s);
            && |t.queues| == CLASSES && Core(t) && Core(Again(t)) && Pending(t) == Pending(Again(t)) == Pending(s) > 0
            && Step(s, Busy) == if t.fails[s.current.value.ptr] < MAX_CSMA_FAILS then Again(t) else Complete(t)
  {
  }

  lemma WorkIsSmall(s: Sched)
    requires Inv(s)
    ensures Work(s) <= MAX_CSMA_FAILS * Pending(s) && (Work(s) == 0 ==> Pending(s) == 0)
  {
  }

  /** The beacon's one reusable packet. */
  class Beacon {
    const tx: Handler
    var gEnabled: bool
    var gInterval: nat
    var gPacket: Option<Ptr>

    /** The packet, if there is one, is a live sticky buffer. */
    ghost predicate Alive()
      reads this, tx`heap
    {
      gPacket.Some? ==> gPacket.value in tx.heap && tx.heap[gPacket.value].isSticky
    }

    /** The transmitter's ledger is right, or one too high. */
    ghost predicate Ready()
      reads this, tx, tx.irq
    {
      (tx.Valid() || tx.Wedged()) && Alive()
    }

    ghost predicate Valid()
      reads this, tx, tx.irq
    {
      tx.Valid() && Alive()
    }

    constructor (tx: Handler)
      requires tx.Valid()
      ensures Valid() && this.tx == tx && gPacket == None && !gEnabled
    {
      this.tx, gEnabled, gInterval, gPacket := tx, false, 0, None;
    }

    /** The size of a buffer holding n bytes fits once the installed packet is gone. */
    ghost predicate Fits(n: nat)
      requires Alive()
      reads this, tx
    {
      tx.gTxAllocBytes - (if gPacket.Some? then TX_HEADER + tx.heap[gPacket.value].packetSize else 0)
      + TX_HEADER + n <= MAX_TX_BYTES
    }

    /** Install a payload.  The first one leaves the ledger as it is; for the others see `Withdraw`. */
    method SetPayload(payload: seq<byte>, block: Option<Ptr>) returns (err: int)
      requires Ready() && (block.Some? ==> block.value !in tx.heap || block == gPacket)
      modifies this`gPacket, tx`gTxAllocBytes, tx`gTxPacketsPending, tx`heap, tx`gTxOverflowFlag, tx`gTxBufferDiscarded,
               tx`gTxBufferAllocFailed, tx.irq
      ensures Alive() && (err == 0 <==> gPacket.Some?) && (gPacket.Some? ==> gPacket == block)
      ensures gPacket.Some? <==> block.Some? && old(Fits(|payload|))
      ensures tx.gTxBufferDiscarded == Bumped(old(tx.gTxBufferDiscarded), !old(Fits(|payload|)))
      ensures tx.gTxBufferAllocFailed == Bumped(old(tx.gTxBufferAllocFailed), old(Fits(|payload|)) && block.None?)
      ensures tx.gTxOverflowFlag <==> old(tx.gTxOverflowFlag) || err != 0
      ensures tx.BytesBalance()
      ensures var rest := if old(gPacket).Some? then old(tx.heap) - {old(gPacket).value} else old(tx.heap);
              tx.heap == if gPacket.Some? then rest[gPacket.value := TxPacketBuffer(|payload|, true, 0, payload)] else rest
      ensures tx.irq.Valid() && tx.irq.Raised({TxQueueEmpty}) && !tx.panicked
      ensures if old(gPacket).Some? || err != 0 then tx.EmptyTold() else tx.irq.gActive == old(tx.irq.gActive)
      ensures old(gPacket).None? ==>
                && (old(tx.Valid()) ==> tx.Valid())
                && (old(tx.Wedged()) ==> tx.Wedged())
                && tx.gTxPacketsPending == old(tx.gTxPacketsPending)
      ensures old(gPacket).Some? ==>
                && tx.gTxPacketsPending == (old(tx.gTxPacketsPending) + WRAP32 - 1) % WRAP32
                && if old(tx.Stranded()) then tx.Valid() else tx.Broken()
      ensures old(gPacket).Some? && gPacket != old(gPacket) ==> old(gPacket).value !in tx.heap
    {
      hide Handler.Valid, Handler.Wedged, Handler.BytesBalance;
      tx.Counting();
      if gPacket.Some? {
        InstalledFits();
        Withdraw();
      }
      gPacket := tx.AllocSticky(payload, block);
      err := if gPacket == None then -1 else 0;
    }

    lemma InstalledFits()
      requires Ready() && gPacket.Some?
      ensures TX_HEADER + tx.heap[gPacket.value].packetSize <= tx.gTxAllocBytes
    {
      SumRemove(Sizes(tx.heap), gPacket.value);
    }

    /** Free the installed packet and count it off as if it were pending.  That is right exactly for a
        wedged transmitter with nothing queued, which it repairs; in every other state it breaks the
        ledger, and an outstanding packet's buffer is gone while still queued or on the air. */
    method Withdraw()
      requires Ready() && gPacket.Some?
      modifies this`gPacket, tx`gTxAllocBytes, tx`gTxPacketsPending, tx`heap, tx.irq
      ensures gPacket == None && tx.heap == old(tx.heap) - {old(gPacket).value}
      ensures tx.gTxAllocBytes == old(tx.gTxAllocBytes - (TX_HEADER + tx.heap[gPacket.value].packetSize))
      ensures tx.irq.Valid() && tx.irq.Raised({TxQueueEmpty}) && tx.EmptyTold() && tx.BytesBalance()
      ensures tx.gTxPacketsPending == (old(tx.gTxPacketsPending) + WRAP32 - 1) % WRAP32
      ensures if old(tx.Stranded()) then tx.Valid() else tx.Broken()
    {
      hide Handler.Valid, Handler.Wedged, Handler.BytesBalance, Sizes, Sum;
      tx.Counting();
      InstalledFits();
      tx.DiscardTxPacket(gPacket.value, true);
      if old(tx.Stranded()) {
        tx.Repaired(gPacket.value);
      }
      gPacket := None;
    }

    /** Send the beacon once more.  Without a payload the firmware panics. */
    method EmitBeacon(radio: Radio)
      requires Ready()
      modifies tx, tx.irq
      ensures tx.irq.Raised({TxQueueEmpty})
      ensures if gPacket.Some? then tx.EmptyTold() else tx.irq.gActive == old(tx.irq.gActive)
      ensures tx.panicked <==> gPacket.None?
      ensures gPacket.Some? ==> Ready()
      ensures gPacket.Some? && old(tx.Wedged()) ==> tx.Wedged() && tx.events == old(tx.events)
      ensures gPacket.Some? && old(tx.Valid()) ==>
                (tx.Valid() <==> |old(tx.gTxQueues)[3]| == MAX_QUEUE || old(tx.gTxPacketsPending) > 0 || radio.Starts?)
      ensures gPacket.Some? && old(tx.Valid()) ==>
                tx.events == old(tx.events)
                             + if |old(tx.gTxQueues)[3]| < MAX_QUEUE && tx.Valid() then [Accept(3, gPacket.value)] else []
      ensures gPacket.Some? ==>
                var full := |old(tx.gTxQueues)[3]| == MAX_QUEUE;
                && tx.gTxQueueDiscarded == Bumped(old(tx.gTxQueueDiscarded), full)
                && tx.submitted == old(tx.submitted) + (if full then 0 else 1)
      ensures tx.gTxBufferDiscarded == old(tx.gTxBufferDiscarded) && tx.gTxBufferAllocFailed == old(tx.gTxBufferAllocFailed)
      ensures tx.gTxFrames == old(tx.gTxFrames)
    {
      hide Handler.Valid, Handler.Wedged;
      tx.Counting();
      tx.ValidIsNotWedged();
      if gPacket == None {
        tx.panicked := true;
        return;
      }
      var err := tx.QueueSticky(3, gPacket.value, radio);
      tx.Counting();
      tx.ValidIsNotWedged();
    }

    /** Where the offers of a run have gone: to the radio or a queue, into the installed beacon, or lost. */
    ghost function Account(): nat
      reads this`gPacket, tx
    {
      tx.submitted + (if gPacket.Some? then 1 else 0) + tx.Discards()
    }

    method SetEnabled(isEnabled: bool)
      modifies this`gEnabled
      ensures gEnabled == isEnabled
    {
      if isEnabled == gEnabled {
        return;
      }
      gEnabled := isEnabled;
    }

    method SetInterval(interval: nat)
      modifies this`gInterval
      ensures gInterval == interval
    {
      gInterval := interval;
    }
  }

  // ----- whole runs -----

  /** What can happen to the transmit side; `block` is what malloc would return. */
  datatype Demand = Send(cls: nat, payload: seq<byte>, block: Option<Ptr>, radio: Radio)
                  | SetBeacon(payload: seq<byte>, block: Option<Ptr>)
                  | EmitBeacon(radio: Radio)
                  | Answer(report: Report)
                  | ReadStatistics

  /** How many of the demands set a beacon payload. */
  function Payloads(ds: seq<Demand>): nat {
    if ds == [] then 0 else (if ds[0].SetBeacon? then 1 else 0) + Payloads(ds[1..])
  }

  /** How many of the demands ask for a place in a queue or for memory. */
  function Offers(ds: seq<Demand>): nat {
    if ds == [] then 0 else (if IsOffer(ds[0]) then 1 else 0) + Offers(ds[1..])
  }

  predicate IsOffer(d: Demand) {
    d.Send? || d.SetBeacon? || d.EmitBeacon?
  }

  /** Whether the radio starts whenever a beacon is the first packet. */
  predicate BeaconsStart(ds: seq<Demand>) {
    forall d <- ds :: d.EmitBeacon? ==> d.radio.Starts?
  }

  /** How many packets the radio has reported as sent. */
  function SentReports(es: seq<Event>): nat {
    if es == [] then 0 else SentReports(es[..|es| - 1]) + if es[|es| - 1].Sent? then 1 else 0
  }

  lemma SentReportsSnoc(es: seq<Event>, e: Event)
    ensures SentReports(es + [e]) == SentReports(es) + if e.Sent? then 1 else 0
  {
    assert (es + [e])[..|es|] == es;
  }

  /** A block malloc cannot return is none. */
  function Fresh(block: Option<Ptr>, tx: Handler): (b: Option<Ptr>)
    reads tx`heap
    ensures b.Some? ==> b.value !in tx.heap
  {
    if block.Some? && block.value in tx.heap then None else block
  }

  lemma BumpedIsSame(c: nat, happened: bool)
    ensures Same(Bumped(c, happened), c + if happened then 1 else 0)
  {
  }

  /** What the host has been told of the transmit statistics in some run: packets lost, and sent. */
  datatype Told = Told(discards: nat, goodFrames: nat)

  /** Any run of submissions, beacons, radio reports and read-outs of the statistics with at most one
      beacon payload: the beacon's packet stays alive, the transmitter is sound or wedged until a panic, and
      it is sound if the radio never refuses a beacon.  A sound transmitter keeps everything `Guarantees`
      says, at every point.  No offer is unaccounted for: each has been submitted to the radio or a queue, or
      is the installed beacon, or shows in one of the three discard counters, told or current; and the good
      frames, told or current, are the packets the radio reported as sent. */
  method Serve(b: Beacon, demands: seq<Demand>) returns (ghost told: Told)
    requires b.Valid() && Payloads(demands) + (if b.gPacket.Some? then 1 else 0) <= 1
    requires forall d <- demands :: d.Send? ==> d.cls < CLASSES
    modifies b, b.tx, b.tx.irq
    ensures !b.tx.panicked ==> b.Ready()
    ensures !b.tx.panicked && BeaconsStart(demands) ==> b.Valid()
    ensures !b.tx.panicked ==> Same(b.Account() + told.discards, old(b.Account()) + Offers(demands))
    ensures !b.tx.panicked ==> Same(Unexplained(b.tx) + told.goodFrames, old(Unexplained(b.tx)))
  {
    hide Handler.Valid, Handler.Wedged, Beacon.Account, Unexplained, Same;
    told := Told(0, 0);
    SameSelf(b.Account() + Offers(demands));
    SameSelf(Unexplained(b.tx));
    assert demands[0..] == demands;
    for i := 0 to |demands|
      invariant b.Ready() && (BeaconsStart(demands) ==> b.Valid())
      invariant Payloads(demands[i..]) + (if b.gPacket.Some? then 1 else 0) <= 1
      invariant Same(b.Account() + told.discards + Offers(demands[i..]), old(b.Account()) + Offers(demands))
      invariant Same(Unexplained(b.tx) + told.goodFrames, old(Unexplained(b.tx)))
    {
      assert demands[i..][0] == demands[i] && demands[i..][1..] == demands[i + 1..];
      ghost var account, frames := b.Account(), Unexplained(b.tx);
      ghost var more := ServeOne(b, demands[i]);
      if b.tx.panicked {
        return;
      }
      ghost var offer, rest := if IsOffer(demands[i]) then 1 else 0, told.discards + Offers(demands[i + 1..]);
      SameStep(b.Account() + more.discards, account + offer, rest, old(b.Account()) + Offers(demands));
      SameStep(Unexplained(b.tx) + more.goodFrames, frames, told.goodFrames, old(Unexplained(b.tx)));
      told := Told(told.discards + more.discards, told.goodFrames + more.goodFrames);
    }
  }
  /** Good frames, current, less those the radio reported. */
  ghost function Unexplained(tx: Handler): int
    reads tx
  {
    tx.gTxFrames - SentReports(tx.events)
  }

  /** One demand: the account grows by one exactly for an offer. */
  method ServeOne(b: Beacon, d: Demand) returns (ghost told: Told)
    requires b.Ready() && (d.SetBeacon? ==> b.gPacket.None?) && (d.Send? ==> d.cls < CLASSES)
    modifies b, b.tx, b.tx.irq
    ensures !b.tx.panicked ==> b.Ready()
    ensures !b.tx.panicked && old(b.tx.Valid()) && (d.EmitBeacon? ==> d.radio.Starts?) ==> b.tx.Valid()
    ensures !d.SetBeacon? ==> b.gPacket == old(b.gPacket)
    ensures !b.tx.panicked ==> Same(b.Account() + told.discards, old(b.Account()) + if IsOffer(d) then 1 else 0)
    ensures !b.tx.panicked ==> Same(Unexplained(b.tx) + told.goodFrames, old(Unexplained(b.tx)))
  {
    hide Beacon.Ready, Beacon.Account, Unexplained, Same, Handler.Valid;
    told := Told(0, 0);
    match d
    case Send(c, payload, block, radio) => ServeSend(b, c, payload, block, radio);
    case SetBeacon(payload, block) => ServePayload(b, payload, block);
    case EmitBeacon(radio) => ServeBeacon(b, radio);
    case Answer(report) => ServeReport(b, report);
    case ReadStatistics => told := ServeStatistics(b);
  }

  lemma ThreeBumped(q: nat, b: nat, c: nat, fq: bool, fb: bool, fc: bool, more: int)
    ensures Same(more + Bumped(q, fq) + Bumped(b, fb) + Bumped(c, fc),
                 more + q + b + c + (if fq then 1 else 0) + (if fb then 1 else 0) + (if fc then 1 else 0))
  {
    hide Same, Bumped;
    BumpedIsSame(q, fq);
    BumpedIsSame(b, fb);
    BumpedIsSame(c, fc);
    SameSelf(more);
    var q', b', c' := if fq then 1 else 0, if fb then 1 else 0, if fc then 1 else 0;
    SameSum(more, Bumped(q, fq), more, q + q');
    SameSum(more + Bumped(q, fq), Bumped(b, fb), more + q + q', b + b');
    SameSum(more + Bumped(q, fq) + Bumped(b, fb), Bumped(c, fc), more + q + q' + b + b', c + c');
  }

  method ServeSend(b: Beacon, c: nat, payload: seq<byte>, block: Option<Ptr>, radio: Radio)
    requires b.Ready() && c < CLASSES
    modifies b.tx, b.tx.irq
    ensures b.Ready() && !b.tx.panicked && (old(b.tx.Valid()) ==> b.tx.Valid())
    ensures Same(b.Account(), old(b.Account()) + 1) && Same(Unexplained(b.tx), old(Unexplained(b.tx)))
  {
    hide Handler.Valid, Handler.Wedged, SentReports, Same, Bumped;
    var tx, usable := b.tx, Fresh(block, b.tx);
    tx.Counting();
    var r := tx.QueueTxPacket(c, payload, false, usable, radio);
    tx.Counting();
    SentReportsSnoc(old(tx.events), Accept(c, if r.Some? then r.value else 0));
    assert Unexplained(tx) == old(Unexplained(tx));
    SameSelf(Unexplained(tx));
    ghost var full, over := |old(tx.gTxQueues)[c]| == MAX_QUEUE, old(tx.gTxAllocBytes) + TX_HEADER + |payload| > MAX_TX_BYTES;
    ThreeBumped(old(tx.gTxQueueDiscarded), old(tx.gTxBufferDiscarded), old(tx.gTxBufferAllocFailed),
                full, !full && over, !full && !over && usable.None?, tx.submitted + if b.gPacket.Some? then 1 else 0);
  }

  method ServePayload(b: Beacon, payload: seq<byte>, block: Option<Ptr>)
    requires b.Ready() && b.gPacket.None?
    modifies b, b.tx, b.tx.irq
    ensures b.Ready() && !b.tx.panicked && (old(b.tx.Valid()) ==> b.tx.Valid())
    ensures Same(b.Account(), old(b.Account()) + 1) && Same(Unexplained(b.tx), old(Unexplained(b.tx)))
  {
    hide Handler.Valid, Handler.Wedged, SentReports, Same, Bumped;
    var tx, usable := b.tx, Fresh(block, b.tx);
    var fits := tx.gTxAllocBytes + TX_HEADER + |payload| <= MAX_TX_BYTES;
    var _ := b.SetPayload(payload, usable);
    SameSelf(Unexplained(tx));
    ThreeBumped(old(tx.gTxQueueDiscarded), old(tx.gTxBufferDiscarded), old(tx.gTxBufferAllocFailed),
                false, !fits, fits && usable.None?, tx.submitted + if b.gPacket.Some? then 1 else 0);
    assert Bumped(tx.gTxQueueDiscarded, false) == tx.gTxQueueDiscarded by { NotBumped(tx.gTxQueueDiscarded); }
  }

  lemma NotBumped(c: nat)
    ensures Bumped(c, false) == c
  {
  }

  method ServeBeacon(b: Beacon, radio: Radio)
    requires b.Ready()
    modifies b.tx, b.tx.irq
    ensures !b.tx.panicked ==> b.Ready()
    ensures !b.tx.panicked && old(b.tx.Valid()) && radio.Starts? ==> b.tx.Valid()
    ensures !b.tx.panicked ==> Same(b.Account(), old(b.Account()) + 1) && Same(Unexplained(b.tx), old(Unexplained(b.tx)))
  {
    hide Handler.Valid, Handler.Wedged, SentReports, Same, Bumped;
    var tx := b.tx;
    tx.Counting();
    b.EmitBeacon(radio);
    if tx.panicked {
      return;
    }
    SentReportsSnoc(old(tx.events), Accept(3, b.gPacket.value));
    assert old(tx.events) + [] == old(tx.events);
    assert Unexplained(tx) == old(Unexplained(tx));
    SameSelf(Unexplained(tx));
    ghost var full := |old(tx.gTxQueues)[3]| == MAX_QUEUE;
    ThreeBumped(old(tx.gTxQueueDiscarded), old(tx.gTxBufferDiscarded), old(tx.gTxBufferAllocFailed),
                full, false, false, tx.submitted + 1);
    NotBumped(tx.gTxBufferDiscarded);
    NotBumped(tx.gTxBufferAllocFailed);
  }

  method ServeReport(b: Beacon, report: Report)
    requires b.Ready()
    modifies b.tx, b.tx.irq
    ensures !b.tx.panicked ==> b.Ready() && (old(b.tx.Valid()) ==> b.tx.Valid())
    ensures !b.tx.panicked ==> Same(b.Account(), old(b.Account())) && Same(Unexplained(b.tx), old(Unexplained(b.tx)))
  {
    hide Handler.Valid, Handler.Wedged, SentReports, Same, Bumped;
    var tx := b.tx;
    tx.Counting();
    SameSelf(b.Account());
    SameSelf(Unexplained(tx));
    if tx.gLastTx.None? {
      return;
    }
    tx.OnAirIsSound();
    tx.OnReport(report);
    if tx.panicked {
      return;
    }
    ghost var sent := if report.sent then 1 else 0;
    SentReportsSnoc(old(tx.events), if report.sent then Sent else Busy);
    BumpedIsSame(old(tx.gTxFrames), report.sent);
    assert old(tx.gTxFrames) + sent - SentReports(tx.events) == old(Unexplained(tx));
    SameStep(tx.gTxFrames, old(tx.gTxFrames) + sent, 0 - SentReports(tx.events), old(Unexplained(tx)));
  }

  method ServeStatistics(b: Beacon) returns (ghost told: Told)
    requires b.Ready()
    modifies b.tx
    ensures b.Ready() && !b.tx.panicked && (old(b.tx.Valid()) ==> b.tx.Valid())
    ensures Same(b.Account() + told.discards, old(b.Account()))
    ensures Same(Unexplained(b.tx) + told.goodFrames, old(Unexplained(b.tx)))
  {
    hide Handler.Valid, Handler.Wedged, SentReports, Same;
    var tx := b.tx;
    tx.Counting();
    SameSelf(b.Account());
    SameSelf(Unexplained(tx));
    var queue := tx.ReadCounters();
    var radio := tx.ReadRadioCounters();
    tx.Counting();
    told := Told(queue.queueDiscards + queue.bufferDiscards + queue.bufferAllocFails, radio.goodFrames);
  }

  /** From power-up: a first beacon that the radio refuses wedges the transmitter. */
  method RefusedFirstBeacon(payload: seq<byte>) returns (b: Beacon)
    requires |payload| <= MAX_TX_BYTES - TX_HEADER
    ensures fresh(b) && b.tx.Wedged() && !b.tx.Valid()
  {
    hide Handler.Valid, Handler.Wedged, Handler.BytesBalance, Handler.EmptyTold, Bumped;
    var irq := new IrqManager();
    var tx := new Handler(irq);
    b := new Beacon(tx);
    var err := b.SetPayload(payload, Some(0));
    b.EmitBeacon(Refuses);
  }

  /** From power-up: a second payload leaves the counter one below zero. */
  method ReplacedBeacon(first: seq<byte>, second: seq<byte>) returns (b: Beacon)
    requires |first| <= MAX_TX_BYTES - TX_HEADER
    ensures fresh(b) && b.tx.Broken() && !b.tx.Valid() && !b.tx.Wedged() && b.tx.gTxPacketsPending == WRAP32 - 1
  {
    hide Handler.Valid, Handler.Wedged, Handler.Broken, Bumped;
    var irq := new IrqManager();
    var tx := new Handler(irq);
    b := new Beacon(tx);
    var err := b.SetPayload(first, Some(0));
    err := b.SetPayload(second, None);
    b.tx.ValidIsNotWedged();
  }
}
