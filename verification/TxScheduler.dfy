/** The transmit scheduler as it is meant to behave: every accepted packet joins the queue of its
    class, and whenever nothing is on the air the oldest packet of the highest non-empty class starts.
    There is no fast path and no pending counter here; the firmware's handler is proved to follow
    this reference, and the properties of whole runs are proved about it. */
module TxScheduler {
  import opened Common
  import opened MapSum

  /** Address of a packet buffer. */
  type Ptr = nat

  const CLASSES := 4
  const MAX_QUEUE := 16
  const MAX_CSMA_FAILS := 5

  datatype Job = Job(cls: nat, ptr: Ptr)

  /** A transmission begun: a packet's first, or another attempt at the packet on the air. */
  datatype Transmission = Transmission(job: Job, retry: bool)

  /** `fails` counts channel-busy reports per buffer; `accepted` and `air` are histories: all accepted
      packets, and every transmission begun. */
  datatype Sched = Sched(queues: seq<seq<Ptr>>, current: Option<Job>, fails: map<Ptr, nat>,
                         accepted: seq<Job>, air: seq<Transmission>)

  datatype Event = Accept(cls: nat, ptr: Ptr) | Sent | Busy

  const IDLE := Sched([[], [], [], []], None, map[], [], [])

  function Queued(s: Sched): nat
    requires |s.queues| == CLASSES
  {
    |s.queues[0]| + |s.queues[1]| + |s.queues[2]| + |s.queues[3]|
  }

  function Pending(s: Sched): nat
    requires |s.queues| == CLASSES
  {
    Queued(s) + if s.current.Some? then 1 else 0
  }

  /** The buffers queued or on the air, with multiplicity. */
  function Outstanding(s: Sched): multiset<Ptr>
    requires |s.queues| == CLASSES
  {
    Waiting(s.queues) + if s.current.Some? then multiset{s.current.value.ptr} else multiset{}
  }

  function Waiting(queues: seq<seq<Ptr>>): multiset<Ptr>
    requires |queues| == CLASSES
  {
    multiset(queues[0]) + multiset(queues[1]) + multiset(queues[2]) + multiset(queues[3])
  }

  /** Four queues within their capacity, and a failure count for every outstanding buffer. */
  predicate Core(s: Sched) {
    && |s.queues| == CLASSES
    && (forall c :: 0 <= c < CLASSES ==> |s.queues[c]| <= MAX_QUEUE)
    && (s.current.Some? ==> s.current.value.cls < CLASSES && s.current.value.ptr in s.fails)
    && Counted(s.queues, s.fails)
  }

  predicate Counted(queues: seq<seq<Ptr>>, fails: map<Ptr, nat>)
    requires |queues| == CLASSES
  {
    forall p <- Waiting(queues) :: p in fails
  }

  /** Between events, additionally: nothing waits while nothing is on the air. */
  predicate Inv(s: Sched) {
    Core(s) && (s.current.None? ==> Queued(s) == 0)
  }

  /** The class to serve next: the highest with a packet waiting. */
  function TopClass(queues: seq<seq<Ptr>>): (c: Option<nat>)
    requires |queues| == CLASSES
    ensures c.Some? ==> c.value < CLASSES && queues[c.value] != [] && forall d :: c.value < d < CLASSES ==> queues[d] == []
    ensures c.None? ==> forall d :: 0 <= d < CLASSES ==> queues[d] == []
  {
    if queues[3] != [] then Some(3)
    else if queues[2] != [] then Some(2)
    else if queues[1] != [] then Some(1)
    else if queues[0] != [] then Some(0)
    else None
  }

  /** Start the next packet if nothing is on the air. */
  function Dispatch(s: Sched): Sched
    requires |s.queues| == CLASSES
  {
    match TopClass(s.queues)
    case None => s
    case Some(c) =>
      if s.current.Some? then s
      else
        var p := s.queues[c][0];
        s.(queues := s.queues[c := s.queues[c][1..]], current := Some(Job(c, p)),
           air := s.air + [Transmission(Job(c, p), false)])
  }

  function Join(s: Sched, c: nat, p: Ptr): Sched
    requires |s.queues| == CLASSES && c < CLASSES
  {
    s.(queues := s.queues[c := s.queues[c] + [p]], fails := s.fails[p := 0], accepted := s.accepted + [Job(c, p)])
  }

  function AcceptJob(s: Sched, c: nat, p: Ptr): Sched
    requires |s.queues| == CLASSES && c < CLASSES
  {
    Dispatch(Join(s, c, p))
  }

  function Complete(s: Sched): Sched
    requires |s.queues| == CLASSES
  {
    Dispatch(s.(current := None))
  }

  /** One more failure on the record of the buffer on the air. */
  function Failed(s: Sched): Sched
    requires s.current.Some? && s.current.value.ptr in s.fails
  {
    var p := s.current.value.ptr;
    s.(fails := s.fails[p := s.fails[p] + 1])
  }

  /** Another attempt at the packet on the air. */
  function Again(s: Sched): Sched
    requires s.current.Some?
  {
    s.(air := s.air + [Transmission(s.current.value, true)])
  }

  /** The channel was busy: try again, or give up on the packet at the fifth failure. */
  function ChannelBusy(s: Sched): Sched
    requires |s.queues| == CLASSES && s.current.Some? && s.current.value.ptr in s.fails
  {
    var p := s.current.value.ptr;
    var t := Failed(s);
    if t.fails[p] < MAX_CSMA_FAILS then Again(t) else Complete(t)
  }

  /** A full queue turns packets away; the radio reports nothing while nothing is on the air. */
  function Step(s: Sched, e: Event): Sched
    requires Inv(s)
  {
    match e
    case Accept(c, p) => if c < CLASSES && |s.queues[c]| < MAX_QUEUE then AcceptJob(s, c, p) else s
    case Sent => if s.current.Some? then Complete(s) else s
    case Busy => if s.current.Some? then ChannelBusy(s) else s
  }

  // ----- invariants -----

  lemma PopTakesOne(queues: seq<seq<Ptr>>, c: nat)
    requires |queues| == CLASSES && c < CLASSES && queues[c] != []
    ensures Waiting(queues) == Waiting(queues[c := queues[c][1..]]) + multiset{queues[c][0]}
  {
    assert queues[c] == [queues[c][0]] + queues[c][1..];
  }

  lemma PushAddsOne(queues: seq<seq<Ptr>>, c: nat, p: Ptr)
    requires |queues| == CLASSES && c < CLASSES
    ensures Waiting(queues[c := queues[c] + [p]]) == Waiting(queues) + multiset{p}
  {
  }

  /** Dispatching moves a packet from its queue to the air, nothing else. */
  lemma DispatchKeeps(s: Sched)
    requires |s.queues| == CLASSES
    ensures var t := Dispatch(s);
            && |t.queues| == CLASSES
            && Outstanding(t) == Outstanding(s) && Pending(t) == Pending(s)
            && t.fails == s.fails && t.accepted == s.accepted
            && |t.air| + Queued(t) == |s.air| + Queued(s)
            && (t.current.None? ==> Queued(t) == 0)
  {
    var top := TopClass(s.queues);
    if top.Some? && s.current.None? {
      PopTakesOne(s.queues, top.value);
      hide Waiting;
    }
  }

  lemma PopKeepsCounts(queues: seq<seq<Ptr>>, c: nat, fails: map<Ptr, nat>)
    requires |queues| == CLASSES && c < CLASSES && queues[c] != [] && Counted(queues, fails)
    ensures Counted(queues[c := queues[c][1..]], fails) && queues[c][0] in fails
  {
    hide Waiting;
    PopTakesOne(queues, c);
    assert queues[c][0] in Waiting(queues);
  }

  lemma DispatchMakesInv(s: Sched)
    requires Core(s)
    ensures Inv(Dispatch(s))
  {
    hide Waiting, Counted;
    var top := TopClass(s.queues);
    if top.Some? && s.current.None? {
      PopKeepsCounts(s.queues, top.value, s.fails);
    }
  }

  lemma JoinKeepsCore(s: Sched, c: nat, p: Ptr)
    requires Core(s) && c < CLASSES && |s.queues[c]| < MAX_QUEUE
    ensures Core(Join(s, c, p))
  {
    hide Counted;
    PushKeepsCounts(s.queues, c, p, s.fails);
    var t := Join(s, c, p);
    assert forall d :: 0 <= d < CLASSES ==> |t.queues[d]| <= MAX_QUEUE;
  }

  lemma PushKeepsCounts(queues: seq<seq<Ptr>>, c: nat, p: Ptr, fails: map<Ptr, nat>)
    requires |queues| == CLASSES && c < CLASSES && Counted(queues, fails)
    ensures Counted(queues[c := queues[c] + [p]], fails[p := 0])
  {
    hide Waiting;
    PushAddsOne(queues, c, p);
  }

  lemma FailingKeepsCore(s: Sched)
    requires Core(s) && s.current.Some?
    ensures Core(Failed(s))
  {
    hide Waiting;
  }

  lemma StepKeepsInv(s: Sched, e: Event)
    requires Inv(s)
    ensures Inv(Step(s, e))
  {
    hide Counted, Dispatch;
    match e
    case Accept(c, p) =>
      if c < CLASSES && |s.queues[c]| < MAX_QUEUE {
        JoinKeepsCore(s, c, p);
        hide Join, Core;
        DispatchMakesInv(Join(s, c, p));
      }
    case Sent =>
      if s.current.Some? {
        DispatchMakesInv(s.(current := None));
      }
    case Busy =>
      if s.current.Some? {
        FailingKeepsCore(s);
        DispatchMakesInv(Failed(s).(current := None));
      }
  }

  /** With nothing pending, joining the queue and dispatching is the same as starting right away: the
      reason the firmware may skip the queue. */
  lemma StartsAtOnce(s: Sched, c: nat, p: Ptr)
    requires Inv(s) && c < CLASSES && s.current.None?
    ensures AcceptJob(s, c, p) ==
            s.(current := Some(Job(c, p)), fails := s.fails[p := 0], accepted := s.accepted + [Job(c, p)],
               air := s.air + [Transmission(Job(c, p), false)])
  {
    var t := Join(s, c, p);
    assert TopClass(t.queues) == Some(c);
    assert t.queues[c][1..] == [] == s.queues[c];
    assert t.queues[c := []] == s.queues;
  }

  /** With something on the air, joining the queue is all that happens. */
  lemma WaitsItsTurn(s: Sched, c: nat, p: Ptr)
    requires Inv(s) && c < CLASSES && s.current.Some?
    ensures AcceptJob(s, c, p) == Join(s, c, p)
  {
  }

  /** The state after a sequence of events, from power-up. */
  function Run(es: seq<Event>): (s: Sched)
    ensures Inv(s)
  {
    if es == [] then IDLE
    else
      var n := |es| - 1;
      StepKeepsInv(Run(es[..n]), es[n]);
      Step(Run(es[..n]), es[n])
  }

  // ----- order -----

  /** The buffers of one class in a history, in order. */
  function OfClass(js: seq<Job>, c: nat): seq<Ptr> {
    if js == [] then []
    else OfClass(js[..|js| - 1], c) + if js[|js| - 1].cls == c then [js[|js| - 1].ptr] else []
  }

  lemma OfClassAppend(js: seq<Job>, j: Job, c: nat)
    ensures OfClass(js + [j], c) == OfClass(js, c) + if j.cls == c then [j.ptr] else []
  {
    assert (js + [j])[..|js|] == js;
  }

  /** The buffers of one class in a history of transmissions, in order, retries left out. */
  function Started(ts: seq<Transmission>, c: nat): seq<Ptr> {
    if ts == [] then []
    else
      var t := ts[|ts| - 1];
      Started(ts[..|ts| - 1], c) + if t.job.cls == c && !t.retry then [t.job.ptr] else []
  }

  lemma StartedAppend(ts: seq<Transmission>, t: Transmission, c: nat)
    ensures Started(ts + [t], c) == Started(ts, c) + if t.job.cls == c && !t.retry then [t.job.ptr] else []
  {
    assert (ts + [t])[..|ts|] == ts;
  }

  /** A class's accepted packets are those started, in the same order, followed by its queue. */
  ghost predicate InOrder(s: Sched, c: nat)
    requires |s.queues| == CLASSES && c < CLASSES
  {
    OfClass(s.accepted, c) == Started(s.air, c) + s.queues[c]
  }

  lemma DispatchKeepsOrder(s: Sched, c: nat)
    requires |s.queues| == CLASSES && c < CLASSES && InOrder(s, c)
    ensures InOrder(Dispatch(s), c)
  {
    var top := TopClass(s.queues);
    if top.Some? && s.current.None? {
      var q := s.queues[top.value];
      StartedAppend(s.air, Transmission(Job(top.value, q[0]), false), c);
      if top.value == c {
        assert q == [q[0]] + q[1..];
        assert Started(s.air, c) + q == Started(s.air, c) + [q[0]] + q[1..];
      }
    }
  }

  lemma StepKeepsOrder(s: Sched, e: Event, c: nat)
    requires Inv(s) && c < CLASSES && InOrder(s, c)
    ensures Inv(Step(s, e)) && InOrder(Step(s, e), c)
  {
    hide Dispatch, Counted, OfClass, Started;
    StepKeepsInv(s, e);
    match e
    case Accept(d, p) =>
      if d < CLASSES && |s.queues[d]| < MAX_QUEUE {
        var t := Join(s, d, p);
        OfClassAppend(s.accepted, Job(d, p), c);
        assert Started(s.air, c) + (s.queues[c] + [p]) == Started(s.air, c) + s.queues[c] + [p];
        DispatchKeepsOrder(t, c);
      }
    case Sent =>
      if s.current.Some? {
        DispatchKeepsOrder(s.(current := None), c);
      }
    case Busy =>
      if s.current.Some? {
        StartedAppend(s.air, Transmission(s.current.value, true), c);
        DispatchKeepsOrder(Failed(s).(current := None), c);
      }
  }

  /** Over every run each class starts in acceptance order, and what has not started is exactly its
      queue: no packet is lost, duplicated or overtaken inside its class. */
  lemma {:induction false} ClassesAreFifo(es: seq<Event>, c: nat)
    requires c < CLASSES
    ensures InOrder(Run(es), c)
    decreases |es|
  {
    if es == [] {
    } else {
      var n := |es| - 1;
      ClassesAreFifo(es[..n], c);
      StepKeepsOrder(Run(es[..n]), es[n], c);
    }
  }

  /** From s to t nothing was transmitted, or the packet on the air once more, or a packet was started
      with every higher class empty. */
  predicate TransmitsTop(s: Sched, t: Sched)
    requires |t.queues| == CLASSES
  {
    || t.air == s.air
    || (&& t.current.Some? && t.air == s.air + [Transmission(t.current.value, true)]
        && s.current == t.current && s.queues == t.queues)
    || (&& t.current.Some? && t.air == s.air + [Transmission(t.current.value, false)]
        && forall d :: t.current.value.cls < d < CLASSES ==> t.queues[d] == [])
  }

  lemma DispatchTransmitsTop(s: Sched)
    requires |s.queues| == CLASSES
    ensures TransmitsTop(s, Dispatch(s))
  {
  }

  /** In every reachable state an event begins at most one transmission: another attempt at the same
      packet, or the start of one with no higher class waiting; and the radio never rests while a
      packet waits. */
  lemma PriorityIsRespected(es: seq<Event>, e: Event)
    ensures TransmitsTop(Run(es), Run(es + [e]))
    ensures Run(es).current.None? ==> Waiting(Run(es).queues) == multiset{}
  {
    hide Counted, Dispatch;
    var s := Run(es);
    assert (es + [e])[..|es|] == es;
    match e
    case Accept(c, p) =>
      if c < CLASSES && |s.queues[c]| < MAX_QUEUE {
        JoinTransmitsTop(s, c, p);
      }
    case Sent =>
      if s.current.Some? {
        DispatchAfterTop(s, s);
      }
    case Busy =>
      if s.current.Some? {
        DispatchAfterTop(s, Failed(s));
      }
  }

  lemma JoinTransmitsTop(s: Sched, c: nat, p: Ptr)
    requires |s.queues| == CLASSES && c < CLASSES
    ensures |AcceptJob(s, c, p).queues| == CLASSES && TransmitsTop(s, AcceptJob(s, c, p))
  {
    DispatchTransmitsTop(Join(s, c, p));
  }

  lemma DispatchAfterTop(s: Sched, s': Sched)
    requires |s'.queues| == CLASSES && s'.air == s.air
    ensures |Complete(s').queues| == CLASSES && TransmitsTop(s, Complete(s'))
  {
  }

  // ----- how often a packet is tried -----

  /** Retries a buffer has left before it is dropped. */
  function Left(fails: nat): nat {
    if fails < MAX_CSMA_FAILS - 1 then MAX_CSMA_FAILS - 1 - fails else 0
  }

  /** The retry budget of every buffer that is queued or on the air. */
  function Budget(s: Sched): map<Ptr, nat>
    requires |s.queues| == CLASSES
  {
    map p | p in Outstanding(s) && p in s.fails :: Left(s.fails[p])
  }

  /** Every transmission begun or still possible is paid for by an accepted packet, five apiece. */
  ghost predicate Paid(s: Sched)
    requires |s.queues| == CLASSES
  {
    |s.air| + Queued(s) + Sum(Budget(s)) <= MAX_CSMA_FAILS * |s.accepted|
  }

  lemma DispatchKeepsPaid(s: Sched)
    requires |s.queues| == CLASSES && Paid(s)
    ensures Paid(Dispatch(s))
  {
    hide Outstanding, Dispatch;
    DispatchKeeps(s);
    assert Budget(Dispatch(s)) == Budget(s);
  }

  lemma JoinAddsOne(s: Sched, c: nat, p: Ptr)
    requires |s.queues| == CLASSES && c < CLASSES
    ensures Outstanding(Join(s, c, p)) == Outstanding(s) + multiset{p}
    ensures Queued(Join(s, c, p)) == Queued(s) + 1
  {
    hide Waiting;
    PushAddsOne(s.queues, c, p);
  }

  lemma JoinRenewsBudget(s: Sched, c: nat, p: Ptr)
    requires |s.queues| == CLASSES && c < CLASSES
    ensures Budget(Join(s, c, p)) == Budget(s)[p := Left(0)]
  {
    hide Outstanding, Left;
    JoinAddsOne(s, c, p);
  }

  lemma JoinIsPaid(s: Sched, c: nat, p: Ptr)
    requires |s.queues| == CLASSES && c < CLASSES && Paid(s)
    ensures Paid(Join(s, c, p))
  {
    hide Outstanding, Queued, Budget;
    JoinAddsOne(s, c, p);
    JoinRenewsBudget(s, c, p);
    SumPut(Budget(s), p, Left(0));
  }

  /** A failure uses up one retry, if there is one left. */
  lemma FailureUsesBudget(s: Sched)
    requires Core(s) && s.current.Some?
    ensures var f := s.fails[s.current.value.ptr];
            Sum(Budget(Failed(s))) == Sum(Budget(s)) - (if f < MAX_CSMA_FAILS - 1 then 1 else 0)
  {
    hide Waiting;
    var p := s.current.value.ptr;
    assert p in Outstanding(s);
    assert Budget(Failed(s)) == Budget(s)[p := Left(s.fails[p] + 1)];
    SumPut(Budget(s), p, Left(s.fails[p] + 1));
  }

  lemma LeavingFreesBudget(s: Sched)
    requires Core(s) && s.current.Some?
    ensures Sum(Budget(s.(current := None))) <= Sum(Budget(s))
  {
    hide Waiting;
    var p := s.current.value.ptr;
    var t := s.(current := None);
    assert p in Outstanding(s);
    SumRemove(Budget(s), p);
    if p in Outstanding(t) {
      assert Budget(t) == Budget(s);
    } else {
      assert Budget(t) == Budget(s) - {p};
    }
  }

  lemma StepKeepsPaid(s: Sched, e: Event)
    requires Inv(s) && Paid(s)
    ensures Inv(Step(s, e)) && Paid(Step(s, e))
  {
    hide Dispatch, Budget, Counted;
    StepKeepsInv(s, e);
    match e
    case Accept(c, p) =>
      if c < CLASSES && |s.queues[c]| < MAX_QUEUE {
        JoinIsPaid(s, c, p);
        DispatchKeepsPaid(Join(s, c, p));
      }
    case Sent =>
      if s.current.Some? {
        LeavingFreesBudget(s);
        DispatchKeepsPaid(s.(current := None));
      }
    case Busy =>
      if s.current.Some? {
        var t := Failed(s);
        FailureUsesBudget(s);
        FailingKeepsCore(s);
        LeavingFreesBudget(t);
        SameBudget(t, Again(t));
        DispatchKeepsPaid(t.(current := None));
      }
  }

  lemma SameBudget(s: Sched, t: Sched)
    requires |s.queues| == CLASSES && s.queues == t.queues && s.current == t.current && s.fails == t.fails
    ensures Budget(s) == Budget(t)
  {
  }

  /** Over every run the radio is asked to transmit at most five times per accepted packet, even
      though re-queueing a sticky packet clears its failure count while it is queued or on the air. */
  lemma {:induction false} AttemptsAreBounded(es: seq<Event>)
    ensures Paid(Run(es))
    ensures |Run(es).air| <= MAX_CSMA_FAILS * |Run(es).accepted|
    decreases |es|
  {
    if es == [] {
      assert Budget(IDLE) == map[];
    } else {
      var n := |es| - 1;
      AttemptsAreBounded(es[..n]);
      StepKeepsPaid(Run(es[..n]), es[n]);
    }
  }

  /** Four times in a row a fresh packet on the air survives a busy channel and is tried again with the
      queues untouched; the fifth time it is dropped for good, and the next in line takes its place. */
  lemma FifthBusyDrops(s: Sched)
    requires Inv(s) && s.current.Some? && s.fails[s.current.value.ptr] == 0
    ensures var again := Transmission(s.current.value, true);
            var t := s.(fails := s.fails[s.current.value.ptr := 4], air := s.air + [again, again, again, again]);
            && Inv(t) && Step(Step(Step(Step(s, Busy), Busy), Busy), Busy) == t
            && Step(t, Busy) == Complete(t.(fails := s.fails[s.current.value.ptr := 5]))
            && Pending(Step(t, Busy)) == Pending(s) - 1
  {
    hide Waiting, Counted, Step, Complete;
    OneMoreTry(s);
    var s1 := OneMore(s);
    OneMoreTry(s1);
    var s2 := OneMore(s1);
    OneMoreTry(s2);
    var s3 := OneMore(s2);
    OneMoreTry(s3);
    var p, again := s.current.value.ptr, Transmission(s.current.value, true);
    var t := OneMore(s3);
    assert t.fails == s.fails[p := 4] && t.air == s.air + [again, again, again, again];
    assert s.fails[p := 4][p := 5] == s.fails[p := 5];
    FailingKeepsCore(t);
    CompleteFacts(Failed(t));
    LastTry(t);
  }

  lemma LastTry(s: Sched)
    requires Inv(s) && s.current.Some? && s.fails[s.current.value.ptr] == 4
    ensures Step(s, Busy) == Complete(Failed(s))
  {
  }

  function OneMore(s: Sched): Sched
    requires s.current.Some? && s.current.value.ptr in s.fails
  {
    Again(Failed(s))
  }

  lemma OneMoreTry(s: Sched)
    requires Inv(s) && s.current.Some? && s.fails[s.current.value.ptr] < 4
    ensures Inv(OneMore(s)) && Step(s, Busy) == OneMore(s)
  {
    FailingKeepsCore(s);
  }

  // ----- the eight-bit failure counter -----

  const MAX_FAILS := 69

  /** A count past the limit is paid for by occurrences of the buffer that have been dropped. */
  ghost predicate FewFails(s: Sched)
    requires |s.queues| == CLASSES
  {
    forall p <- s.fails :: s.fails[p] < MAX_CSMA_FAILS || s.fails[p] + Outstanding(s)[p] <= MAX_FAILS
  }

  lemma CountInQueue(q: seq<Ptr>, p: Ptr)
    ensures multiset(q)[p] <= |q|
  {
    if q != [] {
      CountInQueue(q[1..], p);
      assert q == [q[0]] + q[1..];
    }
  }

  lemma OutstandingBound(s: Sched, p: Ptr)
    requires Core(s)
    ensures Outstanding(s)[p] <= CLASSES * MAX_QUEUE + 1
  {
    CountInQueue(s.queues[0], p);
    CountInQueue(s.queues[1], p);
    CountInQueue(s.queues[2], p);
    CountInQueue(s.queues[3], p);
  }

  /** Same counts and no more occurrences. */
  lemma FewFailsOfFewer(s: Sched, t: Sched)
    requires |s.queues| == CLASSES && |t.queues| == CLASSES && FewFails(s)
    requires t.fails == s.fails && Outstanding(t) <= Outstanding(s)
    ensures FewFails(t)
  {
    hide Outstanding;
  }

  lemma JoinKeepsFewFails(s: Sched, c: nat, p: Ptr)
    requires |s.queues| == CLASSES && c < CLASSES && FewFails(s)
    ensures FewFails(Join(s, c, p))
  {
    hide Outstanding;
    JoinAddsOne(s, c, p);
  }

  lemma DropKeepsFewFails(s: Sched)
    requires Core(s) && s.current.Some? && FewFails(s)
    ensures FewFails(Failed(s).(current := None))
    ensures Failed(s).fails[s.current.value.ptr] < MAX_CSMA_FAILS ==> FewFails(Failed(s))
  {
    hide Waiting, Counted;
    OutstandingBound(s, s.current.value.ptr);
  }

  lemma StepKeepsFewFails(s: Sched, e: Event)
    requires Inv(s) && FewFails(s)
    ensures Inv(Step(s, e)) && FewFails(Step(s, e))
  {
    hide Dispatch, Waiting, Counted, FewFails;
    StepKeepsInv(s, e);
    match e
    case Accept(c, p) =>
      if c < CLASSES && |s.queues[c]| < MAX_QUEUE {
        JoinKeepsFewFails(s, c, p);
        DispatchKeeps(Join(s, c, p));
        FewFailsOfFewer(Join(s, c, p), Step(s, e));
      }
    case Sent =>
      if s.current.Some? {
        DispatchKeeps(s.(current := None));
        FewFailsOfFewer(s, Step(s, e));
      }
    case Busy =>
      if s.current.Some? {
        var t := Failed(s);
        DropKeepsFewFails(s);
        DispatchKeeps(t.(current := None));
        if t.fails[s.current.value.ptr] < MAX_CSMA_FAILS {
          FewFailsOfFewer(t, Step(s, e));
        } else {
          FewFailsOfFewer(t.(current := None), Step(s, e));
        }
      }
  }

  /** Over every run every failure count stays below 70, so the firmware's eight-bit counter never wraps. */
  lemma {:induction false} FailCountsFit(es: seq<Event>, p: Ptr)
    ensures FewFails(Run(es))
    ensures p in Run(es).fails ==> Run(es).fails[p] <= MAX_FAILS < 0x100
    decreases |es|
  {
    if es == [] {
    } else {
      var n := |es| - 1;
      FailCountsFit(es[..n], p);
      StepKeepsFewFails(Run(es[..n]), es[n]);
    }
  }

  // ----- draining -----

  /** How many more radio reports the outstanding packets can cause at most. */
  function Work(s: Sched): nat
    requires Core(s)
  {
    MAX_CSMA_FAILS * Queued(s) + if s.current.Some? then 1 + Left(s.fails[s.current.value.ptr]) else 0
  }

  function RunFrom(s: Sched, es: seq<Event>): (t: Sched)
    requires Inv(s)
    ensures Inv(t)
    decreases |es|
  {
    if es == [] then s
    else
      StepKeepsInv(s, es[0]);
      RunFrom(Step(s, es[0]), es[1..])
  }

  lemma DispatchAddsNoWork(s: Sched)
    requires Core(s) && s.current.None?
    ensures Inv(Dispatch(s)) && Work(Dispatch(s)) <= Work(s)
  {
    DispatchMakesInv(s);
    DispatchKeeps(s);
  }

  lemma ReportsReduceWork(s: Sched, e: Event)
    requires Inv(s) && !e.Accept? && s.current.Some?
    ensures Inv(Step(s, e)) && Work(Step(s, e)) < Work(s)
  {
    hide Counted, Dispatch;
    if e.Sent? {
      DispatchAddsNoWork(s.(current := None));
    } else {
      FailingKeepsCore(s);
      DispatchAddsNoWork(Failed(s).(current := None));
      StepKeepsInv(s, e);
    }
  }

  /** With nothing new accepted, any mixture of sent and busy reports empties the scheduler, after at
      most five reports per outstanding packet; a drained scheduler stays drained. */
  lemma {:induction false} Drains(s: Sched, es: seq<Event>)
    requires Inv(s) && (forall i :: 0 <= i < |es| ==> !es[i].Accept?)
    requires |es| >= Work(s)
    ensures Pending(RunFrom(s, es)) == 0
    ensures Work(s) <= MAX_CSMA_FAILS * Pending(s)
    decreases |es|
  {
    if es == [] {
    } else {
      if s.current.Some? {
        ReportsReduceWork(s, es[0]);
      }
      Drains(Step(s, es[0]), es[1..]);
    }
  }

  // ----- what the two kinds of step do to the firmware's fields -----

  lemma AcceptFacts(s: Sched, c: nat, p: Ptr)
    requires Inv(s) && c < CLASSES && |s.queues[c]| < MAX_QUEUE
    ensures var t := Step(s, Accept(c, p));
            && Inv(t) && Outstanding(t) == Outstanding(s) + multiset{p} && t.fails == s.fails[p := 0]
            && t.accepted == s.accepted + [Job(c, p)]
            && Pending(t) == Pending(s) + 1
            && (s.current.None? ==>
                  t.queues == s.queues && t.current == Some(Job(c, p)) && t.air == s.air + [Transmission(Job(c, p), false)])
            && (s.current.Some? ==> t.queues == s.queues[c := s.queues[c] + [p]] && t.current == s.current && t.air == s.air)
  {
    StepKeepsInv(s, Accept(c, p));
    JoinAddsOne(s, c, p);
    DispatchKeeps(Join(s, c, p));
    if s.current.None? {
      StartsAtOnce(s, c, p);
    } else {
      WaitsItsTurn(s, c, p);
    }
  }

  lemma CompleteFacts(s: Sched)
    requires Core(s) && s.current.Some?
    ensures var t := Complete(s);
            && Inv(t) && Outstanding(t) == Outstanding(s) - multiset{s.current.value.ptr} && t.fails == s.fails
            && t.accepted == s.accepted
            && Pending(t) == Pending(s) - 1
            && match TopClass(s.queues) {
                 case None => t.queues == s.queues && t.current == None && t.air == s.air && Pending(t) == 0
                 case Some(c) =>
                   && t.queues == s.queues[c := s.queues[c][1..]]
                   && t.current == Some(Job(c, s.queues[c][0]))
                   && t.air == s.air + [Transmission(Job(c, s.queues[c][0]), false)]
                   && Pending(t) > 0
               }
  {
    DispatchMakesInv(s.(current := None));
    DispatchKeeps(s.(current := None));
  }

  lemma PendingIsSmall(s: Sched)
    requires Core(s)
    ensures Pending(s) <= CLASSES * MAX_QUEUE + 1
    ensures Inv(s) ==> (s.current.None? <==> Pending(s) == 0)
  {
  }
}
