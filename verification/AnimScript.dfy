/** Indicator animation scripts: what one run of the interpreter does, when it ends, and what a channel
    shows over time if its script is played all by itself. */
module AnimScript {
  import opened Bits

  const NO_OP: byte := 0x00
  const TURN_ON: byte := 0x10
  const TURN_OFF: byte := 0x11
  const DELAY: byte := 0x20
  const RESTART: byte := 0xFE
  const END: byte := 0xFF

  /** The stored script offset has eight bits. */
  const OFFSET_WRAP := 0x100

  type Script = seq<byte>

  /** How a stretch of commands ends, after writing `writes` to the pin. */
  datatype Stretch = Halts(writes: seq<bool>)                              // script over, or unknown command
                   | Pauses(writes: seq<bool>, offset: nat, delay: nat)    // waiting, to resume at offset
                   | Restarts(writes: seq<bool>)                           // back to the beginning
                   | Overruns(writes: seq<bool>)                           // a delay without its operand
                   | Diverges                                              // restarts for ever

  function Prepend(w: seq<bool>, t: Stretch): Stretch {
    match t
    case Halts(ws) => Halts(w + ws)
    case Pauses(ws, o, d) => Pauses(w + ws, o, d)
    case Restarts(ws) => Restarts(w + ws)
    case Overruns(ws) => Overruns(w + ws)
    case Diverges => Diverges
  }

  /** Decode straight on from an offset, up to the first command that stops or jumps. */
  function Straight(s: Script, off: nat): (t: Stretch)
    ensures !t.Diverges? && (t.Pauses? ==> t.delay <= 0xFF)
    decreases |s| - off
  {
    if off >= |s| then Halts([])
    else if s[off] == TURN_ON then Prepend([true], Straight(s, off + 1))
    else if s[off] == TURN_OFF then Prepend([false], Straight(s, off + 1))
    else if s[off] == NO_OP then Straight(s, off + 1)
    else if s[off] == DELAY then
      if off + 1 < |s| then Pauses([], (off + 2) % OFFSET_WRAP, s[off + 1]) else Overruns([])
    else if s[off] == RESTART then Restarts([])
    else Halts([])
  }

  /** One whole run of the interpreter: a restart is followed once, a second one never ends. */
  function Play(s: Script, off: nat): (t: Stretch)
    ensures !t.Restarts? && (t.Pauses? ==> t.delay <= 0xFF)
  {
    match Straight(s, off)
    case Restarts(ws) =>
      (match Straight(s, 0)
       case Restarts(_) => Diverges
       case t => Prepend(ws, t))
    case t => t
  }

  /** Offsets fit the eight bits they are stored in. */
  lemma OffsetsFit(s: Script, off: nat)
    ensures Play(s, off).Pauses? ==> Play(s, off).offset < OFFSET_WRAP
  {
    StraightOffsetsFit(s, off);
    StraightOffsetsFit(s, 0);
  }

  lemma {:induction false} StraightOffsetsFit(s: Script, off: nat)
    ensures Straight(s, off).Pauses? ==> Straight(s, off).offset < OFFSET_WRAP
    decreases |s| - off
  {
    if off >= |s| {
    } else {
      StraightOffsetsFit(s, off + 1);
    }
  }

  lemma PrependTwice(a: seq<bool>, b: seq<bool>, t: Stretch)
    ensures Prepend(a, Prepend(b, t)) == Prepend(a + b, t)
    ensures Prepend([], t) == t
  {
    match t
    case Halts(ws) => assert a + (b + ws) == a + b + ws;
    case Pauses(ws, _, _) => assert a + (b + ws) == a + b + ws;
    case Restarts(ws) => assert a + (b + ws) == a + b + ws;
    case Overruns(ws) => assert a + (b + ws) == a + b + ws;
    case Diverges =>
  }

  /** What is left of a run at an offset, a restart having been followed already or not. */
  function Rest(s: Script, off: nat, restarted: bool): Stretch {
    if restarted then Straight(s, off) else Play(s, off)
  }

  /** One command peeled off what is left of a run. */
  lemma NextCommand(s: Script, off: nat, restarted: bool)
    requires off < |s| && (restarted ==> !Straight(s, off).Restarts?)
    ensures var rest := Rest(s, off, restarted);
            if s[off] == TURN_ON || s[off] == TURN_OFF then
              rest == Prepend([s[off] == TURN_ON], Rest(s, off + 1, restarted)) && !(restarted && Straight(s, off + 1).Restarts?)
            else if s[off] == NO_OP then rest == Rest(s, off + 1, restarted) && !(restarted && Straight(s, off + 1).Restarts?)
            else if s[off] == DELAY then
              rest == if off + 1 < |s| then Pauses([], (off + 2) % OFFSET_WRAP, s[off + 1]) else Overruns([])
            else if s[off] == RESTART then
              !restarted && rest == if Straight(s, 0).Restarts? then Diverges else Rest(s, 0, true)
            else rest == Halts([])
  {
    if s[off] == TURN_ON || s[off] == TURN_OFF {
      match Straight(s, off + 1)
      case Restarts(ws) => PrependTwice([s[off] == TURN_ON], ws, Straight(s, 0));
      case _ =>
    } else if s[off] == RESTART {
      PrependTwice([], [], Straight(s, 0));
    }
  }

  lemma NothingLeft(s: Script, off: nat, restarted: bool)
    requires off >= |s|
    ensures Rest(s, off, restarted) == Halts([])
  {
  }

  // ----- termination -----

  /** The interpreter command by command: at an offset, or stopped. */
  datatype Machine = At(off: nat) | Stopped

  function Command(s: Script, m: Machine): Machine {
    match m
    case Stopped => Stopped
    case At(off) =>
      if off >= |s| then Stopped
      else if s[off] == TURN_ON || s[off] == TURN_OFF || s[off] == NO_OP then At(off + 1)
      else if s[off] == RESTART then At(0)
      else Stopped
  }

  function Commands(s: Script, m: Machine, n: nat): Machine
    decreases n
  {
    if n == 0 then m else Commands(s, Command(s, m), n - 1)
  }

  lemma {:induction false} CommandsAdd(s: Script, m: Machine, i: nat, j: nat)
    ensures Commands(s, m, i + j) == Commands(s, Commands(s, m, i), j)
    decreases i
  {
    if i == 0 {
    } else {
      CommandsAdd(s, Command(s, m), i - 1, j);
    }
  }

  /** A straight stretch takes at most one step per remaining byte and one more, to its stop or to a
      restart. */
  lemma {:induction false} StraightEnds(s: Script, off: nat) returns (n: nat)
    ensures 1 <= n <= (if off < |s| then |s| - off else 0) + 1
    ensures Commands(s, At(off), n) == if Straight(s, off).Restarts? then At(0) else Stopped
    ensures Straight(s, off).Restarts? ==> n + off <= |s| && forall i :: 0 <= i < n ==> Commands(s, At(off), i) != Stopped
    decreases |s| - off
  {
    if off < |s| && (s[off] == TURN_ON || s[off] == TURN_OFF || s[off] == NO_OP) {
      var m := StraightEnds(s, off + 1);
      n := m + 1;
      forall i | 0 <= i < n && Straight(s, off).Restarts?
        ensures Commands(s, At(off), i) != Stopped
      {
        if i > 0 {
          assert Commands(s, At(off), i) == Commands(s, At(off + 1), i - 1);
        }
      }
    } else {
      n := 1;
      assert Commands(s, At(off), 1) == Commands(s, Command(s, At(off)), 0);
    }
  }

  lemma {:induction false} StoppedStays(s: Script, n: nat)
    ensures Commands(s, Stopped, n) == Stopped
    decreases n
  {
    if n == 0 {
    } else {
      StoppedStays(s, n - 1);
    }
  }

  /** If decoding from the beginning reaches a restart, a machine at the beginning never stops. */
  lemma {:induction false} LoopsForever(s: Script, n: nat)
    requires Straight(s, 0).Restarts?
    ensures Commands(s, At(0), n) != Stopped
    decreases n
  {
    var k := StraightEnds(s, 0);
    if n >= k {
      CommandsAdd(s, At(0), k, n - k);
      LoopsForever(s, n - k);
    }
  }

  /** The interpreter stops exactly when it does not meet a restart both from its offset and from the
      beginning; and then within two commands per script byte, plus two. */
  lemma TerminatesExactly(s: Script, off: nat)
    ensures (exists n: nat :: Commands(s, At(off), n) == Stopped) <==> !Play(s, off).Diverges?
    ensures !Play(s, off).Diverges? ==> exists n: nat :: n <= 2 * |s| + 2 && Commands(s, At(off), n) == Stopped
  {
    var k := StraightEnds(s, off);
    if Straight(s, off).Restarts? {
      var j := StraightEnds(s, 0);
      CommandsAdd(s, At(off), k, j);
      if Straight(s, 0).Restarts? {
        forall n: nat
          ensures Commands(s, At(off), n) != Stopped
        {
          if n >= k {
            CommandsAdd(s, At(off), k, n - k);
            LoopsForever(s, n - k);
          }
        }
      } else {
        assert Commands(s, At(off), k + j) == Stopped;
      }
    }
  }

  // ----- a script played alone -----

  /** A pin write, with its tick. */
  datatype PinWrite = PinWrite(tick: nat, on: bool)

  /** A channel is idle, waits with a tick on record, or hangs: active, but waiting for nothing. */
  datatype Phase = Idle | Waiting(offset: nat, next: nat) | Hung

  datatype View = View(phase: Phase, writes: seq<PinWrite>)

  function Stamp(tick: nat, ws: seq<bool>): seq<PinWrite> {
    seq(|ws|, i requires 0 <= i < |ws| => PinWrite(tick, ws[i]))
  }

  /** A script installed in tick t, up to its first wait.  A first delay of zero hangs the channel. */
  function Begun(s: Script, t: nat): View {
    match Play(s, 0)
    case Halts(ws) => View(Idle, Stamp(t, ws))
    case Pauses(ws, o, d) => View(if d > 0 then Waiting(o, t + d) else Hung, Stamp(t, ws))
    case _ => View(Idle, [])
  }

  /** A script resumed in tick t, up to its next wait.  A delay of zero leaves the tick on record. */
  function Resumed(s: Script, off: nat, next: nat, t: nat): View {
    match Play(s, off)
    case Halts(ws) => View(Idle, Stamp(t, ws))
    case Pauses(ws, o, d) => View(Waiting(o, if d > 0 then t + d else next), Stamp(t, ws))
    case _ => View(Idle, [])
  }

  /** The tick on record has passed at the end of tick t: a zero delay right after a zero delay. */
  predicate Late(p: Phase, t: nat) {
    p.Waiting? && p.next < t
  }

  /** The channel asks to be resumed in tick t: the tick on record, or the one after a zero delay. */
  predicate Wants(p: Phase, t: nat) {
    p.Waiting? && (p.next == t || p.next + 1 == t)
  }

  /** What a channel in phase p at the end of tick `at` has written by the end of tick `now`, and its
      phase then, left to itself.  There is no timer here, only delays added up, a zero counting as one;
      a late channel is never resumed. */
  function Timeline(s: Script, p: Phase, at: nat, now: nat): View
    requires at <= now
    decreases now - at
  {
    if !p.Waiting? || Late(p, at) then View(p, [])
    else
      var wake := if p.next > at then p.next else at + 1;
      if now < wake then View(p, [])
      else
        var v := Resumed(s, p.offset, p.next, wake);
        var rest := Timeline(s, v.phase, wake, now);
        View(rest.phase, v.writes + rest.writes)
  }

  /** From one tick to the next a timeline stands still, except that a channel that asks is resumed. */
  lemma {:induction false} TimelineTick(s: Script, p: Phase, at: nat, now: nat)
    requires at <= now
    ensures var v := Timeline(s, p, at, now);
            var w := Timeline(s, p, at, now + 1);
            if Wants(v.phase, now + 1) then
              var t := Resumed(s, v.phase.offset, v.phase.next, now + 1);
              w == View(t.phase, v.writes + t.writes)
            else w == v
    decreases now - at
  {
    hide Resumed;
    if p.Waiting? && !Late(p, at) {
      var wake := if p.next > at then p.next else at + 1;
      var v := Resumed(s, p.offset, p.next, wake);
      if wake <= now {
        TimelineTick(s, v.phase, wake, now);
        var rest := Timeline(s, v.phase, wake, now);
        if Wants(rest.phase, now + 1) {
          var t := Resumed(s, rest.phase.offset, rest.phase.next, now + 1);
          assert v.writes + (rest.writes + t.writes) == (v.writes + rest.writes) + t.writes;
        }
      } else if wake == now + 1 {
        assert Timeline(s, v.phase, wake, now + 1) == View(v.phase, []);
        assert v.writes + [] == [] + v.writes;
      }
    }
  }

  // ----- which scripts play for ever, and which keep time -----

  /** Every offset in `r` ends a run properly, or leads to another one in `r`. */
  ghost predicate Closed(s: Script, r: set<nat>) {
    forall o <- r :: match Play(s, o)
                     case Halts(_) => true
                     case Pauses(_, o', _) => o' in r
                     case _ => false
  }

  /** No run from this offset on diverges or overruns. */
  ghost predicate PlaysFrom(s: Script, off: nat) {
    exists r :: off in r && Closed(s, r)
  }

  /** No run the channel ever reaches diverges or overruns; behind a first delay of zero none is reached. */
  ghost predicate Playable(s: Script) {
    match Play(s, 0)
    case Halts(_) => true
    case Pauses(_, o, d) => d > 0 ==> PlaysFrom(s, o)
    case _ => false
  }

  lemma PlaysOn(s: Script, off: nat)
    requires PlaysFrom(s, off)
    ensures Play(s, off).Halts? || (Play(s, off).Pauses? && PlaysFrom(s, Play(s, off).offset))
  {
    var r :| off in r && Closed(s, r);
    if Play(s, off).Pauses? {
      assert Play(s, off).offset in r;
    }
  }

  /** `r` holds offsets resumed after a proper delay, `z` offsets resumed after a delay of zero, and no
      delay of zero follows another. */
  ghost predicate Spaced(s: Script, r: set<nat>, z: set<nat>) {
    && (forall o <- r :: match Play(s, o)
                         case Halts(_) => true
                         case Pauses(_, o', d) => if d > 0 then o' in r else o' in z
                         case _ => false)
    && (forall o <- z :: match Play(s, o)
                         case Halts(_) => true
                         case Pauses(_, o', d) => d > 0 && o' in r
                         case _ => false)
  }

  ghost predicate KeepsTime(s: Script) {
    match Play(s, 0)
    case Halts(_) => true
    case Pauses(_, o, d) => d > 0 ==> exists r, z :: o in r && Spaced(s, r, z)
    case _ => false
  }

  /** Where a channel of a spaced script can be at the end of tick t. */
  ghost predicate OnTime(p: Phase, r: set<nat>, z: set<nat>, t: nat) {
    p.Waiting? ==> (p.next > t && p.offset in r) || (p.next == t && p.offset in z)
  }

  /** A script without two zero delays in a row is never late. */
  lemma {:induction false} SpacedIsOnTime(s: Script, r: set<nat>, z: set<nat>, p: Phase, at: nat, now: nat)
    requires at <= now && Spaced(s, r, z) && OnTime(p, r, z, at)
    ensures OnTime(Timeline(s, p, at, now).phase, r, z, now) && !Late(Timeline(s, p, at, now).phase, now)
    decreases now - at
  {
    if p.Waiting? {
      var wake := if p.next > at then p.next else at + 1;
      if wake <= now {
        var v := Resumed(s, p.offset, p.next, wake);
        SpacedIsOnTime(s, r, z, v.phase, wake, now);
      }
    }
  }

  /** The timeline of a script installed in tick t0. */
  function Alone(s: Script, t0: nat, now: nat): View
    requires t0 <= now
  {
    Timeline(s, Begun(s, t0).phase, t0, now)
  }

  /** Every offset a playable script's timeline waits at plays on. */
  lemma {:induction false} AlonePlays(s: Script, t0: nat, now: nat)
    requires Playable(s) && t0 <= now
    ensures var p := Alone(s, t0, now).phase;
            p.Waiting? ==> p.offset < OFFSET_WRAP && PlaysFrom(s, p.offset)
    decreases now - t0
  {
    hide PlaysFrom;
    if now == t0 {
      OffsetsFit(s, 0);
    } else {
      AlonePlays(s, t0, now - 1);
      TimelineTick(s, Begun(s, t0).phase, t0, now - 1);
      var p := Alone(s, t0, now - 1).phase;
      if Wants(p, now) {
        PlaysOn(s, p.offset);
        OffsetsFit(s, p.offset);
      }
    }
  }

  /** A channel with a tick on record ahead waits for it. */
  lemma {:induction false} WaitsUntil(s: Script, t0: nat, now: nat, later: nat)
    requires t0 <= now <= later && Alone(s, t0, now).phase.Waiting?
    requires now < Alone(s, t0, now).phase.next && later < Alone(s, t0, now).phase.next
    ensures Alone(s, t0, later).phase == Alone(s, t0, now).phase
    decreases later - now
  {
    if now == later {
    } else {
      WaitsUntil(s, t0, now, later - 1);
      TimelineTick(s, Begun(s, t0).phase, t0, later - 1);
    }
  }

  /** The phase after a due channel has been resumed. */
  lemma ResumedAlone(s: Script, t0: nat, now: nat)
    requires t0 <= now && Alone(s, t0, now).phase.Waiting? && now <= Alone(s, t0, now).phase.next
    ensures var p := Alone(s, t0, now).phase;
            var wake := if p.next > now then p.next else now + 1;
            Alone(s, t0, wake).phase == Resumed(s, p.offset, p.next, wake).phase
  {
    var p := Alone(s, t0, now).phase;
    if p.next > now {
      WaitsUntil(s, t0, now, p.next - 1);
      TimelineTick(s, Begun(s, t0).phase, t0, p.next - 1);
    } else {
      TimelineTick(s, Begun(s, t0).phase, t0, now);
    }
  }

  ghost predicate NeverLate(s: Script, t0: nat) {
    forall now: nat :: t0 <= now ==> !Late(Alone(s, t0, now).phase, now)
  }

  /** The timeline waits at this offset at some time, with its tick on record ahead, or current. */
  ghost predicate WaitsAt(s: Script, t0: nat, off: nat, ahead: bool) {
    exists now: nat :: t0 <= now && WaitsNow(Alone(s, t0, now).phase, off, now, ahead)
  }

  predicate WaitsNow(p: Phase, off: nat, now: nat, ahead: bool) {
    p.Waiting? && p.offset == off && if ahead then p.next > now else p.next == now
  }

  /** Where a wait leads that is never late. */
  lemma LeadsOn(s: Script, t0: nat, off: nat, ahead: bool)
    requires Playable(s) && NeverLate(s, t0) && WaitsAt(s, t0, off, ahead)
    ensures Play(s, off).Halts? || Play(s, off).Pauses?
    ensures Play(s, off).Pauses? ==>
              var d, o := Play(s, off).delay, Play(s, off).offset;
              o < OFFSET_WRAP && (ahead || d > 0) && WaitsAt(s, t0, o, d > 0)
  {
    hide Playable, PlaysFrom, Alone;
    var now: nat :| t0 <= now && WaitsNow(Alone(s, t0, now).phase, off, now, ahead);
    var p := Alone(s, t0, now).phase;
    AlonePlays(s, t0, now);
    PlaysOn(s, off);
    OffsetsFit(s, off);
    ResumedAlone(s, t0, now);
    var wake := if p.next > now then p.next else now + 1;
    if Play(s, off).Pauses? {
      assert !Late(Alone(s, t0, wake).phase, wake);
      assert WaitsNow(Alone(s, t0, wake).phase, Play(s, off).offset, wake, Play(s, off).delay > 0);
    }
  }

  /** A playable script keeps time if and only if, played alone, it is never late. */
  lemma KeepsTimeExactly(s: Script, t0: nat)
    requires Playable(s)
    ensures KeepsTime(s) <==> NeverLate(s, t0)
  {
    var begun := Begun(s, t0).phase;
    if begun.Waiting? {
      if KeepsTime(s) {
        var r, z :| begun.offset in r && Spaced(s, r, z);
        forall now: nat | t0 <= now
          ensures !Late(Alone(s, t0, now).phase, now)
        {
          SpacedIsOnTime(s, r, z, begun, t0, now);
        }
      }
      if NeverLate(s, t0) {
        NeverLateIsSpaced(s, t0);
      }
    }
  }

  lemma NeverLateIsSpaced(s: Script, t0: nat)
    requires Playable(s) && NeverLate(s, t0) && Begun(s, t0).phase.Waiting?
    ensures exists r, z :: Begun(s, t0).phase.offset in r && Spaced(s, r, z)
  {
    hide Playable, NeverLate, WaitsAt;
    var r := set o: nat | o < OFFSET_WRAP && WaitsAt(s, t0, o, true);
    var z := set o: nat | o < OFFSET_WRAP && WaitsAt(s, t0, o, false);
    forall o <- r + z
      ensures o in r ==> WaitsAt(s, t0, o, true)
      ensures o in z ==> WaitsAt(s, t0, o, false)
    {
    }
    forall o <- r {
      LeadsOn(s, t0, o, true);
    }
    forall o <- z {
      LeadsOn(s, t0, o, false);
    }
    BegunWaits(s, t0);
    assert Spaced(s, r, z);
  }

  lemma BegunWaits(s: Script, t0: nat)
    requires Begun(s, t0).phase.Waiting?
    ensures WaitsAt(s, t0, Begun(s, t0).phase.offset, true) && Begun(s, t0).phase.offset < OFFSET_WRAP
  {
    OffsetsFit(s, 0);
    assert WaitsNow(Alone(s, t0, t0).phase, Begun(s, t0).phase.offset, t0, true);
  }

  const TWO_ZERO_DELAYS: Script := [DELAY, 1, DELAY, 0, DELAY, 0, TURN_ON, END]

  lemma TwoZeroDelaysPlay()
    ensures var s := TWO_ZERO_DELAYS;
            && Play(s, 0) == Pauses([], 2, 1) && Play(s, 2) == Pauses([], 4, 0) && Play(s, 4) == Pauses([], 6, 0)
            && Play(s, 6) == Halts([true]) && Playable(s)
  {
    var s := TWO_ZERO_DELAYS;
    assert Play(s, 0) == Pauses([], 2, 1);
    assert Play(s, 2) == Pauses([], 4, 0);
    assert Play(s, 4) == Pauses([], 6, 0);
    assert Straight(s, 7) == Halts([]);
    assert Play(s, 6) == Halts([true]);
    assert Closed(s, {2, 4, 6});
  }

  /** Two zero delays in a row leave a channel late; played alone, it then stands still for ever. */
  lemma TwoZeroDelaysStick(now: nat)
    requires now >= 2
    ensures Playable(TWO_ZERO_DELAYS) && !KeepsTime(TWO_ZERO_DELAYS)
    ensures var v := Alone(TWO_ZERO_DELAYS, 0, now); Late(v.phase, now) && v.writes == []
  {
    var s := TWO_ZERO_DELAYS;
    TwoZeroDelaysPlay();
    assert Stamp(1, []) == [] && Stamp(2, []) == [];
    assert Timeline(s, Waiting(6, 1), 2, now) == View(Waiting(6, 1), []);
    assert Timeline(s, Waiting(4, 1), 1, now) == View(Waiting(6, 1), []);
    assert Timeline(s, Waiting(2, 1), 0, now) == View(Waiting(6, 1), []);
    KeepsTimeExactly(s, 0);
  }

  // ----- the built-in scripts (delays in ticks of 4 ms) -----

  const ANIM_TURN_OFF: Script := [TURN_OFF, END]
  const ANIM_LONG_BLINK: Script := [TURN_ON, DELAY, 125, TURN_OFF, END]
  const ANIM_SHORT_BLINK: Script := [TURN_ON, DELAY, 7, TURN_OFF, DELAY, 7, END]
  const ANIM_BLINK_FAST: Script := [TURN_ON, DELAY, 125, TURN_OFF, DELAY, 125, RESTART]
  const ANIM_BLINK_SLOW: Script := [TURN_ON, DELAY, 250, TURN_OFF, DELAY, 250, RESTART]

  lemma ShortBlinkPlays()
    ensures var s := ANIM_SHORT_BLINK;
            Play(s, 0) == Pauses([true], 3, 7) && Play(s, 3) == Pauses([false], 6, 7) && Play(s, 6) == Halts([])
  {
    var s := ANIM_SHORT_BLINK;
    assert Straight(s, 1) == Pauses([], 3, 7);
    assert Straight(s, 4) == Pauses([], 6, 7);
  }

  lemma LongBlinkPlays()
    ensures Play(ANIM_LONG_BLINK, 0) == Pauses([true], 3, 125) && Play(ANIM_LONG_BLINK, 3) == Halts([false])
  {
    var s := ANIM_LONG_BLINK;
    assert Straight(s, 1) == Pauses([], 3, 125);
    assert Straight(s, 4) == Halts([]);
  }

  lemma ShortBlinkKeepsTime()
    ensures KeepsTime(ANIM_SHORT_BLINK)
  {
    ShortBlinkPlays();
    assert Spaced(ANIM_SHORT_BLINK, {3, 6}, {});
  }

  lemma LongBlinkKeepsTime()
    ensures KeepsTime(ANIM_TURN_OFF) && KeepsTime(ANIM_LONG_BLINK)
  {
    assert Straight(ANIM_TURN_OFF, 1) == Halts([]);
    assert Play(ANIM_TURN_OFF, 0) == Halts([false]);
    LongBlinkPlays();
    assert Spaced(ANIM_LONG_BLINK, {3}, {});
  }

  lemma BlinkPlays(d: byte)
    ensures var s := [TURN_ON, DELAY, d, TURN_OFF, DELAY, d, RESTART];
            Play(s, 0) == Play(s, 6) == Pauses([true], 3, d) && Play(s, 3) == Pauses([false], 6, d)
  {
    var s := [TURN_ON, DELAY, d, TURN_OFF, DELAY, d, RESTART];
    assert Straight(s, 1) == Pauses([], 3, d);
    assert Straight(s, 0) == Pauses([true], 3, d);
    assert Straight(s, 4) == Pauses([], 6, d);
    assert Play(s, 6) == Pauses([true], 3, d);
  }

  /** Both attention patterns, with half-period d. */
  lemma BlinkKeepsTime(d: byte)
    requires d > 0
    ensures KeepsTime([TURN_ON, DELAY, d, TURN_OFF, DELAY, d, RESTART])
  {
    BlinkPlays(d);
    assert Spaced([TURN_ON, DELAY, d, TURN_OFF, DELAY, d, RESTART], {3, 6}, {});
  }

  // ----- what the built-in scripts show -----

  /** On in the even steps, off in the odd ones, d ticks apart. */
  function Square(t0: nat, d: nat, steps: nat): (ws: seq<PinWrite>)
    ensures |ws| == steps && forall k :: 0 <= k < steps ==> ws[k] == PinWrite(t0 + k * d, k % 2 == 0)
  {
    seq(steps, k requires 0 <= k => PinWrite(t0 + k * d, k % 2 == 0))
  }

  lemma SquareStep(t0: nat, d: nat, n: nat)
    ensures Square(t0, d, n + 1) == Square(t0, d, n) + [PinWrite(t0 + n * d, n % 2 == 0)]
  {
  }

  /** The attention patterns with half-period d: n whole half-periods and r ticks after the installation
      the pin has been switched on, off, on, and so forth, n + 1 times, every d ticks. */
  lemma {:induction false} BlinkShows(d: byte, t0: nat, n: nat, r: nat)
    requires d > 0 && r < d
    ensures var s := [TURN_ON, DELAY, d, TURN_OFF, DELAY, d, RESTART];
            var v := Alone(s, t0, t0 + n * d + r);
            && v.phase == Waiting(if n % 2 == 0 then 3 else 6, t0 + n * d + d)
            && Begun(s, t0).writes + v.writes == Square(t0, d, n + 1)
    decreases n, r
  {
    hide Play, Timeline, Square;
    var s := [TURN_ON, DELAY, d, TURN_OFF, DELAY, d, RESTART];
    BlinkPlays(d);
    if n == 0 && r == 0 {
      BlinkBegins(d, t0);
    } else {
      var m, q := if r > 0 then n else n - 1, if r > 0 then r - 1 else d - 1;
      assert r == 0 ==> n * d == m * d + d;
      var now := t0 + m * d + q;
      BlinkShows(d, t0, m, q);
      TimelineTick(s, Begun(s, t0).phase, t0, now);
      if r == 0 {
        SquareStep(t0, d, n);
        assert Stamp(now + 1, [n % 2 == 0]) == [PinWrite(t0 + n * d, n % 2 == 0)];
        assert Begun(s, t0).writes + (Alone(s, t0, now).writes + Stamp(now + 1, [n % 2 == 0]))
            == Square(t0, d, n) + [PinWrite(t0 + n * d, n % 2 == 0)];
      }
    }
  }

  lemma BlinkBegins(d: byte, t0: nat)
    requires d > 0
    ensures var s := [TURN_ON, DELAY, d, TURN_OFF, DELAY, d, RESTART];
            Begun(s, t0) == View(Waiting(3, t0 + d), [PinWrite(t0, true)]) && Alone(s, t0, t0) == View(Waiting(3, t0 + d), [])
    ensures Square(t0, d, 1) == [PinWrite(t0, true)]
  {
    BlinkPlays(d);
    assert Stamp(t0, [true]) == [PinWrite(t0, true)];
  }

  /** The activity blinks: on at once; off after 125 ticks, or after 7 with 7 more of rest. */
  lemma OneBlinkShows(t0: nat, now: nat)
    requires t0 <= now
    ensures var on, s := [PinWrite(t0, true)], ANIM_LONG_BLINK;
            && Begun(s, t0).writes + Alone(s, t0, now).writes == (if now < t0 + 125 then on else on + [PinWrite(t0 + 125, false)])
            && (Alone(s, t0, now).phase.Idle? <==> now >= t0 + 125)
    ensures var on, s := [PinWrite(t0, true)], ANIM_SHORT_BLINK;
            && Begun(s, t0).writes + Alone(s, t0, now).writes == (if now < t0 + 7 then on else on + [PinWrite(t0 + 7, false)])
            && (Alone(s, t0, now).phase.Idle? <==> now >= t0 + 14)
  {
    hide Play;
    LongBlinkPlays();
    ShortBlinkPlays();
    assert Stamp(t0, [true]) == [PinWrite(t0, true)] && Stamp(t0 + 125, [false]) == [PinWrite(t0 + 125, false)];
    assert Stamp(t0 + 7, [false]) == [PinWrite(t0 + 7, false)] && Stamp(t0 + 14, []) == [];
    LastWait(ANIM_LONG_BLINK, 3, t0 + 125, t0, now);
    if now >= t0 + 7 {
      LastWait(ANIM_SHORT_BLINK, 6, t0 + 14, t0 + 7, now);
    }
    assert Resumed(ANIM_SHORT_BLINK, 3, t0 + 7, t0 + 7) == View(Waiting(6, t0 + 14), [PinWrite(t0 + 7, false)]);
  }

  /** A wait after which the script ends. */
  lemma LastWait(s: Script, off: nat, next: nat, at: nat, now: nat)
    requires at < next && at <= now && Play(s, off).Halts?
    ensures Timeline(s, Waiting(off, next), at, now) ==
            if now < next then View(Waiting(off, next), []) else View(Idle, Stamp(next, Play(s, off).writes))
  {
    var ws := Stamp(next, Play(s, off).writes);
    assert ws + [] == ws;
  }

  /** A script that keeps time plays for ever. */
  lemma KeepingTimeIsPlayable(s: Script)
    requires KeepsTime(s)
    ensures Playable(s)
  {
    if Play(s, 0).Pauses? && Play(s, 0).delay > 0 {
      var r, z :| Play(s, 0).offset in r && Spaced(s, r, z);
      assert Closed(s, r + z);
    }
  }

  lemma BuiltInsKeepTime()
    ensures KeepsTime(ANIM_TURN_OFF) && KeepsTime(ANIM_LONG_BLINK) && KeepsTime(ANIM_SHORT_BLINK)
    ensures KeepsTime(ANIM_BLINK_FAST) && KeepsTime(ANIM_BLINK_SLOW)
  {
    hide KeepsTime;
    LongBlinkKeepsTime();
    ShortBlinkKeepsTime();
    BlinkKeepsTime(125);
    BlinkKeepsTime(250);
  }
}
