/** The indicator engine: three channels playing scripts, multiplexed onto one one-shot timer. */
module Indicators {
  import opened Common
  import opened Bits
  import opened AnimScript

  const CHANNELS := 3
  const MAX_DELAY := 0xFF

  datatype State = State(isIdle: bool, wantsTimerUpdate: bool, isOn: bool, animOffset: nat, currentAnim: Script, nextUpdate: nat)

  // ----- three channels without a timer -----

  datatype Channel = Channel(script: Script, phase: Phase, writes: seq<PinWrite>)

  /** A channel nothing was ever installed on. */
  const NO_CHANNEL := Channel([], Idle, [])

  function Resume(c: Channel, t: nat): Channel
    requires c.phase.Waiting?
  {
    var v := Resumed(c.script, c.phase.offset, c.phase.next, t);
    c.(phase := v.phase, writes := c.writes + v.writes)
  }

  function ResumeIfDue(c: Channel, t: nat): Channel {
    if c.phase.Waiting? && c.phase.next <= t then Resume(c, t) else c
  }

  predicate Fires(cs: seq<Channel>, t: nat) {
    exists i :: 0 <= i < |cs| && Wants(cs[i].phase, t)
  }

  /** If any channel asks for tick t, all whose tick on record has come are resumed: that is the one way
      in which channels can touch each other. */
  function Tick(cs: seq<Channel>, t: nat): (cs': seq<Channel>)
    ensures |cs'| == |cs|
  {
    if Fires(cs, t) then AllDue(cs, t) else cs
  }

  function AllDue(cs: seq<Channel>, t: nat): (cs': seq<Channel>)
    ensures |cs'| == |cs|
  {
    seq(|cs|, i requires 0 <= i < |cs| => ResumeIfDue(cs[i], t))
  }

  /** The channel takes a new script at once, or only if it is idle. */
  function Install(c: Channel, t: nat, script: Script, immediate: bool): Channel {
    if immediate || c.phase.Idle? then
      var v := Begun(script, t);
      Channel(script, v.phase, c.writes + v.writes)
    else c
  }

  datatype Event = Advance | SetScript(which: nat, script: Script, immediate: bool)

  /** The three channels after some events, and the time. */
  function Replay(es: seq<Event>): (r: (seq<Channel>, nat))
    ensures |r.0| == CHANNELS && r.1 <= |es|
  {
    if es == [] then ([NO_CHANNEL, NO_CHANNEL, NO_CHANNEL], 0)
    else
      var r := Replay(es[..|es| - 1]);
      match es[|es| - 1]
      case Advance => (Tick(r.0, r.1 + 1), r.1 + 1)
      case SetScript(which, script, immediate) =>
        if which < CHANNELS then (r.0[which := Install(r.0[which], r.1, script, immediate)], r.1) else r
  }

  // ----- one channel all by itself -----

  /** What a channel has been given: pin writes of earlier scripts, its script, and when that came. */
  datatype Given = Given(earlier: seq<PinWrite>, script: Script, installed: nat)

  /** What the current script has shown by the end of tick `now`, had it the firmware for itself. */
  function Shown(g: Given, now: nat): View
    requires g.installed <= now
  {
    var v := Begun(g.script, g.installed);
    var rest := Timeline(g.script, v.phase, g.installed, now);
    View(rest.phase, v.writes + rest.writes)
  }

  function Pin(g: Given, now: nat): seq<PinWrite>
    requires g.installed <= now
  {
    g.earlier + Shown(g, now).writes
  }

  /** What channel i has been given in some events, and the time; other channels play no part in it. */
  function Solo(es: seq<Event>, i: nat): (r: (Given, nat))
    ensures r.0.installed <= r.1
  {
    if es == [] then (Given([], [], 0), 0)
    else
      var r := Solo(es[..|es| - 1], i);
      match es[|es| - 1]
      case Advance => (r.0, r.1 + 1)
      case SetScript(which, script, immediate) =>
        if which == i && (immediate || Shown(r.0, r.1).phase.Idle?) then (Given(Pin(r.0, r.1), script, r.1), r.1) else r
  }

  /** Channel i, by itself, is never late. */
  predicate Punctual(es: seq<Event>, i: nat) {
    var r := Solo(es, i);
    (es == [] || Punctual(es[..|es| - 1], i)) && !Late(Shown(r.0, r.1).phase, r.1)
  }

  ghost predicate Agree(c: Channel, g: Given, now: nat) {
    g.installed <= now && c.script == g.script && c.phase == Shown(g, now).phase && c.writes == Pin(g, now)
  }

  lemma NothingPlayed()
    ensures Play([], 0) == Halts([])
  {
  }

  lemma JustInstalled(c: Channel, g: Given, now: nat, script: Script)
    requires Agree(c, g, now)
    ensures Agree(Install(c, now, script, true), Given(Pin(g, now), script, now), now)
  {
    var v := Begun(script, now);
    assert Timeline(script, v.phase, now, now) == View(v.phase, []);
    assert v.writes + [] == v.writes;
  }

  /** A channel that is not late is resumed among others exactly when it would be alone. */
  lemma TickAlone(cs: seq<Channel>, i: nat, g: Given, now: nat)
    requires i < |cs| && Agree(cs[i], g, now) && !Late(cs[i].phase, now)
    ensures Agree(Tick(cs, now + 1)[i], g, now + 1)
  {
    hide Timeline, Resumed, Begun;
    var v := Begun(g.script, g.installed);
    TimelineTick(g.script, v.phase, g.installed, now);
    var p := cs[i].phase;
    if Wants(p, now + 1) {
      assert Fires(cs, now + 1);
      var rest := Timeline(g.script, v.phase, g.installed, now);
      var t := Resumed(g.script, p.offset, p.next, now + 1);
      assert g.earlier + (v.writes + (rest.writes + t.writes)) == g.earlier + (v.writes + rest.writes) + t.writes;
    }
  }

  /** A late channel moves exactly when another one asks to be resumed. */
  lemma LateWaitsForOthers(cs: seq<Channel>, i: nat, now: nat)
    requires i < |cs| && Late(cs[i].phase, now)
    ensures Tick(cs, now + 1)[i] ==
            if exists j :: 0 <= j < |cs| && j != i && Wants(cs[j].phase, now + 1) then Resume(cs[i], now + 1) else cs[i]
  {
  }

  /** A hung channel takes part in nothing until a script is installed at once; no channel that is not idle
      takes a script otherwise. */
  lemma HungStaysHung(cs: seq<Channel>, i: nat, t: nat, script: Script)
    requires i < |cs| && !cs[i].phase.Idle?
    ensures Install(cs[i], t, script, false) == cs[i]
    ensures cs[i].phase.Hung? ==> Tick(cs, t)[i] == cs[i]
  {
  }

  /** A script installed at power-up shows the writes it shows alone. */
  lemma JustOneShows(script: Script, i: nat, n: nat)
    requires i < CHANNELS && KeepsTime(script)
    ensures Replay(JustOne(script, i, n)).0[i].writes == Begun(script, 0).writes + Alone(script, 0, n).writes
  {
    var es := JustOne(script, i, n);
    SpacedScriptsArePunctual(es, i);
    OthersDoNotMatter(es, i);
    SoloOfOne(script, i, n);
  }

  /** The attention patterns on any pin: switched on, off, on, ... every 125 or every 250 ticks. */
  lemma AttentionBlinks(i: nat, n: nat)
    requires i < CHANNELS
    ensures Replay(JustOne(ANIM_BLINK_FAST, i, n)).0[i].writes == Square(0, 125, n / 125 + 1)
    ensures Replay(JustOne(ANIM_BLINK_SLOW, i, n)).0[i].writes == Square(0, 250, n / 250 + 1)
  {
    hide KeepsTime, Replay, Begun, Alone;
    BuiltInsKeepTime();
    JustOneShows(ANIM_BLINK_FAST, i, n);
    JustOneShows(ANIM_BLINK_SLOW, i, n);
    BlinkShows(125, 0, n / 125, n % 125);
    BlinkShows(250, 0, n / 250, n % 250);
  }

  /** Over every run, a channel that by itself is never late shows among the others exactly what it
      would show by itself. */
  lemma {:induction false} OthersDoNotMatter(es: seq<Event>, i: nat)
    requires i < CHANNELS && Punctual(es, i)
    ensures Replay(es).1 == Solo(es, i).1
    ensures Agree(Replay(es).0[i], Solo(es, i).0, Solo(es, i).1)
    decreases |es|
  {
    hide Shown, Pin, Tick;
    if es == [] {
      NothingPlayed();
      FreshAgrees();
    } else {
      var es', e := es[..|es| - 1], es[|es| - 1];
      OthersDoNotMatter(es', i);
      var r, g := Replay(es'), Solo(es', i).0;
      match e
      case Advance => TickAlone(r.0, i, g, r.1);
      case SetScript(which, script, immediate) =>
        if which == i && (immediate || r.0[i].phase.Idle?) {
          JustInstalled(r.0[i], g, r.1, script);
        }
    }
  }

  lemma FreshAgrees()
    ensures Agree(NO_CHANNEL, Given([], [], 0), 0)
  {
    NothingPlayed();
    assert Stamp(0, []) == [];
  }

  /** Scripts without two zero delays in a row are punctual in every run. */
  lemma {:induction false} SpacedScriptsArePunctual(es: seq<Event>, i: nat)
    requires forall k :: 0 <= k < |es| && es[k].SetScript? ==> KeepsTime(es[k].script)
    ensures Punctual(es, i) && KeepsTime(Solo(es, i).0.script)
    decreases |es|
  {
    NothingPlayed();
    if es == [] {
    } else {
      var es' := es[..|es| - 1];
      assert forall k :: 0 <= k < |es'| ==> es'[k] == es[k];
      SpacedScriptsArePunctual(es', i);
    }
    KeepsTimeShown(Solo(es, i).0, Solo(es, i).1);
  }

  lemma KeepsTimeShown(g: Given, now: nat)
    requires g.installed <= now && KeepsTime(g.script)
    ensures !Late(Shown(g, now).phase, now)
  {
    var v := Begun(g.script, g.installed);
    if v.phase.Waiting? {
      var r, z :| v.phase.offset in r && Spaced(g.script, r, z);
      SpacedIsOnTime(g.script, r, z, v.phase, g.installed, now);
    }
  }

  function Ticks(n: nat): seq<Event> {
    seq(n, _ => Advance)
  }

  /** A script installed at power-up, and n ticks. */
  function JustOne(script: Script, i: nat, n: nat): seq<Event> {
    [SetScript(i, script, true)] + Ticks(n)
  }

  lemma {:induction false} SoloOfOne(script: Script, i: nat, n: nat)
    ensures Solo(JustOne(script, i, n), i) == (Given([], script, 0), n)
    decreases n
  {
    var es := JustOne(script, i, n);
    if n == 0 {
      FreshAgrees();
      assert es[..0] == [] && Solo([], i) == (Given([], [], 0), 0);
    } else {
      SoloOfOne(script, i, n - 1);
      assert es[..|es| - 1] == JustOne(script, i, n - 1) && es[|es| - 1] == Advance;
    }
  }

  /** The condition on scripts is exact: a playable script that is just left playing is punctual for ever
      if and only if it keeps time. */
  lemma PunctualExactly(script: Script, i: nat)
    requires Playable(script)
    ensures KeepsTime(script) <==> forall n :: Punctual(JustOne(script, i, n), i)
  {
    hide KeepsTime, Playable, Shown;
    KeepsTimeExactly(script, 0);
    if KeepsTime(script) {
      forall n
        ensures Punctual(JustOne(script, i, n), i)
      {
        SpacedScriptsArePunctual(JustOne(script, i, n), i);
      }
    } else {
      var n: nat :| Late(Alone(script, 0, n).phase, n);
      SoloOfOne(script, i, n);
      ShownIsAlone(script, n);
      assert !Punctual(JustOne(script, i, n), i);
    }
  }

  lemma ShownIsAlone(script: Script, now: nat)
    ensures Shown(Given([], script, 0), now).phase == Alone(script, 0, now).phase
  {
  }

  const WAKER: Script := [DELAY, 3, END]

  const TOGETHER: seq<Event> :=
    [SetScript(0, TWO_ZERO_DELAYS, true), SetScript(1, WAKER, true), Advance, Advance, Advance]

  /** The interference itself: a script with two zero delays in a row never lights its pin alone, and does
      in the tick a second channel asks for. */
  lemma OthersWakeTheLate()
    ensures Replay(TOGETHER).0[0].writes == [PinWrite(3, true)]
    ensures Pin(Solo(TOGETHER, 0).0, Solo(TOGETHER, 0).1) == []
  {
    JointOfTwo();
    SoloOfTwo();
    TwoZeroDelaysStick(3);
    assert Begun(TWO_ZERO_DELAYS, 0).writes == [] by {
      TwoZeroDelaysPlay();
    }
  }

  lemma ReplayStep(es: seq<Event>, k: nat)
    requires k < |es|
    ensures var r := Replay(es[..k]);
            Replay(es[..k + 1]) ==
            match es[k]
            case Advance => (Tick(r.0, r.1 + 1), r.1 + 1)
            case SetScript(which, script, immediate) =>
              if which < CHANNELS then (r.0[which := Install(r.0[which], r.1, script, immediate)], r.1) else r
  {
    assert es[..k + 1][..k] == es[..k];
  }

  /** The two channels of `TOGETHER`, the first one in phase p. */
  function Pair(p: Phase): seq<Channel> {
    [Channel(TWO_ZERO_DELAYS, p, []), Channel(WAKER, Waiting(2, 3), []), NO_CHANNEL]
  }

  /** A zero delay, or the first one, resumed in tick 1 or 2. */
  lemma PairTick(o: nat, o': nat, now: nat)
    requires 1 <= now <= 2 && Play(TWO_ZERO_DELAYS, o) == Pauses([], o', 0)
    ensures Tick(Pair(Waiting(o, 1)), now) == Pair(Waiting(o', 1))
  {
    var cs := Pair(Waiting(o, 1));
    assert Wants(cs[0].phase, now);
    assert Resumed(TWO_ZERO_DELAYS, o, 1, now) == View(Waiting(o', 1), []);
    assert Resume(cs[0], now) == Pair(Waiting(o', 1))[0];
    assert cs[1] == ResumeIfDue(cs[1], now) && cs[2] == ResumeIfDue(cs[2], now);
  }

  lemma TicksOfPair()
    ensures Tick(Pair(Waiting(2, 1)), 1) == Pair(Waiting(4, 1))
    ensures Tick(Pair(Waiting(4, 1)), 2) == Pair(Waiting(6, 1))
    ensures Tick(Pair(Waiting(6, 1)), 3)[0].writes == [PinWrite(3, true)]
  {
    hide Play;
    TwoZeroDelaysPlay();
    PairTick(2, 4, 1);
    PairTick(4, 6, 2);
    var cs := Pair(Waiting(6, 1));
    assert Wants(cs[1].phase, 3);
    assert Resumed(TWO_ZERO_DELAYS, 6, 1, 3) == View(Idle, [PinWrite(3, true)]);
    assert Resume(cs[0], 3).writes == [PinWrite(3, true)];
  }

  lemma PairInstalled()
    ensures Replay(TOGETHER[..2]) == (Pair(Waiting(2, 1)), 0)
  {
    TwoZeroDelaysPlay();
    assert Play(WAKER, 0) == Pauses([], 2, 3);
    var start := [NO_CHANNEL, NO_CHANNEL, NO_CHANNEL];
    assert TOGETHER[..0] == [] && Replay([]) == (start, 0);
    ReplayStep(TOGETHER, 0);
    ReplayStep(TOGETHER, 1);
    assert Begun(TWO_ZERO_DELAYS, 0) == View(Waiting(2, 1), []) && Begun(WAKER, 0) == View(Waiting(2, 3), []);
    assert start[0 := Pair(Waiting(2, 1))[0]][1 := Pair(Waiting(2, 1))[1]] == Pair(Waiting(2, 1));
  }

  lemma JointOfTwo()
    ensures Replay(TOGETHER).0[0].writes == [PinWrite(3, true)]
  {
    hide Replay, Tick, Pair;
    PairInstalled();
    TicksOfPair();
    ReplayStep(TOGETHER, 2);
    ReplayStep(TOGETHER, 3);
    ReplayStep(TOGETHER, 4);
    assert TOGETHER[..5] == TOGETHER;
  }

  lemma SoloOfTwo()
    ensures Solo(TOGETHER, 0) == (Given([], TWO_ZERO_DELAYS, 0), 3)
  {
    var es, g := TOGETHER, Given([], TWO_ZERO_DELAYS, 0);
    FreshAgrees();
    assert es[..4][..3] == es[..3] && es[..3][..2] == es[..2] && es[..2][..1] == es[..1] && es[..1][..0] == [];
    assert Solo([], 0) == (Given([], [], 0), 0);
    assert Solo(es[..1], 0) == (g, 0);
    assert Solo(es[..2], 0) == (g, 0);
    assert Solo(es[..3], 0) == (g, 1);
    assert Solo(es[..4], 0) == (g, 2);
  }

  // ----- the engine -----

  function Level(ws: seq<bool>, before: bool): bool {
    if ws == [] then before else ws[|ws| - 1]
  }

  /** The pin's level after a history of writes; it starts off. */
  function Lit(ws: seq<PinWrite>): bool {
    if ws == [] then false else ws[|ws| - 1].on
  }

  lemma LitAppend(ws: seq<PinWrite>, tick: nat, more: seq<bool>)
    ensures Lit(ws + Stamp(tick, more)) == Level(more, Lit(ws))
  {
  }

  /** A channel's state record is the one its phase predicts. */
  ghost predicate Matches(st: State, p: Phase) {
    match p
    case Idle => st.isIdle && !st.wantsTimerUpdate
    case Waiting(o, next) => !st.isIdle && st.wantsTimerUpdate && st.animOffset == o && st.nextUpdate == next
    case Hung => !st.isIdle && !st.wantsTimerUpdate
  }

  /** State record and pin are those of the channel, every run it can still reach ends, and its tick on
      record is at most one delay ahead. */
  ghost predicate InStep(st: State, pin: seq<PinWrite>, c: Channel, now: nat) {
    && st.currentAnim == c.script && Matches(st, c.phase) && pin == c.writes && st.isOn == Lit(pin)
    && (c.phase.Waiting? ==> PlaysFrom(c.script, c.phase.offset) && c.phase.next <= now + MAX_DELAY)
  }

  lemma RecordOf(st: State, pin: seq<PinWrite>, c: Channel, now: nat)
    requires InStep(st, pin, c, now)
    ensures (st.isIdle || !st.wantsTimerUpdate) <==> !c.phase.Waiting?
    ensures c.phase.Waiting? ==> st.nextUpdate == c.phase.next <= now + MAX_DELAY
  {
  }

  /** Resuming a due channel ends. */
  lemma DuePlays(st: State, pin: seq<PinWrite>, c: Channel, now: nat)
    requires InStep(st, pin, c, now) && c.phase.Waiting?
    ensures Play(c.script, st.animOffset).Halts? || Play(c.script, st.animOffset).Pauses?
  {
    PlaysOn(c.script, st.animOffset);
  }

  /** A state record after a stretch t of a script, with `next` on record before it. */
  ghost predicate After(st: State, t: Stretch, now: nat, next: nat, hangs: bool) {
    match t
    case Halts(_) => st.isIdle && !st.wantsTimerUpdate
    case Pauses(_, o, d) =>
      && !st.isIdle && st.wantsTimerUpdate == (d > 0 || !hangs) && st.animOffset == o
      && (st.wantsTimerUpdate ==> st.nextUpdate == if d > 0 then now + d else next)
    case _ => false
  }

  /** It keeps the channel's record and pin in step. */
  lemma DueInStep(st: State, st': State, pin: seq<PinWrite>, c: Channel, now: nat)
    requires InStep(st, pin, c, now) && c.phase.Waiting? && c.phase.next <= now
    requires st'.currentAnim == st.currentAnim
    requires var t := Play(c.script, st.animOffset);
             After(st', t, now, st.nextUpdate, false) && st'.isOn == Level(t.writes, st.isOn)
    ensures InStep(st', pin + Stamp(now, Play(c.script, st.animOffset).writes), Resume(c, now), now)
  {
    PlaysOn(c.script, st.animOffset);
    LitAppend(pin, now, Play(c.script, st.animOffset).writes);
    hide PlaysFrom;
  }

  /** So does a script just begun. */
  lemma BegunInStep(st: State, pin: seq<PinWrite>, c: Channel, script: Script, wasOn: bool, now: nat)
    requires pin == c.writes && wasOn == Lit(pin) && Playable(script) && st.currentAnim == script
    requires After(st, Play(script, 0), now, 0, true) && st.isOn == Level(Play(script, 0).writes, wasOn)
    ensures InStep(st, pin + Stamp(now, Play(script, 0).writes), Install(c, now, script, true), now)
  {
    LitAppend(pin, now, Play(script, 0).writes);
    hide PlaysFrom;
  }

  lemma LaterInStep(st: State, pin: seq<PinWrite>, c: Channel, now: nat)
    requires InStep(st, pin, c, now)
    ensures InStep(st, pin, c, now + 1)
  {
  }

  /** When the timer goes off for a channel with this tick on record: at that tick, one tick ahead if it
      is the current one, and a whole turn of the 32-bit counter ahead if it has passed. */
  function Wake(next: nat, now: nat): nat {
    if next > now then next else if next == now then now + 1 else next + WRAP32
  }

  /** The timer is set for exactly the first channel that waits. */
  ghost predicate Armed(cs: seq<Channel>, due: Option<nat>, now: nat) {
    && (due.Some? ==> due.value > now)
    && (forall i :: 0 <= i < |cs| && cs[i].phase.Waiting? ==> due.Some? && due.value <= Wake(cs[i].phase.next, now))
    && ((exists i :: 0 <= i < |cs| && cs[i].phase.Waiting?) ==>
          exists i :: 0 <= i < |cs| && cs[i].phase.Waiting? && due == Some(Wake(cs[i].phase.next, now)))
  }

  /** In a tick in which the timer does not go off nothing happens to any channel. */
  lemma QuietTick(cs: seq<Channel>, due: Option<nat>, now: nat)
    requires Armed(cs, due, now) && due != Some(now + 1) && now + 1 < WRAP32
    ensures Tick(cs, now + 1) == cs && Armed(cs, due, now + 1)
  {
    forall i | 0 <= i < |cs| && cs[i].phase.Waiting?
      ensures !Wants(cs[i].phase, now + 1) && Wake(cs[i].phase.next, now + 1) == Wake(cs[i].phase.next, now)
    {
    }
  }

  /** In a tick in which it does, exactly the channels that have come due are resumed. */
  lemma BusyTick(cs: seq<Channel>, now: nat)
    requires Armed(cs, Some(now + 1), now) && now + 1 < WRAP32
    ensures Tick(cs, now + 1) == AllDue(cs, now + 1)
  {
    if exists i :: 0 <= i < |cs| && cs[i].phase.Waiting? {
      var i :| 0 <= i < |cs| && cs[i].phase.Waiting? && now + 1 == Wake(cs[i].phase.next, now);
      assert Wants(cs[i].phase, now + 1);
    }
  }

  class Engine {
    var gState: seq<State>
    var timerDue: Option<nat>
    var now: nat

    /** The pins, with every write and its tick. */
    var pins: seq<seq<PinWrite>>

    ghost var channels: seq<Channel>

    /** Run a channel's script to its next wait or its end. */
    method UpdateChannel(state: State, next: nat) returns (state': State, next': nat, writes: seq<bool>)
      requires Play(state.currentAnim, state.animOffset).Halts? || Play(state.currentAnim, state.animOffset).Pauses?
      ensures state'.currentAnim == state.currentAnim && writes == Play(state.currentAnim, state.animOffset).writes
      ensures match Play(state.currentAnim, state.animOffset)
              case Halts(_) => state'.isIdle && !state'.wantsTimerUpdate && next' == next
              case Pauses(_, o, d) =>
                state'.isIdle == state.isIdle && state'.wantsTimerUpdate && state'.animOffset == o && next' == d
                && state'.nextUpdate == state.nextUpdate
              case _ => false
      ensures state'.isOn == Level(writes, state.isOn)
    {
      hide Play, Straight;
      state', next', writes := state, next, [];
      var s := state.currentAnim;
      var off: nat := state.animOffset;
      ghost var restarted := false;
      PrependTwice([], [], Rest(s, off, false));
      while off < |s|
        invariant state' == state.(animOffset := state'.animOffset, isOn := Level(writes, state.isOn)) && next' == next
        invariant Rest(s, state.animOffset, false) == Prepend(writes, Rest(s, off, restarted))
        invariant restarted ==> !Straight(s, off).Restarts?
        decreases !restarted, |s| - off
      {
        var cmd := s[off];
        NextCommand(s, off, restarted);
        if cmd == TURN_ON || cmd == TURN_OFF {
          PrependTwice(writes, [cmd == TURN_ON], Rest(s, off + 1, restarted));
        }
        off := off + 1;
        if cmd == TURN_ON {
          state' := state'.(isOn := true);
          writes := writes + [true];
        } else if cmd == TURN_OFF {
          state' := state'.(isOn := false);
          writes := writes + [false];
        } else if cmd == DELAY {
          next' := s[off];
          off := off + 1;
          state' := state'.(animOffset := off % OFFSET_WRAP, wantsTimerUpdate := true);
          return;
        } else if cmd == RESTART {
          off := 0;
          state' := state'.(animOffset := 0);
          restarted := true;
        } else if cmd == NO_OP {
        } else {
          break;
        }
      }
      if off >= |s| {
        NothingLeft(s, off, restarted);
      }
      state' := state'.(isIdle := true, wantsTimerUpdate := false, nextUpdate := 0);
    }

    ghost predicate Shape()
      reads this
    {
      |gState| == CHANNELS && |pins| == CHANNELS && |channels| == CHANNELS && now + MAX_DELAY < WRAP32
    }

    /** Between calls: every channel's record and pin are in step, and the timer is set for the first
        channel that waits. */
    ghost predicate Valid()
      reads this
    {
      && Shape() && Armed(channels, timerDue, now)
      && forall i :: 0 <= i < CHANNELS ==> InStep(gState[i], pins[i], channels[i], now)
    }

    constructor ()
      ensures Valid() && now == 0 && channels == [NO_CHANNEL, NO_CHANNEL, NO_CHANNEL]
    {
      var st := State(true, false, false, 0, [], 0);
      gState, timerDue, now, pins := [st, st, st], None, 0, [[], [], []];
      channels := [NO_CHANNEL, NO_CHANNEL, NO_CHANNEL];
    }

    /** Re-arm the timer for the first channel that waits; leave it alone if none does. */
    method UpdateTimerPeriod()
      requires Shape() && (timerDue.Some? ==> timerDue.value > now)
      requires forall i :: 0 <= i < CHANNELS ==> InStep(gState[i], pins[i], channels[i], now)
      modifies this`timerDue
      ensures Valid()
    {
      hide InStep, Wake, Max1;
      var nextUpdate: Option<nat> := None;
      for i := 0 to CHANNELS
        invariant timerDue == old(timerDue)
        invariant nextUpdate.Some? <==> exists j :: 0 <= j < i && channels[j].phase.Waiting?
        invariant forall j :: 0 <= j < i && channels[j].phase.Waiting? ==>
                    nextUpdate.Some? && now + Max1(nextUpdate.value) <= Wake(channels[j].phase.next, now)
        invariant nextUpdate.Some? ==>
                    exists j ::
                      0 <= j < i && channels[j].phase.Waiting? && now + Max1(nextUpdate.value) == Wake(channels[j].phase.next, now)
      {
        var channel := gState[i];
        RecordOf(channel, pins[i], channels[i], now);
        if channel.isIdle || !channel.wantsTimerUpdate {
          continue;
        }
        var fromNow := (channel.nextUpdate - now) % WRAP32;
        FromNow(channel.nextUpdate, now);
        if nextUpdate.Some? {
          Max1Grows(if fromNow < nextUpdate.value then fromNow else nextUpdate.value,
                    if fromNow < nextUpdate.value then nextUpdate.value else fromNow);
        }
        if nextUpdate == None || nextUpdate.value > fromNow {
          nextUpdate := Some(fromNow);
        }
      }
      if nextUpdate.Some? {
        var actualPeriod := Max1(nextUpdate.value);
        timerDue := Some(now + actualPeriod);
      }
    }

    /** The timer fired: run every channel that is due. */
    method TimerFired()
      requires Shape() && timerDue == None
      requires forall i :: 0 <= i < CHANNELS ==> InStep(gState[i], pins[i], channels[i], now)
      modifies this`gState, this`pins, this`timerDue, this`channels
      ensures Valid()
      ensures channels == AllDue(old(channels), now)
    {
      hide PlaysFrom, Lit, Level, Resume, Armed, Resumed;
      for i := 0 to CHANNELS
        invariant Shape() && timerDue == None
        invariant forall j :: 0 <= j < CHANNELS ==> InStep(gState[j], pins[j], channels[j], now)
        invariant forall j :: 0 <= j < i ==> channels[j] == ResumeIfDue(old(channels)[j], now)
        invariant forall j :: i <= j < CHANNELS ==> channels[j] == old(channels)[j]
      {
        var channel := gState[i];
        assert InStep(channel, pins[i], channels[i], now);
        if channel.isIdle || !channel.wantsTimerUpdate || channel.nextUpdate > now {
          continue;
        }
        DuePlays(channel, pins[i], channels[i], now);
        var uninitialised: nat :| uninitialised >= 0;
        var next, writes;
        channel, next, writes := UpdateChannel(channel, uninitialised);
        if next > 0 {
          channel := channel.(nextUpdate := now + next);
        }
        DueInStep(gState[i], channel, pins[i], channels[i], now);
        gState := gState[i := channel];
        pins := pins[i := pins[i] + Stamp(now, writes)];
        channels := channels[i := Resume(channels[i], now)];
      }
      UpdateTimerPeriod();
    }

    /** One tick of time; a timer that is due is served first thing. */
    method Advance()
      requires Valid() && now + 1 + MAX_DELAY < WRAP32
      modifies this`gState, this`pins, this`timerDue, this`now, this`channels
      ensures Valid() && now == old(now) + 1
      ensures channels == Tick(old(channels), now)
    {
      hide InStep, Armed, Tick;
      forall i | 0 <= i < CHANNELS
        ensures InStep(gState[i], pins[i], channels[i], now + 1)
      {
        LaterInStep(gState[i], pins[i], channels[i], now);
      }
      now := now + 1;
      if timerDue == Some(now) {
        BusyTick(channels, now - 1);
        timerDue := None;
        TimerFired();
      } else {
        QuietTick(channels, timerDue, now - 1);
      }
    }

    /** Install a script on a channel, at once or only if the channel is idle. */
    method SetChannelScript(which: nat, script: Script, immediate: bool)
      requires Valid() && which < CHANNELS && Playable(script)
      modifies this`gState, this`pins, this`timerDue, this`channels
      ensures Valid() && channels == old(channels)[which := Install(old(channels)[which], now, script, immediate)]
      ensures !immediate && !old(gState)[which].isIdle ==>
                gState == old(gState) && pins == old(pins) && timerDue == old(timerDue)
      ensures immediate || old(gState)[which].isIdle ==>
                && gState[which].currentAnim == script
                && pins[which] == old(pins)[which] + Stamp(now, Play(script, 0).writes)
      ensures forall i :: 0 <= i < CHANNELS && i != which ==> gState[i] == old(gState)[i] && pins[i] == old(pins)[i]
    {
      hide PlaysFrom, Lit, Level;
      var state := gState[which];
      assert InStep(state, pins[which], channels[which], now);
      if !immediate && !state.isIdle {
        return;
      }
      state := state.(wantsTimerUpdate := false, isIdle := false, animOffset := 0, currentAnim := script, nextUpdate := 0);
      var nextDelay, writes;
      state, nextDelay, writes := UpdateChannel(state, 0);
      if nextDelay > 0 {
        state := state.(wantsTimerUpdate := true, nextUpdate := now + nextDelay);
      } else {
        state := state.(wantsTimerUpdate := false);
      }
      BegunInStep(state, pins[which], channels[which], script, gState[which].isOn, now);
      gState := gState[which := state];
      pins := pins[which := pins[which] + Stamp(now, writes)];
      channels := channels[which := Install(channels[which], now, script, immediate)];
      UpdateTimerPeriod();
    }
  }

  function Max1(x: nat): (m: nat)
    ensures m >= 1 && m >= x
  {
    if x > 1 then x else 1
  }

  lemma Max1Grows(x: nat, y: nat)
    requires x <= y
    ensures Max1(x) <= Max1(y)
  {
  }

  /** The 32-bit difference, never taken as less than one, leads from now to the wake-up. */
  lemma FromNow(next: nat, now: nat)
    requires now < WRAP32 && next <= now + MAX_DELAY
    ensures now + Max1((next - now) % WRAP32) == Wake(next, now)
  {
    if next < now {
      assert (next - now) % WRAP32 == next - now + WRAP32;
    }
  }

  /** Over any run of ticks and installations, on any channels, of scripts that neither diverge nor
      overrun, every pin carries exactly the writes, in the ticks, of the three channels without a timer;
      and on a channel that by itself is never late, those of its own scripts, each played alone from
      the tick it was installed in: one shared timer does the work of three private ones. */
  method Drive(es: seq<Event>) returns (engine: Engine)
    requires forall i :: 0 <= i < |es| && es[i].SetScript? ==> es[i].which < CHANNELS && Playable(es[i].script)
    requires |es| + MAX_DELAY < WRAP32
    ensures fresh(engine) && engine.Valid() && engine.now == Replay(es).1 && engine.channels == Replay(es).0
    ensures forall i :: 0 <= i < CHANNELS ==> engine.pins[i] == Replay(es).0[i].writes
    ensures forall i :: 0 <= i < CHANNELS && Punctual(es, i) ==> engine.pins[i] == Pin(Solo(es, i).0, Solo(es, i).1)
  {
    hide Playable, Tick, Install, Armed, Pin, Shown, Punctual;
    engine := new Engine();
    for k := 0 to |es|
      invariant fresh(engine) && engine.Valid()
      invariant Replay(es[..k]) == (engine.channels, engine.now)
    {
      assert es[..k + 1][..k] == es[..k];
      match es[k]
      case Advance => engine.Advance();
      case SetScript(which, script, immediate) => engine.SetChannelScript(which, script, immediate);
    }
    assert es[..|es|] == es;
    forall i | 0 <= i < CHANNELS
      ensures engine.pins[i] == Replay(es).0[i].writes
      ensures Punctual(es, i) ==> engine.pins[i] == Pin(Solo(es, i).0, Solo(es, i).1)
    {
      assert InStep(engine.gState[i], engine.pins[i], engine.channels[i], engine.now);
      if Punctual(es, i) {
        OthersDoNotMatter(es, i);
      }
    }
  }
}
