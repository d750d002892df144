/** The AC and DC timers of the service together (`time-alarm-service/src/lib.rs`): power-source changes
    move activity from one to the other, and a wake of one silences the other. */
module WakeTimerPair {
  import opened Wrappers
  import opened WakeTimer
  import opened WakeTimerRuns

  datatype TimerId = Ac | Dc

  function Other(id: TimerId): TimerId {
    if id.Ac? then Dc else Ac
  }

  datatype Pair = Pair(ac: System, dc: System) {
    function Get(id: TimerId): System {
      if id.Ac? then ac else dc
    }

    function Set(id: TimerId, s: System): Pair {
      if id.Ac? then this.(ac := s) else this.(dc := s)
    }
  }

  predicate IsHostCall(a: Action) {
    a.SetWakePolicy? || a.SetExpirationTime? || a.ClearWakeStatus?
  }

  predicate IsRunnerStep(a: Action) {
    a.TakeSignal? || a.WaitElapsed?
  }

  /** A call of the host on one timer, the new power source, or a step of one of the two `handle_timer`
      tasks. Each reading of the clock may fail on its own. */
  datatype Happening =
    | Host(id: TimerId, event: Event)
    | PowerSource(id: TimerId, at: nat, offClock: Option<nat>, onClock: Option<nat>)
    | Runner(id: TimerId, event: Event, otherClock: Option<nat>)

  /** What a happening means for one timer alone. */
  function SeenBy(p: Pair, h: Happening, id: TimerId): seq<Event> {
    match h
    case Host(k, e) => if k == id && IsHostCall(e.action) then [e] else []
    case PowerSource(k, at, offClock, onClock) =>
      [Event(at, if k == id then onClock else offClock, SetPowerSource(k == id))]
    case Runner(k, e, otherClock) =>
      if !IsRunnerStep(e.action) then []
      else if k == id then [e]
      else if WakeTimerRuns.Step(p.Get(k), e).0 then [Event(e.at, otherClock, SetWakePolicy(NEVER))]
      else []
  }

  /** One atomic happening, in the order of the code: the old timer goes inactive before the new one
      goes active; a timer that wakes the host then sets the policy of the other one. */
  function StepPair(p: Pair, h: Happening): Pair {
    match h
    case Host(k, e) => if IsHostCall(e.action) then p.Set(k, WakeTimerRuns.Step(p.Get(k), e).1) else p
    case PowerSource(k, at, offClock, onClock) =>
      var o := Other(k);
      var p1 := p.Set(o, p.Get(o).(timer := ActiveSet(p.Get(o).timer, offClock, false)));
      p1.Set(k, p1.Get(k).(timer := ActiveSet(p1.Get(k).timer, onClock, true)))
    case Runner(k, e, otherClock) =>
      if !IsRunnerStep(e.action) then p
      else
        var (woke, s) := WakeTimerRuns.Step(p.Get(k), e);
        var p1, o := p.Set(k, s), Other(k);
        if woke then p1.Set(o, p1.Get(o).(timer := PolicySet(p1.Get(o).timer, otherClock, NEVER).1)) else p1
  }

  function RunPair(p: Pair, hs: seq<Happening>): Pair {
    if hs == [] then p else StepPair(RunPair(p, hs[..|hs| - 1]), hs[|hs| - 1])
  }

  function AllSeenBy(p: Pair, hs: seq<Happening>, id: TimerId): seq<Event> {
    if hs == [] then []
    else
      var front := hs[..|hs| - 1];
      AllSeenBy(p, front, id) + SeenBy(RunPair(p, front), hs[|hs| - 1], id)
  }

  lemma {:induction false} RunNothing(s: System)
    ensures WakeTimerRuns.Run(s, []) == s
  {
  }

  lemma {:induction false} RunJust(s: System, e: Event)
    ensures WakeTimerRuns.Run(s, [e]) == WakeTimerRuns.Step(s, e).1
  {
    assert [e][..0] == [];
  }

  lemma {:induction false} RunAppend(s: System, a: seq<Event>, b: seq<Event>)
    ensures WakeTimerRuns.Run(s, a + b) == WakeTimerRuns.Run(WakeTimerRuns.Run(s, a), b)
  {
    if b == [] {
      assert a + b == a;
    } else {
      RunAppend(s, a, b[..|b| - 1]);
      assert (a + b)[..|a + b| - 1] == a + b[..|b| - 1];
    }
  }

  lemma {:induction false} StepSeen(p: Pair, h: Happening, id: TimerId)
    ensures StepPair(p, h).Get(id) == WakeTimerRuns.Run(p.Get(id), SeenBy(p, h, id))
  {
    hide PolicySet, ActiveSet, ExpirationSet, ProcessExpired, WakeTimerRuns.Run;
    RunNothing(p.Get(id));
    if SeenBy(p, h, id) != [] {
      RunJust(p.Get(id), SeenBy(p, h, id)[0]);
    }
  }

  /** Each timer of the pair goes through a run of a single timer, so that whatever holds of every such
      run holds of both timers of the service. */
  lemma {:induction false} PairRefinesSingle(p: Pair, hs: seq<Happening>, id: TimerId)
    ensures RunPair(p, hs).Get(id) == WakeTimerRuns.Run(p.Get(id), AllSeenBy(p, hs, id))
  {
    hide WakeTimerRuns.Run, SeenBy, StepPair;
    if hs == [] {
      RunNothing(p.Get(id));
    } else {
      var front, h := hs[..|hs| - 1], hs[|hs| - 1];
      PairRefinesSingle(p, front, id);
      StepSeen(RunPair(p, front), h, id);
      RunAppend(p.Get(id), AllSeenBy(p, front, id), SeenBy(RunPair(p, front), h, id));
    }
  }

  /** A timer as `start` leaves it, on a working clock: it restores the persisted settings. */
  function StartEvents(t: Snapshot, now: nat, active: bool): seq<Event> {
    [Event(now, Some(now), SetWakePolicy(t.policy)),
     Event(now, Some(now), SetExpirationTime(LoadExpiry(t.expiry))),
     Event(now, Some(now), SetPowerSource(active))]
  }

  /** The service as it comes up: the AC timer active, the DC timer not. */
  ghost predicate Started(p: Pair) {
    exists ac: System, dc: System, now: nat :: StartedFrom(p, ac, dc, now)
  }

  ghost predicate StartedFrom(p: Pair, ac: System, dc: System, now: nat) {
    && IsInitial(ac) && IsInitial(dc)
    && p.ac == WakeTimerRuns.Run(ac, StartEvents(ac.timer, now, true))
    && p.dc == WakeTimerRuns.Run(dc, StartEvents(dc.timer, now, false))
  }

  lemma {:induction false} StartedActive(s: System, now: nat, active: bool)
    ensures WakeTimerRuns.Run(s, StartEvents(s.timer, now, active)).timer.active == active
  {
    hide PolicySet, ExpirationSet;
    var es := StartEvents(s.timer, now, active);
    assert es == es[..2] + [es[2]];
    RunOne(s, es[..2], es[2]);
  }

  /** Exactly one of the two timers is active, at all times. */
  lemma {:induction false} OneTimerActive(p: Pair, hs: seq<Happening>)
    requires Started(p)
    ensures RunPair(p, hs).ac.timer.active != RunPair(p, hs).dc.timer.active
  {
    hide WakeTimerRuns.Run;
    if hs == [] {
      var ac, dc, now :| StartedFrom(p, ac, dc, now);
      StartedActive(ac, now, true);
      StartedActive(dc, now, false);
    } else {
      OneTimerActive(p, hs[..|hs| - 1]);
    }
  }

  /** The power source that was told last, the AC one at first. */
  function LastSource(hs: seq<Happening>): TimerId {
    if hs == [] then Ac
    else if hs[|hs| - 1].PowerSource? then hs[|hs| - 1].id
    else LastSource(hs[..|hs| - 1])
  }

  /** The active timer is that of the power source that was told last. */
  lemma {:induction false} ActiveIsLastSource(p: Pair, hs: seq<Happening>)
    requires Started(p)
    ensures RunPair(p, hs).Get(LastSource(hs)).timer.active
    ensures !RunPair(p, hs).Get(Other(LastSource(hs))).timer.active
  {
    hide WakeTimerRuns.Run;
    OneTimerActive(p, hs);
    if hs == [] {
      var ac, dc, now :| StartedFrom(p, ac, dc, now);
      StartedActive(ac, now, true);
    } else {
      ActiveIsLastSource(p, hs[..|hs| - 1]);
    }
  }

  /** Neither timer of the service ever loses a wake-up, whatever host, power source, clock and runner
      tasks do. */
  lemma {:induction false} PairConsistent(p: Pair, hs: seq<Happening>, id: TimerId)
    requires Started(p)
    ensures Consistent(RunPair(p, hs).Get(id))
  {
    hide WakeTimerRuns.Run, Consistent, RunPair, AllSeenBy;
    var ac, dc, now :| StartedFrom(p, ac, dc, now);
    var s := if id.Ac? then ac else dc;
    var es := StartEvents(s.timer, now, id.Ac?);
    PairRefinesSingle(p, hs, id);
    RunAppend(s, es, AllSeenBy(p, hs, id));
    NoLostWakeUp(s, es + AllSeenBy(p, hs, id));
  }

  /** When a timer wakes the host, the other one's policy becomes NEVER and nothing else of it changes,
      even if the clock fails at that moment: the failure the code warns about cannot happen, because
      the other timer is inactive and so in no policy delay. */
  lemma {:induction false} WakeSilencesOther(p: Pair, hs: seq<Happening>, id: TimerId, e: Event,
                                             otherClock: Option<nat>)
    requires Started(p) && IsRunnerStep(e.action)
    requires WakeTimerRuns.Step(RunPair(p, hs).Get(id), e).0
    ensures var before := RunPair(p, hs); var after := StepPair(before, Runner(id, e, otherClock));
      && PolicySet(before.Get(Other(id)).timer, otherClock, NEVER).0
      && after.Get(Other(id)) == before.Get(Other(id)).(timer := before.Get(Other(id)).timer.(policy := NEVER))
      && after.Get(id).timer.policy == NEVER && after.Get(id).timer.wake.Clear?
  {
    hide WakeTimerRuns.Run, RunPair;
    OneTimerActive(p, hs);
    PairConsistent(p, hs, Other(id));
  }

  /** How often the timer has woken the host, and how often the host has programmed it. */
  function PairWakes(p: Pair, hs: seq<Happening>, id: TimerId): nat {
    if hs == [] then 0
    else
      var front, h := hs[..|hs| - 1], hs[|hs| - 1];
      PairWakes(p, front, id) +
        if h.Runner? && h.id == id && IsRunnerStep(h.event.action)
           && WakeTimerRuns.Step(RunPair(p, front).Get(id), h.event).0 then 1 else 0
  }

  function HostProgrammings(hs: seq<Happening>, id: TimerId): nat {
    if hs == [] then 0
    else
      var h := hs[|hs| - 1];
      HostProgrammings(hs[..|hs| - 1], id) + if h.Host? && h.id == id && Programs(h.event) then 1 else 0
  }

  /** Each timer of the service wakes the host at most once per programming by the host, and once more
      if it came up alive. Nothing that happens to the other timer adds to that. */
  lemma {:induction false} PairWakesBounded(p: Pair, hs: seq<Happening>, id: TimerId)
    ensures PairWakes(p, hs, id) + (if Dead(RunPair(p, hs).Get(id)) then 0 else 1)
         <= HostProgrammings(hs, id) + if Dead(p.Get(id)) then 0 else 1
  {
    hide WakeTimerRuns.Run, WakeTimerRuns.Step, StepPair, Dead;
    if hs != [] {
      var front, h := hs[..|hs| - 1], hs[|hs| - 1];
      var before := RunPair(p, front);
      PairWakesBounded(p, front, id);
      StepSeen(before, h, id);
      RunNothing(before.Get(id));
      if SeenBy(before, h, id) != [] {
        var e := SeenBy(before, h, id)[0];
        RunJust(before.Get(id), e);
        StepSpendsProgramming(before.Get(id), e);
      }
    }
  }

  // ---------------------------------------------------------------- the service object

  /** The value that means "disabled" to the host. */
  const DISABLED: U32 := 0xFFFF_FFFF

  class Service {
    const ac: Timer
    const dc: Timer

    constructor (ac: Timer, dc: Timer)
      requires ac != dc
      ensures this.ac == ac && this.dc == dc && Valid()
    {
      this.ac, this.dc := ac, dc;
    }

    ghost predicate Valid() {
      ac != dc
    }

    function GetTimer(id: TimerId): Timer {
      if id.Ac? then ac else dc
    }

    /** One turn of `handle_power_source_updates`. */
    method PowerSourceUpdate(id: TimerId, offClock: Option<nat>, onClock: Option<nat>)
      requires Valid()
      modifies ac, dc
      ensures GetTimer(Other(id)).State() == ActiveSet(old(GetTimer(Other(id)).State()), offClock, false)
      ensures GetTimer(id).State() == ActiveSet(old(GetTimer(id).State()), onClock, true)
    {
      GetTimer(Other(id)).SetActive(offClock, false);
      GetTimer(id).SetActive(onClock, true);
    }

    /** One turn of `handle_timer`, from the end of the timer's wait on. */
    method TimerWaitOver(id: TimerId, clock: Option<nat>, otherClock: Option<nat>) returns (woke: bool)
      requires Valid()
      modifies ac, dc
      ensures (woke, GetTimer(id).State()) == ProcessExpired(old(GetTimer(id).State()), clock)
      ensures GetTimer(Other(id)).State() ==
        var other := old(GetTimer(Other(id)).State()); if woke then PolicySet(other, otherClock, NEVER).1 else other
    {
      woke := GetTimer(id).ProcessExpiredTimer(clock);
      if woke {
        var _ := GetTimer(Other(id)).SetTimerWakePolicy(otherClock, NEVER);
      }
    }

    /** `set_timer_value`. `clock` and `clock'` are the two readings of the clock it makes. */
    method SetTimerValue(id: TimerId, value: U32, clock: Option<nat>, clock': Option<nat>) returns (ok: bool)
      requires Valid()
      modifies GetTimer(id)
      ensures value == DISABLED ==> (ok, GetTimer(id).State()) == ExpirationSet(old(GetTimer(id).State()), clock', None)
      ensures value != DISABLED && clock.None? ==> !ok && GetTimer(id).State() == old(GetTimer(id).State())
      ensures value != DISABLED && clock.Some? ==>
        (ok, GetTimer(id).State()) == ExpirationSet(old(GetTimer(id).State()), clock', Some(clock.value + value))
    {
      if value == DISABLED {
        ok := GetTimer(id).SetExpirationTime(clock', None);
      } else if clock.None? {
        ok := false;
      } else {
        ok := GetTimer(id).SetExpirationTime(clock', Some(clock.value + value));
      }
    }

    /** `get_timer_value`; `None` is a clock failure. A timer that was programmed some seconds ahead reads
        as the seconds still left of them, as long as the programmed time could be stored. */
    method GetTimerValue(id: TimerId, clock: Option<nat>) returns (value: Option<U32>)
      requires Valid()
      ensures value == Some(DISABLED) <==> GetTimer(id).State().expiry == StoreExpiry(None)
      ensures value == None <==> clock.None? && GetTimer(id).State().expiry != StoreExpiry(None)
      ensures value.Some? && value.value != DISABLED ==> SecondsLeft(GetTimer(id).State(), clock.value) == value
      ensures forall t: Snapshot, now: nat, seconds: U32 |
                GetTimer(id).State().expiry == ProgramIn(t, now, seconds).expiry
                && clock.Some? && now <= clock.value && now + seconds < NO_EXPIRATION ::
                value == Some(SaturatingSub(now + seconds, clock.value))
    {
      var expiry := LoadExpiry(GetTimer(id).expirationStorage);
      if expiry.None? {
        return Some(DISABLED);
      }
      if clock.None? {
        return None;
      }
      return Some(AsU32(SaturatingSub(expiry.value, clock.value)));
    }
  }
}
