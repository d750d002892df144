/** When a wake timer wakes the host, and what becomes of one that is due and does not. */
module WakeTimerWakes {
  import opened Wrappers
  import opened WakeTimer
  import opened WakeTimerRuns

  // ---------------------------------------------------------------- the end of a wait

  /** The end of a wait finds the timer due: one is stored, and the clock, if it answers, is past it. */
  predicate EndsDue(s: System, e: Event) {
    && e.action.WaitElapsed? && Enabled(s, e) && Waiting(s.timer.wake) && LoadExpiry(s.timer.expiry).Some?
    && (e.now.Some? ==> LoadExpiry(s.timer.expiry).value <= e.now.value)
  }

  /** The host is woken exactly at the end of a wait that finds the timer due and active. One that is due
      on the wrong power source is marked as expired: it is dead if its policy says so and waits for the
      power source otherwise, programmed as before. */
  lemma {:induction false} WakesExactly(s: System, e: Event)
    ensures Step(s, e).0 <==> EndsDue(s, e) && s.timer.active
    ensures EndsDue(s, e) && !s.timer.active ==>
      var t := Step(s, e).1.timer;
      && (if s.timer.policy == NEVER then t.wake == Orphaned
          else t.wake == WaitingForPowerSource(if s.timer.wake.Armed? then 0 else s.timer.policy))
      && t.status == TimerStatus(true, s.timer.status.triggeredWake)
      && t.expiry == s.timer.expiry && t.policy == s.timer.policy && t.signal == s.timer.signal && !t.active
  {
  }

  /** The end of a wait that finds the timer not yet due asks for the time that is left. */
  lemma {:induction false} EarlyEndWaitsOn(s: System, e: Event)
    requires e.action.WaitElapsed? && Enabled(s, e) && Waiting(s.timer.wake) && !EndsDue(s, e)
    requires LoadExpiry(s.timer.expiry).Some?
    ensures var t := Step(s, e).1.timer;
      && t.wake.Armed? && e.now.Some?
      && t.signal == Some(Some(LoadExpiry(s.timer.expiry).value - e.now.value))
      && t.status == s.timer.status && t.expiry == s.timer.expiry && t.policy == s.timer.policy
  {
  }

  // ---------------------------------------------------------------- an active timer wakes the host

  /** The expiry time of an expired timer is stored, and on one clock it is past. */
  ghost predicate ExpiryPast(s: System, latest: Option<nat>) {
    Expired(s.timer.wake) ==>
      LoadExpiry(s.timer.expiry).Some? && (latest.Some? ==> LoadExpiry(s.timer.expiry).value <= latest.value)
  }

  lemma {:induction false} StepKeepsExpiryPast(s: System, e: Event, latest: Option<nat>)
    requires ExpiryPast(s, latest) && (latest.Some? ==> latest.value <= e.at && e.now == Some(e.at))
    ensures ExpiryPast(Step(s, e).1, if latest.Some? then Some(e.at) else None)
  {
  }

  lemma {:induction false} ExpiredIsStored(s: System, events: seq<Event>)
    requires IsInitial(s)
    ensures ExpiryPast(Run(s, events), None)
    ensures OneClock(events) ==> ExpiryPast(Run(s, events), Some(LatestTime(events)))
  {
    if events == [] {
    } else {
      var init, e := events[..|events| - 1], events[|events| - 1];
      assert events == init + [e];
      ExpiredIsStored(s, init);
      StepKeepsExpiryPast(Run(s, init), e, None);
      if OneClock(events) {
        OneClockSoFar(init, e);
        StepKeepsExpiryPast(Run(s, init), e, Some(LatestTime(init)));
      }
    }
  }

  /** On one clock, the end of a wait that the runner took up for the deadline in effect finds the timer
      due. So a timer that is programmed for a storable time, and active when its wait ends, wakes the
      host at that end. */
  lemma {:induction false} WaitEndsOnTime(s: System, events: seq<Event>, e: Event)
    requires IsInitial(s) && OneClock(events + [e]) && Storable(events)
    requires e.action.WaitElapsed? && Enabled(Run(s, events), e)
    requires Waiting(Run(s, events).timer.wake) && Run(s, events).timer.signal == None
    ensures EndsDue(Run(s, events), e)
    ensures Step(Run(s, events), e).0 <==> Run(s, events).timer.active
  {
    hide Run;
    OneClockSoFar(events, e);
    ArmedDeadlineIsExact(s, events);
    ExpiredIsStored(s, events);
    WakesExactly(Run(s, events), e);
  }

  /** What the runner does next if nobody calls: hear of the pending deadline. */
  function Heard(t: System, at: nat): seq<Event> {
    if t.timer.signal.Some? then [Event(at, Some(at), TakeSignal)] else []
  }

  /** From every state that a run on one clock can reach with an active timer waiting, the runner left to
      itself wakes the host: it hears of the deadline, if it has not yet, and whenever its wait ends then,
      the host is woken. */
  lemma {:induction false} ActiveTimerWakes(s: System, events: seq<Event>, at: nat, end: nat)
    requires IsInitial(s) && OneClock(events) && Storable(events)
    requires Waiting(Run(s, events).timer.wake) && Run(s, events).timer.active
    requires LatestTime(events) <= at < NO_EXPIRATION && at <= end < NO_EXPIRATION
    ensures var t := Run(s, events + Heard(Run(s, events), at));
      && t.runner.TimedWait? && t.timer == Run(s, events).timer.(signal := None)
      && (t.runner.start + t.runner.seconds <= end ==> Step(t, Event(end, Some(end), WaitElapsed)).0)
  {
    hide Run;
    var before, heard, e := Run(s, events), Heard(Run(s, events), at), Event(end, Some(end), WaitElapsed);
    NoLostWakeUp(s, events);
    if heard == [] {
      assert events + heard == events;
    } else {
      RunOne(s, events, heard[0]);
    }
    HeardInTime(events, heard, at);
    OneMoreAtEnd(events + heard, e);
    if Enabled(Run(s, events + heard), e) {
      WaitEndsOnTime(s, events + heard, e);
    }
  }

  lemma {:induction false} HeardInTime(events: seq<Event>, heard: seq<Event>, at: nat)
    requires OneClock(events) && Storable(events) && LatestTime(events) <= at < NO_EXPIRATION
    requires heard == [] || heard == [Event(at, Some(at), TakeSignal)]
    ensures OneClock(events + heard) && Storable(events + heard) && LatestTime(events + heard) <= at
  {
    if heard == [] {
      assert events + heard == events;
    } else {
      OneMoreAtEnd(events, heard[0]);
    }
  }

  lemma {:induction false} OneMoreAtEnd(events: seq<Event>, e: Event)
    requires OneClock(events) && LatestTime(events) <= e.at < NO_EXPIRATION && e.now == Some(e.at)
    ensures OneClock(events + [e]) && LatestTime(events + [e]) == e.at
    ensures Storable(events) && !e.action.SetExpirationTime? ==> Storable(events + [e])
  {
    var all := events + [e];
    assert all[|events|] == e;
    assert forall i | 0 <= i < |events| :: all[i] == events[i];
  }

  // ---------------------------------------------------------------- a failing clock

  /** If the clock fails when the power source comes back, the timer gives the policy delay up: the runner
      is told to wait for nothing, and the end of that wait wakes the host unless the clock has gone back
      behind the expiry time. */
  lemma {:induction false} FailedActivationWakes(s: System, events: seq<Event>, at: nat, heard: nat, end: Event)
    requires IsInitial(s) && Run(s, events).timer.wake.WaitingForPowerSource?
    requires end.action.WaitElapsed? && heard <= end.at
    ensures var on := Step(Run(s, events), Event(at, None, SetPowerSource(true))).1;
      var t := Step(on, Event(heard, Some(heard), TakeSignal)).1;
      && on.timer.wake == Armed && on.timer.signal == Some(Some(0))
      && (Step(t, end).0 <==> (end.now.Some? ==> on.timer.expiry <= end.now.value))
  {
    hide Run;
    NoLostWakeUp(s, events);
    ExpiredIsStored(s, events);
  }

  /** If the clock fails when the power source goes, the policy delay counts as over: when the power source
      comes back the runner is told to wait for nothing. */
  lemma {:induction false} FailedDeactivationWakes(s: System, events: seq<Event>, off: nat, on: Event)
    requires IsInitial(s) && Run(s, events).timer.wake.WaitingForPolicyDelay?
    requires on.action == SetPowerSource(true)
    ensures var t := Step(Run(s, events), Event(off, None, SetPowerSource(false))).1;
      && t.timer.wake == WaitingForPowerSource(0xFFFF_FFFF) && t.timer.signal == Some(None)
      && Step(t, on).1.timer.signal == Some(Some(0))
  {
    hide Run;
    NoLostWakeUp(s, events);
  }

  // ---------------------------------------------------------------- the rest of the state

  /** The policy written last, or NEVER since it was used up by a wake. A policy written while the delay
      runs needs the clock. */
  function LastPolicy(s: System, events: seq<Event>): U32 {
    if events == [] then s.timer.policy
    else
      var init, e := events[..|events| - 1], events[|events| - 1];
      var delayed := Run(s, init).timer.wake.WaitingForPolicyDelay?;
      if e.action.SetWakePolicy? && (delayed ==> e.now.Some?) then e.action.policy
      else if Step(Run(s, init), e).0 then NEVER
      else LastPolicy(s, init)
  }

  /** The power source told last. */
  function LastPowerSource(events: seq<Event>): bool {
    if events == [] then false
    else if events[|events| - 1].action.SetPowerSource? then events[|events| - 1].action.active
    else LastPowerSource(events[..|events| - 1])
  }

  /** Whether the timer has been due, and has woken the host, since its status was last reset by the host
      or by a programming, even one that failed. */
  function StatusSinceReset(s: System, events: seq<Event>): TimerStatus {
    if events == [] then NO_STATUS
    else
      var init, e := events[..|events| - 1], events[|events| - 1];
      var t := Run(s, init);
      if e.action.ClearWakeStatus? || e.action.SetExpirationTime? then NO_STATUS
      else
        var status := StatusSinceReset(s, init);
        TimerStatus(status.expired || EndsDue(t, e), status.triggeredWake || (EndsDue(t, e) && t.timer.active))
  }

  /** In every run the policy, the power source and the status are what was last written, told and found;
      and a timer that is not programmed is not waited for. */
  lemma {:induction false} SettingsAreKept(s: System, events: seq<Event>)
    requires IsInitial(s)
    ensures var t := Run(s, events);
      && t.timer.policy == LastPolicy(s, events)
      && t.timer.active == LastPowerSource(events)
      && t.timer.status == StatusSinceReset(s, events)
      && (t.timer.wake.Clear? ==> !DeadlineInEffect(t))
  {
    hide Step, Enabled, EndsDue;
    if events == [] {
    } else {
      var init, e := events[..|events| - 1], events[|events| - 1];
      SettingsAreKept(s, init);
      SettingsStep(Run(s, init), e);
    }
  }

  lemma {:induction false} SettingsStep(s: System, e: Event)
    requires s.timer.wake.Clear? ==> !DeadlineInEffect(s)
    ensures var t := Step(s, e).1;
      && t.timer.policy == (if e.action.SetWakePolicy? && (s.timer.wake.WaitingForPolicyDelay? ==> e.now.Some?)
                            then e.action.policy else if Step(s, e).0 then NEVER else s.timer.policy)
      && t.timer.active == (if e.action.SetPowerSource? then e.action.active else s.timer.active)
      && t.timer.status == (if e.action.ClearWakeStatus? || e.action.SetExpirationTime? then NO_STATUS
                            else TimerStatus(s.timer.status.expired || EndsDue(s, e),
                                             s.timer.status.triggeredWake || (EndsDue(s, e) && s.timer.active)))
      && (t.timer.wake.Clear? ==> !DeadlineInEffect(t))
  {
  }

  /** Writing a policy fails exactly if the clock does while a policy delay runs, and changes nothing then;
      programming a time fails exactly if the clock does, and then only resets the status. */
  lemma {:induction false} FailuresChangeLittle(t: Snapshot, now: Option<nat>, policy: U32, expiry: Option<nat>)
    ensures var (ok, after) := PolicySet(t, now, policy);
      && (!ok <==> t.wake.WaitingForPolicyDelay? && now.None?)
      && (if ok then after.policy == policy && after.expiry == t.expiry && after.status == t.status else after == t)
    ensures var (ok, after) := ExpirationSet(t, now, expiry);
      && (!ok <==> expiry.Some? && now.None?)
      && after.policy == t.policy && after.active == t.active
      && (if ok then after.wake == (if expiry.Some? then Armed else Clear) else after == t.(status := NO_STATUS))
  {
  }
}
