/** Runs of a wake timer together with its runner task: the host's calls, the runner's polls and the
    end of its waits, in any order. */
module WakeTimerRuns {
  import opened Wrappers
  import opened WakeTimer

  /** Where `wait_until_wake` is suspended: at the outer wait for a signal, or in the select between
      a timed wait and a new signal. */
  datatype Runner = AwaitingSignal | TimedWait(start: nat, seconds: U32)

  datatype System = System(timer: Snapshot, runner: Runner)

  datatype Action =
    | SetWakePolicy(policy: U32)
    | SetExpirationTime(expiry: Option<nat>)
    | SetPowerSource(active: bool)
    | ClearWakeStatus
    | TakeSignal
    | WaitElapsed

  /** `at` is the executor's time, `now` what the clock answers if it is read (`None`: it fails). */
  datatype Event = Event(at: nat, now: Option<nat>, action: Action)

  predicate Enabled(s: System, e: Event) {
    match e.action
    case TakeSignal => s.timer.signal.Some?
    case WaitElapsed => s.runner.TimedWait? && s.runner.start + s.runner.seconds <= e.at
    case _ => true
  }

  /** One atomic step, and whether it woke the host. An event that is not enabled does nothing. A
      wait that ends without a wake starts over with the same number of seconds. */
  function Step(s: System, e: Event): (bool, System) {
    if !Enabled(s, e) then (false, s)
    else match e.action
      case SetWakePolicy(p) => (false, s.(timer := PolicySet(s.timer, e.now, p).1))
      case SetExpirationTime(x) => (false, s.(timer := ExpirationSet(s.timer, e.now, x).1))
      case SetPowerSource(a) => (false, s.(timer := ActiveSet(s.timer, e.now, a)))
      case ClearWakeStatus => (false, s.(timer := s.timer.(status := NO_STATUS)))
      case TakeSignal =>
        var wait := s.timer.signal.value;
        (false, System(s.timer.(signal := None),
                       if wait.Some? then TimedWait(e.at, wait.value) else AwaitingSignal))
      case WaitElapsed =>
        var (woke, timer) := ProcessExpired(s.timer, e.now);
        (woke, System(timer, if woke then AwaitingSignal else TimedWait(e.at, s.runner.seconds)))
  }

  function Run(s: System, events: seq<Event>): System {
    if events == [] then s else Step(Run(s, events[..|events| - 1]), events[|events| - 1]).1
  }

  /** A timer as constructed, over any persisted words. */
  predicate IsInitial(s: System) {
    s.timer == Snapshot(s.timer.expiry, s.timer.policy, Clear, NO_STATUS, false, None) && s.runner == AwaitingSignal
  }

  // ---------------------------------------------------------------- no lost wake-up

  predicate Waiting(w: WakeState) {
    w.Armed? || w.WaitingForPolicyDelay?
  }

  /** The runner is waiting for a deadline or about to hear of one. */
  predicate DeadlineInEffect(s: System) {
    match s.timer.signal
    case Some(wait) => wait.Some?
    case None => s.runner.TimedWait?
  }

  ghost predicate Consistent(s: System) {
    && (Waiting(s.timer.wake) ==> DeadlineInEffect(s))
    && (s.timer.wake.WaitingForPolicyDelay? ==> s.timer.active)
    && (s.timer.wake.WaitingForPowerSource? ==> !s.timer.active)
  }

  lemma {:induction false} StepKeepsConsistent(s: System, e: Event)
    requires Consistent(s)
    ensures Consistent(Step(s, e).1)
  {
  }

  /** In every reachable state an armed or policy-delayed timer has a deadline in effect, even across
      clock failures; a policy delay runs only while active, a wait for the power source only while
      inactive. */
  lemma {:induction false} NoLostWakeUp(s: System, events: seq<Event>)
    requires IsInitial(s)
    ensures Consistent(Run(s, events))
  {
    if events == [] {
    } else {
      NoLostWakeUp(s, events[..|events| - 1]);
      StepKeepsConsistent(Run(s, events[..|events| - 1]), events[|events| - 1]);
    }
  }

  /** So the branch that expires an inactive timer during its policy delay is never taken: a timer
      that starts waiting for the power source when its wait elapses has used up no delay. */
  lemma {:induction false} ExpiryWhileInactiveStartsAtZero(s: System, events: seq<Event>, e: Event)
    requires IsInitial(s) && e.action.WaitElapsed?
    ensures var before := Run(s, events); var after := Step(before, e).1;
            before.timer.wake != after.timer.wake && after.timer.wake.WaitingForPowerSource?
            ==> before.timer.wake.Armed? && after.timer.wake.elapsed == 0
  {
    NoLostWakeUp(s, events);
  }

  // ---------------------------------------------------------------- one wake per programming

  predicate Programs(e: Event) {
    e.action.SetExpirationTime? && e.action.expiry.Some? && e.now.Some?
  }

  function Wakes(s: System, events: seq<Event>): nat {
    if events == [] then 0
    else
      var init := events[..|events| - 1];
      Wakes(s, init) + if Step(Run(s, init), events[|events| - 1]).0 then 1 else 0
  }

  function Programmings(events: seq<Event>): nat {
    if events == [] then 0
    else Programmings(events[..|events| - 1]) + if Programs(events[|events| - 1]) then 1 else 0
  }

  /** Cleared and orphaned timers are dead until they are programmed. */
  predicate Dead(s: System) {
    s.timer.wake.Clear? || s.timer.wake.Orphaned?
  }

  /** A run wakes the host at most once per programming, and once more only if it started with the
      timer alive. Taken from any dead state on, this says that there is a programming before the
      next wake, so between any two wakes, and that an orphaned timer never wakes by itself. */
  lemma {:induction false} AtMostOneWakePerProgramming(s: System, events: seq<Event>)
    ensures Wakes(s, events) + (if Dead(Run(s, events)) then 0 else 1)
            <= Programmings(events) + if Dead(s) then 0 else 1
  {
    if events == [] {
    } else {
      AtMostOneWakePerProgramming(s, events[..|events| - 1]);
      StepSpendsProgramming(Run(s, events[..|events| - 1]), events[|events| - 1]);
    }
  }

  lemma {:induction false} StepSpendsProgramming(s: System, e: Event)
    ensures (if Step(s, e).0 then 1 else 0) + (if Dead(Step(s, e).1) then 0 else 1)
            <= (if Programs(e) then 1 else 0) + if Dead(s) then 0 else 1
  {
  }

  /** The expiry time programmed last, unless it has been cleared or has woken the host since. */
  function LastProgrammed(s: System, events: seq<Event>): Option<nat> {
    if events == [] then None
    else
      var init, e := events[..|events| - 1], events[|events| - 1];
      if Programs(e) then e.action.expiry
      else if e.action == SetExpirationTime(None) || Step(Run(s, init), e).0 then None
      else LastProgrammed(s, init)
  }

  lemma {:induction false} ExpiryIsLastProgrammed(s: System, events: seq<Event>)
    requires IsInitial(s)
    ensures var t := Run(s, events).timer;
            if t.wake.Clear? then LastProgrammed(s, events) == None
            else LastProgrammed(s, events).Some? && t.expiry == AsU32(LastProgrammed(s, events).value)
  {
    if events == [] {
    } else {
      ExpiryIsLastProgrammed(s, events[..|events| - 1]);
    }
  }

  /** Every wake on a working clock comes while the timer is active and not before the time that was
      programmed last; it leaves the timer clear, unprogrammed and with policy NEVER. */
  lemma {:induction false} WakesAreDue(s: System, events: seq<Event>, e: Event)
    requires IsInitial(s) && Step(Run(s, events), e).0 && e.now.Some?
    ensures var before := Run(s, events).timer; var after := Step(Run(s, events), e).1.timer;
            && before.active && LastProgrammed(s, events).Some?
            && (LastProgrammed(s, events).value < NO_EXPIRATION ==> LastProgrammed(s, events).value <= e.now.value)
            && after.wake.Clear? && LoadExpiry(after.expiry) == None && after.policy == NEVER
            && after.status == TimerStatus(true, true)
  {
    ExpiryIsLastProgrammed(s, events);
  }

  // ---------------------------------------------------------------- policy-delay accounting

  /** The clock never fails, never goes back, and stays below the last 32-bit second. */
  ghost predicate ClockWorks(events: seq<Event>) {
    && (forall i | 0 <= i < |events| :: events[i].now.Some? && events[i].now.value < NO_EXPIRATION)
    && (forall i, j | 0 <= i < j < |events| :: events[i].now.value <= events[j].now.value)
  }

  predicate Expired(w: WakeState) {
    w.WaitingForPolicyDelay? || w.WaitingForPowerSource?
  }

  /** The power-source changes, with their times, since the timer expired; a policy written while the
      delay runs starts the account afresh. */
  function Flips(s: System, events: seq<Event>): seq<(nat, bool)> {
    if events == [] then []
    else
      var init, e := events[..|events| - 1], events[|events| - 1];
      var before, after := Run(s, init).timer, Step(Run(s, init), e).1.timer;
      if !Expired(before.wake) || !Expired(after.wake) || e.now.None? then []
      else if e.action.SetWakePolicy? && before.wake.WaitingForPolicyDelay? then [(e.now.value, true)]
      else if before.active != after.active then Flips(s, init) + [(e.now.value, after.active)]
      else Flips(s, init)
  }

  /** Seconds between successive changes during which the power source was the timer's. */
  function ActiveSeconds(flips: seq<(nat, bool)>): nat {
    if |flips| < 2 then 0
    else
      var n := |flips|;
      ActiveSeconds(flips[..n - 1]) +
      if flips[n - 2].1 then SaturatingSub(flips[n - 1].0, flips[n - 2].0) else 0
  }

  ghost predicate Accounted(w: WakeState, flips: seq<(nat, bool)>, latest: nat) {
    && (flips != [] ==> ActiveSeconds(flips) <= flips[|flips| - 1].0 <= latest)
    && (w.WaitingForPowerSource? ==>
          w.elapsed == ActiveSeconds(flips) && (flips != [] ==> !flips[|flips| - 1].1))
    && (w.WaitingForPolicyDelay? ==>
          w.elapsed == ActiveSeconds(flips) && flips != [] && flips[|flips| - 1] == (w.since, true))
  }

  lemma {:induction false} OneMoreFlip(flips: seq<(nat, bool)>, flip: (nat, bool))
    ensures ActiveSeconds(flips + [flip]) == ActiveSeconds(flips) +
              if flips != [] && flips[|flips| - 1].1 then SaturatingSub(flip.0, flips[|flips| - 1].0) else 0
  {
    assert (flips + [flip])[..|flips|] == flips;
  }

  /** The seconds stored in the wake state are the time the timer has been active since it expired,
      across any number of power-source changes. */
  lemma {:induction false} PolicyDelayAccounting(s: System, events: seq<Event>)
    requires IsInitial(s) && ClockWorks(events)
    ensures Accounted(Run(s, events).timer.wake, Flips(s, events),
                      if events == [] then 0 else events[|events| - 1].now.value)
  {
    if events == [] {
    } else {
      var init, e := events[..|events| - 1], events[|events| - 1];
      PolicyDelayAccounting(s, init);
      NoLostWakeUp(s, init);
      OneMoreFlip(Flips(s, init), (e.now.value, Step(Run(s, init), e).1.timer.active));
      assert init != [] ==> init[|init| - 1] == events[|init| - 1];
      AccountStep(Run(s, init), e, Flips(s, init), Flips(s, events));
    }
  }

  lemma {:induction false} AccountStep(s: System, e: Event, flips: seq<(nat, bool)>, flips': seq<(nat, bool)>)
    requires Consistent(s) && e.now.Some? && e.now.value < NO_EXPIRATION
    requires Accounted(s.timer.wake, flips, e.now.value)
    requires var after := Step(s, e).1.timer;
             flips' == if !Expired(s.timer.wake) || !Expired(after.wake) then []
                       else if e.action.SetWakePolicy? && s.timer.wake.WaitingForPolicyDelay? then [(e.now.value, true)]
                       else if s.timer.active != after.active then flips + [(e.now.value, after.active)]
                       else flips
    ensures Accounted(Step(s, e).1.timer.wake, flips', e.now.value)
  {
    hide ActiveSeconds;
    ShortAccount((e.now.value, true));
    OneMoreFlip(flips, (e.now.value, Step(s, e).1.timer.active));
  }

  lemma {:induction false} ShortAccount(flip: (nat, bool))
    ensures ActiveSeconds([]) == ActiveSeconds([flip]) == 0
  {
  }

  /** Each time its power source comes back, an expired timer asks for the policy delay minus the
      time it has already been active since it expired. */
  lemma {:induction false} ActivationSignalsRemainder(s: System, events: seq<Event>, e: Event)
    requires IsInitial(s) && ClockWorks(events + [e])
    requires Run(s, events).timer.wake.WaitingForPowerSource? && e.action == SetPowerSource(true) && e.now.Some?
    ensures var before := Run(s, events).timer; var after := Step(Run(s, events), e).1.timer;
            && after.signal == Some(Some(SaturatingSub(before.policy, ActiveSeconds(Flips(s, events)))))
            && after.wake.WaitingForPolicyDelay? && after.wake.since == e.now.value
            && after.wake.elapsed == ActiveSeconds(Flips(s, events))
  {
    NoLostWakeUp(s, events);
    assert (events + [e])[|events|] == e;
    forall i | 0 <= i < |events|
      ensures events[i] == (events + [e])[i]
    {
    }
    PolicyDelayAccounting(s, events);
  }

  // ---------------------------------------------------------------- is the policy delay waited?

  /** The executor's time and the clock agree. */
  ghost predicate OneClock(events: seq<Event>) {
    ClockWorks(events) && forall i | 0 <= i < |events| :: events[i].now == Some(events[i].at)
  }

  /** While a policy delay runs, either the remainder is still to be heard by the runner, or the
      runner is waiting for it and started no earlier than the delay did. */
  ghost predicate DelayScheduled(s: System, latest: nat) {
    s.timer.wake.WaitingForPolicyDelay? ==>
      var remainder := SaturatingSub(s.timer.policy, s.timer.wake.elapsed);
      && s.timer.wake.since <= latest
      && match s.timer.signal
         case Some(wait) => wait == Some(remainder)
         case None => s.runner.TimedWait? && s.runner.seconds == remainder && s.timer.wake.since <= s.runner.start
  }

  lemma {:induction false} StepKeepsDelayScheduled(s: System, e: Event, latest: nat)
    requires DelayScheduled(s, latest) && latest <= e.at && e.now == Some(e.at)
    ensures DelayScheduled(Step(s, e).1, e.at)
  {
  }

  lemma {:induction false} DelayIsScheduled(s: System, events: seq<Event>)
    requires IsInitial(s) && OneClock(events)
    ensures DelayScheduled(Run(s, events), LatestTime(events))
  {
    if events == [] {
    } else {
      var init := events[..|events| - 1];
      DelayIsScheduled(s, init);
      assert init != [] ==> init[|init| - 1] == events[|init| - 1];
      StepKeepsDelayScheduled(Run(s, init), events[|events| - 1], if init == [] then 0 else init[|init| - 1].at);
    }
  }

  /** The earliest moment from `latest` on at which the end of the runner's present wait can wake the
      host, if it can at all. */
  function EarliestWake(s: System, latest: nat): Option<nat> {
    var expiry := LoadExpiry(s.timer.expiry);
    if s.runner.AwaitingSignal? || expiry.None? then None
    else Some(Max(Max(latest, expiry.value), s.runner.start + s.runner.seconds))
  }

  /** An end of the wait, from `latest` on, that wakes the host. */
  predicate WakesAt(s: System, e: Event, latest: nat) {
    e.action.WaitElapsed? && latest <= e.at && e.now == Some(e.at) && Step(s, e).0
  }

  /** The runner's present wait does not end before the timer has been active for the policy delay, of
      which `used` seconds had passed before the delay was last resumed. */
  predicate WaitOutlastsDelay(s: System, used: nat, latest: nat)
    requires s.timer.wake.WaitingForPolicyDelay?
  {
    var wake := EarliestWake(s, latest);
    wake.Some? ==> s.timer.policy <= used + SaturatingSub(wake.value, s.timer.wake.since)
  }

  /** Whatever wakes the host out of the present state comes after the whole delay, exactly if the wait
      outlasts the delay. */
  lemma {:induction false} WaitedIffOutlasted(s: System, used: nat, latest: nat)
    requires Consistent(s) && s.timer.wake.WaitingForPolicyDelay? && s.timer.wake.since <= latest
    ensures (forall e | WakesAt(s, e, latest) :: s.timer.policy <= used + SaturatingSub(e.at, s.timer.wake.since))
            <==> WaitOutlastsDelay(s, used, latest)
  {
    var wake := EarliestWake(s, latest);
    if wake.Some? {
      assert WakesAt(s, Event(wake.value, Some(wake.value), WaitElapsed), latest);
    }
  }

  function LatestTime(events: seq<Event>): nat {
    if events == [] then 0 else events[|events| - 1].at
  }

  /** When the policy delay is fully waited: in any state a run can reach with a policy delay running, the
      next wake comes only after the timer has been active for the whole delay since it expired, exactly
      if the runner's present wait outlasts what is left of the delay. */
  lemma {:induction false} DelayWaitedExactly(s: System, events: seq<Event>)
    requires IsInitial(s) && OneClock(events) && Run(s, events).timer.wake.WaitingForPolicyDelay?
    ensures var t, used := Run(s, events), ActiveSeconds(Flips(s, events));
            (forall e | WakesAt(t, e, LatestTime(events)) ::
               t.timer.policy <= used + SaturatingSub(e.at, t.timer.wake.since))
            <==> WaitOutlastsDelay(t, used, LatestTime(events))
  {
    hide ActiveSeconds, Flips, Run, WaitOutlastsDelay, WakesAt;
    NoLostWakeUp(s, events);
    DelayIsScheduled(s, events);
    WaitedIffOutlasted(Run(s, events), ActiveSeconds(Flips(s, events)), LatestTime(events));
  }

  /** A runner that has heard the delay waits long enough. */
  lemma {:induction false} HeardDelayOutlasts(s: System, latest: nat)
    requires DelayScheduled(s, latest) && s.timer.wake.WaitingForPolicyDelay? && s.timer.signal == None
    ensures WaitOutlastsDelay(s, s.timer.wake.elapsed, latest)
  {
  }

  /** So a wake out of a policy delay comes only after the timer has been active for the whole delay,
      provided the runner had already heard the delay when its wait ended. */
  lemma {:induction false} PolicyDelayIsWaited(s: System, events: seq<Event>, e: Event)
    requires IsInitial(s) && OneClock(events + [e]) && Step(Run(s, events), e).0
    requires Run(s, events).timer.wake.WaitingForPolicyDelay? && Run(s, events).timer.signal == None
    ensures var t := Run(s, events).timer;
            t.policy <= ActiveSeconds(Flips(s, events)) + SaturatingSub(e.at, t.wake.since)
  {
    hide ActiveSeconds, Flips, Run, WaitOutlastsDelay, DelayScheduled;
    OneClockSoFar(events, e);
    DelayIsScheduled(s, events);
    PolicyDelayAccounting(s, events);
    HeardDelayOutlasts(Run(s, events), LatestTime(events));
    DelayWaitedExactly(s, events);
    assert WakesAt(Run(s, events), e, LatestTime(events));
  }

  lemma {:induction false} OneClockSoFar(events: seq<Event>, e: Event)
    requires OneClock(events + [e])
    ensures OneClock(events) && e.now == Some(e.at) && LatestTime(events) <= e.at
  {
    var all := events + [e];
    assert all[|events|] == e;
    assert forall i | 0 <= i < |events| :: events[i] == all[i];
  }

  /** A wait that the runner took up before it hears of the delay need not outlast it. The timer expires
      at 15 on the wrong power source and the runner starts its 5-second wait over; the power source
      comes back at 20; the stale wait ends at 20 before the runner hears of the 100-second policy
      delay, and wakes the host. */
  lemma {:induction false} StaleWaitCutsPolicyDelay(s: System)
    requires IsInitial(s)
    ensures var events := [Event(10, Some(10), SetWakePolicy(100)),
                           Event(10, Some(10), SetExpirationTime(Some(15))),
                           Event(10, Some(10), TakeSignal),
                           Event(15, Some(15), WaitElapsed),
                           Event(20, Some(20), SetPowerSource(true))];
            && Run(s, events).timer.wake == WaitingForPolicyDelay(20, 0) && Run(s, events).timer.policy == 100
            && Step(Run(s, events), Event(20, Some(20), WaitElapsed)).0
            && !WaitOutlastsDelay(Run(s, events), 0, 20)
  {
    var e1 := Event(10, Some(10), SetWakePolicy(100));
    var e2 := Event(10, Some(10), SetExpirationTime(Some(15)));
    var e3 := Event(10, Some(10), TakeSignal);
    var e4 := Event(15, Some(15), WaitElapsed);
    var e5 := Event(20, Some(20), SetPowerSource(true));
    RunOne(s, [], e1);
    RunOne(s, [e1], e2);
    RunOne(s, [e1, e2], e3);
    RunOne(s, [e1, e2, e3], e4);
    RunOne(s, [e1, e2, e3, e4], e5);
    assert [e1] == [] + [e1] && [e1, e2] == [e1] + [e2] && [e1, e2, e3] == [e1, e2] + [e3];
    assert [e1, e2, e3, e4] == [e1, e2, e3] + [e4] && [e1, e2, e3, e4, e5] == [e1, e2, e3, e4] + [e5];
  }

  lemma {:induction false} RunOne(s: System, events: seq<Event>, e: Event)
    ensures Run(s, events + [e]) == Step(Run(s, events), e).1
  {
    assert (events + [e])[..|events|] == events;
  }

  // ---------------------------------------------------------------- is an armed timer on time?

  /** Every expiry time programmed is one the persisted word can hold. */
  ghost predicate Storable(events: seq<Event>) {
    forall i | 0 <= i < |events| && events[i].action.SetExpirationTime? && events[i].action.expiry.Some? ::
      events[i].action.expiry.value < NO_EXPIRATION
  }

  /** When the deadline of the armed timer was last worked out: by programming it or by an early end of
      the wait. */
  function ArmedAt(s: System, events: seq<Event>): nat {
    if events == [] then 0
    else
      var init, e := events[..|events| - 1], events[|events| - 1];
      if Enabled(Run(s, init), e) && (e.action.SetExpirationTime? || e.action.WaitElapsed?) then e.at
      else ArmedAt(s, init)
  }

  /** The deadline in effect is the time that was left when it was worked out. */
  ghost predicate ArmedScheduled(s: System, at: nat, latest: nat) {
    s.timer.wake.Armed? ==>
      && at <= latest && LoadExpiry(s.timer.expiry).Some?
      && var left := SaturatingSub(LoadExpiry(s.timer.expiry).value, at);
         match s.timer.signal
         case Some(wait) => wait == Some(left)
         case None => s.runner.TimedWait? && s.runner.seconds == left && at <= s.runner.start
  }

  lemma {:induction false} StepKeepsArmedScheduled(s: System, e: Event, at: nat, latest: nat)
    requires ArmedScheduled(s, at, latest) && latest <= e.at && e.now == Some(e.at) && e.at < NO_EXPIRATION
    requires e.action.SetExpirationTime? && e.action.expiry.Some? ==> e.action.expiry.value < NO_EXPIRATION
    ensures var at' := if Enabled(s, e) && (e.action.SetExpirationTime? || e.action.WaitElapsed?) then e.at else at;
            ArmedScheduled(Step(s, e).1, at', e.at)
  {
  }

  /** An armed timer is waited for neither too short nor too long: its deadline is the time left when it
      was worked out, so that the wait ends at the expiry time, or when the deadline was worked out if
      that was later, and as much after that as the runner took to hear of the deadline. */
  lemma {:induction false} ArmedDeadlineIsExact(s: System, events: seq<Event>)
    requires IsInitial(s) && OneClock(events) && Storable(events)
    ensures ArmedScheduled(Run(s, events), ArmedAt(s, events), LatestTime(events))
    ensures var t, at := Run(s, events), ArmedAt(s, events);
            t.timer.wake.Armed? && t.timer.signal == None ==>
              && t.runner.TimedWait? && LoadExpiry(t.timer.expiry).Some?
              && t.runner.start + t.runner.seconds
                 == Max(LoadExpiry(t.timer.expiry).value, at) + (t.runner.start - at)
  {
    if events == [] {
    } else {
      var init, e := events[..|events| - 1], events[|events| - 1];
      assert events == init + [e];
      OneClockSoFar(init, e);
      assert forall i | 0 <= i < |init| :: init[i] == events[i];
      ArmedDeadlineIsExact(s, init);
      StepKeepsArmedScheduled(Run(s, init), e, ArmedAt(s, init), LatestTime(init));
    }
  }

  // ---------------------------------------------------------------- reading a timer back

  /** `set_timer_value`: program the timer a number of seconds ahead. */
  function ProgramIn(t: Snapshot, now: nat, seconds: U32): Snapshot {
    ExpirationSet(t, Some(now), Some(now + seconds)).1
  }

  /** `get_timer_value`; `None` is the value that means "disabled". */
  function SecondsLeft(t: Snapshot, now: nat): Option<nat> {
    match LoadExpiry(t.expiry)
    case None => None
    case Some(e) => Some(AsU32(SaturatingSub(e, now)))
  }

  /** Reading a programmed timer at any later time gives the seconds left, exactly when the
      programmed time can be stored; past the last 32-bit second it reads as disabled or as due. */
  lemma {:induction false} TimerValueRoundTrip(t: Snapshot, now: nat, seconds: U32)
    requires seconds != 0xFFFF_FFFF && now < 0x1_0000_0000
    ensures (forall later: nat | now <= later ::
               SecondsLeft(ProgramIn(t, now, seconds), later) == Some(SaturatingSub(now + seconds, later)))
            <==> now + seconds < NO_EXPIRATION
  {
    var word := AsU32(now + seconds);
    if now + seconds >= NO_EXPIRATION {
      assert SecondsLeft(ProgramIn(t, now, seconds), now) == if word == NO_EXPIRATION then None
                                                             else Some(AsU32(SaturatingSub(word, now)));
    }
  }
}
