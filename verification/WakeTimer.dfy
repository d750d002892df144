/** The ACPI wake timer (`time-alarm-service/src/timer.rs`, section 9.18 of ACPI 6.4): its five wake
    states, its two persistent words and the latest-value-wins signal to the runner. */
module WakeTimer {
  import opened Wrappers

  const NO_EXPIRATION: U32 := 0xFFFF_FFFF
  const NEVER: U32 := 0xFFFF_FFFF

  /** `WaitingForPolicyDelay` carries when the wait began and the seconds used up before it;
      `WaitingForPowerSource` carries the seconds used up so far. */
  datatype WakeState =
    | Clear
    | Armed
    | WaitingForPolicyDelay(since: nat, elapsed: U32)
    | WaitingForPowerSource(elapsed: U32)
    | Orphaned

  datatype TimerStatus = TimerStatus(expired: bool, triggeredWake: bool)

  const NO_STATUS := TimerStatus(false, false)

  /** `signal` is the pending message to the runner, if any: wait this long, or stop waiting. */
  datatype Snapshot = Snapshot(
    expiry: U32, policy: U32, wake: WakeState, status: TimerStatus, active: bool,
    signal: Option<Option<U32>>)

  /** A 64-bit second count cut to 32 bits, as the source's casts do. */
  function AsU32(x: nat): U32 {
    x % 0x1_0000_0000
  }

  function SaturatingSub(a: nat, b: nat): nat {
    if a < b then 0 else a - b
  }

  /** The persistent word for an expiry time, and back. */
  function StoreExpiry(expiry: Option<nat>): U32 {
    match expiry
    case None => NO_EXPIRATION
    case Some(t) => AsU32(t)
  }

  function LoadExpiry(word: U32): Option<nat> {
    if word == NO_EXPIRATION then None else Some(word)
  }

  /** The word holds every time before the last 32-bit second, and no other. */
  lemma {:induction false} ExpiryWordRoundTrip(t: nat)
    ensures LoadExpiry(StoreExpiry(Some(t))) == Some(t) <==> t < 0xFFFF_FFFF
    ensures LoadExpiry(StoreExpiry(None)) == None
  {
  }

  // ---------------------------------------------------------------- operations

  // Every operation reads the clock at most once; `now == None` is a clock failure.

  function PolicySet(t: Snapshot, now: Option<nat>, policy: U32): (bool, Snapshot) {
    if t.wake.WaitingForPolicyDelay? then
      match now
      case None => (false, t)
      case Some(n) =>
        (true, t.(wake := WaitingForPolicyDelay(n, 0), signal := Some(Some(policy)), policy := policy))
    else (true, t.(policy := policy))
  }

  function ClearExpiration(t: Snapshot): Snapshot {
    t.(expiry := NO_EXPIRATION, wake := Clear, signal := Some(None))
  }

  function ExpirationSet(t: Snapshot, now: Option<nat>, expiry: Option<nat>): (bool, Snapshot) {
    var reset := t.(status := NO_STATUS);
    match (expiry, now)
    case (None, _) => (true, ClearExpiration(reset))
    case (Some(_), None) => (false, reset)
    case (Some(e), Some(n)) =>
      (true, reset.(signal := Some(Some(AsU32(SaturatingSub(e, n)))), expiry := StoreExpiry(expiry), wake := Armed))
  }

  function ActiveSet(t: Snapshot, now: Option<nat>, active: bool): Snapshot {
    var t' := t.(active := active);
    match t.wake
    case WaitingForPowerSource(elapsed) =>
      if t.active || !active then t'
      else (match now
            case Some(n) =>
              t'.(wake := WaitingForPolicyDelay(n, elapsed), signal := Some(Some(SaturatingSub(t.policy, elapsed))))
            case None => t'.(wake := Armed, signal := Some(Some(0))))
    case WaitingForPolicyDelay(since, elapsed) =>
      if !t.active || active then t'
      else
        var total: U32 := match now
          case Some(n) => AsU32(elapsed + AsU32(SaturatingSub(n, since)))
          case None => 0xFFFF_FFFF;
        t'.(wake := WaitingForPowerSource(total), signal := Some(None))
    case _ => t'
  }

  /** What the runner does when its wait is over; true means a wake event for the host. */
  function ProcessExpired(t: Snapshot, now: Option<nat>): (bool, Snapshot) {
    if !t.wake.Armed? && !t.wake.WaitingForPolicyDelay? then (false, t)
    else match LoadExpiry(t.expiry)
      case None => (false, t)
      case Some(expiry) =>
        if now.Some? && now.value < expiry then
          (false, t.(wake := Armed, signal := Some(Some(AsU32(expiry - now.value)))))
        else if t.active then
          (true, ClearExpiration(t.(status := TimerStatus(true, true), policy := NEVER)))
        else
          var expired := t.(status := t.status.(expired := true));
          if t.policy == NEVER then (false, expired.(wake := Orphaned))
          else if t.wake.WaitingForPolicyDelay? then
            (false, expired.(wake := WaitingForPowerSource(t.policy)))
          else (false, expired.(wake := WaitingForPowerSource(0)))
  }

  // ---------------------------------------------------------------- the timer object

  class Timer {
    var expirationStorage: U32
    var policyStorage: U32
    var wakeState: WakeState
    var timerStatus: TimerStatus
    var isActive: bool
    var timerSignal: Option<Option<U32>>

    ghost function State(): Snapshot
      reads this
    {
      Snapshot(expirationStorage, policyStorage, wakeState, timerStatus, isActive, timerSignal)
    }

    constructor (expirationStorage: U32, policyStorage: U32)
      ensures State() == Snapshot(expirationStorage, policyStorage, Clear, NO_STATUS, false, None)
    {
      this.expirationStorage, this.policyStorage := expirationStorage, policyStorage;
      wakeState, timerStatus, isActive, timerSignal := Clear, NO_STATUS, false, None;
    }

    /** Restore the persisted settings; the first failing step ends it. */
    method Start(policyClock: Option<nat>, expiryClock: Option<nat>, activeClock: Option<nat>, active: bool)
      returns (ok: bool)
      modifies this
      ensures var (ok1, s1) := PolicySet(old(State()), policyClock, old(State()).policy);
              var (ok2, s2) := ExpirationSet(s1, expiryClock, LoadExpiry(s1.expiry));
              if ok1 && ok2 then ok && State() == ActiveSet(s2, activeClock, active)
              else !ok && State() == if ok1 then s2 else s1
    {
      ok := SetTimerWakePolicy(policyClock, policyStorage);
      if ok {
        ok := SetExpirationTime(expiryClock, LoadExpiry(expirationStorage));
      }
      if ok {
        SetActive(activeClock, active);
      }
    }

    method ClearWakeStatus()
      modifies this
      ensures State() == old(State()).(status := NO_STATUS)
    {
      timerStatus := NO_STATUS;
    }

    method SetTimerWakePolicy(now: Option<nat>, wakePolicy: U32) returns (ok: bool)
      modifies this
      ensures (ok, State()) == PolicySet(old(State()), now, wakePolicy)
    {
      if wakeState.WaitingForPolicyDelay? {
        if now.None? {
          return false;
        }
        wakeState := WaitingForPolicyDelay(now.value, 0);
        timerSignal := Some(Some(wakePolicy));
      }
      policyStorage := wakePolicy;
      return true;
    }

    method SetExpirationTime(now: Option<nat>, expirationTime: Option<nat>) returns (ok: bool)
      modifies this
      ensures (ok, State()) == ExpirationSet(old(State()), now, expirationTime)
    {
      timerStatus := NO_STATUS;
      match expirationTime {
        case Some(e) =>
          if now.None? {
            return false;
          }
          timerSignal := Some(Some(AsU32(SaturatingSub(e, now.value))));
          expirationStorage := StoreExpiry(expirationTime);
          wakeState := Armed;
        case None =>
          ClearExpirationTime();
      }
      return true;
    }

    method ClearExpirationTime()
      modifies this
      ensures State() == ClearExpiration(old(State()))
    {
      expirationStorage := NO_EXPIRATION;
      wakeState := Clear;
      timerSignal := Some(None);
    }

    method SetActive(now: Option<nat>, active: bool)
      modifies this
      ensures State() == ActiveSet(old(State()), now, active)
    {
      var wasActive := isActive;
      isActive := active;
      if wasActive == active {
        return;
      }
      if !wasActive {
        if wakeState.WaitingForPowerSource? {
          match now {
            case Some(n) =>
              timerSignal := Some(Some(SaturatingSub(policyStorage, wakeState.elapsed)));
              wakeState := WaitingForPolicyDelay(n, wakeState.elapsed);
            case None =>
              wakeState := Armed;
              timerSignal := Some(Some(0));
          }
        }
      } else if wakeState.WaitingForPolicyDelay? {
        var total: U32 := 0xFFFF_FFFF;
        if now.Some? {
          total := AsU32(wakeState.elapsed + AsU32(SaturatingSub(now.value, wakeState.since)));
        }
        wakeState := WaitingForPowerSource(total);
        timerSignal := Some(None);
      }
    }

    method ProcessExpiredTimer(now: Option<nat>) returns (wake: bool)
      modifies this
      ensures (wake, State()) == ProcessExpired(old(State()), now)
    {
      if !wakeState.Armed? && !wakeState.WaitingForPolicyDelay? {
        return false;
      }
      var expiration := LoadExpiry(expirationStorage);
      if expiration.None? {
        return false;
      }
      if now.Some? && now.value < expiration.value {
        wakeState := Armed;
        timerSignal := Some(Some(AsU32(expiration.value - now.value)));
        return false;
      }
      timerStatus := timerStatus.(expired := true);
      if isActive {
        timerStatus := timerStatus.(triggeredWake := true);
        policyStorage := NEVER;
        ClearExpirationTime();
        return true;
      }
      if policyStorage == NEVER {
        wakeState := Orphaned;
        return false;
      }
      wakeState := WaitingForPowerSource(if wakeState.WaitingForPolicyDelay? then policyStorage else 0);
      return false;
    }
  }
}
