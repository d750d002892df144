/** Time-out and recovery of a firmware update (`cfu-service/src/basic`): an event receiver that counts
    ticks and an updater that drives the device, sharing one state. */
module CfuRecovery {
  import opened Wrappers

  /** `Instant::MAX`, the deadline that never comes. */
  const NEVER := 0xFFFF_FFFF_FFFF_FFFF

  datatype Config = Config(
    updaterInterval: nat, receiverInterval: nat, timeoutTicks: U32, component: U8,
    validate: (U32, Offer) -> nat)

  /** Ticks before an update has timed out. A configured zero acts like one. */
  function TicksAllowed(cfg: Config): nat {
    if cfg.timeoutTicks == 0 then 1 else cfg.timeoutTicks
  }

  datatype Update = Idle | InProgress(ticks: U32) | Recovery

  datatype State = State(update: Update, deadline: nat)

  datatype Offer = Offer(component: U8, contents: seq<U8>)

  datatype Content = Content(sequence: nat, address: nat, length: nat, first: bool, last: bool, data: seq<U8>)

  datatype Request =
    | FwVersion
    | GiveOffer(offer: Offer)
    | GiveContent(content: Content)
    | GiveOfferExtended
    | GiveOfferInformation
    | PrepareComponent
    | FinalizeUpdate
    | AbortUpdate

  datatype Event = Requested(request: Request) | RecoveryTick

  datatype Call = GetVersion | Start | Write(address: nat, data: seq<U8>) | Finalize | Abort

  /** What the device answers, should it be asked. */
  datatype Device = Device(version: Option<U32>, start: bool, write: bool, finalize: bool, abort: bool)

  datatype Status = Success | ErrorPrepare | ErrorWrite

  datatype Response =
    | ComponentBusy
    | VersionIs(version: U32)
    | OfferIs(verdict: nat)
    | OfferRejected
    | ContentIs(sequence: nat, status: Status)
    | ComponentPrepared

  datatype Output = CfuResponse(response: Response) | CfuRecovery

  // ---------------------------------------------------------------- the shared state

  const INITIAL := State(Idle, NEVER)

  function EnteredRecovery(s: State, now: nat): State {
    State(Recovery, if s.deadline == NEVER then now else s.deadline)
  }

  class SharedState {
    var update: Update
    var deadline: nat

    ghost function Abs(): State
      reads this
    {
      State(update, deadline)
    }

    constructor ()
      ensures Abs() == INITIAL
    {
      update, deadline := Idle, NEVER;
    }

    method EnterIdle()
      modifies this
      ensures Abs() == INITIAL
    {
      update, deadline := Idle, NEVER;
    }

    method EnterInProgress(interval: nat, now: nat)
      modifies this
      ensures Abs() == State(InProgress(0), now + interval)
    {
      update, deadline := InProgress(0), now + interval;
    }

    method EnterRecovery(now: nat)
      modifies this
      ensures Abs() == EnteredRecovery(old(Abs()), now)
    {
      update := Recovery;
      if deadline == NEVER {
        deadline := now;
      }
    }
  }

  // ---------------------------------------------------------------- the event receiver

  /** What the receiver's awaits may see next: a request on the channel, or the timer at `now`. */
  datatype Arrival = Arrived(request: Request) | Timer(now: nat)

  /** One turn of the loop of `wait_next`. An idle receiver awaits no timer and one in recovery awaits
      no request, so such an arrival leaves it waiting. */
  function Await(cfg: Config, s: State, a: Arrival): (State, Option<Event>) {
    match (s.update, a)
    case (Recovery, Timer(now)) => (s.(deadline := now + cfg.receiverInterval), Some(RecoveryTick))
    case (InProgress(t), Timer(now)) =>
      if t + 1 < cfg.timeoutTicks then (State(InProgress(t + 1), now + cfg.receiverInterval), None)
      else (State(Recovery, now + cfg.receiverInterval), Some(RecoveryTick))
    case (Idle, Arrived(r)) => (s, Some(Requested(r)))
    case (InProgress(_), Arrived(r)) => (s, Some(Requested(r)))
    case _ => (s, None)
  }

  /** The whole of `wait_next` on a list of arrivals: the event, if they bring one, and how many of them
      were used up. */
  function WaitNext(cfg: Config, s: State, arrivals: seq<Arrival>): (State, Option<Event>, nat)
    decreases |arrivals|
  {
    if arrivals == [] then (s, None, 0)
    else
      var (s', e) := Await(cfg, s, arrivals[0]);
      if e.Some? then (s', e, 1)
      else var (s'', e', n) := WaitNext(cfg, s', arrivals[1..]); (s'', e', n + 1)
  }

  ghost predicate TicksBounded(cfg: Config, s: State) {
    s.update.InProgress? ==> s.update.ticks < TicksAllowed(cfg)
  }

  class EventReceiver {
    const cfg: Config
    const shared: SharedState

    constructor (cfg: Config, shared: SharedState)
      ensures this.cfg == cfg && this.shared == shared
    {
      this.cfg, this.shared := cfg, shared;
    }

    method Next(arrivals: seq<Arrival>) returns (e: Option<Event>, used: nat)
      requires TicksBounded(cfg, shared.Abs())
      modifies shared
      ensures (shared.Abs(), e, used) == WaitNext(cfg, old(shared.Abs()), arrivals)
      ensures TicksBounded(cfg, shared.Abs())
    {
      e, used := None, 0;
      while used < |arrivals|
        invariant used <= |arrivals|
        invariant e == None && TicksBounded(cfg, shared.Abs())
        invariant WaitNext(cfg, old(shared.Abs()), arrivals)
               == var r := WaitNext(cfg, shared.Abs(), arrivals[used..]); (r.0, r.1, used + r.2)
      {
        assert arrivals[used..][1..] == arrivals[used + 1..];
        match (shared.update, arrivals[used]) {
          case (Idle, Arrived(r)) =>
            return Some(Requested(r)), used + 1;
          case (InProgress(_), Arrived(r)) =>
            return Some(Requested(r)), used + 1;
          case (InProgress(ticks), Timer(now)) =>
            shared.deadline := now + cfg.receiverInterval;
            var next: U32 := ticks + 1;
            if next < cfg.timeoutTicks {
              shared.update := InProgress(next);
            } else {
              shared.update := Recovery;
              return Some(RecoveryTick), used + 1;
            }
          case (Recovery, Timer(now)) =>
            shared.deadline := now + cfg.receiverInterval;
            return Some(RecoveryTick), used + 1;
          case _ =>
        }
        used := used + 1;
      }
    }
  }

  // ---------------------------------------------------------------- the updater

  /** `process_give_content`: the state it leaves, the calls it makes on the device and its response. */
  function ContentTaken(cfg: Config, s: State, c: Content, d: Device, now: nat): (State, seq<Call>, Response) {
    if |c.data| < c.length then (s, [], ContentIs(c.sequence, ErrorPrepare))
    else if c.first && !d.start then (EnteredRecovery(s, now), [Start], ContentIs(c.sequence, ErrorPrepare))
    else
      var s1 := if c.first then State(InProgress(0), now + cfg.updaterInterval) else s;
      var calls := (if c.first then [Start] else []) + [Write(c.address, c.data[..c.length])];
      if !d.write then (s1, calls, ContentIs(c.sequence, ErrorWrite))
      else if !c.last then (s1, calls, ContentIs(c.sequence, Success))
      else if d.finalize then (INITIAL, calls + [Finalize], ContentIs(c.sequence, Success))
      else (EnteredRecovery(s1, now), calls + [Finalize], ContentIs(c.sequence, ErrorWrite))
  }

  /** `process_cfu_command`. */
  function CommandTaken(cfg: Config, s: State, r: Request, d: Device, now: nat): (State, seq<Call>, Response) {
    if s.update.Recovery? then (s, [], ComponentBusy)
    else match r
      case FwVersion => (s, [GetVersion], VersionIs(if d.version.Some? then d.version.value else 0xFFFF_FFFF))
      case GiveOffer(o) =>
        if o.component != cfg.component then (s, [], OfferRejected)
        else (s, [GetVersion], if d.version.Some? then OfferIs(cfg.validate(d.version.value, o)) else OfferRejected)
      case GiveContent(c) => ContentTaken(cfg, s, c, d, now)
      case AbortUpdate => (if d.abort then INITIAL else EnteredRecovery(s, now), [Abort], ComponentPrepared)
      case FinalizeUpdate => (s, [], ComponentPrepared)
      case PrepareComponent => (s, [], ComponentPrepared)
      case _ => (s, [], OfferRejected)
  }

  /** `process_event`. */
  function Processed(cfg: Config, s: State, e: Event, d: Device, now: nat): (State, seq<Call>, Output) {
    match e
    case Requested(r) => var (s', calls, a) := CommandTaken(cfg, s, r, d, now); (s', calls, CfuResponse(a))
    case RecoveryTick => (if d.abort then INITIAL else EnteredRecovery(s, now), [Abort], CfuRecovery)
  }

  class Updater {
    const cfg: Config
    const shared: SharedState
    /** The calls made on the device so far. */
    var calls: seq<Call>

    constructor (cfg: Config, shared: SharedState)
      ensures this.cfg == cfg && this.shared == shared && calls == []
    {
      this.cfg, this.shared, calls := cfg, shared, [];
    }

    method ProcessGiveContent(c: Content, d: Device, now: nat) returns (r: Response)
      modifies this`calls, shared
      ensures var (s, made, answer) := ContentTaken(cfg, old(shared.Abs()), c, d, now);
        shared.Abs() == s && calls == old(calls) + made && r == answer
    {
      if |c.data| < c.length {
        return ContentIs(c.sequence, ErrorPrepare);
      }
      var data := c.data[..c.length];
      if c.first {
        calls := calls + [Start];
        if !d.start {
          shared.EnterRecovery(now);
          return ContentIs(c.sequence, ErrorPrepare);
        }
        shared.EnterInProgress(cfg.updaterInterval, now);
      }
      calls := calls + [Write(c.address, data)];
      if !d.write {
        return ContentIs(c.sequence, ErrorWrite);
      }
      if c.last {
        calls := calls + [Finalize];
        if !d.finalize {
          shared.EnterRecovery(now);
          return ContentIs(c.sequence, ErrorWrite);
        }
        shared.EnterIdle();
      }
      return ContentIs(c.sequence, Success);
    }

    method ProcessCfuCommand(request: Request, d: Device, now: nat) returns (r: Response)
      modifies this`calls, shared
      ensures var (s, made, answer) := CommandTaken(cfg, old(shared.Abs()), request, d, now);
        shared.Abs() == s && calls == old(calls) + made && r == answer
    {
      if shared.update.Recovery? {
        return ComponentBusy;
      }
      match request {
        case FwVersion =>
          calls := calls + [GetVersion];
          r := VersionIs(if d.version.Some? then d.version.value else 0xFFFF_FFFF);
        case GiveOffer(offer) =>
          r := OfferRejected;
          if offer.component == cfg.component {
            calls := calls + [GetVersion];
            if d.version.Some? {
              r := OfferIs(cfg.validate(d.version.value, offer));
            }
          }
        case GiveContent(content) =>
          r := ProcessGiveContent(content, d, now);
        case AbortUpdate =>
          calls := calls + [Abort];
          if d.abort {
            shared.EnterIdle();
          } else {
            shared.EnterRecovery(now);
          }
          r := ComponentPrepared;
        case FinalizeUpdate =>
          r := ComponentPrepared;
        case PrepareComponent =>
          r := ComponentPrepared;
        case _ =>
          r := OfferRejected;
      }
    }

    method ProcessEvent(e: Event, d: Device, now: nat) returns (out: Output)
      modifies this`calls, shared
      ensures var (s, made, answer) := Processed(cfg, old(shared.Abs()), e, d, now);
        shared.Abs() == s && calls == old(calls) + made && out == answer
    {
      match e {
        case Requested(request) =>
          var r := ProcessCfuCommand(request, d, now);
          out := CfuResponse(r);
        case RecoveryTick =>
          shared.EnterRecovery(now);
          calls := calls + [Abort];
          if d.abort {
            shared.EnterIdle();
          }
          out := CfuRecovery;
      }
    }
  }

  // ---------------------------------------------------------------- runs

  /** One arrival taken through the receiver and, if it makes an event, through the updater. The updater
      reads the clock at `clock`. */
  datatype Turn = Turn(arrival: Arrival, device: Device, clock: nat)

  function TakeTurn(cfg: Config, s: State, t: Turn): (State, seq<Call>, Option<Output>) {
    var (s', e) := Await(cfg, s, t.arrival);
    if e.None? then (s', [], None)
    else var (s'', calls, out) := Processed(cfg, s', e.value, t.device, t.clock); (s'', calls, Some(out))
  }

  function Run(cfg: Config, s: State, turns: seq<Turn>): (State, seq<Call>) {
    if turns == [] then (s, [])
    else
      var (s', calls) := Run(cfg, s, turns[..|turns| - 1]);
      var (s'', more, _) := TakeTurn(cfg, s', turns[|turns| - 1]);
      (s'', calls + more)
  }

  /** The timer never fires before the deadline it was set to, and the clock stays clear of its end. */
  ghost predicate Timely(cfg: Config, s: State, turns: seq<Turn>) {
    turns != [] ==>
      var (s', _) := Run(cfg, s, turns[..|turns| - 1]);
      var t := turns[|turns| - 1];
      && Timely(cfg, s, turns[..|turns| - 1])
      && t.clock + cfg.updaterInterval < NEVER
      && (t.arrival.Timer? ==> s'.deadline <= t.arrival.now && t.arrival.now + cfg.receiverInterval < NEVER)
  }

  function Ticks(turns: seq<Turn>): nat {
    if turns == [] then 0
    else Ticks(turns[..|turns| - 1]) + if turns[|turns| - 1].arrival.Timer? then 1 else 0
  }

  ghost predicate Sound(cfg: Config, s: State) {
    && TicksBounded(cfg, s)
    && (s.deadline == NEVER <==> s.update.Idle?)
  }

  /** Whatever arrives: the ticks counted stay below the time-out, and there is a deadline exactly while
      an update or a recovery is under way. */
  lemma {:induction false} SoundThroughout(cfg: Config, s: State, turns: seq<Turn>)
    requires Sound(cfg, s) && Timely(cfg, s, turns)
    ensures Sound(cfg, Run(cfg, s, turns).0)
  {
    if turns != [] {
      SoundThroughout(cfg, s, turns[..|turns| - 1]);
    }
  }

  /** The turn neither starts an update nor ends one: no first block, no written last block, no abort. */
  predicate Neutral(t: Turn) {
    t.arrival.Arrived? ==>
      match t.arrival.request
      case AbortUpdate => false
      case GiveContent(c) => |c.data| < c.length || (!c.first && !(c.last && t.device.write))
      case _ => true
  }

  /** The request begins an update again at the very moment, and so with the very deadline, of the one
      that is under way and has seen no tick yet. */
  predicate RestartsInPlace(cfg: Config, s: State, t: Turn)
    requires t.arrival.Arrived?
  {
    && s == State(InProgress(0), t.clock + cfg.updaterInterval)
    && t.arrival.request.GiveContent?
    && var c := t.arrival.request.content;
       c.length <= |c.data| && c.first && t.device.start && !(c.last && t.device.write)
  }

  /** A request leaves an update under way as it is exactly if it is neutral, or begins it again in
      place; and it is neutral exactly if the device is neither to start nor to finalize nor to abort. */
  lemma {:induction false} NeutralRequestKeeps(cfg: Config, s: State, t: Turn)
    requires s.update.InProgress? && t.arrival.Arrived?
    ensures TakeTurn(cfg, s, t).0 == s <==> Neutral(t) || RestartsInPlace(cfg, s, t)
    ensures Neutral(t) <==> var calls := TakeTurn(cfg, s, t).1; Start !in calls && Finalize !in calls && Abort !in calls
  {
  }

  /** An update that is neither ended nor started again is still in progress as long as the ticks fall
      short of the time-out, with the device never told to abort ... */
  lemma {:induction false} InProgressUntilTimeout(cfg: Config, s: State, turns: seq<Turn>)
    requires s.update == InProgress(0) && forall i :: 0 <= i < |turns| ==> Neutral(turns[i])
    requires Ticks(turns) < TicksAllowed(cfg)
    ensures Run(cfg, s, turns).0.update == InProgress(Ticks(turns))
    ensures Abort !in Run(cfg, s, turns).1
  {
    if turns != [] {
      var t := turns[|turns| - 1];
      InProgressUntilTimeout(cfg, s, turns[..|turns| - 1]);
      if t.arrival.Arrived? {
        NeutralRequestKeeps(cfg, Run(cfg, s, turns[..|turns| - 1]).0, t);
      }
    }
  }

  /** ... and the very tick that reaches the time-out puts it into recovery and has the device abort,
      no matter what the requests in between were. */
  lemma {:induction false} RecoveryOnTheLastTick(cfg: Config, s: State, turns: seq<Turn>, last: Turn)
    requires s.update == InProgress(0) && forall i :: 0 <= i < |turns| ==> Neutral(turns[i])
    requires Ticks(turns) + 1 == TicksAllowed(cfg) && last.arrival.Timer?
    ensures
      var before, after := Run(cfg, s, turns), Run(cfg, s, turns + [last]);
      && Await(cfg, before.0, last.arrival).0.update == Recovery
      && after.1 == before.1 + [Abort] && Abort !in before.1
      && after.0.update == if last.device.abort then Idle else Recovery
  {
    InProgressUntilTimeout(cfg, s, turns);
    assert (turns + [last])[..|turns|] == turns;
  }

  /** The deadline of an update started at `start` after so many ticks is at least this. */
  function EarliestDeadline(cfg: Config, start: nat, ticks: nat): nat {
    start + cfg.updaterInterval + ticks * cfg.receiverInterval
  }

  lemma {:induction false} OneMore(n: nat, interval: nat)
    ensures (n + 1) * interval == n * interval + interval
  {
  }

  lemma {:induction false} DeadlineNotEarly(cfg: Config, s: State, start: nat, turns: seq<Turn>)
    requires s == State(InProgress(0), start + cfg.updaterInterval) && Timely(cfg, s, turns)
    requires forall i :: 0 <= i < |turns| ==> Neutral(turns[i])
    requires Ticks(turns) < TicksAllowed(cfg)
    ensures EarliestDeadline(cfg, start, Ticks(turns)) <= Run(cfg, s, turns).0.deadline
  {
    if turns != [] {
      var t := turns[|turns| - 1];
      var before := Run(cfg, s, turns[..|turns| - 1]).0;
      DeadlineNotEarly(cfg, s, start, turns[..|turns| - 1]);
      InProgressUntilTimeout(cfg, s, turns[..|turns| - 1]);
      if t.arrival.Arrived? {
        NeutralRequestKeeps(cfg, before, t);
      } else {
        OneMore(Ticks(turns[..|turns| - 1]), cfg.receiverInterval);
      }
    }
  }

  /** An update is never timed out early: the last tick comes no sooner than one updater interval and
      `TicksAllowed - 1` receiver intervals after the update began. */
  lemma {:induction false} TimeoutIsNotEarly(cfg: Config, s: State, start: nat, turns: seq<Turn>, last: Turn)
    requires s == State(InProgress(0), start + cfg.updaterInterval) && Timely(cfg, s, turns + [last])
    requires forall i :: 0 <= i < |turns| ==> Neutral(turns[i])
    requires Ticks(turns) + 1 == TicksAllowed(cfg) && last.arrival.Timer?
    ensures start + cfg.updaterInterval + (TicksAllowed(cfg) - 1) * cfg.receiverInterval <= last.arrival.now
  {
    assert (turns + [last])[..|turns|] == turns;
    DeadlineNotEarly(cfg, s, start, turns);
  }

  function Repeat<T>(x: T, n: nat): seq<T> {
    if n == 0 then [] else Repeat(x, n - 1) + [x]
  }

  /** A tick on which the device aborts successfully. */
  predicate AbortsOn(t: Turn) {
    t.arrival.Timer? && t.device.abort
  }

  /** While in recovery the device sees aborts only, one a tick, whatever requests are made, and as long
      as none succeeds the recovery goes on ... */
  lemma {:induction false} RecoveryOnlyAborts(cfg: Config, s: State, turns: seq<Turn>)
    requires s.update.Recovery? && forall i :: 0 <= i < |turns| ==> !AbortsOn(turns[i])
    ensures Run(cfg, s, turns).0.update.Recovery?
    ensures Run(cfg, s, turns).1 == Repeat(Abort, Ticks(turns))
  {
    if turns != [] {
      RecoveryOnlyAborts(cfg, s, turns[..|turns| - 1]);
    }
  }

  /** ... and the first abort that succeeds, and nothing else, ends it. */
  lemma {:induction false} RecoveryEndsOnAbort(cfg: Config, s: State, turns: seq<Turn>, next: Turn)
    requires s.update.Recovery? && forall i :: 0 <= i < |turns| ==> !AbortsOn(turns[i])
    ensures !Run(cfg, s, turns + [next]).0.update.Recovery? <==> AbortsOn(next)
    ensures AbortsOn(next) ==> Run(cfg, s, turns + [next]) == (INITIAL, Repeat(Abort, Ticks(turns) + 1))
  {
    RecoveryOnlyAborts(cfg, s, turns);
    assert (turns + [next])[..|turns|] == turns;
  }

  /** The updater turns commands away while in recovery, but with receiver and updater taking turns it
      never has to: a request that is read at all finds no recovery. */
  lemma {:induction false} RequestsAreNeverBusy(cfg: Config, s: State, t: Turn)
    ensures TakeTurn(cfg, s, t).2 != Some(CfuResponse(ComponentBusy))
    ensures forall r :: Processed(cfg, s, Requested(r), t.device, t.clock).2 == CfuResponse(ComponentBusy)
                        <==> s.update.Recovery?
  {
    forall r
      ensures Processed(cfg, s, Requested(r), t.device, t.clock).2 == CfuResponse(ComponentBusy)
              <==> s.update.Recovery?
    {
      CommandBusy(cfg, s, r, t.device, t.clock);
    }
    if t.arrival.Arrived? {
      CommandBusy(cfg, s, t.arrival.request, t.device, t.clock);
    }
  }

  lemma {:induction false} CommandBusy(cfg: Config, s: State, r: Request, d: Device, now: nat)
    ensures CommandTaken(cfg, s, r, d, now).2 == ComponentBusy <==> s.update.Recovery?
  {
  }

  // ---------------------------------------------------------------- the state and the device

  datatype Phase = NoUpdate | Updating | Recovering

  function PhaseOf(u: Update): Phase {
    match u case Idle => NoUpdate case InProgress(_) => Updating case Recovery => Recovering
  }

  /** A call on the device, and whether it succeeded. */
  datatype Entry = Entry(call: Call, ok: bool)

  function Succeeded(c: Call, d: Device): bool {
    match c
    case GetVersion => d.version.Some?
    case Start => d.start
    case Write(_, _) => d.write
    case Finalize => d.finalize
    case Abort => d.abort
  }

  function Entries(calls: seq<Call>, d: Device): seq<Entry> {
    seq(|calls|, i requires 0 <= i < |calls| => Entry(calls[i], Succeeded(calls[i], d)))
  }

  function DeviceLog(cfg: Config, s: State, turns: seq<Turn>): seq<Entry> {
    if turns == [] then []
    else
      var front, t := turns[..|turns| - 1], turns[|turns| - 1];
      DeviceLog(cfg, s, front) + Entries(TakeTurn(cfg, Run(cfg, s, front).0, t).1, t.device)
  }

  /** The reference: what the device has been through decides what the update is in. A start that
      succeeds begins one, a finalize or an abort that succeeds ends it, any of them that fails makes
      the device's state unknown; writes and version queries change nothing. */
  function PhaseAfter(p: Phase, log: seq<Entry>): Phase {
    if log == [] then p
    else match log[|log| - 1]
      case Entry(Start, ok) => if ok then Updating else Recovering
      case Entry(Finalize, ok) => if ok then NoUpdate else Recovering
      case Entry(Abort, ok) => if ok then NoUpdate else Recovering
      case _ => PhaseAfter(p, log[..|log| - 1])
  }

  lemma {:induction false} PhaseAppend(p: Phase, a: seq<Entry>, b: seq<Entry>)
    ensures PhaseAfter(p, a + b) == PhaseAfter(PhaseAfter(p, a), b)
  {
    if b == [] {
      assert a + b == a;
    } else {
      PhaseAppend(p, a, b[..|b| - 1]);
      assert (a + b)[..|a + b| - 1] == a + b[..|b| - 1];
    }
  }

  /** The calls of one turn: at most three, every one but the last successful. */
  lemma {:induction false} CallsOfTurn(cfg: Config, s: State, t: Turn)
    ensures var calls := TakeTurn(cfg, s, t).1;
      && |calls| <= 3
      && (forall i :: 0 <= i < |calls| - 1 ==> Succeeded(calls[i], t.device))
      && (Abort in calls || GetVersion in calls ==> |calls| == 1)
      && (Start in calls ==> calls[0] == Start)
      && (Finalize in calls ==> |calls| >= 2 && calls[|calls| - 1] == Finalize && calls[|calls| - 2].Write?)
  {
  }

  lemma {:induction false} TurnFollowsDevice(cfg: Config, s: State, t: Turn)
    ensures PhaseOf(TakeTurn(cfg, s, t).0.update)
         == PhaseAfter(PhaseOf(s.update), Entries(TakeTurn(cfg, s, t).1, t.device))
  {
    var log := Entries(TakeTurn(cfg, s, t).1, t.device);
    CallsOfTurn(cfg, s, t);
    if |log| == 1 {
      assert log[..0] == [];
    } else if |log| == 2 {
      assert log[..1][..0] == [] && log[..1][0] == log[0];
    }
  }

  /** Over any run the state says what the device has been through: no start, end or failure is missed,
      and nothing else, not even a time-out, changes it without a call on the device. */
  lemma {:induction false} StateFollowsDevice(cfg: Config, s: State, turns: seq<Turn>)
    ensures PhaseOf(Run(cfg, s, turns).0.update) == PhaseAfter(PhaseOf(s.update), DeviceLog(cfg, s, turns))
  {
    hide TakeTurn, Entries, PhaseAfter;
    if turns == [] {
      NothingHappened(PhaseOf(s.update));
    } else {
      var front, t := turns[..|turns| - 1], turns[|turns| - 1];
      var before := Run(cfg, s, front).0;
      StateFollowsDevice(cfg, s, front);
      TurnFollowsDevice(cfg, before, t);
      PhaseAppend(PhaseOf(s.update), DeviceLog(cfg, s, front), Entries(TakeTurn(cfg, before, t).1, t.device));
    }
  }

  lemma {:induction false} NothingHappened(p: Phase)
    ensures PhaseAfter(p, []) == p
  {
  }
}
