/** What the updater writes to the device and what it tells the host, over single turns and whole runs. */
module CfuAnswers {
  import opened Wrappers
  import opened CfuRecovery

  // ---------------------------------------------------------------- one request

  /** The block a turn brings, if it is read: its data reach as far as its length says, and the update it
      starts, if it starts one, can be started. */
  predicate BringsBlock(s: State, t: Turn) {
    && !s.update.Recovery? && t.arrival.Arrived? && t.arrival.request.GiveContent?
    && var c := t.arrival.request.content;
       c.length <= |c.data| && (c.first ==> t.device.start)
  }

  function WriteOf(c: Content): (w: Call)
    requires c.length <= |c.data|
  {
    Write(c.address, c.data[..c.length])
  }

  /** What a block makes the device do: at most one write, of the bytes the block says it has to the
      address it says, between the start of an update and its end. */
  lemma {:induction false} ContentWritten(cfg: Config, s: State, t: Turn, a: nat, data: seq<U8>)
    requires !s.update.Recovery? && t.arrival.Arrived? && t.arrival.request.GiveContent?
    ensures var c, calls := t.arrival.request.content, TakeTurn(cfg, s, t).1;
      && (Write(a, data) in calls <==> BringsBlock(s, t) && a == c.address && data == c.data[..c.length])
      && (Start in calls <==> c.length <= |c.data| && c.first)
      && (Finalize in calls <==> BringsBlock(s, t) && t.device.write && c.last)
      && GetVersion !in calls && Abort !in calls
      && forall i, j :: 0 <= i < j < |calls| ==> calls[i] != calls[j]
  {
  }

  /** What a block is answered: success exactly if it made calls and all of them succeeded, "not prepared"
      exactly if nothing was written, "not written" exactly if the write or the end of the update failed. */
  lemma {:induction false} ContentAnswered(cfg: Config, s: State, t: Turn)
    requires !s.update.Recovery? && t.arrival.Arrived? && t.arrival.request.GiveContent?
    ensures var c := t.arrival.request.content; var (_, calls, out) := TakeTurn(cfg, s, t);
      && out.Some? && out.value.CfuResponse? && out.value.response.ContentIs?
      && out.value.response.sequence == c.sequence
      && var status := out.value.response.status;
         && (status == Success <==> calls != [] && forall i | 0 <= i < |calls| :: Succeeded(calls[i], t.device))
         && (status == ErrorPrepare <==> forall i | 0 <= i < |calls| :: !calls[i].Write?)
         && (status == ErrorWrite <==>
               exists i | 0 <= i < |calls| ::
                 (calls[i].Write? || calls[i].Finalize?) && !Succeeded(calls[i], t.device))
  {
    var calls := TakeTurn(cfg, s, t).1;
    var n := |calls| - 1;
    CallsOfTurn(cfg, s, t);
    assert forall i | 0 <= i <= n && !Succeeded(calls[i], t.device) :: i == n;
    if BringsBlock(s, t) {
      assert calls[if t.arrival.request.content.first then 1 else 0].Write?;
      assert t.device.write ==> (calls[n].Finalize? <==> t.arrival.request.content.last);
    }
  }

  /** What the other requests make the device do, and what they are answered. None of them but the abort
      changes the state. */
  lemma {:induction false} OtherAnswered(cfg: Config, s: State, t: Turn)
    requires !s.update.Recovery? && t.arrival.Arrived? && !t.arrival.request.GiveContent?
    ensures var r, d := t.arrival.request, t.device; var (after, calls, out) := TakeTurn(cfg, s, t);
      && out.Some? && out.value.CfuResponse?
      && var known := r.GiveOffer? && r.offer.component == cfg.component;
         && calls == (if r.FwVersion? || known then [GetVersion] else if r.AbortUpdate? then [Abort] else [])
         && (!r.AbortUpdate? ==> after == s)
         && match out.value.response
            case VersionIs(v) =>
              r.FwVersion? && v == (if d.version.Some? then d.version.value else 0xFFFF_FFFF)
            case OfferIs(verdict) =>
              known && d.version.Some? && verdict == cfg.validate(d.version.value, r.offer)
            case OfferRejected =>
              r.GiveOfferExtended? || r.GiveOfferInformation? || (r.GiveOffer? && !(known && d.version.Some?))
            case ComponentPrepared => r.PrepareComponent? || r.FinalizeUpdate? || r.AbortUpdate?
            case _ => false
  {
  }

  /** A tick tells the device to abort, and the caller of it, exactly if the update is in recovery or has
      no tick left; a failed abort is tried again one receiver interval later. */
  lemma {:induction false} TickAnswered(cfg: Config, s: State, t: Turn)
    requires t.arrival.Timer?
    ensures var (after, calls, out) := TakeTurn(cfg, s, t);
      if s.update.Recovery? || (s.update.InProgress? && s.update.ticks + 1 >= TicksAllowed(cfg)) then
        && calls == [Abort] && out == Some(CfuRecovery)
        && (if t.device.abort then after == INITIAL
            else t.arrival.now + cfg.receiverInterval < NEVER ==>
                   after == State(Recovery, t.arrival.now + cfg.receiverInterval))
      else
        && calls == [] && out == None
        && after == if s.update.Idle? then s
                    else State(InProgress(s.update.ticks + 1), t.arrival.now + cfg.receiverInterval)
  {
  }

  /** The deadline that a request leaves: none when idle, one updater interval after an update it started,
      and otherwise the one that was running, or now for a recovery that finds none running. */
  lemma {:induction false} DeadlineOfRequest(cfg: Config, s: State, t: Turn)
    requires Sound(cfg, s) && t.arrival.Arrived? && t.clock + cfg.updaterInterval < NEVER
    ensures var (after, calls, _) := TakeTurn(cfg, s, t);
      if after.update.Idle? then after.deadline == NEVER
      else if Start in calls && t.device.start then after.deadline == t.clock + cfg.updaterInterval
      else after.deadline == if s.deadline == NEVER then t.clock else s.deadline
  {
  }

  // ---------------------------------------------------------------- whole runs

  /** The writes that the blocks of a run call for, in order, and whether the device could do them. */
  function BlocksGiven(cfg: Config, s: State, turns: seq<Turn>): seq<Entry> {
    if turns == [] then []
    else
      var front, t := turns[..|turns| - 1], turns[|turns| - 1];
      BlocksGiven(cfg, s, front) +
        if BringsBlock(Run(cfg, s, front).0, t) then [Entry(WriteOf(t.arrival.request.content), t.device.write)]
        else []
  }

  function WritesIn(log: seq<Entry>): seq<Entry> {
    if log == [] then []
    else WritesIn(log[..|log| - 1]) + if log[|log| - 1].call.Write? then [log[|log| - 1]] else []
  }

  lemma {:induction false} WritesInAppend(a: seq<Entry>, b: seq<Entry>)
    ensures WritesIn(a + b) == WritesIn(a) + WritesIn(b)
  {
    if b == [] {
      assert a + b == a;
    } else {
      WritesInAppend(a, b[..|b| - 1]);
      assert (a + b)[..|a + b| - 1] == a + b[..|b| - 1];
    }
  }

  lemma {:induction false} WritesOfTurn(cfg: Config, s: State, t: Turn)
    ensures WritesIn(Entries(TakeTurn(cfg, s, t).1, t.device))
         == if BringsBlock(s, t) then [Entry(WriteOf(t.arrival.request.content), t.device.write)] else []
  {
    var log := Entries(TakeTurn(cfg, s, t).1, t.device);
    CallsOfTurn(cfg, s, t);
    FewWrites(log);
  }

  lemma {:induction false} FewWrites(log: seq<Entry>)
    requires |log| <= 3
    ensures WritesIn(log) == (if |log| > 0 && log[0].call.Write? then [log[0]] else [])
                             + (if |log| > 1 && log[1].call.Write? then [log[1]] else [])
                             + if |log| > 2 && log[2].call.Write? then [log[2]] else []
  {
    if |log| > 0 {
      FewWrites(log[..|log| - 1]);
    }
  }

  /** Over any run the device is told to write exactly the blocks given to the updater, each to its own
      address with its own bytes, in the order in which they came, and nothing else. */
  lemma {:induction false} WritesAreBlocks(cfg: Config, s: State, turns: seq<Turn>)
    ensures WritesIn(DeviceLog(cfg, s, turns)) == BlocksGiven(cfg, s, turns)
  {
    hide TakeTurn, Entries, BringsBlock, WritesIn;
    if turns == [] {
      NoWrites();
    } else {
      var front, t := turns[..|turns| - 1], turns[|turns| - 1];
      var before := Run(cfg, s, front).0;
      WritesAreBlocks(cfg, s, front);
      WritesOfTurn(cfg, before, t);
      WritesInAppend(DeviceLog(cfg, s, front), Entries(TakeTurn(cfg, before, t).1, t.device));
    }
  }

  lemma {:induction false} NoWrites()
    ensures WritesIn([]) == [] && Lasting([]) == []
  {
  }

  /** The writes of the blocks that the host has been told were a success. */
  function Confirmed(cfg: Config, s: State, turns: seq<Turn>): seq<Call> {
    if turns == [] then []
    else
      var front, t := turns[..|turns| - 1], turns[|turns| - 1];
      Confirmed(cfg, s, front) + ConfirmedBy(cfg, Run(cfg, s, front).0, t)
  }

  function ConfirmedBy(cfg: Config, s: State, t: Turn): seq<Call> {
    match TakeTurn(cfg, s, t).2
    case Some(CfuResponse(ContentIs(_, Success))) =>
      if t.arrival.Arrived? && t.arrival.request.GiveContent?
         && t.arrival.request.content.length <= |t.arrival.request.content.data|
      then [WriteOf(t.arrival.request.content)] else []
    case _ => []
  }

  /** What the device holds by its log: the writes that succeeded, but for one right before an end of the
      update that failed. */
  function Lasting(log: seq<Entry>): seq<Call> {
    if log == [] then []
    else
      var n := |log| - 1;
      match log[n]
      case Entry(Finalize, false) => Lasting(log[..if n > 0 then n - 1 else 0])
      case Entry(Write(a, data), true) => Lasting(log[..n]) + [Write(a, data)]
      case _ => Lasting(log[..n])
  }

  lemma {:induction false} LastingAppend(a: seq<Entry>, b: seq<Entry>)
    requires b != [] ==> !b[0].call.Finalize?
    ensures Lasting(a + b) == Lasting(a) + Lasting(b)
  {
    if b == [] {
      assert a + b == a;
    } else {
      var n := |b| - 1;
      assert (a + b)[|a| + n] == b[n] && (a + b)[..|a| + n] == a + b[..n];
      LastingAppend(a, b[..n]);
      if b[n].call.Finalize? {
        assert (a + b)[..|a| + n - 1] == a + b[..n - 1];
        LastingAppend(a, b[..n - 1]);
      }
    }
  }

  lemma {:induction false} ConfirmedOfTurn(cfg: Config, s: State, t: Turn)
    ensures var log := Entries(TakeTurn(cfg, s, t).1, t.device);
      && (log != [] ==> !log[0].call.Finalize?)
      && Lasting(log) == ConfirmedBy(cfg, s, t)
  {
    var calls := TakeTurn(cfg, s, t).1;
    var log := Entries(calls, t.device);
    CallsOfTurn(cfg, s, t);
    if log == [] {
    } else if BringsBlock(s, t) {
      BlockLasts(cfg, s, t);
    } else {
      hide Lasting;
      assert |log| == 1 && !log[0].call.Write? && !log[0].call.Finalize?;
      FewLasting(log);
    }
  }

  lemma {:induction false} BlockLasts(cfg: Config, s: State, t: Turn)
    requires BringsBlock(s, t)
    ensures var log := Entries(TakeTurn(cfg, s, t).1, t.device);
      Lasting(log) == if t.device.write && (t.arrival.request.content.last ==> t.device.finalize)
                      then [WriteOf(t.arrival.request.content)] else []
  {
    hide Lasting, Entries;
    var c := t.arrival.request.content;
    var start := if c.first then [Entry(Start, true)] else [];
    var written := start + [Entry(WriteOf(c), t.device.write)];
    BlockLog(cfg, s, t);
    FewLasting(start);
    FewLasting(written);
    if t.device.write && c.last {
      var log := written + [Entry(Finalize, t.device.finalize)];
      FewLasting(log);
      assert log[..|log| - 1] == written && log[..|log| - 2] == start;
    } else {
      assert written + [] == written;
    }
  }

  lemma {:induction false} BlockLog(cfg: Config, s: State, t: Turn)
    requires BringsBlock(s, t)
    ensures var c := t.arrival.request.content;
      Entries(TakeTurn(cfg, s, t).1, t.device) ==
        (if c.first then [Entry(Start, true)] else []) + [Entry(WriteOf(c), t.device.write)]
        + if t.device.write && c.last then [Entry(Finalize, t.device.finalize)] else []
  {
  }

  lemma {:induction false} FewLasting(log: seq<Entry>)
    requires |log| <= 3 && forall i | 0 <= i < |log| :: log[i].call.Finalize? ==> i == |log| - 1 > 0
    ensures var n := |log| - 1;
      Lasting(log) ==
        if n >= 0 && log[n].call.Finalize? then
          if log[n].ok then Lasting(log[..n]) else Lasting(log[..n - 1])
        else (if n >= 0 && log[0].call.Write? && log[0].ok then [log[0].call] else [])
             + (if n >= 1 && log[1].call.Write? && log[1].ok then [log[1].call] else [])
             + if n >= 2 && log[2].call.Write? && log[2].ok then [log[2].call] else []
  {
    if |log| > 0 {
      FewLasting(log[..|log| - 1]);
    }
  }

  /** Over any run, the blocks that the host has been told were a success are what the device has written
      and kept, in order. */
  lemma {:induction false} ConfirmedIsLasting(cfg: Config, s: State, turns: seq<Turn>)
    ensures Confirmed(cfg, s, turns) == Lasting(DeviceLog(cfg, s, turns))
  {
    hide TakeTurn, Entries, ConfirmedBy, Lasting;
    if turns == [] {
      NoWrites();
    } else {
      var front, t := turns[..|turns| - 1], turns[|turns| - 1];
      var before := Run(cfg, s, front).0;
      ConfirmedIsLasting(cfg, s, front);
      ConfirmedOfTurn(cfg, before, t);
      LastingAppend(DeviceLog(cfg, s, front), Entries(TakeTurn(cfg, before, t).1, t.device));
    }
  }
}
