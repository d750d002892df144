/** The deferred IPC channel (`embedded-service/src/ipc/deferred.rs`): two one-slot signals that
    overwrite, a lock around each request and a counter of request IDs. Every `await` is a point where
    tasks interleave and where a caller may be cancelled, so a run is a sequence of atomic steps. */
module DeferredChannel {
  import opened Wrappers

  type RequestId = nat
  type CallerId = nat
  type HandlerId = nat

  // ---------------------------------------------------------------- the channel object

  datatype Slots<C, R> = Slots(
    command: Option<(C, RequestId)>, response: Option<(R, RequestId)>, locked: bool, nextId: RequestId)

  /** The caller holds the lock: take an ID and overwrite the command slot. */
  function Begin<C, R>(s: Slots<C, R>, command: C): Slots<C, R> {
    s.(command := Some((command, s.nextId)), locked := true, nextId := s.nextId + 1)
  }

  /** The caller takes whatever is in the response slot; only its own response ends the call. */
  function Poll<C, R>(s: Slots<C, R>, id: RequestId): Slots<C, R>
    requires s.response.Some?
  {
    s.(response := None, locked := s.locked && s.response.value.1 != id)
  }

  class Channel<C, R> {
    var command: Option<(C, RequestId)>
    var response: Option<(R, RequestId)>
    var requestLocked: bool
    var nextRequestId: RequestId

    ghost function State(): Slots<C, R>
      reads this
    {
      Slots(command, response, requestLocked, nextRequestId)
    }

    constructor ()
      ensures State() == Slots(None, None, false, 0)
    {
      command, response, requestLocked, nextRequestId := None, None, false, 0;
    }

    method GetNextRequestId() returns (id: RequestId)
      modifies this`nextRequestId
      ensures id == old(nextRequestId) && nextRequestId == id + 1
    {
      id := nextRequestId;
      nextRequestId := nextRequestId + 1;
    }

    /** `execute` up to its loop, from the moment it gets the lock. */
    method BeginExecute(c: C) returns (id: RequestId)
      requires !requestLocked
      modifies this
      ensures id == old(nextRequestId) && State() == Begin(old(State()), c)
    {
      requestLocked := true;
      id := GetNextRequestId();
      command := Some((c, id));
    }

    /** One turn of the loop in `execute`, when a response is there. */
    method PollResponse(id: RequestId) returns (r: Option<R>)
      requires response.Some? && requestLocked
      modifies this
      ensures State() == Poll(old(State()), id)
      ensures r == if old(response).value.1 == id then Some(old(response).value.0) else None
    {
      var (value, responseId) := response.value;
      response := None;
      if responseId == id {
        requestLocked := false;
        return Some(value);
      }
      return None;
    }

    /** Dropping the future of `execute` releases the lock and nothing else. */
    method CancelExecute()
      modifies this
      ensures State() == old(State()).(locked := false)
    {
      requestLocked := false;
    }

    method Receive() returns (c: C, id: RequestId)
      requires command.Some?
      modifies this
      ensures (c, id) == old(command).value && State() == old(State()).(command := None)
    {
      c, id := command.value.0, command.value.1;
      command := None;
    }

    method Respond(id: RequestId, r: R)
      modifies this
      ensures State() == old(State()).(response := Some((r, id)))
    {
      response := Some((r, id));
    }
  }

  // ---------------------------------------------------------------- the system

  datatype Caller<C, R> =
    | AwaitingLock(command: C)
    | Executing(command: C, id: RequestId, discarded: nat)
    | Returned(command: C, id: RequestId, discarded: nat, response: R)

  /** `holder` is the caller that has the lock. `issued` and `answered` are history: the command of
      every request ID, and what a handler answered to it. */
  datatype System<C, R> = System(
    slots: Slots<C, R>, holder: Option<CallerId>,
    callers: map<CallerId, Caller<C, R>>, handlers: map<HandlerId, (C, RequestId)>,
    issued: seq<C>, answered: map<RequestId, R>)

  function Start<C, R>(): System<C, R> {
    System(Slots(None, None, false, 0), None, map[], map[], [], map[])
  }

  datatype Event<C, R> =
    | Call(caller: CallerId, command: C)
    | Acquire(caller: CallerId)
    | PollResponse(caller: CallerId)
    | Cancel(caller: CallerId)
    | Receive(handler: HandlerId)
    | Respond(handler: HandlerId, response: R)
    | DropRequest(handler: HandlerId)

  predicate Enabled<C, R>(s: System<C, R>, e: Event<C, R>) {
    match e
    case Call(k, _) => k !in s.callers
    case Acquire(k) => k in s.callers && s.callers[k].AwaitingLock? && !s.slots.locked
    case PollResponse(k) => k in s.callers && s.callers[k].Executing? && s.slots.response.Some?
    case Cancel(k) => k in s.callers
    case Receive(h) => h !in s.handlers && s.slots.command.Some?
    case Respond(h, _) => h in s.handlers
    case DropRequest(h) => h in s.handlers
  }

  /** One atomic step; an event that is not enabled does nothing. */
  function Step<C, R>(s: System<C, R>, e: Event<C, R>): System<C, R> {
    if !Enabled(s, e) then s else EnabledStep(s, e)
  }

  function EnabledStep<C, R>(s: System<C, R>, e: Event<C, R>): System<C, R>
    requires Enabled(s, e)
  {
    match e
    case Call(k, c) => s.(callers := s.callers[k := AwaitingLock(c)])
    case Acquire(k) =>
      var c := s.callers[k].command;
      s.(slots := Begin(s.slots, c), holder := Some(k), issued := s.issued + [c],
         callers := s.callers[k := Executing(c, s.slots.nextId, 0)])
    case PollResponse(k) =>
      var (caller, got) := (s.callers[k], s.slots.response.value);
      var slots := Poll(s.slots, caller.id);
      if got.1 == caller.id then
        s.(slots := slots, holder := None,
           callers := s.callers[k := Returned(caller.command, caller.id, caller.discarded, got.0)])
      else
        s.(slots := slots, callers := s.callers[k := Executing(caller.command, caller.id, caller.discarded + 1)])
    case Cancel(k) =>
      var rest := s.(callers := s.callers - {k});
      if s.callers[k].Executing? then rest.(slots := s.slots.(locked := false), holder := None) else rest
    case Receive(h) =>
      s.(slots := s.slots.(command := None), handlers := s.handlers[h := s.slots.command.value])
    case Respond(h, r) =>
      var id := s.handlers[h].1;
      s.(slots := s.slots.(response := Some((r, id))), handlers := s.handlers - {h}, answered := s.answered[id := r])
    case DropRequest(h) => s.(handlers := s.handlers - {h})
  }

  function Run<C, R>(s: System<C, R>, events: seq<Event<C, R>>): System<C, R> {
    if events == [] then s else Step(Run(s, events[..|events| - 1]), events[|events| - 1])
  }

  // ---------------------------------------------------------------- responses belong to requests

  /** The lock is held by exactly the caller that is executing, on the newest request. */
  ghost predicate LockInv<C, R>(s: System<C, R>) {
    && |s.issued| == s.slots.nextId
    && (s.slots.locked <==> s.holder.Some?)
    && (s.holder.Some? ==> s.holder.value in s.callers && s.callers[s.holder.value].Executing?)
    && forall k | k in s.callers && s.callers[k].Executing? ::
         s.holder == Some(k) && s.callers[k].id == s.slots.nextId - 1
         && s.callers[k].command == s.issued[s.callers[k].id]
  }

  /** A pending command is the newest request, and unanswered. */
  ghost predicate CommandInv<C, R>(s: System<C, R>)
    requires |s.issued| == s.slots.nextId
  {
    && (s.slots.command.Some? ==>
          var (c, id) := s.slots.command.value;
          id + 1 == s.slots.nextId && s.issued[id] == c && id !in s.answered)
    && (forall id | id in s.answered :: id < s.slots.nextId)
  }

  /** The requests in the handlers' hands are unanswered, and all different. */
  ghost predicate HandsInv<C, R>(s: System<C, R>)
    requires |s.issued| == s.slots.nextId
  {
    && (forall h | h in s.handlers ::
          var (c, id) := s.handlers[h];
          && id < s.slots.nextId && s.issued[id] == c && id !in s.answered
          && (s.slots.command.Some? ==> s.slots.command.value.1 != id))
    && (forall h, g | h in s.handlers && g in s.handlers && h != g :: s.handlers[h].1 != s.handlers[g].1)
  }

  ghost predicate RequestInv<C, R>(s: System<C, R>)
    requires |s.issued| == s.slots.nextId
  {
    CommandInv(s) && HandsInv(s)
  }

  /** What is in the response slot was answered to that request. */
  ghost predicate SlotInv<C, R>(s: System<C, R>) {
    s.slots.response.Some? ==>
      var (r, id) := s.slots.response.value; id in s.answered && s.answered[id] == r
  }

  /** What a caller has returned was answered to its own request, and is not the newest request while
      somebody is executing. */
  ghost predicate ReturnedInv<C, R>(s: System<C, R>)
    requires |s.issued| == s.slots.nextId
  {
    forall k | k in s.callers && s.callers[k].Returned? ::
      && s.callers[k].id < s.slots.nextId && s.callers[k].command == s.issued[s.callers[k].id]
      && s.callers[k].id in s.answered && s.callers[k].response == s.answered[s.callers[k].id]
      && (s.holder.Some? ==> s.callers[k].id + 1 != s.slots.nextId)
  }

  ghost predicate ReturnedApart<C, R>(s: System<C, R>) {
    forall j, k | j in s.callers && k in s.callers && s.callers[j].Returned? && s.callers[k].Returned? && j != k ::
      s.callers[j].id != s.callers[k].id
  }

  ghost predicate Inv<C, R>(s: System<C, R>) {
    LockInv(s) && RequestInv(s) && SlotInv(s) && ReturnedInv(s) && ReturnedApart(s)
  }

  lemma {:induction false} LockStep<C, R>(s: System<C, R>, e: Event<C, R>)
    requires LockInv(s)
    ensures LockInv(Step(s, e))
  {
  }

  lemma {:induction false} CommandStep<C, R>(s: System<C, R>, e: Event<C, R>)
    requires LockInv(s) && RequestInv(s)
    ensures |Step(s, e).issued| == Step(s, e).slots.nextId && CommandInv(Step(s, e))
  {
  }

  lemma {:induction false} HandsStep<C, R>(s: System<C, R>, e: Event<C, R>)
    requires LockInv(s) && RequestInv(s)
    ensures |Step(s, e).issued| == Step(s, e).slots.nextId && HandsInv(Step(s, e))
  {
    hide Step, CommandInv, LockInv;
    CommandStep(s, e);
    HandStep(s, e);
    HandsApartStep(s, e);
  }

  lemma {:induction false} HandStep<C, R>(s: System<C, R>, e: Event<C, R>)
    requires LockInv(s) && RequestInv(s)
    ensures var t := Step(s, e);
            && |t.issued| == t.slots.nextId
            && forall h | h in t.handlers ::
                 var (c, id) := t.handlers[h];
                 && id < t.slots.nextId && t.issued[id] == c && id !in t.answered
                 && (t.slots.command.Some? ==> t.slots.command.value.1 != id)
  {
  }

  lemma {:induction false} HandsApartStep<C, R>(s: System<C, R>, e: Event<C, R>)
    requires LockInv(s) && RequestInv(s)
    ensures var t := Step(s, e);
            forall h, g | h in t.handlers && g in t.handlers && h != g :: t.handlers[h].1 != t.handlers[g].1
  {
  }

  lemma {:induction false} SlotStep<C, R>(s: System<C, R>, e: Event<C, R>)
    requires Inv(s)
    ensures SlotInv(Step(s, e))
  {
  }

  lemma {:induction false} ReturnedStep<C, R>(s: System<C, R>, e: Event<C, R>)
    requires Inv(s)
    ensures |Step(s, e).issued| == Step(s, e).slots.nextId && ReturnedInv(Step(s, e))
  {
  }

  lemma {:induction false} ReturnedApartStep<C, R>(s: System<C, R>, e: Event<C, R>)
    requires LockInv(s) && ReturnedInv(s) && ReturnedApart(s)
    ensures ReturnedApart(Step(s, e))
  {
  }

  lemma {:induction false} InvHolds<C, R>(events: seq<Event<C, R>>)
    ensures Inv(Run(Start<C, R>(), events))
  {
    if events == [] {
    } else {
      var init, e := events[..|events| - 1], events[|events| - 1];
      InvHolds(init);
      var s := Run(Start<C, R>(), init);
      LockStep(s, e);
      CommandStep(s, e);
      HandsStep(s, e);
      SlotStep(s, e);
      ReturnedStep(s, e);
      ReturnedApartStep(s, e);
    }
  }

  /** `execute` returns only what a handler answered to its own command, whatever the interleaving of
      callers, cancellations and any number of handlers; no answer goes to two callers. */
  lemma {:induction false} ExecuteReturnsOwnResponse<C, R>(events: seq<Event<C, R>>, k: CallerId, j: CallerId)
    ensures var s := Run(Start<C, R>(), events);
            k in s.callers && s.callers[k].Returned? ==>
              var caller := s.callers[k];
              && caller.id < |s.issued| && s.issued[caller.id] == caller.command
              && caller.id in s.answered && s.answered[caller.id] == caller.response
              && (j in s.callers && s.callers[j].Returned? && j != k ==> s.callers[j].id != caller.id)
  {
    InvHolds(events);
  }

  // ---------------------------------------------------------------- what the slots hold

  /** The request issued last, unless a handler has taken it. */
  ghost function LatestCommand<C, R>(events: seq<Event<C, R>>): Option<(C, RequestId)> {
    if events == [] then None
    else
      var init, e := events[..|events| - 1], events[|events| - 1];
      var s := Run(Start<C, R>(), init);
      if e.Acquire? && Enabled(s, e) then Some((s.callers[e.caller].command, |s.issued|))
      else if e.Receive? && Enabled(s, e) then None
      else LatestCommand(init)
  }

  /** The response given last, with the request it answers, unless a caller has taken it. */
  ghost function LatestResponse<C, R>(events: seq<Event<C, R>>): Option<(R, RequestId)> {
    if events == [] then None
    else
      var init, e := events[..|events| - 1], events[|events| - 1];
      var s := Run(Start<C, R>(), init);
      if e.Respond? && Enabled(s, e) then Some((e.response, s.handlers[e.handler].1))
      else if e.PollResponse? && Enabled(s, e) then None
      else LatestResponse(init)
  }

  /** The latest value wins: in every run each slot holds what was last put into it and not taken since.
      Nothing else changes them, a cancelled call least of all. */
  lemma {:induction false} SlotsHoldLatest<C, R>(events: seq<Event<C, R>>)
    ensures var s := Run(Start<C, R>(), events);
            s.slots.command == LatestCommand(events) && s.slots.response == LatestResponse(events)
  {
    hide Inv;
    if events == [] {
    } else {
      hide Step;
      var init, e := events[..|events| - 1], events[|events| - 1];
      var s := Run(Start<C, R>(), init);
      SlotsHoldLatest(init);
      InvHolds(init);
      FreshId(s);
      SlotsAfter(s, e);
    }
  }

  lemma {:induction false} SlotsAfter<C, R>(s: System<C, R>, e: Event<C, R>)
    ensures var t := Step(s, e);
            && t.slots.command == (if e.Acquire? && Enabled(s, e) then
                                     Some((s.callers[e.caller].command, s.slots.nextId))
                                   else if e.Receive? && Enabled(s, e) then None else s.slots.command)
            && t.slots.response == if e.Respond? && Enabled(s, e) then Some((e.response, s.handlers[e.handler].1))
                                   else if e.PollResponse? && Enabled(s, e) then None else s.slots.response
  {
  }

  lemma {:induction false} FreshId<C, R>(s: System<C, R>)
    requires Inv(s)
    ensures s.slots.nextId == |s.issued|
  {
  }

  // ---------------------------------------------------------------- how many foreign responses

  /** The handlers that hold a request older than `id`. */
  ghost function StaleHolders<C, R>(s: System<C, R>, id: RequestId): set<HandlerId> {
    set h | h in s.handlers && s.handlers[h].1 != id
  }

  ghost predicate Bounded<C, R>(s: System<C, R>, n: nat) {
    forall k | k in s.callers ::
      match s.callers[k]
      case Executing(_, id, discarded) =>
        discarded + |StaleHolders(s, id)|
        + (if s.slots.response.Some? && s.slots.response.value.1 != id then 1 else 0) <= n + 1
      case Returned(_, _, discarded, _) => discarded <= n + 1
      case AwaitingLock(_) => true
  }

  lemma {:induction false} SubsetSize(a: set<HandlerId>, b: set<HandlerId>)
    requires a <= b
    ensures |a| <= |b|
  {
    if a != {} {
      var x :| x in a;
      SubsetSize(a - {x}, b - {x});
    }
  }

  /** Only an answer to an older request takes a handler out of the stale ones. */
  lemma {:induction false} StaleStep<C, R>(s: System<C, R>, e: Event<C, R>, id: RequestId)
    requires LockInv(s) && RequestInv(s) && id + 1 == s.slots.nextId
    ensures if e.Respond? && e.handler in s.handlers && s.handlers[e.handler].1 != id then
              e.handler in StaleHolders(s, id) && StaleHolders(Step(s, e), id) == StaleHolders(s, id) - {e.handler}
            else StaleHolders(Step(s, e), id) <= StaleHolders(s, id)
  {
  }

  lemma {:induction false} StaleAmong<C, R>(s: System<C, R>, id: RequestId, team: set<HandlerId>)
    requires s.handlers.Keys <= team
    ensures |StaleHolders(s, id)| <= |team|
  {
    SubsetSize(StaleHolders(s, id), team);
  }

  lemma {:induction false} BoundedForLive<C, R>(s: System<C, R>, e: Event<C, R>, team: set<HandlerId>, k: CallerId)
    requires LockInv(s) && RequestInv(s) && Bounded(s, |team|)
    requires Step(s, e).handlers.Keys <= team
    requires k in Step(s, e).callers && Step(s, e).callers[k].Executing?
    ensures var t := Step(s, e); var id := t.callers[k].id;
            t.callers[k].discarded + |StaleHolders(t, id)|
            + (if t.slots.response.Some? && t.slots.response.value.1 != id then 1 else 0) <= |team| + 1
  {
    hide StaleHolders, RequestInv;
    var t := Step(s, e);
    var id := t.callers[k].id;
    if e.Acquire? && e.caller == k {
      StaleAmong(t, id, team);
    } else {
      assert s.callers[k].Executing? && s.callers[k].id == id;
      StaleStep(s, e, id);
      SubsetSize(StaleHolders(t, id), StaleHolders(s, id));
    }
  }

  lemma {:induction false} BoundedStep<C, R>(s: System<C, R>, e: Event<C, R>, team: set<HandlerId>)
    requires LockInv(s) && RequestInv(s) && Bounded(s, |team|)
    requires s.handlers.Keys <= team && (e.Receive? ==> e.handler in team)
    ensures Bounded(Step(s, e), |team|) && Step(s, e).handlers.Keys <= team
  {
    hide StaleHolders, RequestInv, LockInv;
    var t := Step(s, e);
    forall k | k in t.callers && t.callers[k].Executing?
      ensures var id := t.callers[k].id;
              t.callers[k].discarded + |StaleHolders(t, id)|
              + (if t.slots.response.Some? && t.slots.response.value.1 != id then 1 else 0) <= |team| + 1
    {
      BoundedForLive(s, e, team, k);
    }
    forall k | k in t.callers && t.callers[k].Returned?
      ensures t.callers[k].discarded <= |team| + 1
    {
      assert s.callers[k].discarded <= |team| + 1;
    }
  }

  ghost predicate HandledBy<C, R>(events: seq<Event<C, R>>, team: set<HandlerId>) {
    forall i | 0 <= i < |events| :: events[i].Receive? ==> events[i].handler in team
  }

  lemma {:induction false} BoundedHolds<C, R>(events: seq<Event<C, R>>, team: set<HandlerId>)
    requires HandledBy(events, team)
    ensures var s := Run(Start<C, R>(), events); Bounded(s, |team|) && s.handlers.Keys <= team
  {
    if events == [] {
    } else {
      var init, e := events[..|events| - 1], events[|events| - 1];
      assert forall i | 0 <= i < |init| :: init[i] == events[i];
      hide Step, LockInv, Bounded;
      BoundedHolds(init, team);
      InvHolds(init);
      BoundedStep(Run(Start<C, R>(), init), e, team);
    }
  }

  /** `execute` discards at most one foreign response more than there are handlers: two with a single
      handler, the one left in the slot and the one for a request the handler still held. */
  lemma {:induction false} ForeignResponsesBounded<C, R>(events: seq<Event<C, R>>, team: set<HandlerId>, k: CallerId)
    requires HandledBy(events, team)
    ensures var s := Run(Start<C, R>(), events);
            k in s.callers && !s.callers[k].AwaitingLock? ==> s.callers[k].discarded <= |team| + 1
  {
    BoundedHolds(events, team);
  }

  /** The polls of the caller, since it got the lock, that found a response to another request. */
  ghost function ForeignPolls<C, R>(events: seq<Event<C, R>>, k: CallerId): nat {
    if events == [] then 0
    else
      var init, e := events[..|events| - 1], events[|events| - 1];
      var s := Run(Start<C, R>(), init);
      if e.Acquire? && e.caller == k && Enabled(s, e) then 0
      else ForeignPolls(init, k) +
           if e.PollResponse? && e.caller == k && Enabled(s, e) && s.slots.response.value.1 != s.callers[k].id then 1
           else 0
  }

  /** What a call has discarded is counted exactly: one for each of its polls that found another's response. */
  lemma {:induction false} DiscardedAreForeign<C, R>(events: seq<Event<C, R>>, k: CallerId)
    ensures var s := Run(Start<C, R>(), events);
            k in s.callers && !s.callers[k].AwaitingLock? ==> s.callers[k].discarded == ForeignPolls(events, k)
  {
    if events == [] {
    } else {
      DiscardedAreForeign(events[..|events| - 1], k);
    }
  }

  /** A poll that finds a response always empties the response slot. It ends the call exactly if the response
      is its own, with that response and with the lock released; otherwise the call goes on holding it, with
      its request where it was. */
  lemma {:induction false} PollEmptiesSlot<C, R>(events: seq<Event<C, R>>, k: CallerId)
    requires Enabled(Run(Start<C, R>(), events), PollResponse(k))
    ensures var s := Run(Start<C, R>(), events); var t := Step(s, PollResponse(k));
            var own := s.slots.response.value.1 == s.callers[k].id;
            && t.slots.response == None && t.slots.command == s.slots.command && t.handlers == s.handlers
            && k in t.callers && (t.callers[k].Returned? <==> own)
            && (if own then !t.slots.locked && t.holder == None && t.callers[k].response == s.slots.response.value.0
                else t.slots.locked && t.holder == Some(k) && t.callers[k].Executing?
                     && t.callers[k].id == s.callers[k].id && t.callers[k].command == s.callers[k].command)
  {
    InvHolds(events);
  }

  // ---------------------------------------------------------------- one handler

  /** One handler that always answers what it receives. */
  ghost predicate OneHandler<C, R>(events: seq<Event<C, R>>, h: HandlerId) {
    forall i | 0 <= i < |events| :: (events[i].Receive? ==> events[i].handler == h) && !events[i].DropRequest?
  }

  datatype Place = InCommandSlot | InHand | InResponseSlot

  ghost predicate IsAt<C, R>(s: System<C, R>, h: HandlerId, id: RequestId, place: Place) {
    match place
    case InCommandSlot => s.slots.command.Some? && s.slots.command.value.1 == id
    case InHand => h in s.handlers && s.handlers[h].1 == id
    case InResponseSlot => s.slots.response.Some? && s.slots.response.value.1 == id
  }

  /** A live request is in exactly one place, and once it is answered the handler has nothing left to
      answer that could overwrite the response. */
  ghost predicate OnePlace<C, R>(s: System<C, R>, h: HandlerId, id: RequestId) {
    && (IsAt(s, h, id, InCommandSlot) || IsAt(s, h, id, InHand) || IsAt(s, h, id, InResponseSlot))
    && !(IsAt(s, h, id, InCommandSlot) && IsAt(s, h, id, InHand))
    && !(IsAt(s, h, id, InCommandSlot) && IsAt(s, h, id, InResponseSlot))
    && !(IsAt(s, h, id, InHand) && IsAt(s, h, id, InResponseSlot))
    && (IsAt(s, h, id, InResponseSlot) ==> h !in s.handlers)
  }

  ghost predicate LiveInOnePlace<C, R>(s: System<C, R>, h: HandlerId) {
    forall k | k in s.callers && s.callers[k].Executing? :: OnePlace(s, h, s.callers[k].id)
  }

  lemma {:induction false} OldStaysInOnePlace<C, R>(s: System<C, R>, e: Event<C, R>, h: HandlerId, k: CallerId)
    requires LockInv(s) && RequestInv(s) && s.handlers.Keys <= {h}
    requires (e.Receive? ==> e.handler == h) && !e.DropRequest?
    requires k in s.callers && s.callers[k].Executing? && OnePlace(s, h, s.callers[k].id)
    requires k in Step(s, e).callers && Step(s, e).callers[k].Executing?
    ensures OnePlace(Step(s, e), h, Step(s, e).callers[k].id)
  {
    assert Step(s, e).callers[k].id == s.callers[k].id;
  }

  lemma {:induction false} NewIsInOnePlace<C, R>(s: System<C, R>, e: Event<C, R>, h: HandlerId)
    requires Inv(s) && Enabled(s, e) && e.Acquire?
    ensures OnePlace(Step(s, e), h, s.slots.nextId)
  {
  }

  lemma {:induction false} OnePlaceStep<C, R>(s: System<C, R>, e: Event<C, R>, h: HandlerId)
    requires Inv(s) && LiveInOnePlace(s, h) && s.handlers.Keys <= {h}
    requires (e.Receive? ==> e.handler == h) && !e.DropRequest?
    ensures LiveInOnePlace(Step(s, e), h) && Step(s, e).handlers.Keys <= {h}
  {
    hide OnePlace, CommandInv, HandsInv;
    var t := Step(s, e);
    forall k | k in t.callers && t.callers[k].Executing?
      ensures OnePlace(t, h, t.callers[k].id)
    {
      if e.Acquire? && e.caller == k && Enabled(s, e) {
        NewIsInOnePlace(s, e, h);
      } else {
        OldStaysInOnePlace(s, e, h, k);
      }
    }
  }

  /** With one answering handler the live request is never lost: under any interleaving of callers and
      cancellations it is in exactly one of command slot, handler's hands and response slot. */
  lemma {:induction false} LiveRequestNeverLost<C, R>(events: seq<Event<C, R>>, h: HandlerId)
    requires OneHandler(events, h)
    ensures var s := Run(Start<C, R>(), events); LiveInOnePlace(s, h) && s.handlers.Keys <= {h}
  {
    if events == [] {
    } else {
      var init, e := events[..|events| - 1], events[|events| - 1];
      assert forall i | 0 <= i < |init| :: init[i] == events[i];
      LiveRequestNeverLost(init, h);
      InvHolds(init);
      OnePlaceStep(Run(Start<C, R>(), init), e, h);
    }
  }

  /** Steps of the handler and of the live caller that can still happen before its call returns. */
  ghost function StepsToGo<C, R>(s: System<C, R>, h: HandlerId, id: RequestId): nat {
    (if IsAt(s, h, id, InCommandSlot) then 3 else if IsAt(s, h, id, InHand) then 2 else 1)
    + (if h in s.handlers && s.handlers[h].1 != id then 2 else 0)
    + (if s.slots.response.Some? && s.slots.response.value.1 != id then 1 else 0)
  }

  /** `execute` completes: as long as it is not cancelled, a step of the handler or a poll of the
      caller is possible, each of them brings the call nearer to its return, nothing sets it back, and
      at most six are needed. */
  lemma {:induction false} ExecuteMakesProgress<C, R>(events: seq<Event<C, R>>, h: HandlerId, k: CallerId,
                                                      e: Event<C, R>, r: R)
    requires OneHandler(events, h)
    requires k in Run(Start<C, R>(), events).callers && Run(Start<C, R>(), events).callers[k].Executing?
    requires Enabled(Run(Start<C, R>(), events), e) && e != Cancel(k)
    requires (e.Receive? ==> e.handler == h) && !e.DropRequest?
    ensures var s := Run(Start<C, R>(), events); var id := s.callers[k].id; var t := Step(s, e);
            && StepsToGo(s, h, id) <= 6
            && (Enabled(s, Receive(h)) || Enabled(s, Respond(h, r)) || Enabled(s, PollResponse(k)))
            && k in t.callers
            && if t.callers[k].Executing? then
                 t.callers[k].id == id
                 && (if e.Receive? || e.Respond? || e.PollResponse? then StepsToGo(t, h, id) < StepsToGo(s, h, id)
                     else StepsToGo(t, h, id) == StepsToGo(s, h, id))
               else t.callers[k].Returned? && e == PollResponse(k)
  {
    LiveRequestNeverLost(events, h);
    InvHolds(events);
    ProgressStep(Run(Start<C, R>(), events), h, k, e);
  }

  lemma {:induction false} ProgressStep<C, R>(s: System<C, R>, h: HandlerId, k: CallerId, e: Event<C, R>)
    requires Inv(s) && LiveInOnePlace(s, h) && s.handlers.Keys <= {h}
    requires k in s.callers && s.callers[k].Executing?
    requires Enabled(s, e) && e != Cancel(k) && (e.Receive? ==> e.handler == h) && !e.DropRequest?
    ensures var id := s.callers[k].id; var t := Step(s, e);
            && StepsToGo(s, h, id) <= 6
            && (Enabled(s, Receive(h)) || h in s.handlers || Enabled(s, PollResponse(k)))
            && k in t.callers
            && if t.callers[k].Executing? then
                 t.callers[k].id == id
                 && (if e.Receive? || e.Respond? || e.PollResponse? then StepsToGo(t, h, id) < StepsToGo(s, h, id)
                     else StepsToGo(t, h, id) == StepsToGo(s, h, id))
               else t.callers[k].Returned? && e == PollResponse(k)
  {
    var id := s.callers[k].id;
    assert IsAt(s, h, id, InCommandSlot) || IsAt(s, h, id, InHand) || IsAt(s, h, id, InResponseSlot);
  }

  // ---------------------------------------------------------------- lost requests

  /** Nowhere: no step but its own cancellation can ever end such a call. */
  ghost predicate Lost<C, R>(s: System<C, R>, k: CallerId) {
    && k in s.callers && s.callers[k].Executing?
    && (s.slots.command.Some? ==> s.slots.command.value.1 != s.callers[k].id)
    && (forall h | h in s.handlers :: s.handlers[h].1 != s.callers[k].id)
    && (s.slots.response.Some? ==> s.slots.response.value.1 != s.callers[k].id)
  }

  lemma {:induction false} LostForever<C, R>(s: System<C, R>, k: CallerId, e: Event<C, R>)
    requires Inv(s) && Lost(s, k) && e != Cancel(k)
    ensures Lost(Step(s, e), k)
  {
  }

  ghost predicate IsLive<C, R>(s: System<C, R>, k: CallerId) {
    k in s.callers && s.callers[k].Executing?
  }

  /** A step that loses the live request: another request's response is put over its own, or the
      handler that holds it drops it. */
  ghost predicate Loses<C, R>(s: System<C, R>, e: Event<C, R>, k: CallerId)
    requires IsLive(s, k)
  {
    var id := s.callers[k].id;
    match e
    case Respond(h, _) =>
      h in s.handlers && s.handlers[h].1 != id && s.slots.response.Some? && s.slots.response.value.1 == id
    case DropRequest(h) => h in s.handlers && s.handlers[h].1 == id
    case _ => false
  }

  /** The response slot's request is in nobody's hands any more, nor waiting as a command. */
  ghost predicate SlotApart<C, R>(s: System<C, R>) {
    s.slots.response.Some? ==>
      && (forall h | h in s.handlers :: s.handlers[h].1 != s.slots.response.value.1)
      && (s.slots.command.Some? ==> s.slots.command.value.1 != s.slots.response.value.1)
  }

  lemma {:induction false} SlotIsApart<C, R>(s: System<C, R>)
    requires Inv(s)
    ensures SlotApart(s)
  {
  }

  /** One step loses a live request exactly in these two ways. */
  lemma {:induction false} LostByStep<C, R>(s: System<C, R>, e: Event<C, R>, k: CallerId)
    requires Inv(s) && IsLive(s, k) && !Lost(s, k) && IsLive(Step(s, e), k)
    ensures Lost(Step(s, e), k) <==> Loses(s, e, k)
  {
    SlotIsApart(s);
    var id, t := s.callers[k].id, Step(s, e);
    assert t.callers[k].id == id;
    if Loses(s, e, k) {
      assert forall h | h in t.handlers :: h in s.handlers && t.handlers[h] == s.handlers[h];
    } else if s.slots.response.Some? && s.slots.response.value.1 == id {
      assert t.slots.response.Some? && t.slots.response.value.1 == id;
    } else if s.slots.command.Some? && s.slots.command.value.1 == id {
      assert t.slots.command == s.slots.command || (e.Receive? && t.handlers[e.handler].1 == id);
    } else {
      var h :| h in s.handlers && s.handlers[h].1 == id;
      assert h in t.handlers || (t.slots.response.Some? && t.slots.response.value.1 == id);
    }
  }

  /** The same call has been executing from before step `i` of the run to its end. */
  ghost predicate ExecutingSince<C, R>(events: seq<Event<C, R>>, k: CallerId, i: nat) {
    forall j: nat | i <= j <= |events| :: IsLive(Run(Start<C, R>(), events[..j]), k)
  }

  ghost predicate LostAt<C, R>(events: seq<Event<C, R>>, k: CallerId, i: nat) {
    && i < |events| && ExecutingSince(events, k, i)
    && IsLive(Run(Start<C, R>(), events[..i]), k) && Loses(Run(Start<C, R>(), events[..i]), events[i], k)
  }

  /** A live call is lost exactly if, since it was issued, some step has put another response over its
      own or dropped its request. */
  lemma {:induction false} LostExactly<C, R>(events: seq<Event<C, R>>, k: CallerId)
    requires IsLive(Run(Start<C, R>(), events), k)
    ensures Lost(Run(Start<C, R>(), events), k) <==> exists i: nat :: LostAt(events, k, i)
  {
    hide Lost, Loses, Step, Inv;
    assert events[..|events|] == events;
    if events == [] {
    } else {
      var n := |events| - 1;
      var init, e := events[..n], events[n];
      var s := Run(Start<C, R>(), init);
      InvHolds(init);
      assert forall j: nat | j <= n :: init[..j] == events[..j];
      if IsLive(s, k) {
        LostExactly(init, k);
        forall i: nat | i < n
          ensures LostAt(init, k, i) <==> LostAt(events, k, i)
        {
          assert ExecutingSince(init, k, i) <==> ExecutingSince(events, k, i);
        }
        assert ExecutingSince(events, k, n);
        assert LostAt(events, k, n) <==> Loses(s, e, k);
        if Lost(s, k) {
          LostForeverWhileExecuting(s, k, e);
        } else {
          LostByStep(s, e, k);
        }
      } else {
        NewCallNotLost(s, e, k);
        forall i: nat
          ensures !LostAt(events, k, i)
        {
          if i <= n {
            InterruptedAt(events, k, i, n);
          }
        }
      }
    }
  }

  lemma {:induction false} InterruptedAt<C, R>(events: seq<Event<C, R>>, k: CallerId, i: nat, j: nat)
    requires i <= j <= |events| && !IsLive(Run(Start<C, R>(), events[..j]), k)
    ensures !ExecutingSince(events, k, i)
  {
  }

  lemma {:induction false} LostForeverWhileExecuting<C, R>(s: System<C, R>, k: CallerId, e: Event<C, R>)
    requires Inv(s) && Lost(s, k) && IsLive(Step(s, e), k)
    ensures Lost(Step(s, e), k)
  {
    if e != Cancel(k) {
      LostForever(s, k, e);
    }
  }

  lemma {:induction false} NewCallNotLost<C, R>(s: System<C, R>, e: Event<C, R>, k: CallerId)
    requires Inv(s) && !IsLive(s, k) && IsLive(Step(s, e), k)
    ensures !Lost(Step(s, e), k)
  {
  }

  /** Why one handler that answers all it receives is enough: with it no step ever loses a request. */
  lemma {:induction false} OneHandlerLosesNothing<C, R>(events: seq<Event<C, R>>, h: HandlerId, e: Event<C, R>,
                                                       k: CallerId)
    requires OneHandler(events, h) && !e.DropRequest?
    requires IsLive(Run(Start<C, R>(), events), k)
    ensures !Loses(Run(Start<C, R>(), events), e, k)
  {
    LiveRequestNeverLost(events, h);
  }

  // ---------------------------------------------------------------- two handlers

  /** Caller 1 is cancelled while handler 0 works on its request; handler 1 answers caller 2 first. */
  function LosingRun<C, R>(c: C, r: R): seq<Event<C, R>> {
    [Call(1, c), Acquire(1), Receive(0), Cancel(1), Call(2, c), Acquire(2), Receive(1), Respond(1, r), Respond(0, r)]
  }

  /** With a second handler the live request can be lost: its response is overwritten by the late
      response to a cancelled request. */
  lemma {:induction false} TwoHandlersLoseARequest<C, R>(c: C, r: R)
    ensures HandledBy(LosingRun<C, R>(c, r), {0, 1})
    ensures Lost(Run(Start<C, R>(), LosingRun(c, r)), 2)
  {
    var s := Start<C, R>();
    var run := LosingRun<C, R>(c, r);
    FirstCallerCancelled(c, r);
    Extend(s, run, 6);
    Extend(s, run, 7);
    Extend(s, run, 8);
    assert run[..9] == run;
  }

  lemma {:induction false} FirstCallerCancelled<C, R>(c: C, r: R)
    ensures Run(Start<C, R>(), LosingRun(c, r)[..6])
         == System(Slots(Some((c, 1)), None, true, 2), Some(2), map[2 := Executing(c, 1, 0)],
                    map[0 := (c, 0)], [c, c], map[])
  {
    var s := Start<C, R>();
    var run := LosingRun<C, R>(c, r);
    assert run[..0] == [];
    Extend(s, run, 0);
    Extend(s, run, 1);
    Extend(s, run, 2);
    Extend(s, run, 3);
    Extend(s, run, 4);
    Extend(s, run, 5);
  }

  lemma {:induction false} Extend<C, R>(s: System<C, R>, events: seq<Event<C, R>>, i: nat)
    requires i < |events|
    ensures Run(s, events[..i + 1]) == Step(Run(s, events[..i]), events[i])
  {
    assert events[..i + 1][..i] == events[..i];
  }
}
