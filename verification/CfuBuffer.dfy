/** The CFU content buffer (`cfu-service/src/buffer.rs`), which answers the host promptly and queues
    blocks while the buffered component is busy. Content traffic only. */
module CfuBuffer {
  import opened Wrappers

  /** A content command: its sequence number, whether it starts an update, and its data. */
  datatype Block = Block(sequence: U16, first: bool, data: seq<U8>)

  datatype Status = Success | ErrorInvalid | OtherError(code: U8)

  datatype Response = ContentResponse(sequence: U16, status: Status) | OtherResponse(kind: U8)

  function Rejection(sequence: U16): Response {
    ContentResponse(sequence, ErrorInvalid)
  }

  /** A component's reply as it is passed on: a content response takes the sequence number of the
      block being answered, anything else goes through as it is. */
  function Relabelled(r: Response, sequence: U16): Response {
    if r.ContentResponse? then r.(sequence := sequence) else r
  }

  datatype State = State(pending: Option<Response>, busy: bool, queue: seq<Block>)

  datatype Event =
    | HostRequest(content: Block)
    | BufferedContent(content: Block)
    | ComponentReply(reply: Response)

  /** `wait_event`: the select polls the queue first (never while the component is busy), then the
      host, then the component. `None`: nothing is ready yet. */
  function WaitEvent(s: State, host: Option<Block>, reply: Option<Result<Response, ()>>): (Option<Event>, State) {
    if !s.busy && s.queue != [] then (Some(BufferedContent(s.queue[0])), s.(queue := s.queue[1..]))
    else if host.Some? then (Some(HostRequest(host.value)), s)
    else match reply
      case None => (None, s)
      case Some(Ok(r)) => (Some(ComponentReply(r)), s)
      case Some(Err(_)) => (Some(ComponentReply(Rejection(0))), s)
  }

  /** `process_give_content`: the response for the host, the new state and whether the block went
      straight to the component. `sent` is the outcome of sending, `reply` what the component answers
      within the timeout, if anything. */
  function GiveContent(s: State, content: Block, sent: bool, reply: Option<Result<Response, ()>>)
    : (Response, State, bool)
  {
    var s := if content.first then s.(pending := None) else s;
    if !s.busy && !sent then (Rejection(content.sequence), s, false)
    else
      var s' := if s.busy then s.(queue := s.queue + [content]) else s;
      match reply
      case None =>
        (if s.pending.Some? then Relabelled(s.pending.value, content.sequence)
         else ContentResponse(content.sequence, Success),
         s'.(busy := true, pending := None), !s.busy)
      case Some(Ok(r)) => (Relabelled(r, content.sequence), s'.(busy := false), !s.busy)
      case Some(Err(_)) => (Rejection(content.sequence), s'.(busy := false), !s.busy)
  }

  /** `process` for an event of the queue: the block goes out without waiting for the reply. */
  function GiveBuffered(s: State, content: Block, sent: bool): (Option<Response>, State) {
    if sent then (None, s.(busy := true)) else (Some(Rejection(content.sequence)), s)
  }

  function TakeReply(s: State, reply: Response): State {
    s.(pending := Some(reply), busy := false)
  }

  // ---------------------------------------------------------------- the buffer object

  class Buffer {
    var pendingResponse: Option<Response>
    var componentBusy: bool
    var queue: seq<Block>

    ghost function Abs(): State
      reads this
    {
      State(pendingResponse, componentBusy, queue)
    }

    constructor ()
      ensures Abs() == State(None, false, [])
    {
      pendingResponse, componentBusy, queue := None, false, [];
    }

    method WaitForEvent(host: Option<Block>, reply: Option<Result<Response, ()>>) returns (e: Option<Event>)
      modifies this`queue
      ensures (e, Abs()) == WaitEvent(old(Abs()), host, reply)
    {
      if !componentBusy && queue != [] {
        e := Some(BufferedContent(queue[0]));
        queue := queue[1..];
      } else if host.Some? {
        e := Some(HostRequest(host.value));
      } else if reply.Some? {
        e := Some(ComponentReply(if reply.value.Ok? then reply.value.value else Rejection(0)));
      } else {
        e := None;
      }
    }

    method ProcessGiveContent(content: Block, sent: bool, reply: Option<Result<Response, ()>>)
      returns (r: Response, ghost direct: bool)
      modifies this
      ensures (r, Abs(), direct) == GiveContent(old(Abs()), content, sent, reply)
    {
      direct := false;
      if content.first {
        pendingResponse := None;
      }
      if componentBusy {
        queue := queue + [content];
      } else {
        if !sent {
          r := Rejection(content.sequence);
          return;
        }
        direct := true;
      }
      match reply {
        case None =>
          componentBusy := true;
          if pendingResponse.Some? {
            r := Relabelled(pendingResponse.value, content.sequence);
            pendingResponse := None;
          } else {
            r := ContentResponse(content.sequence, Success);
          }
        case Some(Ok(response)) =>
          componentBusy := false;
          r := Relabelled(response, content.sequence);
        case Some(Err(_)) =>
          componentBusy := false;
          r := Rejection(content.sequence);
      }
    }

    method ProcessBuffered(content: Block, sent: bool) returns (r: Option<Response>)
      modifies this`componentBusy
      ensures (r, Abs()) == GiveBuffered(old(Abs()), content, sent)
    {
      if !sent {
        return Some(Rejection(content.sequence));
      }
      componentBusy := true;
      return None;
    }

    method ProcessReply(reply: Response)
      modifies this`pendingResponse, this`componentBusy
      ensures Abs() == TakeReply(old(Abs()), reply)
    {
      pendingResponse := Some(reply);
      componentBusy := false;
    }
  }

  // ---------------------------------------------------------------- buffer, host and component

  /** `accepted`, `sent` and `replies` are the whole history: blocks taken from the host, blocks given
      to the component, replies taken from it. `inFlight` counts the blocks given to the component
      whose reply has not been taken. `pendingId` and `reported` say which of the replies is pending
      and which were passed on to the host, in order; `answers` is all the host has heard. */
  datatype System = System(
    buffer: State, accepted: seq<Block>, sent: seq<Block>, replies: seq<Response>, inFlight: nat,
    pendingId: Option<nat>, reported: seq<nat>, answers: seq<Response>)

  const START := System(State(None, false, []), [], [], [], 0, None, [], [])

  /** What the surroundings do next: the host may have a block, the component may have a reply ready,
      and it may reply within the timeout to what is sent now. */
  datatype Moment = Moment(host: Option<Block>, ready: Option<Response>, prompt: Option<Response>)

  function AsReply(r: Option<Response>): Option<Result<Response, ()>> {
    if r.None? then None else Some(Ok(r.value))
  }

  /** A registered component replies once to each block, so only while one is in flight. */
  predicate Possible(s: System, m: Moment) {
    && (m.ready.Some? ==> s.inFlight > 0)
    && (m.prompt.Some? ==> s.inFlight + (if s.buffer.busy then 0 else 1) > 0)
  }

  /** One turn of the service loop, `wait_event` then `process`. An impossible moment does nothing. */
  function Turn(s: System, m: Moment): System {
    if !Possible(s, m) then s
    else
      var (e, buffer) := WaitEvent(s.buffer, m.host, AsReply(m.ready));
      match e
      case None => s
      case Some(BufferedContent(b)) =>
        s.(buffer := GiveBuffered(buffer, b, true).1, sent := s.sent + [b], inFlight := s.inFlight + 1)
      case Some(ComponentReply(r)) =>
        s.(buffer := TakeReply(buffer, r), replies := s.replies + [r], inFlight := s.inFlight - 1,
           pendingId := Some(|s.replies|))
      case Some(HostRequest(b)) => HostTurn(s, b, m.prompt)
  }

  function HostTurn(s: System, b: Block, prompt: Option<Response>): System
    requires prompt.Some? ==> s.inFlight + (if s.buffer.busy then 0 else 1) > 0
  {
    var (answer, buffer, direct) := GiveContent(s.buffer, b, true, AsReply(prompt));
    var pendingId := if b.first then None else s.pendingId;
    var inFlight := s.inFlight + if direct then 1 else 0;
    s.(buffer := buffer, accepted := s.accepted + [b], sent := if direct then s.sent + [b] else s.sent,
       inFlight := if prompt.Some? then inFlight - 1 else inFlight,
       replies := if prompt.Some? then s.replies + [prompt.value] else s.replies,
       reported := if prompt.Some? then s.reported + [|s.replies|]
                   else if pendingId.Some? then s.reported + [pendingId.value] else s.reported,
       pendingId := if prompt.Some? then pendingId else None,
       answers := s.answers + [answer])
  }

  function Run(moments: seq<Moment>): System {
    if moments == [] then START else Turn(Run(moments[..|moments| - 1]), moments[|moments| - 1])
  }

  /** Nothing is lost, duplicated or reordered, and one block at a time is with the component, which
      is what the busy flag says. */
  ghost predicate Conserved(s: System) {
    && s.sent + s.buffer.queue == s.accepted
    && s.inFlight == (if s.buffer.busy then 1 else 0)
  }

  lemma {:induction false} TurnConserves(s: System, m: Moment)
    requires Conserved(s)
    ensures Conserved(Turn(s, m))
  {
    var t := Turn(s, m);
    if t.accepted != s.accepted {
      assert s.buffer.busy || s.buffer.queue == [];
      assert t.sent + t.buffer.queue == s.sent + s.buffer.queue + [t.accepted[|s.accepted|]];
    } else if t.sent != s.sent {
      assert [s.buffer.queue[0]] + s.buffer.queue[1..] == s.buffer.queue;
    }
  }

  lemma {:induction false} BlocksConserved(moments: seq<Moment>)
    ensures Conserved(Run(moments))
  {
    if moments == [] {
    } else {
      BlocksConserved(moments[..|moments| - 1]);
      TurnConserves(Run(moments[..|moments| - 1]), moments[|moments| - 1]);
    }
  }

  /** This rests on the queue being polled before the host: handing the buffer a host block while
      earlier blocks are queued for an idle component sends it ahead of them. */
  lemma {:induction false} HostBeforeQueueBreaksOrder(s: System, b: Block, prompt: Option<Response>)
    requires Conserved(s) && !s.buffer.busy
    ensures Conserved(HostTurn(s, b, prompt)) <==>
              s.buffer.queue == [] || forall i | 0 <= i < |s.buffer.queue| :: s.buffer.queue[i] == b
  {
    var t := HostTurn(s, b, prompt);
    var q := s.buffer.queue;
    assert t.sent + t.buffer.queue == s.sent + ([b] + q);
    assert t.accepted == s.sent + (q + [b]);
    if forall i | 0 <= i < |q| :: q[i] == b {
      assert [b] + q == q + [b];
    } else if [b] + q == q + [b] {
      ConstantWhenRotated(q, b, |q|);
    } else {
      assert (s.sent + ([b] + q))[|s.sent|..] == [b] + q;
      assert (s.sent + (q + [b]))[|s.sent|..] == q + [b];
    }
  }

  lemma {:induction false} ConstantWhenRotated(q: seq<Block>, b: Block, n: nat)
    requires [b] + q == q + [b] && n <= |q|
    ensures forall i | 0 <= i < n :: q[i] == b
  {
    if n > 0 {
      ConstantWhenRotated(q, b, n - 1);
      assert ([b] + q)[n - 1] == (q + [b])[n - 1];
    }
  }

  // ---------------------------------------------------------------- what the host hears

  ghost predicate Reported(s: System) {
    && |s.answers| == |s.accepted|
    && (forall i | 0 <= i < |s.reported| :: s.reported[i] < |s.replies|)
    && (forall i, j | 0 <= i < j < |s.reported| :: s.reported[i] != s.reported[j])
    && (s.pendingId.Some? <==> s.buffer.pending.Some?)
    && (s.pendingId.Some? ==> s.pendingId.value < |s.replies| && s.replies[s.pendingId.value] == s.buffer.pending.value
                              && s.pendingId.value !in s.reported)
    && forall i | 0 <= i < |s.answers| && s.answers[i].ContentResponse? ::
         s.answers[i].sequence == s.accepted[i].sequence
  }

  lemma {:induction false} TurnKeepsReported(s: System, m: Moment)
    requires Reported(s)
    ensures Reported(Turn(s, m))
  {
  }

  /** Every block gets exactly one answer, under its own sequence number, and each reply of the
      component is passed on to the host at most once. */
  lemma {:induction false} RepliesReportedOnce(moments: seq<Moment>)
    ensures Reported(Run(moments))
  {
    if moments == [] {
    } else {
      RepliesReportedOnce(moments[..|moments| - 1]);
      TurnKeepsReported(Run(moments[..|moments| - 1]), moments[|moments| - 1]);
    }
  }

  /** What the host hears of a reply: a content response keeps its status and gets the number of the block
      it now answers; anything else is passed on as it is. */
  predicate Conveys(answer: Response, reply: Response, sequence: U16) {
    match reply
    case ContentResponse(_, status) => answer == ContentResponse(sequence, status)
    case OtherResponse(_) => answer == reply
  }

  /** Where an answer comes from: a prompt reply, else the pending reply, unless this block drops it, else
      plain success. */
  lemma {:induction false} AnswerComesFrom(s: System, b: Block, prompt: Option<Response>)
    requires Reported(s) && Conserved(s)
    ensures var t := HostTurn(s, b, prompt); var n := |s.answers|;
            && |t.answers| == n + 1 && t.answers[..n] == s.answers
            && if |t.reported| > |s.reported| then
                 Conveys(t.answers[n], t.replies[t.reported[|s.reported|]], b.sequence)
               else t.answers[n] == ContentResponse(b.sequence, Success)
    ensures var t := HostTurn(s, b, prompt);
            t.reported == s.reported + if prompt.Some? then [|s.replies|]
                                       else if s.pendingId.Some? && !b.first then [s.pendingId.value] else []
  {
  }

  /** Which reply each of the answers conveys, if any. */
  function Sources(moments: seq<Moment>): seq<Option<nat>> {
    if moments == [] then []
    else
      var init := moments[..|moments| - 1];
      var s, t := Run(init), Run(moments);
      if |t.answers| <= |s.answers| then Sources(init)
      else Sources(init) + [if |t.reported| > |s.reported| then Some(t.reported[|s.reported|]) else None]
  }

  function Somes(sources: seq<Option<nat>>): seq<nat> {
    if sources == [] then []
    else
      var last := sources[|sources| - 1];
      Somes(sources[..|sources| - 1]) + if last.Some? then [last.value] else []
  }

  lemma {:induction false} SomesOneMore(sources: seq<Option<nat>>, last: Option<nat>)
    ensures Somes(sources + [last]) == Somes(sources) + if last.Some? then [last.value] else []
  {
    assert (sources + [last])[..|sources|] == sources;
  }

  ghost predicate Answered(s: System, sources: seq<Option<nat>>) {
    && |s.answers| == |s.accepted| == |sources|
    && Somes(sources) == s.reported
    && forall i | 0 <= i < |sources| ::
         match sources[i]
         case None => s.answers[i] == ContentResponse(s.accepted[i].sequence, Success)
         case Some(k) => k < |s.replies| && Conveys(s.answers[i], s.replies[k], s.accepted[i].sequence)
  }

  /** In every run, each block is answered by the status of one of the component's replies, each of which is
      used at most once, or else by success. */
  lemma {:induction false} AnswersConveyReplies(moments: seq<Moment>)
    ensures Answered(Run(moments), Sources(moments))
  {
    hide Turn, Possible, Answered, Reported;
    if moments == [] {
      NothingAnswered();
    } else {
      var init, m := moments[..|moments| - 1], moments[|moments| - 1];
      AnswersConveyReplies(init);
      BlocksConserved(init);
      RepliesReportedOnce(init);
      AnsweredStep(Run(init), m, Sources(init));
    }
  }

  lemma {:induction false} NothingAnswered()
    ensures Answered(START, [])
  {
  }

  lemma {:induction false} AnsweredStep(s: System, m: Moment, sources: seq<Option<nat>>)
    requires Answered(s, sources) && Conserved(s) && Reported(s)
    ensures var t := Turn(s, m);
      Answered(t, if |t.answers| <= |s.answers| then sources
                  else sources + [if |t.reported| > |s.reported| then Some(t.reported[|s.reported|]) else None])
  {
    hide HostTurn, Conveys, Somes, Reported, Conserved;
    QuietTurn(s, m);
    if Possible(s, m) && m.host.Some? && Turn(s, m) == HostTurn(s, m.host.value, m.prompt) {
      HostAnswered(s, m.host.value, m.prompt, sources);
    }
  }

  /** A turn is one of the host's or leaves what it has heard as it is. */
  lemma {:induction false} QuietTurn(s: System, m: Moment)
    ensures var t := Turn(s, m);
      || (Possible(s, m) && m.host.Some? && t == HostTurn(s, m.host.value, m.prompt))
      || (t.answers == s.answers && t.accepted == s.accepted && t.reported == s.reported && s.replies <= t.replies)
  {
    hide HostTurn;
  }

  lemma {:induction false} HostAnswered(s: System, b: Block, prompt: Option<Response>, sources: seq<Option<nat>>)
    requires Answered(s, sources) && Conserved(s) && Reported(s)
    requires prompt.Some? ==> s.inFlight + (if s.buffer.busy then 0 else 1) > 0
    ensures var t := HostTurn(s, b, prompt);
      |t.answers| > |s.answers| &&
      Answered(t, sources + [if |t.reported| > |s.reported| then Some(t.reported[|s.reported|]) else None])
  {
    hide Conveys, Somes;
    AnswerComesFrom(s, b, prompt);
    var t := HostTurn(s, b, prompt);
    var last := if |t.reported| > |s.reported| then Some(t.reported[|s.reported|]) else None;
    SomesOneMore(sources, last);
    assert forall i | 0 <= i < |s.answers| :: t.answers[..|s.answers|][i] == s.answers[i];
    assert t.accepted == s.accepted + [b] && s.replies <= t.replies;
  }

  // ---------------------------------------------------------------- when sending or replying fails

  /** A block that cannot be sent is rejected under its own number, and changes nothing but what it drops as
      the first of an update; and so is one whose reply fails, after which the component is free. */
  lemma {:induction false} FailuresAreRejected(s: State, b: Block, reply: Option<Result<Response, ()>>)
    ensures var (r, after, direct) := GiveContent(s, b, false, reply);
      !s.busy ==> r == ContentResponse(b.sequence, ErrorInvalid) && !direct
                  && after == s.(pending := if b.first then None else s.pending)
    ensures reply == Some(Err(())) ==>
      var (r, after, direct) := GiveContent(s, b, true, reply);
      && r == ContentResponse(b.sequence, ErrorInvalid) && direct == !s.busy
      && after == State(if b.first then None else s.pending, false, if s.busy then s.queue + [b] else s.queue)
    ensures (s.busy || s.queue == []) && reply == Some(Err(())) ==>
      WaitEvent(s, None, reply) == (Some(ComponentReply(ContentResponse(0, ErrorInvalid))), s)
  {
  }

  /** A queued block that is taken up leaves the queue; if it cannot be sent it is lost, with a rejection under
      its own number. */
  lemma {:induction false} UnsentBufferedIsLost(s: State, host: Option<Block>, reply: Option<Result<Response, ()>>,
                                                sent: bool)
    requires !s.busy && s.queue != []
    ensures var (e, taken) := WaitEvent(s, host, reply);
      && e == Some(BufferedContent(s.queue[0])) && [s.queue[0]] + taken.queue == s.queue
      && var (r, after) := GiveBuffered(taken, s.queue[0], sent);
         && after.queue == taken.queue && after.pending == s.pending && after.busy == sent
         && r == if sent then None else Some(ContentResponse(s.queue[0].sequence, ErrorInvalid))
  {
  }

  /** The order in which replies reach the host is not the order in which they were given: a prompt
      reply overtakes the pending one, which is then reported for a later block. */
  lemma {:induction false} PendingReplyIsOvertaken(b: Block, late: Response, prompt: Response)
    requires !b.first
    ensures var none := Moment(None, None, None);
            Run([none.(host := Some(b)), none.(ready := Some(late)),
                 none.(host := Some(b), prompt := Some(prompt)), none.(host := Some(b))]).reported == [1, 0]
  {
    var none := Moment(None, None, None);
    var m := [none.(host := Some(b)), none.(ready := Some(late)),
              none.(host := Some(b), prompt := Some(prompt)), none.(host := Some(b))];
    assert m[..4] == m && m[..0] == [];
    RunOne(m, 0);
    RunOne(m, 1);
    RunOne(m, 2);
    RunOne(m, 3);
  }

  lemma {:induction false} RunOne(m: seq<Moment>, i: nat)
    requires i < |m|
    ensures Run(m[..i + 1]) == Turn(Run(m[..i]), m[i])
  {
    assert m[..i + 1][..i] == m[..i];
  }

  // ---------------------------------------------------------------- in which order

  /** The replies passed on to the host are in the order in which the component gave them. */
  ghost predicate Sorted(s: System) {
    forall i, j | 0 <= i < j < |s.reported| :: s.reported[i] < s.reported[j]
  }

  /** The pending reply is older than one the host has already heard. */
  predicate Stale(s: System) {
    s.pendingId.Some? && s.reported != [] && s.pendingId.value < s.reported[|s.reported| - 1]
  }

  /** The host gives a block that does not start an update and no reply to it comes in time, so that the
      pending reply, a stale one, answers it. */
  predicate HearsStale(s: System, m: Moment) {
    && Possible(s, m)
    && (s.buffer.busy || s.buffer.queue == [])
    && m.host.Some? && !m.host.value.first && m.prompt.None? && Stale(s)
  }

  /** A prompt reply arrives for a block that does not start an update while an earlier reply is
      still pending. */
  predicate Overtakes(s: System, m: Moment) {
    && Possible(s, m)
    && (s.buffer.busy || s.buffer.queue == [])
    && m.host.Some? && !m.host.value.first && m.prompt.Some? && s.buffer.pending.Some?
  }

  lemma {:induction false} TurnSorts(s: System, m: Moment)
    requires Reported(s)
    ensures Sorted(Turn(s, m)) <==> Sorted(s) && !HearsStale(s, m)
  {
    var t, n := Turn(s, m), |s.reported|;
    assert t.reported == s.reported || t.reported == s.reported + [t.reported[n]];
    if n > 0 && |t.reported| > n {
      assert Sorted(t) ==> t.reported[n - 1] < t.reported[n];
    }
    if Sorted(t) {
      assert forall i | 0 <= i < n :: s.reported[i] == t.reported[i];
    }
  }

  /** The host hears the replies in the order in which the component gave them exactly if it is never
      given a stale one. */
  lemma {:induction false} SortedIffNoneStale(moments: seq<Moment>)
    ensures Sorted(Run(moments)) <==> forall i: nat | i < |moments| :: !HearsStale(Run(moments[..i]), moments[i])
  {
    hide Sorted, HearsStale, Turn;
    if moments == [] {
      NothingReported();
    } else {
      var n := |moments| - 1;
      var init := moments[..n];
      assert forall i: nat | i < n :: init[..i] == moments[..i] && init[i] == moments[i];
      SortedIffNoneStale(init);
      RepliesReportedOnce(init);
      TurnSorts(Run(init), moments[n]);
    }
  }

  lemma {:induction false} NothingReported()
    ensures Sorted(START)
  {
  }

  /** A reply turns stale by being overtaken, and then stays so as long as it is pending. */
  lemma {:induction false} StaleByOvertaking(s: System, m: Moment)
    requires Reported(s)
    ensures var t := Turn(s, m);
            Stale(t) <==> t.pendingId.Some? && t.pendingId == s.pendingId && (Stale(s) || Overtakes(s, m))
  {
  }

  /** A reply overtakes at step `j`, and the one it overtook is pending from there to the end of the run. */
  ghost predicate OvertakenAt(moments: seq<Moment>, j: nat) {
    && j < |moments| && Overtakes(Run(moments[..j]), moments[j])
    && PendingSince(moments, j)
  }

  ghost predicate PendingSince(moments: seq<Moment>, j: nat)
    requires j <= |moments|
  {
    && Run(moments[..j]).pendingId.Some?
    && forall k: nat | j <= k <= |moments| :: Run(moments[..k]).pendingId == Run(moments[..j]).pendingId
  }

  /** So the pending reply is stale exactly if some reply has overtaken it and it has been pending since.
      The order is broken exactly when such a reply is passed on. A reply that has been overtaken breaks
      nothing if a new update drops it. */
  lemma {:induction false} StaleIffOvertaken(moments: seq<Moment>)
    ensures Stale(Run(moments)) <==> exists j: nat :: OvertakenAt(moments, j)
  {
    hide Stale, Overtakes, Turn;
    assert moments[..|moments|] == moments;
    if moments == [] {
      NothingStale();
    } else {
      var n := |moments| - 1;
      var init, m := moments[..n], moments[n];
      var s := Run(init);
      assert forall k: nat | k <= n :: init[..k] == moments[..k];
      StaleIffOvertaken(init);
      RepliesReportedOnce(init);
      StaleByOvertaking(s, m);
      OvertakenPending(s, m);
      forall j: nat | j <= n
        ensures PendingSince(moments, j) <==>
                  PendingSince(init, j) && Run(moments).pendingId == s.pendingId
      {
        PendingOneMore(moments, j);
      }
      forall j: nat | j < n
        ensures OvertakenAt(moments, j) <==> OvertakenAt(init, j) && Run(moments).pendingId == s.pendingId
      {
        assert init[j] == moments[j];
      }
      assert OvertakenAt(moments, n) <==>
        Overtakes(s, m) && s.pendingId.Some? && Run(moments).pendingId == s.pendingId;
    }
  }

  lemma {:induction false} PendingOneMore(moments: seq<Moment>, j: nat)
    requires moments != [] && j < |moments|
    ensures PendingSince(moments, j) <==>
              PendingSince(moments[..|moments| - 1], j)
              && Run(moments).pendingId == Run(moments[..|moments| - 1]).pendingId
  {
    hide Run;
    var n := |moments| - 1;
    var init := moments[..n];
    assert moments[..|moments|] == moments && init[..n] == init;
    assert forall k: nat | k <= n :: init[..k] == moments[..k];
    assert init[..j] == moments[..j];
    if PendingSince(init, j) && Run(moments).pendingId == Run(init).pendingId {
      forall k: nat | j <= k <= |moments|
        ensures Run(moments[..k]).pendingId == Run(moments[..j]).pendingId
      {
        if k <= n {
          assert Run(init[..k]).pendingId == Run(init[..j]).pendingId;
        } else {
          assert Run(init[..n]).pendingId == Run(init[..j]).pendingId;
        }
      }
    }
    if PendingSince(moments, j) {
      forall k: nat | j <= k <= n
        ensures Run(init[..k]).pendingId == Run(init[..j]).pendingId
      {
        assert Run(moments[..k]).pendingId == Run(moments[..j]).pendingId;
      }
      assert Run(moments[..n]).pendingId == Run(moments[..j]).pendingId;
      assert Run(moments[..|moments|]).pendingId == Run(moments[..j]).pendingId;
    }
  }

  lemma {:induction false} NothingStale()
    ensures !Stale(START)
  {
  }

  lemma {:induction false} OvertakenPending(s: System, m: Moment)
    requires Reported(s)
    ensures Overtakes(s, m) ==> s.pendingId.Some? && Turn(s, m).pendingId == s.pendingId
  {
  }

  /** A stale reply need not be heard: it is dropped when a new update starts. */
  lemma {:induction false} OvertakenButDropped(b: Block, f: Block, late: Response, prompt: Response)
    requires !b.first && f.first
    ensures var none := Moment(None, None, None);
            var m := [none.(host := Some(b)), none.(ready := Some(late)),
                      none.(host := Some(b), prompt := Some(prompt)), none.(host := Some(f))];
            Overtakes(Run(m[..2]), m[2]) && Run(m).reported == [1]
  {
    var none := Moment(None, None, None);
    var m := [none.(host := Some(b)), none.(ready := Some(late)),
              none.(host := Some(b), prompt := Some(prompt)), none.(host := Some(f))];
    assert m[..4] == m && m[..0] == [];
    RunOne(m, 0);
    RunOne(m, 1);
    RunOne(m, 2);
    RunOne(m, 3);
  }

  // ---------------------------------------------------------------- which replies are lost

  /** The turn throws the pending reply away: a new update starts, or the component gives another reply. */
  predicate Drops(s: System, m: Moment) {
    && Possible(s, m) && s.pendingId.Some?
    && if !s.buffer.busy && s.buffer.queue != [] then false
       else if m.host.Some? then m.host.value.first
       else m.ready.Some?
  }

  function Dropped(moments: seq<Moment>): nat {
    if moments == [] then 0
    else
      var init := moments[..|moments| - 1];
      Dropped(init) + if Drops(Run(init), moments[|moments| - 1]) then 1 else 0
  }

  /** Every reply of the component is passed on to the host, thrown away, or still pending. */
  lemma {:induction false} RepliesAccountedFor(moments: seq<Moment>)
    ensures var s := Run(moments);
            |s.replies| == |s.reported| + Dropped(moments) + if s.pendingId.Some? then 1 else 0
  {
    if moments == [] {
    } else {
      RepliesAccountedFor(moments[..|moments| - 1]);
    }
  }
}
