/** Message after message at the same receiver: which of them get through, and when one that does not
    keeps the next from doing so. */
module MctpMessageRuns {
  import opened Wrappers
  import opened BufferEncoding
  import opened Sequences
  import opened TransportHeader
  import opened Chunking
  import opened Fragmentation
  import opened Reassembly
  import opened MctpRoundTrip

  /** A message as sent: its sender at the start of it, and its packets. */
  datatype Sent = Sent(sender: Sender, packets: seq<Packet>)

  ghost predicate Conforms(m: Sent, e: Encoding, room: nat) {
    && Sends(m.sender, m.packets) && m.packets != [] && m.sender.message != []
    && m.sender.medium.encoding == e
    && Flatten(Bodies(m.packets)) == m.sender.message && |m.sender.message| <= room
  }

  /** Every message that a sender cuts into packets without an error conforms. */
  lemma {:induction false} SentConforms(s: Sender, ps: seq<Packet>, room: nat)
    requires SendAll(s) == Ok(ps) && s.packetNum == 0 && s.message != [] && |s.message| <= room
    requires Canonical(s.context.source) && Canonical(s.context.destination)
    ensures Conforms(Sent(s, ps), s.medium.encoding, room)
  {
    hide SendAll, Sends, Flatten;
    SendsFromSendAll(s, ps);
  }

  /** Every packet but the last is taken in silence, and the last delivers the whole message. */
  ghost predicate GetsThrough(v: Variant, e: Encoding, r: Receiver, m: Sent)
    requires WellFormed(r) && m.sender.message != []
  {
    forall i: nat | i < |m.packets| ::
      OutcomeAt(v, e, r, Frames(e, m.packets), i)
      == Ok(if i + 1 < |m.packets| then None else Some(MessageOf(m.packets[i].header, m.sender.message)))
  }

  function After(v: Variant, e: Encoding, r: Receiver, m: Sent): (after: Receiver)
    requires WellFormed(r)
    ensures WellFormed(after) && |after.buffer| == |r.buffer|
  {
    Run(v, e, r, Frames(e, m.packets))
  }

  function AfterAll(v: Variant, e: Encoding, r: Receiver, ms: seq<Sent>): (after: Receiver)
    requires WellFormed(r)
    ensures WellFormed(after) && |after.buffer| == |r.buffer|
  {
    if ms == [] then r else After(v, e, AfterAll(v, e, r, ms[..|ms| - 1]), ms[|ms| - 1])
  }

  /** A receiver in the middle of a message refuses the first packet of any other, and stays as it is. */
  lemma {:induction false} BusyRefusesStart(v: Variant, r: Receiver, m: Sent, e: Encoding)
    requires WellFormed(r) && r.state.Receiving? && Conforms(m, e, |r.buffer|)
    ensures Receive(v, e, r, Some(FrameOf(e, m.packets[0]))) == (Err(UnexpectedStart), r)
  {
    hide Receive, SendAll, Flatten, Kept;
    var p := m.packets[0];
    assert p.header == HeaderAt(m.sender, 0, |m.packets|);
    FrameAccepted(v, e, r, p);
  }

  lemma {:induction false} FirstOutcome(v: Variant, e: Encoding, r: Receiver, m: Sent)
    requires WellFormed(r) && m.packets != []
    ensures OutcomeAt(v, e, r, Frames(e, m.packets), 0) == Receive(v, e, r, Some(FrameOf(e, m.packets[0]))).0
  {
    hide Receive;
    assert Frames(e, m.packets)[..0] == [];
  }

  /** A message gets through exactly if the receiver is idle when it comes and the message takes no more
      packets than the receiver can take whole. */
  lemma {:induction false} GetsThroughExactly(v: Variant, e: Encoding, r: Receiver, m: Sent)
    requires WellFormed(r) && Conforms(m, e, |r.buffer|)
    ensures GetsThrough(v, e, r, m) <==> r.state.Idle? && |m.packets| <= LongestWhole(v)
  {
    hide OutcomeAt, Receive, Kept, Flatten, SendAll, Sends, Taken;
    var ps := m.packets;
    if r.state.Receiving? {
      BusyRefusesStart(v, r, m, e);
      FirstOutcome(v, e, r, m);
    } else {
      WholeOrLess(v, m, r);
      if |ps| <= LongestWhole(v) {
        forall i: nat | i < |ps|
          ensures OutcomeAt(v, e, r, Frames(e, ps), i)
               == Ok(if i + 1 < |ps| then None else Some(MessageOf(ps[i].header, m.sender.message)))
        {
          OutcomeInRun(v, m.sender, ps, r, i);
          ShortTaken(v, i);
        }
      } else {
        var last := |ps| - 1;
        OutcomeInRun(v, m.sender, ps, r, last);
        if Taken(v, last) {
          var kept := Kept(v, ps, |ps|);
          assert kept[1..] != m.sender.message[1..];
          assert OutcomeAt(v, e, r, Frames(e, ps), last) != Ok(Some(MessageOf(ps[last].header, m.sender.message)));
        }
      }
    }
  }

  lemma {:induction false} WholeOrLess(v: Variant, m: Sent, r: Receiver)
    requires Conforms(m, m.sender.medium.encoding, |r.buffer|)
    ensures |m.packets| <= LongestWhole(v) ==> Kept(v, m.packets, |m.packets|) == m.sender.message
    ensures |m.packets| > LongestWhole(v) ==> |Kept(v, m.packets, |m.packets|)| < |m.sender.message|
  {
    hide Kept, Flatten, SendAll;
    KeepsAllOrLess(v, m.packets, |m.packets|);
    assert Bodies(m.packets)[..|m.packets|] == Bodies(m.packets);
  }

  /** The receiver takes the last packet of the message, if it takes the first. */
  predicate EndsTaken(v: Variant, m: Sent) {
    m.packets != [] && Taken(v, |m.packets| - 1)
  }

  /** An idle receiver is idle again after a message exactly if it takes the last packet of it. Otherwise it
      goes on waiting for the end of a message that has already ended. */
  lemma {:induction false} IdleAfterMessage(v: Variant, e: Encoding, r: Receiver, m: Sent)
    requires r.state.Idle? && Conforms(m, e, |r.buffer|)
    ensures After(v, e, r, m).state.Idle? <==> EndsTaken(v, m)
  {
    hide Receive, Kept, Flatten, SendAll, Sends, Taken;
    var ps := m.packets;
    var n, inputs := |ps|, Frames(e, ps);
    assert inputs[..n] == inputs;
    RunStep(v, e, r, inputs, n);
    if n == 1 {
      assert inputs[..0] == [];
      FirstInRun(v, m.sender, ps, r);
      ShortTaken(v, 0);
    } else {
      MidRun(v, m.sender, ps, r, n - 1);
      StepInRun(v, m.sender, ps, Run(v, e, r, inputs[..n - 1]), n - 1);
    }
  }

  lemma {:induction false} IdleAfterAll(v: Variant, e: Encoding, r: Receiver, ms: seq<Sent>)
    requires r.state.Idle? && forall j | 0 <= j < |ms| :: Conforms(ms[j], e, |r.buffer|)
    requires forall j | 0 <= j < |ms| - 1 :: EndsTaken(v, ms[j])
    ensures AfterAll(v, e, r, ms).state.Idle? <==> ms == [] || EndsTaken(v, ms[|ms| - 1])
  {
    hide After, Conforms, EndsTaken;
    if ms != [] {
      var init := ms[..|ms| - 1];
      IdleAfterAll(v, e, r, init);
      assert init != [] ==> EndsTaken(v, init[|init| - 1]);
      IdleAfterMessage(v, e, AfterAll(v, e, r, init), ms[|ms| - 1]);
    }
  }

  /** After messages whose last packets were all taken but perhaps that of the latest, the next message gets
      through exactly if that one was taken too and the next is short enough: one long message with the
      wrong number of packets shuts the next one out, however short it is. */
  lemma {:induction false} NextGetsThrough(v: Variant, e: Encoding, r: Receiver, ms: seq<Sent>, next: Sent)
    requires r.state.Idle? && forall j | 0 <= j < |ms| :: Conforms(ms[j], e, |r.buffer|)
    requires forall j | 0 <= j < |ms| - 1 :: EndsTaken(v, ms[j])
    requires Conforms(next, e, |r.buffer|)
    ensures GetsThrough(v, e, AfterAll(v, e, r, ms), next)
            <==> (ms == [] || EndsTaken(v, ms[|ms| - 1])) && |next.packets| <= LongestWhole(v)
  {
    hide AfterAll, Conforms, EndsTaken, GetsThrough;
    ConformsIsSent(next, e, |r.buffer|);
    IdleAfterAll(v, e, r, ms);
    GetsThroughExactly(v, e, AfterAll(v, e, r, ms), next);
  }

  lemma {:induction false} ConformsIsSent(m: Sent, e: Encoding, room: nat)
    requires Conforms(m, e, room)
    ensures m.packets != [] && m.sender.message != []
  {
  }

  /** As written: after short messages, a message shuts out the next exactly if it took more than two
      packets and their number is not 2 modulo 4. */
  lemma {:induction false} EndsTakenAsWritten(m: Sent)
    requires m.packets != []
    ensures EndsTaken(AsWritten, m) <==> |m.packets| <= 2 || |m.packets| % 4 == 2
  {
  }
}
