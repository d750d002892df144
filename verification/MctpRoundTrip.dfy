/** Sender against receiver: what an idle receiver makes of the packets of one message. */
module MctpRoundTrip {
  import opened Wrappers
  import opened BufferEncoding
  import opened Sequences
  import opened TransportHeader
  import opened Chunking
  import opened Fragmentation
  import opened Reassembly

  /** What the medium reports for a packet of the sender: the decoded size of its stuffed region. */
  function FrameOf(e: Encoding, p: Packet): Frame {
    Frame(4 + |p.body|, WireOf(e, p))
  }

  function Frames(e: Encoding, ps: seq<Packet>): seq<Option<Frame>> {
    seq(|ps|, i requires 0 <= i < |ps| => Some(FrameOf(e, ps[i])))
  }

  /** The receiver reads back the header and the payload that the sender wrote. */
  lemma {:induction false} FrameDecodes(e: Encoding, p: Packet)
    requires Canonical(p.header.destination) && Canonical(p.header.source)
    ensures ParseTransportHeader(e, WireOf(e, p)).Ok? && ParseTransportHeader(e, WireOf(e, p)).value.0 == p.header
    ensures PayloadOf(e, FrameOf(e, p)) == p.body
    ensures DecodeUpTo(e, WireOf(e, p)[ParseTransportHeader(e, WireOf(e, p)).value.1..], |p.body|)
         == Decoded(p.body, |EncodeAll(e, p.body)|, None)
  {
    hide EncodeAll, DecodeUpTo, HeaderBytes, ParseHeader;
    var header, wire := EncodeAll(e, HeaderBytes(p.header)), WireOf(e, p);
    EncodeAllAppend(e, HeaderBytes(p.header), p.body);
    DecodeInvertsEncode(e, HeaderBytes(p.header), EncodeAll(e, p.body));
    HeaderRoundTrip(p.header);
    assert wire[|header|..] == EncodeAll(e, p.body) + [];
    DecodeInvertsEncode(e, p.body, []);
    assert wire + [] == wire;
    DecodeInvertsEncode(e, PacketBytes(p), []);
    assert PacketBytes(p)[4..] == p.body;
  }

  /** A packet of the sender is accepted exactly when its header is admitted and its body fits. */
  lemma {:induction false} FrameAccepted(v: Variant, e: Encoding, r: Receiver, p: Packet)
    requires WellFormed(r) && p.body != []
    requires Canonical(p.header.destination) && Canonical(p.header.source)
    ensures Admit(v, r.state, p.header).Err? ==>
              Receive(v, e, r, Some(FrameOf(e, p))) == (Err(Admit(v, r.state, p.header).error), r)
    ensures Admit(v, r.state, p.header).Ok? && |Assembled(r)| + |p.body| <= |r.buffer| ==>
              Receive(v, e, r, Some(FrameOf(e, p))).0.Ok?
  {
    hide DecodeUpTo, ParseTransportHeader, WireOf, EncodeAll;
    FrameDecodes(e, p);
  }

  // ---------------------------------------------------------------- which packets get through

  /** The packets of one message that the receiver takes. As written, the stored sequence number
      never moves on from that of the first packet, so only every fourth packet matches. Even if it
      does move on, every packet whose 8-bit number is zero claims to start a message and is refused,
      and so are the three after it, whose sequence numbers have run ahead. */
  predicate Taken(v: Variant, i: nat) {
    match v
    case AsWritten => i == 0 || i % 4 == 1
    case StoresReceived => i < 256 || i % 256 >= 4
  }

  /** How many packets a message may take and still be assembled whole. */
  function LongestWhole(v: Variant): nat {
    if v.AsWritten? then 2 else 256
  }

  /** How far the stored sequence number is ahead of the sender's first before the `i`-th packet. */
  function Heard(v: Variant, i: nat): nat {
    match v
    case AsWritten => 1
    case StoresReceived => if i > 256 && 1 <= i % 256 <= 4 then i - i % 256 else i
  }

  /** The bytes of the first `i` packets that the receiver takes. */
  function Kept(v: Variant, ps: seq<Packet>, i: nat): seq<U8>
    requires i <= |ps|
  {
    if i == 0 then [] else Kept(v, ps, i - 1) + if Taken(v, i - 1) then ps[i - 1].body else []
  }

  /** The assembly state before the `i`-th packet, with `index` bytes assembled. */
  function StateBefore(v: Variant, s: Sender, i: nat, index: nat): AssemblyState {
    Receiving(s.context.tag, 0, s.context.destination,
              (s.context.sequence + Heard(v, i)) % 4, index)
  }

  /** A sender at the start of a message between canonical endpoints, and its packets. */
  ghost predicate Sends(s: Sender, ps: seq<Packet>) {
    && s.packetNum == 0 && s.message != []
    && Canonical(s.context.source) && Canonical(s.context.destination)
    && Sendable(s) && IsRun(s, ps)
    && forall i | 0 <= i < |ps| :: ps[i].body != []
  }

  lemma {:induction false} SendsFromSendAll(s: Sender, ps: seq<Packet>)
    requires SendAll(s) == Ok(ps) && s.packetNum == 0 && s.message != []
    requires Canonical(s.context.source) && Canonical(s.context.destination)
    ensures Sends(s, ps) && ps != [] && Flatten(Bodies(ps)) == s.message
  {
    SendAllSucceeds(s);
    FragmentsCarryTheMessage(s, []);
    forall i | 0 <= i < |ps|
      ensures ps[i].body != []
    {
      FragmentFits(s, i);
    }
  }

  lemma {:induction false} KeptIsPrefixSum(v: Variant, ps: seq<Packet>, i: nat)
    requires i <= |ps|
    ensures |Kept(v, ps, i)| <= |Flatten(Bodies(ps)[..i])|
  {
    if i > 0 {
      KeptIsPrefixSum(v, ps, i - 1);
      assert Bodies(ps)[..i][..i - 1] == Bodies(ps)[..i - 1];
    }
  }

  lemma {:induction false} FlattenPrefix(chunks: seq<seq<U8>>, i: nat)
    requires i <= |chunks|
    ensures |Flatten(chunks[..i])| <= |Flatten(chunks)|
    decreases |chunks| - i
  {
    if i == |chunks| {
      assert chunks[..i] == chunks;
    } else {
      FlattenPrefix(chunks, i + 1);
      assert chunks[..i + 1][..i] == chunks[..i];
    }
  }

  lemma {:induction false} KeptFits(v: Variant, ps: seq<Packet>, i: nat)
    requires i < |ps|
    ensures |Kept(v, ps, i)| + |ps[i].body| <= |Flatten(Bodies(ps))|
  {
    KeptIsPrefixSum(v, ps, i);
    FlattenPrefix(Bodies(ps), i + 1);
    assert Bodies(ps)[..i + 1][..i] == Bodies(ps)[..i];
  }

  /** How the header checks go for the `i`-th packet. */
  lemma {:induction false} AdmitInRun(v: Variant, s: Sender, h: Header, i: nat, n: nat, index: nat)
    requires h == HeaderAt(s, i, n) && s.packetNum == 0 && 0 < i
    ensures Taken(v, i) ==>
              Admit(v, StateBefore(v, s, i, index), h) == Ok(StateBefore(v, s, i + 1, index))
    ensures !Taken(v, i) ==> Admit(v, StateBefore(v, s, i, index), h)
                             == Err(if i % 256 == 0 then UnexpectedStart
                                    else UnexpectedSequence((s.context.sequence + Heard(v, i) + 1) % 4,
                                                            (s.context.sequence + 1 + i) % 4))
  {
    var at := s.context.sequence + Heard(v, i);
    NextModulo(at);
    SequenceMatches(v, i);
    SameModulo(s.context.sequence + 1, Heard(v, i), i);
  }

  lemma {:induction false} NextModulo(n: nat)
    ensures NextSequence(n % 4) == (n + 1) % 4
  {
  }

  lemma {:induction false} SameModulo(base: nat, a: nat, b: nat)
    ensures (base + a) % 4 == (base + b) % 4 <==> a % 4 == b % 4
  {
  }

  lemma {:induction false} SequenceMatches(v: Variant, i: nat)
    requires 0 < i
    ensures i % 256 != 0 ==> (Taken(v, i) <==> Heard(v, i) % 4 == i % 4)
    ensures i % 256 == 0 ==> !Taken(v, i)
    ensures Taken(v, i) && v.StoresReceived? ==> Heard(v, i + 1) == i + 1
    ensures !Taken(v, i) ==> Heard(v, i + 1) == Heard(v, i)
  {
    var q, r := i / 256, i % 256;
    assert i == 256 * q + r;
    assert i % 4 == r % 4;
    assert (i - r) % 4 == 0;
    assert r < 255 ==> (i + 1) % 256 == r + 1;
    assert r == 255 ==> (i + 1) % 256 == 0;
  }

  /** One step of the run. */
  lemma {:induction false} StepInRun(v: Variant, s: Sender, ps: seq<Packet>, r: Receiver, i: nat)
    requires Sends(s, ps) && 0 < i < |ps| && WellFormed(r)
    requires r.state == StateBefore(v, s, i, |Kept(v, ps, i)|) && Assembled(r) == Kept(v, ps, i)
    requires |Flatten(Bodies(ps))| <= |r.buffer|
    ensures var (out, after) := Receive(v, s.medium.encoding, r, Some(FrameOf(s.medium.encoding, ps[i])));
            && WellFormed(after) && |after.buffer| == |r.buffer|
            && (!Taken(v, i) ==> out.Err? && after == r)
            && (Taken(v, i) ==> Kept(v, ps, i + 1) != [])
            && (Taken(v, i) && i + 1 == |ps| ==>
                  out == Ok(Some(MessageOf(ps[i].header, Kept(v, ps, i + 1)))) && after.state == Idle)
            && (Taken(v, i) && i + 1 < |ps| ==> out == Ok(None))
            && (i + 1 < |ps| ==> after.state == StateBefore(v, s, i + 1, |Kept(v, ps, i + 1)|)
                                 && Assembled(after) == Kept(v, ps, i + 1))
  {
    hide Receive, DecodeUpTo, ParseTransportHeader, Admit, Heard, Taken, WireOf, EncodeAll, NextPacket, SendAll;
    var e, p := s.medium.encoding, ps[i];
    assert p.header == HeaderAt(s, i, |ps|);
    AdmitInRun(v, s, p.header, i, |ps|, |Kept(v, ps, i)|);
    FrameAccepted(v, e, r, p);
    if Taken(v, i) {
      KeptFits(v, ps, i);
      FrameDecodes(e, p);
      AcceptedAppends(v, e, r, FrameOf(e, p));
    } else {
      SequenceMatches(v, i);
      assert Kept(v, ps, i + 1) == Kept(v, ps, i);
    }
  }

  lemma {:induction false} FirstInRun(v: Variant, s: Sender, ps: seq<Packet>, r: Receiver)
    requires Sends(s, ps) && ps != [] && r.state.Idle?
    requires |Flatten(Bodies(ps))| <= |r.buffer|
    ensures var (out, after) := Receive(v, s.medium.encoding, r, Some(FrameOf(s.medium.encoding, ps[0])));
            && WellFormed(after) && |after.buffer| == |r.buffer|
            && Kept(v, ps, 1) != []
            && (|ps| == 1 ==> out == Ok(Some(MessageOf(ps[0].header, Kept(v, ps, 1)))) && after.state == Idle)
            && (|ps| > 1 ==> out == Ok(None)
                             && after.state == StateBefore(v, s, 1, |Kept(v, ps, 1)|)
                             && Assembled(after) == Kept(v, ps, 1))
  {
    var e, p := s.medium.encoding, ps[0];
    assert p.header == HeaderAt(s, 0, |ps|);
    FrameAccepted(v, e, r, p);
    KeptFits(v, ps, 0);
    FrameDecodes(e, p);
    AcceptedAppends(v, e, r, FrameOf(e, p));
    assert Kept(v, ps, 1) == Kept(v, ps, 0) + p.body;
  }

  lemma {:induction false} RunStep(v: Variant, e: Encoding, r: Receiver, inputs: seq<Option<Frame>>, i: nat)
    requires WellFormed(r) && 0 < i <= |inputs|
    ensures Run(v, e, r, inputs[..i]) == Receive(v, e, Run(v, e, r, inputs[..i - 1]), inputs[i - 1]).1
  {
    assert inputs[..i][..i - 1] == inputs[..i - 1];
  }

  /** The receiver in the middle of the run. */
  lemma {:induction false} MidRun(v: Variant, s: Sender, ps: seq<Packet>, r: Receiver, i: nat)
    requires Sends(s, ps) && r.state.Idle? && |Flatten(Bodies(ps))| <= |r.buffer|
    requires 0 < i < |ps|
    ensures var after := Run(v, s.medium.encoding, r, Frames(s.medium.encoding, ps)[..i]);
            after.state == StateBefore(v, s, i, |Kept(v, ps, i)|) && Assembled(after) == Kept(v, ps, i)
  {
    var inputs := Frames(s.medium.encoding, ps);
    hide Receive, SendAll, NextPacket, IsRun, HeaderAt;
    RunStep(v, s.medium.encoding, r, inputs, i);
    if i == 1 {
      assert inputs[..0] == [];
      FirstInRun(v, s, ps, r);
    } else {
      MidRun(v, s, ps, r, i - 1);
      StepInRun(v, s, ps, Run(v, s.medium.encoding, r, inputs[..i - 1]), i - 1);
    }
  }

  /** What the receiver returns for the `i`-th packet of a message: a packet it does not take is
      refused, any other but the last is swallowed, and the last delivers exactly the kept bytes. */
  lemma {:induction false} OutcomeInRun(v: Variant, s: Sender, ps: seq<Packet>, r: Receiver, i: nat)
    requires Sends(s, ps) && r.state.Idle? && |Flatten(Bodies(ps))| <= |r.buffer|
    requires i < |ps|
    ensures var out := OutcomeAt(v, s.medium.encoding, r, Frames(s.medium.encoding, ps), i);
            if !Taken(v, i) then out.Err?
            else if i + 1 < |ps| then out == Ok(None)
            else Kept(v, ps, |ps|) != [] && out == Ok(Some(MessageOf(ps[i].header, Kept(v, ps, |ps|))))
  {
    hide Receive, IsRun, Sendable, Flatten, StateBefore, HeaderAt, Taken, PacketBytes;
    var inputs := Frames(s.medium.encoding, ps);
    if i == 0 {
      assert inputs[..0] == [];
      FirstInRun(v, s, ps, r);
    } else {
      MidRun(v, s, ps, r, i);
      StepInRun(v, s, ps, Run(v, s.medium.encoding, r, inputs[..i]), i);
    }
  }

  lemma {:induction false} KeepsAllOrLess(v: Variant, ps: seq<Packet>, i: nat)
    requires i <= |ps| && forall j | 0 <= j < |ps| :: ps[j].body != []
    ensures i <= LongestWhole(v) ==> Kept(v, ps, i) == Flatten(Bodies(ps)[..i])
    ensures i > LongestWhole(v) ==> |Kept(v, ps, i)| < |Flatten(Bodies(ps)[..i])|
  {
    if i > 0 {
      KeepsAllOrLess(v, ps, i - 1);
      assert Bodies(ps)[..i][..i - 1] == Bodies(ps)[..i - 1];
    }
  }

  // ---------------------------------------------------------------- main results

  /** What becomes of a message from any conforming sender: its last packet completes it, byte for byte,
      exactly when it took no more packets than the receiver can take whole. The last packet of a longer
      one is refused, or a strictly shorter message is delivered as if it were complete. */
  lemma {:induction false} DeliveredWhole(v: Variant, s: Sender, ps: seq<Packet>, r: Receiver)
    requires SendAll(s) == Ok(ps) && s.packetNum == 0 && s.message != []
    requires Canonical(s.context.source) && Canonical(s.context.destination)
    requires r.state.Idle? && |s.message| <= |r.buffer|
    ensures ps != []
    ensures var out := OutcomeAt(v, s.medium.encoding, r, Frames(s.medium.encoding, ps), |ps| - 1);
            && (out == Ok(Some(MessageOf(ps[|ps| - 1].header, s.message))) <==> |ps| <= LongestWhole(v))
            && (|ps| > LongestWhole(v) ==>
                  var kept := Kept(v, ps, |ps|);
                  if Taken(v, |ps| - 1) then
                    kept != [] && |kept| < |s.message| && out == Ok(Some(MessageOf(ps[|ps| - 1].header, kept)))
                  else out.Err?)
  {
    hide SendAll, OutcomeAt, IsRun, Sendable, Flatten, Kept;
    SendsFromSendAll(s, ps);
    OutcomeInRun(v, s, ps, r, |ps| - 1);
    KeepsAllOrLess(v, ps, |ps|);
    assert Bodies(ps)[..|ps|] == Bodies(ps);
    ShortTaken(v, |ps| - 1);
    if |ps| > LongestWhole(v) && Taken(v, |ps| - 1) {
      var kept := Kept(v, ps, |ps|);
      assert kept[1..] != s.message[1..];
    }
  }

  lemma {:induction false} ShortTaken(v: Variant, i: nat)
    ensures i < LongestWhole(v) ==> Taken(v, i)
  {
  }

  /** The receiver as written delivers the message exactly when it took one or two packets. */
  lemma {:induction false} RoundTripAsWritten(s: Sender, ps: seq<Packet>, r: Receiver)
    requires SendAll(s) == Ok(ps) && s.packetNum == 0 && s.message != []
    requires Canonical(s.context.source) && Canonical(s.context.destination)
    requires r.state.Idle? && |s.message| <= |r.buffer|
    ensures ps != []
    ensures (OutcomeAt(AsWritten, s.medium.encoding, r, Frames(s.medium.encoding, ps), |ps| - 1)
             == Ok(Some(MessageOf(ps[|ps| - 1].header, s.message)))) <==> |ps| <= 2
  {
    hide SendAll, OutcomeAt, IsRun, Sendable, Flatten, Kept;
    DeliveredWhole(AsWritten, s, ps, r);
  }

  /** The third packet of every longer message is refused and changes nothing. */
  lemma {:induction false} ThirdPacketRefused(s: Sender, ps: seq<Packet>, r: Receiver)
    requires SendAll(s) == Ok(ps) && s.packetNum == 0 && |ps| >= 3
    requires Canonical(s.context.source) && Canonical(s.context.destination)
    requires r.state.Idle? && |s.message| <= |r.buffer|
    ensures var e := s.medium.encoding; var two := Run(AsWritten, e, r, Frames(e, ps)[..2]);
            Receive(AsWritten, e, two, Frames(e, ps)[2])
            == (Err(UnexpectedSequence((s.context.sequence + 2) % 4, (s.context.sequence + 3) % 4)), two)
  {
    SendsFromSendAll(s, ps);
    ThirdInRun(s, ps, r);
  }

  lemma {:induction false} ThirdInRun(s: Sender, ps: seq<Packet>, r: Receiver)
    requires Sends(s, ps) && r.state.Idle? && |Flatten(Bodies(ps))| <= |r.buffer| && |ps| >= 3
    ensures var e := s.medium.encoding; var two := Run(AsWritten, e, r, Frames(e, ps)[..2]);
            Receive(AsWritten, e, two, Frames(e, ps)[2])
            == (Err(UnexpectedSequence((s.context.sequence + 2) % 4, (s.context.sequence + 3) % 4)), two)
  {
    hide Receive, Run, Admit, Kept;
    MidRun(AsWritten, s, ps, r, 2);
    var two := Run(AsWritten, s.medium.encoding, r, Frames(s.medium.encoding, ps)[..2]);
    AdmitInRun(AsWritten, s, ps[2].header, 2, |ps|, |Kept(AsWritten, ps, 2)|);
    FrameAccepted(AsWritten, s.medium.encoding, two, ps[2]);
  }

  /** Worse than a refusal: when the packet count is 2 modulo 4, the last packet is taken again and a
      message with packets missing from its middle is delivered as if it were complete. */
  lemma {:induction false} LongMessageMayBeTruncated(s: Sender, ps: seq<Packet>, r: Receiver)
    requires SendAll(s) == Ok(ps) && s.packetNum == 0 && |ps| > 2
    requires Canonical(s.context.source) && Canonical(s.context.destination)
    requires r.state.Idle? && |s.message| <= |r.buffer|
    ensures var out := OutcomeAt(AsWritten, s.medium.encoding, r, Frames(s.medium.encoding, ps), |ps| - 1);
            if |ps| % 4 == 2 then
              Kept(AsWritten, ps, |ps|) != []
              && out == Ok(Some(MessageOf(ps[|ps| - 1].header, Kept(AsWritten, ps, |ps|))))
              && |Kept(AsWritten, ps, |ps|)| < |s.message|
            else out.Err?
  {
    hide SendAll, OutcomeAt, IsRun, Sendable, Flatten, Kept;
    NonEmptyRun(s, ps);
    DeliveredWhole(AsWritten, s, ps, r);
    LastTaken(|ps|);
  }

  lemma {:induction false} NonEmptyRun(s: Sender, ps: seq<Packet>)
    requires SendAll(s) == Ok(ps) && ps != []
    ensures s.message != []
  {
  }

  lemma {:induction false} LastTaken(n: nat)
    requires n > 2
    ensures Taken(AsWritten, n - 1) <==> n % 4 == 2
  {
  }

  /** With the received sequence number stored per packet the round trip holds for every message
      of up to 256 packets: each packet but the last is swallowed, the last delivers the message. */
  lemma {:induction false} RoundTripStoringSequence(s: Sender, ps: seq<Packet>, r: Receiver, i: nat)
    requires SendAll(s) == Ok(ps) && s.packetNum == 0 && i < |ps| <= 256
    requires Canonical(s.context.source) && Canonical(s.context.destination)
    requires r.state.Idle? && |s.message| <= |r.buffer|
    ensures OutcomeAt(StoresReceived, s.medium.encoding, r, Frames(s.medium.encoding, ps), i)
            == Ok(if i + 1 < |ps| then None else Some(MessageOf(ps[i].header, s.message)))
  {
    hide SendAll, OutcomeAt, IsRun, Sendable, Flatten, Kept, Taken;
    NonEmptyRun(s, ps);
    SendsFromSendAll(s, ps);
    OutcomeInRun(StoresReceived, s, ps, r, i);
    KeepsAllOrLess(StoresReceived, ps, |ps|);
    ShortTaken(StoresReceived, i);
    assert Bodies(ps)[..|ps|] == Bodies(ps);
  }

  /** Beyond that the sender's 8-bit packet counter has wrapped. Of each 256 packets that follow, the first
      claims to start a message and the next three have sequence numbers that have run ahead: these four
      are refused, all others are taken, and the message is never delivered whole. */
  lemma {:induction false} WrappedCounterRefused(s: Sender, ps: seq<Packet>, r: Receiver, i: nat)
    requires SendAll(s) == Ok(ps) && s.packetNum == 0 && 256 <= i < |ps|
    requires Canonical(s.context.source) && Canonical(s.context.destination)
    requires r.state.Idle? && |s.message| <= |r.buffer|
    ensures var e := s.medium.encoding; var out := OutcomeAt(StoresReceived, e, r, Frames(e, ps), i);
            && (out.Err? <==> i % 256 < 4)
            && (out.Ok? && i + 1 < |ps| ==> out.value == None)
            && (out.Ok? && i + 1 == |ps| ==>
                  var kept := Kept(StoresReceived, ps, |ps|);
                  kept != [] && |kept| < |s.message| && out.value == Some(MessageOf(ps[i].header, kept)))
  {
    hide SendAll, OutcomeAt, IsRun, Sendable, Flatten, Kept;
    NonEmptyRun(s, ps);
    SendsFromSendAll(s, ps);
    OutcomeInRun(StoresReceived, s, ps, r, i);
    DeliveredWhole(StoresReceived, s, ps, r);
  }

  /** The delivered message is the one that was sent: type and body, for message types below 0x80,
      and only for those, since the top bit of the type byte is the integrity-check flag. */
  lemma {:induction false} DeliveredTypeAndBody(h: Header, messageType: U8, body: seq<U8>)
    ensures var m := MessageOf(h, [messageType] + body);
            m.body == body && (m.messageType == messageType && m.integrityCheck == 0 <==> messageType < 0x80)
  {
  }

  /** What a responder replies with: the context of the message it answers. */
  function ReplyTo(m: Message): ReplyContext {
    ReplyContext(m.destination, m.source, m.sequence, m.tag)
  }

  /** A reply goes back where the message came from: every packet of it is addressed to the message's
      source, comes from its destination, carries its tag without owning it, and the sequence numbers
      go on from that of the message's last packet. */
  lemma {:induction false} ReplyGoesBack(h: Header, bytes: seq<U8>, s: Sender, i: nat)
    requires bytes != [] && s.context == ReplyTo(MessageOf(h, bytes))
    requires SendAll(s).Ok? && i < |SendAll(s).value|
    ensures var reply := SendAll(s).value[i].header;
      && reply.destination == h.source && reply.source == h.destination
      && reply.tag == h.tag && reply.tagOwner == 0
      && reply.sequence == (h.sequence + 1 + i) % 4
  {
    hide SendAll;
    FragmentHeaderAt(s, i);
  }
}
