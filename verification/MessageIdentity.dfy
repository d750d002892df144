/** Which packets the receiver takes, said without its code, and what the packets of one delivered message
    have in common. */
module MessageIdentity {
  import opened Wrappers
  import opened BufferEncoding
  import opened Sequences
  import opened TransportHeader
  import opened Reassembly

  /** The header of a frame, if it has a readable one. */
  function HeaderOf(e: Encoding, f: Frame): Option<Header> {
    match ParseTransportHeader(e, f.wire)
    case Ok((h, _)) => Some(h)
    case Err(_) => None
  }

  /** The packet belongs to what is being assembled: a first packet if nothing is, otherwise a further one
      of the same tag, tag owner and source, with the next sequence number. */
  predicate Belongs(state: AssemblyState, h: Header) {
    if state.Idle? then h.som == 1
    else
      && h.som == 0 && h.tag == state.tag && h.tagOwner == state.tagOwner && h.source == state.source
      && h.sequence == (state.sequence + 1) % 4
  }

  /** A packet that is taken in the middle of a message is of that message. */
  lemma {:induction false} AcceptedContinues(v: Variant, e: Encoding, r: Receiver, f: Frame)
    requires WellFormed(r) && r.state.Receiving? && Receive(v, e, r, Some(f)).0.Ok?
    ensures HeaderOf(e, f).Some? && var h := HeaderOf(e, f).value;
            && h.som == 0 && h.tag == r.state.tag && h.tagOwner == r.state.tagOwner && h.source == r.state.source
            && h.sequence == (r.state.sequence + 1) % 4
  {
    hide DecodeUpTo, ParseTransportHeader;
  }

  /** Header and payload are decoded one after the other, which is as good as all at once. */
  lemma {:induction false} PartsDecode(e: Encoding, f: Frame)
    requires f.packetSize >= 4 && ParseTransportHeader(e, f.wire).Ok?
    ensures DecodeUpTo(e, f.wire, f.packetSize).error
         == DecodeUpTo(e, f.wire[ParseTransportHeader(e, f.wire).value.1..], f.packetSize - 4).error
  {
    hide DecodeUpTo;
    DecodeSplit(e, f.wire, 4, f.packetSize - 4);
  }

  /** A packet is taken exactly if its header is readable and belongs, its size covers the header, its
      payload fits the buffer, its bytes decode, and it does not end an empty message. */
  lemma {:induction false} AcceptedExactly(v: Variant, e: Encoding, r: Receiver, f: Frame)
    requires WellFormed(r)
    ensures Receive(v, e, r, Some(f)).0.Ok? <==>
      && HeaderOf(e, f).Some? && Belongs(r.state, HeaderOf(e, f).value)
      && 4 <= f.packetSize <= |r.buffer| - |Assembled(r)| + 4
      && DecodeUpTo(e, f.wire, f.packetSize).error.None?
      && !(HeaderOf(e, f).value.eom == 1 && |Assembled(r)| + f.packetSize == 4)
  {
    hide DecodeUpTo, ParseTransportHeader;
    if HeaderOf(e, f).Some? && f.packetSize >= 4 {
      PartsDecode(e, f);
    }
  }

  /** The reason given for refusing a packet with a readable header that does not belong. */
  lemma {:induction false} RefusedFor(v: Variant, e: Encoding, r: Receiver, f: Frame)
    requires WellFormed(r) && HeaderOf(e, f).Some? && !Belongs(r.state, HeaderOf(e, f).value)
    ensures var h := HeaderOf(e, f).value;
      Receive(v, e, r, Some(f)) ==
        (Err(if h.som == 1 then UnexpectedStart
             else if r.state.Idle? then ExpectedStart
             else if h.tag != r.state.tag then TagMismatch(r.state.tag, h.tag)
             else if h.tagOwner != r.state.tagOwner then TagOwnerMismatch(r.state.tagOwner, h.tagOwner)
             else if h.source != r.state.source then SourceMismatch(r.state.source, h.source)
             else UnexpectedSequence((r.state.sequence + 1) % 4, h.sequence)), r)
  {
    hide DecodeUpTo, ParseTransportHeader;
  }

  /** The reason given for refusing a packet without a readable header. */
  lemma {:induction false} RefusedUnread(v: Variant, e: Encoding, r: Receiver, f: Frame)
    requires WellFormed(r) && HeaderOf(e, f).None?
    ensures var head := DecodeUpTo(e, f.wire, 4);
      Receive(v, e, r, Some(f)) ==
        (Err(match head.error
             case Some(PrematureEnd) => HeaderTooShort
             case Some(InvalidEscape) => HeaderBadEscape
             case None => InvalidHeader), r)
  {
    hide DecodeUpTo;
  }

  /** The reason given for refusing a packet that belongs, because of its size or its body. */
  lemma {:induction false} RefusedForSize(v: Variant, e: Encoding, r: Receiver, f: Frame)
    requires WellFormed(r) && HeaderOf(e, f).Some? && Belongs(r.state, HeaderOf(e, f).value)
    ensures var out, all := Receive(v, e, r, Some(f)).0, DecodeUpTo(e, f.wire, f.packetSize);
      if f.packetSize < 4 then out == Err(SizeBelowHeader)
      else if |Assembled(r)| + f.packetSize - 4 > |r.buffer| then out == Err(AssemblyOverflow)
      else if all.error == Some(PrematureEnd) then out == Err(BodyTooShort)
      else if all.error == Some(InvalidEscape) then out == Err(BodyBadEscape)
      else out.Ok? || out == Err(EmptyMessage)
  {
    hide DecodeUpTo, ParseTransportHeader;
    if f.packetSize >= 4 {
      PartsDecode(e, f);
    }
  }

  /** What the receiver remembers of the message after a packet that does not end it. */
  lemma {:induction false} AcceptedRemembers(v: Variant, e: Encoding, r: Receiver, f: Frame)
    requires WellFormed(r) && Receive(v, e, r, Some(f)).0 == Ok(None)
    ensures var h, state := HeaderOf(e, f).value, Receive(v, e, r, Some(f)).1.state;
      && HeaderOf(e, f).Some? && h.eom == 0
      && state.Receiving? && state.tag == h.tag && state.tagOwner == h.tagOwner && state.source == h.source
      && state.sequence == if r.state.Idle? || v.StoresReceived? then h.sequence else r.state.sequence
  {
    hide DecodeUpTo, ParseTransportHeader;
  }

  // ---------------------------------------------------------------- the packets of a message

  /** The packets taken for the message in progress. */
  function Members(v: Variant, e: Encoding, r: Receiver, inputs: seq<Option<Frame>>): (fs: seq<Frame>)
    requires r.state.Idle?
  {
    if inputs == [] then []
    else
      var input := inputs[|inputs| - 1];
      var before := Members(v, e, r, inputs[..|inputs| - 1]);
      match OutcomeAt(v, e, r, inputs, |inputs| - 1)
      case Ok(None) => before + [input.value]
      case Ok(Some(_)) => []
      case Err(x) => if x == EmptyMessage then [] else before
  }

  function Payloads(e: Encoding, fs: seq<Frame>): seq<seq<U8>> {
    seq(|fs|, i requires 0 <= i < |fs| => PayloadOf(e, fs[i]))
  }

  /** The packets are of one message: the first and only the first is marked as the first, all are of one
      tag, tag owner and source, and the sequence numbers follow the one that the receiver remembers. */
  ghost predicate OneMessage(v: Variant, e: Encoding, fs: seq<Frame>) {
    forall i | 0 <= i < |fs| :: Follows(v, e, fs[..i], fs[i])
  }

  /** The packet is the first of a message, or the next after the ones that came before. */
  predicate Follows(v: Variant, e: Encoding, earlier: seq<Frame>, f: Frame) {
    && HeaderOf(e, f).Some?
    && var h := HeaderOf(e, f).value;
       && (h.som == 1 <==> earlier == [])
       && (earlier != [] ==>
             && HeaderOf(e, earlier[0]).Some? && var first := HeaderOf(e, earlier[0]).value;
             && h.tag == first.tag && h.tagOwner == first.tagOwner && h.source == first.source
             && h.sequence == (Remembered(v, e, earlier) + 1) % 4)
  }

  /** The sequence number remembered after these packets: that of the latest, or, as written, the first. */
  function Remembered(v: Variant, e: Encoding, fs: seq<Frame>): SequenceNumber {
    if fs == [] then 0
    else
      var h := HeaderOf(e, if v.StoresReceived? then fs[|fs| - 1] else fs[0]);
      if h.Some? then h.value.sequence else 0
  }

  ghost predicate InState(v: Variant, e: Encoding, state: AssemblyState, fs: seq<Frame>) {
    && OneMessage(v, e, fs)
    && (state.Idle? <==> fs == [])
    && (forall i | 0 <= i < |fs| :: HeaderOf(e, fs[i]).Some? && HeaderOf(e, fs[i]).value.eom == 0)
    && (state.Receiving? ==>
          && HeaderOf(e, fs[0]).Some? && var first := HeaderOf(e, fs[0]).value;
          && state.tag == first.tag && state.tagOwner == first.tagOwner && state.source == first.source
          && state.sequence == Remembered(v, e, fs))
  }

  lemma {:induction false} OneMore(v: Variant, e: Encoding, state: AssemblyState, fs: seq<Frame>, f: Frame)
    requires InState(v, e, state, fs) && HeaderOf(e, f).Some? && Belongs(state, HeaderOf(e, f).value)
    ensures OneMessage(v, e, fs + [f])
  {
    NextFollows(v, e, state, fs, f);
    Extended(v, e, fs, f);
  }

  lemma {:induction false} NextFollows(v: Variant, e: Encoding, state: AssemblyState, fs: seq<Frame>, f: Frame)
    requires InState(v, e, state, fs) && HeaderOf(e, f).Some? && Belongs(state, HeaderOf(e, f).value)
    ensures OneMessage(v, e, fs) && Follows(v, e, fs, f)
  {
    hide HeaderOf, Remembered, OneMessage;
  }

  lemma {:induction false} Extended(v: Variant, e: Encoding, fs: seq<Frame>, f: Frame)
    requires OneMessage(v, e, fs) && Follows(v, e, fs, f)
    ensures OneMessage(v, e, fs + [f])
  {
    hide Follows;
    var all := fs + [f];
    forall i | 0 <= i < |all|
      ensures Follows(v, e, all[..i], all[i])
    {
      if i < |fs| {
        assert all[..i] == fs[..i] && all[i] == fs[i];
      } else {
        assert all[..i] == fs;
      }
    }
  }

  /** In every reachable state the packets taken so far are of one message, which is the one the receiver
      remembers, and what is assembled is their payloads. */
  lemma {:induction false} MembersAreOneMessage(v: Variant, e: Encoding, r: Receiver, inputs: seq<Option<Frame>>)
    requires r.state.Idle?
    ensures var fs := Members(v, e, r, inputs);
      && InState(v, e, Run(v, e, r, inputs).state, fs)
      && Flatten(Payloads(e, fs)) == Collected(v, e, r, inputs)
  {
    hide Receive, HeaderOf, PayloadOf, OneMessage, Follows, Remembered, Belongs;
    if inputs == [] {
      NoMessage(v, e);
      assert Payloads(e, []) == [];
    } else {
      var init, input := inputs[..|inputs| - 1], inputs[|inputs| - 1];
      var before := Run(v, e, r, init);
      var fs := Members(v, e, r, init);
      MembersAreOneMessage(v, e, r, init);
      MembersStep(v, e, before, fs, input);
      NoMessage(v, e);
      assert Payloads(e, []) == [];
      if Receive(v, e, before, input).0 == Ok(None) {
        assert Payloads(e, fs + [input.value]) == Payloads(e, fs) + [PayloadOf(e, input.value)];
        FlattenAppend(Payloads(e, fs), [PayloadOf(e, input.value)]);
        FlattenOne(PayloadOf(e, input.value));
      }
    }
  }

  lemma {:induction false} NoMessage(v: Variant, e: Encoding)
    ensures InState(v, e, Idle, [])
  {
  }

  lemma {:induction false} MembersStep(v: Variant, e: Encoding, r: Receiver, fs: seq<Frame>, input: Option<Frame>)
    requires WellFormed(r) && InState(v, e, r.state, fs)
    ensures var (out, after) := Receive(v, e, r, input);
      match out
      case Ok(None) => input.Some? && InState(v, e, after.state, fs + [input.value])
      case Ok(Some(_)) => after.state.Idle?
      case Err(x) => if x == EmptyMessage then after.state.Idle? else after.state == r.state
  {
    var out := Receive(v, e, r, input).0;
    RefusedMedium(v, e, r);
    if out.Err? {
      RefusedKeepsAssembly(v, e, r, input);
    } else {
      AcceptedExactly(v, e, r, input.value);
      AcceptedAppends(v, e, r, input.value);
      if out.value.None? {
        AcceptedRemembers(v, e, r, input.value);
        StepKeepsState(v, e, r.state, fs, input.value, Receive(v, e, r, input).1.state);
      }
    }
  }

  lemma {:induction false} RefusedMedium(v: Variant, e: Encoding, r: Receiver)
    requires WellFormed(r)
    ensures Receive(v, e, r, None) == (Err(MediumError), r)
  {
  }

  lemma {:induction false} StepKeepsState(v: Variant, e: Encoding, state: AssemblyState, fs: seq<Frame>, f: Frame,
                                          after: AssemblyState)
    requires InState(v, e, state, fs) && HeaderOf(e, f).Some? && Belongs(state, HeaderOf(e, f).value)
    requires HeaderOf(e, f).value.eom == 0 && after.Receiving?
    requires var h := HeaderOf(e, f).value;
      && after.tag == h.tag && after.tagOwner == h.tagOwner && after.source == h.source
      && after.sequence == if state.Idle? || v.StoresReceived? then h.sequence else state.sequence
    ensures InState(v, e, after, fs + [f])
  {
    hide HeaderOf, OneMessage, Follows, Remembered;
    OneMore(v, e, state, fs, f);
    RememberedNext(v, e, fs, f);
    FirstStays(v, e, state, fs, f);
  }

  lemma {:induction false} FirstStays(v: Variant, e: Encoding, state: AssemblyState, fs: seq<Frame>, f: Frame)
    requires InState(v, e, state, fs)
    ensures (fs + [f])[0] == if state.Idle? then f else fs[0]
    ensures forall i | 0 <= i < |fs| :: (fs + [f])[i] == fs[i]
    ensures (fs + [f])[|fs|] == f
  {
    hide HeaderOf, OneMessage;
  }

  lemma {:induction false} RememberedNext(v: Variant, e: Encoding, fs: seq<Frame>, f: Frame)
    requires HeaderOf(e, f).Some?
    ensures Remembered(v, e, fs + [f])
         == if fs == [] || v.StoresReceived? then HeaderOf(e, f).value.sequence else Remembered(v, e, fs)
  {
    hide HeaderOf;
    assert (fs + [f])[|fs|] == f;
    assert fs != [] ==> (fs + [f])[0] == fs[0];
  }

  /** A delivered message is made of the payloads of packets of one message, all of one tag, tag owner and
      source, from the one marked as the first to the one marked as the last, and is said to come from that
      source with that tag. */
  lemma {:induction false} DeliveredIsOneMessage(v: Variant, e: Encoding, r: Receiver, inputs: seq<Option<Frame>>,
                                                 f: Frame)
    requires r.state.Idle?
    requires Receive(v, e, Run(v, e, r, inputs), Some(f)).0.Ok?
    requires Receive(v, e, Run(v, e, r, inputs), Some(f)).0.value.Some?
    ensures var fs := Members(v, e, r, inputs) + [f]; var bytes := Flatten(Payloads(e, fs));
      && OneMessage(v, e, fs) && HeaderOf(e, f).Some? && HeaderOf(e, f).value.eom == 1
      && (forall i | 0 <= i < |fs| - 1 :: HeaderOf(e, fs[i]).Some? && HeaderOf(e, fs[i]).value.eom == 0)
      && bytes != []
      && Receive(v, e, Run(v, e, r, inputs), Some(f)).0.value.value == MessageOf(HeaderOf(e, f).value, bytes)
  {
    hide Receive, PayloadOf, OneMessage, Follows, Remembered, Run, Members, Collected;
    var before, fs := Run(v, e, r, inputs), Members(v, e, r, inputs);
    MembersAreOneMessage(v, e, r, inputs);
    AcceptedExactly(v, e, before, f);
    OneMore(v, e, before.state, fs, f);
    DeliveredIsCollected(v, e, r, inputs, f);
    AcceptedAppends(v, e, before, f);
    assert Payloads(e, fs + [f]) == Payloads(e, fs) + [PayloadOf(e, f)];
    FlattenAppend(Payloads(e, fs), [PayloadOf(e, f)]);
    FlattenOne(PayloadOf(e, f));
  }

  /** What a delivered message says of itself: addresses, tag and sequence number are those of its last
      packet; the first byte is split into the integrity bit and the type, and the rest is the body. */
  lemma {:induction false} DeliveredFields(v: Variant, e: Encoding, r: Receiver, f: Frame)
    requires WellFormed(r) && Receive(v, e, r, Some(f)).0.Ok? && Receive(v, e, r, Some(f)).0.value.Some?
    ensures var m := Receive(v, e, r, Some(f)).0.value.value;
      && HeaderOf(e, f).Some? && var h := HeaderOf(e, f).value;
      && m.destination == h.destination && m.source == h.source && m.sequence == h.sequence && m.tag == h.tag
      && m.integrityCheck in {0, 0x80} && m.messageType < 0x80
      && [m.integrityCheck + m.messageType] + m.body == Assembled(r) + PayloadOf(e, f)
  {
    hide DecodeUpTo, Receive, PayloadOf, Assembled;
    AcceptedAppends(v, e, r, f);
    var whole := Assembled(r) + PayloadOf(e, f);
    assert whole == [whole[0]] + whole[1..];
  }
}
