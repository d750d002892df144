/** The receiving side of MCTP (`mctp-rs/src/mctp_packet_context.rs` and `deserialize.rs`): an
    Idle/Receiving machine that appends decoded payloads to an assembly buffer. */
module Reassembly {
  import opened Wrappers
  import opened BufferEncoding
  import opened Sequences
  import opened TransportHeader
  import opened Fragmentation

  datatype AssemblyState =
    | Idle
    | Receiving(tag: MessageTag, tagOwner: Bit, source: EndpointId, sequence: SequenceNumber, index: nat)

  /** What a medium hands over for a packet it could parse: the decoded size it reports, transport
      header included, and its stuffed region. */
  datatype Frame = Frame(packetSize: nat, wire: seq<U8>)

  datatype Message = Message(
    destination: EndpointId, source: EndpointId, sequence: SequenceNumber, tag: MessageTag,
    integrityCheck: U8, messageType: U8, body: seq<U8>)

  datatype ReceiveError =
    | MediumError
    | HeaderTooShort
    | HeaderBadEscape
    | InvalidHeader
    | ExpectedStart
    | UnexpectedStart
    | TagMismatch(expectedTag: MessageTag, tag: MessageTag)
    | TagOwnerMismatch(expectedOwner: Bit, owner: Bit)
    | SourceMismatch(expectedSource: EndpointId, source: EndpointId)
    | UnexpectedSequence(expected: SequenceNumber, sequence: SequenceNumber)
    | SizeBelowHeader
    | AssemblyOverflow
    | BodyTooShort
    | BodyBadEscape
    | EmptyMessage

  datatype SerializeError = SendMessageWhileAssembling | MessageDoesNotFit

  type Outcome = Result<Option<Message>, ReceiveError>

  /** `AsWritten` is the source: it stores the assembling state back with the sequence number of the
      first packet (lines 82-92 and 143). `StoresReceived` stores the number of each accepted
      packet, as section 8.1 of DSP0236 intends. Nothing else differs. */
  datatype Variant = AsWritten | StoresReceived

  datatype Receiver = Receiver(state: AssemblyState, buffer: seq<U8>)

  ghost predicate WellFormed(r: Receiver) {
    r.state.Receiving? ==> r.state.index <= |r.buffer|
  }

  function MapDecodeError(x: DecodeError, onPremature: ReceiveError, onEscape: ReceiveError): ReceiveError {
    if x.PrematureEnd? then onPremature else onEscape
  }

  /** The transport header and the wire bytes it took. */
  function ParseTransportHeader(e: Encoding, wire: seq<U8>): (r: Result<(Header, nat), ReceiveError>)
    ensures r.Ok? ==> r.value.1 <= |wire|
  {
    var d := DecodeUpTo(e, wire, 4);
    if d.error.Some? then Err(MapDecodeError(d.error.value, HeaderTooShort, HeaderBadEscape))
    else match ParseHeader(d.bytes)
      case None => Err(InvalidHeader)
      case Some(h) => Ok((h, d.used))
  }

  /** The checks of a header against the assembly state, and the state to assemble into. */
  function Admit(v: Variant, state: AssemblyState, h: Header): (r: Result<AssemblyState, ReceiveError>)
    ensures r.Ok? ==> r.value.Receiving? && r.value.index == if state.Idle? then 0 else state.index
  {
    match state
    case Idle =>
      if h.som == 0 then Err(ExpectedStart) else Ok(Receiving(h.tag, h.tagOwner, h.source, h.sequence, 0))
    case Receiving(tag, tagOwner, source, sequence, _) =>
      if h.som != 0 then Err(UnexpectedStart)
      else if tag != h.tag then Err(TagMismatch(tag, h.tag))
      else if tagOwner != h.tagOwner then Err(TagOwnerMismatch(tagOwner, h.tagOwner))
      else if source != h.source then Err(SourceMismatch(source, h.source))
      else if NextSequence(sequence) != h.sequence then
        Err(UnexpectedSequence(NextSequence(sequence), h.sequence))
      else Ok(if v.AsWritten? then state else state.(sequence := h.sequence))
  }

  function MessageOf(h: Header, bytes: seq<U8>): Message
    requires bytes != []
  {
    Message(h.destination, h.source, h.sequence, h.tag, bytes[0] / 128 * 128, bytes[0] % 128, bytes[1..])
  }

  /** The last step: the payload is in the buffer, `index` bytes are assembled. */
  function Finish(state: AssemblyState, h: Header, buffer: seq<U8>, index: nat): (Outcome, Receiver)
    requires state.Receiving? && index <= |buffer|
  {
    if h.eom == 1 then
      (if index == 0 then Err(EmptyMessage) else Ok(Some(MessageOf(h, buffer[..index]))), Receiver(Idle, buffer))
    else (Ok(None), Receiver(state.(index := index), buffer))
  }

  /** One call of `deserialize_packet`; `None` is a packet the medium itself refused. */
  function Receive(v: Variant, e: Encoding, r: Receiver, input: Option<Frame>): (Outcome, Receiver)
    requires WellFormed(r)
  {
    if input.None? then (Err(MediumError), r)
    else match ParseTransportHeader(e, input.value.wire)
      case Err(x) => (Err(x), r)
      case Ok((h, used)) =>
        match Admit(v, r.state, h)
        case Err(x) => (Err(x), r)
        case Ok(state) =>
          if input.value.packetSize < 4 then (Err(SizeBelowHeader), r)
          else
            var size := input.value.packetSize - 4;
            if state.index + size > |r.buffer| then (Err(AssemblyOverflow), r)
            else
              var d := DecodeUpTo(e, input.value.wire[used..], size);
              var buffer := Overwrite(r.buffer, state.index, d.bytes);
              if d.error.Some? then
                (Err(MapDecodeError(d.error.value, BodyTooShort, BodyBadEscape)), r.(buffer := buffer))
              else Finish(state, h, buffer, state.index + size)
  }

  // ---------------------------------------------------------------- one packet

  /** What a packet carries: its decoded bytes behind the transport header. */
  function PayloadOf(e: Encoding, f: Frame): seq<U8> {
    var d := DecodeUpTo(e, f.wire, f.packetSize);
    if |d.bytes| < 4 then [] else d.bytes[4..]
  }

  lemma {:induction false} DecodeSplit(e: Encoding, wire: seq<U8>, m: nat, n: nat)
    requires DecodeUpTo(e, wire, m).error.None?
    ensures var first := DecodeUpTo(e, wire, m);
            DecodeUpTo(e, wire, m + n) == Joined(first, DecodeUpTo(e, wire[first.used..], n))
  {
    hide ReadNext;
    var first := DecodeUpTo(e, wire, m);
    if n == 0 {
    } else {
      DecodeSplit(e, wire, m, n - 1);
      assert m + n - 1 == m + (n - 1);
      ReadNextJoined(e, wire, first, DecodeUpTo(e, wire[first.used..], n - 1));
    }
  }

  function Joined(first: Decoded, second: Decoded): Decoded {
    Decoded(first.bytes + second.bytes, first.used + second.used, second.error)
  }

  lemma {:induction false} ReadNextJoined(e: Encoding, wire: seq<U8>, first: Decoded, second: Decoded)
    requires first.used + second.used <= |wire|
    ensures ReadNext(e, wire, Joined(first, second)) == Joined(first, ReadNext(e, wire[first.used..], second))
  {
    assert wire[first.used..][second.used..] == wire[first.used + second.used..];
  }

  /** The payload bytes received so far for the message in progress. */
  function Assembled(r: Receiver): seq<U8>
    requires WellFormed(r)
  {
    if r.state.Idle? then [] else r.buffer[..r.state.index]
  }

  /** The header, the admitted state and the payload bytes of an accepted packet. */
  lemma {:induction false} AcceptedParts(v: Variant, e: Encoding, r: Receiver, f: Frame)
    returns (h: Header, state: AssemblyState, bytes: seq<U8>)
    requires WellFormed(r) && Receive(v, e, r, Some(f)).0.Ok?
    ensures f.packetSize >= 4 && ParseTransportHeader(e, f.wire).Ok? && h == ParseTransportHeader(e, f.wire).value.0
    ensures Admit(v, r.state, h) == Ok(state) && state.index + |bytes| <= |r.buffer|
    ensures bytes == PayloadOf(e, f)
    ensures Receive(v, e, r, Some(f))
         == Finish(state, h, Overwrite(r.buffer, state.index, bytes), state.index + |bytes|)
  {
    var parsed := ParseTransportHeader(e, f.wire).value;
    h := parsed.0;
    state := Admit(v, r.state, h).value;
    bytes := DecodeUpTo(e, f.wire[parsed.1..], f.packetSize - 4).bytes;
    assert bytes == PayloadOf(e, f) by {
      PayloadIsBody(e, f);
    }
  }

  lemma {:induction false} PayloadIsBody(e: Encoding, f: Frame)
    requires f.packetSize >= 4 && ParseTransportHeader(e, f.wire).Ok?
    ensures PayloadOf(e, f) == DecodeUpTo(e, f.wire[ParseTransportHeader(e, f.wire).value.1..], f.packetSize - 4).bytes
  {
    hide DecodeUpTo;
    DecodeSplit(e, f.wire, 4, f.packetSize - 4);
  }

  /** An accepted packet appends exactly its payload, and a message is delivered, made of everything
      assembled, exactly on the end-of-message packet. */
  lemma {:induction false} AcceptedAppends(v: Variant, e: Encoding, r: Receiver, f: Frame)
    requires WellFormed(r) && Receive(v, e, r, Some(f)).0.Ok?
    ensures var (out, after) := Receive(v, e, r, Some(f));
            && WellFormed(after) && |after.buffer| == |r.buffer|
            && ParseTransportHeader(e, f.wire).Ok?
            && var h := ParseTransportHeader(e, f.wire).value.0;
               var whole := Assembled(r) + PayloadOf(e, f);
               if h.eom == 1 then after.state.Idle? && whole != [] && out.value == Some(MessageOf(h, whole))
               else Admit(v, r.state, h).Ok? && after.state == Admit(v, r.state, h).value.(index := |whole|)
                    && Assembled(after) == whole && out.value == None
  {
    var h, state, bytes := AcceptedParts(v, e, r, f);
    FinishDelivers(state, h, r.buffer, bytes);
    assert r.buffer[..state.index] == Assembled(r);
  }

  lemma {:induction false} FinishDelivers(state: AssemblyState, h: Header, buffer: seq<U8>, bytes: seq<U8>)
    requires state.Receiving? && state.index + |bytes| <= |buffer|
    ensures var whole := buffer[..state.index] + bytes;
            var (out, after) := Finish(state, h, Overwrite(buffer, state.index, bytes), |whole|);
            && WellFormed(after) && |after.buffer| == |buffer|
            && if h.eom == 1 then
                 after.state.Idle? && out == if whole == [] then Err(EmptyMessage) else Ok(Some(MessageOf(h, whole)))
               else after.state == state.(index := |whole|) && Assembled(after) == whole && out == Ok(None)
  {
  }

  /** A refused packet leaves the state and everything assembled untouched, even if decoding failed
      in the middle of its body; only the end-of-message packet of an empty message is refused
      after the machine has gone back to Idle. */
  lemma {:induction false} RefusedKeepsAssembly(v: Variant, e: Encoding, r: Receiver, input: Option<Frame>)
    requires WellFormed(r) && Receive(v, e, r, input).0.Err?
    ensures var (out, after) := Receive(v, e, r, input);
            && |after.buffer| == |r.buffer|
            && (out.error != EmptyMessage ==>
                  after.state == r.state && WellFormed(after) && Assembled(after) == Assembled(r))
            && (out.error == EmptyMessage ==> after.state == Idle && Assembled(r) == [])
  {
  }

  // ---------------------------------------------------------------- whole runs

  /** The receiver after a run of inputs, good or bad, and what it returned for each. */
  function Run(v: Variant, e: Encoding, r: Receiver, inputs: seq<Option<Frame>>): (after: Receiver)
    requires WellFormed(r)
    ensures WellFormed(after) && |after.buffer| == |r.buffer|
  {
    if inputs == [] then r
    else Receive(v, e, Run(v, e, r, inputs[..|inputs| - 1]), inputs[|inputs| - 1]).1
  }

  function OutcomeAt(v: Variant, e: Encoding, r: Receiver, inputs: seq<Option<Frame>>, i: nat): Outcome
    requires WellFormed(r) && i < |inputs|
  {
    Receive(v, e, Run(v, e, r, inputs[..i]), inputs[i]).0
  }

  /** The reference: a receiver without buffer or index, which remembers the payloads of the packets
      accepted since the last start-of-message packet. */
  function Collected(v: Variant, e: Encoding, r: Receiver, inputs: seq<Option<Frame>>): seq<U8>
    requires WellFormed(r)
  {
    if inputs == [] then Assembled(r)
    else
      var input := inputs[|inputs| - 1];
      var before := Collected(v, e, r, inputs[..|inputs| - 1]);
      match OutcomeAt(v, e, r, inputs, |inputs| - 1)
      case Ok(None) => before + PayloadOf(e, input.value)
      case Ok(Some(_)) => []
      case Err(x) => if x == EmptyMessage then [] else before
  }

  /** In every reachable state the buffer prefix is the concatenation of the accepted payloads. */
  lemma {:induction false} AssembledIsCollected(v: Variant, e: Encoding, r: Receiver, inputs: seq<Option<Frame>>)
    requires WellFormed(r)
    ensures Assembled(Run(v, e, r, inputs)) == Collected(v, e, r, inputs)
  {
    if inputs == [] {
    } else {
      var init, input := inputs[..|inputs| - 1], inputs[|inputs| - 1];
      AssembledIsCollected(v, e, r, init);
      var before := Run(v, e, r, init);
      if Receive(v, e, before, input).0.Ok? {
        AcceptedAppends(v, e, before, input.value);
      } else {
        RefusedKeepsAssembly(v, e, before, input);
      }
    }
  }

  /** Whatever came before, a delivered message is the concatenation of the payloads accepted since
      its start-of-message packet. */
  lemma {:induction false} DeliveredIsCollected(v: Variant, e: Encoding, r: Receiver, inputs: seq<Option<Frame>>,
                                                f: Frame)
    requires WellFormed(r)
    requires Receive(v, e, Run(v, e, r, inputs), Some(f)).0.Ok?
    ensures var out := Receive(v, e, Run(v, e, r, inputs), Some(f)).0.value;
            var bytes := Collected(v, e, r, inputs) + PayloadOf(e, f);
            && ParseTransportHeader(e, f.wire).Ok?
            && (out.Some? ==> bytes != [] && out.value == MessageOf(ParseTransportHeader(e, f.wire).value.0, bytes))
  {
    AssembledIsCollected(v, e, r, inputs);
    AcceptedAppends(v, e, Run(v, e, r, inputs), f);
  }

  /** Receivers that no future input can tell apart. */
  ghost predicate Alike(a: Receiver, b: Receiver) {
    && WellFormed(a) && WellFormed(b)
    && a.state == b.state && |a.buffer| == |b.buffer| && Assembled(a) == Assembled(b)
  }

  lemma {:induction false} AlikeStep(v: Variant, e: Encoding, a: Receiver, b: Receiver, input: Option<Frame>)
    requires Alike(a, b)
    ensures Receive(v, e, a, input).0 == Receive(v, e, b, input).0
    ensures Alike(Receive(v, e, a, input).1, Receive(v, e, b, input).1)
  {
    if Receive(v, e, a, input).0.Ok? {
      var h, state, bytes := AcceptedParts(v, e, a, input.value);
      AlikeAccepts(v, e, a, b, input.value);
      var _, _, _ := AcceptedParts(v, e, b, input.value);
      FinishDelivers(state, h, a.buffer, bytes);
      FinishDelivers(state, h, b.buffer, bytes);
      assert a.buffer[..state.index] == b.buffer[..state.index];
    } else {
      AlikeRefuses(v, e, a, b, input);
      RefusedKeepsAssembly(v, e, a, input);
      RefusedKeepsAssembly(v, e, b, input);
    }
  }

  lemma {:induction false} AlikeAccepts(v: Variant, e: Encoding, a: Receiver, b: Receiver, f: Frame)
    requires Alike(a, b) && Receive(v, e, a, Some(f)).0.Ok?
    ensures Receive(v, e, b, Some(f)).0.Ok?
  {
  }

  lemma {:induction false} AlikeRefuses(v: Variant, e: Encoding, a: Receiver, b: Receiver, input: Option<Frame>)
    requires Alike(a, b) && Receive(v, e, a, input).0.Err?
    ensures Receive(v, e, b, input).0 == Receive(v, e, a, input).0
  {
  }

  lemma {:induction false} AlikeRun(v: Variant, e: Encoding, a: Receiver, b: Receiver, inputs: seq<Option<Frame>>)
    requires Alike(a, b)
    ensures Alike(Run(v, e, a, inputs), Run(v, e, b, inputs))
  {
    if inputs == [] {
    } else {
      AlikeRun(v, e, a, b, inputs[..|inputs| - 1]);
      AlikeStep(v, e, Run(v, e, a, inputs[..|inputs| - 1]), Run(v, e, b, inputs[..|inputs| - 1]), inputs[|inputs| - 1]);
    }
  }

  /** A refused packet is invisible: every later outcome is the one that would have come without it,
      although it may have left stray bytes behind the assembled prefix. */
  lemma {:induction false} RefusedIsInvisible(v: Variant, e: Encoding, r: Receiver, bad: Option<Frame>,
                           inputs: seq<Option<Frame>>, i: nat)
    requires WellFormed(r) && i < |inputs|
    requires Receive(v, e, r, bad).0.Err? && Receive(v, e, r, bad).0.error != EmptyMessage
    ensures WellFormed(Receive(v, e, r, bad).1)
    ensures OutcomeAt(v, e, Receive(v, e, r, bad).1, inputs, i) == OutcomeAt(v, e, r, inputs, i)
  {
    RefusedKeepsAssembly(v, e, r, bad);
    AlikeRun(v, e, Receive(v, e, r, bad).1, r, inputs[..i]);
    AlikeStep(v, e, Run(v, e, Receive(v, e, r, bad).1, inputs[..i]), Run(v, e, r, inputs[..i]), inputs[i]);
  }

  // ---------------------------------------------------------------- the receiver object

  class MctpPacketContext {
    const medium: Medium
    const buffer: array<U8>
    var state: AssemblyState

    ghost predicate Valid()
      reads this, buffer
    {
      WellFormed(Abs())
    }

    ghost function Abs(): Receiver
      reads this, buffer
    {
      Receiver(state, buffer[..])
    }

    constructor (medium: Medium, buffer: array<U8>)
      ensures Valid() && state == Idle && this.medium == medium && this.buffer == buffer
    {
      this.medium, this.buffer, state := medium, buffer, Idle;
    }

    /** Start sending a message, given as its type byte, header and body. The message is laid out at
        the front of the assembly buffer and the packets are built behind it, so a message that is
        being received would be destroyed: it is refused instead. */
    method SerializePacket(context: ReplyContext, message: seq<U8>)
      returns (r: Result<SerializePacketState, SerializeError>)
      modifies buffer
      ensures state.Receiving? ==> r == Err(SendMessageWhileAssembling)
      ensures state.Idle? && |message| > buffer.Length ==> r == Err(MessageDoesNotFit)
      ensures state.Idle? && |message| <= buffer.Length ==>
                r.Ok? && fresh(r.value) && r.value.Valid() && r.value.start == |message| && r.value.buffer == buffer
                && r.value.State() == Sender(medium, buffer.Length - |message|, context, 0, message)
                && buffer[..] == Overwrite(old(buffer[..]), 0, message)
      ensures r.Err? ==> buffer[..] == old(buffer[..])
    {
      if state.Receiving? {
        return Err(SendMessageWhileAssembling);
      }
      if |message| > buffer.Length {
        return Err(MessageDoesNotFit);
      }
      forall i | 0 <= i < |message| {
        buffer[i] := message[i];
      }
      var sender := new SerializePacketState(medium, buffer, |message|, context, message);
      return Ok(sender);
    }

    /** The source's `deserialize_packet`. */
    method DeserializePacket(input: Option<Frame>) returns (r: Outcome)
      requires Valid()
      modifies this`state, buffer
      ensures Valid()
      ensures (r, Abs()) == Receive(AsWritten, medium.encoding, old(Abs()), input)
    {
      if input.None? {
        return Err(MediumError);
      }
      var decoder := new EncodingDecoder(medium.encoding, input.value.wire);
      var header := ReadTransportHeader(decoder);
      if header.Err? {
        return Err(header.error);
      }
      var admitted := Admit(AsWritten, state, header.value);
      if admitted.Err? {
        return Err(admitted.error);
      }
      if input.value.packetSize < 4 {
        return Err(SizeBelowHeader);
      }
      var index, size := admitted.value.index, input.value.packetSize - 4;
      if index + size > buffer.Length {
        return Err(AssemblyOverflow);
      }
      var failed := ReadBody(decoder, index, size);
      if failed.Some? {
        return Err(MapDecodeError(failed.value, BodyTooShort, BodyBadEscape));
      }
      if header.value.eom == 1 {
        state := Idle;
        if index + size == 0 {
          return Err(EmptyMessage);
        }
        return Ok(Some(MessageOf(header.value, buffer[..index + size])));
      }
      state := admitted.value.(index := index + size);
      return Ok(None);
    }

    static method ReadTransportHeader(decoder: EncodingDecoder) returns (r: Result<Header, ReceiveError>)
      requires decoder.Valid() && decoder.wirePos == 0
      modifies decoder`wirePos
      ensures decoder.Valid()
      ensures match ParseTransportHeader(decoder.encoding, decoder.buf)
              case Err(x) => r == Err(x)
              case Ok((h, used)) => r == Ok(h) && decoder.wirePos == used
    {
      var bytes: seq<U8> := [];
      assert decoder.buf[0..] == decoder.buf;
      for i := 0 to 4
        invariant decoder.Valid()
        invariant DecodeUpTo(decoder.encoding, decoder.buf, i) == Decoded(bytes, decoder.wirePos, None)
      {
        ghost var before := DecodeUpTo(decoder.encoding, decoder.buf, i);
        var b := decoder.Read();
        assert DecodeUpTo(decoder.encoding, decoder.buf, i + 1).error == if b.Err? then Some(b.error) else None;
        if b.Err? {
          DecodeStaysFailed(decoder.encoding, decoder.buf, i + 1, 4);
          return Err(MapDecodeError(b.error, HeaderTooShort, HeaderBadEscape));
        }
        bytes := bytes + [b.value];
      }
      match ParseHeader(bytes) {
        case None => return Err(InvalidHeader);
        case Some(h) => return Ok(h);
      }
    }

    /** Decode `size` payload bytes into the assembly buffer, one at a time. */
    method ReadBody(decoder: EncodingDecoder, index: nat, size: nat) returns (failed: Option<DecodeError>)
      requires decoder.Valid() && index + size <= buffer.Length
      modifies decoder`wirePos, buffer
      ensures decoder.Valid()
      ensures var d := DecodeUpTo(decoder.encoding, decoder.buf[old(decoder.wirePos)..], size);
              failed == d.error && buffer[..] == Overwrite(old(buffer[..]), index, d.bytes)
    {
      hide ReadByte;
      ghost var start, wire := decoder.wirePos, decoder.buf[decoder.wirePos..];
      for i := 0 to size
        invariant decoder.Valid() && start <= decoder.wirePos
        invariant var d := DecodeUpTo(decoder.encoding, wire, i);
                  && d.error == None && decoder.wirePos == start + d.used
                  && buffer[..] == Overwrite(old(buffer[..]), index, d.bytes)
      {
        ghost var d := DecodeUpTo(decoder.encoding, wire, i);
        assert decoder.buf[decoder.wirePos..] == wire[d.used..];
        var b := decoder.Read();
        if b.Err? {
          assert DecodeUpTo(decoder.encoding, wire, i + 1) == d.(error := Some(b.error));
          DecodeStaysFailed(decoder.encoding, wire, i + 1, size);
          return Some(b.error);
        }
        assert DecodeUpTo(decoder.encoding, wire, i + 1).bytes == d.bytes + [b.value];
        buffer[index + i] := b.value;
      }
      return None;
    }
  }

  lemma {:induction false} DecodeStaysFailed(e: Encoding, wire: seq<U8>, m: nat, n: nat)
    requires m <= n && DecodeUpTo(e, wire, m).error.Some?
    ensures DecodeUpTo(e, wire, n) == DecodeUpTo(e, wire, m)
  {
    if m < n {
      DecodeStaysFailed(e, wire, m, n - 1);
    }
  }
}
