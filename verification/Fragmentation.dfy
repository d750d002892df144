/** Cutting one MCTP message into packets (`mctp-rs/src/serialize.rs`). */
module Fragmentation {
  import opened Wrappers
  import opened BufferEncoding
  import opened Sequences
  import opened TransportHeader
  import opened Chunking

  /** What the sender asks of a medium: its encoding, the wire bytes a packet may take, and the
      bytes it reserves before and behind the stuffed region of its buffer. */
  datatype Medium = Medium(encoding: Encoding, maxBody: nat, lead: nat, trail: nat)

  const SMBUS_ESPI := Medium(Passthrough, 32, 4, 1)
  const SERIAL := Medium(Serial, 251, 2, 5)

  datatype ReplyContext = ReplyContext(
    destination: EndpointId, source: EndpointId, sequence: SequenceNumber, tag: MessageTag)

  /** The last two are the source's defensive errors; `ChoosePacket` and `WritePacket` prove
      that they cannot happen. */
  datatype SendError =
    | MediumRefused
    | HeaderDoesNotFit
    | BodyDoesNotFit
    | NoRoomAfterEndOfMessage
    | EncoderFull

  datatype Packet = Packet(header: Header, body: seq<U8>)

  /** The decoded and the wire bytes of a packet's stuffed region. */
  function PacketBytes(p: Packet): seq<U8> {
    HeaderBytes(p.header) + p.body
  }

  function WireOf(e: Encoding, p: Packet): seq<U8> {
    EncodeAll(e, PacketBytes(p))
  }

  /** The sender's state. `room` is the length of the buffer handed to the medium; `packetNum` is
      the source's 8-bit counter. */
  datatype Sender = Sender(
    medium: Medium, room: nat, context: ReplyContext, packetNum: U8, message: seq<U8>)

  /** Wire bytes that one packet may take. */
  function MaxWire(s: Sender): nat
    requires s.medium.lead + s.medium.trail <= s.room
  {
    Min(s.medium.maxBody, s.room - s.medium.lead - s.medium.trail)
  }

  /** What the two media let a packet take of a buffer: all but five bytes and at most 32 on SMBus, all but
      seven and at most 251 on the serial line. */
  lemma {:induction false} MediumBudgets(s: Sender)
    ensures s.medium == SMBUS_ESPI && s.room >= 5 ==> MaxWire(s) == if s.room < 37 then s.room - 5 else 32
    ensures s.medium == SERIAL && s.room >= 7 ==> MaxWire(s) == if s.room < 258 then s.room - 7 else 251
  {
  }

  function HeaderFor(context: ReplyContext, som: Bit, eom: Bit): Header {
    Header(0, 1, context.source, context.destination, som, eom, context.sequence, 0, context.tag)
  }

  function HeaderWire(s: Sender): nat {
    2 + |EncodeByte(s.medium.encoding, EndpointToBits(s.context.source))|
      + |EncodeByte(s.medium.encoding, EndpointToBits(s.context.destination))|
  }

  /** Neither the sequence number nor the flags change what a header costs on the wire. */
  lemma {:induction false} HeaderWireIsFixed(s: Sender, som: Bit, eom: Bit)
    ensures WireSizeOf(s.medium.encoding, HeaderBytes(HeaderFor(s.context, som, eom))) == HeaderWire(s)
  {
    HeaderCost(s.medium.encoding, HeaderFor(s.context, som, eom));
  }

  /** One call of `next`. A failed call has already advanced the sequence number, unless the
      medium itself refused, but has dropped no message byte. */
  function NextPacket(s: Sender): (r: (Option<Result<Packet, SendError>>, Sender))
    ensures r.0.None? <==> s.message == []
    ensures r.0.Some? && r.0.value.Ok? ==> r.0.value.value.body != []
                                           && s.message == r.0.value.value.body + r.1.message
    ensures r.0.Some? && r.0.value.Err? ==> r.1.message == s.message
  {
    if s.message == [] then (None, s)
    else if s.room < s.medium.lead + s.medium.trail then (Some(Err(MediumRefused)), s)
    else
      var context := s.context.(sequence := NextSequence(s.context.sequence));
      var som := if s.packetNum == 0 then 1 else 0;
      if HeaderWire(s) > MaxWire(s) then (Some(Err(HeaderDoesNotFit)), s.(context := context))
      else
        var k := TakeCount(s.medium.encoding, MaxWire(s) - HeaderWire(s), s.message);
        if k == 0 then (Some(Err(BodyDoesNotFit)), s.(context := context))
        else
          var eom := if k == |s.message| then 1 else 0;
          (Some(Ok(Packet(HeaderFor(context, som, eom), s.message[..k]))),
           s.(context := context, packetNum := (s.packetNum + 1) % 256, message := s.message[k..]))
  }

  /** When a call fails and what it costs: the medium refuses a buffer without room for its own bytes; no room
      for the header, or for the next byte behind it, still uses up a sequence number. */
  lemma {:induction false} NextFails(s: Sender)
    requires s.message != []
    ensures var (r, after) := NextPacket(s);
      && (r == Some(Err(MediumRefused)) <==> s.room < s.medium.lead + s.medium.trail)
      && (r == Some(Err(HeaderDoesNotFit)) <==>
            s.medium.lead + s.medium.trail <= s.room && HeaderWire(s) > MaxWire(s))
      && (r == Some(Err(BodyDoesNotFit)) <==>
            s.medium.lead + s.medium.trail <= s.room && HeaderWire(s) <= MaxWire(s)
            && HeaderWire(s) + |EncodeByte(s.medium.encoding, s.message[0])| > MaxWire(s))
      && (r.value.Err? ==>
            r.value.error in {MediumRefused, HeaderDoesNotFit, BodyDoesNotFit}
            && after == if r.value.error.MediumRefused? then s
                        else s.(context := s.context.(sequence := (s.context.sequence + 1) % 4)))
  {
    if s.medium.lead + s.medium.trail <= s.room && HeaderWire(s) <= MaxWire(s) {
      TakeIsPositive(s.medium.encoding, MaxWire(s) - HeaderWire(s), s.message);
    }
  }

  /** Calling `next` until it returns `None`, giving up at the first error
      (`uart-service/src/lib.rs:98-103`). */
  function SendAll(s: Sender): Result<seq<Packet>, SendError>
    decreases |s.message|
  {
    match NextPacket(s)
    case (None, _) => Ok([])
    case (Some(Err(e)), _) => Err(e)
    case (Some(Ok(p)), after) =>
      match SendAll(after)
      case Err(e) => Err(e)
      case Ok(ps) => Ok([p] + ps)
  }

  // ---------------------------------------------------------------- the whole run

  predicate HasRoom(s: Sender) {
    s.medium.lead + s.medium.trail <= s.room && HeaderWire(s) <= MaxWire(s)
  }

  function Budget(s: Sender): nat
    requires HasRoom(s)
  {
    MaxWire(s) - HeaderWire(s)
  }

  predicate Sendable(s: Sender) {
    s.message == [] || (HasRoom(s) && EveryByteFits(s.medium.encoding, Budget(s), s.message))
  }

  function ChunksOf(s: Sender): seq<seq<U8>>
    requires Sendable(s)
  {
    if s.message == [] then [] else Chunks(s.medium.encoding, Budget(s), s.message)
  }

  /** The header of the `i`-th of `n` packets of a run. */
  function HeaderAt(s: Sender, i: nat, n: nat): Header {
    HeaderFor(s.context.(sequence := (s.context.sequence + 1 + i) % 4),
              if (s.packetNum + i) % 256 == 0 then 1 else 0,
              if i + 1 == n then 1 else 0)
  }

  ghost predicate IsRun(s: Sender, ps: seq<Packet>)
    requires Sendable(s)
  {
    && |ps| == |ChunksOf(s)|
    && forall i | 0 <= i < |ps| :: ps[i] == Packet(HeaderAt(s, i, |ps|), ChunksOf(s)[i])
  }

  lemma {:induction false} NextKeepsBudget(s: Sender)
    requires s.message != [] && HasRoom(s)
    ensures var (r, after) := NextPacket(s);
            HasRoom(after) && Budget(after) == Budget(s) && after.medium == s.medium
            && (r.value.Ok? <==> |EncodeByte(s.medium.encoding, s.message[0])| <= Budget(s))
  {
    TakeIsPositive(s.medium.encoding, Budget(s), s.message);
  }

  lemma {:induction false} OneByteDoesNotFit(s: Sender)
    requires !Sendable(s)
    ensures SendAll(s).Err?
    decreases |s.message|
  {
    var (r, after) := NextPacket(s);
    if HasRoom(s) {
      NextKeepsBudget(s);
      if r.value.Ok? {
        EveryByteInPrefixFits(s);
        assert !EveryByteFits(s.medium.encoding, Budget(s), after.message);
        OneByteDoesNotFit(after);
      }
    }
  }

  lemma {:induction false} EveryByteInPrefixFits(s: Sender)
    requires s.message != [] && HasRoom(s)
    ensures EveryByteFits(s.medium.encoding, Budget(s), s.message[..TakeCount(s.medium.encoding, Budget(s), s.message)])
  {
    var e, k := s.medium.encoding, TakeCount(s.medium.encoding, Budget(s), s.message);
    forall i | 0 <= i < k
      ensures |EncodeByte(e, s.message[i])| <= Budget(s)
    {
      EncodePrefixStep(e, s.message[..k], i);
    }
  }

  /** A run succeeds exactly when a packet has room for the header and for the costliest byte of
      the message, and then the packets are the greedy chunks under the headers of `HeaderAt`. */
  lemma {:induction false} SendAllSucceeds(s: Sender)
    ensures SendAll(s).Ok? <==> Sendable(s)
    ensures Sendable(s) ==> IsRun(s, SendAll(s).value)
    decreases |s.message|
  {
    if !Sendable(s) {
      OneByteDoesNotFit(s);
    } else if s.message != [] {
      var (r, after) := NextPacket(s);
      NextKeepsBudget(s);
      assert s.message[0] in s.message;
      assert forall b | b in after.message :: b in s.message;
      SendAllSucceeds(after);
      ChunksOfStep(s);
      forall i: nat, n: nat
        ensures HeaderAt(after, i, n) == HeaderAt(s, i + 1, n + 1)
      {
        HeaderShifts(s, i, n);
      }
      RunExtends(s, r.value.value, after, SendAll(after).value);
    }
  }

  lemma {:induction false} RunExtends(s: Sender, p: Packet, after: Sender, rest: seq<Packet>)
    requires Sendable(s) && Sendable(after) && IsRun(after, rest)
    requires ChunksOf(s) == [p.body] + ChunksOf(after)
    requires p.header == HeaderAt(s, 0, |ChunksOf(s)|)
    requires forall i: nat, n: nat :: HeaderAt(after, i, n) == HeaderAt(s, i + 1, n + 1)
    ensures IsRun(s, [p] + rest)
  {
    var ps := [p] + rest;
    forall i | 0 <= i < |ps|
      ensures ps[i] == Packet(HeaderAt(s, i, |ps|), ChunksOf(s)[i])
    {
      if i > 0 {
        assert ps[i] == rest[i - 1];
        assert HeaderAt(after, i - 1, |rest|) == HeaderAt(s, i, |ps|);
      }
    }
  }

  lemma {:induction false} ChunksOfStep(s: Sender)
    requires s.message != [] && Sendable(s) && Sendable(NextPacket(s).1) && NextPacket(s).0.value.Ok?
    ensures ChunksOf(s) == [NextPacket(s).0.value.value.body] + ChunksOf(NextPacket(s).1)
    ensures NextPacket(s).0.value.value.header == HeaderAt(s, 0, |ChunksOf(s)|)
  {
    hide EncodeByte, WireSizeOf, TakeCount, EncodeAll;
    var (r, after) := NextPacket(s);
    NextKeepsBudget(s);
    assert Chunks(s.medium.encoding, Budget(s), after.message) == ChunksOf(after);
    assert HeaderAt(s, 0, 1).sequence == NextSequence(s.context.sequence);
    assert ChunksOf(after) == [] <==> after.message == [];
  }

  lemma {:induction false} HeaderShifts(s: Sender, i: nat, n: nat)
    requires s.message != [] && HasRoom(s) && NextPacket(s).0.value.Ok?
    ensures HeaderAt(NextPacket(s).1, i, n) == HeaderAt(s, i + 1, n + 1)
  {
  }

  function Bodies(ps: seq<Packet>): seq<seq<U8>> {
    seq(|ps|, i requires 0 <= i < |ps| => ps[i].body)
  }

  lemma {:induction false} BodiesAreChunks(s: Sender)
    requires Sendable(s)
    ensures SendAll(s).Ok? && Bodies(SendAll(s).value) == ChunksOf(s)
  {
    SendAllSucceeds(s);
  }

  /** The packet bodies concatenate to the whole message, and no other cut of the message into
      packets of this budget needs fewer of them. */
  lemma {:induction false} FragmentsCarryTheMessage(s: Sender, other: seq<seq<U8>>)
    requires SendAll(s).Ok?
    ensures Flatten(Bodies(SendAll(s).value)) == s.message
    ensures s.message != [] && Flatten(other) == s.message
            && (forall c | c in other :: HeaderWire(s) + WireSizeOf(s.medium.encoding, c) <= MaxWire(s))
            ==> |SendAll(s).value| <= |other|
  {
    SendAllSucceeds(s);
    BodiesAreChunks(s);
    if s.message != [] {
      ChunksFlatten(s.medium.encoding, Budget(s), s.message);
      if Flatten(other) == s.message
         && forall c | c in other :: HeaderWire(s) + WireSizeOf(s.medium.encoding, c) <= MaxWire(s) {
        GreedyUsesFewest(s.medium.encoding, Budget(s), s.message, other);
      }
    }
  }

  /** The header of each packet of a run: sequence numbers rise by one modulo four, end-of-message
      marks the last packet only, start-of-message marks every packet whose 8-bit number is zero. */
  lemma {:induction false} FragmentHeaderAt(s: Sender, i: nat)
    requires SendAll(s).Ok? && i < |SendAll(s).value|
    ensures var ps := SendAll(s).value; var h := ps[i].header;
            && h.sequence == (s.context.sequence + 1 + i) % 4
            && (h.eom == 1 <==> i == |ps| - 1)
            && (h.som == 1 <==> (s.packetNum + i) % 256 == 0)
            && h.reserved == 0 && h.version == 1 && h.tagOwner == 0 && h.tag == s.context.tag
            && h.source == s.context.destination && h.destination == s.context.source
  {
    hide SendAll, Chunks, EveryByteFits;
    SendAllSucceeds(s);
    var ps := SendAll(s).value;
    assert ps[i].header == HeaderAt(s, i, |ps|);
  }

  /** Every packet carries some of the message and fits the wire budget, and no packet but the last
      had room for the next byte of the message. */
  lemma {:induction false} FragmentFits(s: Sender, i: nat)
    requires SendAll(s).Ok? && i < |SendAll(s).value|
    ensures var ps := SendAll(s).value;
            && ps[i].body != []
            && |WireOf(s.medium.encoding, ps[i])| <= MaxWire(s)
            && (i + 1 < |ps| ==> ps[i + 1].body != [] && !FitsOneMore(s, ps[i], ps[i + 1]))
  {
    SendAllSucceeds(s);
    FragmentHeaderAt(s, i);
    var ps := SendAll(s).value;
    ChunkAt(s.medium.encoding, Budget(s), s.message, i);
    WireOfPacket(s, ps[i].header, ps[i].body);
    if i + 1 < |ps| {
      WireOfPacket(s, ps[i].header, ps[i].body + ps[i + 1].body[..1]);
    }
  }

  /** Would the first byte of the next packet have fitted into this one? */
  ghost predicate FitsOneMore(s: Sender, p: Packet, next: Packet)
    requires HasRoom(s) && next.body != []
  {
    |WireOf(s.medium.encoding, Packet(p.header, p.body + next.body[..1]))| <= MaxWire(s)
  }

  lemma {:induction false} WireOfPacket(s: Sender, h: Header, body: seq<U8>)
    requires h.reserved == 0 && h.version == 1 && h.tagOwner == 0
    requires h.source == s.context.destination && h.destination == s.context.source
    ensures |WireOf(s.medium.encoding, Packet(h, body))| == HeaderWire(s) + WireSizeOf(s.medium.encoding, body)
  {
    var e := s.medium.encoding;
    WireSizeIsWireLength(e, PacketBytes(Packet(h, body)));
    WireSizeAdditive(e, HeaderBytes(h), body);
    HeaderCost(e, h);
  }

  /** Whatever packet `next` makes fits the wire budget. */
  lemma {:induction false} NextFits(s: Sender)
    requires s.message != [] && NextPacket(s).0.value.Ok?
    ensures s.medium.lead + s.medium.trail <= s.room
    ensures |WireOf(s.medium.encoding, NextPacket(s).0.value.value)| <= MaxWire(s)
  {
    hide EncodeAll, WireOf, HeaderBytes;
    var p := NextPacket(s).0.value.value;
    assert p.header.source == s.context.destination && p.header.destination == s.context.source;
    WireOfPacket(s, p.header, p.body);
  }

  /** Start-of-message marks the first packet only, while the 8-bit packet counter does not wrap;
      the 257th packet of a longer run carries it again. */
  lemma {:induction false} StartMarksFirstOnly(s: Sender, ps: seq<Packet>)
    requires SendAll(s) == Ok(ps) && s.packetNum == 0
    ensures |ps| <= 256 ==> forall i | 0 <= i < |ps| :: ps[i].header.som == 1 <==> i == 0
    ensures |ps| > 256 ==> ps[256].header.som == 1
  {
    SendAllSucceeds(s);
    StartInRun(s, ps);
  }

  lemma {:induction false} StartInRun(s: Sender, ps: seq<Packet>)
    requires Sendable(s) && IsRun(s, ps) && s.packetNum == 0
    ensures |ps| <= 256 ==> forall i | 0 <= i < |ps| :: ps[i].header.som == 1 <==> i == 0
    ensures |ps| > 256 ==> ps[256].header.som == 1
  {
  }

  /** Without stuffing the packet count is the message size over the payload room, rounded up. */
  lemma {:induction false} PassthroughPacketCount(s: Sender)
    requires s.medium.encoding == Passthrough && s.message != [] && SendAll(s).Ok?
    ensures var n := |SendAll(s).value|; var payload := MaxWire(s) - 4;
            payload * (n - 1) < |s.message| <= payload * n
  {
    SendAllSucceeds(s);
    assert s.message[0] in s.message;
    PassthroughChunkCount(Budget(s), s.message);
  }

  /** On SMBus, with room for a full packet, every packet but the last carries 28 bytes. */
  lemma {:induction false} SmbusPacketCount(s: Sender)
    requires s.medium == SMBUS_ESPI && s.room >= 37 && s.message != []
    ensures SendAll(s).Ok? && var n := |SendAll(s).value|; 28 * (n - 1) < |s.message| <= 28 * n
  {
    hide SendAll;
    SendAllSucceeds(s);
    PassthroughPacketCount(s);
  }

  // ---------------------------------------------------------------- the sender object

  /** Sends from `buffer[start..]`; the message itself lies in front of it. */
  class SerializePacketState {
    const medium: Medium
    const buffer: array<U8>
    const start: nat
    var context: ReplyContext
    var packetNum: U8
    var message: seq<U8>

    ghost predicate Valid() {
      start <= buffer.Length
    }

    constructor (medium: Medium, buffer: array<U8>, start: nat, context: ReplyContext, message: seq<U8>)
      requires start <= buffer.Length
      ensures this.medium == medium && this.buffer == buffer && this.start == start && Valid()
      ensures State() == Sender(medium, buffer.Length - start, context, 0, message)
    {
      this.medium, this.buffer, this.start, this.context := medium, buffer, start, context;
      this.packetNum, this.message := 0, message;
    }

    ghost function State(): Sender
      requires Valid()
      reads this
    {
      Sender(medium, buffer.Length - start, context, packetNum, message)
    }

    /** The stuffed region of the next packet, which is then in its place in the buffer, or the error that
        stopped it. */
    method Next() returns (r: Option<Result<seq<U8>, SendError>>)
      requires Valid()
      modifies this, buffer
      ensures forall k | 0 <= k < start :: buffer[k] == old(buffer[k])
      ensures State() == NextPacket(old(State())).1
      ensures match NextPacket(old(State())).0
              case None => r == None
              case Some(Err(x)) => r == Some(Err(x))
              case Some(Ok(p)) =>
                var wire, at := WireOf(medium.encoding, p), start + medium.lead;
                r == Some(Ok(wire)) && at + |wire| + medium.trail <= buffer.Length && buffer[at..at + |wire|] == wire
    {
      hide EncodeAll, EncodeByte, TakeCount, HeaderWire, HeaderFor, HeaderBytes, WireOf, WireSizeOf;
      if message == [] {
        return None;
      }
      if buffer.Length - start < medium.lead + medium.trail {
        return Some(Err(MediumRefused));
      }
      var encoder := new EncodingEncoder(medium.encoding, buffer, start + medium.lead,
                                         buffer.Length - medium.trail);
      var chosen := ChoosePacket(Min(medium.maxBody, encoder.RemainingWire()));
      if chosen.Err? {
        return Some(Err(chosen.error));
      }
      var w := WritePacket(encoder, chosen.value);
      packetNum := (packetNum + 1) % 256;
      return Some(Ok(buffer[encoder.from..encoder.from + encoder.wirePos]));
    }

    /** The second half of the writer closure: header and body through the encoder. The encoder
        cannot run out of room. */
    static method WritePacket(encoder: EncodingEncoder, p: Packet) returns (r: Result<(), SendError>)
      requires encoder.Valid() && encoder.wirePos == 0
      requires WireSizeOf(encoder.encoding, HeaderBytes(p.header)) + WireSizeOf(encoder.encoding, p.body)
               <= encoder.RemainingWire()
      modifies encoder`wirePos, encoder.buf
      ensures encoder.Valid()
      ensures forall k | 0 <= k < encoder.from :: encoder.buf[k] == old(encoder.buf[k])
      ensures r.Ok? && encoder.Written() == WireOf(encoder.encoding, p)
    {
      EncodeAllAppend(encoder.encoding, HeaderBytes(p.header), p.body);
      var h := encoder.WriteAll(HeaderBytes(p.header));
      if h.Err? {
        assert false;
        return Err(EncoderFull);
      }
      var b := encoder.WriteAll(p.body);
      if b.Err? {
        assert false;
        return Err(EncoderFull);
      }
      return Ok(());
    }

    /** The first half of the writer closure: advance the sequence number, cut off the chunk and build the
        header. */
    method ChoosePacket(maxWire: nat) returns (r: Result<Packet, SendError>)
      requires Valid() && message != [] && medium.lead + medium.trail <= buffer.Length - start
      requires maxWire == MaxWire(State())
      modifies this`context, this`message
      ensures r == NextPacket(old(State())).0.value
      ensures State().(packetNum := 0) == NextPacket(old(State())).1.(packetNum := 0)
      ensures r.Err? ==> State() == NextPacket(old(State())).1
      ensures r.Ok? ==> WireSizeOf(medium.encoding, HeaderBytes(r.value.header))
                        + WireSizeOf(medium.encoding, r.value.body) <= maxWire
    {
      hide EncodeByte, WireSizeOf, TakeCount, EncodeAll, HeaderBytes;
      var som: Bit := if packetNum == 0 then 1 else 0;
      context := context.(sequence := NextSequence(context.sequence));
      var headerCost := WireSizeOf(medium.encoding, HeaderBytes(HeaderFor(context, som, 0)));
      HeaderWireIsFixed(State(), som, 0);
      if headerCost > maxWire {
        return Err(HeaderDoesNotFit);
      }
      var size, consumed := ChunkSize(maxWire - headerCost);
      if size == 0 {
        return Err(BodyDoesNotFit);
      }
      var body := message[..size];
      message := message[size..];
      var eom: Bit := if message == [] then 1 else 0;
      var header := HeaderFor(context, som, eom);
      HeaderWireIsFixed(State(), som, eom);
      if eom == 1 && WireSizeOf(medium.encoding, HeaderBytes(header)) + consumed > maxWire {
        assert false;
        return Err(NoRoomAfterEndOfMessage);
      }
      return Ok(Packet(header, body));
    }

    /** Walk the message byte by byte, adding up the wire cost, until the next byte would exceed
        the budget. */
    method ChunkSize(budget: nat) returns (size: nat, consumed: nat)
      ensures size == TakeCount(medium.encoding, budget, message)
      ensures consumed == WireSizeOf(medium.encoding, message[..size])
    {
      size, consumed := 0, 0;
      assert message[..0] == [];
      while size < |message|
        invariant size <= |message|
        invariant consumed == WireSizeOf(medium.encoding, message[..size]) <= budget
      {
        var cost := WireSizeOf(medium.encoding, [message[size]]);
        WireSizeAdditive(medium.encoding, message[..size], [message[size]]);
        assert message[..size + 1] == message[..size] + [message[size]];
        if consumed + cost > budget {
          break;
        }
        size, consumed := size + 1, consumed + cost;
      }
      GreedyIsUnique(medium.encoding, budget, message, size, TakeCount(medium.encoding, budget, message));
    }
  }
}
