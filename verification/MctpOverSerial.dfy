/** Messages over a serial line: the sender's packets framed one after the other, the line cut at the
    ends of frames (`mctp-rs/src/medium/serial.rs`), and the receiver run on what comes out; and the one
    reader that the repository has (`uart-service/src/lib.rs`), which takes a single frame. */
module MctpOverSerial {
  import opened Wrappers
  import opened BufferEncoding
  import opened Sequences
  import opened TransportHeader
  import opened Fragmentation
  import opened Reassembly
  import opened MctpRoundTrip
  import SerialFraming

  /** Every packet the sender makes for this medium fits the frame's byte count. */
  lemma {:induction false} PacketFitsFrame(s: Sender, ps: seq<Packet>, i: nat)
    requires s.medium == SERIAL && SendAll(s) == Ok(ps) && i < |ps|
    ensures |PacketBytes(ps[i])| <= SerialFraming.MTU
  {
    FragmentFits(s, i);
    WireSizeIsWireLength(Serial, PacketBytes(ps[i]));
    WireSizeBounds(Serial, PacketBytes(ps[i]));
  }

  ghost predicate Framed(ps: seq<Packet>) {
    forall i :: 0 <= i < |ps| ==> |PacketBytes(ps[i])| <= SerialFraming.MTU
  }

  /** The bytes on the line. */
  function Line(crc: seq<U8> -> U16, ps: seq<Packet>): seq<U8>
    requires Framed(ps)
  {
    if ps == [] then [] else SerialFraming.FrameBytes(crc, PacketBytes(ps[0])) + Line(crc, ps[1..])
  }

  /** What a reader that keeps on reading hands to one receiver: each stretch that `frame_complete` finds,
      through `deserialize`. */
  function Received(crc: seq<U8> -> U16, line: seq<U8>): seq<Option<Frame>>
    decreases |line|
  {
    match SerialFraming.FrameComplete(line)
    case None => []
    case Some(n) =>
      var f := SerialFraming.Deserialize(crc, line[..n]);
      [if f.Ok? then Some(f.value) else None] + Received(crc, line[n..])
  }

  /** The packets come off the line as they went on exactly when none has 0x7E bytes, the count that
      looks like the end of a frame. */
  lemma {:induction false} LineRoundTrip(crc: seq<U8> -> U16, ps: seq<Packet>)
    requires Framed(ps)
    ensures Received(crc, Line(crc, ps)) == Frames(Serial, ps)
            <==> forall i :: 0 <= i < |ps| ==> |PacketBytes(ps[i])| != 0x7E
  {
    hide SerialFraming.FrameBytes, SerialFraming.Deserialize, SerialFraming.FrameComplete, PacketBytes, EncodeAll;
    if ps == [] {
      NoFrame();
      assert Frames(Serial, ps) == [];
    } else {
      var body, rest := PacketBytes(ps[0]), Line(crc, ps[1..]);
      var frame := SerialFraming.FrameBytes(crc, body);
      var frames := Frames(Serial, ps);
      assert frames == [Some(FrameOf(Serial, ps[0]))] + Frames(Serial, ps[1..]);
      SerialFraming.FrameCompleteFindsEnd(crc, body, rest);
      if |body| == 0x7E {
        TooShort(crc, (frame + rest)[..2]);
        assert Received(crc, frame + rest)[0] == None != frames[0];
      } else {
        assert (frame + rest)[..|frame|] == frame && (frame + rest)[|frame|..] == rest;
        SerialFraming.FrameRoundTrip(crc, body);
        BodySize(ps[0]);
        LineRoundTrip(crc, ps[1..]);
        var after := Received(crc, rest);
        assert Received(crc, frame + rest) == [frames[0]] + after;
        assert ([frames[0]] + after)[1..] == after && frames[1..] == Frames(Serial, ps[1..]);
        assert forall i :: 0 < i < |ps| ==> ps[i] == ps[1..][i - 1];
      }
    }
  }

  lemma {:induction false} NoFrame()
    ensures SerialFraming.FrameComplete([]) == None
  {
  }

  lemma {:induction false} TooShort(crc: seq<U8> -> U16, packet: seq<U8>)
    requires |packet| < 5
    ensures SerialFraming.Deserialize(crc, packet).Err?
  {
  }

  lemma {:induction false} BodySize(p: Packet)
    ensures FrameOf(Serial, p) == Frame(|PacketBytes(p)|, EncodeAll(Serial, PacketBytes(p)))
  {
  }

  /** End to end: a message of up to 256 packets, none of them 0x7E bytes, sent over the line with any
      checksum, is delivered by its last packet and by no other. */
  lemma {:induction false} MessageOverSerial(crc: seq<U8> -> U16, s: Sender, ps: seq<Packet>,
                                             r: Receiver, i: nat)
    requires s.medium == SERIAL && SendAll(s) == Ok(ps) && s.packetNum == 0 && i < |ps| <= 256
    requires Canonical(s.context.source) && Canonical(s.context.destination)
    requires r.state.Idle? && |s.message| <= |r.buffer|
    requires forall j :: 0 <= j < |ps| ==> |PacketBytes(ps[j])| != 0x7E
    ensures Framed(ps)
    ensures var inputs := Received(crc, Line(crc, ps));
      && |inputs| == |ps|
      && OutcomeAt(StoresReceived, Serial, r, inputs, i)
         == Ok(if i + 1 < |ps| then None else Some(MessageOf(ps[i].header, s.message)))
  {
    hide SendAll, Line, Received, PacketBytes, OutcomeAt;
    forall j | 0 <= j < |ps|
      ensures |PacketBytes(ps[j])| <= SerialFraming.MTU
    {
      PacketFitsFrame(s, ps, j);
    }
    LineRoundTrip(crc, ps);
    RoundTripStoringSequence(s, ps, r, i);
  }

  // ---------------------------------------------------------------- the UART service's reader

  const READER_BUFFER := 256

  datatype Reading = WholePacket(bytes: seq<U8>) | LineClosed | FrameTooLong | StillWaiting

  /** The reading loop of `wait_for_request`. `sizes` are the numbers of bytes that the successive reads
      would give, were there room and were they on the line; `filled` bytes have been read. */
  function ReadPacket(line: seq<U8>, filled: nat, sizes: seq<nat>): Reading
    requires filled <= |line|
    decreases |sizes|
  {
    if filled >= READER_BUFFER then FrameTooLong
    else if sizes == [] then StillWaiting
    else
      var n := Min(sizes[0], Min(READER_BUFFER - filled, |line| - filled));
      if n == 0 then LineClosed
      else match SerialFraming.FrameComplete(line[..filled + n])
        case Some(k) => WholePacket(line[..k])
        case None => ReadPacket(line, filled + n, sizes[1..])
  }

  lemma {:induction false} ReadStep(line: seq<U8>, filled: nat, sizes: seq<nat>, i: nat, n: nat)
    requires filled < READER_BUFFER && filled <= |line| && i < |sizes|
    requires n == Min(sizes[i], Min(READER_BUFFER - filled, |line| - filled))
    ensures ReadPacket(line, filled, sizes[i..]) ==
      if n == 0 then LineClosed
      else match SerialFraming.FrameComplete(line[..filled + n])
        case Some(k) => WholePacket(line[..filled + n][..k])
        case None => ReadPacket(line, filled + n, sizes[i + 1..])
  {
    hide SerialFraming.FrameComplete;
    assert sizes[i..][0] == sizes[i] && sizes[i..][1..] == sizes[i + 1..];
  }

  lemma {:induction false} ReadEnd(line: seq<U8>, filled: nat, sizes: seq<nat>)
    requires filled <= |line| && filled <= READER_BUFFER
    ensures filled == READER_BUFFER ==> ReadPacket(line, filled, sizes) == FrameTooLong
    ensures filled < READER_BUFFER && sizes == [] ==> ReadPacket(line, filled, sizes) == StillWaiting
  {
  }

  method WaitForPacket(line: seq<U8>, sizes: seq<nat>) returns (r: Reading)
    ensures r == ReadPacket(line, 0, sizes)
  {
    hide SerialFraming.FrameComplete, Overwrite, ReadPacket;
    var buf := new U8[READER_BUFFER](_ => 0);
    var filled := 0;
    assert sizes[0..] == sizes;
    for i := 0 to |sizes|
      invariant filled <= |line| && filled <= buf.Length && buf[..filled] == line[..filled]
      invariant ReadPacket(line, 0, sizes) == ReadPacket(line, filled, sizes[i..])
    {
      ReadEnd(line, filled, sizes[i..]);
      if filled == buf.Length {
        return FrameTooLong;
      }
      var n := Min(sizes[i], Min(buf.Length - filled, |line| - filled));
      ReadStep(line, filled, sizes, i, n);
      if n == 0 {
        return LineClosed;
      }
      Copy(buf, filled, line[filled..filled + n]);
      filled := filled + n;
      assert buf[..filled] == line[..filled];
      var end := SerialFraming.FrameComplete(buf[..filled]);
      if end.Some? {
        assert buf[..end.value] == buf[..filled][..end.value];
        return WholePacket(buf[..end.value]);
      }
    }
    ReadEnd(line, filled, sizes[|sizes|..]);
    return if filled == buf.Length then FrameTooLong else StillWaiting;
  }

  /** A line on which no frame ends is given up when it closes, or when the buffer is full. */
  lemma {:induction false} ReaderGivesUp(line: seq<U8>, filled: nat, sizes: seq<nat>)
    requires filled <= |line| && filled <= READER_BUFFER && forall i :: 0 <= i < |sizes| ==> sizes[i] > 0
    requires forall k :: filled < k <= |line| ==> SerialFraming.FrameComplete(line[..k]).None?
    requires |sizes| > |line| - filled
    ensures ReadPacket(line, filled, sizes) == if |line| < 256 then LineClosed else FrameTooLong
    decreases |sizes|
  {
    hide SerialFraming.FrameComplete;
    if filled < READER_BUFFER && filled < |line| {
      ReaderGivesUp(line, filled + Min(sizes[0], Min(READER_BUFFER - filled, |line| - filled)), sizes[1..]);
    }
  }

  datatype ServeError =
    | NotRead(reading: Reading)
    | BadFrame(frameError: SerialFraming.FrameError)
    | Refused(receiveError: ReceiveError)
    | PartialMessage

  /** `wait_for_request` up to the message: one packet, given to a receiver made for it alone. */
  function Serve(crc: seq<U8> -> U16, line: seq<U8>, sizes: seq<nat>): Result<Message, ServeError> {
    match ReadPacket(line, 0, sizes)
    case WholePacket(bytes) =>
      (match SerialFraming.Deserialize(crc, bytes)
       case Err(x) => Err(BadFrame(x))
       case Ok(frame) =>
         match Receive(AsWritten, Serial, Receiver(Idle, seq(READER_BUFFER, _ => 0)), Some(frame)).0
         case Err(x) => Err(Refused(x))
         case Ok(None) => Err(PartialMessage)
         case Ok(Some(m)) => Ok(m))
    case other => Err(NotRead(other))
  }

  /** However the line is broken up into reads, the reader cuts off the first frame of it, unless the frame
      has 0x7E bytes or does not fit its buffer. */
  lemma {:induction false} ReaderCutsFrame(crc: seq<U8> -> U16, body: seq<U8>, following: seq<U8>,
                                           filled: nat, sizes: seq<nat>)
    requires |body| <= SerialFraming.MTU && filled < SerialFraming.EndFound(crc, body)
    requires filled <= READER_BUFFER
    requires forall i :: 0 <= i < |sizes| ==> sizes[i] > 0
    requires SerialFraming.EndFound(crc, body) <= filled + |sizes|
    ensures filled <= |SerialFraming.FrameBytes(crc, body) + following|
    ensures var end := SerialFraming.EndFound(crc, body); var line := SerialFraming.FrameBytes(crc, body) + following;
            ReadPacket(line, filled, sizes) == if end <= READER_BUFFER then WholePacket(line[..end]) else FrameTooLong
    decreases |sizes|
  {
    hide SerialFraming.FrameBytes, SerialFraming.FrameComplete;
    SerialFraming.FrameNotEmpty(crc, body);
    var end, line := SerialFraming.EndFound(crc, body), SerialFraming.FrameBytes(crc, body) + following;
    if filled < READER_BUFFER {
      var n := Min(sizes[0], Min(READER_BUFFER - filled, |line| - filled));
      SerialFraming.EndFoundInTime(crc, body, following, filled + n);
      if filled + n < end {
        ReaderCutsFrame(crc, body, following, filled + n, sizes[1..]);
      }
    }
  }

  /** The reader on the frames of a message: the message is delivered exactly if it took one packet, whose
      frame fits the reader's buffer and does not have 0x7E bytes. */
  lemma {:induction false} ReaderDelivers(crc: seq<U8> -> U16, s: Sender, ps: seq<Packet>, following: seq<U8>,
                                          sizes: seq<nat>)
    requires s.medium == SERIAL && SendAll(s) == Ok(ps) && s.packetNum == 0 && s.message != []
    requires Canonical(s.context.source) && Canonical(s.context.destination)
    requires forall i :: 0 <= i < |sizes| ==> sizes[i] > 0
    ensures ps != [] && |PacketBytes(ps[0])| <= SerialFraming.MTU
    ensures var frame := SerialFraming.FrameBytes(crc, PacketBytes(ps[0]));
            |frame| <= |sizes| ==>
            (Serve(crc, frame + following, sizes) == Ok(MessageOf(ps[0].header, s.message))
             <==> |ps| == 1 && |PacketBytes(ps[0])| != 0x7E && |frame| <= READER_BUFFER)
  {
    hide SendAll, PacketBytes, SerialFraming.FrameBytes, SerialFraming.Deserialize, Receive, ReadPacket;
    SendsFromSendAll(s, ps);
    PacketFitsFrame(s, ps, 0);
    var body := PacketBytes(ps[0]);
    var frame := SerialFraming.FrameBytes(crc, body);
    SerialFraming.FrameNotEmpty(crc, body);
    if |frame| <= |sizes| {
      ReaderCutsFrame(crc, body, following, 0, sizes);
      if |body| == 0x7E {
        TooShort(crc, (frame + following)[..2]);
      } else {
        assert (frame + following)[..|frame|] == frame;
        SerialFraming.FrameRoundTrip(crc, body);
        BodySize(ps[0]);
        FirstPacketAlone(s, ps, Receiver(Idle, seq(READER_BUFFER, _ => 0)));
      }
    }
  }

  /** What a fresh receiver makes of the first packet of a message. */
  lemma {:induction false} FirstPacketAlone(s: Sender, ps: seq<Packet>, r: Receiver)
    requires Sends(s, ps) && ps != [] && Flatten(Bodies(ps)) == s.message && r.state.Idle?
    requires |ps| == 1 ==> |ps[0].body| <= |r.buffer|
    ensures var out := Receive(AsWritten, s.medium.encoding, r, Some(FrameOf(s.medium.encoding, ps[0]))).0;
            if |ps| == 1 then out == Ok(Some(MessageOf(ps[0].header, s.message)))
            else out.Ok? ==> out.value == None
  {
    hide Receive, EncodeAll, DecodeUpTo, ParseTransportHeader, WireOf;
    var e, p := s.medium.encoding, ps[0];
    assert p.header == HeaderAt(s, 0, |ps|);
    if |ps| == 1 {
      FlattenOne(p.body);
      assert Bodies(ps) == [p.body];
      FirstInRun(AsWritten, s, ps, r);
      assert Kept(AsWritten, ps, 1) == Kept(AsWritten, ps, 0) + p.body;
    } else if Receive(AsWritten, e, r, Some(FrameOf(e, p))).0.Ok? {
      FrameDecodes(e, p);
      AcceptedAppends(AsWritten, e, r, FrameOf(e, p));
    }
  }
}
