/** The DSP0253 serial medium (`mctp-rs/src/medium/serial.rs`): a revision byte, the decoded body
    length, the stuffed body, the stuffed frame check sequence and an end flag. The results hold for any
    checksum, a function from bytes to 16-bit values; the medium's own is `FrameCheck.X25`. */
module SerialFraming {
  import opened Wrappers
  import opened BufferEncoding
  import opened FrameCheck
  import opened Fragmentation
  import opened Reassembly
  import opened Sequences

  const REVISION: U8 := 0x01
  const MTU := SERIAL.maxBody
  const LEAD := SERIAL.lead
  const TRAIL := SERIAL.trail

  datatype FrameError =
    | TooShort
    | UnsupportedRevision
    | CountExceedsMtu
    | PrematureEndInBody
    | InvalidEscapeInBody
    | FlagInBody
    | BadFcsEncoding
    | MissingEndFlag
    | TrailingBytes
    | FcsMismatch

  function FcsBytes(crc: seq<U8> -> U16, body: seq<U8>): (r: seq<U8>)
    requires |body| <= MTU
    ensures |r| == 2
  {
    var fcs := crc([REVISION, |body|] + body);
    [fcs / 256, fcs % 256]
  }

  /** The frame of a decoded body. */
  function FrameBytes(crc: seq<U8> -> U16, body: seq<U8>): seq<U8>
    requires |body| <= MTU
  {
    [REVISION, |body|] + (EncodeAll(Serial, body) + (EncodeAll(Serial, FcsBytes(crc, body)) + [FLAG]))
  }

  /** Read one body byte; a flag that is not escaped is refused here and nowhere else. */
  function ReadBodyByte(wire: seq<U8>): (r: Result<(U8, nat), FrameError>)
    ensures r.Ok? ==> 1 <= r.value.1 <= |wire|
  {
    match ReadByte(Serial, wire)
    case Err(PrematureEnd) => Err(PrematureEndInBody)
    case Err(InvalidEscape) => Err(InvalidEscapeInBody)
    case Ok((b, k)) => if b == FLAG && k == 1 then Err(FlagInBody) else Ok((b, k))
  }

  /** The first `n` decoded body bytes and the wire bytes they take. */
  function ReadBody(wire: seq<U8>, n: nat): (r: Result<(seq<U8>, nat), FrameError>)
    ensures r.Ok? ==> |r.value.0| == n && r.value.1 <= |wire|
  {
    if n == 0 then Ok(([], 0))
    else match ReadBody(wire, n - 1)
      case Err(x) => Err(x)
      case Ok((bytes, used)) =>
        match ReadBodyByte(wire[used..])
        case Err(x) => Err(x)
        case Ok((b, k)) => Ok((bytes + [b], used + k))
  }

  /** The checks behind the body: two stuffed check bytes, the end flag, nothing else, and the right
      checksum. */
  function CheckTrailer(crc: seq<U8> -> U16, body: seq<U8>, rest: seq<U8>): Option<FrameError>
    requires |body| <= MTU
  {
    var d := DecodeUpTo(Serial, rest, 2);
    if d.error.Some? then Some(BadFcsEncoding)
    else if d.used >= |rest| || rest[d.used] != FLAG then Some(MissingEndFlag)
    else if d.used + 1 != |rest| then Some(TrailingBytes)
    else if d.bytes != FcsBytes(crc, body) then Some(FcsMismatch)
    else None
  }

  /** `deserialize`: the frame's decoded size and stuffed body region. */
  function Deserialize(crc: seq<U8> -> U16, packet: seq<U8>): Result<Frame, FrameError>
  {
    if |packet| < LEAD + 3 then Err(TooShort)
    else if packet[0] != REVISION then Err(UnsupportedRevision)
    else if packet[1] > MTU then Err(CountExceedsMtu)
    else match ReadBody(packet[LEAD..], packet[1])
      case Err(x) => Err(x)
      case Ok((body, used)) =>
        match CheckTrailer(crc, body, packet[LEAD + used..])
        case Some(x) => Err(x)
        case None => Ok(Frame(packet[1], packet[LEAD..LEAD + used]))
  }

  /** `frame_complete`: the length of the frame at the start of a byte stream, if it is all there. A
      leading flag is skipped; the first flag after it is taken for the end of the frame. */
  function FrameComplete(buf: seq<U8>): (r: Option<nat>)
    ensures r.Some? ==> 0 < r.value <= |buf| && buf[r.value - 1] == FLAG
  {
    if buf == [] then None
    else
      var start := if buf[0] == FLAG then 1 else 0;
      match FirstFlag(buf[start..])
      case None => None
      case Some(i) => Some(start + i + 1)
  }

  function FirstFlag(buf: seq<U8>): (r: Option<nat>)
    ensures r.Some? ==> r.value < |buf| && buf[r.value] == FLAG && forall k | 0 <= k < r.value :: buf[k] != FLAG
    ensures r.None? ==> FLAG !in buf
  {
    if buf == [] then None
    else if buf[0] == FLAG then Some(0)
    else match FirstFlag(buf[1..])
      case None => None
      case Some(i) => Some(i + 1)
  }

  /** Why a packet's head is refused, in this order; the reader of a line skips one leading flag and takes the
      next for the end. */
  lemma {:induction false} HeadRefused(crc: seq<U8> -> U16, packet: seq<U8>)
    ensures Deserialize(crc, packet) == Err(TooShort) <==> |packet| < 5
    ensures Deserialize(crc, packet) == Err(UnsupportedRevision) <==> |packet| >= 5 && packet[0] != 1
    ensures Deserialize(crc, packet) == Err(CountExceedsMtu) <==> |packet| >= 5 && packet[0] == 1 && packet[1] > 251
    ensures FrameComplete([FLAG] + packet) == match FirstFlag(packet) case None => None case Some(i) => Some(i + 2)
    ensures packet != [] && packet[0] != FLAG ==>
              FrameComplete(packet) == match FirstFlag(packet) case None => None case Some(i) => Some(i + 1)
  {
    hide ReadBody, CheckTrailer, FirstFlag;
    BodyErrors(packet[if |packet| < LEAD then 0 else LEAD..], if |packet| < 2 then 0 else packet[1]);
    assert ([FLAG] + packet)[1..] == packet;
    assert packet != [] ==> packet[0..] == packet;
    if |packet| >= 5 && packet[0] == 1 && packet[1] <= 251 {
      var read := ReadBody(packet[LEAD..], packet[1]);
      if read.Ok? {
        TrailerErrors(crc, read.value.0, packet[LEAD + read.value.1..]);
      }
    }
  }

  /** Why a body cannot be read: a bare flag before anything else that is wrong, or else the wire ending, or a
      bad escape. */
  lemma {:induction false} BodyRefused(wire: seq<U8>, n: nat)
    ensures var d, r := DecodeUpTo(Serial, wire, n), ReadBody(wire, n);
      if FLAG in wire[..d.used] then r == Err(FlagInBody)
      else match d.error
        case Some(PrematureEnd) => r == Err(PrematureEndInBody)
        case Some(InvalidEscape) => r == Err(InvalidEscapeInBody)
        case None => r == Ok((d.bytes, d.used))
  {
    hide ReadByte, ReadBodyByte;
    if n > 0 {
      BodyRefused(wire, n - 1);
      var p, d := DecodeUpTo(Serial, wire, n - 1), DecodeUpTo(Serial, wire, n);
      assert wire[..d.used] == wire[..p.used] + wire[p.used..][..d.used - p.used];
      ByteRefused(wire[p.used..]);
    }
  }

  lemma {:induction false} ByteRefused(wire: seq<U8>)
    ensures match ReadByte(Serial, wire)
      case Err(PrematureEnd) => ReadBodyByte(wire) == Err(PrematureEndInBody)
      case Err(InvalidEscape) => ReadBodyByte(wire) == Err(InvalidEscapeInBody)
      case Ok((b, k)) => ReadBodyByte(wire) == if FLAG in wire[..k] then Err(FlagInBody) else Ok((b, k))
  {
  }

  lemma {:induction false} BodyErrors(wire: seq<U8>, n: nat)
    ensures ReadBody(wire, n).Err? ==>
      ReadBody(wire, n).error in {PrematureEndInBody, InvalidEscapeInBody, FlagInBody}
  {
    if n > 0 {
      BodyErrors(wire, n - 1);
    }
  }

  /** What is wrong behind a body: first its check bytes, then the flag behind them, then what follows, then
      their value. */
  lemma {:induction false} TrailerErrors(crc: seq<U8> -> U16, body: seq<U8>, rest: seq<U8>)
    requires |body| <= MTU
    ensures var d, x := DecodeUpTo(Serial, rest, 2), CheckTrailer(crc, body, rest);
      && (x == Some(BadFcsEncoding) <==> d.error.Some?)
      && (x == Some(MissingEndFlag) <==> d.error.None? && (d.used == |rest| || rest[d.used] != FLAG))
      && (x == Some(TrailingBytes) <==> d.error.None? && d.used + 1 < |rest| && rest[d.used] == FLAG)
      && (x == Some(FcsMismatch) <==>
            d.error.None? && rest[d.used..] == [FLAG] && d.bytes != FcsBytes(crc, body))
      && (x.None? <==> d.error.None? && rest[d.used..] == [FLAG] && d.bytes == FcsBytes(crc, body))
  {
    hide DecodeUpTo, FcsBytes;
    var d := DecodeUpTo(Serial, rest, 2);
    assert d.used + 1 == |rest| ==> rest[d.used..] == [rest[d.used]];
  }

  // ---------------------------------------------------------------- round trip

  /** Reading a body is decoding it, with bare flags refused. */
  lemma {:induction false} ReadBodyIsDecode(wire: seq<U8>, n: nat)
    ensures ReadBody(wire, n).Ok? <==>
              DecodeUpTo(Serial, wire, n).error.None? && FLAG !in wire[..DecodeUpTo(Serial, wire, n).used]
    ensures ReadBody(wire, n).Ok? ==>
              ReadBody(wire, n).value == (DecodeUpTo(Serial, wire, n).bytes, DecodeUpTo(Serial, wire, n).used)
  {
    hide ReadByte, ReadBodyByte;
    if n > 0 {
      ReadBodyIsDecode(wire, n - 1);
      var p, d := DecodeUpTo(Serial, wire, n - 1), DecodeUpTo(Serial, wire, n);
      assert wire[..p.used] <= wire[..d.used];
      ReadBodyByteRefusesFlag(wire[p.used..]);
      if p.error.None? && d.error.None? {
        assert wire[..d.used] == wire[..p.used] + wire[p.used..][..d.used - p.used];
      }
    }
  }

  lemma {:induction false} ReadBodyByteRefusesFlag(wire: seq<U8>)
    ensures ReadBodyByte(wire).Ok? <==>
              ReadByte(Serial, wire).Ok? && FLAG !in wire[..ReadByte(Serial, wire).value.1]
    ensures ReadBodyByte(wire).Ok? ==> ReadBodyByte(wire).value == ReadByte(Serial, wire).value
  {
  }

  lemma {:induction false} ReadBodyInvertsEncode(body: seq<U8>, rest: seq<U8>)
    ensures ReadBody(EncodeAll(Serial, body) + rest, |body|) == Ok((body, |EncodeAll(Serial, body)|))
  {
    hide DecodeUpTo, EncodeAll, ReadBody;
    var wire := EncodeAll(Serial, body);
    DecodeInvertsEncode(Serial, body, rest);
    StuffedHasNoFlag(body);
    assert (wire + rest)[..|wire|] == wire;
    ReadBodyIsDecode(wire + rest, |body|);
  }

  lemma {:induction false} TrailerAccepted(crc: seq<U8> -> U16, body: seq<U8>)
    requires |body| <= MTU
    ensures CheckTrailer(crc, body, EncodeAll(Serial, FcsBytes(crc, body)) + [FLAG]) == None
  {
    hide DecodeUpTo, EncodeAll, FcsBytes;
    DecodeInvertsEncode(Serial, FcsBytes(crc, body), [FLAG]);
  }

  lemma {:induction false} DeserializeParts(crc: seq<U8> -> U16, body: seq<U8>, wire: seq<U8>, rest: seq<U8>)
    requires |body| <= MTU && |rest| >= 3
    requires ReadBody(wire + rest, |body|) == Ok((body, |wire|))
    requires CheckTrailer(crc, body, rest) == None
    ensures Deserialize(crc, [REVISION, |body|] + (wire + rest)) == Ok(Frame(|body|, wire))
  {
    hide ReadBody, CheckTrailer;
    CutAt([REVISION, |body|], wire, rest);
  }

  lemma {:induction false} CutAt(lead: seq<U8>, wire: seq<U8>, rest: seq<U8>)
    requires |lead| == LEAD
    ensures var packet := lead + (wire + rest);
            && |packet| == LEAD + |wire| + |rest| && packet[0] == lead[0] && packet[1] == lead[1]
            && packet[LEAD..] == wire + rest && packet[LEAD + |wire|..] == rest
            && packet[LEAD..LEAD + |wire|] == wire
  {
  }

  /** Any body that the byte count admits comes back: the medium reports its decoded length and
      hands over exactly the stuffed bytes. */
  lemma {:induction false} FrameRoundTrip(crc: seq<U8> -> U16, body: seq<U8>)
    requires |body| <= MTU
    ensures Deserialize(crc, FrameBytes(crc, body)) == Ok(Frame(|body|, EncodeAll(Serial, body)))
  {
    hide EncodeAll, ReadBody, CheckTrailer, FcsBytes, Deserialize;
    var check := EncodeAll(Serial, FcsBytes(crc, body));
    WireSizeIsWireLength(Serial, FcsBytes(crc, body));
    WireSizeBounds(Serial, FcsBytes(crc, body));
    ReadBodyInvertsEncode(body, check + [FLAG]);
    TrailerAccepted(crc, body);
    DeserializeParts(crc, body, EncodeAll(Serial, body), check + [FLAG]);
  }

  /** The parts of an accepted packet. */
  lemma {:induction false} AcceptedFrame(crc: seq<U8> -> U16, packet: seq<U8>)
    returns (body: seq<U8>, used: nat, check: nat)
    requires Deserialize(crc, packet).Ok?
    ensures |body| <= MTU && LEAD + used + check + 1 == |packet|
    ensures packet[0] == REVISION && packet[1] == |body| && packet[|packet| - 1] == FLAG
    ensures DecodeUpTo(Serial, packet[LEAD..], |body|) == Decoded(body, used, None)
    ensures FLAG !in packet[LEAD..LEAD + used]
    ensures DecodeUpTo(Serial, packet[LEAD + used..], 2) == Decoded(FcsBytes(crc, body), check, None)
  {
    hide DecodeUpTo, ReadBody;
    ReadBodyIsDecode(packet[LEAD..], packet[1]);
    var read := ReadBody(packet[LEAD..], packet[1]).value;
    body, used := read.0, read.1;
    check := DecodeUpTo(Serial, packet[LEAD + used..], 2).used;
    assert packet[LEAD..][..used] == packet[LEAD..LEAD + used];
  }

  /** Conversely, an accepted packet is the frame of the body it carries, byte for byte, exactly if there is
      no bare flag between its head and its end. The parser refuses one in the body, so that is to say
      unless a check byte was sent as one. */
  lemma {:induction false} AcceptedIsFrame(crc: seq<U8> -> U16, packet: seq<U8>)
    requires Deserialize(crc, packet).Ok?
    ensures var f := Deserialize(crc, packet).value;
            var body := DecodeUpTo(Serial, f.wire, f.packetSize).bytes;
            && |body| == f.packetSize <= MTU
            && (packet == FrameBytes(crc, body) <==> FLAG !in packet[LEAD..|packet| - 1])
  {
    hide DecodeUpTo, EncodeAll, ReadBody, Deserialize, FcsBytes;
    var f := Deserialize(crc, packet).value;
    var body, used, check := AcceptedFrame(crc, packet);
    AcceptedRegion(crc, packet, used);
    var rest := packet[LEAD + used..];
    EncodeInvertsDecode(packet[LEAD..], |body|);
    EncodeInvertsDecode(rest, 2);
    assert packet[LEAD..][..used] == f.wire && rest[..check] == packet[LEAD + used..|packet| - 1];
    assert packet[LEAD..|packet| - 1] == f.wire + rest[..check];
    DecodeOwnRegion(packet[LEAD..], |body|);
    assert packet == [REVISION, |body|] + f.wire + rest[..check] + [FLAG];
    var frame := FrameBytes(crc, body);
    assert frame == [REVISION, |body|] + f.wire + EncodeAll(Serial, FcsBytes(crc, body)) + [FLAG];
    if packet == frame {
      assert rest[..check] + [FLAG] == packet[LEAD + used..];
      assert packet[LEAD + used..] == EncodeAll(Serial, FcsBytes(crc, body)) + [FLAG];
      assert rest[..check] == EncodeAll(Serial, FcsBytes(crc, body));
    }
  }

  /** The packet of a body whose check bytes are sent without stuffing. */
  function BareCheckPacket(crc: seq<U8> -> U16, body: seq<U8>): seq<U8>
    requires |body| <= MTU
  {
    [REVISION, |body|] + (EncodeAll(Serial, body) + (FcsBytes(crc, body) + [FLAG]))
  }

  /** Such a packet is accepted for every body whose checksum has a flag in it and no escape, and it is not
      the frame of the body. */
  lemma {:induction false} BareCheckByteAccepted(crc: seq<U8> -> U16, body: seq<U8>)
    requires |body| <= MTU && FLAG in FcsBytes(crc, body) && ESCAPE !in FcsBytes(crc, body)
    ensures Deserialize(crc, BareCheckPacket(crc, body)) == Ok(Frame(|body|, EncodeAll(Serial, body)))
    ensures BareCheckPacket(crc, body) != FrameBytes(crc, body)
  {
    hide EncodeAll, FcsBytes, Deserialize, ReadBody;
    var wire, check := EncodeAll(Serial, body), FcsBytes(crc, body);
    ReadBodyInvertsEncode(body, check + [FLAG]);
    BareCheckRead(crc, body);
    DeserializeParts(crc, body, wire, check + [FLAG]);
    var i :| 0 <= i < 2 && check[i] == FLAG;
    var packet := BareCheckPacket(crc, body);
    var at := LEAD + |wire| + i;
    assert packet[at] == FLAG && at < |packet| - 1 && at != 1;
    if packet == FrameBytes(crc, body) {
      FlagsOfFrame(crc, body, at);
      assert false;
    }
  }

  lemma {:induction false} BareCheckRead(crc: seq<U8> -> U16, body: seq<U8>)
    requires |body| <= MTU && ESCAPE !in FcsBytes(crc, body)
    ensures CheckTrailer(crc, body, FcsBytes(crc, body) + [FLAG]) == None
  {
    hide FcsBytes;
    var check := FcsBytes(crc, body);
    var rest := check + [FLAG];
    assert check[0] in check && check[1] in check;
    assert ReadByte(Serial, rest) == Ok((check[0], 1));
    assert rest[1..][0] == check[1] && ReadByte(Serial, rest[1..]) == Ok((check[1], 1));
    assert rest[0..] == rest;
    assert DecodeUpTo(Serial, rest, 0) == Decoded([], 0, None);
    assert DecodeUpTo(Serial, rest, 1) == Decoded([check[0]], 1, None);
    assert DecodeUpTo(Serial, rest, 2) == Decoded([check[0], check[1]], 2, None);
    assert check == [check[0], check[1]];
  }

  /** With the checksum that the medium uses there is such a body: the single byte 0x3C. */
  lemma {:induction false} BareCheckByteExists()
    ensures var packet := [0x01, 0x01, 0x3C, 0x7E, 0x27, 0x7E];
            Deserialize(X25, packet) == Ok(Frame(1, [0x3C])) && packet != FrameBytes(X25, [0x3C])
  {
    hide X25, Deserialize;
    var body: seq<U8> := [0x3C];
    FlagInCheck();
    assert [REVISION, |body|] + body == [0x01, 0x01, 0x3C];
    assert FcsBytes(X25, body) == [0x7E, 0x27];
    EncodeOne(Serial, 0x3C);
    BareCheckByteAccepted(X25, body);
    assert BareCheckPacket(X25, body) == [0x01, 0x01, 0x3C, 0x7E, 0x27, 0x7E];
  }

  lemma {:induction false} OtherCheckBytes(crc: seq<U8> -> U16, body: seq<U8>, other: seq<U8>)
    requires |body| <= MTU && |other| <= MTU
    requires crc([REVISION, |body|] + body) != crc([REVISION, |other|] + other)
    ensures FcsBytes(crc, body) != FcsBytes(crc, other)
  {
    var a, b := crc([REVISION, |body|] + body), crc([REVISION, |other|] + other);
    assert a == a / 256 * 256 + a % 256 && b == b / 256 * 256 + b % 256;
  }

  /** A packet whose body was damaged on the way, in one byte or in two neighbouring ones, is refused for its
      checksum. */
  lemma {:induction false} DamagedBodyRefused(front: seq<U8>, x: seq<U8>, y: seq<U8>, rest: seq<U8>)
    requires |front| + |x| + |rest| <= MTU && |x| == |y| <= 2 && x != y
    ensures var sent, got := front + x + rest, front + y + rest;
      var check := EncodeAll(Serial, FcsBytes(X25, sent)) + [FLAG];
      Deserialize(X25, [REVISION, |got|] + (EncodeAll(Serial, got) + check)) == Err(FcsMismatch)
  {
    hide X25, EncodeAll, DecodeUpTo, ReadBody, FcsBytes;
    var sent, got := front + x + rest, front + y + rest;
    var wire, check := EncodeAll(Serial, got), EncodeAll(Serial, FcsBytes(X25, sent)) + [FLAG];
    var lead := [REVISION, |got|];
    DamageDetected(lead + front, x, y, rest);
    assert lead + got == lead + front + y + rest && lead + sent == lead + front + x + rest;
    OtherCheckBytes(X25, sent, got);
    ReadBodyInvertsEncode(got, check);
    DecodeInvertsEncode(Serial, FcsBytes(X25, sent), [FLAG]);
    WireSizeIsWireLength(Serial, FcsBytes(X25, sent));
    WireSizeBounds(Serial, FcsBytes(X25, sent));
    CutAt(lead, wire, check);
  }

  lemma {:induction false} AcceptedRegion(crc: seq<U8> -> U16, packet: seq<U8>, used: nat)
    requires Deserialize(crc, packet).Ok?
    requires used == DecodeUpTo(Serial, packet[LEAD..], packet[1]).used
    ensures LEAD + used <= |packet|
    ensures Deserialize(crc, packet).value == Frame(packet[1], packet[LEAD..LEAD + used])
  {
    hide DecodeUpTo, ReadBody;
    ReadBodyIsDecode(packet[LEAD..], packet[1]);
  }

  /** Decoding looks at nothing behind the bytes it uses. */
  lemma {:induction false} DecodeOwnRegion(wire: seq<U8>, n: nat)
    requires DecodeUpTo(Serial, wire, n).error.None?
    ensures var d := DecodeUpTo(Serial, wire, n);
            forall m: nat | d.used <= m <= |wire| :: DecodeUpTo(Serial, wire[..m], n) == d
  {
    if n > 0 {
      var d, p := DecodeUpTo(Serial, wire, n), DecodeUpTo(Serial, wire, n - 1);
      DecodeOwnRegion(wire, n - 1);
      forall m: nat | d.used <= m <= |wire|
        ensures DecodeUpTo(Serial, wire[..m], n) == d
      {
        assert wire[..m][p.used..] == wire[p.used..][..m - p.used];
        ReadByteOwnRegion(wire[p.used..], m - p.used);
      }
    }
  }

  lemma {:induction false} ReadByteOwnRegion(wire: seq<U8>, m: nat)
    requires ReadByte(Serial, wire).Ok? && ReadByte(Serial, wire).value.1 <= m <= |wire|
    ensures ReadByte(Serial, wire[..m]) == ReadByte(Serial, wire)
  {
  }

  // ---------------------------------------------------------------- finding the end of a frame

  /** Where the flags of a frame are: its last byte and, for bodies of 0x7E bytes, its count. */
  lemma {:induction false} FlagsOfFrame(crc: seq<U8> -> U16, body: seq<U8>, k: nat)
    requires |body| <= MTU && k < |FrameBytes(crc, body)|
    ensures FrameBytes(crc, body)[k] == FLAG <==> k == |FrameBytes(crc, body)| - 1 || (k == 1 && |body| == 0x7E)
  {
    hide EncodeAll, FcsBytes;
    StuffedHasNoFlag(body);
    StuffedHasNoFlag(FcsBytes(crc, body));
    var frame := FrameBytes(crc, body);
    var wire, check := EncodeAll(Serial, body), EncodeAll(Serial, FcsBytes(crc, body));
    if LEAD <= k < LEAD + |wire| {
      assert frame[k] == wire[k - LEAD];
    } else if LEAD + |wire| <= k < |frame| - 1 {
      assert frame[k] == check[k - LEAD - |wire|];
    }
  }

  lemma {:induction false} FirstFlagIs(buf: seq<U8>, i: nat)
    requires i < |buf| && buf[i] == FLAG && forall k | 0 <= k < i :: buf[k] != FLAG
    ensures FirstFlag(buf) == Some(i)
  {
    assert FLAG in buf;
  }

  /** How much of a line beginning with a frame has to be there until an end is found. */
  function EndFound(crc: seq<U8> -> U16, body: seq<U8>): nat
    requires |body| <= MTU
  {
    if |body| == 0x7E then 2 else |FrameBytes(crc, body)|
  }

  /** Of any line that begins with a frame, however much of it is there: the end is found as soon as it
      has come, and not before. */
  lemma {:induction false} EndFoundInTime(crc: seq<U8> -> U16, body: seq<U8>, following: seq<U8>, k: nat)
    requires |body| <= MTU && k <= |FrameBytes(crc, body) + following|
    ensures FrameComplete((FrameBytes(crc, body) + following)[..k])
         == if EndFound(crc, body) <= k then Some(EndFound(crc, body)) else None
  {
    hide FrameBytes;
    var frame, end := FrameBytes(crc, body), EndFound(crc, body);
    var part := (frame + following)[..k];
    FrameNotEmpty(crc, body);
    assert part[0..] == part;
    forall i | 0 <= i < k && i < end
      ensures part[i] == FLAG <==> i == end - 1
    {
      FlagsOfFrame(crc, body, i);
    }
    if end <= k {
      FirstFlagIs(part, end - 1);
    }
  }

  /** So on a frame, whatever follows it in the stream, its length is found exactly when the body does not
      have 0x7E bytes; then the unstuffed byte count looks like the end flag. */
  lemma {:induction false} FrameCompleteFindsEnd(crc: seq<U8> -> U16, body: seq<U8>, following: seq<U8>)
    requires |body| <= MTU
    ensures FrameComplete(FrameBytes(crc, body) + following)
         == Some(if |body| == 0x7E then 2 else |FrameBytes(crc, body)|)
  {
    hide FrameBytes;
    var line := FrameBytes(crc, body) + following;
    FrameNotEmpty(crc, body);
    EndFoundInTime(crc, body, following, |line|);
    assert line[..|line|] == line;
  }

  /** And while the frame is still arriving the answer is "not yet", with the same exception. */
  lemma {:induction false} FrameIncomplete(crc: seq<U8> -> U16, body: seq<U8>, n: nat)
    requires |body| <= MTU && n < |FrameBytes(crc, body)|
    ensures FrameComplete(FrameBytes(crc, body)[..n]) == None <==> |body| != 0x7E || n < 2
  {
    hide FrameBytes;
    EndFoundInTime(crc, body, [], n);
    assert FrameBytes(crc, body) + [] == FrameBytes(crc, body);
  }

  lemma {:induction false} FrameNotEmpty(crc: seq<U8> -> U16, body: seq<U8>)
    requires |body| <= MTU
    ensures |FrameBytes(crc, body)| > 2 && FrameBytes(crc, body)[0] == REVISION
  {
    hide EncodeAll;
  }

  /** A caller that cuts with `frame_complete` cannot meet them: what it cuts off and the parser accepts is
      the frame of its body, byte for byte. */
  lemma {:induction false} CutPacketIsFrame(crc: seq<U8> -> U16, buf: seq<U8>, n: nat)
    requires FrameComplete(buf) == Some(n) && Deserialize(crc, buf[..n]).Ok?
    ensures var f := Deserialize(crc, buf[..n]).value;
            var body := DecodeUpTo(Serial, f.wire, f.packetSize).bytes;
            |body| == f.packetSize <= MTU && buf[..n] == FrameBytes(crc, body)
  {
    hide DecodeUpTo, EncodeAll, ReadBody, FcsBytes, CheckTrailer;
    var packet := buf[..n];
    assert packet[0] == REVISION;
    assert buf[0..] == buf;
    AcceptedIsFrame(crc, packet);
  }

  // ---------------------------------------------------------------- framing in place

  datatype SerializeError = BodyExceedsMtu | RedecodeFailed

  lemma {:induction false} RestOfWire(body: seq<U8>, k: nat)
    requires k < |body|
    ensures EncodeAll(Serial, body)
         == EncodeAll(Serial, body[..k]) + (EncodeByte(Serial, body[k]) + EncodeAll(Serial, body[k + 1..]))
    ensures EncodeAll(Serial, body[..k + 1]) == EncodeAll(Serial, body[..k]) + EncodeByte(Serial, body[k])
  {
    hide EncodeAll, EncodeByte;
    assert body == body[..k] + ([body[k]] + body[k + 1..]) && body[..k + 1] == body[..k] + [body[k]];
    EncodeOne(Serial, body[k]);
    EncodeAllAppend(Serial, body[..k], [body[k]] + body[k + 1..]);
    EncodeAllAppend(Serial, [body[k]], body[k + 1..]);
    EncodeAllAppend(Serial, body[..k], [body[k]]);
  }

  /** The wire bytes read so far are all there are exactly when the body is complete. */
  lemma {:induction false} WireEndsWithBody(body: seq<U8>, k: nat)
    requires k <= |body|
    ensures |EncodeAll(Serial, body[..k])| <= |EncodeAll(Serial, body)|
    ensures |EncodeAll(Serial, body[..k])| == |EncodeAll(Serial, body)| <==> k == |body|
  {
    hide EncodeAll;
    assert body == body[..k] + body[k..];
    EncodeAllAppend(Serial, body[..k], body[k..]);
    WireSizeIsWireLength(Serial, body[k..]);
    WireSizeBounds(Serial, body[k..]);
  }

  /** The first half of what `serialize` does behind the writer: the stuffed region is read back to learn
      the body. */
  method Redecode(buffer: array<U8>, from: nat, to: nat, ghost body: seq<U8>)
    returns (r: Result<seq<U8>, SerializeError>)
    requires from <= to <= buffer.Length && buffer[from..to] == EncodeAll(Serial, body)
    ensures r == if |body| <= MTU then Ok(body) else Err(BodyExceedsMtu)
  {
    hide EncodeAll, EncodeByte, ReadByte;
    var decoded: seq<U8>, at := [], from;
    ghost var k := 0;
    assert body[..0] == [];
    WireEndsWithBody(body, 0);
    EncodeNothing();
    assert EncodeAll(Serial, body[..0]) == [];
    while at < to
      invariant k <= |body| && k <= MTU && decoded == body[..k]
      invariant from <= at <= to && at - from == |EncodeAll(Serial, body[..k])|
    {
      WireEndsWithBody(body, k);
      RestOfWire(body, k);
      WireEndsWithBody(body, k + 1);
      ReadByteInvertsEncodeByte(Serial, body[k], EncodeAll(Serial, body[k + 1..]));
      assert buffer[at..to] == buffer[from..to][at - from..];
      var b := ReadByte(Serial, buffer[at..to]);
      if b.Err? {
        assert false;
        return Err(RedecodeFailed);
      }
      if |decoded| >= MTU {
        return Err(BodyExceedsMtu);
      }
      decoded := decoded + [b.value.0];
      at := at + b.value.1;
      k := k + 1;
    }
    WireEndsWithBody(body, k);
    assert body[..k] == body;
    return Ok(decoded);
  }

  lemma {:induction false} EncodeNothing()
    ensures EncodeAll(Serial, []) == []
  {
  }

  /** Head and trailer written around a stuffed region that is in place. */
  lemma {:induction false} FramedInPlace(was: seq<U8>, from: nat, head: seq<U8>, wire: seq<U8>, trailer: seq<U8>)
    requires from + |head| + |wire| + |trailer| <= |was|
    requires was[from + |head|..from + |head| + |wire|] == wire
    ensures Overwrite(Overwrite(was, from, head), from + |head| + |wire|, trailer)
            == Overwrite(was, from, head + (wire + trailer))
  {
    hide Overwrite;
    OverwriteBefore(was, from, head, wire);
    OverwriteTwice(was, from, head + wire, trailer);
    assert (head + wire) + trailer == head + (wire + trailer);
  }

  /** The head of the frame, which is not stuffed. */
  method PutHead(buffer: array<U8>, from: nat, count: U8)
    requires from + LEAD <= buffer.Length
    modifies buffer
    ensures buffer[..] == Overwrite(old(buffer[..]), from, [REVISION, count])
  {
    buffer[from] := REVISION;
    buffer[from + 1] := count;
  }

  /** The stuffed check bytes and the end flag. With the room set aside for them they cannot fail. */
  method PutTrailer(buffer: array<U8>, at: nat, check: seq<U8>) returns (end: nat)
    requires |check| == 2 && at + TRAIL <= buffer.Length
    modifies buffer
    ensures end == at + |EncodeAll(Serial, check)| + 1 <= buffer.Length
    ensures buffer[..] == Overwrite(old(buffer[..]), at, EncodeAll(Serial, check) + [FLAG])
  {
    hide EncodeAll, EncodeByte;
    ghost var was := buffer[..];
    ghost var first, second := EncodeByte(Serial, check[0]), EncodeByte(Serial, check[1]);
    var msb := WriteByte(Serial, buffer, at, buffer.Length, check[0]);
    assert buffer[..] == Overwrite(was, at, first);
    var lsb := WriteByte(Serial, buffer, at + msb.value, buffer.Length, check[1]);
    OverwriteTwice(was, at, first, second);
    assert buffer[..] == Overwrite(was, at, first + second);
    buffer[at + msb.value + lsb.value] := FLAG;
    OverwriteTwice(was, at, first + second, [FLAG]);
    EncodeCheck(check);
    return at + msb.value + lsb.value + 1;
  }

  lemma {:induction false} EncodeCheck(check: seq<U8>)
    requires |check| == 2
    ensures EncodeAll(Serial, check) == EncodeByte(Serial, check[0]) + EncodeByte(Serial, check[1])
  {
    assert check == [check[0]] + [check[1]];
    EncodeAllAppend(Serial, [check[0]], [check[1]]);
    EncodeOne(Serial, check[0]);
    EncodeOne(Serial, check[1]);
  }

  /** What `serialize` does once the stuffed region of `buffer[from..]` is written: head and trailer are
      put around it, so that the frame of the body stands in the buffer. */
  method FinishFrame(crc: seq<U8> -> U16, buffer: array<U8>, from: nat, wireLen: nat, ghost body: seq<U8>)
    returns (r: Result<nat, SerializeError>)
    requires from + LEAD + wireLen + TRAIL <= buffer.Length
    requires buffer[from + LEAD..from + LEAD + wireLen] == EncodeAll(Serial, body)
    modifies buffer
    ensures |body| > MTU ==> r == Err(BodyExceedsMtu) && buffer[..] == old(buffer[..])
    ensures |body| <= MTU ==> r == Ok(|FrameBytes(crc, body)|) && from + r.value <= buffer.Length
                              && buffer[..] == Overwrite(old(buffer[..]), from, FrameBytes(crc, body))
  {
    hide EncodeAll, Overwrite, FcsBytes;
    ghost var was, wire := buffer[..], EncodeAll(Serial, body);
    var start := from + LEAD;
    var decoded := Redecode(buffer, start, start + wireLen, body);
    if decoded.Err? {
      return Err(decoded.error);
    }
    var check := FcsBytes(crc, decoded.value);
    PutHead(buffer, from, |decoded.value|);
    var end := PutTrailer(buffer, start + wireLen, check);
    FramedInPlace(was, from, [REVISION, |body|], wire, EncodeAll(Serial, check) + [FLAG]);
    return Ok(end - from);
  }

  /** The sender's `next` on the serial medium, framing included: the packet is in the buffer as it goes on
      the line. */
  method NextFrame(state: SerializePacketState, crc: seq<U8> -> U16) returns (r: Option<Result<seq<U8>, SendError>>)
    requires state.Valid() && state.medium == SERIAL
    modifies state, state.buffer
    ensures forall k | 0 <= k < state.start :: state.buffer[k] == old(state.buffer[k])
    ensures state.State() == NextPacket(old(state.State())).1
    ensures match NextPacket(old(state.State())).0
            case None => r == None
            case Some(Err(x)) => r == Some(Err(x))
            case Some(Ok(p)) =>
              && |PacketBytes(p)| <= MTU && r == Some(Ok(FrameBytes(crc, PacketBytes(p))))
              && state.start + |r.value.value| <= state.buffer.Length
              && state.buffer[state.start..state.start + |r.value.value|] == r.value.value
  {
    hide EncodeAll, NextPacket, FcsBytes;
    ghost var before := state.State();
    r := state.Next();
    if r.Some? && r.value.Ok? {
      ghost var body := PacketBytes(NextPacket(before).0.value.value);
      NextFits(before);
      WireSizeIsWireLength(Serial, body);
      WireSizeBounds(Serial, body);
      var framed := FinishFrame(crc, state.buffer, state.start, |r.value.value|, body);
      r := Some(Ok(state.buffer[state.start..state.start + framed.value]));
    }
  }
}
