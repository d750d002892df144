/** The four-byte MCTP transport header of section 8.1 of DSP0236, with the endpoint-ID and
    sequence-number conversions it is built from. */
module TransportHeader {
  import opened Wrappers
  import opened BufferEncoding

  type Bit = x: int | 0 <= x < 2
  type Nibble = x: int | 0 <= x < 16
  type MessageTag = x: int | 0 <= x < 8

  type SequenceNumber = x: int | 0 <= x < 4

  function NextSequence(s: SequenceNumber): SequenceNumber {
    (s + 1) % 4
  }

  datatype EndpointId = Null | Broadcast | Id(value: U8)

  function EndpointToBits(e: EndpointId): U8 {
    match e
    case Null => 0x00
    case Broadcast => 0xFF
    case Id(v) => v
  }

  function EndpointFromBits(bits: U8): Option<EndpointId> {
    if bits == 0x00 then Some(Null)
    else if bits == 0xFF then Some(Broadcast)
    else if 0x08 <= bits then Some(Id(bits))
    else None
  }

  /** The endpoint IDs that a header can carry: `Id` may hold any byte, but 0, 0xFF and the
      reserved values 1 to 7 do not come back as the same `Id`. */
  predicate Canonical(e: EndpointId) {
    e.Id? ==> 0x08 <= e.value < 0xFF
  }

  datatype Header = Header(
    reserved: Nibble, version: Nibble,
    destination: EndpointId, source: EndpointId,
    som: Bit, eom: Bit, sequence: SequenceNumber, tagOwner: Bit, tag: MessageTag)

  /** The big-endian bytes of the 32-bit register. */
  function HeaderBytes(h: Header): (r: seq<U8>)
    ensures |r| == 4
  {
    [h.reserved * 16 + h.version, EndpointToBits(h.destination), EndpointToBits(h.source),
     h.som * 128 + h.eom * 64 + h.sequence * 16 + h.tagOwner * 8 + h.tag]
  }

  function ParseHeader(bytes: seq<U8>): Option<Header>
    requires |bytes| == 4
  {
    match (EndpointFromBits(bytes[1]), EndpointFromBits(bytes[2]))
    case (Some(destination), Some(source)) =>
      Some(Header(bytes[0] / 16, bytes[0] % 16, destination, source,
                  bytes[3] / 128, bytes[3] / 64 % 2, bytes[3] / 16 % 4, bytes[3] / 8 % 2, bytes[3] % 8))
    case _ => None
  }

  lemma {:induction false} EndpointRoundTrip(e: EndpointId)
    ensures EndpointFromBits(EndpointToBits(e)) == Some(e) <==> Canonical(e)
  {
  }

  /** Parsing the bytes of a header gives that header back exactly when both endpoint IDs are
      canonical. */
  lemma {:induction false} HeaderRoundTrip(h: Header)
    ensures ParseHeader(HeaderBytes(h)) == Some(h) <==> Canonical(h.destination) && Canonical(h.source)
  {
    EndpointRoundTrip(h.destination);
    EndpointRoundTrip(h.source);
    var parsed := ParseHeader(HeaderBytes(h));
    if parsed.Some? {
      var p := parsed.value;
      assert p.reserved == h.reserved && p.version == h.version by {
        assert HeaderBytes(h)[0] == h.reserved * 16 + h.version;
      }
      assert p.som == h.som && p.eom == h.eom && p.sequence == h.sequence
             && p.tagOwner == h.tagOwner && p.tag == h.tag by {
        FlagsSplit(h.som, h.eom, h.sequence, h.tagOwner, h.tag);
      }
    }
  }

  lemma {:induction false} FlagsSplit(som: Bit, eom: Bit, sequence: SequenceNumber, tagOwner: Bit, tag: MessageTag)
    ensures var b := som * 128 + eom * 64 + sequence * 16 + tagOwner * 8 + tag;
            b / 128 == som && b / 64 % 2 == eom && b / 16 % 4 == sequence && b / 8 % 2 == tagOwner && b % 8 == tag
  {
    var b := som * 128 + eom * 64 + sequence * 16 + tagOwner * 8 + tag;
    assert b / 8 == som * 16 + eom * 8 + sequence * 2 + tagOwner;
    assert b / 16 == som * 8 + eom * 4 + sequence;
    assert b / 64 == som * 2 + eom;
  }

  /** No two byte strings parse to the same header, and every parsed header is canonical. */
  lemma {:induction false} ParsedHeaderReencodes(bytes: seq<U8>)
    requires |bytes| == 4 && ParseHeader(bytes).Some?
    ensures HeaderBytes(ParseHeader(bytes).value) == bytes
    ensures Canonical(ParseHeader(bytes).value.destination) && Canonical(ParseHeader(bytes).value.source)
  {
    var h := ParseHeader(bytes).value;
    FlagsReencode(bytes[3]);
    assert HeaderBytes(h)[0] == bytes[0];
    assert HeaderBytes(h)[3] == bytes[3];
  }

  lemma {:induction false} FlagsReencode(b: U8)
    ensures b / 128 * 128 + b / 64 % 2 * 64 + b / 16 % 4 * 16 + b / 8 % 2 * 8 + b % 8 == b
  {
  }

  /** Where the fields are, from the top bit of the first byte down: four reserved bits and the version, the
      two endpoint IDs, then start and end of message, the sequence number, the tag owner and the tag. */
  lemma {:induction false} HeaderInNumbers(h: Header)
    ensures var b := HeaderBytes(h);
      && b[0] / 0x10 == h.reserved && b[0] % 0x10 == h.version
      && b[1] == (if h.destination.Null? then 0 else if h.destination.Broadcast? then 0xFF else h.destination.value)
      && b[2] == (if h.source.Null? then 0 else if h.source.Broadcast? then 0xFF else h.source.value)
      && b[3] / 0x80 == h.som && b[3] / 0x40 % 2 == h.eom && b[3] / 0x10 % 4 == h.sequence
      && b[3] / 8 % 2 == h.tagOwner && b[3] % 8 == h.tag
  {
    FlagsSplit(h.som, h.eom, h.sequence, h.tagOwner, h.tag);
  }

  /** A header is unreadable exactly if one of its endpoint IDs is a reserved one. */
  lemma {:induction false} HeaderUnreadable(bytes: seq<U8>)
    requires |bytes| == 4
    ensures ParseHeader(bytes).None? <==> 1 <= bytes[1] <= 7 || 1 <= bytes[2] <= 7
  {
  }

  /** With the tag-owner bit clear the flags byte is never one of the two stuffed bytes, so the
      wire cost of a header does not depend on its flags. The endpoint IDs may be stuffed. */
  lemma {:induction false} HeaderCost(e: Encoding, h: Header)
    requires h.reserved == 0 && h.version == 1 && h.tagOwner == 0
    ensures WireSizeOf(e, HeaderBytes(h))
         == 2 + |EncodeByte(e, EndpointToBits(h.destination))| + |EncodeByte(e, EndpointToBits(h.source))|
  {
    var b := HeaderBytes(h);
    assert b[3] % 16 < 8;
    assert b == [b[0]] + ([b[1]] + ([b[2]] + [b[3]]));
    WireSizeAdditive(e, [b[0]], [b[1]] + ([b[2]] + [b[3]]));
    WireSizeAdditive(e, [b[1]], [b[2]] + [b[3]]);
    WireSizeAdditive(e, [b[2]], [b[3]]);
    EncodeOne(e, b[0]);
    EncodeOne(e, b[1]);
    EncodeOne(e, b[2]);
    EncodeOne(e, b[3]);
  }
}
