/** The byte-stuffing layer of an MCTP medium (`mctp-rs/src/buffer_encoding.rs`) with its two
    instances: the pass-through encoding and the DSP0253 serial encoding, which replaces 0x7E by
    the pair 0x7D 0x5E and 0x7D by the pair 0x7D 0x5D (section 4.2 of RFC 1662). */
module BufferEncoding {
  import opened Wrappers

  datatype Encoding = Passthrough | Serial

  datatype EncodeError = BufferFull

  datatype DecodeError = PrematureEnd | InvalidEscape

  const FLAG: U8 := 0x7E
  const ESCAPE: U8 := 0x7D

  /** The wire bytes of one payload byte. */
  function EncodeByte(e: Encoding, b: U8): (r: seq<U8>)
    ensures 1 <= |r| <= 2
    ensures e.Passthrough? ==> |r| == 1
  {
    match e
    case Passthrough => [b]
    case Serial =>
      if b == FLAG then [ESCAPE, 0x5E] else if b == ESCAPE then [ESCAPE, 0x5D] else [b]
  }

  /** The wire bytes of a run of payload bytes. */
  function EncodeAll(e: Encoding, bytes: seq<U8>): seq<U8>
  {
    if bytes == [] then []
    else EncodeAll(e, bytes[..|bytes| - 1]) + EncodeByte(e, bytes[|bytes| - 1])
  }

  /** Each encoding declares its own sizing rule. */
  function WireSizeOf(e: Encoding, bytes: seq<U8>): nat
  {
    match e
    case Passthrough => |bytes|
    case Serial => StuffedSize(bytes)
  }

  function StuffedSize(bytes: seq<U8>): nat
  {
    if bytes == [] then 0
    else
      StuffedSize(bytes[..|bytes| - 1]) +
      if bytes[|bytes| - 1] == FLAG || bytes[|bytes| - 1] == ESCAPE then 2 else 1
  }

  /** Decode one payload byte from the start of `wire`: the byte and the wire bytes it took. */
  function ReadByte(e: Encoding, wire: seq<U8>): (r: Result<(U8, nat), DecodeError>)
    ensures r.Ok? ==> 1 <= r.value.1 <= |wire|
  {
    if wire == [] then Err(PrematureEnd)
    else if e.Serial? && wire[0] == ESCAPE then
      if |wire| == 1 then Err(PrematureEnd)
      else if wire[1] == 0x5E then Ok((FLAG, 2))
      else if wire[1] == 0x5D then Ok((ESCAPE, 2))
      else Err(InvalidEscape)
    else Ok((wire[0], 1))
  }

  /** What reading up to `n` payload bytes in order yields: the bytes read before the first error,
      the wire bytes they took, and that error. */
  datatype Decoded = Decoded(bytes: seq<U8>, used: nat, error: Option<DecodeError>)

  function DecodeUpTo(e: Encoding, wire: seq<U8>, n: nat): (d: Decoded)
    ensures |d.bytes| <= d.used <= |wire|
    ensures d.error.None? ==> |d.bytes| == n
    ensures d.error.Some? ==> |d.bytes| < n
  {
    if n == 0 then Decoded([], 0, None) else ReadNext(e, wire, DecodeUpTo(e, wire, n - 1))
  }

  function ReadNext(e: Encoding, wire: seq<U8>, d: Decoded): Decoded
    requires d.used <= |wire|
  {
    if d.error.Some? then d
    else match ReadByte(e, wire[d.used..])
      case Ok((b, k)) => Decoded(d.bytes + [b], d.used + k, None)
      case Err(x) => d.(error := Some(x))
  }

  // ---------------------------------------------------------------- laws of the encodings

  /** Stuffing puts 0x7D before a byte whose sixth bit it clears, for 0x7D and 0x7E alone; nothing else that
      starts with 0x7D can be read, and nothing but the end of the wire stops a read otherwise. */
  lemma {:induction false} StuffingInNumbers(b: U8, wire: seq<U8>)
    ensures EncodeByte(Serial, b) == if b == 0x7D || b == 0x7E then [0x7D, b - 0x20] else [b]
    ensures EncodeByte(Passthrough, b) == [b]
    ensures ReadByte(Serial, wire) == Err(PrematureEnd) <==> wire == [] || wire == [0x7D]
    ensures ReadByte(Serial, wire) == Err(InvalidEscape) <==>
              |wire| >= 2 && wire[0] == 0x7D && wire[1] != 0x5D && wire[1] != 0x5E
    ensures ReadByte(Passthrough, wire) == if wire == [] then Err(PrematureEnd) else Ok((wire[0], 1))
  {
  }

  /** `wire_size_of` is the length of what is written. */
  lemma {:induction false} WireSizeIsWireLength(e: Encoding, bytes: seq<U8>)
    ensures |EncodeAll(e, bytes)| == WireSizeOf(e, bytes)
  {
    if bytes == [] {
    } else {
      WireSizeIsWireLength(e, bytes[..|bytes| - 1]);
    }
  }

  lemma {:induction false} EncodeAllAppend(e: Encoding, a: seq<U8>, b: seq<U8>)
    ensures EncodeAll(e, a + b) == EncodeAll(e, a) + EncodeAll(e, b)
  {
    if b == [] {
      assert a + b == a;
    } else {
      var last := |b| - 1;
      assert (a + b)[..|a + b| - 1] == a + b[..last];
      EncodeAllAppend(e, a, b[..last]);
    }
  }

  /** Wire size is additive over concatenation: what the greedy chunking loop relies on. */
  lemma {:induction false} WireSizeAdditive(e: Encoding, a: seq<U8>, b: seq<U8>)
    ensures WireSizeOf(e, a + b) == WireSizeOf(e, a) + WireSizeOf(e, b)
  {
    EncodeAllAppend(e, a, b);
    WireSizeIsWireLength(e, a);
    WireSizeIsWireLength(e, b);
    WireSizeIsWireLength(e, a + b);
  }

  lemma {:induction false} EncodeOne(e: Encoding, b: U8)
    ensures EncodeAll(e, [b]) == EncodeByte(e, b)
    ensures WireSizeOf(e, [b]) == |EncodeByte(e, b)|
  {
    assert [b][..0] == [];
    WireSizeIsWireLength(e, [b]);
  }

  /** Every payload byte costs at least one wire byte, so no encoding shrinks. */
  lemma {:induction false} WireSizeBounds(e: Encoding, bytes: seq<U8>)
    ensures |bytes| <= WireSizeOf(e, bytes) <= 2 * |bytes|
  {
    if bytes != [] {
      WireSizeBounds(e, bytes[..|bytes| - 1]);
    }
  }

  lemma {:induction false} ReadByteInvertsEncodeByte(e: Encoding, b: U8, rest: seq<U8>)
    ensures ReadByte(e, EncodeByte(e, b) + rest) == Ok((b, |EncodeByte(e, b)|))
  {
  }

  lemma {:induction false} ReadNextInvertsEncodeByte(e: Encoding, prefix: seq<U8>, d: Decoded, b: U8, rest: seq<U8>)
    requires d.used == |prefix| && d.error.None?
    ensures ReadNext(e, prefix + (EncodeByte(e, b) + rest), d)
         == Decoded(d.bytes + [b], d.used + |EncodeByte(e, b)|, None)
  {
    assert (prefix + (EncodeByte(e, b) + rest))[d.used..] == EncodeByte(e, b) + rest;
    ReadByteInvertsEncodeByte(e, b, rest);
  }

  /** Decoding what was written returns the same bytes and stops exactly behind them,
      whatever follows on the wire. */
  lemma {:induction false} DecodeInvertsEncode(e: Encoding, bytes: seq<U8>, rest: seq<U8>)
    ensures DecodeUpTo(e, EncodeAll(e, bytes) + rest, |bytes|)
         == Decoded(bytes, |EncodeAll(e, bytes)|, None)
  {
    hide ReadNext, ReadByte, EncodeByte;
    if bytes == [] {
    } else {
      var init, b := bytes[..|bytes| - 1], bytes[|bytes| - 1];
      var tail := EncodeByte(e, b) + rest;
      assert EncodeAll(e, bytes) + rest == EncodeAll(e, init) + tail;
      DecodeInvertsEncode(e, init, tail);
      ReadNextInvertsEncodeByte(e, EncodeAll(e, init), Decoded(init, |EncodeAll(e, init)|, None), b, rest);
      assert init + [b] == bytes;
    }
  }

  /** Reading goes strictly left to right: a shorter read is a prefix of a longer one. */
  lemma {:induction false} DecodePrefix(e: Encoding, wire: seq<U8>, m: nat, n: nat)
    requires m <= n
    requires DecodeUpTo(e, wire, m).error.None?
    ensures DecodeUpTo(e, wire, m).bytes <= DecodeUpTo(e, wire, n).bytes
  {
    if m < n {
      DecodePrefix(e, wire, m, n - 1);
    }
  }

  /** Stuffed bytes never contain the frame flag. */
  lemma {:induction false} StuffedHasNoFlag(bytes: seq<U8>)
    ensures FLAG !in EncodeAll(Serial, bytes)
  {
    if bytes == [] {
    } else {
      StuffedHasNoFlag(bytes[..|bytes| - 1]);
    }
  }

  lemma {:induction false} EncodeByteInvertsReadByte(wire: seq<U8>)
    requires ReadByte(Serial, wire).Ok?
    ensures var (b, k) := ReadByte(Serial, wire).value;
            FLAG !in wire[..k] ==> EncodeByte(Serial, b) == wire[..k]
  {
  }

  /** The other direction of the round trip. Bytes that decode completely are re-encoded to the
      very same wire bytes exactly when the wire held no bare flag, which the serial decoder
      accepts as a plain byte. */
  lemma {:induction false} EncodeInvertsDecode(wire: seq<U8>, n: nat)
    requires DecodeUpTo(Serial, wire, n).error.None?
    ensures var d := DecodeUpTo(Serial, wire, n);
            EncodeAll(Serial, d.bytes) == wire[..d.used] <==> FLAG !in wire[..d.used]
  {
    hide EncodeByte, ReadByte;
    var d := DecodeUpTo(Serial, wire, n);
    StuffedHasNoFlag(d.bytes);
    if n > 0 && FLAG !in wire[..d.used] {
      var p := DecodeUpTo(Serial, wire, n - 1);
      assert wire[..d.used] == wire[..p.used] + wire[p.used..][..d.used - p.used];
      EncodeInvertsDecode(wire, n - 1);
      EncodeByteInvertsReadByte(wire[p.used..]);
      assert d.bytes[..|d.bytes| - 1] == p.bytes;
    }
  }

  /** One more byte of `bytes`: how the encoding of a prefix grows, and that it never outgrows
      the encoding of the whole. */
  lemma {:induction false} EncodePrefixStep(e: Encoding, bytes: seq<U8>, i: nat)
    requires i < |bytes|
    ensures EncodeAll(e, bytes[..i + 1]) == EncodeAll(e, bytes[..i]) + EncodeByte(e, bytes[i])
    ensures |EncodeAll(e, bytes[..i])| + |EncodeByte(e, bytes[i])| <= WireSizeOf(e, bytes)
  {
    assert bytes[..i + 1][..i] == bytes[..i];
    assert bytes == bytes[..i + 1] + bytes[i + 1..];
    EncodeAllAppend(e, bytes[..i + 1], bytes[i + 1..]);
    WireSizeIsWireLength(e, bytes);
  }

  // ---------------------------------------------------------------- cursors

  /** Write one payload byte at the start of the slice `buf[from..to]`. Returns the wire bytes
      written; a byte that does not fit leaves the buffer alone. */
  method WriteByte(e: Encoding, buf: array<U8>, from: nat, to: nat, b: U8)
    returns (r: Result<nat, EncodeError>)
    requires from <= to <= buf.Length
    modifies buf
    ensures r.Ok? <==> from + |EncodeByte(e, b)| <= to
    ensures r.Ok? ==> r.value == |EncodeByte(e, b)|
    ensures buf[..] == if r.Ok? then old(buf[..from]) + EncodeByte(e, b) + old(buf[from + r.value..])
                       else old(buf[..])
  {
    var n := to - from;
    if e.Serial? && (b == FLAG || b == ESCAPE) {
      if n < 2 {
        return Err(BufferFull);
      }
      buf[from] := ESCAPE;
      buf[from + 1] := if b == FLAG then 0x5E else 0x5D;
      return Ok(2);
    }
    if n == 0 {
      return Err(BufferFull);
    }
    buf[from] := b;
    return Ok(1);
  }

  /** Write cursor over the slice `buf[from..to]`. */
  class EncodingEncoder {
    const encoding: Encoding
    const buf: array<U8>
    const from: nat
    const to: nat
    var wirePos: nat

    ghost predicate Valid()
      reads this
    {
      from + wirePos <= to <= buf.Length
    }

    /** What has been written so far. */
    ghost function Written(): seq<U8>
      reads this, buf
      requires Valid()
    {
      buf[from..from + wirePos]
    }

    constructor (encoding: Encoding, buf: array<U8>, from: nat, to: nat)
      requires from <= to <= buf.Length
      ensures Valid() && wirePos == 0 && Written() == []
      ensures this.encoding == encoding && this.buf == buf && this.from == from && this.to == to
    {
      this.encoding, this.buf, this.from, this.to, wirePos := encoding, buf, from, to, 0;
    }

    function RemainingWire(): nat
      reads this
      requires Valid()
    {
      to - (from + wirePos)
    }

    /** A failed write moves no cursor and changes no byte. */
    method Write(b: U8) returns (r: Result<(), EncodeError>)
      requires Valid()
      modifies this`wirePos, buf
      ensures Valid()
      ensures r.Ok? <==> |EncodeByte(encoding, b)| <= old(RemainingWire())
      ensures r.Ok? ==> Written() == old(Written()) + EncodeByte(encoding, b)
      ensures r.Err? ==> wirePos == old(wirePos)
      ensures forall k | 0 <= k < buf.Length && !(from + old(wirePos) <= k < from + wirePos) ::
                buf[k] == old(buf[k])
    {
      var n := WriteByte(encoding, buf, from + wirePos, to, b);
      if n.Err? {
        return Err(n.error);
      }
      wirePos := wirePos + n.value;
      return Ok(());
    }

    /** Stops at the first byte that does not fit; `wirePos` counts exactly what was written. */
    method WriteAll(bytes: seq<U8>) returns (r: Result<(), EncodeError>)
      requires Valid()
      modifies this`wirePos, buf
      ensures Valid()
      ensures r.Ok? <==> WireSizeOf(encoding, bytes) <= old(RemainingWire())
      ensures r.Ok? ==> Written() == old(Written()) + EncodeAll(encoding, bytes)
      ensures r.Ok? ==> wirePos == old(wirePos) + WireSizeOf(encoding, bytes)
      ensures r.Err? ==> exists k: nat :: k < |bytes|
                                          && Written() == old(Written()) + EncodeAll(encoding, bytes[..k])
                                          && |EncodeByte(encoding, bytes[k])| > RemainingWire()
      ensures forall k | 0 <= k < buf.Length && !(from + old(wirePos) <= k < from + wirePos) ::
                buf[k] == old(buf[k])
    {
      hide EncodeByte, WireSizeOf;
      WireSizeIsWireLength(encoding, bytes);
      for i := 0 to |bytes|
        invariant Valid()
        invariant wirePos == old(wirePos) + |EncodeAll(encoding, bytes[..i])|
        invariant Written() == old(Written()) + EncodeAll(encoding, bytes[..i])
        invariant forall k | 0 <= k < buf.Length && !(from + old(wirePos) <= k < from + wirePos) ::
                    buf[k] == old(buf[k])
      {
        EncodePrefixStep(encoding, bytes, i);
        var w := Write(bytes[i]);
        if w.Err? {
          return Err(w.error);
        }
      }
      assert bytes[..|bytes|] == bytes;
      return Ok(());
    }
  }

  /** Read cursor over a wire buffer. */
  class EncodingDecoder {
    const encoding: Encoding
    const buf: seq<U8>
    var wirePos: nat

    ghost predicate Valid()
      reads this
    {
      wirePos <= |buf|
    }

    constructor (encoding: Encoding, buf: seq<U8>)
      ensures Valid() && wirePos == 0 && this.encoding == encoding && this.buf == buf
    {
      this.encoding, this.buf, wirePos := encoding, buf, 0;
    }

    /** A failed read moves no cursor. */
    method Read() returns (r: Result<U8, DecodeError>)
      requires Valid()
      modifies this`wirePos
      ensures Valid()
      ensures match ReadByte(encoding, buf[old(wirePos)..])
              case Ok((b, n)) => r == Ok(b) && wirePos == old(wirePos) + n
              case Err(x) => r == Err(x) && wirePos == old(wirePos)
    {
      var d := ReadByte(encoding, buf[wirePos..]);
      match d {
        case Ok((b, n)) =>
          wirePos := wirePos + n;
          return Ok(b);
        case Err(x) =>
          return Err(x);
      }
    }
  }
}
