/** HID-over-I2C commands: the host's encoder (`embedded-service/src/hid/command.rs`), which lays a
    command out in a buffer piece by piece. */
module HidCommand {
  import opened Sequences
  import opened Wrappers

  datatype ReportType = Input | Output | Feature

  datatype PowerState = On | Sleep

  datatype ReportFreq = Infinite | Msecs(period: U16)

  datatype Protocol = Boot | Report

  datatype Opcode =
    | ResetOp | GetReportOp | SetReportOp | GetIdleOp | SetIdleOp | GetProtocolOp | SetProtocolOp | SetPowerOp
    | VendorOp

  datatype Command =
    | Reset
    | GetReport(reportType: ReportType, id: U8, expected: Option<U16>)
    | SetReport(reportType: ReportType, id: U8, payload: seq<U8>)
    | GetIdle(id: U8)
    | SetIdle(id: U8, freq: ReportFreq)
    | GetProtocol
    | SetProtocol(protocol: Protocol)
    | SetPower(state: PowerState)
    | Vendor

  datatype Error =
    | InvalidSize(expected: nat, actual: nat)
    | InvalidData
    | InvalidRegisterAddress
    | InvalidCommand
    | RequiresReportId
    | RequiresData
    | InvalidReportType
    | Serialize

  const EXTENDED_REPORT_ID: U8 := 0xF

  // ---------------------------------------------------------------- fields of the command word

  function OpcodeBits(o: Opcode): U8 {
    match o
    case ResetOp => 1
    case GetReportOp => 2
    case SetReportOp => 3
    case GetIdleOp => 4
    case SetIdleOp => 5
    case GetProtocolOp => 6
    case SetProtocolOp => 7
    case SetPowerOp => 8
    case VendorOp => 14
  }

  function TypeBits(t: ReportType): U8 {
    match t case Input => 1 case Output => 2 case Feature => 3
  }

  function StateBits(p: PowerState): U8 {
    match p case On => 0 case Sleep => 1
  }

  function FreqBits(f: ReportFreq): U16 {
    match f case Infinite => 0 case Msecs(period) => period
  }

  function ProtocolBits(p: Protocol): U16 {
    match p case Boot => 0 case Report => 1
  }

  /** Opcode in bits 8 to 11, report type in bits 4 and 5, report ID in bits 0 to 3. */
  function Word(o: Opcode, t: Option<ReportType>, low: U8): U16
    requires low < 16
  {
    OpcodeBits(o) * 0x100 + (if t.Some? then TypeBits(t.value) * 0x10 else 0) + low
  }

  function LowId(id: U8): U8 {
    if id < EXTENDED_REPORT_ID then id else EXTENDED_REPORT_ID
  }

  function OpcodeOf(word: U16): Result<Opcode, Error> {
    match word / 0x100 % 0x10
    case 1 => Ok(ResetOp)
    case 2 => Ok(GetReportOp)
    case 3 => Ok(SetReportOp)
    case 4 => Ok(GetIdleOp)
    case 5 => Ok(SetIdleOp)
    case 6 => Ok(GetProtocolOp)
    case 7 => Ok(SetProtocolOp)
    case 8 => Ok(SetPowerOp)
    case 14 => Ok(VendorOp)
    case _ => Err(Serialize)
  }

  function TypeOf(word: U16): Result<ReportType, Error> {
    match word / 0x10 % 4
    case 1 => Ok(Input)
    case 2 => Ok(Output)
    case 3 => Ok(Feature)
    case _ => Err(Serialize)
  }

  function StateOf(word: U16): Result<PowerState, Error> {
    match word % 4
    case 0 => Ok(On)
    case 1 => Ok(Sleep)
    case _ => Err(Serialize)
  }

  function FreqOf(word: U16): ReportFreq {
    if word == 0 then Infinite else Msecs(word)
  }

  function ProtocolOf(word: U16): Result<Protocol, Error> {
    if word == 0 then Ok(Boot) else if word == 1 then Ok(Report) else Err(Serialize)
  }

  /** The three fields of a command word do not disturb one another. */
  lemma {:induction false} WordFields(o: Opcode, t: Option<ReportType>, low: U8)
    requires low < 16
    ensures OpcodeOf(Word(o, t, low)) == Ok(o)
    ensures TypeOf(Word(o, t, low)) == if t.Some? then Ok(t.value) else Err(Serialize)
    ensures Word(o, t, low) % 0x10 == low
    ensures Word(o, t, low) / 0x100 == OpcodeBits(o)
    ensures Word(o, t, low) % 0x100 == (if t.Some? then TypeBits(t.value) * 0x10 else 0) + low
  {
    Digits(OpcodeBits(o), if t.Some? then TypeBits(t.value) else 0, low);
  }

  lemma {:induction false} Digits(high: nat, middle: nat, low: nat)
    requires high < 16 && middle < 4 && low < 16
    ensures var w := high * 0x100 + middle * 0x10 + low;
      w / 0x100 == high && w % 0x100 == middle * 0x10 + low && w / 0x10 % 4 == middle && w % 0x10 == low
  {
    assert high * 0x100 + middle * 0x10 + low == (high * 0x10 + middle) * 0x10 + low;
  }

  function Le(v: U16): seq<U8> {
    [v % 0x100, v / 0x100]
  }

  // ---------------------------------------------------------------- the bytes of a command

  function Head(o: Opcode, t: Option<ReportType>, id: U8): seq<U8> {
    Le(Word(o, t, LowId(id))) + if id < EXTENDED_REPORT_ID then [] else [id]
  }

  /** A length counting itself, then the payload. The length is cut to sixteen bits. */
  function Data(payload: seq<U8>): seq<U8> {
    Le((|payload| + 2) % 0x1_0000) + payload
  }

  function Register(reg: Option<U16>): seq<seq<U8>> {
    if reg.Some? then [Le(reg.value)] else []
  }

  function WordPiece(c: Command): seq<U8> {
    match c
    case Reset => Le(Word(ResetOp, None, 0))
    case GetReport(t, id, _) => Head(GetReportOp, Some(t), id)
    case SetReport(t, id, _) => Head(SetReportOp, Some(t), id)
    case GetIdle(id) => Head(GetIdleOp, None, id)
    case SetIdle(id, _) => Head(SetIdleOp, None, id)
    case GetProtocol => Le(Word(GetProtocolOp, None, 0))
    case SetProtocol(_) => Le(Word(SetProtocolOp, None, 0))
    case SetPower(state) => Le(Word(SetPowerOp, None, StateBits(state)))
    case Vendor => Le(Word(VendorOp, None, 0))
  }

  predicate UsesDataRegister(c: Command) {
    !c.Reset? && !c.SetPower? && !c.Vendor?
  }

  function DataPieces(c: Command): seq<seq<U8>> {
    match c
    case SetReport(_, _, payload) => [Data(payload)]
    case SetIdle(_, freq) => [Le(4) + Le(FreqBits(freq))]
    case SetProtocol(p) => [Le(4) + Le(ProtocolBits(p))]
    case _ => []
  }

  /** The pieces of a command in the order they are written, each of them whole or not at all. */
  function Pieces(c: Command, commandReg: Option<U16>, dataReg: Option<U16>): seq<seq<U8>> {
    Register(commandReg) + [WordPiece(c)]
    + (if UsesDataRegister(c) then Register(dataReg) else [])
    + DataPieces(c)
  }

  function Encoded(c: Command, commandReg: Option<U16>, dataReg: Option<U16>): seq<U8> {
    Flatten(Pieces(c, commandReg, dataReg))
  }

  // ---------------------------------------------------------------- laying pieces out in a buffer

  function Put(buf: seq<U8>, at: nat, piece: seq<U8>): (Result<nat, Error>, seq<U8>)
    requires at <= |buf|
  {
    if |buf| - at < |piece| then (Err(InvalidSize(|piece|, |buf| - at)), buf)
    else (Ok(|piece|), Overwrite(buf, at, piece))
  }

  /** The pieces one after the other until one does not fit; the ones before it stay written. */
  function Laid(buf: seq<U8>, pieces: seq<seq<U8>>): (r: (Result<nat, Error>, seq<U8>))
    ensures |r.1| == |buf| && (r.0.Ok? ==> r.0.value <= |buf|)
  {
    if pieces == [] then (Ok(0), buf)
    else
      var (at, b) := Laid(buf, pieces[..|pieces| - 1]);
      if at.Err? then (at, b)
      else
        var (n, b') := Put(b, at.value, pieces[|pieces| - 1]);
        (if n.Ok? then Ok(at.value + n.value) else n, b')
  }

  lemma {:induction false} LaidNext(buf: seq<U8>, pieces: seq<seq<U8>>, next: seq<U8>)
    requires Laid(buf, pieces).0.Ok?
    ensures
      var (at, b) := Laid(buf, pieces);
      var (n, b') := Put(b, at.value, next);
      Laid(buf, pieces + [next]) == (if n.Ok? then Ok(at.value + n.value) else n, b')
  {
    assert (pieces + [next])[..|pieces|] == pieces;
  }

  lemma {:induction false} LaidStops(buf: seq<U8>, pieces: seq<seq<U8>>, more: seq<seq<U8>>)
    requires Laid(buf, pieces).0.Err?
    ensures Laid(buf, pieces + more) == Laid(buf, pieces)
  {
    if more == [] {
      assert pieces + more == pieces;
    } else {
      LaidStops(buf, pieces, more[..|more| - 1]);
      assert (pieces + more)[..|pieces + more| - 1] == pieces + more[..|more| - 1];
    }
  }

  /** Pieces fit exactly when all their bytes together do, and then those bytes stand at the front with
      the rest of the buffer untouched. */
  lemma {:induction false} LaidFits(buf: seq<U8>, pieces: seq<seq<U8>>)
    ensures Laid(buf, pieces).0.Ok? <==> |Flatten(pieces)| <= |buf|
    ensures Laid(buf, pieces).0.Ok? ==> Laid(buf, pieces) == (Ok(|Flatten(pieces)|), Overwrite(buf, 0, Flatten(pieces)))
  {
    if pieces == [] {
      assert Overwrite(buf, 0, []) == buf;
    } else {
      var front, piece := Flatten(pieces[..|pieces| - 1]), pieces[|pieces| - 1];
      LaidFits(buf, pieces[..|pieces| - 1]);
      if |front| + |piece| <= |buf| {
        OverwriteTwice(buf, 0, front, piece);
      }
    }
  }

  // ---------------------------------------------------------------- the encoder

  method EncodeCommon(buf: array<U8>, at: nat, opcode: Opcode, t: Option<ReportType>, id: U8)
    returns (r: Result<nat, Error>)
    requires at <= buf.Length
    modifies buf
    ensures (r, buf[..]) == Put(old(buf[..]), at, Head(opcode, t, id))
  {
    var room := buf.Length - at;
    if id >= EXTENDED_REPORT_ID {
      if room < 3 {
        return Err(InvalidSize(3, room));
      }
      Copy(buf, at, Le(Word(opcode, t, EXTENDED_REPORT_ID)));
      Copy(buf, at + 2, [id]);
      OverwriteTwice(old(buf[..]), at, Le(Word(opcode, t, EXTENDED_REPORT_ID)), [id]);
      return Ok(3);
    } else {
      if room < 2 {
        return Err(InvalidSize(2, room));
      }
      Copy(buf, at, Le(Word(opcode, t, id)));
      assert Head(opcode, t, id) == Le(Word(opcode, t, id));
      return Ok(2);
    }
  }

  method EncodeBasicOp(buf: array<U8>, at: nat, opcode: Opcode) returns (r: Result<nat, Error>)
    requires at <= buf.Length
    modifies buf
    ensures (r, buf[..]) == Put(old(buf[..]), at, Le(Word(opcode, None, 0)))
  {
    if buf.Length - at < 2 {
      return Err(InvalidSize(2, buf.Length - at));
    }
    Copy(buf, at, Le(Word(opcode, None, 0)));
    return Ok(2);
  }

  method EncodeRegister(buf: array<U8>, at: nat, reg: U16) returns (r: Result<nat, Error>)
    requires at <= buf.Length
    modifies buf
    ensures (r, buf[..]) == Put(old(buf[..]), at, Le(reg))
  {
    if buf.Length - at < 2 {
      return Err(InvalidSize(2, buf.Length - at));
    }
    Copy(buf, at, Le(reg));
    return Ok(2);
  }

  method EncodeValue(buf: array<U8>, at: nat, value: U16) returns (r: Result<nat, Error>)
    requires at <= buf.Length
    modifies buf
    ensures (r, buf[..]) == Put(old(buf[..]), at, Le(4) + Le(value))
  {
    if buf.Length - at < 4 {
      return Err(InvalidSize(4, buf.Length - at));
    }
    Copy(buf, at, Le(4));
    Copy(buf, at + 2, Le(value));
    OverwriteTwice(old(buf[..]), at, Le(4), Le(value));
    return Ok(4);
  }

  method EncodeData(buf: array<U8>, at: nat, payload: seq<U8>) returns (r: Result<nat, Error>)
    requires at <= buf.Length
    modifies buf
    ensures (r, buf[..]) == Put(old(buf[..]), at, Data(payload))
  {
    var total := |payload| + 2;
    if buf.Length - at < total {
      return Err(InvalidSize(total, buf.Length - at));
    }
    Copy(buf, at, Le(total % 0x1_0000));
    Copy(buf, at + 2, payload);
    OverwriteTwice(old(buf[..]), at, Le(total % 0x1_0000), payload);
    return Ok(total);
  }

  /** The first step of each command after the register address. */
  method EncodeWord(c: Command, buf: array<U8>, at: nat) returns (r: Result<nat, Error>)
    requires at <= buf.Length
    modifies buf
    ensures (r, buf[..]) == Put(old(buf[..]), at, WordPiece(c))
  {
    hide Put, Head;
    match c {
      case Reset => r := EncodeBasicOp(buf, at, ResetOp);
      case GetReport(t, id, _) => r := EncodeCommon(buf, at, GetReportOp, Some(t), id);
      case SetReport(t, id, _) => r := EncodeCommon(buf, at, SetReportOp, Some(t), id);
      case GetIdle(id) => r := EncodeCommon(buf, at, GetIdleOp, None, id);
      case SetIdle(id, _) => r := EncodeCommon(buf, at, SetIdleOp, None, id);
      case GetProtocol => r := EncodeBasicOp(buf, at, GetProtocolOp);
      case SetProtocol(_) => r := EncodeBasicOp(buf, at, SetProtocolOp);
      case SetPower(state) => r := EncodePower(buf, at, state);
      case Vendor => r := EncodeBasicOp(buf, at, VendorOp);
    }
  }

  method EncodePower(buf: array<U8>, at: nat, state: PowerState) returns (r: Result<nat, Error>)
    requires at <= buf.Length
    modifies buf
    ensures (r, buf[..]) == Put(old(buf[..]), at, Le(Word(SetPowerOp, None, StateBits(state))))
  {
    if buf.Length - at < 2 {
      return Err(InvalidSize(2, buf.Length - at));
    }
    Copy(buf, at, Le(Word(SetPowerOp, None, StateBits(state))));
    return Ok(2);
  }

  /** The last step: the data of the commands that carry some. */
  method EncodeDataPiece(c: Command, buf: array<U8>, at: nat) returns (r: Result<nat, Error>)
    requires at <= buf.Length && DataPieces(c) != []
    modifies buf
    ensures (r, buf[..]) == Put(old(buf[..]), at, DataPieces(c)[0])
  {
    hide Put, Data, Le;
    match c {
      case SetReport(_, _, payload) => r := EncodeData(buf, at, payload);
      case SetIdle(_, freq) => r := EncodeValue(buf, at, FreqBits(freq));
      case SetProtocol(p) => r := EncodeValue(buf, at, ProtocolBits(p));
    }
  }

  lemma {:induction false} OneDataPiece(c: Command)
    ensures DataPieces(c) == [] || DataPieces(c) == [DataPieces(c)[0]]
  {
  }

  lemma {:induction false} LaidNothing(buf: seq<U8>)
    ensures Laid(buf, []) == (Ok(0), buf)
  {
  }

  /** Encodes the command at the front of `buf`. Each step checks its own room, so that a buffer which
      is too short is left with the pieces written before the one that did not fit. */
  method EncodeIntoSlice(c: Command, buf: array<U8>, commandReg: Option<U16>, dataReg: Option<U16>)
    returns (r: Result<nat, Error>)
    modifies buf
    ensures (r, buf[..]) == Laid(old(buf[..]), Pieces(c, commandReg, dataReg))
  {
    hide Laid, Put, Le, WordPiece, Data, UsesDataRegister, DataPieces, Overwrite, Flatten;
    ghost var was, all := buf[..], Pieces(c, commandReg, dataReg);
    var len := 0;
    LaidNothing(was);

    ghost var front := Register(commandReg);
    ghost var rest := [WordPiece(c)] + (if UsesDataRegister(c) then Register(dataReg) else []) + DataPieces(c);
    assert all == front + rest;
    if commandReg.Some? {
      LaidNext(was, [], Le(commandReg.value));
      assert [] + [Le(commandReg.value)] == front;
      r := EncodeRegister(buf, len, commandReg.value);
      if r.Err? {
        LaidStops(was, front, rest);
        return;
      }
      len := len + r.value;
    }

    ghost var headed := front + [WordPiece(c)];
    LaidNext(was, front, WordPiece(c));
    r := EncodeWord(c, buf, len);
    if r.Err? {
      LaidStops(was, headed, rest[1..]);
      assert all == headed + rest[1..];
      return;
    }
    len := len + r.value;

    ghost var addressed := headed + if UsesDataRegister(c) then Register(dataReg) else [];
    assert all == addressed + DataPieces(c);
    if UsesDataRegister(c) && dataReg.Some? {
      LaidNext(was, headed, Le(dataReg.value));
      r := EncodeRegister(buf, len, dataReg.value);
      if r.Err? {
        LaidStops(was, addressed, DataPieces(c));
        return;
      }
      len := len + r.value;
    } else {
      assert addressed == headed;
    }

    OneDataPiece(c);
    if DataPieces(c) != [] {
      LaidNext(was, addressed, DataPieces(c)[0]);
      r := EncodeDataPiece(c, buf, len);
      if r.Err? {
        return;
      }
      len := len + r.value;
    } else {
      assert all == addressed;
    }
    return Ok(len);
  }
}
