/** The two readers of HID-over-I2C commands, the device's (`hidi2c-target-service/src/service.rs`) and
    the host service's (`hid-service/src/i2c/host.rs`), and what each makes of the encoder's bytes. */
module HidTarget {
  import opened Sequences
  import opened Wrappers
  import opened HidCommand

  // ---------------------------------------------------------------- the device

  const COMMAND_REGISTER: U16 := 5
  const DATA_REGISTER: U16 := 6

  datatype ProtocolError = BadData | BadRegister | BadCommand | BadSize | BadReportType

  /** What the device is asked to do. */
  datatype Action =
    | ResetDevice
    | SetPowerState(state: PowerState)
    | ProcessGetReport(reportType: ReportType, id: U8)
    | ProcessSetReport(reportType: ReportType, id: U8, payload: seq<U8>)
    | OtherRegister(register: U16, rest: seq<U8>)

  function FromLe(bytes: seq<U8>): U16
    requires |bytes| == 2
  {
    var low: int, high: int := bytes[0], bytes[1];
    low + high * 0x100
  }

  /** The report type, and the report ID unless it takes a byte of its own. */
  function FromCommandByte(b: U8): Result<(ReportType, Option<U8>), ProtocolError> {
    var id := if b % 0x10 == 0xF then None else Some((b % 0x10) as U8);
    match b / 0x10
    case 1 => Ok((Input, id))
    case 2 => Ok((Output, id))
    case 3 => Ok((Feature, id))
    case _ => Err(BadReportType)
  }

  function IoCommandHeader(data: seq<U8>, b: U8): Result<(ReportType, U8, seq<U8>), ProtocolError> {
    match FromCommandByte(b)
    case Err(e) => Err(e)
    case Ok((t, short)) =>
      if short.None? && data == [] then Err(BadSize)
      else
        var id := if short.Some? then short.value else data[0];
        var data := if short.Some? then data else data[1..];
        if |data| < 2 then Err(BadSize)
        else if FromLe(data[..2]) != DATA_REGISTER then Err(BadRegister)
        else Ok((t, id, data[2..]))
  }

  /** `process_command`. `hostReads`: whether the host goes on to read, as it must after a get.
      `implicit`: whether the device's reports go without IDs. */
  function ProcessCommand(data: seq<U8>, hostReads: bool, implicit: bool): Result<Action, ProtocolError> {
    if |data| < 2 then Err(BadCommand)
    else match data[1]
      case 1 => Ok(ResetDevice)
      case 2 => ProcessGet(IoCommandHeader(data[2..], data[0]), hostReads)
      case 3 => ProcessSet(IoCommandHeader(data[2..], data[0]), implicit)
      case 8 =>
        if data[0] == 0 then Ok(SetPowerState(On))
        else if data[0] == 1 then Ok(SetPowerState(Sleep))
        else Err(BadCommand)
      case _ => Err(BadCommand)
  }

  function ProcessGet(header: Result<(ReportType, U8, seq<U8>), ProtocolError>, hostReads: bool)
    : Result<Action, ProtocolError>
  {
    match header
    case Err(e) => Err(e)
    case Ok((t, id, _)) =>
      if !hostReads then Err(BadCommand)
      else if t.Output? then Err(BadReportType)
      else Ok(ProcessGetReport(t, id))
  }

  function ProcessSet(header: Result<(ReportType, U8, seq<U8>), ProtocolError>, implicit: bool)
    : Result<Action, ProtocolError>
  {
    match header
    case Err(e) => Err(e)
    case Ok((t, id, data)) =>
      if |data| < 2 || FromLe(data[..2]) < 2 then Err(BadSize)
      else
        var size, start := FromLe(data[..2]) - 2, if implicit then 0 else 1;
        if |data| - 2 < start + size then Err(BadSize)
        else if t.Input? then Err(BadReportType)
        else Ok(ProcessSetReport(t, id, data[2 + start..2 + start + size]))
  }

  /** `process_register_access` on the bytes of one write. */
  function ProcessRegisterAccess(data: seq<U8>, hostReads: bool, implicit: bool): Result<Action, ProtocolError> {
    if |data| < 2 then Err(BadData)
    else
      var register := FromLe(data[..2]);
      // an unknown register, or the data register with no command before it
      if register == 0 || register >= DATA_REGISTER then Err(BadRegister)
      else if register == COMMAND_REGISTER then ProcessCommand(data[2..], hostReads, implicit)
      else Ok(OtherRegister(register, data[2..]))
  }

  // ---------------------------------------------------------------- the device reads the encoder

  lemma {:induction false} LeRoundTrip(v: U16)
    ensures |Le(v)| == 2 && FromLe(Le(v)) == v
  {
  }

  /** A command is its register address, its word and what follows. */
  function AfterWord(c: Command, dataReg: Option<U16>): seq<U8> {
    Flatten((if UsesDataRegister(c) then Register(dataReg) else []) + DataPieces(c))
  }

  lemma {:induction false} EncodedLayout(c: Command, commandReg: Option<U16>, dataReg: Option<U16>)
    ensures Encoded(c, commandReg, dataReg) == Flatten(Register(commandReg)) + WordPiece(c) + AfterWord(c, dataReg)
  {
    hide Flatten, WordPiece, DataPieces, UsesDataRegister, Register;
    var tail := (if UsesDataRegister(c) then Register(dataReg) else []) + DataPieces(c);
    assert Pieces(c, commandReg, dataReg) == Register(commandReg) + [WordPiece(c)] + tail;
    FlattenAppend(Register(commandReg) + [WordPiece(c)], tail);
    FlattenAppend(Register(commandReg), [WordPiece(c)]);
    FlattenOne(WordPiece(c));
  }

  /** What follows the word: the data register, then the data. */
  lemma {:induction false} AfterWordIs(c: Command, dataReg: U16)
    ensures AfterWord(c, Some(dataReg)) ==
      (if UsesDataRegister(c) then Le(dataReg) else []) + if DataPieces(c) == [] then [] else DataPieces(c)[0]
  {
    hide Le, Data;
    var address := if UsesDataRegister(c) then Register(Some(dataReg)) else [];
    FlattenAppend(address, DataPieces(c));
    FlattenOne(Le(dataReg));
    if DataPieces(c) != [] {
      FlattenOne(DataPieces(c)[0]);
      assert DataPieces(c) == [DataPieces(c)[0]];
    }
  }

  /** The length that the encoder can still tell apart from another. */
  const LONGEST_PAYLOAD := 65533

  /** What the device makes of a command. */
  function Understood(c: Command, hostReads: bool, implicit: bool): Result<Action, ProtocolError> {
    match c
    case Reset => Ok(ResetDevice)
    case GetReport(t, id, _) =>
      if !hostReads then Err(BadCommand) else if t.Output? then Err(BadReportType) else Ok(ProcessGetReport(t, id))
    case SetReport(t, id, payload) =>
      var length, start := (|payload| + 2) % 0x1_0000, if implicit then 0 else 1;
      if length < 2 || |payload| < start + length - 2 then Err(BadSize)
      else if t.Input? then Err(BadReportType)
      else Ok(ProcessSetReport(t, id, payload[start..start + length - 2]))
    case SetPower(state) => Ok(SetPowerState(state))
    case _ => Err(BadCommand)
  }

  lemma {:induction false} ReportWord(o: Opcode, t: ReportType, id: U8)
    ensures var h := Head(o, Some(t), id);
      && |h| == (if id < EXTENDED_REPORT_ID then 2 else 3)
      && h[1] == OpcodeBits(o)
      && FromCommandByte(h[0]) == Ok((t, if id < EXTENDED_REPORT_ID then Some(id) else None))
      && (id >= EXTENDED_REPORT_ID ==> h[2] == id)
  {
    WordFields(o, Some(t), LowId(id));
  }

  /** Whatever its ID, short or extended, and whatever follows it, a report command's header is read
      back. */
  lemma {:induction false} HeaderReadsBack(o: Opcode, t: ReportType, id: U8, more: seq<U8>)
    ensures var bytes := Head(o, Some(t), id) + Le(DATA_REGISTER) + more;
      && |bytes| >= 2 && bytes[1] == OpcodeBits(o)
      && IoCommandHeader(bytes[2..], bytes[0]) == Ok((t, id, more))
  {
    hide Head, FromCommandByte, Le, FromLe;
    ReportWord(o, t, id);
    LeRoundTrip(DATA_REGISTER);
    var head := Head(o, Some(t), id);
    var bytes := head + Le(DATA_REGISTER) + more;
    var rest := bytes[|head|..];
    assert rest[..2] == Le(DATA_REGISTER) && rest[2..] == more;
    if id >= EXTENDED_REPORT_ID {
      assert bytes[2..][1..] == rest;
    }
  }

  lemma {:induction false} SetReadsBack(t: ReportType, id: U8, payload: seq<U8>, implicit: bool)
    ensures ProcessSet(Ok((t, id, Data(payload))), implicit) == Understood(SetReport(t, id, payload), true, implicit)
  {
    hide Le, FromLe;
    var length: U16 := (|payload| + 2) % 0x1_0000;
    LeRoundTrip(length);
    assert Data(payload)[..2] == Le(length) && Data(payload)[2..] == payload;
    if length >= 2 {
      var start := if implicit then 0 else 1;
      if start + length - 2 <= |payload| {
        assert Data(payload)[2 + start..2 + start + (length - 2)] == payload[start..start + length - 2];
      }
    }
  }

  lemma {:induction false} BasicWord(o: Opcode, low: U8, more: seq<U8>)
    requires low < 16
    ensures var bytes := Le(Word(o, None, low)) + more; |bytes| >= 2 && bytes[0] == low && bytes[1] == OpcodeBits(o)
  {
    WordFields(o, None, low);
  }

  lemma {:induction false} IdleWord(o: Opcode, id: U8, more: seq<U8>)
    ensures var bytes := Head(o, None, id) + more; |bytes| >= 2 && bytes[1] == OpcodeBits(o)
  {
    WordFields(o, None, LowId(id));
  }

  lemma {:induction false} ReportReadsBack(c: Command, hostReads: bool, implicit: bool)
    requires c.GetReport? || c.SetReport?
    ensures ProcessCommand(WordPiece(c) + AfterWord(c, Some(DATA_REGISTER)), hostReads, implicit)
         == Understood(c, hostReads, implicit)
  {
    hide Head, Data, Le, IoCommandHeader, AfterWord, ProcessSet, Understood, ProcessGet;
    AfterWordIs(c, DATA_REGISTER);
    var o, data := if c.GetReport? then GetReportOp else SetReportOp, if c.GetReport? then [] else Data(c.payload);
    assert WordPiece(c) + AfterWord(c, Some(DATA_REGISTER))
        == Head(o, Some(c.reportType), c.id) + Le(DATA_REGISTER) + data;
    HeaderReadsBack(o, c.reportType, c.id, data);
    if c.GetReport? {
      GetReadsBack(c.reportType, c.id, c.expected, hostReads, implicit);
    } else {
      SetReadsBack(c.reportType, c.id, c.payload, implicit);
      UnderstoodSet(c, hostReads, implicit);
    }
  }

  lemma {:induction false} GetReadsBack(t: ReportType, id: U8, expected: Option<U16>, hostReads: bool, implicit: bool)
    ensures ProcessGet(Ok((t, id, [])), hostReads) == Understood(GetReport(t, id, expected), hostReads, implicit)
  {
  }

  lemma {:induction false} UnderstoodSet(c: Command, hostReads: bool, implicit: bool)
    requires c.SetReport?
    ensures Understood(c, hostReads, implicit) == Understood(c, true, implicit)
  {
  }

  lemma {:induction false} OtherReadsBack(c: Command, hostReads: bool, implicit: bool)
    requires !c.GetReport? && !c.SetReport?
    ensures ProcessCommand(WordPiece(c) + AfterWord(c, Some(DATA_REGISTER)), hostReads, implicit)
         == Understood(c, hostReads, implicit)
  {
    hide Head, Le, Word, IoCommandHeader, AfterWord, ProcessSet, ProcessGet;
    var more := AfterWord(c, Some(DATA_REGISTER));
    match c {
      case Reset => BasicWord(ResetOp, 0, more);
      case GetIdle(id) => IdleWord(GetIdleOp, id, more);
      case SetIdle(id, _) => IdleWord(SetIdleOp, id, more);
      case GetProtocol => BasicWord(GetProtocolOp, 0, more);
      case SetProtocol(_) => BasicWord(SetProtocolOp, 0, more);
      case SetPower(state) => BasicWord(SetPowerOp, StateBits(state), more);
      case Vendor => BasicWord(VendorOp, 0, more);
    }
  }

  /** The device's reader on the encoder's bytes, for every command. */
  lemma {:induction false} DeviceReadsEncoder(c: Command, hostReads: bool, implicit: bool)
    ensures ProcessRegisterAccess(Encoded(c, Some(COMMAND_REGISTER), Some(DATA_REGISTER)), hostReads, implicit)
         == Understood(c, hostReads, implicit)
  {
    hide ProcessCommand, WordPiece, AfterWord, Understood, Encoded, Le, FromLe;
    var bytes := Encoded(c, Some(COMMAND_REGISTER), Some(DATA_REGISTER));
    EncodedLayout(c, Some(COMMAND_REGISTER), Some(DATA_REGISTER));
    FlattenOne(Le(COMMAND_REGISTER));
    LeRoundTrip(COMMAND_REGISTER);
    var rest := WordPiece(c) + AfterWord(c, Some(DATA_REGISTER));
    assert bytes == Le(COMMAND_REGISTER) + rest;
    assert bytes[..2] == Le(COMMAND_REGISTER) && bytes[2..] == rest;
    if c.GetReport? || c.SetReport? {
      ReportReadsBack(c, hostReads, implicit);
    } else {
      OtherReadsBack(c, hostReads, implicit);
    }
  }

  /** The action a command asks for. */
  function ActionOf(c: Command): Option<Action> {
    match c
    case Reset => Some(ResetDevice)
    case GetReport(t, id, _) => Some(ProcessGetReport(t, id))
    case SetReport(t, id, payload) => Some(ProcessSetReport(t, id, payload))
    case SetPower(state) => Some(SetPowerState(state))
    case _ => None
  }

  /** A device does what the command says exactly for the commands it implements, with a report type that
      goes the right way; a report can be set only on a device without report IDs, with a payload that is
      not too long for its length. */
  lemma {:induction false} DeviceRecoversCommand(c: Command, hostReads: bool, implicit: bool)
    ensures
      var done := ProcessRegisterAccess(Encoded(c, Some(COMMAND_REGISTER), Some(DATA_REGISTER)), hostReads, implicit);
      (ActionOf(c).Some? && done == Ok(ActionOf(c).value))
      <==> match c
           case Reset => true
           case SetPower(_) => true
           case GetReport(t, _, _) => hostReads && !t.Output?
           case SetReport(t, _, payload) => implicit && !t.Input? && |payload| <= LONGEST_PAYLOAD
           case _ => false
  {
    DeviceReadsEncoder(c, hostReads, implicit);
    if c.SetReport? {
      PayloadSurvives(c.payload);
    }
  }

  lemma {:induction false} PayloadSurvives(payload: seq<U8>)
    ensures var length := (|payload| + 2) % 0x1_0000;
      (2 <= length && length - 2 <= |payload| && payload[..length - 2] == payload) <==> |payload| <= LONGEST_PAYLOAD
  {
  }

  /** With report IDs, the device skips a byte of the data that the encoder never writes: a report of
      ordinary length is refused, and one whose length was cut is taken without its first byte and
      without its end. */
  lemma {:induction false} ExplicitIdsRefuseReports(t: ReportType, id: U8, payload: seq<U8>, hostReads: bool)
    ensures
      var done := ProcessRegisterAccess(
        Encoded(SetReport(t, id, payload), Some(COMMAND_REGISTER), Some(DATA_REGISTER)), hostReads, false);
      var length := (|payload| + 2) % 0x1_0000;
      if |payload| <= LONGEST_PAYLOAD || length < 2 then done == Err(BadSize)
      else if t.Input? then done == Err(BadReportType)
      else done == Ok(ProcessSetReport(t, id, payload[1..length - 1])) && length - 2 < |payload|
  {
    DeviceReadsEncoder(SetReport(t, id, payload), hostReads, false);
  }

  /** A report takes eight bytes besides its payload, nine with an extended ID. */
  lemma {:induction false} SetReportLength(t: ReportType, id: U8, payload: seq<U8>)
    ensures |Encoded(SetReport(t, id, payload), Some(COMMAND_REGISTER), Some(DATA_REGISTER))|
         == |payload| + if id < EXTENDED_REPORT_ID then 8 else 9
  {
    var c := SetReport(t, id, payload);
    EncodedLayout(c, Some(COMMAND_REGISTER), Some(DATA_REGISTER));
    FlattenOne(Le(COMMAND_REGISTER));
    AfterWordIs(c, DATA_REGISTER);
  }
}
