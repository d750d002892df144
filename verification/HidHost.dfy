/** The host service's own reader of commands (`hid-service/src/i2c/host.rs` and `Command::new` of
    `embedded-service/src/hid/command.rs`), and exactly which commands survive it. */
module HidHost {
  import opened Sequences
  import opened Wrappers
  import opened HidCommand
  import HidTarget

  predicate RequiresHostData(o: Opcode) {
    o.SetReportOp? || o.SetIdleOp? || o.VendorOp?
  }

  predicate NeedsReportId(o: Opcode) {
    o.GetReportOp? || o.SetReportOp? || o.GetIdleOp? || o.SetIdleOp?
  }

  predicate HasResponse(o: Opcode) {
    o.GetReportOp? || o.GetIdleOp? || o.GetProtocolOp?
  }

  /** `Command::new`. The value of a set comes out of the command word. */
  function NewCommand(word: U16, o: Opcode, t: Option<ReportType>, id: Option<U8>, data: Option<seq<U8>>,
                      expected: Option<U16>): Result<Command, Error>
  {
    if NeedsReportId(o) && id.None? then Err(RequiresReportId)
    else if RequiresHostData(o) && data.None? && !o.VendorOp? then Err(RequiresData)
    else match o
      case ResetOp => Ok(Reset)
      case GetReportOp =>
        if t.None? || t.value.Output? then Err(InvalidReportType) else Ok(GetReport(t.value, id.value, expected))
      case SetReportOp =>
        if t.None? || t.value.Input? then Err(InvalidReportType) else Ok(SetReport(t.value, id.value, data.value))
      case GetIdleOp => Ok(GetIdle(id.value))
      case SetIdleOp => Ok(SetIdle(id.value, FreqOf(word)))
      case GetProtocolOp => Ok(GetProtocol)
      case SetProtocolOp => if ProtocolOf(word).Ok? then Ok(SetProtocol(ProtocolOf(word).value)) else Err(InvalidData)
      case SetPowerOp => if StateOf(word).Ok? then Ok(SetPower(StateOf(word).value)) else Err(InvalidData)
      case VendorOp => Ok(Vendor)
  }

  datatype HostError = Bus | Hid(error: Error)

  /** The data of a set: a length counting itself, then that many bytes less two. `room` is the size of
      the service's buffer. */
  function ReadData(bus: seq<U8>, room: nat): Result<seq<U8>, HostError> {
    if room < 2 then Err(Hid(InvalidSize(2, room)))
    else if |bus| < 2 then Err(Bus)
    else
      var length := HidTarget.FromLe(bus[..2]);
      if length < 2 || room < length then Err(Hid(InvalidSize(length, room)))
      else if |bus| < length then Err(Bus)
      else Ok(bus[2..length])
  }

  function ReadRegisterAndData(bus: seq<U8>, o: Opcode, dataReg: U16, room: nat): Result<Option<seq<U8>>, HostError> {
    if !RequiresHostData(o) && !HasResponse(o) then Ok(None)
    else if |bus| < 2 then Err(Bus)
    else if HidTarget.FromLe(bus[..2]) != dataReg then Err(Hid(InvalidRegisterAddress))
    else if !RequiresHostData(o) then Ok(None)
    else match ReadData(bus[2..], room)
      case Ok(data) => Ok(Some(data))
      case Err(e) => Err(e)
  }

  /** `process_command` on the bytes that follow the command register. A read past their end fails. */
  function ReadCommand(bus: seq<U8>, dataReg: U16, room: nat): Result<Command, HostError> {
    if |bus| < 2 then Err(Bus)
    else
      var word := HidTarget.FromLe(bus[..2]);
      match OpcodeOf(word)
      case Err(e) => Err(Hid(e))
      case Ok(o) =>
        var extended := NeedsReportId(o) && word % 0x10 == EXTENDED_REPORT_ID;
        if extended && |bus| < 3 then Err(Bus)
        else
          var id := if !NeedsReportId(o) then None else if extended then Some(bus[2]) else Some((word % 0x10) as U8);
          match ReadRegisterAndData(bus[if extended then 3 else 2..], o, dataReg, room)
          case Err(e) => Err(e)
          case Ok(data) =>
            var t := TypeOf(word);
            var c := NewCommand(word, o, if t.Ok? then Some(t.value) else None, id, data, None);
            if c.Ok? then Ok(c.value) else Err(Hid(InvalidCommand))
  }

  // ---------------------------------------------------------------- what survives

  function OpcodeFor(c: Command): Opcode {
    match c
    case Reset => ResetOp
    case GetReport(_, _, _) => GetReportOp
    case SetReport(_, _, _) => SetReportOp
    case GetIdle(_) => GetIdleOp
    case SetIdle(_, _) => SetIdleOp
    case GetProtocol => GetProtocolOp
    case SetProtocol(_) => SetProtocolOp
    case SetPower(_) => SetPowerOp
    case Vendor => VendorOp
  }

  function TypeFor(c: Command): Option<ReportType> {
    if c.GetReport? || c.SetReport? then Some(c.reportType) else None
  }

  function IdFor(c: Command): Option<U8> {
    if c.GetReport? || c.SetReport? || c.GetIdle? || c.SetIdle? then Some(c.id) else None
  }

  function WordFor(c: Command): U16 {
    Word(OpcodeFor(c), TypeFor(c),
         if IdFor(c).Some? then LowId(IdFor(c).value) else if c.SetPower? then StateBits(c.state) else 0)
  }

  lemma {:induction false} WordPieceIs(c: Command)
    ensures WordPiece(c) == Le(WordFor(c)) +
              if IdFor(c).Some? && IdFor(c).value >= EXTENDED_REPORT_ID then [IdFor(c).value] else []
    ensures NeedsReportId(OpcodeFor(c)) <==> IdFor(c).Some?
  {
    hide Word, Le;
  }

  /** The command word gives opcode, report type and report ID back, whatever bytes follow. */
  lemma {:induction false} WordReadsBack(c: Command, more: seq<U8>, dataReg: U16, room: nat)
    ensures ReadCommand(WordPiece(c) + more, dataReg, room) ==
      match ReadRegisterAndData(more, OpcodeFor(c), dataReg, room)
      case Err(e) => Err(e)
      case Ok(data) =>
        var r := NewCommand(WordFor(c), OpcodeFor(c), TypeFor(c), IdFor(c), data, None);
        if r.Ok? then Ok(r.value) else Err(Hid(InvalidCommand))
  {
    hide Le, Word, WordPiece, NewCommand, ReadRegisterAndData, HidTarget.FromLe, OpcodeOf, TypeOf;
    var extra := if IdFor(c).Some? && IdFor(c).value >= EXTENDED_REPORT_ID then [IdFor(c).value] else [];
    var bus := WordPiece(c) + more;
    WordPieceIs(c);
    HidTarget.LeRoundTrip(WordFor(c));
    assert bus[..2] == Le(WordFor(c));
    assert bus[2 + |extra|..] == more;
    WordFields(OpcodeFor(c), TypeFor(c),
               if IdFor(c).Some? then LowId(IdFor(c).value) else if c.SetPower? then StateBits(c.state) else 0);
  }

  /** A set's data as the reader sees it. */
  lemma {:induction false} DataReadsBack(payload: seq<U8>, room: nat)
    ensures var r := ReadData(Data(payload), room);
      r == Ok(payload) <==> |payload| <= HidTarget.LONGEST_PAYLOAD && |payload| + 2 <= room
  {
    hide Le, HidTarget.FromLe;
    var length: U16 := (|payload| + 2) % 0x1_0000;
    HidTarget.LeRoundTrip(length);
    assert Data(payload)[..2] == Le(length);
    HidTarget.PayloadSurvives(payload);
    if 2 <= length <= |payload| + 2 {
      assert Data(payload)[2..length] == payload[..length - 2];
    }
  }

  lemma {:induction false} ValueReadsBack(value: U16, room: nat)
    ensures ReadData(Le(4) + Le(value), room).Ok? <==> room >= 4
  {
    hide Le, HidTarget.FromLe;
    HidTarget.LeRoundTrip(4);
    HidTarget.LeRoundTrip(value);
    assert (Le(4) + Le(value))[..2] == Le(4);
  }

  lemma {:induction false} WordValues(c: Command)
    ensures c.SetIdle? ==> FreqOf(WordFor(c)) == Msecs(0x500 + LowId(c.id))
    ensures c.SetProtocol? ==> ProtocolOf(WordFor(c)).Err?
    ensures c.SetPower? ==> StateOf(WordFor(c)) == Ok(c.state)
  {
  }

  /** A command of the encoder comes back as it was exactly in these cases. The frequency of a set-idle
      is looked for in the command word, so that only one frequency for each ID survives; a set-protocol
      never does, for the same reason; a vendor command has the reader wait for data the encoder does
      not write. */
  predicate Survives(c: Command, room: nat) {
    match c
    case Reset => true
    case GetReport(t, _, expected) => !t.Output? && expected == None
    case SetReport(t, _, payload) => !t.Input? && |payload| <= HidTarget.LONGEST_PAYLOAD && |payload| + 2 <= room
    case GetIdle(_) => true
    case SetIdle(id, freq) => room >= 4 && freq == Msecs(0x500 + LowId(id))
    case GetProtocol => true
    case SetProtocol(_) => false
    case SetPower(_) => true
    case Vendor => false
  }

  lemma {:induction false} HostRecoversCommand(c: Command, dataReg: U16, room: nat)
    ensures ReadCommand(Encoded(c, None, Some(dataReg)), dataReg, room) == Ok(c) <==> Survives(c, room)
  {
    hide Le, Word, WordPiece, ReadCommand, ReadData, Flatten, Data, Encoded, FreqOf, ProtocolOf, StateOf, WordFor;
    hide HidTarget.FromLe, HidTarget.AfterWord;
    HidTarget.EncodedLayout(c, None, Some(dataReg));
    HidTarget.AfterWordIs(c, dataReg);
    var more := HidTarget.AfterWord(c, Some(dataReg));
    FlattenNothing();
    assert Encoded(c, None, Some(dataReg)) == WordPiece(c) + more;
    WordReadsBack(c, more, dataReg, room);
    HidTarget.LeRoundTrip(dataReg);
    WordValues(c);
    if UsesDataRegister(c) {
      assert more[..2] == Le(dataReg);
      assert more[2..] == if DataPieces(c) == [] then [] else DataPieces(c)[0];
    }
    match c {
      case SetReport(_, _, payload) => DataReadsBack(payload, room);
      case SetIdle(_, freq) => ValueReadsBack(FreqBits(freq), room);
      case _ =>
    }
  }
}
