/** The bytes of a command one by one, as HID over I2C has them, and what a
    reader may conclude from bytes it accepts, whoever wrote them. */
module HidLayout {
  import opened Sequences
  import opened Wrappers
  import opened HidCommand
  import opened HidTarget
  import HidHost

  // ---------------------------------------------------------------- what the encoder writes

  /** The word of each command in numbers: the operation in the second byte; in the first the report type
      above the report ID, or the power state. IDs from 15 on take a third byte. */
  lemma {:induction false} WordInNumbers(c: Command)
    ensures var w := WordPiece(c);
      && |w| >= 2
      && w[1] == (match c
                  case Reset => 1 case GetReport(_, _, _) => 2 case SetReport(_, _, _) => 3
                  case GetIdle(_) => 4 case SetIdle(_, _) => 5 case GetProtocol => 6 case SetProtocol(_) => 7
                  case SetPower(_) => 8 case Vendor => 14)
      && w[0] / 0x10 == (if !c.GetReport? && !c.SetReport? then 0
                         else match c.reportType case Input => 1 case Output => 2 case Feature => 3)
      && w[0] % 0x10 == (match c
                         case SetPower(state) => if state.On? then 0 else 1
                         case GetReport(_, id, _) => if id < 15 then id else 15
                         case SetReport(_, id, _) => if id < 15 then id else 15
                         case GetIdle(id) => if id < 15 then id else 15
                         case SetIdle(id, _) => if id < 15 then id else 15
                         case _ => 0)
      && w[2..] == if (c.GetReport? || c.SetReport? || c.GetIdle? || c.SetIdle?) && c.id >= 15 then [c.id] else []
  {
    hide Word;
    HidHost.WordPieceIs(c);
    WordFields(HidHost.OpcodeFor(c), HidHost.TypeFor(c),
               if HidHost.IdFor(c).Some? then LowId(HidHost.IdFor(c).value)
               else if c.SetPower? then StateBits(c.state) else 0);
  }

  /** The value of a set-idle or a set-protocol stands at the end of its bytes, after the length 4. A protocol
      reads back as it was, and so does a frequency exactly if it is not a period of no milliseconds. */
  lemma {:induction false} ValueStandsAtEnd(c: Command, commandReg: Option<U16>, dataReg: U16)
    requires c.SetIdle? || c.SetProtocol?
    ensures var bytes := Encoded(c, commandReg, Some(dataReg)); var n := |bytes|;
      && n >= 6 && FromLe(bytes[n - 6..n - 4]) == dataReg && FromLe(bytes[n - 4..n - 2]) == 4
      && var value := FromLe(bytes[n - 2..]);
         if c.SetProtocol? then value == (if c.protocol.Boot? then 0 else 1) && ProtocolOf(value) == Ok(c.protocol)
         else value == (if c.freq.Msecs? then c.freq.period else 0) && (FreqOf(value) == c.freq <==> c.freq != Msecs(0))
  {
    hide WordPiece, AfterWord, Encoded, Le, FromLe, Flatten;
    var value := if c.SetProtocol? then ProtocolBits(c.protocol) else FreqBits(c.freq);
    var front := Flatten(Register(commandReg)) + WordPiece(c);
    EncodedLayout(c, commandReg, Some(dataReg));
    AfterWordIs(c, dataReg);
    LeRoundTrip(dataReg);
    LeRoundTrip(4);
    LeRoundTrip(value);
    var bytes := Encoded(c, commandReg, Some(dataReg));
    assert bytes == front + (Le(dataReg) + (Le(4) + Le(value)));
    EndOf(front, Le(dataReg), Le(4), Le(value));
  }

  lemma {:induction false} EndOf(front: seq<U8>, a: seq<U8>, b: seq<U8>, c: seq<U8>)
    requires |a| == |b| == |c| == 2
    ensures var all := front + (a + (b + c)); var n := |all|;
      n >= 6 && all[n - 6..n - 4] == a && all[n - 4..n - 2] == b && all[n - 2..] == c
  {
  }

  // ---------------------------------------------------------------- fields of any word

  /** A field that is read at all is the one that is written that way. */
  lemma {:induction false} FieldsOfAnyWord(word: U16)
    ensures var op := word / 0x100 % 0x10;
      && (OpcodeOf(word).Ok? <==> 1 <= op <= 8 || op == 14)
      && (OpcodeOf(word).Ok? ==> OpcodeBits(OpcodeOf(word).value) == op)
    ensures TypeOf(word).Ok? <==> word / 0x10 % 4 != 0
    ensures TypeOf(word).Ok? ==> TypeBits(TypeOf(word).value) == word / 0x10 % 4
    ensures StateOf(word).Ok? <==> word % 4 < 2
    ensures StateOf(word).Ok? ==> StateBits(StateOf(word).value) == word % 4
    ensures FreqBits(FreqOf(word)) == word
    ensures ProtocolOf(word).Ok? <==> word < 2
    ensures ProtocolOf(word).Ok? ==> ProtocolBits(ProtocolOf(word).value) == word
  {
  }

  // ---------------------------------------------------------------- what the device acts on

  /** The bytes say the command in the way the encoder does: no ID below 15 in a byte of its own, nothing
      beside the operation of a reset. */
  predicate AsEncoded(c: Command, data: seq<U8>) {
    |data| >= 4 &&
    match c
    case Reset => data[2] == 0
    case GetReport(_, _, _) => data[2] % 0x10 == 0xF ==> |data| > 4 && data[4] >= 0xF
    case SetReport(_, _, _) => data[2] % 0x10 == 0xF ==> |data| > 4 && data[4] >= 0xF
    case _ => true
  }

  lemma {:induction false} LeOfBytes(bytes: seq<U8>)
    requires |bytes| == 2
    ensures Le(FromLe(bytes)) == bytes
  {
  }

  /** A header that is accepted is that of a report command. */
  lemma {:induction false} HeaderOnlyFrom(o: Opcode, data: seq<U8>, t: ReportType, id: U8, rest: seq<U8>)
    requires |data| >= 2 && data[1] == OpcodeBits(o) && IoCommandHeader(data[2..], data[0]) == Ok((t, id, rest))
    ensures var head := Head(o, Some(t), id) + Le(DATA_REGISTER);
      if data[0] % 0x10 == 0xF ==> data[2] >= 0xF then data == head + rest
      else |data| < |head| || data[..|head|] != head
  {
    hide FromLe, Le;
    var own := data[0] % 0x10 == 0xF;
    var after := if own then data[3..] else data[2..];
    assert own ==> data[2..][1..] == after;
    LeOfBytes(after[..2]);
    assert after == Le(DATA_REGISTER) + rest;
    ReportWord(o, t, id);
    HeadBytes(o, t, id, data, own);
    assert data == data[..if own then 3 else 2] + after;
  }

  lemma {:induction false} HeadBytes(o: Opcode, t: ReportType, id: U8, data: seq<U8>, own: bool)
    requires |data| >= (if own then 3 else 2) && data[1] == OpcodeBits(o)
    requires data[0] / 0x10 == TypeBits(t) && (own <==> data[0] % 0x10 == 0xF)
    requires id == if own then data[2] else data[0] % 0x10
    ensures Head(o, Some(t), id) == (if own then data[..3] else data[..2]) <==> (own ==> id >= 0xF)
    ensures |Head(o, Some(t), id)| == (if id >= 0xF then 3 else 2)
    ensures own && id < 0xF ==> Head(o, Some(t), id) != data[..2]
  {
    WordFields(o, Some(t), LowId(id));
    var w := Word(o, Some(t), LowId(id));
    assert Le(w)[0] == TypeBits(t) * 0x10 + LowId(id) && Le(w)[1] == data[1];
    assert data[0] == data[0] / 0x10 * 0x10 + data[0] % 0x10;
  }

  /** The device does only what the bytes written to it say: bytes on which it carries out a command begin
      with that command as the encoder writes it, unless they say it in a way the encoder does not. */
  lemma {:induction false} DeviceActsOnEncoded(c: Command, data: seq<U8>, hostReads: bool)
    requires ActionOf(c).Some? && ProcessRegisterAccess(data, hostReads, true) == Ok(ActionOf(c).value)
    ensures Encoded(c, Some(COMMAND_REGISTER), Some(DATA_REGISTER)) <= data <==> AsEncoded(c, data)
    ensures c.GetReport? ==> hostReads
  {
    hide WordPiece, AfterWord, Encoded, Le, FromLe, Flatten, IoCommandHeader, Head, Data;
    var rest := data[2..];
    LeOfBytes(data[..2]);
    assert data == Le(COMMAND_REGISTER) + rest;
    EncodedLayout(c, Some(COMMAND_REGISTER), Some(DATA_REGISTER));
    FlattenOne(Le(COMMAND_REGISTER));
    AfterWordIs(c, DATA_REGISTER);
    var word := WordPiece(c) + AfterWord(c, Some(DATA_REGISTER));
    PrefixAfter(Le(COMMAND_REGISTER), word, rest);
    if c.GetReport? || c.SetReport? {
      ReportActsOnEncoded(c, rest, hostReads);
    } else {
      BasicActsOnEncoded(c, rest, hostReads);
    }
  }

  lemma {:induction false} PrefixAfter(head: seq<U8>, a: seq<U8>, b: seq<U8>)
    ensures head + a <= head + b <==> a <= b
  {
    assert (head + b)[|head|..] == b;
    if head + a <= head + b {
      assert (head + b)[..|head + a|][|head|..] == a;
    }
  }

  lemma {:induction false} OperationOfAction(c: Command, rest: seq<U8>, hostReads: bool)
    requires ActionOf(c).Some? && ProcessCommand(rest, hostReads, true) == Ok(ActionOf(c).value)
    ensures |rest| >= 2 && rest[1] == OpcodeBits(HidHost.OpcodeFor(c))
    ensures c.SetPower? ==> rest[0] == StateBits(c.state)
  {
    hide IoCommandHeader, FromLe;
  }

  lemma {:induction false} BasicActsOnEncoded(c: Command, rest: seq<U8>, hostReads: bool)
    requires c.Reset? || c.SetPower?
    requires ProcessCommand(rest, hostReads, true) == Ok(ActionOf(c).value)
    ensures WordPiece(c) + AfterWord(c, Some(DATA_REGISTER)) <= rest <==> (c.Reset? ==> rest[0] == 0)
  {
    hide ProcessCommand, WordPiece, AfterWord;
    OperationOfAction(c, rest, hostReads);
    AfterWordIs(c, DATA_REGISTER);
    WordInNumbers(c);
    var w := WordPiece(c);
    assert w == [w[0], w[1]] + w[2..];
    assert w + AfterWord(c, Some(DATA_REGISTER)) == w;
  }

  lemma {:induction false} ReportActsOnEncoded(c: Command, rest: seq<U8>, hostReads: bool)
    requires c.GetReport? || c.SetReport?
    requires ProcessCommand(rest, hostReads, true) == Ok(ActionOf(c).value)
    ensures WordPiece(c) + AfterWord(c, Some(DATA_REGISTER)) <= rest
       <==> (rest[0] % 0x10 == 0xF ==> |rest| > 2 && rest[2] >= 0xF)
    ensures c.GetReport? ==> hostReads
  {
    hide IoCommandHeader, ProcessSet, ProcessGet, Le, FromLe, Head, Data, AfterWord;
    var o := if c.GetReport? then GetReportOp else SetReportOp;
    var header := IoCommandHeader(rest[2..], rest[0]);
    var data := if c.GetReport? then [] else Data(c.payload);
    OperationOfAction(c, rest, hostReads);
    ReportActs(c, header, hostReads);
    var more := header.value.2;
    HeaderOnlyFrom(o, rest, c.reportType, c.id, more);
    AfterWordIs(c, DATA_REGISTER);
    var head := Head(o, Some(c.reportType), c.id) + Le(DATA_REGISTER);
    assert WordPiece(c) + AfterWord(c, Some(DATA_REGISTER)) == head + data;
    OwnByte(rest);
    PrefixOfPrefix(head, data, rest);
    PrefixAfter(head, data, more);
  }

  lemma {:induction false} PrefixOfPrefix(a: seq<U8>, b: seq<U8>, whole: seq<U8>)
    ensures a + b <= whole ==> |a| <= |whole| && whole[..|a|] == a
  {
    assert (a + b)[..|a|] == a;
  }

  lemma {:induction false} OwnByte(rest: seq<U8>)
    requires |rest| >= 2 && IoCommandHeader(rest[2..], rest[0]).Ok?
    ensures rest[0] % 0x10 == 0xF ==> |rest| > 2
  {
  }

  /** What a report command that is carried out has told about its header. */
  lemma {:induction false} ReportActs(c: Command, header: Result<(ReportType, U8, seq<U8>), ProtocolError>,
                                      hostReads: bool)
    requires c.GetReport? || c.SetReport?
    requires (if c.GetReport? then ProcessGet(header, hostReads) else ProcessSet(header, true)) == Ok(ActionOf(c).value)
    ensures header.Ok? && header.value.0 == c.reportType && header.value.1 == c.id
    ensures c.GetReport? ==> hostReads
    ensures c.SetReport? ==> Data(c.payload) <= header.value.2
  {
    hide Le, FromLe;
    if c.SetReport? {
      var data := header.value.2;
      LeOfBytes(data[..2]);
      assert data == data[..2] + data[2..];
      assert data[2..2 + |c.payload|] == c.payload;
      assert data[..2 + |c.payload|] == data[..2] + data[2..2 + |c.payload|];
    }
  }

  /** A device with report IDs takes a report from one byte further on; and what is written to a register of
      no command is handed on as it is. */
  lemma {:induction false} OtherwiseHandedOn(data: seq<U8>, hostReads: bool, implicit: bool, t: ReportType, id: U8,
                                             payload: seq<U8>, register: U16, rest: seq<U8>)
    ensures ProcessSet(Ok((t, id, data)), false) == Ok(ProcessSetReport(t, id, payload)) <==>
      && !t.Input? && |data| >= 3 + |payload|
      && FromLe(data[..2]) == |payload| + 2 && data[3..3 + |payload|] == payload
    ensures ProcessRegisterAccess(data, hostReads, implicit) == Ok(OtherRegister(register, rest)) <==>
      data == Le(register) + rest && 1 <= register <= 4
  {
    if |data| >= 2 {
      LeOfBytes(data[..2]);
      assert data == data[..2] + data[2..];
    }
    LeRoundTrip(register);
    if data == Le(register) + rest {
      assert data[..2] == Le(register) && data[2..] == rest;
    }
  }

  /** Which header of a report the device refuses, and why: first its type, then its length, then the data
      register. */
  lemma {:induction false} HeaderRefused(data: seq<U8>, b: U8)
    ensures var own := b % 0x10 == 15; var r := IoCommandHeader(data, b);
      && (r == Err(BadReportType) <==> b / 0x10 == 0 || b / 0x10 > 3)
      && (r == Err(BadSize) <==> 1 <= b / 0x10 <= 3 && |data| < if own then 3 else 2)
      && (r == Err(BadRegister) <==>
            1 <= b / 0x10 <= 3 && |data| >= (if own then 3 else 2)
            && FromLe(if own then data[1..3] else data[..2]) != 6)
      && (r.Err? ==> r.error in {BadReportType, BadSize, BadRegister})
  {
    hide FromLe;
    if |data| >= 3 {
      assert data[1..][..2] == data[1..3];
    }
  }

  /** Which writes the device refuses before it looks at a header, and why. */
  lemma {:induction false} AccessRefused(data: seq<U8>, hostReads: bool, implicit: bool)
    ensures var r := ProcessRegisterAccess(data, hostReads, implicit);
      && (|data| < 2 ==> r == Err(BadData))
      && (|data| >= 2 && (FromLe(data[..2]) == 0 || FromLe(data[..2]) > 5) ==> r == Err(BadRegister))
      && (|data| >= 2 && FromLe(data[..2]) == 5 && (|data| < 4 || data[3] !in {1, 2, 3, 8}) ==> r == Err(BadCommand))
      && (|data| >= 4 && FromLe(data[..2]) == 5 && data[3] == 8 && data[2] > 1 ==> r == Err(BadCommand))
  {
    hide IoCommandHeader, ProcessGet, ProcessSet, FromLe;
  }

  // ---------------------------------------------------------------- what the host's reader returns

  /** Which commands cannot be made, and why. */
  lemma {:induction false} CommandRefused(word: U16, o: Opcode, t: Option<ReportType>, id: Option<U8>,
                                          data: Option<seq<U8>>, expected: Option<U16>)
    ensures var r := HidHost.NewCommand(word, o, t, id, data, expected);
      var named := o in {GetReportOp, SetReportOp, GetIdleOp, SetIdleOp};
      var lacking := o in {SetReportOp, SetIdleOp} && data.None?;
      && (r == Err(RequiresReportId) <==> named && id.None?)
      && (r == Err(RequiresData) <==> id.Some? && lacking)
      && (r == Err(InvalidReportType) <==>
            || (o.GetReportOp? && id.Some? && (t.None? || t == Some(Output)))
            || (o.SetReportOp? && id.Some? && !lacking && (t.None? || t == Some(Input))))
      && (r == Err(InvalidData) <==> (o.SetProtocolOp? && word > 1) || (o.SetPowerOp? && word % 4 > 1))
      && (r.Err? ==> r.error in {RequiresReportId, RequiresData, InvalidReportType, InvalidData})
      && (r.Ok? ==> HidHost.OpcodeFor(r.value) == o && (r.value.GetReport? ==> r.value.expected == expected))
  {
  }

  /** The host's reader returns only what the bytes on the bus say: the operation, report type and ID of the
      word, the ID in a byte of its own exactly if the word says 15, the data register where one belongs, and
      the value or the payload. A set-protocol is never returned. */
  lemma {:induction false} HostReturnsWhatIsThere(bus: seq<U8>, dataReg: U16, room: nat)
    requires HidHost.ReadCommand(bus, dataReg, room).Ok?
    ensures |bus| >= 2
    ensures var c := HidHost.ReadCommand(bus, dataReg, room).value; var word := FromLe(bus[..2]);
      && OpcodeOf(word) == Ok(HidHost.OpcodeFor(c)) && !c.SetProtocol?
      && (HidHost.TypeFor(c).Some? ==> TypeOf(word) == Ok(HidHost.TypeFor(c).value))
      && (c.GetReport? ==> !c.reportType.Output? && c.expected == None)
      && (c.SetReport? ==> !c.reportType.Input?)
      && (c.SetIdle? ==> c.freq == Msecs(word))
      && (c.SetPower? ==> word % 4 == if c.state.On? then 0 else 1)
  {
    hide HidHost.ReadRegisterAndData;
    var word := FromLe(bus[..2]);
    FieldsOfAnyWord(word);
  }

  lemma {:induction false} HostReadsRegisterAndData(bus: seq<U8>, dataReg: U16, room: nat)
    requires HidHost.ReadCommand(bus, dataReg, room).Ok?
    ensures |bus| >= 2
    ensures var c := HidHost.ReadCommand(bus, dataReg, room).value; var word := FromLe(bus[..2]);
      var own := HidHost.IdFor(c).Some? && word % 0x10 == 0xF;
      var at := if own then 3 else 2;
      && |bus| >= at
      && (HidHost.IdFor(c).Some? ==> HidHost.IdFor(c).value == if own then bus[2] else word % 0x10)
      && (UsesDataRegister(c) || c.Vendor? ==> |bus| >= at + 2 && FromLe(bus[at..at + 2]) == dataReg)
      && (c.SetReport? || c.SetIdle? || c.Vendor? ==>
            |bus| >= at + 4 && 2 <= FromLe(bus[at + 2..at + 4]) <= room
            && |bus| >= at + 2 + FromLe(bus[at + 2..at + 4]))
      && (c.SetReport? ==> c.payload == bus[at + 4..at + 2 + FromLe(bus[at + 2..at + 4])])
  {
    hide FromLe, OpcodeOf, TypeOf, StateOf, FreqOf, HidHost.ReadRegisterAndData;
    HostReturnsWhatIsThere(bus, dataReg, room);
    var c := HidHost.ReadCommand(bus, dataReg, room).value;
    var at := if HidHost.IdFor(c).Some? && FromLe(bus[..2]) % 0x10 == 0xF then 3 else 2;
    var o := HidHost.OpcodeFor(c);
    assert HidHost.ReadRegisterAndData(bus[at..], o, dataReg, room).Ok?;
    RegisterAndData(bus, at, o, dataReg, room);
  }

  lemma {:induction false} RegisterAndData(bus: seq<U8>, at: nat, o: Opcode, dataReg: U16, room: nat)
    requires at <= |bus| && HidHost.ReadRegisterAndData(bus[at..], o, dataReg, room).Ok?
    ensures HidHost.RequiresHostData(o) || HidHost.HasResponse(o) ==>
      |bus| >= at + 2 && FromLe(bus[at..at + 2]) == dataReg
    ensures HidHost.RequiresHostData(o) ==>
      && |bus| >= at + 4 && 2 <= FromLe(bus[at + 2..at + 4]) <= room
      && |bus| >= at + 2 + FromLe(bus[at + 2..at + 4])
      && HidHost.ReadRegisterAndData(bus[at..], o, dataReg, room).value
         == Some(bus[at + 4..at + 2 + FromLe(bus[at + 2..at + 4])])
  {
    hide FromLe;
    var b := bus[at..];
    if |b| >= 2 {
      assert b[..2] == bus[at..at + 2];
      if |b| >= 4 {
        assert b[2..][..2] == bus[at + 2..at + 4];
        var n := FromLe(b[2..][..2]);
        if 2 <= n <= |b| - 2 {
          assert b[2..][2..n] == bus[at + 4..at + 2 + n];
        }
      }
    }
  }
}
