/** One Modbus exchange over the wire, and a session of exchanges with a slave. */
module ModbusExchange {
  import opened Bytes
  import opened Crc
  import opened ModbusProtocol
  import opened ModbusReceiver
  import opened ChunkedReads

  // ---------------------------------------------------------------- what the port makes of an arrival

  function ToModbusError(error: ProtocolError): ModbusError {
    match error
    case InvalidRequestRange => ModbusError.InvalidRequest
    case CrcError => ModbusError.CrcMismatch
    case FrameTooShort | MbapLength | ByteCountMismatch => ModbusError.InvalidLength
    case WrongUnitId => ModbusError.WrongId
    case WrongTransactionId => ModbusError.WrongTransactionId
    case ExceptionResponse => ModbusError.ExceptionResponse
    case WrongFunction | UnexpectedResponse => ModbusError.UnexpectedResponse
  }

  lemma ErrorsAre()
    ensures ToModbusError(ProtocolError.InvalidRequestRange) == ModbusError.InvalidRequest
    ensures ToModbusError(ProtocolError.CrcError) == ModbusError.CrcMismatch
    ensures ToModbusError(ProtocolError.FrameTooShort) == ModbusError.InvalidLength
    ensures ToModbusError(ProtocolError.MbapLength) == ModbusError.InvalidLength
    ensures ToModbusError(ProtocolError.ByteCountMismatch) == ModbusError.InvalidLength
    ensures ToModbusError(ProtocolError.WrongUnitId) == ModbusError.WrongId
    ensures ToModbusError(ProtocolError.WrongTransactionId) == ModbusError.WrongTransactionId
    ensures ToModbusError(ProtocolError.ExceptionResponse) == ModbusError.ExceptionResponse
    ensures ToModbusError(ProtocolError.WrongFunction) == ModbusError.UnexpectedResponse
    ensures ToModbusError(ProtocolError.UnexpectedResponse) == ModbusError.UnexpectedResponse
  {}

  /** The function code of what was handed over, or 0xFF where there is none. */
  function FunctionCodeOf(t: Transport, response: seq<byte>): byte {
    var at := if t.Tcp? then MBAP_HEADER + 1 else 1;
    if |response| > at then response[at] else 0xFF
  }

  /** On RTU the CRC decides, on TCP the length field. */
  predicate Intact(t: Transport, state: Receiver) {
    if t.Rtu? then state.crcOk
    else
      && |state.delivered| >= MBAP_HEADER
      && FromBe(state.delivered[4], state.delivered[5]) == |state.delivered| - MBAP_HEADER
  }

  /** Judging what was handed over before the time ran out. */
  function Judged(t: Transport, state: Receiver): Result<seq<byte>> {
    if state.delivered == [] then Failure(ModbusError.UnexpectedResponse)
    else if !Intact(t, state) then Failure(ModbusError.CrcMismatch)
    else if FunctionCodeOf(t, state.delivered) >= 0x80 then Failure(ModbusError.ExceptionResponse)
    else Success(state.delivered)
  }

  function Awaited(t: Transport, arrived: seq<seq<byte>>): Result<seq<byte>> {
    Judged(t, OnChunks(t, CLEARED, arrived))
  }

  /** The transaction a reply has to carry. */
  function Expected(t: Transport, sequence: u16): Option<u16> {
    if t.Tcp? then Some(sequence) else None
  }

  function RegistersRead(t: Transport, sequence: u16, unit: byte, code: byte, count: u16, arrived: seq<seq<byte>>)
    : Result<seq<u16>>
  {
    var awaited := Awaited(t, arrived);
    if awaited.Failure? then Failure(awaited.error)
    else
      var parsed := ParsedRegisters(t, awaited.value, unit, code, count, false, Expected(t, sequence));
      if parsed.Err? then Failure(ToModbusError(parsed.error)) else Success(parsed.value)
  }

  /** One register is confirmed with its value, more with their count. */
  function WriteConfirmed(
    t: Transport, sequence: u16, unit: byte, offset: u16, values: seq<u16>, arrived: seq<seq<byte>>): Result<()>
    requires 1 <= |values| <= 123
  {
    var awaited := Awaited(t, arrived);
    if awaited.Failure? then Failure(awaited.error)
    else
      var (code, echoed) := Echo(values);
      var parsed := ParsedWrite(t, awaited.value, unit, code, offset, echoed, false, Expected(t, sequence));
      if parsed.Err? then Failure(ToModbusError(parsed.error)) else Success(())
  }

  function Echo(values: seq<u16>): (byte, u16)
    requires 1 <= |values| <= 123
  {
    if |values| == 1 then (WRITE_SINGLE, values[0]) else (WRITE_MULTIPLE, |values|)
  }

  // ---------------------------------------------------------------- the port

  /** The chunks that come back for the k-th frame sent, before the time runs out. */
  type Line = (nat, seq<byte>) -> seq<seq<byte>>

  function NextSequence(t: Transport, sequence: u16): u16 {
    if t.Tcp? then Wrap16(sequence + 1) else sequence
  }

  /** A single register read: built, sent, awaited and parsed. */
  function ReadOnce(t: Transport, sequence: u16, unit: byte, code: byte, q: Request, line: Line, k: nat)
    : Result<seq<u16>>
  {
    var frame := BuildReadRequest(t, sequence, unit, code, q.offset, q.count);
    if frame.Err? then Failure(ToModbusError(frame.error))
    else RegistersRead(t, sequence, unit, code, q.count, line(k, frame.value))
  }

  /** A register write returns the frame that was sent. */
  function WriteOnce(
    t: Transport, sequence: u16, unit: byte, offset: u16, values: seq<u16>, line: Line, k: nat): Result<seq<byte>>
  {
    var frame := WriteFrame(t, sequence, unit, offset, values);
    if frame.Err? then Failure(ToModbusError(frame.error))
    else
      var confirmed := WriteConfirmed(t, sequence, unit, offset, values, line(k, frame.value));
      if confirmed.Failure? then Failure(confirmed.error) else Success(frame.value)
  }

  class ModbusMaster {
    const port: ModbusPort
    var sequenceId: u16
    var sent: seq<seq<byte>>

    constructor (t: Transport)
      ensures port.t == t && sequenceId == 0 && sent == [] && fresh(port)
    {
      port := new ModbusPort(t);
      sequenceId, sent := 0, [];
    }

    method ConsumeSequenceId() returns (id: u16)
      modifies this`sequenceId
      ensures id == old(sequenceId) && sequenceId == NextSequence(port.t, old(sequenceId))
    {
      id := sequenceId;
      if port.t == Tcp {
        sequenceId := Wrap16(sequenceId + 1);
      }
    }

    /** Send a frame, accumulate what comes back for it, and judge that. */
    method SendAndAwait(frame: seq<byte>, arrived: seq<seq<byte>>) returns (r: Result<seq<byte>>)
      modifies this`sent, port
      ensures sent == old(sent) + [frame]
      ensures r == Awaited(port.t, arrived)
    {
      hide OnData;
      port.Clear();
      sent := sent + [frame];
      for i := 0 to |arrived|
        invariant sent == old(sent) + [frame]
        invariant OnChunks(port.t, CLEARED, arrived) == OnChunks(port.t, port.State(), arrived[i..])
      {
        assert arrived[i..][1..] == arrived[i + 1..];
        port.OnUartDataReceived(arrived[i]);
      }
      assert arrived[|arrived|..] == [];
      var response, intact := port.recvData, port.lastDataCrcOk;
      if |response| == 0 {
        return Failure(ModbusError.UnexpectedResponse);
      }
      if port.t == Tcp {
        intact := |response| >= MBAP_HEADER;
        if intact {
          intact := FromBe(response[4], response[5]) == |response| - MBAP_HEADER;
        }
      }
      if !intact {
        return Failure(ModbusError.CrcMismatch);
      }
      if FunctionCodeOf(port.t, response) >= 0x80 {
        return Failure(ModbusError.ExceptionResponse);
      }
      return Success(response);
    }

    method ReadRegister(unit: byte, code: byte, offset: u16, count: u16, line: Line) returns (r: Result<seq<u16>>)
      modifies this, port
      ensures r == ReadOnce(port.t, old(sequenceId), unit, code, Request(offset, count), line, |old(sent)|)
      ensures sequenceId == NextSequence(port.t, old(sequenceId))
      ensures var frame := BuildReadRequest(port.t, old(sequenceId), unit, code, offset, count);
        sent == if frame.Ok? then old(sent) + [frame.value] else old(sent)
    {
      hide Awaited, ParsedRegisters, Encased, TransactionOf;
      var id := ConsumeSequenceId();
      var frame := BuildReadRequest(port.t, id, unit, code, offset, count);
      if frame.Err? {
        return Failure(ToModbusError(frame.error));
      }
      var response := SendAndAwait(frame.value, line(|sent|, frame.value));
      if response.Failure? {
        return Failure(response.error);
      }
      var expected := if port.t == Tcp then Some(TransactionOf(port.t, frame.value)) else None;
      TransactionRoundTrip(port.t, true, id, ReadRequest(unit, code, offset, count));
      var parsed := ParseReadRegistersResponse(port.t, response.value, unit, code, count, false, expected);
      if parsed.Err? {
        return Failure(ToModbusError(parsed.error));
      }
      return Success(parsed.value);
    }

    method WriteHoldingRegister(unit: byte, offset: u16, count: u16, buffer: seq<u16>, line: Line)
      returns (r: Result<seq<byte>>)
      modifies this, port
      ensures count != |buffer| ==>
        r == Failure(ModbusError.InvalidRequest) && sequenceId == old(sequenceId) && sent == old(sent)
      ensures count == |buffer| ==>
        && r == WriteOnce(port.t, old(sequenceId), unit, offset, buffer, line, |old(sent)|)
        && sequenceId == NextSequence(port.t, old(sequenceId))
        && var frame := WriteFrame(port.t, old(sequenceId), unit, offset, buffer);
           sent == if frame.Ok? then old(sent) + [frame.value] else old(sent)
    {
      hide Awaited, ParsedWrite, Encased, TransactionOf, WriteRequest;
      if count != |buffer| {
        return Failure(ModbusError.InvalidRequest);
      }
      var id := ConsumeSequenceId();
      var frame := BuildWriteRegistersRequest(port.t, id, unit, offset, buffer);
      if frame.Err? {
        return Failure(ToModbusError(frame.error));
      }
      var response := SendAndAwait(frame.value, line(|sent|, frame.value));
      if response.Failure? {
        return Failure(response.error);
      }
      var expected := if port.t == Tcp then Some(TransactionOf(port.t, frame.value)) else None;
      TransactionRoundTrip(port.t, true, id, WriteRequest(unit, offset, buffer));
      var (code, echoed) := Echo(buffer);
      var parsed := ParsedWrite(port.t, response.value, unit, code, offset, echoed, false, expected);
      if parsed.Err? {
        return Failure(ToModbusError(parsed.error));
      }
      return Success(frame.value);
    }
  }

  // ---------------------------------------------------------------- which arrivals a request accepts

  /** A normal reply is let through exactly when it arrives, an exception reply is reported when it does. */
  lemma AwaitedIff(t: Transport, transaction: u16, adu: seq<byte>, arrived: seq<seq<byte>>)
    requires StandardReply(adu)
    ensures adu[1] < 0x80 ==>
      (Awaited(t, arrived) == Success(Encased(t, false, transaction, adu)) <==>
       OnWire(t, transaction, adu) <= Flatten(arrived))
    ensures adu[1] >= 0x80 && OnWire(t, transaction, adu) <= Flatten(arrived) ==>
      Awaited(t, arrived) == Failure(ModbusError.ExceptionResponse)
  {
    hide OnChunks, OnWire, U16Be;
    ArrivesIff(t, transaction, adu, arrived);
    var handed := Encased(t, false, transaction, adu);
    if t.Tcp? {
      assert handed[4..6] == U16Be(|adu|) && handed[MBAP_HEADER..] == adu;
      U16BeRoundTrip(|adu|, handed[4], handed[5]);
      assert handed[MBAP_HEADER + 1] == adu[1];
      CrcOkOnTcp(arrived);
    }
  }

  lemma CrcOkOnTcp(arrived: seq<seq<byte>>)
    ensures OnChunks(Tcp, CLEARED, arrived).crcOk
  {
    ReachedByChunks(Tcp, CLEARED, [], arrived);
  }

  /**
   * A register read returns given registers exactly when the bytes that arrive
   * begin with the reply that carries them, under this request's transaction:
   * for every arrival, in whatever chunks and with whatever behind it.
   */
  lemma {:induction false} ReadSucceedsIff(
    t: Transport, sequence: u16, unit: byte, code: byte, count: u16, arrived: seq<seq<byte>>, registers: seq<u16>)
    requires 1 <= count <= 125 && (code == READ_HOLDING || code == READ_INPUT)
    ensures RegistersRead(t, sequence, unit, code, count, arrived) == Success(registers) <==>
      |registers| == count && OnWire(t, sequence, RegistersReply(unit, code, registers)) <= Flatten(arrived)
  {
    hide Awaited, ParsedRegisters, Encased, OnWire, TransactionOf;
    var awaited := Awaited(t, arrived);
    if |registers| == count {
      var reply := RegistersReply(unit, code, registers);
      AwaitedIff(t, sequence, reply, arrived);
      ParsesInExchange(t, sequence, reply);
    }
    if awaited.Success? {
      RegistersParseIffPrinted(t, awaited.value, unit, code, count, false, Expected(t, sequence), registers);
      if |registers| == count {
        SameCase(t, sequence, awaited.value, RegistersReply(unit, code, registers));
      }
    }
  }

  /** A single read succeeds exactly when the request is a valid one and its reply begins what comes back. */
  lemma ReadOnceIff(
    t: Transport, sequence: u16, unit: byte, bank: Bank, q: Request, line: Line, k: nat, registers: seq<u16>)
    ensures ReadOnce(t, sequence, unit, Code(bank), q, line, k) == Success(registers) <==>
      && 1 <= q.count <= 125 && q.offset + q.count <= 65536 && |registers| == q.count
      && OnWire(t, sequence, RegistersReply(unit, Code(bank), registers))
         <= Flatten(line(k, OnWire(t, sequence, ReadRequest(unit, Code(bank), q.offset, q.count))))
  {
    hide RegistersRead, OnWire;
    if 1 <= q.count <= 125 && q.offset + q.count <= 65536 {
      var frame := OnWire(t, sequence, ReadRequest(unit, Code(bank), q.offset, q.count));
      ReadSucceedsIff(t, sequence, unit, Code(bank), q.count, line(k, frame), registers);
    }
  }

  /** A write returns the frame it sent, exactly when the request is a valid one and its echo begins what comes back. */
  lemma WriteOnceIff(
    t: Transport, sequence: u16, unit: byte, offset: u16, values: seq<u16>, line: Line, k: nat, returned: seq<byte>)
    ensures WriteOnce(t, sequence, unit, offset, values, line, k) == Success(returned) <==>
      && 1 <= |values| <= 123 && offset + |values| <= 65536
      && returned == OnWire(t, sequence, WriteRequest(unit, offset, values))
      && var (code, echoed) := Echo(values);
         OnWire(t, sequence, WriteReply(unit, code, offset, echoed)) <= Flatten(line(k, returned))
  {
    hide WriteConfirmed, OnWire, WriteRequest, WriteReply;
    if 1 <= |values| <= 123 && offset + |values| <= 65536 {
      var frame := OnWire(t, sequence, WriteRequest(unit, offset, values));
      WriteSucceedsIff(t, sequence, unit, offset, values, line(k, frame));
    }
  }

  lemma ParsesInExchange(t: Transport, sequence: u16, adu: seq<byte>)
    requires |adu| < 0x1_0000
    ensures var frame := Encased(t, false, sequence, adu);
      Agrees(t, frame, Expected(t, sequence)) && frame == Encased(t, false, TransactionOf(t, frame), adu)
  {
    TransactionRoundTrip(t, false, sequence, adu);
  }

  lemma SameCase(t: Transport, sequence: u16, frame: seq<byte>, adu: seq<byte>)
    requires |adu| < 0x1_0000
    ensures Agrees(t, frame, Expected(t, sequence)) && frame == Encased(t, false, TransactionOf(t, frame), adu) ==>
            frame == Encased(t, false, sequence, adu)
  {}

  /** A write is confirmed exactly when the bytes that arrive begin with the echo of it. */
  lemma {:induction false} WriteSucceedsIff(
    t: Transport, sequence: u16, unit: byte, offset: u16, values: seq<u16>, arrived: seq<seq<byte>>)
    requires 1 <= |values| <= 123
    ensures var (code, echoed) := Echo(values);
      WriteConfirmed(t, sequence, unit, offset, values, arrived).Success? <==>
      OnWire(t, sequence, WriteReply(unit, code, offset, echoed)) <= Flatten(arrived)
  {
    hide Awaited, ParsedWrite, Encased, OnWire, TransactionOf;
    var (code, echoed) := Echo(values);
    var awaited, reply := Awaited(t, arrived), WriteReply(unit, code, offset, echoed);
    AwaitedIff(t, sequence, reply, arrived);
    ParsesInExchange(t, sequence, reply);
    if awaited.Success? {
      WriteParsesIffEchoed(t, awaited.value, unit, code, offset, echoed, false, Expected(t, sequence));
      SameCase(t, sequence, awaited.value, reply);
    }
  }

  /**
   * A register reply that is not the one asked for is told apart: by its
   * transaction on TCP, then its unit, its function and its number of
   * registers, in this order.
   */
  lemma ReplyIsJudged(
    t: Transport, sequence: u16, from: u16, unit: byte, sender: byte, bank: Bank, sent: Bank, count: u16,
    registers: seq<u16>, arrived: seq<seq<byte>>)
    requires |registers| <= 125 && OnWire(t, from, RegistersReply(sender, Code(sent), registers)) <= Flatten(arrived)
    ensures RegistersRead(t, sequence, unit, Code(bank), count, arrived) ==
      if t.Tcp? && from != sequence then Failure(ModbusError.WrongTransactionId)
      else if sender != unit then Failure(ModbusError.WrongId)
      else if sent != bank then Failure(ModbusError.UnexpectedResponse)
      else if |registers| != count then Failure(ModbusError.InvalidLength)
      else Success(registers)
  {
    hide OnWire, Awaited, Unwrap;
    var adu := RegistersReply(sender, Code(sent), registers);
    AwaitedIff(t, from, adu, arrived);
    UnwrapReply(t, sequence, from, adu);
    hide Encased;
    assert adu[3..] == WordsBe(registers);
    WordsRoundTrip(adu[3..], registers);
  }

  /** Likewise an echo: by its transaction on TCP, its unit, and then its function, address and value together. */
  lemma EchoIsJudged(
    t: Transport, sequence: u16, from: u16, unit: byte, sender: byte, code: byte, offset: u16, address: u16,
    values: seq<u16>, echoed: u16, arrived: seq<seq<byte>>)
    requires 1 <= |values| <= 123 && (code == 5 || code == 6 || code == 16)
    requires OnWire(t, from, WriteReply(sender, code, address, echoed)) <= Flatten(arrived)
    ensures WriteConfirmed(t, sequence, unit, offset, values, arrived) ==
      if t.Tcp? && from != sequence then Failure(ModbusError.WrongTransactionId)
      else if sender != unit then Failure(ModbusError.WrongId)
      else if code == (if |values| == 1 then 6 else 16) && address == offset
              && echoed == (if |values| == 1 then values[0] else |values|) then Success(())
      else Failure(ModbusError.UnexpectedResponse)
  {
    hide OnWire, Awaited, Unwrap;
    var adu := WriteReply(sender, code, address, echoed);
    AwaitedIff(t, from, adu, arrived);
    UnwrapReply(t, sequence, from, adu);
    hide Encased;
    assert adu[2..4] == U16Be(address) && adu[4..6] == U16Be(echoed);
    U16BeRoundTrip(address, adu[2], adu[3]);
    U16BeRoundTrip(echoed, adu[4], adu[5]);
  }

  lemma UnwrapReply(t: Transport, sequence: u16, from: u16, adu: seq<byte>)
    requires 3 <= |adu| < 0x1_0000
    ensures Unwrap(t, Encased(t, false, from, adu), false, Expected(t, sequence)) ==
      if t.Tcp? && from != sequence then Err(ProtocolError.WrongTransactionId, 0) else Ok(adu)
  {
    var frame := Encased(t, false, from, adu);
    if t.Tcp? {
      TransactionRoundTrip(t, false, from, adu);
      TcpInverts(frame, adu);
      assert frame == Encased(Tcp, true, TransactionOf(Tcp, frame), adu);
    }
  }

  /** Any exception reply that arrives is reported as one, whatever was asked. */
  lemma ExceptionReaches(
    t: Transport, sequence: u16, from: u16, unit: byte, code: byte, count: u16, offset: u16, values: seq<u16>,
    sender: byte, refused: byte, reason: byte, arrived: seq<seq<byte>>)
    requires 1 <= |values| <= 123
    requires OnWire(t, from, ExceptionReply(sender, refused, reason)) <= Flatten(arrived)
    ensures RegistersRead(t, sequence, unit, code, count, arrived) == Failure(ModbusError.ExceptionResponse)
    ensures WriteConfirmed(t, sequence, unit, offset, values, arrived) == Failure(ModbusError.ExceptionResponse)
  {
    hide OnWire, Awaited;
    AwaitedIff(t, from, ExceptionReply(sender, refused, reason), arrived);
  }

  /**
   * On TCP any frame of up to 260 bytes that arrives is let through or, by the
   * top bit of its function code, reported as an exception.
   */
  lemma TcpFrameIsJudged(frame: seq<byte>, arrived: seq<seq<byte>>)
    requires 8 <= |frame| <= 260 && FromBe(frame[4], frame[5]) == |frame| - 6 && frame <= Flatten(arrived)
    ensures Awaited(Tcp, arrived) ==
      if frame[7] >= 128 then Failure(ModbusError.ExceptionResponse) else Success(frame)
  {
    hide OnChunks;
    BeginningIsHandedOver(Tcp, frame, arrived);
  }

  /** A frame that announces more than 260 bytes is handed over as far as it came, and then found damaged. */
  lemma OverlongIsDamaged(frame: seq<byte>)
    requires |frame| >= 6 && FromBe(frame[4], frame[5]) > 254 && FromBe(frame[4], frame[5]) != |frame| - 6
    ensures Awaited(Tcp, [frame]) == Failure(ModbusError.CrcMismatch)
  {
    OneChunkOnly(Tcp, CLEARED, frame);
    assert [] + frame == frame && frame[..|frame|] == frame;
  }

  /** A TCP frame that ends before its function code is taken for an exception. */
  lemma NoFunctionCode(frame: seq<byte>, arrived: seq<seq<byte>>)
    requires 6 <= |frame| <= 7 && frame[4] == 0 && frame[5] as int == |frame| - 6 && frame <= Flatten(arrived)
    ensures Awaited(Tcp, arrived) == Failure(ModbusError.ExceptionResponse)
  {
    hide OnChunks;
    BeginningIsHandedOver(Tcp, frame, arrived);
  }

  /** A reply that stops short of its end is a reply that never came. */
  lemma CutShort(t: Transport, transaction: u16, adu: seq<byte>, arrived: seq<seq<byte>>)
    requires StandardReply(adu)
    requires var frame := OnWire(t, transaction, adu); Flatten(arrived) < frame
    ensures Awaited(t, arrived) == Failure(ModbusError.UnexpectedResponse)
  {
    hide OnWire;
    var frame := OnWire(t, transaction, adu);
    StandardReplySelfFrames(t, transaction, adu);
    SelfFramingIs(t, frame);
    assert frame[..0] == [] && frame[0..|Flatten(arrived)|] == Flatten(arrived);
    NothingEarly(t, frame, 0, arrived);
  }

  /**
   * On RTU, a register reply with one byte altered on the way gives no
   * registers at all; behind the byte count the damage is reported as such.
   */
  lemma AlteredReplyIsRefused(
    sequence: u16, unit: byte, code: byte, registers: seq<u16>, i: nat, altered: byte, arrived: seq<seq<byte>>)
    requires 1 <= |registers| <= 125 && (code == READ_HOLDING || code == READ_INPUT)
    requires var frame := OnWire(Rtu, sequence, RegistersReply(unit, code, registers));
      i < |frame| && altered != frame[i] && frame[i := altered] <= Flatten(arrived)
    ensures RegistersRead(Rtu, sequence, unit, code, |registers|, arrived).Failure?
    ensures i >= 3 ==>
      RegistersRead(Rtu, sequence, unit, code, |registers|, arrived) == Failure(ModbusError.CrcMismatch)
  {
    hide RegistersRead, RegistersReply, CrcBytes;
    SameLength(unit, code, registers, registers);
    var r := RegistersRead(Rtu, sequence, unit, code, |registers|, arrived);
    var adu := RegistersReply(unit, code, registers);
    var frame := OnWire(Rtu, sequence, adu);
    if r.Success? {
      ReadSucceedsIff(Rtu, sequence, unit, code, |registers|, arrived, r.value);
      var adu' := RegistersReply(unit, code, r.value);
      SameLength(unit, code, registers, r.value);
      assert frame[i := altered] == Flatten(arrived)[..|frame|] == OnWire(Rtu, sequence, adu');
      OneByteApart(adu, adu', i, altered);
    }
    if i >= 3 {
      var damaged := frame[i := altered];
      AlteredFrames(unit, code, registers, i, altered);
      BeginningIsHandedOver(Rtu, damaged, arrived);
      AlteredCrc(adu, i, altered);
      DamageIsReported(sequence, unit, code, |registers|, arrived);
    }
  }

  /** The function code and the byte count still tell where the damaged frame ends. */
  lemma AlteredFrames(unit: byte, code: byte, registers: seq<u16>, i: nat, altered: byte)
    requires 1 <= |registers| <= 125 && (code == READ_HOLDING || code == READ_INPUT)
    requires 3 <= i < 5 + 2 * |registers|
    ensures var adu := RegistersReply(unit, code, registers);
      var damaged := (adu + CrcBytes(adu))[i := altered];
      SelfFraming(Rtu, damaged) && !Unbounded(Rtu, damaged) && |damaged| == 5 + 2 * |registers|
  {
    hide CrcBytes;
  }

  lemma AlteredCrc(adu: seq<byte>, i: nat, altered: byte)
    requires i < |adu| + 2 && altered != (adu + CrcBytes(adu))[i]
    ensures !HandOver(Rtu, (adu + CrcBytes(adu))[i := altered]).crcOk
  {
    var damaged, end := (adu + CrcBytes(adu))[i := altered], |adu|;
    if HandOver(Rtu, damaged).crcOk {
      var adu' := damaged[..end];
      FromBytesSplits(CrcOf(adu'), damaged[end], damaged[end + 1]);
      assert damaged == adu' + CrcBytes(adu');
      OneByteApart(adu, adu', i, altered);
    }
  }

  lemma DamageIsReported(sequence: u16, unit: byte, code: byte, count: u16, arrived: seq<seq<byte>>)
    requires var state := OnChunks(Rtu, CLEARED, arrived); state.delivered != [] && !state.crcOk
    ensures RegistersRead(Rtu, sequence, unit, code, count, arrived) == Failure(ModbusError.CrcMismatch)
  {}

  lemma SameLength(unit: byte, code: byte, a: seq<u16>, b: seq<u16>)
    requires |a| == |b| <= 127
    ensures |RegistersReply(unit, code, a)| == |RegistersReply(unit, code, b)| == 3 + 2 * |a|
  {}

  /** Two different RTU frames of the same length differ in more than one byte. */
  lemma OneByteApart(adu: seq<byte>, adu': seq<byte>, i: nat, altered: byte)
    requires |adu| == |adu'| && i < |adu| + 2
    requires (adu + CrcBytes(adu))[i := altered] == adu' + CrcBytes(adu')
    ensures altered == (adu + CrcBytes(adu))[i]
  {
    var one, two := adu + CrcBytes(adu), adu' + CrcBytes(adu');
    assert adu == one[..|adu|] && adu' == two[..|adu|];
    if i < |adu| {
      assert adu' == adu[i := altered];
      assert CrcBytes(adu') == two[|adu|..] == one[|adu|..] == CrcBytes(adu);
      FromBytesSplits(CrcOf(adu), CrcBytes(adu)[0], CrcBytes(adu)[1]);
      FromBytesSplits(CrcOf(adu'), CrcBytes(adu)[0], CrcBytes(adu)[1]);
      SingleByteDetected(adu, i, altered);
    } else {
      assert adu' == adu;
    }
  }

  // ---------------------------------------------------------------- a slave at the other end

  datatype Bank = Holding | Input

  function Code(bank: Bank): byte {
    if bank.Holding? then READ_HOLDING else READ_INPUT
  }

  datatype Slave = Slave(holding: seq<u16>, inputs: seq<u16>) {
    predicate Valid() { |holding| == |inputs| == ADDRESSES }

    function Registers(bank: Bank): seq<u16> { if bank.Holding? then holding else inputs }
  }

  function Written(memory: seq<u16>, address: nat, words: seq<u16>): (after: seq<u16>)
    requires address + |words| <= |memory|
    ensures |after| == |memory|
  {
    memory[..address] + words + memory[address + |words|..]
  }

  const ILLEGAL_FUNCTION: byte := 1
  const ILLEGAL_ADDRESS: byte := 2
  const ILLEGAL_VALUE: byte := 3

  /** How a slave carries out a request, and what it replies: function codes as the standard numbers them. */
  function Performed(slave: Slave, adu: seq<byte>): (r: (Slave, seq<byte>))
    requires slave.Valid() && |adu| >= 3
    ensures r.0.Valid() && |r.1| < 0x1_0000
  {
    var unit, code := adu[0], adu[1];
    if code == 3 || code == 4 then
      if |adu| != 6 then (slave, ExceptionReply(unit, code, ILLEGAL_VALUE))
      else
        var offset, count := FromBe(adu[2], adu[3]), FromBe(adu[4], adu[5]);
        if !(1 <= count <= 125) then (slave, ExceptionReply(unit, code, ILLEGAL_VALUE))
        else if offset + count > ADDRESSES then (slave, ExceptionReply(unit, code, ILLEGAL_ADDRESS))
        else
          var memory := slave.Registers(if code == 3 then Holding else Input);
          (slave, RegistersReply(unit, code, memory[offset..offset + count]))
    else if code == 6 then
      if |adu| != 6 then (slave, ExceptionReply(unit, code, ILLEGAL_VALUE))
      else
        var offset, value := FromBe(adu[2], adu[3]), FromBe(adu[4], adu[5]);
        (slave.(holding := Written(slave.holding, offset, [value])), WriteReply(unit, code, offset, value))
    else if code == 16 then
      if |adu| < 7 || adu[6] != |adu| - 7 || adu[6] != 2 * FromBe(adu[4], adu[5]) || adu[6] == 0
      then (slave, ExceptionReply(unit, code, ILLEGAL_VALUE))
      else
        var offset, count := FromBe(adu[2], adu[3]), FromBe(adu[4], adu[5]);
        if offset + count > ADDRESSES then (slave, ExceptionReply(unit, code, ILLEGAL_ADDRESS))
        else
          (slave.(holding := Written(slave.holding, offset, BytesToWords(adu[7..]))),
           WriteReply(unit, code, offset, count))
    else (slave, ExceptionReply(unit, code, ILLEGAL_FUNCTION))
  }

  /** The exceptions of the standard: an illegal count, address or function. */
  lemma SlaveRefuses(slave: Slave, unit: byte, code: byte, offset: u16, count: u16)
    requires slave.Valid()
    ensures var (after, reply) := Performed(slave, ReadRequest(unit, code, offset, count));
      && ((code == 3 || code == 4) && !(1 <= count <= 125) ==>
            after == slave && reply == [unit, code + 128, 3])
      && ((code == 3 || code == 4) && 1 <= count <= 125 && offset + count > 65536 ==>
            after == slave && reply == [unit, code + 128, 2])
      && (code < 128 && code !in {3, 4, 6, 16} ==> after == slave && reply == [unit, code + 128, 1])
  {
    hide U16Be, Written, WordsBe;
    var adu := ReadRequest(unit, code, offset, count);
    assert adu[2..4] == U16Be(offset) && adu[4..6] == U16Be(count);
    U16BeRoundTrip(offset, adu[2], adu[3]);
    U16BeRoundTrip(count, adu[4], adu[5]);
  }

  /** A slave stays silent on frames that are damaged or meant for another unit. */
  function Served(t: Transport, unit: byte, slave: Slave, frame: seq<byte>): (r: (Slave, seq<byte>))
    requires slave.Valid()
    ensures r.0.Valid()
  {
    var adu := Unwrap(t, frame, true, None);
    if adu.Err? || adu.value[0] != unit then (slave, [])
    else
      var (after, reply) := Performed(slave, adu.value);
      (after, OnWire(t, TransactionOf(t, frame), reply))
  }

  /** How the k-th reply is cut up on its way, and what follows it. */
  type Cut = (nat, seq<byte>) -> seq<seq<byte>>

  ghost predicate CutsOnly(cut: Cut) {
    forall k: nat, bytes {:trigger cut(k, bytes)} :: bytes <= Flatten(cut(k, bytes))
  }

  lemma SomeSlave(registers: seq<u16>)
    ensures Slave(registers, registers).Valid() <==> |registers| == 65536
    ensures CutsOnly((k, bytes) => [bytes])
  {
    forall bytes: seq<byte> ensures Flatten([bytes]) == bytes {
      assert [bytes][1..] == [] && bytes + [] == bytes;
    }
  }

  function LineTo(t: Transport, unit: byte, slave: Slave, cut: Cut): Line
    requires slave.Valid()
  {
    (k, frame) => cut(k, Served(t, unit, slave, frame).1)
  }

  // ---------------------------------------------------------------- requests as the slave understands them

  lemma UnderstoodAs(t: Transport, transaction: u16, unit: byte, slave: Slave, adu: seq<byte>)
    requires slave.Valid() && 3 <= |adu| < 0x1_0000 && adu[0] == unit
    ensures var (after, reply) := Performed(slave, adu);
      Served(t, unit, slave, OnWire(t, transaction, adu)) == (after, OnWire(t, transaction, reply))
  {
    hide Unwrap, Performed, CrcBytes, U16Be;
    var frame := OnWire(t, transaction, adu);
    TransactionRoundTrip(t, true, transaction, adu);
    UnwrapInverts(t, frame, true, None, adu);
  }

  lemma ReadServed(t: Transport, transaction: u16, unit: byte, slave: Slave, bank: Bank, offset: u16, count: u16)
    requires slave.Valid() && IsValidReadRange(offset, count)
    ensures Served(t, unit, slave, OnWire(t, transaction, ReadRequest(unit, Code(bank), offset, count)))
         == (slave,
             OnWire(t, transaction, RegistersReply(unit, Code(bank), slave.Registers(bank)[offset..offset + count])))
  {
    hide Served, OnWire, U16Be, RegistersReply;
    var adu := ReadRequest(unit, Code(bank), offset, count);
    UnderstoodAs(t, transaction, unit, slave, adu);
    assert adu[2..4] == U16Be(offset) && adu[4..6] == U16Be(count);
    U16BeRoundTrip(offset, adu[2], adu[3]);
    U16BeRoundTrip(count, adu[4], adu[5]);
  }

  lemma WriteServed(t: Transport, transaction: u16, unit: byte, slave: Slave, offset: u16, values: seq<u16>)
    requires slave.Valid() && 1 <= |values| <= 123 && offset + |values| <= ADDRESSES
    ensures var (code, echoed) := Echo(values);
      Served(t, unit, slave, OnWire(t, transaction, WriteRequest(unit, offset, values)))
      == (slave.(holding := Written(slave.holding, offset, values)),
          OnWire(t, transaction, WriteReply(unit, code, offset, echoed)))
  {
    hide Served, OnWire, U16Be, WordsBe, BytesToWords, WriteReply, Written;
    var adu := WriteRequest(unit, offset, values);
    var (code, echoed) := Echo(values);
    UnderstoodAs(t, transaction, unit, slave, adu);
    assert adu[2..4] == U16Be(offset) && adu[4..6] == U16Be(echoed);
    U16BeRoundTrip(offset, adu[2], adu[3]);
    U16BeRoundTrip(echoed, adu[4], adu[5]);
    if |values| == 1 {
      assert values == [values[0]];
    } else {
      assert adu[7..] == WordsBe(values);
      WordsRoundTrip(adu[7..], values);
    }
  }

  // ---------------------------------------------------------------- a session

  datatype Call =
    | ReadCall(bank: Bank, offset: u16, count: u16)
    | WriteCall(offset: u16, count: u16, values: seq<u16>)

  datatype Answer = Registers(registers: Result<seq<u16>>) | Wrote(written: Result<()>)

  /** Port and slave between two calls: the next transaction, how many frames were sent, the registers. */
  datatype Link = Link(sequence: u16, sent: nat, slave: Slave)

  function AfterFrame(t: Transport, unit: byte, link: Link, frame: Parsed<seq<byte>>): (after: Link)
    requires link.slave.Valid()
    ensures after.slave.Valid()
  {
    var next := NextSequence(t, link.sequence);
    if frame.Err? then link.(sequence := next)
    else Link(next, link.sent + 1, Served(t, unit, link.slave, frame.value).0)
  }

  /** One call, over the wire. */
  function Called(t: Transport, unit: byte, link: Link, call: Call, cut: Cut): (r: (Link, Answer))
    requires link.slave.Valid()
    ensures r.0.slave.Valid()
  {
    var line := LineTo(t, unit, link.slave, cut);
    match call
    case ReadCall(bank, offset, count) =>
      var frame := BuildReadRequest(t, link.sequence, unit, Code(bank), offset, count);
      (AfterFrame(t, unit, link, frame),
       Registers(ReadOnce(t, link.sequence, unit, Code(bank), Request(offset, count), line, link.sent)))
    case WriteCall(offset, count, values) =>
      if count != |values| then (link, Wrote(Failure(ModbusError.InvalidRequest)))
      else
        var frame := WriteFrame(t, link.sequence, unit, offset, values);
        var written := WriteOnce(t, link.sequence, unit, offset, values, line, link.sent);
        (AfterFrame(t, unit, link, frame),
         Wrote(if written.Failure? then Failure(written.error) else Success(())))
  }

  function Session(t: Transport, unit: byte, link: Link, calls: seq<Call>, cut: Cut): (r: (Link, seq<Answer>))
    requires link.slave.Valid()
    ensures r.0.slave.Valid()
    decreases calls
  {
    if calls == [] then (link, [])
    else
      var (next, answer) := Called(t, unit, link, calls[0], cut);
      var (last, answers) := Session(t, unit, next, calls[1..], cut);
      (last, [answer] + answers)
  }

  /** The same call on the registers themselves. */
  function Direct(slave: Slave, call: Call): (r: (Slave, Answer))
    requires slave.Valid()
    ensures r.0.Valid()
  {
    match call
    case ReadCall(bank, offset, count) =>
      if 1 <= count <= 125 && offset + count <= ADDRESSES
      then
        var memory := if bank == Input then slave.inputs else slave.holding;
        (slave, Registers(Success(memory[offset..offset + count])))
      else (slave, Registers(Failure(ModbusError.InvalidRequest)))
    case WriteCall(offset, count, values) =>
      if count == |values| && 1 <= count <= 123 && offset + count <= ADDRESSES
      then (slave.(holding := Written(slave.holding, offset, values)), Wrote(Success(())))
      else (slave, Wrote(Failure(ModbusError.InvalidRequest)))
  }

  function DirectAll(slave: Slave, calls: seq<Call>): (r: (Slave, seq<Answer>))
    requires slave.Valid()
    ensures r.0.Valid()
    decreases calls
  {
    if calls == [] then (slave, [])
    else
      var (next, answer) := Direct(slave, calls[0]);
      var (last, answers) := DirectAll(next, calls[1..]);
      (last, [answer] + answers)
  }

  lemma {:induction false} ReadIsDirect(
    t: Transport, sequence: u16, unit: byte, slave: Slave, bank: Bank, q: Request, cut: Cut, k: nat)
    requires slave.Valid() && CutsOnly(cut) && IsValidReadRange(q.offset, q.count)
    ensures ReadOnce(t, sequence, unit, Code(bank), q, LineTo(t, unit, slave, cut), k)
         == Success(slave.Registers(bank)[q.offset..q.offset + q.count])
  {
    hide Served, OnWire, RegistersRead, RegistersReply;
    var frame := OnWire(t, sequence, ReadRequest(unit, Code(bank), q.offset, q.count));
    ReadServed(t, sequence, unit, slave, bank, q.offset, q.count);
    ReadSucceedsIff(t, sequence, unit, Code(bank), q.count, cut(k, Served(t, unit, slave, frame).1),
                    slave.Registers(bank)[q.offset..q.offset + q.count]);
  }

  /** A call over the wire does and answers what it does on the registers themselves. */
  lemma {:induction false} CallIsDirect(t: Transport, unit: byte, link: Link, call: Call, cut: Cut)
    requires link.slave.Valid() && CutsOnly(cut)
    ensures var (after, answer) := Called(t, unit, link, call, cut);
      (after.slave, answer) == Direct(link.slave, call)
  {
    hide Served, OnWire, RegistersRead, WriteConfirmed, RegistersReply, WriteReply, WriteRequest, Written;
    var slave := link.slave;
    match call
    case ReadCall(bank, offset, count) =>
      if IsValidReadRange(offset, count) {
        ReadServed(t, link.sequence, unit, slave, bank, offset, count);
        ReadIsDirect(t, link.sequence, unit, slave, bank, Request(offset, count), cut, link.sent);
      }
    case WriteCall(offset, count, values) =>
      if count == |values| && 1 <= count <= 123 && offset + count <= ADDRESSES {
        var frame := OnWire(t, link.sequence, WriteRequest(unit, offset, values));
        WriteServed(t, link.sequence, unit, slave, offset, values);
        WriteSucceedsIff(t, link.sequence, unit, offset, values, cut(link.sent, Served(t, unit, slave, frame).1));
      }
  }

  /**
   * A whole session of reads and writes, over either transport and with every
   * reply cut up in any way, leaves the slave and answers the caller exactly
   * as the same calls do on the registers themselves.
   */
  lemma {:induction false} SessionIsDirect(t: Transport, unit: byte, link: Link, calls: seq<Call>, cut: Cut)
    requires link.slave.Valid() && CutsOnly(cut)
    ensures var (last, answers) := Session(t, unit, link, calls, cut);
      (last.slave, answers) == DirectAll(link.slave, calls)
    decreases calls
  {
    hide Called, Direct;
    if calls != [] {
      CallIsDirect(t, unit, link, calls[0], cut);
      SessionIsDirect(t, unit, Called(t, unit, link, calls[0], cut).0, calls[1..], cut);
    }
  }

  // ---------------------------------------------------------------- the link as a device to poll

  /** The transaction of the k-th frame after one with a given transaction. */
  function SequenceAt(t: Transport, first: u16, k: nat): u16 {
    if t.Tcp? then Wrap16(first + k) else first
  }

  lemma SequenceAdvances(t: Transport, first: u16, k: nat)
    ensures NextSequence(t, SequenceAt(t, first, k)) == SequenceAt(t, first, k + 1)
    ensures SequenceAt(t, first, 0) == first
  {}

  /** Single reads as the chunked read sees them. */
  function LinkDevice(t: Transport, first: u16, unit: byte, bank: Bank, line: Line): Device {
    (k, q) => ReadOnce(t, SequenceAt(t, first, k), unit, Code(bank), q, line, k)
  }

  /** Over a link whose far end is a slave, every request a PDU can carry is answered with the slave's registers. */
  lemma {:induction false} LinkIsFaithful(t: Transport, first: u16, unit: byte, bank: Bank, slave: Slave, cut: Cut)
    requires slave.Valid() && CutsOnly(cut)
    ensures Faithful(LinkDevice(t, first, unit, bank, LineTo(t, unit, slave, cut)), slave.Registers(bank))
  {
    hide ReadOnce, LineTo;
    var memory, device := slave.Registers(bank), LinkDevice(t, first, unit, bank, LineTo(t, unit, slave, cut));
    forall k: nat, q: Request {:trigger device(k, q)} | IsValidReadRange(q.offset, q.count)
      ensures device(k, q) == Success(memory[q.offset..q.offset + q.count])
    {
      ReadIsDirect(t, SequenceAt(t, first, k), unit, slave, bank, q, cut, k);
    }
  }
}
