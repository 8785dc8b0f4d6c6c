/** Modbus frames: building requests, framing and parsing replies, over RTU and TCP. */
module ModbusProtocol {
  import opened Bytes
  import opened Crc
  import ChunkedReads

  datatype Transport = Rtu | Tcp

  datatype ProtocolError =
    | InvalidRequestRange | FrameTooShort | CrcError | MbapLength | WrongTransactionId | WrongUnitId
    | WrongFunction | ExceptionResponse | ByteCountMismatch | UnexpectedResponse

  datatype Parsed<+T> = Ok(value: T) | Err(error: ProtocolError, exceptionCode: byte)

  const READ_COILS: byte := 1
  const READ_HOLDING: byte := 3
  const READ_INPUT: byte := 4
  const FORCE_COIL: byte := 5
  const WRITE_SINGLE: byte := 6
  const WRITE_MULTIPLE: byte := 16
  const MBAP_HEADER: nat := 6
  const MAX_TCP_FRAME: nat := 260

  // ---------------------------------------------------------------- bytes and words

  function U16Be(value: u16): (bytes: seq<byte>)
    ensures |bytes| == 2
  {
    [value / 0x100, value % 0x100]
  }

  function FromBe(high: byte, low: byte): u16 { high * 0x100 + low }

  lemma U16BeRoundTrip(value: u16, high: byte, low: byte)
    ensures U16Be(value) == [high, low] <==> FromBe(high, low) == value
  {}

  function WordsBe(words: seq<u16>): (bytes: seq<byte>)
    ensures |bytes| == 2 * |words|
  {
    if words == [] then [] else U16Be(words[0]) + WordsBe(words[1..])
  }

  function BytesToWords(bytes: seq<byte>): (words: seq<u16>)
    requires |bytes| % 2 == 0
    ensures 2 * |words| == |bytes|
  {
    if bytes == [] then [] else [FromBe(bytes[0], bytes[1])] + BytesToWords(bytes[2..])
  }

  lemma {:induction false} WordsRoundTrip(bytes: seq<byte>, words: seq<u16>)
    requires |bytes| % 2 == 0
    ensures BytesToWords(bytes) == words <==> bytes == WordsBe(words)
  {
    if bytes == [] {
      assert |WordsBe(words)| == 2 * |words|;
    } else if words == [] {
      assert BytesToWords(bytes) != [];
    } else {
      WordsRoundTrip(bytes[2..], words[1..]);
      U16BeRoundTrip(words[0], bytes[0], bytes[1]);
      assert bytes == [bytes[0], bytes[1]] + bytes[2..] && words == [words[0]] + words[1..];
      assert WordsBe(words)[..2] == U16Be(words[0]) && WordsBe(words)[2..] == WordsBe(words[1..]);
      assert BytesToWords(bytes)[1..] == BytesToWords(bytes[2..]);
    }
  }

  // ---------------------------------------------------------------- frames around a unit's data

  /** The two CRC bytes that close an RTU frame. */
  function CrcBytes(adu: seq<byte>): (bytes: seq<byte>)
    ensures |bytes| == 2
  {
    [LowByte(CrcOf(adu)), HighByte(CrcOf(adu))]
  }

  /** A frame as it is parsed: TCP behind its MBAP header; RTU with its CRC, or already stripped of it. */
  function Encased(t: Transport, hasCrc: bool, transaction: u16, adu: seq<byte>): seq<byte>
    requires |adu| < 0x1_0000
  {
    match t
    case Tcp => U16Be(transaction) + [0, 0] + U16Be(|adu|) + adu
    case Rtu => if hasCrc then adu + CrcBytes(adu) else adu
  }

  /** A frame as it travels. */
  function OnWire(t: Transport, transaction: u16, adu: seq<byte>): seq<byte>
    requires |adu| < 0x1_0000
  {
    Encased(t, true, transaction, adu)
  }

  /** The transaction identifier a frame carries. */
  function TransactionOf(t: Transport, frame: seq<byte>): u16 {
    if t.Tcp? && |frame| >= 2 then FromBe(frame[0], frame[1]) else 0
  }

  /** The checks all three parsers begin with, up to the unit identifier. */
  function Unwrap(t: Transport, frame: seq<byte>, hasCrc: bool, expected: Option<u16>): (r: Parsed<seq<byte>>)
    ensures r.Ok? ==> 3 <= |r.value| <= |frame|
  {
    if t.Tcp? then
      if |frame| < 9 then Err(FrameTooShort, 0)
      else if FromBe(frame[2], frame[3]) != 0 || FromBe(frame[4], frame[5]) != |frame| - MBAP_HEADER
      then Err(MbapLength, 0)
      else if expected.Some? && FromBe(frame[0], frame[1]) != expected.value then Err(WrongTransactionId, 0)
      else Ok(frame[MBAP_HEADER..])
    else if hasCrc then
      if |frame| < 5 then Err(FrameTooShort, 0)
      else
        var end := |frame| - 2;
        if CrcOf(frame[..end]) != FromBytes(frame[end], frame[end + 1]) then Err(CrcError, 0)
        else Ok(frame[..end])
    else if |frame| < 3 then Err(FrameTooShort, 0)
    else Ok(frame)
  }

  /** The function code of an exception reply. */
  function ExceptionCode(functionCode: byte): byte {
    if functionCode < 0x80 then functionCode + 0x80 else functionCode
  }

  /** The checks on unit and function, which all three parsers share. */
  function Head(t: Transport, frame: seq<byte>, unit: byte, functionCode: byte, hasCrc: bool, expected: Option<u16>)
    : (r: Parsed<seq<byte>>)
    ensures r.Ok? ==> 3 <= |r.value| <= |frame|
  {
    var adu := Unwrap(t, frame, hasCrc, expected);
    if adu.Err? then adu
    else if adu.value[0] != unit then Err(WrongUnitId, 0)
    else if adu.value[1] == ExceptionCode(functionCode) then Err(ExceptionResponse, adu.value[2])
    else if adu.value[1] != functionCode then Err(WrongFunction, 0)
    else adu
  }

  // ---------------------------------------------------------------- replies

  function RegistersReply(unit: byte, functionCode: byte, registers: seq<u16>): seq<byte>
    requires |registers| <= 127
  {
    [unit, functionCode, 2 * |registers|] + WordsBe(registers)
  }

  function BitsReply(unit: byte, functionCode: byte, packed: seq<byte>): seq<byte>
    requires |packed| <= 0xFF
  {
    [unit, functionCode, |packed|] + packed
  }

  function WriteReply(unit: byte, functionCode: byte, offset: u16, valueOrCount: u16): seq<byte> {
    [unit, functionCode] + U16Be(offset) + U16Be(valueOrCount)
  }

  function ExceptionReply(unit: byte, functionCode: byte, code: byte): seq<byte> {
    [unit, ExceptionCode(functionCode), code]
  }

  function ParsedRegisters(
    t: Transport, frame: seq<byte>, unit: byte, functionCode: byte, count: u16, hasCrc: bool, expected: Option<u16>)
    : Parsed<seq<u16>>
  {
    var head := Head(t, frame, unit, functionCode, hasCrc, expected);
    if head.Err? then Err(head.error, head.exceptionCode)
    else
      var adu := head.value;
      var byteCount: nat := adu[2];
      if byteCount % 2 != 0 || 3 + byteCount != |adu| || byteCount != count * 2 then Err(ByteCountMismatch, 0)
      else Ok(BytesToWords(adu[3..]))
  }

  method ParseReadRegistersResponse(
    t: Transport, frame: seq<byte>, unit: byte, functionCode: byte, count: u16, hasCrc: bool, expected: Option<u16>)
    returns (r: Parsed<seq<u16>>)
    ensures r == ParsedRegisters(t, frame, unit, functionCode, count, hasCrc, expected)
  {
    hide Head, BytesToWords;
    var head := Head(t, frame, unit, functionCode, hasCrc, expected);
    if head.Err? {
      return Err(head.error, head.exceptionCode);
    }
    var adu := head.value;
    var byteCount: nat := adu[2];
    if byteCount % 2 != 0 || 3 + byteCount != |adu| || byteCount != count * 2 {
      return Err(ByteCountMismatch, 0);
    }
    var registers := ReadWords(adu, 3);
    return Ok(registers);
  }

  method ReadWords(adu: seq<byte>, start: nat) returns (registers: seq<u16>)
    requires start <= |adu| && (|adu| - start) % 2 == 0
    ensures registers == BytesToWords(adu[start..])
  {
    registers := [];
    var i := start;
    while i < |adu|
      invariant start <= i <= |adu| && (|adu| - i) % 2 == 0
      invariant registers + BytesToWords(adu[i..]) == BytesToWords(adu[start..])
    {
      assert adu[i..][2..] == adu[i + 2..];
      registers := registers + [FromBe(adu[i], adu[i + 1])];
      i := i + 2;
    }
    assert adu[|adu|..] == [] && registers + [] == registers;
  }

  function ParsedBits(
    t: Transport, frame: seq<byte>, unit: byte, functionCode: byte, count: u16, hasCrc: bool, expected: Option<u16>)
    : Parsed<seq<byte>>
  {
    var head := Head(t, frame, unit, functionCode, hasCrc, expected);
    if head.Err? then head
    else
      var adu := head.value;
      var byteCount: nat := adu[2];
      if byteCount != (count + 7) / 8 || 3 + byteCount != |adu| then Err(ByteCountMismatch, 0)
      else Ok(adu[3..])
  }

  function ParsedWrite(
    t: Transport, frame: seq<byte>, unit: byte, functionCode: byte, offset: u16, valueOrCount: u16, hasCrc: bool,
    expected: Option<u16>)
    : Parsed<()>
  {
    var head := Head(t, frame, unit, functionCode, hasCrc, expected);
    if head.Err? then Err(head.error, head.exceptionCode)
    else
      var adu := head.value;
      if |adu| != 6 then Err(ByteCountMismatch, 0)
      else if FromBe(adu[2], adu[3]) != offset || FromBe(adu[4], adu[5]) != valueOrCount then Err(UnexpectedResponse, 0)
      else Ok(())
  }

  // ---------------------------------------------------------------- parsing inverts printing

  predicate Agrees(t: Transport, frame: seq<byte>, expected: Option<u16>) {
    t.Tcp? && expected.Some? ==> TransactionOf(t, frame) == expected.value
  }

  /** Unwrapping accepts exactly the frames that encase the data it returns. */
  lemma UnwrapInverts(t: Transport, frame: seq<byte>, hasCrc: bool, expected: Option<u16>, adu: seq<byte>)
    requires |adu| < 0x1_0000
    ensures Unwrap(t, frame, hasCrc, expected) == Ok(adu) <==>
      && |adu| >= 3
      && Agrees(t, frame, expected)
      && frame == Encased(t, hasCrc, TransactionOf(t, frame), adu)
  {
    if t.Tcp? {
      TcpInverts(frame, adu);
    } else if hasCrc {
      RtuInverts(frame, adu);
    }
  }

  lemma TcpInverts(frame: seq<byte>, adu: seq<byte>)
    requires |adu| < 0x1_0000
    ensures frame == Encased(Tcp, true, TransactionOf(Tcp, frame), adu) <==>
      && |frame| == MBAP_HEADER + |adu|
      && FromBe(frame[2], frame[3]) == 0 && FromBe(frame[4], frame[5]) == |adu|
      && frame[MBAP_HEADER..] == adu
  {
    if |frame| == MBAP_HEADER + |adu| {
      var transaction := FromBe(frame[0], frame[1]);
      U16BeRoundTrip(transaction, frame[0], frame[1]);
      U16BeRoundTrip(|adu|, frame[4], frame[5]);
      ZeroWord(frame[2], frame[3]);
      hide U16Be, FromBe;
      SameParts(frame, U16Be(transaction), [0, 0], U16Be(|adu|), adu);
    }
  }

  lemma SameParts(frame: seq<byte>, a: seq<byte>, b: seq<byte>, c: seq<byte>, d: seq<byte>)
    requires |a| == |b| == |c| == 2 && |frame| == 6 + |d|
    ensures frame == a + b + c + d <==>
      [frame[0], frame[1]] == a && [frame[2], frame[3]] == b && [frame[4], frame[5]] == c && frame[6..] == d
  {
    var whole := a + b + c + d;
    assert whole[..2] == a && whole[2..4] == b && whole[4..6] == c && whole[6..] == d;
    assert frame == [frame[0], frame[1]] + [frame[2], frame[3]] + [frame[4], frame[5]] + frame[6..];
  }

  lemma ZeroWord(high: byte, low: byte)
    ensures FromBe(high, low) == 0 <==> high == 0 && low == 0
  {}

  lemma RtuInverts(frame: seq<byte>, adu: seq<byte>)
    ensures frame == adu + CrcBytes(adu) <==>
      && |frame| >= 2
      && adu == frame[..|frame| - 2]
      && CrcOf(adu) == FromBytes(frame[|frame| - 2], frame[|frame| - 1])
  {
    if |frame| >= 2 {
      var end := |frame| - 2;
      FromBytesSplits(CrcOf(adu), frame[end], frame[end + 1]);
      assert frame == frame[..end] + [frame[end], frame[end + 1]];
      if frame == adu + CrcBytes(adu) {
        assert frame[..end] == adu;
      }
    }
  }

  lemma {:induction false} HeadInverts(
    t: Transport, frame: seq<byte>, unit: byte, functionCode: byte, hasCrc: bool, expected: Option<u16>, adu: seq<byte>)
    requires |adu| < 0x1_0000
    ensures Head(t, frame, unit, functionCode, hasCrc, expected) == Ok(adu) <==>
      && |adu| >= 3 && adu[0] == unit && adu[1] == functionCode && functionCode < 0x80
      && Agrees(t, frame, expected)
      && frame == Encased(t, hasCrc, TransactionOf(t, frame), adu)
  {
    hide Unwrap, Encased;
    UnwrapInverts(t, frame, hasCrc, expected, adu);
  }

  /**
   * The register parser returns given registers exactly when the frame is the
   * printed reply that carries them, under the expected transaction.
   */
  lemma {:induction false} RegistersParseIffPrinted(
    t: Transport, frame: seq<byte>, unit: byte, functionCode: byte, count: u16, hasCrc: bool, expected: Option<u16>,
    registers: seq<u16>)
    ensures ParsedRegisters(t, frame, unit, functionCode, count, hasCrc, expected) == Ok(registers) <==>
      && functionCode < 0x80 && |registers| == count <= 127
      && Agrees(t, frame, expected)
      && frame == Encased(t, hasCrc, TransactionOf(t, frame), RegistersReply(unit, functionCode, registers))
  {
    hide Head, Encased;
    var head := Head(t, frame, unit, functionCode, hasCrc, expected);
    if |registers| == count <= 127 {
      var reply := RegistersReply(unit, functionCode, registers);
      assert reply[3..] == WordsBe(registers);
      HeadInverts(t, frame, unit, functionCode, hasCrc, expected, reply);
      if head.Ok? && |head.value| == 3 + 2 * count && head.value[2] == count * 2 {
        var adu := head.value;
        WordsRoundTrip(adu[3..], registers);
        assert adu == [adu[0], adu[1], adu[2]] + adu[3..];
        HeadInverts(t, frame, unit, functionCode, hasCrc, expected, adu);
      }
    }
  }

  /** The bit parser, likewise. */
  lemma BitsParseIffPrinted(
    t: Transport, frame: seq<byte>, unit: byte, functionCode: byte, count: u16, hasCrc: bool, expected: Option<u16>,
    packed: seq<byte>)
    ensures ParsedBits(t, frame, unit, functionCode, count, hasCrc, expected) == Ok(packed) <==>
      && functionCode < 0x80 && |packed| == (count + 7) / 8 <= 0xFF
      && Agrees(t, frame, expected)
      && frame == Encased(t, hasCrc, TransactionOf(t, frame), BitsReply(unit, functionCode, packed))
  {
    hide Head, Encased;
    var head := Head(t, frame, unit, functionCode, hasCrc, expected);
    if |packed| == (count + 7) / 8 <= 0xFF {
      var reply := BitsReply(unit, functionCode, packed);
      assert reply[3..] == packed;
      HeadInverts(t, frame, unit, functionCode, hasCrc, expected, reply);
      if head.Ok? && |head.value| == 3 + |packed| && head.value[2] == |packed| {
        var adu := head.value;
        assert adu == [adu[0], adu[1], adu[2]] + adu[3..];
        HeadInverts(t, frame, unit, functionCode, hasCrc, expected, adu);
      }
    }
  }

  /** The write parser accepts exactly the echo of the request. */
  lemma WriteParsesIffEchoed(
    t: Transport, frame: seq<byte>, unit: byte, functionCode: byte, offset: u16, valueOrCount: u16, hasCrc: bool,
    expected: Option<u16>)
    ensures ParsedWrite(t, frame, unit, functionCode, offset, valueOrCount, hasCrc, expected).Ok? <==>
      && functionCode < 0x80
      && Agrees(t, frame, expected)
      && frame == Encased(t, hasCrc, TransactionOf(t, frame), WriteReply(unit, functionCode, offset, valueOrCount))
  {
    hide Head, Encased, FromBe, U16Be;
    var reply := WriteReply(unit, functionCode, offset, valueOrCount);
    var head := Head(t, frame, unit, functionCode, hasCrc, expected);
    HeadInverts(t, frame, unit, functionCode, hasCrc, expected, reply);
    assert reply[2..4] == U16Be(offset) && reply[4..6] == U16Be(valueOrCount);
    U16BeRoundTrip(offset, reply[2], reply[3]);
    U16BeRoundTrip(valueOrCount, reply[4], reply[5]);
    if head.Ok? && |head.value| == 6 {
      var adu := head.value;
      HeadInverts(t, frame, unit, functionCode, hasCrc, expected, adu);
      U16BeRoundTrip(offset, adu[2], adu[3]);
      U16BeRoundTrip(valueOrCount, adu[4], adu[5]);
      if FromBe(adu[2], adu[3]) == offset && FromBe(adu[4], adu[5]) == valueOrCount {
        assert adu == [adu[0], adu[1]] + [adu[2], adu[3]] + [adu[4], adu[5]];
      }
    }
  }

  /** An exception reply is recognised by every parser, with its code. */
  lemma {:induction false} ExceptionIsReported(
    t: Transport, transaction: u16, unit: byte, functionCode: byte, code: byte, hasCrc: bool, expected: Option<u16>)
    requires t.Tcp? && expected.Some? ==> transaction == expected.value
    ensures var frame := Encased(t, hasCrc, transaction, ExceptionReply(unit, functionCode, code));
      Head(t, frame, unit, functionCode, hasCrc, expected) == Err(ExceptionResponse, code)
  {
    hide Unwrap, Encased;
    var adu := ExceptionReply(unit, functionCode, code);
    var frame := Encased(t, hasCrc, transaction, adu);
    TransactionRoundTrip(t, hasCrc, transaction, adu);
    UnwrapInverts(t, frame, hasCrc, expected, adu);
  }

  /** Only an exception reply has an exception code. */
  lemma OnlyExceptionsHaveCodes(
    t: Transport, frame: seq<byte>, unit: byte, functionCode: byte, a: u16, b: u16, hasCrc: bool, expected: Option<u16>)
    ensures var r := ParsedRegisters(t, frame, unit, functionCode, a, hasCrc, expected);
      r.Err? && r.error != ExceptionResponse ==> r.exceptionCode == 0
    ensures var r := ParsedBits(t, frame, unit, functionCode, a, hasCrc, expected);
      r.Err? && r.error != ExceptionResponse ==> r.exceptionCode == 0
    ensures var r := ParsedWrite(t, frame, unit, functionCode, a, b, hasCrc, expected);
      r.Err? && r.error != ExceptionResponse ==> r.exceptionCode == 0
  {}

  lemma TransactionRoundTrip(t: Transport, hasCrc: bool, transaction: u16, adu: seq<byte>)
    requires |adu| < 0x1_0000
    ensures t.Tcp? ==> TransactionOf(t, Encased(t, hasCrc, transaction, adu)) == transaction
    ensures Encased(t, hasCrc, TransactionOf(t, Encased(t, hasCrc, transaction, adu)), adu)
         == Encased(t, hasCrc, transaction, adu)
  {
    if t.Tcp? {
      var frame := Encased(t, hasCrc, transaction, adu);
      assert frame[..2] == U16Be(transaction);
      U16BeRoundTrip(transaction, frame[0], frame[1]);
    }
  }

  // ---------------------------------------------------------------- requests

  function ReadRequest(unit: byte, functionCode: byte, offset: u16, count: u16): (adu: seq<byte>)
    ensures |adu| == 6
  {
    [unit, functionCode] + U16Be(offset) + U16Be(count)
  }

  function BuildReadRequest(
    t: Transport, transaction: u16, unit: byte, functionCode: byte, offset: u16, count: u16): Parsed<seq<byte>>
  {
    if !ChunkedReads.IsValidReadRange(offset, count) then Err(InvalidRequestRange, 0)
    else Ok(OnWire(t, transaction, ReadRequest(unit, functionCode, offset, count)))
  }

  /** Switching a coil: all ones or all zeros in the high byte, zero in the low one. */
  function BuildWriteCoilRequest(t: Transport, transaction: u16, unit: byte, offset: u16, value: bool): seq<byte> {
    OnWire(t, transaction, [unit, FORCE_COIL] + U16Be(offset) + U16Be(if value then 0xFF00 else 0))
  }

  /** One register is a single write, more are a multiple write. */
  function WriteRequest(unit: byte, offset: u16, values: seq<u16>): (adu: seq<byte>)
    requires 1 <= |values| <= 123
    ensures |adu| == if |values| == 1 then 6 else 7 + 2 * |values|
  {
    if |values| == 1 then [unit, WRITE_SINGLE] + U16Be(offset) + U16Be(values[0])
    else [unit, WRITE_MULTIPLE] + U16Be(offset) + U16Be(|values|) + [2 * |values|] + WordsBe(values)
  }

  function WriteFrame(t: Transport, transaction: u16, unit: byte, offset: u16, values: seq<u16>): Parsed<seq<byte>> {
    if values == [] || |values| > 123 || offset + |values| > 0x1_0000 then Err(InvalidRequestRange, 0)
    else Ok(OnWire(t, transaction, WriteRequest(unit, offset, values)))
  }

  method AppendWords(start: seq<byte>, words: seq<u16>) returns (frame: seq<byte>)
    ensures frame == start + WordsBe(words)
  {
    frame := start;
    for i := 0 to |words|
      invariant frame + WordsBe(words[i..]) == start + WordsBe(words)
    {
      assert words[i..][1..] == words[i + 1..];
      frame := frame + U16Be(words[i]);
    }
    assert words[|words|..] == [] && frame + [] == frame;
  }

  /** Push a write request's own bytes behind whatever header the frame has. */
  method AppendWriteRequest(header: seq<byte>, unit: byte, offset: u16, values: seq<u16>) returns (frame: seq<byte>)
    requires 1 <= |values| <= 123
    ensures frame == header + WriteRequest(unit, offset, values)
  {
    hide U16Be, WordsBe;
    frame := header + [unit];
    if |values| == 1 {
      frame := frame + [WRITE_SINGLE] + U16Be(offset) + U16Be(values[0]);
    } else {
      frame := frame + [WRITE_MULTIPLE] + U16Be(offset) + U16Be(|values|) + [|values| * 2];
      frame := AppendWords(frame, values);
    }
    assert frame == header + WriteRequest(unit, offset, values);
  }

  method BuildWriteRegistersRequest(t: Transport, transaction: u16, unit: byte, offset: u16, values: seq<u16>)
    returns (r: Parsed<seq<byte>>)
    ensures r == WriteFrame(t, transaction, unit, offset, values)
  {
    if |values| == 0 || |values| > 123 || offset + |values| > 0x1_0000 {
      return Err(InvalidRequestRange, 0);
    }
    hide U16Be, WriteRequest;
    ghost var adu := WriteRequest(unit, offset, values);
    var payload := if |values| == 1 then 4 else 5 + |values| * 2;
    var frame: seq<byte>;
    if t == Tcp {
      ZeroBytes();
      frame := AppendWriteRequest(U16Be(transaction) + U16Be(0) + U16Be(payload + 2), unit, offset, values);
      assert frame == OnWire(t, transaction, adu);
    } else {
      frame := AppendWriteRequest([], unit, offset, values);
      assert frame == adu;
      var crc := ModbusCrc(frame);
      frame := frame + [LowByte(crc), HighByte(crc)];
    }
    return Ok(frame);
  }

  lemma ZeroBytes()
    ensures U16Be(0) == [0, 0]
  {}

  // ---------------------------------------------------------------- the bytes on the wire

  /** A read request: unit, function, offset and count, high bytes first; sent only for 1 to 125 registers. */
  lemma ReadRequestBytes(t: Transport, transaction: u16, unit: byte, code: byte, offset: u16, count: u16)
    ensures var frame := BuildReadRequest(t, transaction, unit, code, offset, count);
      var adu := [unit, code, offset / 256, offset % 256, count / 256, count % 256];
      if 1 <= count <= 125 && offset + count <= 65536 then frame == Ok(OnWire(t, transaction, adu))
      else frame == Err(InvalidRequestRange, 0)
  {
    hide OnWire;
    assert ReadRequest(unit, code, offset, count)
        == [unit, code, offset / 256, offset % 256, count / 256, count % 256];
  }

  /** A coil write: function 5, and 0xFF00 or 0x0000. */
  lemma CoilRequestBytes(t: Transport, transaction: u16, unit: byte, offset: u16, value: bool)
    ensures BuildWriteCoilRequest(t, transaction, unit, offset, value)
         == OnWire(t, transaction, [unit, 5, offset / 256, offset % 256, if value then 255 else 0, 0])
  {
    hide OnWire;
    assert [unit, FORCE_COIL] + U16Be(offset) + U16Be(if value then 0xFF00 else 0)
        == [unit, 5, offset / 256, offset % 256, if value then 255 else 0, 0];
  }

  /** A register write: function 6 for one register, function 16 with a byte count for 2 to 123. */
  lemma WriteRequestBytes(t: Transport, transaction: u16, unit: byte, offset: u16, values: seq<u16>)
    ensures var frame := WriteFrame(t, transaction, unit, offset, values);
      if values == [] || |values| > 123 || offset + |values| > 65536 then frame == Err(InvalidRequestRange, 0)
      else if |values| == 1 then
        frame == Ok(OnWire(t, transaction,
                           [unit, 6, offset / 256, offset % 256, values[0] / 256, values[0] % 256]))
      else
        frame == Ok(OnWire(t, transaction,
                           [unit, 16, offset / 256, offset % 256, 0, |values|, 2 * |values|] + WordsBe(values)))
  {
    hide OnWire, WordsBe, WriteRequest, U16Be;
    if |values| == 1 {
      SingleWriteBytes(unit, offset, values);
    } else if 1 < |values| <= 123 {
      MultipleWriteBytes(unit, offset, values);
    }
  }

  lemma SingleWriteBytes(unit: byte, offset: u16, values: seq<u16>)
    requires |values| == 1
    ensures WriteRequest(unit, offset, values)
         == [unit, 6, offset / 256, offset % 256, values[0] / 256, values[0] % 256]
  {}

  lemma MultipleWriteBytes(unit: byte, offset: u16, values: seq<u16>)
    requires 1 < |values| <= 123
    ensures WriteRequest(unit, offset, values)
         == [unit, 16, offset / 256, offset % 256, 0, |values|, 2 * |values|] + WordsBe(values)
  {
    hide WordsBe;
    HeaderBytes(unit, offset, |values|);
    hide U16Be;
    var header := [unit, WRITE_MULTIPLE] + U16Be(offset) + U16Be(|values|) + [2 * |values|];
    assert WriteRequest(unit, offset, values) == header + WordsBe(values);
  }

  lemma HeaderBytes(unit: byte, offset: u16, count: nat)
    requires count <= 123
    ensures [unit, WRITE_MULTIPLE] + U16Be(offset) + U16Be(count) + [2 * count]
         == [unit, 16, offset / 256, offset % 256, 0, count, 2 * count]
  {
    assert U16Be(offset) == [offset / 256, offset % 256] && U16Be(count) == [0, count];
  }

  lemma {:induction false} WordBytes(words: seq<u16>, i: nat)
    requires i < |words|
    ensures WordsBe(words)[2 * i] == words[i] / 256 && WordsBe(words)[2 * i + 1] == words[i] % 256
    decreases i
  {
    if i > 0 {
      WordBytes(words[1..], i - 1);
    }
  }

  /** Over TCP an MBAP header in front, over RTU the CRC behind, low byte first. */
  lemma FramedBytes(transaction: u16, adu: seq<byte>)
    requires |adu| < 0x1_0000
    ensures OnWire(Tcp, transaction, adu)
         == [transaction / 256, transaction % 256, 0, 0, |adu| / 256, |adu| % 256] + adu
    ensures OnWire(Rtu, transaction, adu) == adu + [CrcOf(adu) % 256, CrcOf(adu) / 256]
  {}

  // ---------------------------------------------------------------- what a request can be mistaken for

  lemma SameFrame(t: Transport, transaction: u16, transaction': u16, adu: seq<byte>, adu': seq<byte>)
    requires |adu| == |adu'| < 0x1_0000
    ensures OnWire(t, transaction, adu) == OnWire(t, transaction', adu') <==>
            adu == adu' && (t.Tcp? ==> transaction == transaction')
  {
    hide U16Be, CrcBytes;
    var one, two := OnWire(t, transaction, adu), OnWire(t, transaction', adu');
    if one == two {
      match t
      case Rtu => assert adu == one[..|adu|] && adu' == two[..|adu'|];
      case Tcp =>
        assert adu == one[6..] && adu' == two[6..];
        assert U16Be(transaction) == one[..2] && U16Be(transaction') == two[..2];
        SameWord(transaction, transaction');
    }
  }

  lemma SameWord(a: u16, b: u16)
    ensures U16Be(a) == U16Be(b) <==> a == b
  {
    U16BeRoundTrip(a, U16Be(b)[0], U16Be(b)[1]);
  }

  /** Two read requests travel as the same bytes only if they ask for the same registers of the same unit. */
  lemma ReadRequestsDiffer(
    t: Transport, transaction: u16, unit: byte, code: byte, offset: u16, count: u16,
    transaction': u16, unit': byte, code': byte, offset': u16, count': u16)
    requires ChunkedReads.IsValidReadRange(offset, count) && ChunkedReads.IsValidReadRange(offset', count')
    ensures var one := BuildReadRequest(t, transaction, unit, code, offset, count);
            var two := BuildReadRequest(t, transaction', unit', code', offset', count');
      one == two <==>
      && unit == unit' && code == code' && offset == offset' && count == count'
      && (t.Tcp? ==> transaction == transaction')
  {
    hide U16Be, OnWire;
    var adu, adu' := ReadRequest(unit, code, offset, count), ReadRequest(unit', code', offset', count');
    SameFrame(t, transaction, transaction', adu, adu');
    SameWord(offset, offset');
    SameWord(count, count');
    assert adu[0] == unit && adu[1] == code && adu[2..4] == U16Be(offset) && adu[4..6] == U16Be(count);
    assert adu'[0] == unit' && adu'[1] == code' && adu'[2..4] == U16Be(offset') && adu'[4..6] == U16Be(count');
  }

  /** The reply that confirms a coil write is the request itself, and no other frame confirms it. */
  lemma CoilWriteConfirmedByEcho(
    t: Transport, transaction: u16, frame: seq<byte>, unit: byte, offset: u16, value: bool)
    ensures ParsedWrite(t, frame, unit, FORCE_COIL, offset, if value then 0xFF00 else 0, true, Some(transaction)).Ok?
       <==> frame == BuildWriteCoilRequest(t, transaction, unit, offset, value)
  {
    hide U16Be, CrcBytes, ParsedWrite;
    WriteParsesIffEchoed(t, frame, unit, FORCE_COIL, offset, if value then 0xFF00 else 0, true, Some(transaction));
    EchoTransaction(t, transaction, frame, WriteReply(unit, FORCE_COIL, offset, if value then 0xFF00 else 0));
  }

  lemma SingleWriteConfirmedByEcho(
    t: Transport, transaction: u16, frame: seq<byte>, unit: byte, offset: u16, value: u16)
    ensures ParsedWrite(t, frame, unit, WRITE_SINGLE, offset, value, true, Some(transaction)).Ok?
       <==> frame == OnWire(t, transaction, WriteRequest(unit, offset, [value]))
  {
    hide U16Be, CrcBytes, ParsedWrite;
    WriteParsesIffEchoed(t, frame, unit, WRITE_SINGLE, offset, value, true, Some(transaction));
    EchoTransaction(t, transaction, frame, WriteReply(unit, WRITE_SINGLE, offset, value));
    assert WriteRequest(unit, offset, [value]) == WriteReply(unit, WRITE_SINGLE, offset, value);
  }

  lemma EchoTransaction(t: Transport, transaction: u16, frame: seq<byte>, adu: seq<byte>)
    requires |adu| < 0x1_0000
    ensures Agrees(t, frame, Some(transaction)) && frame == Encased(t, true, TransactionOf(t, frame), adu)
       <==> frame == OnWire(t, transaction, adu)
  {
    hide CrcBytes;
    if t.Tcp? && frame == OnWire(t, transaction, adu) {
      assert frame[..2] == U16Be(transaction);
      U16BeRoundTrip(transaction, frame[0], frame[1]);
    }
  }
}
