/** Accumulating a reply byte by byte and handing it over once it is complete. */
module ModbusReceiver {
  import opened Bytes
  import opened Crc
  import opened ModbusProtocol

  /** How long the reply being accumulated will be, or 0 while that is not known. */
  function ExpectedResponseLength(t: Transport, sofar: seq<byte>): nat {
    if t.Tcp? then
      if |sofar| < MBAP_HEADER then 0
      else
        var expected := MBAP_HEADER + FromBe(sofar[4], sofar[5]);
        if expected > MAX_TCP_FRAME then |sofar| else expected
    else if |sofar| < 2 then 0
    else if sofar[1] >= 0x80 then 5
    else if READ_COILS <= sofar[1] <= READ_INPUT then
      if |sofar| >= 3 then 5 + ByteCount(sofar) else 0
    else if sofar[1] == FORCE_COIL || sofar[1] == WRITE_SINGLE || sofar[1] == WRITE_MULTIPLE then 8
    else if |sofar| >= 5 then |sofar| else 0
  }

  /** In numbers, where enough of the reply is there to say. */
  lemma ExpectedLengths(sofar: seq<byte>)
    ensures |sofar| >= 6 ==>
      var length := sofar[4] as int * 256 + sofar[5] as int;
      ExpectedResponseLength(Tcp, sofar) == if length <= 254 then 6 + length else |sofar|
    ensures |sofar| < 6 ==> ExpectedResponseLength(Tcp, sofar) == 0
    ensures |sofar| >= 2 && sofar[1] >= 128 ==> ExpectedResponseLength(Rtu, sofar) == 5
    ensures |sofar| >= 3 && 1 <= sofar[1] <= 4 ==> ExpectedResponseLength(Rtu, sofar) == 5 + sofar[2] as int
    ensures |sofar| >= 2 && sofar[1] in {5, 6, 16} ==> ExpectedResponseLength(Rtu, sofar) == 8
    ensures |sofar| >= 5 && sofar[1] < 128 && sofar[1] !in {1, 2, 3, 4, 5, 6, 16} ==>
      ExpectedResponseLength(Rtu, sofar) == |sofar|
    ensures |sofar| < 2 ==> ExpectedResponseLength(Rtu, sofar) == 0
  {}

  function ByteCount(frame: seq<byte>): nat
    requires |frame| >= 3
  {
    frame[2]
  }

  /** What the port holds: the bytes accumulated, the reply handed over, and its CRC verdict. */
  datatype Receiver = Receiver(raw: seq<byte>, delivered: seq<byte>, crcOk: bool)

  const CLEARED := Receiver([], [], true)

  predicate Complete(t: Transport, raw: seq<byte>) {
    var n := ExpectedResponseLength(t, raw);
    n != 0 && |raw| >= n
  }

  /** Handing over the first n accumulated bytes, without the CRC on RTU. */
  function HandOver(t: Transport, frame: seq<byte>): Receiver
    requires t.Rtu? ==> |frame| >= 2
  {
    if t.Tcp? then Receiver(frame, frame, true)
    else
      var end := |frame| - 2;
      Receiver(frame, frame[..end], CrcOf(frame[..end]) == FromBytes(frame[end], frame[end + 1]))
  }

  function OnData(t: Transport, state: Receiver, data: seq<byte>): Receiver {
    if data == [] then state
    else
      var raw := state.raw + data;
      var n := ExpectedResponseLength(t, raw);
      if n == 0 || |raw| < n then state.(raw := raw) else HandOver(t, raw[..n])
  }

  class ModbusPort {
    const t: Transport
    var rawRecvData: seq<byte>
    var recvData: seq<byte>
    var lastDataCrcOk: bool

    constructor (t: Transport)
      ensures this.t == t && State() == CLEARED
    {
      this.t := t;
      rawRecvData, recvData, lastDataCrcOk := [], [], true;
    }

    function State(): Receiver
      reads this
    {
      Receiver(rawRecvData, recvData, lastDataCrcOk)
    }

    /** What a new request does before it is sent. */
    method Clear()
      modifies this
      ensures State() == CLEARED
    {
      rawRecvData, recvData, lastDataCrcOk := [], [], true;
    }

    method OnUartDataReceived(data: seq<byte>)
      modifies this
      ensures State() == OnData(t, old(State()), data)
    {
      if |data| == 0 {
        return;
      }
      rawRecvData := rawRecvData + data;
      var expectedSize := ExpectedResponseLength(t, rawRecvData);
      if expectedSize == 0 || |rawRecvData| < expectedSize {
        return;
      }
      rawRecvData := rawRecvData[..expectedSize];
      if t == Tcp {
        lastDataCrcOk := true;
        recvData := rawRecvData;
      } else {
        var actualCrc := FromBytes(rawRecvData[expectedSize - 2], rawRecvData[expectedSize - 1]);
        var computed := ModbusCrc(rawRecvData[..expectedSize - 2]);
        lastDataCrcOk := computed == actualCrc;
        recvData := rawRecvData[..expectedSize - 2];
      }
    }
  }

  // ---------------------------------------------------------------- which frames survive any chunking

  function OnChunks(t: Transport, state: Receiver, chunks: seq<seq<byte>>): Receiver
    decreases chunks
  {
    if chunks == [] then state else OnChunks(t, OnData(t, state, chunks[0]), chunks[1..])
  }

  /** The frame's own bytes announce its length, and announce it in time. */
  predicate SelfFraming(t: Transport, frame: seq<byte>) {
    if t.Tcp? then
      |frame| >= MBAP_HEADER &&
      var length := FromBe(frame[4], frame[5]);
      if length <= MAX_TCP_FRAME - MBAP_HEADER then |frame| == MBAP_HEADER + length else |frame| == MBAP_HEADER
    else
      |frame| >= 2 &&
      if frame[1] >= 0x80 then |frame| == 5
      else if READ_COILS <= frame[1] <= READ_INPUT then |frame| >= 3 && |frame| == 5 + ByteCount(frame)
      else if frame[1] == FORCE_COIL || frame[1] == WRITE_SINGLE || frame[1] == WRITE_MULTIPLE then |frame| == 8
      else |frame| == 5
  }

  /** No earlier point of the frame looks complete, and the end does. */
  ghost predicate CompleteOnlyAtEnd(t: Transport, frame: seq<byte>) {
    && (forall n :: 0 <= n < |frame| ==> !Complete(t, frame[..n]))
    && Complete(t, frame)
  }

  lemma SelfFramingIs(t: Transport, frame: seq<byte>)
    ensures SelfFraming(t, frame) <==> CompleteOnlyAtEnd(t, frame)
    ensures SelfFraming(t, frame) ==> ExpectedResponseLength(t, frame) == |frame| >= 2
  {
    if SelfFraming(t, frame) {
      forall n | 0 <= n < |frame| ensures !Complete(t, frame[..n]) {}
    } else if Complete(t, frame) {
      EarlierComplete(t, frame);
    }
  }

  /** A frame that is complete without announcing exactly its own length was complete before its end. */
  lemma EarlierComplete(t: Transport, frame: seq<byte>)
    requires Complete(t, frame) && !SelfFraming(t, frame)
    ensures exists n :: 0 <= n < |frame| && Complete(t, frame[..n])
  {
    if t.Tcp? {
      var length := FromBe(frame[4], frame[5]);
      var n := if length <= MAX_TCP_FRAME - MBAP_HEADER then MBAP_HEADER + length else MBAP_HEADER;
      assert Complete(t, frame[..n]);
    } else {
      var n := if frame[1] >= 0x80 then 5
        else if READ_COILS <= frame[1] <= READ_INPUT then 5 + ByteCount(frame)
        else if frame[1] == FORCE_COIL || frame[1] == WRITE_SINGLE || frame[1] == WRITE_MULTIPLE then 8
        else 5;
      assert Complete(t, frame[..n]);
    }
  }

  /** While the bytes so far are a proper beginning of the frame, nothing is handed over. */
  lemma {:induction false} NothingEarly(t: Transport, frame: seq<byte>, start: nat, chunks: seq<seq<byte>>)
    requires CompleteOnlyAtEnd(t, frame)
    requires start + |Flatten(chunks)| < |frame| && Flatten(chunks) == frame[start..start + |Flatten(chunks)|]
    ensures OnChunks(t, Receiver(frame[..start], [], true), chunks)
         == Receiver(frame[..start + |Flatten(chunks)|], [], true)
    decreases chunks
  {
    hide Complete, CompleteOnlyAtEnd, HandOver;
    if chunks != [] {
      var data, tail := chunks[0], Flatten(chunks[1..]);
      var next := start + |data|;
      var all := Flatten(chunks);
      assert data == all[..|data|] && tail == all[|data|..];
      assert frame[start..start + |all|][..|data|] == frame[start..next];
      assert frame[start..start + |all|][|data|..] == frame[next..start + |all|];
      assert frame[..start] + data == frame[..next];
      NotYet(t, frame, next);
      OneChunk(t, Receiver(frame[..start], [], true), data);
      NothingEarly(t, frame, next, chunks[1..]);
    }
  }

  lemma NotYet(t: Transport, frame: seq<byte>, n: nat)
    requires CompleteOnlyAtEnd(t, frame) && n < |frame|
    ensures !Complete(t, frame[..n])
  {}

  lemma OneChunk(t: Transport, state: Receiver, data: seq<byte>)
    ensures !Complete(t, state.raw + data) ==> OnData(t, state, data) == state.(raw := state.raw + data)
    ensures var raw := state.raw + data;
      data != [] && Complete(t, raw) && ExpectedResponseLength(t, raw) == |raw| >= 2
      ==> OnData(t, state, data) == HandOver(t, state.raw + data)
  {
    if data == [] {
      assert state.raw + data == state.raw;
    }
    assert (state.raw + data)[..|state.raw + data|] == state.raw + data;
  }

  /** The last byte hands the frame over, whatever the chunks were; empty chunks change nothing. */
  lemma {:induction false} HandedOverAtEnd(t: Transport, frame: seq<byte>, start: nat, chunks: seq<seq<byte>>)
    requires SelfFraming(t, frame)
    requires start < |frame| && Flatten(chunks) == frame[start..]
    ensures t.Rtu? ==> |frame| >= 2
    ensures OnChunks(t, Receiver(frame[..start], [], true), chunks) == HandOver(t, frame)
    decreases chunks
  {
    SelfFramingIs(t, frame);
    hide Complete, CompleteOnlyAtEnd, HandOver, SelfFraming, ExpectedResponseLength;
    assert |Flatten(chunks)| > 0;
    var data, tail := chunks[0], Flatten(chunks[1..]);
    var next := start + |data|;
    var state := Receiver(frame[..start], [], true);
    assert Flatten(chunks) == data + tail;
    assert data == frame[start..][..|data|] == frame[start..next] && tail == frame[start..][|data|..] == frame[next..];
    assert frame[..start] + data == frame[..next];
    OneChunk(t, state, data);
    if next < |frame| {
      NotYet(t, frame, next);
      HandedOverAtEnd(t, frame, next, chunks[1..]);
    } else {
      assert frame[..next] == frame;
      EndIsComplete(t, frame);
      NothingMore(t, HandOver(t, frame), chunks[1..]);
    }
  }

  lemma EndIsComplete(t: Transport, frame: seq<byte>)
    requires CompleteOnlyAtEnd(t, frame)
    ensures Complete(t, frame)
  {}

  lemma {:induction false} NothingMore(t: Transport, state: Receiver, chunks: seq<seq<byte>>)
    requires Flatten(chunks) == []
    ensures OnChunks(t, state, chunks) == state
    decreases chunks
  {
    if chunks != [] {
      assert chunks[0] == [] by {
        assert |Flatten(chunks)| == |chunks[0]| + |Flatten(chunks[1..])|;
      }
      NothingMore(t, state, chunks[1..]);
    }
  }

  /**
   * A self-framing reply, delivered in any chunks: before its last byte
   * nothing is handed over, after it exactly the reply is.
   */
  lemma AnyChunkingDelivers(t: Transport, frame: seq<byte>, early: seq<seq<byte>>, rest: seq<seq<byte>>)
    requires SelfFraming(t, frame)
    requires |Flatten(early)| < |frame| && Flatten(early) + Flatten(rest) == frame
    ensures t.Rtu? ==> |frame| >= 2
    ensures var before := OnChunks(t, CLEARED, early);
      && before == Receiver(Flatten(early), [], true)
      && OnChunks(t, before, rest) == HandOver(t, frame)
  {
    SelfFramingIs(t, frame);
    var n := |Flatten(early)|;
    assert frame[0..n] == Flatten(early) && frame[..0] == [] && frame[..n] == Flatten(early);
    assert frame[n..] == Flatten(rest);
    NothingEarly(t, frame, 0, early);
    HandedOverAtEnd(t, frame, n, rest);
  }

  /** The first bytes of a frame hand nothing over, and the rest then hands over the frame. */
  ghost predicate DeliveredAtEnd(t: Transport, frame: seq<byte>, early: seq<seq<byte>>, rest: seq<seq<byte>>)
    requires |frame| >= 2
  {
    var before := OnChunks(t, CLEARED, early);
    before == Receiver(Flatten(early), [], true) && OnChunks(t, before, rest) == HandOver(t, frame)
  }

  ghost predicate SplitsInto(frame: seq<byte>, early: seq<seq<byte>>, rest: seq<seq<byte>>) {
    |Flatten(early)| < |frame| && Flatten(early) + Flatten(rest) == frame
  }

  /**
   * The frames that every chunking delivers, and delivers at their last byte,
   * are the self-framing ones.  Any other frame is handed over before its end
   * when it arrives in some two pieces, or not at all.
   */
  lemma DeliveredIffSelfFraming(t: Transport, frame: seq<byte>)
    requires |frame| >= 3
    ensures SelfFraming(t, frame) <==>
      forall early, rest :: SplitsInto(frame, early, rest) ==> DeliveredAtEnd(t, frame, early, rest)
  {
    if SelfFraming(t, frame) {
      forall early, rest | SplitsInto(frame, early, rest) ensures DeliveredAtEnd(t, frame, early, rest) {
        AnyChunkingDelivers(t, frame, early, rest);
      }
    } else {
      var early, rest := CounterSplit(t, frame);
    }
  }

  lemma CounterSplit(t: Transport, frame: seq<byte>) returns (early: seq<seq<byte>>, rest: seq<seq<byte>>)
    requires |frame| >= 3 && !SelfFraming(t, frame)
    ensures SplitsInto(frame, early, rest) && !DeliveredAtEnd(t, frame, early, rest)
  {
    hide ExpectedResponseLength, OnData, HandOver, SelfFraming;
    if Complete(t, frame) {
      EarlierComplete(t, frame);
      var n :| 0 <= n < |frame| && Complete(t, frame[..n]);
      early, rest := [frame[..n]], [frame[n..]];
      OneChunkOnly(t, CLEARED, frame[..n]);
      OneChunkOnly(t, CLEARED, frame[n..]);
      TooEarly(t, frame[..n]);
      assert frame[..n] + frame[n..] == frame;
    } else {
      early, rest := [], [frame];
      OneChunkOnly(t, CLEARED, frame);
      NotAtAll(t, frame);
      assert [] + frame == frame;
    }
  }

  /** A complete beginning is handed over at once. */
  lemma TooEarly(t: Transport, beginning: seq<byte>)
    requires Complete(t, beginning)
    ensures OnData(t, CLEARED, beginning).delivered != []
  {
    assert [] + beginning == beginning;
  }

  lemma NotAtAll(t: Transport, frame: seq<byte>)
    requires !Complete(t, frame) && |frame| >= 3
    ensures OnData(t, CLEARED, frame) != HandOver(t, frame)
  {
    assert [] + frame == frame;
  }

  lemma OneChunkOnly(t: Transport, state: Receiver, data: seq<byte>)
    ensures OnChunks(t, state, [data]) == OnData(t, state, data) && Flatten([data]) == data
  {
    assert [data][1..] == [] && data + [] == data;
  }

  // ---------------------------------------------------------------- well-formed replies are self-framing

  /** The replies of the standard function codes, and exceptions. */
  predicate StandardReply(adu: seq<byte>) {
    && 3 <= |adu| <= 254
    && if adu[1] >= 0x80 then |adu| == 3
       else if READ_COILS <= adu[1] <= READ_INPUT then |adu| == 3 + ByteCount(adu)
       else adu[1] in {FORCE_COIL, WRITE_SINGLE, WRITE_MULTIPLE} && |adu| == 6
  }

  /** In numbers: reads 1 to 4 with their byte count, writes 5, 6 and 16 echoing six bytes, exceptions of three. */
  lemma StandardReplyIff(adu: seq<byte>)
    requires |adu| >= 3
    ensures StandardReply(adu) <==>
      || (128 <= adu[1] && |adu| == 3)
      || (1 <= adu[1] <= 4 && |adu| == 3 + adu[2] as int <= 254)
      || ((adu[1] == 5 || adu[1] == 6 || adu[1] == 16) && |adu| == 6)
  {}

  lemma StandardReplySelfFrames(t: Transport, transaction: u16, adu: seq<byte>)
    requires StandardReply(adu)
    ensures SelfFraming(t, OnWire(t, transaction, adu))
  {
    var frame := OnWire(t, transaction, adu);
    if t.Tcp? {
      hide U16Be;
      assert frame[4..6] == U16Be(|adu|);
      U16BeRoundTrip(|adu|, frame[4], frame[5]);
    }
  }

  /** On TCP any reply up to the longest frame is, whatever its function code. */
  lemma TcpReplySelfFrames(transaction: u16, adu: seq<byte>)
    requires |adu| < 0x1_0000
    ensures SelfFraming(Tcp, OnWire(Tcp, transaction, adu)) <==> |adu| <= 254
  {
    hide U16Be;
    var frame := OnWire(Tcp, transaction, adu);
    assert frame[4..6] == U16Be(|adu|);
    U16BeRoundTrip(|adu|, frame[4], frame[5]);
  }

  lemma HandOverOnWire(t: Transport, transaction: u16, adu: seq<byte>)
    requires |adu| < 0x1_0000
    ensures t.Rtu? ==> |OnWire(t, transaction, adu)| >= 2
    ensures var state := HandOver(t, OnWire(t, transaction, adu));
            state.crcOk && state.delivered == Encased(t, false, transaction, adu)
  {
    var frame := OnWire(t, transaction, adu);
    if t.Rtu? {
      var end := |frame| - 2;
      assert frame[..end] == adu;
      FromBytesSplits(CrcOf(adu), frame[end], frame[end + 1]);
    }
  }

  // ---------------------------------------------------------------- which arrivals hand a reply over

  /** A frame whose own bytes do not say where it ends. */
  predicate Unbounded(t: Transport, frame: seq<byte>) {
    if t.Tcp? then |frame| >= MBAP_HEADER && FromBe(frame[4], frame[5]) > MAX_TCP_FRAME - MBAP_HEADER
    else
      && |frame| >= 2
      && frame[1] < 0x80 && !(READ_COILS <= frame[1] <= READ_INPUT)
      && frame[1] != FORCE_COIL && frame[1] != WRITE_SINGLE && frame[1] != WRITE_MULTIPLE
  }

  /** What the port may hold once these bytes have been received, in whatever chunks. */
  ghost predicate Reached(t: Transport, state: Receiver, received: seq<byte>) {
    if state.delivered == [] then state == Receiver(received, [], true) && !Complete(t, received)
    else
      && Complete(t, state.raw)
      && (t.Rtu? ==> |state.raw| >= 2) && state == HandOver(t, state.raw)
      && if Unbounded(t, received) then Unbounded(t, state.raw)
         else state.raw <= received && SelfFraming(t, state.raw)
  }

  lemma ReachedStep(t: Transport, state: Receiver, received: seq<byte>, data: seq<byte>)
    requires Reached(t, state, received)
    ensures Reached(t, OnData(t, state, data), received + data)
  {
    if data == [] {
      assert received + data == received;
    } else if state.delivered == [] {
      FirstHandOver(t, received, data);
    } else if Unbounded(t, received) {
      StillUnbounded(t, state.raw, received, data);
    } else {
      LateBytesChangeNothing(t, state.raw, received, data);
    }
  }

  lemma FirstHandOver(t: Transport, received: seq<byte>, data: seq<byte>)
    requires !Complete(t, received) && data != []
    ensures Reached(t, OnData(t, Receiver(received, [], true), data), received + data)
  {
    var all := received + data;
    if Complete(t, all) {
      var n := ExpectedResponseLength(t, all);
      if Unbounded(t, all) {
        assert all[..n] == all;
      } else {
        assert SelfFraming(t, all[..n]) && Complete(t, all[..n]);
      }
    }
  }

  lemma StillUnbounded(t: Transport, raw: seq<byte>, received: seq<byte>, data: seq<byte>)
    requires Unbounded(t, raw) && Complete(t, raw) && Unbounded(t, received) && data != []
    ensures t.Rtu? ==> |raw| >= 2
    ensures Reached(t, OnData(t, HandOver(t, raw), data), received + data)
  {
    var all := raw + data;
    assert all[..|all|] == all;
  }

  /** Late or repeated bytes after a bounded reply do not disturb what was handed over. */
  lemma LateBytesChangeNothing(t: Transport, raw: seq<byte>, received: seq<byte>, data: seq<byte>)
    requires SelfFraming(t, raw) && !Unbounded(t, received) && raw <= received
    ensures t.Rtu? ==> |raw| >= 2
    ensures OnData(t, HandOver(t, raw), data) == HandOver(t, raw)
    ensures raw <= received + data && !Unbounded(t, received + data)
  {
    assert (raw + data)[..|raw|] == raw;
    assert !Unbounded(t, raw);
    SameFrameAhead(t, raw, raw + data);
  }

  lemma {:induction false} ReachedByChunks(t: Transport, state: Receiver, received: seq<byte>, chunks: seq<seq<byte>>)
    requires Reached(t, state, received)
    ensures Reached(t, OnChunks(t, state, chunks), received + Flatten(chunks))
    decreases chunks
  {
    hide Reached, OnData;
    if chunks == [] {
      assert received + [] == received;
    } else {
      ReachedStep(t, state, received, chunks[0]);
      ReachedByChunks(t, OnData(t, state, chunks[0]), received + chunks[0], chunks[1..]);
      Associates(received, chunks[0], Flatten(chunks[1..]));
    }
  }

  lemma Received(t: Transport, chunks: seq<seq<byte>>)
    ensures Reached(t, OnChunks(t, CLEARED, chunks), Flatten(chunks))
  {
    ReachedByChunks(t, CLEARED, [], chunks);
    assert [] + Flatten(chunks) == Flatten(chunks);
  }

  /**
   * A frame whose own bytes say where it ends is handed over whenever the
   * bytes received begin with it: in any chunks, and whatever followed it.
   */
  lemma BeginningIsHandedOver(t: Transport, frame: seq<byte>, chunks: seq<seq<byte>>)
    requires SelfFraming(t, frame) && !Unbounded(t, frame) && frame <= Flatten(chunks)
    ensures t.Rtu? ==> |frame| >= 2
    ensures OnChunks(t, CLEARED, chunks) == HandOver(t, frame)
  {
    var received, state := Flatten(chunks), OnChunks(t, CLEARED, chunks);
    Received(t, chunks);
    SameFrameAhead(t, frame, received);
    hide SelfFraming, OnChunks, Flatten;
    SameFrameAhead(t, state.raw, received);
    assert state.raw == frame;
  }

  /**
   * The port hands over a given standard reply, and finds its CRC correct,
   * exactly when the bytes received so far begin with that reply as it
   * travels: whatever the chunks were, and whatever followed it.
   */
  lemma ArrivesIff(t: Transport, transaction: u16, adu: seq<byte>, chunks: seq<seq<byte>>)
    requires StandardReply(adu)
    ensures var state := OnChunks(t, CLEARED, chunks);
      state.crcOk && state.delivered == Encased(t, false, transaction, adu)
      <==> OnWire(t, transaction, adu) <= Flatten(chunks)
  {
    hide SelfFraming, OnChunks, Flatten, U16Be, CrcBytes;
    var state := OnChunks(t, CLEARED, chunks);
    Received(t, chunks);
    StandardReplySelfFrames(t, transaction, adu);
    StandardReplyIsBounded(t, transaction, adu);
    HandOverOnWire(t, transaction, adu);
    if OnWire(t, transaction, adu) <= Flatten(chunks) {
      BeginningIsHandedOver(t, OnWire(t, transaction, adu), chunks);
    }
    if state.crcOk && state.delivered == Encased(t, false, transaction, adu) {
      HandedOverWas(t, transaction, adu, state.raw);
    }
  }

  lemma StandardReplyIsBounded(t: Transport, transaction: u16, adu: seq<byte>)
    requires StandardReply(adu)
    ensures !Unbounded(t, OnWire(t, transaction, adu))
  {
    if t.Tcp? {
      hide U16Be;
      var frame := OnWire(t, transaction, adu);
      assert frame[4..6] == U16Be(|adu|);
      U16BeRoundTrip(|adu|, frame[4], frame[5]);
    }
  }

  /** What a self-framing beginning announces, all the bytes announce. */
  lemma SameFrameAhead(t: Transport, frame: seq<byte>, received: seq<byte>)
    requires SelfFraming(t, frame) && !Unbounded(t, frame) && frame <= received
    ensures !Unbounded(t, received) && ExpectedResponseLength(t, received) == |frame|
    ensures Complete(t, received) && received[..|frame|] == frame
  {}

  lemma HandedOverWas(t: Transport, transaction: u16, adu: seq<byte>, raw: seq<byte>)
    requires |adu| < 0x1_0000 && |raw| >= 2
    requires var state := HandOver(t, raw); state.crcOk && state.delivered == Encased(t, false, transaction, adu)
    ensures raw == OnWire(t, transaction, adu)
  {
    if t.Rtu? {
      RtuInverts(raw, adu);
      assert raw == adu + CrcBytes(adu);
    }
  }
}
