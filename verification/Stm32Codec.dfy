/** CAN frames as both wire codecs carry them. */
module CanFrames {
  import opened Bytes

  const MAX_DATA: nat := 8
  const MAX_ID: u32 := 0x1FFF_FFFF

  datatype Frame = Frame(id: u32, data: seq<byte>)

  /** The frames either encoder accepts. */
  predicate Encodable(frame: Frame) {
    |frame.data| <= MAX_DATA && frame.id <= MAX_ID
  }
}

/** The 19-byte STM32 framing and its resynchronising stream decoder. */
module Stm32Codec {
  import opened Bytes
  import opened CanFrames
  import opened Crc
  import opened WindowScan

  const SEND_MAGIC: u32 := 0xAABB_CCDD
  const RECEIVE_MAGIC: u32 := 0xAABB_CCDE
  const MAGIC_SIZE: nat := 4
  const WIRE_SIZE: nat := 19

  /** The low eight bits. */
  function ToByte(value: nat): byte { value % 0x100 }

  function U32Le(value: u32): (bytes: seq<byte>)
    ensures |bytes| == 4
  {
    [ToByte(value), ToByte(value / 0x100), ToByte(value / 0x1_0000), ToByte(value / 0x100_0000)]
  }

  function FromLe(b0: int, b1: int, b2: int, b3: int): int {
    b0 + 0x100 * b1 + 0x1_0000 * b2 + 0x100_0000 * b3
  }

  lemma FromLeIs(b0: byte, b1: byte, b2: byte, b3: byte)
    ensures FromLe(b0, b1, b2, b3) == ((b3 as int * 256 + b2) * 256 + b1) * 256 + b0
  {}

  function ReadU32Le(bytes: seq<byte>): (value: u32)
    requires |bytes| == 4
  {
    FromLe(bytes[0], bytes[1], bytes[2], bytes[3])
  }

  lemma {:induction false} U32Digits(value: u32)
    ensures ReadU32Le(U32Le(value)) == value
  {
    var q1 := value / 0x100;
    var q2 := q1 / 0x100;
    assert value / 0x1_0000 == q2 && value / 0x100_0000 == q2 / 0x100;
  }

  // ---------------------------------------------------------------- encoding

  function Body(magic: u32, frame: Frame): (bytes: seq<byte>)
    requires |frame.data| <= MAX_DATA
    ensures |bytes| == 17
  {
    U32Le(magic) + U32Le(frame.id) + [|frame.data|] + frame.data + seq(MAX_DATA - |frame.data|, _ => 0)
  }

  /** The 19 bytes of a frame; the two directions differ in the magic only. */
  function Wire(magic: u32, frame: Frame): (bytes: seq<byte>)
    requires |frame.data| <= MAX_DATA
    ensures |bytes| == WIRE_SIZE
  {
    var crc := CrcOf(Body(magic, frame));
    Body(magic, frame) + [LowByte(crc), HighByte(crc)]
  }

  method WriteU32Le(out: array<byte>, at: nat, value: u32)
    requires at + 4 <= out.Length
    modifies out
    ensures out[at..at + 4] == U32Le(value)
    ensures forall k :: 0 <= k < out.Length && !(at <= k < at + 4) ==> out[k] == old(out[k])
  {
    for i := 0 to 4
      invariant forall k :: 0 <= k < i ==> out[at + k] == U32Le(value)[k]
      invariant forall k :: 0 <= k < out.Length && !(at <= k < at + i) ==> out[k] == old(out[k])
    {
      out[at + i] := U32Le(value)[i];
    }
  }

  /** Everything in front of the CRC. */
  method WriteBody(frame: Frame) returns (out: array<byte>)
    requires |frame.data| <= MAX_DATA
    ensures fresh(out) && out.Length == WIRE_SIZE && out[..17] == Body(SEND_MAGIC, frame)
  {
    hide U32Le, Body;
    out := new byte[WIRE_SIZE](_ => 0);
    WriteU32Le(out, 0, SEND_MAGIC);
    WriteU32Le(out, 4, frame.id);
    out[8] := |frame.data|;
    forall i | 0 <= i < |frame.data| {
      out[9 + i] := frame.data[i];
    }
    assert forall k :: 0 <= k < 4 ==> out[k] == out[0..4][k] && out[4 + k] == out[4..8][k];
    BodyIs(out[..17], SEND_MAGIC, frame);
  }

  method EncodeStm32(frame: Frame) returns (encoded: Option<seq<byte>>)
    ensures encoded.Some? <==> |frame.data| <= 8 && frame.id < 0x2000_0000
    ensures encoded == if Encodable(frame) then Some(Wire(SEND_MAGIC, frame)) else None
  {
    if |frame.data| > MAX_DATA || frame.id > MAX_ID {
      return None;
    }
    hide Body, CrcOf;
    var result := WriteBody(frame);
    var crc := ModbusCrc(result[..17]);
    WriteCrc(result, crc);
    return Some(result[..]);
  }

  method WriteCrc(out: array<byte>, crc: u16)
    requires out.Length == WIRE_SIZE
    modifies out
    ensures out[..] == old(out[..17]) + [LowByte(crc), HighByte(crc)]
  {
    out[17] := LowByte(crc);
    out[18] := HighByte(crc);
    assert out[..17] == old(out[..17]);
  }

  lemma BodyIs(bytes: seq<byte>, magic: u32, frame: Frame)
    requires |frame.data| <= MAX_DATA && |bytes| == 17
    requires forall k :: 0 <= k < 4 ==> bytes[k] == U32Le(magic)[k] && bytes[4 + k] == U32Le(frame.id)[k]
    requires bytes[8] == |frame.data|
    requires forall k :: 0 <= k < |frame.data| ==> bytes[9 + k] == frame.data[k]
    requires forall k :: 9 + |frame.data| <= k < 17 ==> bytes[k] == 0
    ensures bytes == Body(magic, frame)
  {
    BodyBytes(magic, frame);
  }

  lemma BodyBytes(magic: u32, frame: Frame)
    requires |frame.data| <= MAX_DATA
    ensures var body := Body(magic, frame);
      && (forall k :: 0 <= k < 4 ==> body[k] == U32Le(magic)[k] && body[4 + k] == U32Le(frame.id)[k])
      && body[8] == |frame.data|
      && (forall k :: 0 <= k < |frame.data| ==> body[9 + k] == frame.data[k])
      && (forall k :: 9 + |frame.data| <= k < 17 ==> body[k] == 0)
  {}

  /** The bytes of a sent frame, one by one: magic, identifier, length, data and zeros. */
  lemma SentBody(frame: Frame, body: seq<byte>)
    requires |frame.data| <= 8 && body == Body(SEND_MAGIC, frame)
    ensures |body| == 17 && body[0] == 0xDD && body[1] == 0xCC && body[2] == 0xBB && body[3] == 0xAA
    ensures frame.id == FromLe(body[4], body[5], body[6], body[7])
    ensures body[8] == |frame.data|
    ensures forall k :: 0 <= k < |frame.data| ==> body[9 + k] == frame.data[k]
    ensures forall k :: 9 + |frame.data| <= k < 17 ==> body[k] == 0
  {
    hide U32Le;
    BodyBytes(SEND_MAGIC, frame);
    hide Body;
    SentMagic();
    U32Digits(frame.id);
  }

  /** And behind them their CRC, low byte first. */
  lemma SentCrc(body: seq<byte>, magic: u32, frame: Frame)
    requires |frame.data| <= MAX_DATA && body == Body(magic, frame)
    ensures Wire(magic, frame) == body + [CrcOf(body) % 0x100, CrcOf(body) / 0x100]
  {}

  lemma SentMagic()
    ensures U32Le(SEND_MAGIC) == [0xDD, 0xCC, 0xBB, 0xAA]
  {}

  // ---------------------------------------------------------------- which windows are frames

  /** A whole window that an adapter could have sent. */
  predicate ValidWindow(window: seq<byte>) {
    && |window| == WIRE_SIZE
    && ReadU32Le(window[..4]) == RECEIVE_MAGIC
    && window[8] <= MAX_DATA
    && FromBytes(window[17], window[18]) == CrcOf(window[..17])
  }

  /** That is: the receive magic, a length of at most eight, and the CRC of the 17 bytes before it. */
  lemma ValidWindowIff(window: seq<byte>)
    ensures ValidWindow(window) <==>
      && |window| == 19
      && window[0] == 0xDE && window[1] == 0xCC && window[2] == 0xBB && window[3] == 0xAA
      && window[8] <= 8
      && window[17] as int + window[18] as int * 0x100 == CrcOf(window[..17])
  {
    hide CrcOf;
  }

  function FrameIn(window: seq<byte>): Frame
    requires ValidWindow(window)
  {
    Frame(ReadU32Le(window[4..8]), window[9..9 + window[8]])
  }

  /** What the loop decides at one position, from the bytes that follow it. */
  function Look(tail: seq<byte>): Step<Frame> {
    if |tail| < MAGIC_SIZE then Wait
    else if ReadU32Le(tail[..4]) != RECEIVE_MAGIC then Skip
    else if |tail| < WIRE_SIZE then Wait
    else if ValidWindow(tail[..WIRE_SIZE]) then Take(FrameIn(tail[..WIRE_SIZE]))
    else Skip
  }

  /**
   * In numbers: a position waits for its first four bytes, is passed over
   * unless they are the magic, then waits for all 19 and is taken if they are
   * a valid window.
   */
  lemma LookMeans(tail: seq<byte>)
    ensures Look(tail).Wait? <==>
      |tail| < 4 || (|tail| < 19 && tail[0] == 0xDE && tail[1] == 0xCC && tail[2] == 0xBB && tail[3] == 0xAA)
    ensures Look(tail).Take? <==> |tail| >= 19 && ValidWindow(tail[..19])
  {
    if |tail| >= 4 {
      ReceiveMagicIs(tail[..4]);
    }
    if |tail| >= 19 {
      assert tail[..19][..4] == tail[..4];
    }
  }

  lemma ReceiveMagicIs(bytes: seq<byte>)
    requires |bytes| == 4
    ensures ReadU32Le(bytes) == RECEIVE_MAGIC <==>
            bytes[0] == 0xDE && bytes[1] == 0xCC && bytes[2] == 0xBB && bytes[3] == 0xAA
  {}

  function Steps(stream: seq<byte>): (steps: seq<Step<Frame>>) {
    seq(|stream|, i requires 0 <= i < |stream| => Look(stream[i..]))
  }

  lemma {:induction false} LookExtends(tail: seq<byte>, more: seq<byte>)
    ensures !Look(tail).Wait? ==> Look(tail + more) == Look(tail)
  {
    if |tail| >= MAGIC_SIZE {
      assert (tail + more)[..4] == tail[..4];
    }
    if |tail| >= WIRE_SIZE {
      assert (tail + more)[..WIRE_SIZE] == tail[..WIRE_SIZE];
    }
  }

  lemma StepsAreSound(stream: seq<byte>)
    ensures Sound(Steps(stream), WIRE_SIZE)
  {
    var steps := Steps(stream);
    forall i | 0 <= i < |steps|
      ensures steps[i].Take? ==> i + WIRE_SIZE <= |steps|
      ensures steps[i].Wait? ==> |steps| < i + WIRE_SIZE
    {
      assert steps[i] == Look(stream[i..]) && |stream[i..]| == |stream| - i;
    }
  }

  lemma {:induction false} StepsExtend(stream: seq<byte>, more: seq<byte>)
    ensures Extends(Steps(stream), Steps(stream + more))
  {
    forall i | 0 <= i < |stream| && !Steps(stream)[i].Wait?
      ensures Steps(stream + more)[i] == Steps(stream)[i]
    {
      assert (stream + more)[i..] == stream[i..] + more;
      LookExtends(stream[i..], more);
    }
  }

  lemma StepsOfSuffix(stream: seq<byte>, from: int)
    requires 0 <= from <= |stream|
    ensures Steps(stream[from..]) == Steps(stream)[from..]
  {
    forall i | 0 <= i < |stream| - from ensures Steps(stream[from..])[i] == Steps(stream)[from + i] {
      assert stream[from..][i..] == stream[from + i..];
    }
  }

  // ---------------------------------------------------------------- the decoder

  ghost function ScanFrom(stream: seq<byte>, cursor: int): (r: Scanned<Frame>)
    requires 0 <= cursor <= |stream|
    ensures cursor <= r.stop <= |stream| < r.stop + WIRE_SIZE
  {
    StepsAreSound(stream);
    Scan(Steps(stream), WIRE_SIZE, cursor)
  }

  datatype Fed = Fed(frames: seq<Frame>, rest: seq<byte>)

  /** The frames in a stream, and the bytes that still wait. */
  ghost function Decoded(stream: seq<byte>): Fed {
    var r := ScanFrom(stream, 0);
    Fed(r.frames, stream[r.stop..])
  }

  /** One Feed call: the frames it returns and the bytes it keeps. */
  ghost function FeedResult(buffer: seq<byte>, bytes: seq<byte>): Fed {
    Decoded(buffer + bytes)
  }

  /** One turn of the decoding loop. */
  lemma FrameInIs(window: seq<byte>)
    requires ValidWindow(window)
    ensures var length: nat := window[8];
      FrameIn(window) == Frame(ReadU32Le(window[4..8]), window[9..9 + length])
  {}

  lemma ScanOneStep(stream: seq<byte>, cursor: int)
    requires 0 <= cursor <= |stream|
    ensures var step := Look(stream[cursor..]);
            var r := ScanFrom(stream, cursor);
      && (step.Wait? ==> r.frames == [] && r.stop == cursor)
      && (step.Skip? ==> cursor < |stream| && r == ScanFrom(stream, cursor + 1))
      && (step.Take? ==> (
            && cursor + WIRE_SIZE <= |stream|
            && r.frames == [step.frame] + ScanFrom(stream, cursor + WIRE_SIZE).frames
            && r.stop == ScanFrom(stream, cursor + WIRE_SIZE).stop))
  {
    StepsAreSound(stream);
    if cursor < |stream| {
      assert Steps(stream)[cursor] == Look(stream[cursor..]);
    }
  }

  /** The loop's tests, on the buffer rather than on its tail. */
  lemma LookInPlace(stream: seq<byte>, cursor: int)
    requires 0 <= cursor <= |stream|
    ensures var left := |stream| - cursor;
      && (left < MAGIC_SIZE ==> Look(stream[cursor..]).Wait?)
      && (left >= MAGIC_SIZE ==>
            if ReadU32Le(stream[cursor..cursor + 4]) != RECEIVE_MAGIC then Look(stream[cursor..]).Skip?
            else if left < WIRE_SIZE then Look(stream[cursor..]).Wait?
            else
              var window := stream[cursor..cursor + WIRE_SIZE];
              Look(stream[cursor..]) == if ValidWindow(window) then Take(FrameIn(window)) else Skip)
      && (left >= WIRE_SIZE ==> stream[cursor..cursor + WIRE_SIZE][..4] == stream[cursor..cursor + 4])
  {
    var tail := stream[cursor..];
    if |tail| >= MAGIC_SIZE {
      assert tail[..4] == stream[cursor..cursor + 4];
    }
    if |tail| >= WIRE_SIZE {
      assert tail[..WIRE_SIZE] == stream[cursor..cursor + WIRE_SIZE];
      assert tail[..WIRE_SIZE][..4] == tail[..4];
    }
  }

  class Stm32StreamDecoder {
    var buffer: seq<byte>

    constructor ()
      ensures buffer == []
    {
      buffer := [];
    }

    method Feed(bytes: seq<byte>) returns (frames: seq<Frame>)
      modifies this
      ensures Fed(frames, buffer) == FeedResult(old(buffer), bytes)
    {
      hide Look, Steps, ReadU32Le, CrcOf, FrameIn, ScanFrom;
      buffer := buffer + bytes;
      frames := [];
      var cursor := 0;
      ghost var stream := buffer;
      ghost var whole := ScanFrom(stream, 0);
      while |buffer| - cursor >= MAGIC_SIZE
        invariant 0 <= cursor <= |buffer| && buffer == stream
        invariant whole.frames == frames + ScanFrom(stream, cursor).frames
        invariant whole.stop == ScanFrom(stream, cursor).stop
      {
        ScanOneStep(stream, cursor);
        LookInPlace(stream, cursor);
        if ReadU32Le(buffer[cursor..cursor + 4]) != RECEIVE_MAGIC {
          cursor := cursor + 1;
          continue;
        }
        if |buffer| - cursor < WIRE_SIZE {
          break;
        }
        var start := buffer[cursor..cursor + WIRE_SIZE];
        var length := start[8];
        var actualCrc := ModbusCrc(start[..17]);
        if length > MAX_DATA || FromBytes(start[17], start[18]) != actualCrc {
          cursor := cursor + 1;
          continue;
        }
        var frame := Frame(ReadU32Le(start[4..8]), start[9..9 + length]);
        assert frame == FrameIn(start) by { FrameInIs(start); }
        frames := frames + [frame];
        cursor := cursor + WIRE_SIZE;
      }
      ScanOneStep(stream, cursor);
      LookInPlace(stream, cursor);
      if cursor != 0 {
        buffer := buffer[cursor..];
      }
    }
  }

  lemma ScanOfJoined(s: seq<byte>, more: seq<byte>)
    ensures var first := ScanFrom(s, 0);
            var second := ScanFrom(s + more, first.stop);
            ScanFrom(s + more, 0).frames == first.frames + second.frames && ScanFrom(s + more, 0).stop == second.stop
  {
    StepsAreSound(s);
    StepsAreSound(s + more);
    StepsExtend(s, more);
    ScanExtends(Steps(s), Steps(s + more), WIRE_SIZE, 0);
  }

  lemma {:induction false} DecodedInTwo(s: seq<byte>, more: seq<byte>)
    ensures var one := Decoded(s);
            var two := Decoded(one.rest + more);
            Decoded(s + more) == Fed(one.frames + two.frames, two.rest)
  {
    var all := s + more;
    var stop := ScanFrom(s, 0).stop;
    var tail := all[stop..];
    assert s[stop..] + more == tail;
    ScanOfJoined(s, more);
    ScanOfSuffix(all, stop, 0);
    assert tail[ScanFrom(tail, 0).stop..] == all[ScanFrom(all, stop).stop..];
  }

  /** Feeding two pieces is feeding them joined. */
  lemma FeedComposes(buffer: seq<byte>, first: seq<byte>, second: seq<byte>)
    ensures var one := FeedResult(buffer, first);
            var two := FeedResult(one.rest, second);
            FeedResult(buffer, first + second) == Fed(one.frames + two.frames, two.rest)
  {
    assert (buffer + first) + second == buffer + (first + second);
    DecodedInTwo(buffer + first, second);
  }

  lemma ScanOfSuffix(stream: seq<byte>, from: int, cursor: int)
    requires 0 <= from <= |stream| && 0 <= cursor <= |stream| - from
    ensures ScanFrom(stream, from + cursor).frames == ScanFrom(stream[from..], cursor).frames
    ensures ScanFrom(stream, from + cursor).stop == from + ScanFrom(stream[from..], cursor).stop
  {
    StepsAreSound(stream);
    StepsAreSound(stream[from..]);
    StepsOfSuffix(stream, from);
    ScanSuffix(Steps(stream), WIRE_SIZE, from, cursor);
  }

  // ---------------------------------------------------------------- whole runs

  /** Everything a decoder returns over a run of Feed calls, and what it still holds. */
  ghost function FeedAll(buffer: seq<byte>, chunks: seq<seq<byte>>): Fed
    decreases chunks
  {
    if chunks == [] then Fed([], buffer)
    else
      var one := FeedResult(buffer, chunks[0]);
      var later := FeedAll(one.rest, chunks[1..]);
      Fed(one.frames + later.frames, later.rest)
  }

  /** What a call keeps yields nothing until more arrives. */
  lemma KeptBytesAreSpent(buffer: seq<byte>, bytes: seq<byte>)
    ensures FeedResult(FeedResult(buffer, bytes).rest, []) == Fed([], FeedResult(buffer, bytes).rest)
  {
    var one := FeedResult(buffer, bytes);
    var two := FeedResult(one.rest, []);
    FeedComposes(buffer, bytes, []);
    assert bytes + [] == bytes;
    assert |one.frames + two.frames| == |one.frames|;
  }

  lemma {:induction false} ChunkingIsIrrelevant(buffer: seq<byte>, chunks: seq<seq<byte>>)
    requires FeedResult(buffer, []) == Fed([], buffer)
    ensures FeedAll(buffer, chunks) == FeedResult(buffer, Flatten(chunks))
    decreases chunks
  {
    if chunks != [] {
      KeptBytesAreSpent(buffer, chunks[0]);
      ChunkingIsIrrelevant(FeedResult(buffer, chunks[0]).rest, chunks[1..]);
      FeedComposes(buffer, chunks[0], Flatten(chunks[1..]));
    }
  }

  lemma FreshDecoder()
    ensures FeedResult([], []) == Fed([], [])
  {
    var empty: seq<byte> := [] + [];
    ScanOneStep(empty, 0);
  }

  /** The frames carried by the chosen windows. */
  function FramesAt(stream: seq<byte>, starts: seq<int>): seq<Frame>
    requires forall k :: 0 <= k < |starts| ==> 0 <= starts[k] < |stream| && Steps(stream)[starts[k]].Take?
  {
    seq(|starts|, k requires 0 <= k < |starts| => Steps(stream)[starts[k]].frame)
  }

  /**
   * However a stream is cut into Feed calls, a fresh decoder emits exactly the
   * greedy leftmost valid windows of the whole stream, and keeps a tail of at
   * most 18 bytes.
   */
  lemma {:induction false} DecodesGreedyWindows(chunks: seq<seq<byte>>, starts: seq<int>)
    requires Greedy(Steps(Flatten(chunks)), WIRE_SIZE, starts)
    ensures var stream := Flatten(chunks);
            var run := FeedAll([], chunks);
      && run.frames == FramesAt(stream, starts)
      && |run.rest| < WIRE_SIZE && |run.rest| <= |stream|
      && run.rest == stream[|stream| - |run.rest|..]
  {
    var stream := Flatten(chunks);
    FreshDecoder();
    ChunkingIsIrrelevant([], chunks);
    assert [] + stream == stream;
    StepsAreSound(stream);
    ScanIsGreedy(Steps(stream), WIRE_SIZE);
    GreedyUnique(Steps(stream), WIRE_SIZE, starts, ScanFrom(stream, 0).starts);
    ScanTakes(Steps(stream), WIRE_SIZE, 0);
  }

  /** The windows that count as taken are exactly the valid ones, and every stream has a greedy choice of them. */
  lemma {:induction false} TakenMeansValid(stream: seq<byte>, at: nat)
    requires at < |stream|
    ensures Steps(stream)[at].Take? <==>
            at + WIRE_SIZE <= |stream| && ValidWindow(stream[at..at + WIRE_SIZE])
    ensures Greedy(Steps(stream), WIRE_SIZE, ScanFrom(stream, 0).starts)
  {
    var tail := stream[at..];
    if |tail| >= WIRE_SIZE {
      assert tail[..WIRE_SIZE] == stream[at..at + WIRE_SIZE];
      assert tail[..WIRE_SIZE][..4] == tail[..4];
    }
    StepsAreSound(stream);
    ScanIsGreedy(Steps(stream), WIRE_SIZE);
  }

  // ---------------------------------------------------------------- frames survive noise

  lemma {:induction false} WireLayout(magic: u32, frame: Frame)
    requires |frame.data| <= MAX_DATA
    ensures var w := Wire(magic, frame);
      && w[..17] == Body(magic, frame)
      && w[..4] == U32Le(magic) && w[4..8] == U32Le(frame.id)
      && w[8] == |frame.data| && w[9..9 + |frame.data|] == frame.data
      && FromBytes(w[17], w[18]) == CrcOf(Body(magic, frame))
  {
    var w := Wire(magic, frame);
    var body := Body(magic, frame);
    assert w[..17] == body;
    assert w[..4] == body[..4] && w[4..8] == body[4..8];
    assert w[9..9 + |frame.data|] == body[9..9 + |frame.data|];
    FromBytesSplits(CrcOf(body), w[17], w[18]);
  }

  lemma {:induction false} WireIsValid(frame: Frame)
    requires |frame.data| <= MAX_DATA
    ensures ValidWindow(Wire(RECEIVE_MAGIC, frame)) && FrameIn(Wire(RECEIVE_MAGIC, frame)) == frame
  {
    WireLayout(RECEIVE_MAGIC, frame);
    U32Digits(RECEIVE_MAGIC);
    U32Digits(frame.id);
  }

  lemma {:induction false} LookAtWire(frame: Frame, after: seq<byte>)
    requires |frame.data| <= MAX_DATA
    ensures Look(Wire(RECEIVE_MAGIC, frame) + after) == Take(frame)
  {
    hide Wire, ReadU32Le;
    var tail := Wire(RECEIVE_MAGIC, frame) + after;
    WireIsValid(frame);
    assert tail[..WIRE_SIZE] == Wire(RECEIVE_MAGIC, frame);
    assert tail[..WIRE_SIZE][..4] == tail[..4];
  }

  lemma SplitAt(before: seq<byte>, middle: seq<byte>, after: seq<byte>)
    ensures var s := before + middle + after;
      s[|before|..] == middle + after && s[|before| + |middle|..] == after
  {}

  /** Noise in which no valid window begins delays the frame that follows it by nothing. */
  lemma {:induction false} FrameSurvivesNoise(noise: seq<byte>, frame: Frame, after: seq<byte>)
    requires |frame.data| <= MAX_DATA
    requires forall i :: 0 <= i < |noise| ==>
               !Steps(noise + Wire(RECEIVE_MAGIC, frame) + after)[i].Take?
    ensures var rest := FeedResult([], after);
            FeedResult([], noise + Wire(RECEIVE_MAGIC, frame) + after) == Fed([frame] + rest.frames, rest.rest)
  {
    hide Look, Wire, Steps, Decoded;
    var w := Wire(RECEIVE_MAGIC, frame);
    var s := noise + w + after;
    SplitAt(noise, w, after);
    assert [] + s == s && [] + after == after;
    LookAtWire(frame, after);
    FrameBehindNoise(s, |noise|, frame);
  }

  lemma {:induction false} FrameBehindNoise(s: seq<byte>, start: nat, frame: Frame)
    requires start + WIRE_SIZE <= |s| && Look(s[start..]) == Take(frame)
    requires forall i :: 0 <= i < start ==> !Steps(s)[i].Take?
    ensures var rest := Decoded(s[start + WIRE_SIZE..]);
            Decoded(s) == Fed([frame] + rest.frames, rest.rest)
  {
    hide Look;
    var next := start + WIRE_SIZE;
    StepsAreSound(s);
    ScanReaches(Steps(s), WIRE_SIZE, 0, start);
    ScanOneStep(s, start);
    ScanOfSuffix(s, next, 0);
    assert s[next..][ScanFrom(s[next..], 0).stop..] == s[ScanFrom(s, next).stop..];
  }

  function WireAll(frames: seq<Frame>): seq<byte>
    requires forall f :: f in frames ==> |f.data| <= MAX_DATA
  {
    if frames == [] then [] else Wire(RECEIVE_MAGIC, frames[0]) + WireAll(frames[1..])
  }

  lemma {:induction false} WireAllDecodes(frames: seq<Frame>)
    requires forall f :: f in frames ==> |f.data| <= MAX_DATA
    ensures FeedResult([], WireAll(frames)) == Fed(frames, [])
  {
    hide Wire, Look;
    if frames == [] {
      FreshDecoder();
    } else {
      WireAllDecodes(frames[1..]);
      var s := [] + Wire(RECEIVE_MAGIC, frames[0]) + WireAll(frames[1..]);
      assert s == WireAll(frames);
      FrameSurvivesNoise([], frames[0], WireAll(frames[1..]));
    }
  }

  /** What an adapter prints, cut up in any way, decodes to exactly the frames it printed. */
  lemma {:induction false} PrintedFramesDecode(frames: seq<Frame>, chunks: seq<seq<byte>>)
    requires forall f :: f in frames ==> |f.data| <= MAX_DATA
    requires Flatten(chunks) == WireAll(frames)
    ensures FeedAll([], chunks) == Fed(frames, [])
  {
    FreshDecoder();
    ChunkingIsIrrelevant([], chunks);
    WireAllDecodes(frames);
  }

  /** One altered byte anywhere in a valid window makes the window invalid. */
  lemma {:induction false} AlteredByteIsRejected(window: seq<byte>, i: nat, b: byte)
    requires ValidWindow(window) && i < WIRE_SIZE && b != window[i]
    ensures !ValidWindow(window[i := b])
  {
    var altered := window[i := b];
    var crc := CrcOf(window[..17]);
    FromBytesSplits(crc, window[17], window[18]);
    FromBytesSplits(crc, altered[17], altered[18]);
    if i < 17 {
      assert altered[..17] == window[..17][i := b];
      SingleByteDetected(window[..17], i, b);
    } else {
      assert altered[..17] == window[..17];
    }
  }
}
