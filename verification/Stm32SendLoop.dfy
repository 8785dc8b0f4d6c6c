/** The same transmit loop over an STM32 adapter, which refuses a frame it cannot encode without removing it. */
module Stm32SendLoop {
  import opened Bytes
  import opened CanFrames
  import opened Stm32Codec

  const TX_BUFFER_SIZE: nat := 64

  class CanDeviceStm32 {
    constructor () {}

    method PrepareSendDataFormat(data: Frame, maxSize: nat) returns (out: seq<byte>, removeFromQueue: bool)
      ensures removeFromQueue <==> Encodable(data) && WIRE_SIZE <= maxSize
      ensures out == if removeFromQueue then Wire(SEND_MAGIC, data) else []
    {
      var encoded := EncodeStm32(data);
      if encoded.None? || maxSize < |encoded.value| {
        return [], false;
      }
      return encoded.value, true;
    }
  }

  class CanSerialPort {
    const device: CanDeviceStm32
    var txQueue: seq<Frame>
    var wire: seq<byte>

    constructor (device: CanDeviceStm32, txQueue: seq<Frame>)
      ensures this.txQueue == txQueue && wire == []
    {
      this.device, this.txQueue, wire := device, txQueue, [];
    }

    /** The first `turns` turns of the loop; it goes on while the queue is not empty. */
    method SendPendingCanFrames(turns: nat)
      modifies this
      ensures txQueue == AfterTurns(old(txQueue), turns)
      ensures wire == old(wire) + SentInTurns(old(txQueue), turns)
    {
      hide Wire;
      ghost var queue, before := txQueue, wire;
      var left := turns;
      while txQueue != [] && left > 0
        invariant AfterTurns(txQueue, left) == AfterTurns(queue, turns)
        invariant wire + SentInTurns(txQueue, left) == before + SentInTurns(queue, turns)
      {
        var data := txQueue[0];
        var out, isRemove := device.PrepareSendDataFormat(data, TX_BUFFER_SIZE);
        Associates(wire, out, SentInTurns(AfterTurn(txQueue), left - 1));
        if out != [] {
          wire := wire + out;
        }
        if isRemove {
          txQueue := txQueue[1..];
        }
        left := left - 1;
      }
      if txQueue == [] {
        NothingToSend(left);
      }
    }
  }

  /** One turn: the head frame goes if it can be encoded, else it stays. */
  function AfterTurn(queue: seq<Frame>): seq<Frame> {
    if queue != [] && Encodable(queue[0]) then queue[1..] else queue
  }

  function AfterTurns(queue: seq<Frame>, n: nat): seq<Frame>
    decreases n
  {
    if n == 0 then queue else AfterTurns(AfterTurn(queue), n - 1)
  }

  function SentInTurns(queue: seq<Frame>, n: nat): seq<byte>
    decreases n
  {
    if n == 0 then []
    else
      (if queue != [] && Encodable(queue[0]) then Wire(SEND_MAGIC, queue[0]) else [])
      + SentInTurns(AfterTurn(queue), n - 1)
  }

  lemma {:induction false} NothingToSend(n: nat)
    ensures AfterTurns([], n) == [] && SentInTurns([], n) == []
  {
    if n > 0 {
      NothingToSend(n - 1);
    }
  }

  /** How many frames at the front of the queue can be encoded. */
  function Leading(queue: seq<Frame>): (n: nat)
    ensures n <= |queue|
    ensures n < |queue| ==> !Encodable(queue[n])
    ensures forall i :: 0 <= i < n ==> Encodable(queue[i])
  {
    if queue == [] || !Encodable(queue[0]) then 0 else 1 + Leading(queue[1..])
  }

  function SendAll(frames: seq<Frame>): seq<byte>
    requires forall i :: 0 <= i < |frames| ==> Encodable(frames[i])
  {
    if frames == [] then []
    else
      assert Encodable(frames[0]);
      Wire(SEND_MAGIC, frames[0]) + SendAll(frames[1..])
  }

  /** The frames in front of the first one that cannot be encoded go, in order; that one keeps the rest waiting. */
  lemma {:induction false} TurnsStopAtUnencodable(queue: seq<Frame>, n: nat)
    ensures var sent := if n < Leading(queue) then n else Leading(queue);
      AfterTurns(queue, n) == queue[sent..] && SentInTurns(queue, n) == SendAll(queue[..sent])
    decreases n
  {
    hide Wire, Encodable, Leading, SendAll, AfterTurns, SentInTurns;
    NothingSent(queue);
    TurnsStart(queue, n);
    if n > 0 {
      LeadingStep(queue);
      if queue != [] && Encodable(queue[0]) {
        TurnsStopAtUnencodable(queue[1..], n - 1);
        SentFirst(queue, if n < Leading(queue) then n else Leading(queue));
      } else {
        TurnsStopAtUnencodable(queue, n - 1);
      }
    }
  }

  lemma TurnsStart(queue: seq<Frame>, n: nat)
    ensures n == 0 ==> AfterTurns(queue, n) == queue && SentInTurns(queue, n) == []
    ensures n > 0 && queue != [] && Encodable(queue[0]) ==>
      && AfterTurns(queue, n) == AfterTurns(queue[1..], n - 1)
      && SentInTurns(queue, n) == Wire(SEND_MAGIC, queue[0]) + SentInTurns(queue[1..], n - 1)
    ensures n > 0 && (queue == [] || !Encodable(queue[0])) ==>
      AfterTurns(queue, n) == AfterTurns(queue, n - 1) && SentInTurns(queue, n) == SentInTurns(queue, n - 1)
  {
    hide Wire;
    if n > 0 {
      assert [] + SentInTurns(queue, n - 1) == SentInTurns(queue, n - 1);
    }
  }

  lemma NothingSent(queue: seq<Frame>)
    ensures queue[0..] == queue && SendAll(queue[..0]) == []
  {}

  lemma LeadingStep(queue: seq<Frame>)
    ensures Leading(queue) == if queue != [] && Encodable(queue[0]) then 1 + Leading(queue[1..]) else 0
  {}

  lemma SentFirst(queue: seq<Frame>, sent: nat)
    requires 0 < sent <= Leading(queue)
    ensures queue[sent..] == queue[1..][sent - 1..]
    ensures SendAll(queue[..sent]) == Wire(SEND_MAGIC, queue[0]) + SendAll(queue[1..][..sent - 1])
  {
    hide Wire, Encodable;
    assert queue[..sent][1..] == queue[1..][..sent - 1];
  }

  /** So the loop ends exactly when every queued frame is encodable. */
  lemma DrainsIffEncodable(queue: seq<Frame>)
    ensures (exists n: nat :: AfterTurns(queue, n) == []) <==> (forall i :: 0 <= i < |queue| ==> Encodable(queue[i]))
  {
    hide Encodable, AfterTurns;
    forall n: nat ensures |AfterTurns(queue, n)| == |queue| - if n < Leading(queue) then n else Leading(queue) {
      TurnsStopAtUnencodable(queue, n);
    }
    if Leading(queue) == |queue| {
      assert |AfterTurns(queue, |queue|)| == 0;
    }
  }
}
