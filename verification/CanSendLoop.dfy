/** The transmit queue of the CAN port and the loop that drains it through a Lawicel adapter. */
module CanSendLoop {
  import opened Bytes
  import opened CanFrames
  import opened LawicelCodec
  import opened LawicelStream

  const TX_QUEUE_MAX: nat := 100
  const TX_BUFFER_SIZE: nat := 64

  const HANDSHAKE_STEPS: nat := 4

  /** The wake-up commands, in the order the adapter wants them. */
  function Command(step: nat): (command: string)
    requires step < HANDSHAKE_STEPS
    ensures 0 < |command| <= 3
  {
    match step
    case 0 => "\r"
    case 1 => "V\r"
    case 2 => "S6\r"
    case _ => "O\r"
  }

  // ---------------------------------------------------------------- what draining means

  /** The wake-up commands that have not been sent yet. */
  function Handshake(step: nat): string
    requires step <= HANDSHAKE_STEPS
    decreases HANDSHAKE_STEPS - step
  {
    if step == HANDSHAKE_STEPS then "" else Command(step) + Handshake(step + 1)
  }

  /** The frames an adapter can carry, in order. */
  function Carried(queue: seq<Frame>): (frames: seq<Frame>)
    ensures forall i :: 0 <= i < |frames| ==> Encodable(frames[i])
  {
    if queue == [] then []
    else if Encodable(queue[0]) then [queue[0]] + Carried(queue[1..])
    else Carried(queue[1..])
  }

  function Repeat<T>(x: T, n: nat): seq<T> {
    seq(n, _ => x)
  }

  class CanDeviceLawicel {
    var handshakeStep: nat

    constructor ()
      ensures handshakeStep == 0
    {
      handshakeStep := 0;
    }

    /** The next thing to write; only a data frame, not a command, leaves the queue. */
    method PrepareSendDataFormat(data: Frame, maxSize: nat) returns (out: string, removeFromQueue: bool)
      requires handshakeStep <= HANDSHAKE_STEPS && |data.data| <= MAX_DATA
      modifies this
      ensures removeFromQueue <==> old(handshakeStep) == HANDSHAKE_STEPS
      ensures old(handshakeStep) < HANDSHAKE_STEPS && |Command(old(handshakeStep))| > maxSize ==>
                out == "" && handshakeStep == old(handshakeStep)
      ensures old(handshakeStep) < HANDSHAKE_STEPS && |Command(old(handshakeStep))| <= maxSize ==>
                out == Command(old(handshakeStep)) && handshakeStep == old(handshakeStep) + 1
      ensures old(handshakeStep) == HANDSHAKE_STEPS ==>
                && handshakeStep == old(handshakeStep)
                && out == if Encodable(data) && |Text(data)| <= maxSize then Text(data) else ""
    {
      if handshakeStep < HANDSHAKE_STEPS {
        var command := Command(handshakeStep);
        if |command| > maxSize {
          return "", false;
        }
        handshakeStep := handshakeStep + 1;
        return command, false;
      }
      var encoded := EncodeLawicel(data);
      if encoded.None? || |encoded.value| > maxSize {
        return "", true;
      }
      return encoded.value, true;
    }
  }

  class CanSerialPort {
    var txQueue: seq<Frame>
    const device: CanDeviceLawicel
    /** Everything written to the serial line, and every frame the listener was told about. */
    var wire: string
    var reported: seq<Frame>

    ghost predicate Valid()
      reads this, device
    {
      && device.handshakeStep <= HANDSHAKE_STEPS
      && |txQueue| <= TX_QUEUE_MAX
      && forall i :: 0 <= i < |txQueue| ==> |txQueue[i].data| <= MAX_DATA
    }

    constructor (device: CanDeviceLawicel)
      requires device.handshakeStep == 0
      ensures Valid() && this.device == device
      ensures txQueue == [] && wire == "" && reported == []
    {
      this.device := device;
      txQueue, wire, reported := [], "", [];
    }

    /** Longer payloads are cut to eight bytes, empty ones ignored, and the oldest frame makes room. */
    method AddToTxQueue(frameId: u32, data: seq<byte>)
      requires Valid()
      modifies this`txQueue
      ensures Valid()
      ensures txQueue == if data == [] then old(txQueue) else Enqueued(old(txQueue), Frame(frameId, Truncated(data)))
    {
      if data == [] {
        return;
      }
      txQueue := txQueue + [Frame(frameId, Truncated(data))];
      if |txQueue| > TX_QUEUE_MAX {
        txQueue := txQueue[1..];
      }
    }

    /**
     * With nobody adding meanwhile, the loop ends with the queue empty; it
     * wrote the commands still due, then every frame that can be carried,
     * once and in order.  The listener hears of the head frame once more for
     * each command written before it.
     */
    method SendPendingCanFrames()
      requires Valid()
      modifies this`txQueue, this`wire, this`reported, device
      ensures Valid() && txQueue == []
      ensures wire == old(wire) + Drained(old(device.handshakeStep), old(txQueue)).wire
      ensures device.handshakeStep == Drained(old(device.handshakeStep), old(txQueue)).step
      ensures reported == old(reported) + Notified(old(device.handshakeStep), old(txQueue))
    {
      hide Drained, Notified, Command, Text;
      ghost var queue, step, wire0, reported0 := txQueue, device.handshakeStep, wire, reported;
      while txQueue != []
        invariant Valid()
        invariant wire + Drained(device.handshakeStep, txQueue).wire == wire0 + Drained(step, queue).wire
        invariant Drained(device.handshakeStep, txQueue).step == Drained(step, queue).step
        invariant reported + Notified(device.handshakeStep, txQueue) == reported0 + Notified(step, queue)
        decreases HANDSHAKE_STEPS - device.handshakeStep + |txQueue|
      {
        var data := txQueue[0];
        ghost var before, left := device.handshakeStep, txQueue;
        var out, isRemove := device.PrepareSendDataFormat(data, TX_BUFFER_SIZE);
        if before < HANDSHAKE_STEPS {
          CommandTurn(before, left);
        } else {
          FrameTurn(left);
          if Encodable(data) {
            TextFits(data);
          }
          DrainedStep(left);
          DrainedStep(left[1..]);
        }
        ghost var later := Drained(device.handshakeStep, if isRemove then left[1..] else left).wire;
        assert (wire + out) + later == wire + (out + later);
        if out != "" {
          wire := wire + out;
        }
        reported := reported + [data];
        if isRemove {
          txQueue := txQueue[1..];
        }
      }
      DrainedNothing(device.handshakeStep);
    }
  }

  lemma DrainedStep(queue: seq<Frame>)
    ensures Drained(HANDSHAKE_STEPS, queue).step == HANDSHAKE_STEPS
  {}

  lemma DrainedNothing(step: nat)
    requires step <= HANDSHAKE_STEPS
    ensures Drained(step, []) == Drain("", step) && Notified(step, []) == []
  {}

  function Truncated(data: seq<byte>): (r: seq<byte>)
    ensures r <= data && |r| == if |data| <= 8 then |data| else 8
  {
    data[..if |data| < MAX_DATA then |data| else MAX_DATA]
  }

  function Enqueued(queue: seq<Frame>, frame: Frame): seq<Frame> {
    var longer := queue + [frame];
    if |longer| > TX_QUEUE_MAX then longer[1..] else longer
  }

  datatype Drain = Drain(wire: string, step: nat)

  /** The bytes written by draining a queue, and the handshake step afterwards. */
  function Drained(step: nat, queue: seq<Frame>): (r: Drain)
    requires step <= HANDSHAKE_STEPS
    ensures r.step <= HANDSHAKE_STEPS
  {
    if queue == [] then Drain("", step) else Drain(Handshake(step) + TextAll(Carried(queue)), HANDSHAKE_STEPS)
  }

  ghost function Notified(step: nat, queue: seq<Frame>): seq<Frame>
    requires step <= HANDSHAKE_STEPS
  {
    if queue == [] then [] else Repeat(queue[0], HANDSHAKE_STEPS - step) + queue
  }

  lemma TextFits(frame: Frame)
    requires Encodable(frame)
    ensures |Text(frame)| <= TX_BUFFER_SIZE
  {}

  lemma {:induction false} CommandTurn(step: nat, queue: seq<Frame>)
    requires step < HANDSHAKE_STEPS && queue != []
    ensures Drained(step, queue).wire == Command(step) + Drained(step + 1, queue).wire
    ensures Drained(step, queue).step == Drained(step + 1, queue).step
    ensures Notified(step, queue) == [queue[0]] + Notified(step + 1, queue)
  {
    hide Command, TextAll, Carried;
    var texts := TextAll(Carried(queue));
    assert (Command(step) + Handshake(step + 1)) + texts == Command(step) + (Handshake(step + 1) + texts);
  }

  lemma FrameTurn(queue: seq<Frame>)
    requires queue != []
    ensures Drained(HANDSHAKE_STEPS, queue).wire ==
            (if Encodable(queue[0]) then Text(queue[0]) else "") + Drained(HANDSHAKE_STEPS, queue[1..]).wire
    ensures Notified(HANDSHAKE_STEPS, queue) == [queue[0]] + Notified(HANDSHAKE_STEPS, queue[1..])
  {
    hide Text;
    WireOfFrames(queue);
    WireOfFrames(queue[1..]);
    if Encodable(queue[0]) {
      assert Carried(queue)[0] == queue[0] && Carried(queue)[1..] == Carried(queue[1..]);
    }
  }

  lemma WireOfFrames(queue: seq<Frame>)
    ensures Drained(HANDSHAKE_STEPS, queue) == Drain(TextAll(Carried(queue)), HANDSHAKE_STEPS)
  {}

  // ---------------------------------------------------------------- what the handshake does to an adapter

  /**
   * An adapter: the characters of the command it is receiving, its bit rate
   * in kbit/s, and whether its channel is open.
   */
  datatype Adapter = Adapter(received: string, rate: Option<nat>, isOpen: bool)

  /** What bit rate a digit sets, for each kind of adapter. */
  type Rates = char -> Option<nat>

  /** A bit rate is accepted only while the channel is closed, and opening needs a bit rate. */
  function Obeyed(rates: Rates, a: Adapter, command: string): Adapter {
    if a.isOpen then a
    else if command == "O" then a.(isOpen := a.rate.Some?)
    else if |command| == 2 && command[0] == 'S' && rates(command[1]).Some? then a.(rate := rates(command[1]))
    else a
  }

  /** A carriage return ends a command. */
  function Told(rates: Rates, a: Adapter, text: string): Adapter
    decreases |text|
  {
    if text == "" then a
    else if text[0] == '\r' then Told(rates, Obeyed(rates, a, a.received).(received := ""), text[1..])
    else Told(rates, a.(received := a.received + [text[0]]), text[1..])
  }

  lemma {:induction false} ToldInTwo(rates: Rates, a: Adapter, first: string, second: string)
    ensures Told(rates, a, first + second) == Told(rates, Told(rates, a, first), second)
    decreases |first|
  {
    if first == "" {
      assert first + second == second;
    } else {
      assert (first + second)[1..] == first[1..] + second;
      ToldInTwo(rates, if first[0] == '\r' then Obeyed(rates, a, a.received).(received := "")
                else a.(received := a.received + [first[0]]), first[1..], second);
    }
  }

  lemma {:induction false} ToldCommand(rates: Rates, a: Adapter, command: string)
    requires forall i :: 0 <= i < |command| ==> command[i] != '\r'
    ensures Told(rates, a, command + "\r") == Obeyed(rates, a, a.received + command).(received := "")
    decreases |command|
  {
    if command == "" {
      assert "" + "\r" == "\r" && a.received + "" == a.received;
      assert "\r"[1..] == "";
    } else {
      assert (command + "\r")[1..] == command[1..] + "\r";
      assert (a.received + [command[0]]) + command[1..] == a.received + command;
      ToldCommand(rates, a.(received := a.received + [command[0]]), command[1..]);
    }
  }

  /** The whole handshake, character by character. */
  lemma HandshakeText()
    ensures Handshake(0) == "\r" + ("V\r" + ("S6\r" + "O\r"))
  {
    assert Handshake(3) == "O\r" + Handshake(4) && "O\r" + Handshake(4) == "O\r";
    assert Handshake(2) == "S6\r" + Handshake(3);
    assert Handshake(1) == "V\r" + Handshake(2);
  }

  /** Whatever part of a command an adapter still held, the handshake opens its closed channel at 500 kbit/s. */
  lemma HandshakeOpens(rates: Rates, left: string)
    requires rates('6') == Some(500)
    ensures Told(rates, Adapter(left, None, false), Handshake(0)) == Adapter("", Some(500), true)
  {
    var a := Adapter(left, None, false);
    HandshakeText();
    var b := Obeyed(rates, a, left).(received := "");
    hide Handshake, Told;
    ToldInTwo(rates, a, "\r", "V\r" + ("S6\r" + "O\r"));
    ToldCommand(rates, a, "");
    assert a.received + "" == a.received && "" + "\r" == "\r";
    assert "V" + "\r" == "V\r" && "S6" + "\r" == "S6\r" && "O" + "\r" == "O\r";
    ToldInTwo(rates, b, "V\r", "S6\r" + "O\r");
    ToldCommand(rates, b, "V");
    assert "" + "V" == "V" && "" + "S6" == "S6" && "" + "O" == "O";
    ToldInTwo(rates, b, "S6\r", "O\r");
    ToldCommand(rates, b, "S6");
    ToldCommand(rates, b.(rate := Some(500)), "O");
  }

  // ---------------------------------------------------------------- whole runs decode to what was queued

  /** The bytes written by draining one batch after another. */
  function DrainedAll(step: nat, batches: seq<seq<Frame>>): string
    requires step <= HANDSHAKE_STEPS
    decreases batches
  {
    if batches == [] then ""
    else
      var one := Drained(step, batches[0]);
      one.wire + DrainedAll(one.step, batches[1..])
  }

  lemma {:induction false} CarriedInTwo(first: seq<Frame>, second: seq<Frame>)
    ensures Carried(first + second) == Carried(first) + Carried(second)
  {
    if first == [] {
      assert first + second == second;
    } else {
      assert (first + second)[1..] == first[1..] + second;
      CarriedInTwo(first[1..], second);
    }
  }

  lemma {:induction false} TextAllInTwo(first: seq<Frame>, second: seq<Frame>)
    requires forall i :: 0 <= i < |first| ==> Encodable(first[i])
    requires forall i :: 0 <= i < |second| ==> Encodable(second[i])
    ensures forall i :: 0 <= i < |first + second| ==> Encodable((first + second)[i])
    ensures TextAll(first + second) == TextAll(first) + TextAll(second)
  {
    hide Text;
    if first == [] {
      assert first + second == second;
      assert "" + TextAll(second) == TextAll(second);
    } else {
      assert Encodable(first[0]);
      assert (first + second)[1..] == first[1..] + second;
      TextAllInTwo(first[1..], second);
      Associates(Text(first[0]), TextAll(first[1..]), TextAll(second));
    }
  }

  /** The commands are sent once, before the first frame, however the frames are batched. */
  lemma {:induction false} BatchesConcatenate(step: nat, batches: seq<seq<Frame>>)
    requires step <= HANDSHAKE_STEPS
    ensures DrainedAll(step, batches) == Drained(step, Flatten(batches)).wire
    decreases batches
  {
    hide Command, Handshake, TextAll, Carried, Drained;
    if batches == [] {
      DrainedNothing(step);
    } else {
      var head, tail := batches[0], Flatten(batches[1..]);
      BatchesConcatenate(Drained(step, head).step, batches[1..]);
      DrainedInTwo(step, head, tail);
    }
  }

  lemma {:induction false} DrainedInTwo(step: nat, first: seq<Frame>, second: seq<Frame>)
    requires step <= HANDSHAKE_STEPS
    ensures var one := Drained(step, first);
            Drained(step, first + second).wire == one.wire + Drained(one.step, second).wire
  {
    hide Command, TextAll, Carried;
    if first == [] {
      assert first + second == second;
    } else {
      CarriedInTwo(first, second);
      TextAllInTwo(Carried(first), Carried(second));
      WireOfFrames(second);
      var h, t, u := Handshake(step), TextAll(Carried(first)), TextAll(Carried(second));
      assert h + (t + u) == (h + t) + u;
    }
  }

  lemma LineEmits(line: string, after: string)
    requires CR !in line && |line| <= MAX_BUFFERED
    ensures Emitted(line + [CR] + after) == LineFrames(Visible(line)) + Emitted(after)
    ensures LinesFit(after) ==> LinesFit(line + [CR] + after)
  {
    var s := line + [CR] + after;
    FindEndIs(s, |line|);
    assert s[..|line|] == line && s[|line| + 1..] == after;
    if LinesFit(after) {
      LinesFitAfter(line, after);
    }
  }

  lemma SilentCommand(line: string)
    requires line == "" || line == "V" || line == "S6" || line == "O"
    ensures LineFrames(Visible(line)) == []
  {
    if line == "V" {
      FindStartIs(line, 0);
    } else {
      FindStartIs(line, |line|);
    }
  }

  /** The wake-up commands carry no frames of their own. */
  lemma {:induction false} HandshakeIsSilent(step: nat, after: string)
    requires step <= HANDSHAKE_STEPS && LinesFit(after)
    ensures Emitted(Handshake(step) + after) == Emitted(after) && LinesFit(Handshake(step) + after)
    decreases HANDSHAKE_STEPS - step
  {
    hide Command, Emitted, LinesFit;
    if step == HANDSHAKE_STEPS {
      assert Handshake(step) + after == after;
    } else {
      HandshakeIsSilent(step + 1, after);
      var rest := Handshake(step + 1) + after;
      CommandIsSilent(step, rest);
      assert Handshake(step) + after == Command(step) + rest;
    }
  }

  lemma CommandIsSilent(step: nat, rest: string)
    requires step < HANDSHAKE_STEPS && LinesFit(rest)
    ensures Emitted(Command(step) + rest) == Emitted(rest) && LinesFit(Command(step) + rest)
  {
    hide Emitted, LinesFit, LineFrames, Visible;
    var command := Command(step);
    var line := command[..|command| - 1];
    assert command == line + [CR];
    assert CR !in line;
    SilentCommand(line);
    LineEmits(line, rest);
  }

  /**
   * Everything the port writes over a run of drains, starting at any point of
   * the handshake and cut up in any way, decodes to exactly the queued frames
   * that can be carried.
   */
  lemma DrainedFramesDecode(step: nat, batches: seq<seq<Frame>>, chunks: seq<string>)
    requires step <= HANDSHAKE_STEPS
    requires Flatten(chunks) == DrainedAll(step, batches)
    ensures FeedAll("", chunks).frames == Carried(Flatten(batches))
  {
    var queue := Flatten(batches);
    BatchesConcatenate(step, batches);
    TextAllEmits(Carried(queue));
    if queue != [] {
      HandshakeIsSilent(step, TextAll(Carried(queue)));
    } else {
      TextAllEmits([]);
    }
    FittingIsUnmasked(Flatten(chunks));
    DecodesCompleteLines(chunks);
  }

  // ---------------------------------------------------------------- the queue keeps the newest frames

  function Newest(frames: seq<Frame>): seq<Frame> {
    if |frames| <= TX_QUEUE_MAX then frames else frames[|frames| - TX_QUEUE_MAX..]
  }

  function EnqueuedAll(queue: seq<Frame>, frames: seq<Frame>): seq<Frame>
    decreases frames
  {
    if frames == [] then queue else EnqueuedAll(Enqueued(queue, frames[0]), frames[1..])
  }

  lemma NewestOne(queue: seq<Frame>, frame: Frame, later: seq<Frame>)
    requires |queue| <= TX_QUEUE_MAX
    ensures |Enqueued(queue, frame)| <= TX_QUEUE_MAX
    ensures Newest(Enqueued(queue, frame) + later) == Newest(queue + ([frame] + later))
  {
    var longer := queue + [frame];
    Associates(queue, [frame], later);
    if |longer| > TX_QUEUE_MAX {
      assert (longer + later)[1..] == longer[1..] + later;
    }
  }

  /** However many frames arrive between drains, the queue holds the newest hundred in order. */
  lemma {:induction false} QueueKeepsNewest(queue: seq<Frame>, frames: seq<Frame>)
    requires |queue| <= 100
    ensures var all, kept := queue + frames, EnqueuedAll(queue, frames);
      && |kept| == (if |all| <= 100 then |all| else 100)
      && kept == all[|all| - |kept|..]
    ensures EnqueuedAll(queue, frames) == Newest(queue + frames)
    decreases frames
  {
    if frames == [] {
      assert queue + frames == queue;
    } else {
      QueueKeepsNewest(Enqueued(queue, frames[0]), frames[1..]);
      NewestOne(queue, frames[0], frames[1..]);
      assert frames == [frames[0]] + frames[1..];
    }
  }
}
