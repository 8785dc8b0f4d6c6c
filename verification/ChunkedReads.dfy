/** Bounded register requests: a long read is cut into chunks the protocol allows. */
module ChunkedReads {
  import opened Bytes

  const MAX_PER_REQUEST: nat := 120
  const ADDRESSES: nat := 0x1_0000

  datatype ModbusError =
    | WrongId | WrongTransactionId | InvalidRequest | CrcMismatch | InvalidLength | ExceptionResponse
    | UnexpectedResponse

  datatype Result<+T> = Success(value: T) | Failure(error: ModbusError)

  datatype Request = Request(offset: u16, count: u16)

  /** What a request must satisfy for a read PDU to carry it. */
  predicate IsValidReadRange(offset: u16, count: u16) {
    count != 0 && count <= 125 && offset + count <= ADDRESSES
  }

  /** The device: what it answers to the k-th request of a run. */
  type Device = (nat, Request) -> Result<seq<u16>>

  /** The serial port as its callers see it: requests go out in order and are answered by the device. */
  class RegisterPort {
    const device: Device
    var requests: seq<Request>

    constructor (device: Device)
      ensures this.device == device && requests == []
    {
      this.device := device;
      requests := [];
    }

    method ReadOne(offset: u16, count: u16) returns (r: Result<seq<u16>>)
      modifies this
      ensures requests == old(requests) + [Request(offset, count)]
      ensures r == device(|old(requests)|, Request(offset, count))
    {
      r := device(|requests|, Request(offset, count));
      requests := requests + [Request(offset, count)];
    }

    /**
     * Read any number of registers with bounded requests.  The 16-bit offset
     * may wrap to zero, but only after the last request.
     */
    method ChunkedRead(readOffset: u16, readCount: u16) returns (r: Result<seq<u16>>)
      modifies this
      ensures var outcome := ChunkedOutcome(device, |old(requests)|, readOffset, readCount);
              r == outcome.result && requests == old(requests) + outcome.sent
    {
      if readCount == 0 || readOffset + readCount > ADDRESSES {
        ChunkedIsRefused(device, |requests|, readOffset, readCount);
        return Failure(InvalidRequest);
      }
      hide Collected, Chunks, Resume, ChunkedOutcome, Wrap16;
      var words: seq<u16> := [];
      var remaining: nat := readCount;
      var offset: u16 := readOffset;
      ghost var k, sent: seq<Request> := |requests|, [];
      ghost var whole := Collected(device, k, Chunks(readOffset, readCount));
      ChunkedIsCollected(device, k, readOffset, readCount);
      ResumeNothing(whole);
      while remaining > 0
        invariant remaining > 0 ==> offset == readOffset + readCount - remaining
        invariant remaining <= readCount
        invariant requests == old(requests) + sent
        invariant whole ==
          Resume(sent, words, Collected(device, |requests|, Chunks(readOffset + readCount - remaining, remaining)))
      {
        var step: nat := if remaining < MAX_PER_REQUEST then remaining else MAX_PER_REQUEST;
        assert readOffset + readCount - remaining == offset;
        assert readOffset + readCount - (remaining - step) == offset + step;
        ChunkStep(device, |requests|, offset, remaining, sent, words);
        var chunk := ReadOne(offset, step);
        assert (old(requests) + sent) + [Request(offset, step)] == old(requests) + (sent + [Request(offset, step)]);
        sent := sent + [Request(offset, step)];
        if chunk.Failure? {
          return Failure(chunk.error);
        }
        if |chunk.value| != step {
          return Failure(InvalidLength);
        }
        words := words + chunk.value;
        WrapBelow(offset + step);
        offset := Wrap16(offset + step);
        remaining := remaining - step;
      }
      ChunksDone(device, |requests|, readOffset + readCount, sent, words);
      return Success(words);
    }
  }

  /** 16-bit addition. */
  function Wrap16(n: nat): u16 { n % ADDRESSES }

  lemma WrapBelow(n: nat)
    requires n <= ADDRESSES
    ensures Wrap16(n) == if n == ADDRESSES then 0 else n
  {}

  lemma ChunkedIsCollected(device: Device, k: nat, offset: u16, count: u16)
    requires count != 0 && offset + count <= ADDRESSES
    ensures ChunkedOutcome(device, k, offset, count) == Collected(device, k, Chunks(offset, count))
  {}

  lemma ChunkedIsRefused(device: Device, k: nat, offset: u16, count: u16)
    requires count == 0 || offset + count > ADDRESSES
    ensures ChunkedOutcome(device, k, offset, count) == Outcome(Failure(InvalidRequest), [])
  {}

  lemma ResumeNothing(later: Outcome)
    ensures Resume([], [], later) == later
  {
    if later.result.Success? {
      assert [] + later.result.value == later.result.value;
    }
    assert [] + later.sent == later.sent;
  }

  /** One turn of the loop: what the answer to the next chunk makes of the outcome. */
  lemma ChunkStep(device: Device, k: nat, offset: u16, remaining: nat, sent: seq<Request>, words: seq<u16>)
    requires 0 < remaining && offset + remaining <= ADDRESSES
    ensures var step := if remaining < MAX_PER_REQUEST then remaining else MAX_PER_REQUEST;
            var request := Request(offset, step);
            var chunk := device(k, request);
            var outcome := Resume(sent, words, Collected(device, k, Chunks(offset, remaining)));
      if chunk.Failure? then outcome == Outcome(Failure(chunk.error), sent + [request])
      else if |chunk.value| != step then outcome == Outcome(Failure(InvalidLength), sent + [request])
      else outcome ==
           Resume(sent + [request], words + chunk.value,
                  Collected(device, k + 1, Chunks(offset + step, remaining - step)))
  {
    var step := if remaining < MAX_PER_REQUEST then remaining else MAX_PER_REQUEST;
    var request, rest := Request(offset, step), Chunks(offset + step, remaining - step);
    assert Chunks(offset, remaining) == [request] + rest;
    assert ([request] + rest)[1..] == rest;
    var chunk := device(k, request);
    if chunk.Success? && |chunk.value| == step {
      ResumeOneMore(sent, words, request, chunk.value, Collected(device, k + 1, rest));
    }
  }

  lemma ChunksDone(device: Device, k: nat, offset: nat, sent: seq<Request>, words: seq<u16>)
    requires offset <= ADDRESSES
    ensures Resume(sent, words, Collected(device, k, Chunks(offset, 0))) == Outcome(Success(words), sent)
  {
    assert words + [] == words && sent + [] == sent;
  }

  // ---------------------------------------------------------------- what a chunked read does

  /** The requests that tile an interval of addresses. */
  function Chunks(offset: nat, count: nat): (requests: seq<Request>)
    requires offset + count <= ADDRESSES
    decreases count
  {
    if count == 0 then []
    else
      var step := if count < MAX_PER_REQUEST then count else MAX_PER_REQUEST;
      [Request(offset, step)] + Chunks(offset + step, count - step)
  }

  datatype Outcome = Outcome(result: Result<seq<u16>>, sent: seq<Request>)

  /** Sending requests one after the other until one fails or answers with the wrong length. */
  function Collected(device: Device, k: nat, requests: seq<Request>): Outcome
    decreases requests
  {
    if requests == [] then Outcome(Success([]), [])
    else
      var chunk := device(k, requests[0]);
      if chunk.Failure? then Outcome(Failure(chunk.error), [requests[0]])
      else if |chunk.value| != requests[0].count then Outcome(Failure(InvalidLength), [requests[0]])
      else Resume([requests[0]], chunk.value, Collected(device, k + 1, requests[1..]))
  }

  function Resume(sent: seq<Request>, words: seq<u16>, later: Outcome): Outcome {
    Outcome(if later.result.Failure? then later.result else Success(words + later.result.value), sent + later.sent)
  }

  lemma ResumeOneMore(sent: seq<Request>, words: seq<u16>, request: Request, chunk: seq<u16>, later: Outcome)
    ensures Resume(sent, words, Resume([request], chunk, later)) == Resume(sent + [request], words + chunk, later)
  {
    assert sent + ([request] + later.sent) == (sent + [request]) + later.sent;
    if later.result.Success? {
      assert words + (chunk + later.result.value) == (words + chunk) + later.result.value;
    }
  }

  function ChunkedOutcome(device: Device, k: nat, offset: u16, count: u16): Outcome {
    if count == 0 || offset + count > ADDRESSES then Outcome(Failure(InvalidRequest), [])
    else Collected(device, k, Chunks(offset, count))
  }

  // ---------------------------------------------------------------- what decides a chunked read

  /** The answer to the i-th request of a run that began with the k-th. */
  predicate Good(device: Device, k: nat, requests: seq<Request>, i: nat)
    requires i < |requests|
  {
    var chunk := device(k + i, requests[i]);
    chunk.Success? && |chunk.value| == requests[i].count
  }

  predicate AllGood(device: Device, k: nat, requests: seq<Request>, n: nat)
    requires n <= |requests|
  {
    forall i: nat :: i < n ==> Good(device, k, requests, i)
  }

  function GoodWords(device: Device, k: nat, requests: seq<Request>, n: nat): seq<u16>
    requires n <= |requests| && AllGood(device, k, requests, n)
  {
    if n == 0 then []
    else
      assert Good(device, k, requests, n - 1);
      GoodWords(device, k, requests, n - 1) + device(k + (n - 1), requests[n - 1]).value
  }

  lemma GoodShifts(device: Device, k: nat, requests: seq<Request>, n: nat)
    requires 0 < n <= |requests| && AllGood(device, k, requests, n)
    ensures Good(device, k, requests, 0) && AllGood(device, k + 1, requests[1..], n - 1)
  {
    var next, rest := k + 1, requests[1..];
    forall i: nat | i < n - 1 ensures Good(device, next, rest, i) {
      assert Good(device, k, requests, i + 1);
      assert rest[i] == requests[i + 1] && next + i == k + (i + 1);
    }
  }

  /** The first bad answer decides: nothing is sent after it, and its error, or a wrong length, is reported. */
  lemma {:induction false} FirstBadDecides(device: Device, k: nat, requests: seq<Request>, bad: nat)
    requires bad < |requests| && AllGood(device, k, requests, bad) && !Good(device, k, requests, bad)
    ensures var chunk := device(k + bad, requests[bad]);
      Collected(device, k, requests)
      == Outcome(Failure(if chunk.Failure? then chunk.error else InvalidLength), requests[..bad + 1])
    decreases requests
  {
    if bad > 0 {
      var rest := requests[1..];
      GoodShifts(device, k, requests, bad);
      assert rest[bad - 1] == requests[bad] && k + 1 + (bad - 1) == k + bad;
      FirstBadDecides(device, k + 1, rest, bad - 1);
      assert [requests[0]] + rest[..bad] == requests[..bad + 1];
    } else {
      assert requests[..1] == [requests[0]];
    }
  }

  /** Without a bad answer every request is sent and the words are put together in order. */
  lemma {:induction false} GoodIsCollected(device: Device, k: nat, requests: seq<Request>)
    requires AllGood(device, k, requests, |requests|)
    ensures Collected(device, k, requests) == Outcome(Success(GoodWords(device, k, requests, |requests|)), requests)
    decreases requests
  {
    if requests != [] {
      GoodShifts(device, k, requests, |requests|);
      GoodIsCollected(device, k + 1, requests[1..]);
      GoodWordsFirst(device, k, requests, |requests|);
      assert [requests[0]] + requests[1..] == requests;
    } else {
      assert requests == [];
    }
  }

  lemma {:induction false} GoodWordsFirst(device: Device, k: nat, requests: seq<Request>, n: nat)
    requires 0 < n <= |requests| && AllGood(device, k, requests, n)
    ensures Good(device, k, requests, 0) && AllGood(device, k + 1, requests[1..], n - 1)
    ensures GoodWords(device, k, requests, n)
         == device(k, requests[0]).value + GoodWords(device, k + 1, requests[1..], n - 1)
    decreases n
  {
    GoodShifts(device, k, requests, n);
    var first, rest := device(k, requests[0]).value, requests[1..];
    assert k + 0 == k;
    if n == 1 {
      assert [] + first == first == first + [];
    } else {
      GoodWordsFirst(device, k, requests, n - 1);
      assert rest[n - 2] == requests[n - 1] && k + 1 + (n - 2) == k + (n - 1);
      assert Good(device, k, requests, n - 1) && Good(device, k + 1, rest, n - 2);
      Associates(first, GoodWords(device, k + 1, rest, n - 2), device(k + (n - 1), requests[n - 1]).value);
    }
  }

  // ---------------------------------------------------------------- chunking laws

  /** Every request is one the protocol allows, there are as few as the limit permits, and they tile in order. */
  lemma {:induction false} ChunksTile(offset: nat, count: nat)
    requires offset + count <= ADDRESSES
    ensures var requests := Chunks(offset, count);
      && |requests| == (count + 119) / 120
      && (forall i :: 0 <= i < |requests| ==> IsValidReadRange(requests[i].offset, requests[i].count))
      && (forall i :: 0 <= i < |requests| ==> requests[i].offset == offset + i * 120)
      && (forall i :: 0 <= i < |requests| ==>
            requests[i].offset + requests[i].count ==
            if i < |requests| - 1 then requests[i + 1].offset else offset + count)
    decreases count
  {
    if count > 0 {
      var step := if count < MAX_PER_REQUEST then count else MAX_PER_REQUEST;
      var requests, rest := Chunks(offset, count), Chunks(offset + step, count - step);
      ChunksTile(offset + step, count - step);
      forall i | 0 <= i < |requests|
        ensures IsValidReadRange(requests[i].offset, requests[i].count)
        ensures requests[i].offset == offset + i * 120
        ensures requests[i].offset + requests[i].count ==
                if i < |requests| - 1 then requests[i + 1].offset else offset + count
      {
        assert |rest| > 0 ==> rest[0].offset == offset + step;
        if i > 0 {
          assert requests[i] == rest[i - 1] && (i < |requests| - 1 ==> requests[i + 1] == rest[i]);
          assert step == 120;
          assert rest[i - 1].offset == offset + step + (i - 1) * 120;
        }
      }
    }
  }

  /** The device answers every request that a read PDU can carry with the slave's own registers. */
  ghost predicate Faithful(device: Device, memory: seq<u16>) {
    && |memory| == ADDRESSES
    && forall k: nat, q: Request {:trigger device(k, q)} :: IsValidReadRange(q.offset, q.count) ==>
         device(k, q) == Success(memory[q.offset..q.offset + q.count])
  }

  /** Over a faithful device the chunks put together are the registers of the interval. */
  lemma {:induction false} ChunksReadMemory(device: Device, memory: seq<u16>, k: nat, offset: nat, count: nat)
    requires Faithful(device, memory) && offset + count <= ADDRESSES
    ensures Collected(device, k, Chunks(offset, count))
         == Outcome(Success(memory[offset..offset + count]), Chunks(offset, count))
    decreases count
  {
    if count > 0 {
      var step := if count < MAX_PER_REQUEST then count else MAX_PER_REQUEST;
      var rest := Chunks(offset + step, count - step);
      ChunksReadMemory(device, memory, k + 1, offset + step, count - step);
      assert Chunks(offset, count)[1..] == rest;
      assert memory[offset..offset + step] + memory[offset + step..offset + count] == memory[offset..offset + count];
    }
  }

  lemma ChunkedReadsMemory(device: Device, memory: seq<u16>, k: nat, offset: u16, count: u16)
    requires Faithful(device, memory)
    ensures var outcome := ChunkedOutcome(device, k, offset, count);
      if count == 0 || offset + count > ADDRESSES then outcome.result == Failure(InvalidRequest)
      else outcome.result == Success(memory[offset..offset + count])
  {
    if count != 0 && offset + count <= ADDRESSES {
      ChunksReadMemory(device, memory, k, offset, count);
    }
  }
}
