/** The Lawicel stream decoder: resynchronisation, bounded buffering, and independence of chunking. */
module LawicelStream {
  import opened Bytes
  import opened CanFrames
  import opened LawicelCodec

  predicate IsStart(c: char) { c == 't' || c == 'T' || c == 'V' }

  /** Position of the first line start, or the length when there is none. */
  function FindStart(s: string): (at: nat)
    ensures at <= |s|
    ensures at < |s| ==> IsStart(s[at])
    ensures forall i :: 0 <= i < at ==> !IsStart(s[i])
  {
    if s == "" || IsStart(s[0]) then 0 else 1 + FindStart(s[1..])
  }

  /** Position of the first carriage return, or the length when there is none. */
  function FindEnd(s: string): (at: nat)
    ensures at <= |s|
    ensures at < |s| ==> s[at] == CR
    ensures forall i :: 0 <= i < at ==> s[i] != CR
  {
    if s == "" || s[0] == CR then 0 else 1 + FindEnd(s[1..])
  }

  // ---------------------------------------------------------------- what a stream means

  /** The frame of a complete line that begins at a line start; version lines carry none. */
  function LineFrames(line: string): seq<Frame> {
    var parsed := ParsedLine(line);
    if parsed.Some? then [parsed.value] else []
  }

  /** The part of a text that begins at its first line start. */
  function Visible(s: string): string { s[FindStart(s)..] }

  /** The frames of all complete, carriage-return terminated lines, each read from its first line start. */
  function Emitted(stream: string): seq<Frame>
    decreases |stream|
  {
    var end := FindEnd(stream);
    if end == |stream| then []
    else LineFrames(Visible(stream[..end])) + Emitted(stream[end + 1..])
  }

  /** What follows the last carriage return. */
  function Pending(stream: string): string
    decreases |stream|
  {
    var end := FindEnd(stream);
    if end == |stream| then stream else Pending(stream[end + 1..])
  }

  /** What is left of an unfinished line once its beginning no longer fits the buffer. */
  function Kept(line: string): string {
    if |line| <= MAX_BUFFERED then line else line[|line| - MAX_BUFFERED..]
  }

  /** In numbers: lines begin at 't', 'T' or 'V', and an unfinished line is kept to its last 64 characters. */
  lemma KeptIs(c: char, line: string)
    ensures IsStart(c) <==> c in {'t', 'T', 'V'}
    ensures |Kept(line)| == (if |line| <= 64 then |line| else 64) && Kept(line) == line[|line| - |Kept(line)|..]
  {}

  /** A line gives the frame that is parsed from its first line start, if any; a stream gives those of its lines. */
  lemma LineGives(line: string, after: string)
    requires CR !in line
    ensures forall frame :: ParsedLine(Visible(line)) == Some(frame) ==>
      Emitted(line + "\r" + after) == [frame] + Emitted(after)
    ensures ParsedLine(Visible(line)) == None ==> Emitted(line + "\r" + after) == Emitted(after)
    ensures Emitted(line) == []
  {
    hide ParsedLine, FindStart;
    var s := line + "\r" + after;
    assert FindEnd(line) == |line|;
    FindEndIs(s, |line|);
    assert s[..|line|] == line && s[|line| + 1..] == after;
    assert [] + Emitted(after) == Emitted(after);
  }

  /** A start character lies too far back to be kept, and hides a frame in what would be kept. */
  predicate Masks(line: string) {
    |Visible(line)| > MAX_BUFFERED && ParsedLine(Visible(Kept(line))).Some?
  }

  /** No complete line of the stream hides a frame. */
  predicate Unmasked(stream: string)
    decreases |stream|
  {
    var end := FindEnd(stream);
    end == |stream| || (!Masks(stream[..end]) && Unmasked(stream[end + 1..]))
  }

  /** No line runs longer than the decoder is willing to buffer. */
  ghost predicate LinesFit(s: string) {
    forall i, j :: 0 <= i <= j <= |s| && CR !in s[i..j] ==> j - i <= MAX_BUFFERED
  }

  // ---------------------------------------------------------------- the decoder

  datatype Fed = Fed(frames: seq<Frame>, rest: string)

  /** The decoding loop, run on everything buffered. */
  function Drain(buffer: string): (r: Fed)
    ensures |r.rest| <= MAX_BUFFERED
    decreases |buffer|
  {
    var start := FindStart(buffer);
    if start == |buffer| then Fed([], if |buffer| > MAX_BUFFERED then "" else buffer)
    else
      var seen := buffer[start..];
      var end := FindEnd(seen);
      if end == |seen| then
        if |seen| > MAX_BUFFERED then Drain(seen[1..]) else Fed([], seen)
      else
        var later := Drain(seen[end + 1..]);
        Fed(LineFrames(seen[..end]) + later.frames, later.rest)
  }

  class LawicelStreamDecoder {
    var buffer: string

    constructor ()
      ensures buffer == ""
    {
      buffer := "";
    }

    method Feed(bytes: string) returns (frames: seq<Frame>)
      modifies this
      ensures Fed(frames, buffer) == Drain(old(buffer) + bytes)
      ensures |buffer| <= MAX_BUFFERED
    {
      hide Drain, ParsedLine, LineFrames, FindStart, FindEnd, IsStart;
      buffer := buffer + bytes;
      frames := [];
      ghost var whole := Drain(buffer);
      while true
        invariant whole == Fed(frames + Drain(buffer).frames, Drain(buffer).rest)
        decreases |buffer|
      {
        var start := FindStart(buffer);
        DrainNoise(buffer);
        if start == |buffer| {
          if |buffer| > MAX_BUFFERED {
            buffer := "";
          }
          break;
        }
        if start > 0 {
          buffer := buffer[start..];
        }
        DrainLine(buffer);
        var end := FindEnd(buffer);
        if end == |buffer| {
          if |buffer| > MAX_BUFFERED {
            buffer := buffer[1..];
            continue;
          }
          break;
        }
        var line := buffer[..end];
        var rest := buffer[end + 1..];
        Associates(frames, LineFrames(line), Drain(rest).frames);
        buffer := rest;
        WithLine(frames, line);
        if line != "" && line[0] == 'V' {
          continue;
        }
        var frame := ParseLine(line);
        if frame.Some? {
          frames := frames + [frame.value];
        }
      }
    }
  }

  /** Text before the first line start is dropped; text without one is kept only while short. */
  lemma DrainNoise(s: string)
    ensures FindStart(s) == |s| ==> Drain(s) == Fed([], if |s| > MAX_BUFFERED then "" else s)
    ensures FindStart(s) < |s| ==> Drain(s) == Drain(s[FindStart(s)..]) && FindStart(s[FindStart(s)..]) == 0
    ensures FindStart(s) == 0 ==> s[FindStart(s)..] == s
  {
    if FindStart(s) < |s| {
      VisibleStarts(s);
      assert s[FindStart(s)..][0..] == s[FindStart(s)..];
    }
  }

  /** Text that begins at a line start gives up its first line, or waits, or is too long. */
  lemma {:induction false} DrainLine(s: string)
    requires s != "" && FindStart(s) == 0
    ensures var end := FindEnd(s);
      if end < |s| then
        Drain(s) == Fed(LineFrames(s[..end]) + Drain(s[end + 1..]).frames, Drain(s[end + 1..]).rest)
      else if |s| > MAX_BUFFERED then Drain(s) == Drain(s[1..])
      else Drain(s) == Fed([], s)
  {
    assert s[0..] == s;
  }

  lemma WithLine(frames: seq<Frame>, line: string)
    ensures line != "" && line[0] == 'V' ==> frames + LineFrames(line) == frames
    ensures frames + LineFrames(line) ==
            if ParsedLine(line).Some? then frames + [ParsedLine(line).value] else frames
  {}

  lemma VersionLine(line: string)
    requires line != "" && line[0] == 'V'
    ensures LineFrames(line) == []
  {}

  // ---------------------------------------------------------------- searching

  lemma {:induction false} FindStartIs(s: string, at: nat)
    requires at <= |s| && (forall i :: 0 <= i < at ==> !IsStart(s[i])) && (at < |s| ==> IsStart(s[at]))
    ensures FindStart(s) == at
  {}

  lemma FindEndIs(s: string, at: nat)
    requires at <= |s| && (forall i :: 0 <= i < at ==> s[i] != CR) && (at < |s| ==> s[at] == CR)
    ensures FindEnd(s) == at
  {}

  lemma VisibleStarts(s: string)
    ensures Visible(s) != "" <==> FindStart(s) < |s|
    ensures FindStart(Visible(s)) == 0
  {
    FindStartIs(Visible(s), 0);
  }

  // ---------------------------------------------------------------- draining means the same as the stream

  lemma LinesFitSuffix(s: string, from: nat)
    requires LinesFit(s) && from <= |s|
    ensures LinesFit(s[from..])
  {
    forall i, j | 0 <= i <= j <= |s| - from && CR !in s[from..][i..j] ensures j - i <= MAX_BUFFERED {
      assert s[from..][i..j] == s[from + i..from + j];
    }
  }

  /** One noise character changes neither the frames nor what can be seen of the unfinished line. */
  lemma {:induction false} NoiseCharacter(s: string)
    requires s != "" && !IsStart(s[0])
    ensures Emitted(s) == Emitted(s[1..])
    ensures Visible(Kept(Pending(s))) == Visible(Kept(Pending(s[1..])))
  {
    hide LineFrames, Visible, FindEnd, FindStart, Kept;
    var end := FindEnd(s);
    if s[0] == CR {
      FindEndIs(s, 0);
      EmptyLine();
      assert s[..0] == "";
    } else {
      FindEndIs(s[1..], end - 1);
      if end == |s| {
        KeptTail(s);
      } else {
        assert s[..end][1..] == s[1..][..end - 1];
        assert s[1..][end..] == s[end + 1..];
        VisibleTail(s[..end]);
      }
    }
  }

  lemma EmptyLine()
    ensures LineFrames(Visible("")) == []
  {}

  lemma VisibleTail(s: string)
    requires s != "" && !IsStart(s[0])
    ensures Visible(s) == Visible(s[1..])
  {}

  lemma KeptTail(s: string)
    requires s != "" && !IsStart(s[0])
    ensures Visible(Kept(s)) == Visible(Kept(s[1..]))
  {
    hide Visible, IsStart;
    if |s| > MAX_BUFFERED {
      KeptLong(s);
    } else {
      VisibleTail(s);
    }
  }

  /** Of a line that is too long, the first character is not among those kept. */
  lemma KeptLong(s: string)
    requires |s| > MAX_BUFFERED
    ensures Kept(s) == Kept(s[1..])
  {}

  lemma {:induction false} NoiseIsSilent(s: string, n: nat)
    requires n <= |s| && forall i :: 0 <= i < n ==> !IsStart(s[i])
    ensures Emitted(s) == Emitted(s[n..]) && Visible(Kept(Pending(s))) == Visible(Kept(Pending(s[n..])))
    decreases n
  {
    if n == 0 {
      assert s[0..] == s;
    } else {
      NoiseCharacter(s);
      NoiseIsSilent(s[1..], n - 1);
      assert s[1..][n - 1..] == s[n..];
    }
  }

  lemma NothingVisible(s: string)
    requires FindStart(s) == |s|
    ensures Emitted(s) == [] && Visible(Kept(Pending(s))) == "" && Visible(s) == ""
  {
    NoiseIsSilent(s, |s|);
    assert s[|s|..] == "";
  }

  /** A text that begins at a line start, one line on. */
  lemma SeenStep(seen: string)
    requires seen != "" && FindStart(seen) == 0
    ensures var end := FindEnd(seen);
      if end == |seen| then Emitted(seen) == [] && Pending(seen) == seen
      else
        && Emitted(seen) == LineFrames(seen[..end]) + Emitted(seen[end + 1..])
        && Pending(seen) == Pending(seen[end + 1..])
  {
    hide LineFrames;
    var end := FindEnd(seen);
    if 0 < end < |seen| {
      FindStartIs(seen[..end], 0);
    }
  }

  /** Draining yields the frames of the complete lines, and keeps what can be seen of the rest. */
  lemma {:induction false} DrainMeans(s: string)
    ensures Drain(s).frames == Emitted(s)
    ensures Visible(Drain(s).rest) == Visible(Kept(Pending(s)))
    decreases |s|, 1
  {
    hide Drain, LineFrames, Kept, Emitted, Pending, Visible, FindStart;
    var start := FindStart(s);
    DrainNoise(s);
    if start == |s| {
      NothingVisible(s);
      NoStartRests(s);
    } else {
      NoiseIsSilent(s, start);
      DrainSeen(s[start..]);
    }
  }

  /** What is kept of a text without a line start shows nothing. */
  lemma NoStartRests(s: string)
    requires FindStart(s) == |s|
    ensures Visible(s) == "" && Visible("") == ""
  {}

  lemma {:induction false} DrainSeen(seen: string)
    requires seen != "" && FindStart(seen) == 0
    ensures Drain(seen).frames == Emitted(seen)
    ensures Visible(Drain(seen).rest) == Visible(Kept(Pending(seen)))
    decreases |seen|, 0
  {
    hide Drain, LineFrames, Kept, Emitted, Pending, Visible, FindStart;
    DrainLine(seen);
    SeenStep(seen);
    var end := FindEnd(seen);
    if end < |seen| {
      DrainMeans(seen[end + 1..]);
    } else if |seen| > MAX_BUFFERED {
      DrainMeans(seen[1..]);
      KeptLong(seen);
      FindEndIs(seen[1..], |seen| - 1);
      PendingWhole(seen[1..]);
    } else {
      KeptShort(seen);
    }
  }

  lemma PendingWhole(s: string)
    requires FindEnd(s) == |s|
    ensures Pending(s) == s && Emitted(s) == []
  {}

  lemma KeptShort(s: string)
    requires |s| <= MAX_BUFFERED
    ensures Kept(s) == s
  {}

  /** Only the visible part of what is kept can matter later. */
  lemma {:induction false} OnlyVisibleMatters(kept: string, other: string, more: string)
    requires Visible(kept) == Visible(other)
    ensures Drain(kept + more).frames == Drain(other + more).frames
    ensures Visible(Drain(kept + more).rest) == Visible(Drain(other + more).rest)
  {
    VisibleAppend(kept, more);
    VisibleAppend(other, more);
    DrainVisible(kept + more);
    DrainVisible(other + more);
  }

  lemma VisibleAppend(s: string, more: string)
    ensures Visible(s + more) == if Visible(s) == "" then Visible(more) else Visible(s) + more
  {
    var at := FindStart(s);
    if at < |s| {
      FindStartIs(s + more, at);
    } else {
      FindStartIs(s + more, |s| + FindStart(more));
    }
  }

  lemma DrainVisible(s: string)
    ensures if Visible(s) == "" then Drain(s).frames == [] && Visible(Drain(s).rest) == ""
            else Drain(s) == Drain(Visible(s))
  {
    DrainNoise(s);
  }

  // ---------------------------------------------------------------- whole runs

  /** Everything a decoder returns over a run of Feed calls, and what it still holds. */
  function FeedAll(buffer: string, chunks: seq<string>): Fed
    decreases chunks
  {
    if chunks == [] then Fed([], buffer)
    else
      var one := Drain(buffer + chunks[0]);
      var later := FeedAll(one.rest, chunks[1..]);
      Fed(one.frames + later.frames, later.rest)
  }

  lemma {:induction false} EmittedInTwo(s: string, more: string)
    ensures Emitted(s + more) == Emitted(s) + Emitted(Pending(s) + more)
    ensures Pending(s + more) == Pending(Pending(s) + more)
    decreases |s|
  {
    hide LineFrames, Visible, FindEnd;
    var end := FindEnd(s);
    if end < |s| {
      FindEndIs(s + more, end);
      assert (s + more)[..end] == s[..end] && (s + more)[end + 1..] == s[end + 1..] + more;
      EmittedInTwo(s[end + 1..], more);
    }
  }

  // ---------------------------------------------------------------- which streams do not depend on chunking

  /** A parsed line has at most 26 characters: tag, identifier, length digit and eight bytes. */
  lemma LongLineIsSilent(line: string)
    requires |line| > MAX_BUFFERED
    ensures LineFrames(line) == []
  {}

  lemma NoiseDropped(line: string, from: nat)
    requires from <= |line| && |Visible(line)| <= |line| - from
    ensures Visible(line[from..]) == Visible(line)
  {
    hide IsStart;
    FindStartIs(line[from..], FindStart(line) - from);
  }

  lemma KeptOfRest(line: string, from: nat)
    requires |line| > MAX_BUFFERED && from <= |line| - MAX_BUFFERED
    ensures line[from..][|line| - from - MAX_BUFFERED..] == Kept(line)
  {}

  /** Unless a line masks a frame, it reads the same however much of its beginning was dropped. */
  lemma BeginningDropped(line: string, from: nat)
    requires !Masks(line) && from <= |line| && (from > 0 ==> from <= |line| - MAX_BUFFERED)
    ensures LineFrames(Visible(line[from..])) == LineFrames(Visible(line))
  {
    hide LineFrames, ParsedLine, Visible, Kept;
    var rest := line[from..];
    VisibleIsPart(line);
    if |Visible(line)| <= MAX_BUFFERED {
      NoiseDropped(line, from);
    } else {
      LongLineIsSilent(Visible(line));
      if |Visible(rest)| > MAX_BUFFERED {
        LongLineIsSilent(Visible(rest));
      } else {
        KeptOfRest(line, from);
        NoiseDropped(rest, |rest| - MAX_BUFFERED);
        NoFrame(Visible(rest));
      }
    }
  }

  lemma VisibleIsPart(s: string)
    ensures |Visible(s)| <= |s|
  {}

  lemma NoFrame(line: string)
    requires ParsedLine(line).None?
    ensures LineFrames(line) == []
  {}

  lemma KeptTwice(s: string, more: string)
    ensures Kept(Kept(s) + more) == Kept(s + more)
  {}

  /** Having kept only the end of the unfinished line makes no difference to the text that follows. */
  lemma KeptIsEnough(pending: string, more: string)
    requires CR !in pending && Unmasked(pending + more)
    ensures Emitted(Kept(pending) + more) == Emitted(pending + more)
    ensures Visible(Kept(Pending(Kept(pending) + more))) == Visible(Kept(Pending(pending + more)))
  {
    hide Kept, Emitted, Pending, Visible, Unmasked, FindEnd;
    var end := FindEnd(more);
    KeptHasNoEnd(pending);
    if end == |more| {
      NoEndMeans(pending + more);
      NoEndMeans(Kept(pending) + more);
      KeptTwice(pending, more);
    } else {
      var part, after := more[..end], more[end + 1..];
      assert more == part + [CR] + after;
      LineJoins(pending, part, after);
      LineJoins(Kept(pending), part, after);
      LineBefore(pending + part, after);
      LineBefore(Kept(pending) + part, after);
      KeptPart(pending, part);
    }
  }

  lemma LineJoins(pending: string, part: string, after: string)
    ensures pending + (part + [CR] + after) == (pending + part) + [CR] + after
  {}

  lemma KeptPart(pending: string, part: string)
    requires !Masks(pending + part)
    ensures LineFrames(Visible(Kept(pending) + part)) == LineFrames(Visible(pending + part))
  {
    hide LineFrames, Visible, Masks;
    var from := |pending| - |Kept(pending)|;
    assert (pending + part)[from..] == Kept(pending) + part;
    BeginningDropped(pending + part, from);
  }

  lemma {:induction false} UnmaskedInTwo(s: string, more: string)
    requires Unmasked(s + more)
    ensures Unmasked(s) && Unmasked(Pending(s) + more)
    decreases |s|
  {
    hide Masks, FindEnd;
    var end := FindEnd(s);
    if end < |s| {
      FindEndIs(s + more, end);
      assert (s + more)[..end] == s[..end] && (s + more)[end + 1..] == s[end + 1..] + more;
      UnmaskedInTwo(s[end + 1..], more);
    }
  }

  lemma {:induction false} PendingHasNoEnd(s: string)
    ensures CR !in Pending(s)
    decreases |s|
  {
    var end := FindEnd(s);
    if end < |s| {
      PendingHasNoEnd(s[end + 1..]);
    }
  }

  lemma {:induction false} RunMeans(pending: string, buffer: string, chunks: seq<string>)
    requires CR !in pending && Visible(buffer) == Visible(Kept(pending))
    requires Unmasked(pending + Flatten(chunks))
    ensures chunks != [] ==> FeedAll(buffer, chunks).frames == Emitted(pending + Flatten(chunks))
    decreases chunks
  {
    hide Emitted, Pending, Visible, Drain, Unmasked, Kept;
    if chunks != [] {
      var chunk, tail := chunks[0], Flatten(chunks[1..]);
      var s := pending + chunk;
      Associates(pending, chunk, tail);
      UnmaskedInTwo(s, tail);
      OnlyVisibleMatters(buffer, Kept(pending), chunk);
      DrainMeans(Kept(pending) + chunk);
      KeptIsEnough(pending, chunk);
      EmittedInTwo(s, tail);
      PendingHasNoEnd(s);
      RunMeans(Pending(s), Drain(buffer + chunk).rest, chunks[1..]);
      if chunks[1..] == [] {
        PendingIsQuiet(s);
        assert Pending(s) + tail == Pending(s);
      }
    }
  }

  lemma {:induction false} PendingIsQuiet(s: string)
    ensures Emitted(Pending(s)) == []
    decreases |s|
  {
    var end := FindEnd(s);
    if end < |s| {
      PendingIsQuiet(s[end + 1..]);
    }
  }

  /**
   * For a stream in which no line hides a frame behind a start character too
   * far back, the frames are those of its complete lines in every chunking.
   */
  lemma DecodesCompleteLines(chunks: seq<string>)
    requires Unmasked(Flatten(chunks))
    ensures FeedAll("", chunks).frames == Emitted(Flatten(chunks))
  {
    hide Unmasked, Emitted, Kept;
    assert "" + Flatten(chunks) == Flatten(chunks);
    KeptShort("");
    RunMeans("", "", chunks);
    EmptyStream();
  }

  lemma EmptyStream()
    ensures Emitted("") == []
  {}

  /** A masking line comes out differently when its carriage return arrives on its own. */
  lemma {:induction false} MaskedLineShows(line: string, after: string)
    requires CR !in line && Masks(line)
    ensures FeedAll("", [line, [CR] + after]).frames != Emitted(line + [CR] + after)
  {
    hide Drain, ParsedLine, FindStart, Emitted, Pending, Kept, FeedAll;
    var rest, more, kept := Drain(line).rest, [CR] + after, Kept(line);
    NoEndMeans(line);
    KeptHasNoEnd(line);
    DrainMeans(line);
    OnlyVisibleMatters(rest, kept, more);
    DrainMeans(kept + more);
    LineBefore(line, after);
    LineBefore(kept, after);
    Associates(kept, [CR], after);
    LongLineIsSilent(Visible(line));
    InTwoCalls(line, more);
    assert |Drain(rest + more).frames| == 1 + |Emitted(after)|;
    assert |Emitted(line + [CR] + after)| == |Emitted(after)|;
  }

  lemma InTwoCalls(first: string, second: string)
    ensures FeedAll("", [first, second]).frames == Drain(first).frames + Drain(Drain(first).rest + second).frames
  {
    hide Drain;
    var rest := Drain(first).rest;
    assert "" + first == first && [first, second][1..] == [second] && [second][1..] == [];
    assert FeedAll(rest, [second]).frames == Drain(rest + second).frames + [];
  }

  lemma {:induction false} RunVisible(kept: string, other: string, chunks: seq<string>)
    requires Visible(kept) == Visible(other)
    ensures FeedAll(kept, chunks).frames == FeedAll(other, chunks).frames
    decreases chunks
  {
    hide Drain, Visible;
    if chunks != [] {
      OnlyVisibleMatters(kept, other, chunks[0]);
      RunVisible(Drain(kept + chunks[0]).rest, Drain(other + chunks[0]).rest, chunks[1..]);
    }
  }

  /** A complete line fed on its own leaves nothing behind that matters. */
  lemma LineFirst(line: string, chunks: seq<string>)
    requires CR !in line
    ensures FeedAll("", [line + [CR]] + chunks).frames == LineFrames(Visible(line)) + FeedAll("", chunks).frames
  {
    hide Drain, Visible, LineFrames, Emitted, Kept, Pending;
    var first := line + [CR];
    var rest := Drain(first).rest;
    assert "" + first == first && ([first] + chunks)[1..] == chunks;
    DrainMeans(first);
    LineBefore(line, "");
    assert line + [CR] + "" == first;
    NothingPending(line);
    assert LineFrames(Visible(line)) + [] == LineFrames(Visible(line));
    RunVisible(rest, "", chunks);
  }

  lemma NothingPending(line: string)
    requires CR !in line
    ensures Visible(Kept(Pending(line + [CR]))) == Visible("") && Emitted("") == []
  {
    var first := line + [CR];
    FindEndIs(first, |line|);
    assert first[|line| + 1..] == "";
  }

  lemma FlattenTwo(first: string, second: string)
    ensures Flatten([first, second]) == first + second
  {
    assert [first, second][1..] == [second] && [second][1..] == [];
    assert Flatten([second]) == second + [] == second;
  }

  lemma SameBehind(front: seq<Frame>, x: seq<Frame>, y: seq<Frame>)
    ensures front + x == front + y <==> x == y
  {
    assert (front + x)[|front|..] == x && (front + y)[|front|..] == y;
  }

  /** Cutting a stream with a masking line so that the line shows. */
  lemma {:induction false} MaskedStreamShows(stream: string) returns (chunks: seq<string>)
    requires !Unmasked(stream)
    ensures Flatten(chunks) == stream && FeedAll("", chunks).frames != Emitted(stream)
    decreases |stream|
  {
    hide Masks, FeedAll, Emitted;
    var end := FindEnd(stream);
    var line, after := stream[..end], stream[end + 1..];
    assert stream == line + [CR] + after;
    LineBefore(line, after);
    if Masks(line) {
      chunks := [line, [CR] + after];
      FlattenTwo(line, [CR] + after);
      Associates(line, [CR], after);
      MaskedLineShows(line, after);
    } else {
      var later := MaskedStreamShows(after);
      chunks := [line + [CR]] + later;
      assert chunks[1..] == later;
      LineFirst(line, later);
      SameBehind(LineFrames(Visible(line)), FeedAll("", later).frames, Emitted(after));
    }
  }

  /**
   * The frames do not depend on how a stream is cut into Feed calls exactly
   * when no line of it hides a frame behind a start character too far back.
   */
  lemma ChunkingIsIrrelevantIff(stream: string)
    ensures (forall chunks :: Flatten(chunks) == stream ==> FeedAll("", chunks).frames == Emitted(stream))
        <==> Unmasked(stream)
  {
    hide FeedAll, Emitted, Unmasked;
    if Unmasked(stream) {
      forall chunks | Flatten(chunks) == stream ensures FeedAll("", chunks).frames == Emitted(stream) {
        DecodesCompleteLines(chunks);
      }
    } else {
      var chunks := MaskedStreamShows(stream);
    }
  }

  /** Lines that fit the buffer hide nothing. */
  lemma {:induction false} FittingIsUnmasked(s: string)
    requires LinesFit(s)
    ensures Unmasked(s)
    decreases |s|
  {
    hide ParsedLine, Kept, FindStart;
    var end := FindEnd(s);
    if end < |s| {
      LinesFitSuffix(s, end + 1);
      FittingIsUnmasked(s[end + 1..]);
      assert s[0..end] == s[..end];
    }
  }

  lemma NoEndMeans(line: string)
    requires CR !in line
    ensures Emitted(line) == [] && Pending(line) == line
  {
    FindEndIs(line, |line|);
  }

  lemma KeptHasNoEnd(line: string)
    requires CR !in line
    ensures CR !in Kept(line)
  {}

  lemma LineBefore(line: string, after: string)
    requires CR !in line
    ensures var s := line + [CR] + after;
      && Emitted(s) == LineFrames(Visible(line)) + Emitted(after)
      && Pending(s) == Pending(after)
      && (Unmasked(s) <==> !Masks(line) && Unmasked(after))
  {
    hide LineFrames, Visible, Masks;
    var s := line + [CR] + after;
    FindEndIs(s, |line|);
    assert s[..|line|] == line && s[|line| + 1..] == after;
  }

  /**
   * The bound matters: a version line longer than the buffer hides the frame
   * text inside it when it arrives whole, and reveals it when it arrives in two.
   */
  lemma {:induction false} LongLinesDependOnChunking(noise: string)
    requires |noise| == 60 && forall c :: c in noise ==> !IsStart(c) && c != CR
    ensures var line := "V" + noise + "t1230";
      && FeedAll("", [line + [CR]]).frames == []
      && FeedAll("", [line, [CR]]).frames == [Frame(0x123, [])]
  {
    hide Drain;
    var line := "V" + noise + "t1230";
    var whole := line + [CR];
    NoReturnIn(noise);
    WholeVersionLine(line);
    DrainTruncated(noise);
    ShortLine();
    assert "" + whole == whole && "" + line == line;
    assert [whole][1..] == [] && [line, [CR]][1..] == [[CR]] && [[CR]][1..] == [];
    assert FeedAll("", [whole]) == Fed(Drain(whole).frames + [], Drain(whole).rest);
    assert FeedAll("t1230", [[CR]]).frames == Drain("t1230" + [CR]).frames + [];
  }

  lemma NoReturnIn(noise: string)
    requires forall c :: c in noise ==> !IsStart(c) && c != CR
    ensures CR !in "V" + noise + "t1230"
  {
    assert CR !in "V" && CR !in "t1230";
  }

  lemma WholeVersionLine(line: string)
    requires line != "" && line[0] == 'V' && CR !in line
    ensures Drain(line + [CR]).frames == []
  {
    var whole := line + [CR];
    FindEndIs(whole, |line|);
    DrainLine(whole);
    assert whole[..|line|] == line && whole[|line| + 1..] == "";
    VersionLine(line);
  }

  lemma {:induction false} DrainTruncated(noise: string)
    requires |noise| == 60 && forall c :: c in noise ==> !IsStart(c) && c != CR
    ensures Drain("V" + noise + "t1230") == Fed([], "t1230")
  {
    hide Drain, FindStart, FindEnd;
    var line := "V" + noise + "t1230";
    var tail := noise + "t1230";
    NoReturnIn(noise);
    FindEndIs(line, |line|);
    FindStartIs(line, 0);
    DrainLine(line);
    assert line[1..] == tail;
    forall i | 0 <= i < 60 ensures !IsStart(tail[i]) {
      assert tail[i] == noise[i] && noise[i] in noise;
    }
    FindStartIs(tail, 60);
    DrainNoise(tail);
    assert tail[60..] == "t1230";
    FindEndIs("t1230", 5);
    DrainLine("t1230");
  }

  lemma {:induction false} ShortLine()
    ensures Drain("t1230" + [CR]).frames == [Frame(0x123, [])]
  {
    hide Drain, FindStart, FindEnd, ParsedLine, LineText;
    var whole := "t1230" + [CR];
    FindEndIs(whole, 5);
    FindStartIs(whole, 0);
    FindStartIs("", 0);
    DrainLine(whole);
    DrainNoise("");
    assert whole[..5] == "t1230" && whole[6..] == "";
    var f := Frame(0x123, []);
    ShortText();
    assert Upper("1230") == "1230" && "t1230"[1..] == "1230" && "t1230" == ['t'] + "1230";
    ParsesExactlyTheText("t1230", f);
  }

  lemma ShortText()
    ensures LineText('t', Frame(0x123, [])) == "t1230"
  {
    HexDigits123();
    assert DataHex([]) == "";
  }

  lemma HexDigits123()
    ensures FixedHex(0x123, 3) == "123"
  {
    HexDigitReads('1', 1);
    HexDigitReads('2', 2);
    HexDigitReads('3', 3);
    hide HexDigit;
    assert FixedHex(1, 1) == FixedHex(0, 0) + ['1'];
    assert FixedHex(0x12, 2) == FixedHex(1, 1) + ['2'];
    assert FixedHex(0x123, 3) == FixedHex(0x12, 2) + ['3'];
  }

  // ---------------------------------------------------------------- what the encoder writes

  /** The texts of a list of frames, one after the other. */
  function TextAll(frames: seq<Frame>): string
    requires forall i :: 0 <= i < |frames| ==> Encodable(frames[i])
  {
    if frames == [] then ""
    else
      assert Encodable(frames[0]);
      Text(frames[0]) + TextAll(frames[1..])
  }

  lemma {:induction false} NoCarriageReturn(frame: Frame)
    requires Encodable(frame)
    ensures CR !in LineText(TagFor(frame), frame)
  {
    HexHasNoReturn(frame.id, IdWidth(TagFor(frame)));
    DataHasNoReturn(frame.data);
    HexDigitReads('0', |frame.data|);
  }

  lemma {:induction false} HexHasNoReturn(n: nat, width: nat)
    ensures CR !in FixedHex(n, width)
    ensures forall c :: c in FixedHex(n, width) ==> ToUpper(c) == c
    decreases width
  {
    if width > 0 {
      HexHasNoReturn(n / 16, width - 1);
      HexDigitReads('0', n % 16);
    }
  }

  lemma {:induction false} DataHasNoReturn(data: seq<byte>)
    ensures CR !in DataHex(data)
    ensures forall c :: c in DataHex(data) ==> ToUpper(c) == c
  {
    if data != [] {
      DataHasNoReturn(data[1..]);
      HexDigitReads('0', data[0] / 16);
      HexDigitReads('0', data[0] % 16);
    }
  }

  /** The parser reads back what the encoder wrote. */
  lemma {:induction false} LineDecodes(frame: Frame)
    requires Encodable(frame)
    ensures ParsedLine(LineText(TagFor(frame), frame)) == Some(frame)
  {
    var tag := TagFor(frame);
    var line := LineText(tag, frame);
    HexHasNoReturn(frame.id, IdWidth(tag));
    DataHasNoReturn(frame.data);
    HexDigitReads('0', |frame.data|);
    assert forall c :: c in line[1..] ==> ToUpper(c) == c;
    assert Upper(line[1..]) == line[1..];
    assert line == [tag] + line[1..];
    ParsesExactlyTheText(line, frame);
  }

  lemma {:induction false} TextBeforeStream(frame: Frame, after: string)
    requires Encodable(frame)
    ensures Emitted(Text(frame) + after) == [frame] + Emitted(after)
    ensures LinesFit(after) ==> LinesFit(Text(frame) + after)
  {
    hide LineText, ParsedLine, Emitted, FindEnd, FindStart;
    var line := LineText(TagFor(frame), frame);
    var s := Text(frame) + after;
    NoCarriageReturn(frame);
    LineDecodes(frame);
    FindEndIs(s, |line|);
    assert s[..|line|] == line && s[|line| + 1..] == after;
    EmittedFirst(s);
    TagIsFirst(frame);
    assert Visible(line) == line by {
      FindStartIs(line, 0);
    }
    if LinesFit(after) {
      LinesFitAfter(line, after);
      assert line + [CR] + after == s;
    }
  }

  lemma TagIsFirst(frame: Frame)
    requires Encodable(frame)
    ensures var line := LineText(TagFor(frame), frame); IsStart(line[0]) && |line| <= 26
  {}

  lemma EmittedFirst(s: string)
    requires FindEnd(s) < |s|
    ensures Emitted(s) == LineFrames(Visible(s[..FindEnd(s)])) + Emitted(s[FindEnd(s) + 1..])
  {}

  lemma LinesFitAfter(line: string, after: string)
    requires LinesFit(after) && |line| <= MAX_BUFFERED
    ensures LinesFit(line + [CR] + after)
  {
    var s := line + [CR] + after;
    forall i, j | 0 <= i <= |line| < j <= |s| ensures CR in s[i..j] {
      assert s[i..j][|line| - i] == CR;
    }
    forall i, j | 0 <= i <= j <= |s| && CR !in s[i..j] ensures j - i <= MAX_BUFFERED {
      if i > |line| {
        assert s[i..j] == after[i - |line| - 1..j - |line| - 1];
      }
    }
  }

  lemma {:induction false} TextAllEmits(frames: seq<Frame>)
    requires forall i :: 0 <= i < |frames| ==> Encodable(frames[i])
    ensures Emitted(TextAll(frames)) == frames && LinesFit(TextAll(frames))
  {
    if frames != [] {
      TextAllEmits(frames[1..]);
      TextBeforeStream(frames[0], TextAll(frames[1..]));
    }
  }

  /** Encoded frames, joined and cut up in any way, decode to exactly those frames. */
  lemma {:induction false} EncodedFramesDecode(frames: seq<Frame>, chunks: seq<string>)
    requires forall i :: 0 <= i < |frames| ==> Encodable(frames[i])
    requires Flatten(chunks) == TextAll(frames)
    ensures FeedAll("", chunks).frames == frames
  {
    hide Encodable, Text, Emitted, FeedAll, LinesFit, Unmasked, TextAll;
    TextAllEmits(frames);
    FittingIsUnmasked(TextAll(frames));
    DecodesCompleteLines(chunks);
  }
}
