/** The Lawicel ASCII framing: the encoder, the line parser and the stream decoder. */
module LawicelCodec {
  import opened Bytes
  import opened CanFrames

  const MAX_BUFFERED: nat := 64
  const CR: char := '\r'
  const MAX_STANDARD_ID: u32 := 0x7FF

  // ---------------------------------------------------------------- hexadecimal digits

  const DIGITS: string := "0123456789ABCDEF"

  function HexDigit(n: nat): char
    requires n < 16
  {
    DIGITS[n]
  }

  function HexValue(c: char): (value: int)
    ensures -1 <= value < 16
  {
    if '0' <= c <= '9' then c as int - '0' as int
    else if 'a' <= c <= 'f' then c as int - 'a' as int + 10
    else if 'A' <= c <= 'F' then c as int - 'A' as int + 10
    else -1
  }

  function ToUpper(c: char): char {
    if 'a' <= c <= 'z' then (c as int - 'a' as int + 'A' as int) as char else c
  }

  function Upper(text: string): (r: string)
    ensures |r| == |text|
  {
    seq(|text|, i requires 0 <= i < |text| => ToUpper(text[i]))
  }

  /** A character reads as n exactly when it is n's digit in either case. */
  lemma HexDigitReads(c: char, n: nat)
    requires n < 16
    ensures HexValue(c) == n <==> ToUpper(c) == HexDigit(n)
    ensures HexValue(HexDigit(n)) == n && ToUpper(HexDigit(n)) == HexDigit(n) && HexDigit(n) != CR
  {
    assert n == 0 || n == 1 || n == 2 || n == 3 || n == 4 || n == 5 || n == 6 || n == 7
        || n == 8 || n == 9 || n == 10 || n == 11 || n == 12 || n == 13 || n == 14 || n == 15;
  }

  /** n in exactly `width` hexadecimal digits, the high ones dropped. */
  function FixedHex(n: nat, width: nat): (text: string)
    ensures |text| == width
    decreases width
  {
    if width == 0 then "" else FixedHex(n / 16, width - 1) + [HexDigit(n % 16)]
  }

  function Pow16(n: nat): (p: nat)
    ensures p >= 1
  {
    if n == 0 then 1 else 16 * Pow16(n - 1)
  }

  /** The value ParseHex accumulates: 32-bit, so high digits beyond the eighth are shifted out. */
  function HexNumber(text: string): (r: Option<u32>)
    decreases |text|
  {
    if text == "" then Some(0)
    else
      var last := |text| - 1;
      var high, digit := HexNumber(text[..last]), HexValue(text[last]);
      if high.None? || digit < 0 then None else Some((16 * high.value + digit) % 0x1_0000_0000)
  }

  method ParseHex(text: string) returns (value: Option<u32>)
    ensures value == if text == "" then None else HexNumber(text)
  {
    if text == "" {
      return None;
    }
    var number: u32 := 0;
    for i := 0 to |text|
      invariant HexNumber(text[..i]) == Some(number)
    {
      assert text[..i + 1][..i] == text[..i];
      var digit := HexValue(text[i]);
      if digit < 0 {
        HexNumberFails(text, i + 1);
        return None;
      }
      number := (16 * number + digit) % 0x1_0000_0000;
    }
    assert text[..|text|] == text;
    return Some(number);
  }

  lemma {:induction false} HexNumberFails(text: string, n: nat)
    requires n <= |text| && HexNumber(text[..n]).None?
    ensures HexNumber(text).None?
    decreases |text| - n
  {
    if n < |text| {
      assert text[..n + 1][..n] == text[..n];
      HexNumberFails(text, n + 1);
    } else {
      assert text[..n] == text;
    }
  }

  /** Eight digits fill the 32 bits without losing any. */
  lemma {:induction false} HexNumberBounded(text: string)
    requires |text| <= 8
    ensures HexNumber(text).Some? ==> HexNumber(text).value < Pow16(|text|)
    decreases |text|
  {
    if text != "" {
      HexNumberBounded(text[..|text| - 1]);
      Pow16Fits(|text|);
    }
  }

  lemma {:induction false} HexNumberLast(text: string, n: nat)
    requires 0 < |text| <= 8
    ensures HexNumber(text) == Some(n) <==>
            HexNumber(text[..|text| - 1]) == Some(n / 16) && HexValue(text[|text| - 1]) == n % 16
  {
    hide HexValue;
    var high := HexNumber(text[..|text| - 1]);
    HexNumberBounded(text[..|text| - 1]);
    Pow16Fits(|text|);
    if high.Some? {
      assert 16 * high.value + 15 < 0x1_0000_0000;
    }
  }

  /** Up to eight digits read as n exactly when, in upper case, they are n's fixed-width digits. */
  lemma {:induction false} HexNumberReads(text: string, n: nat)
    requires |text| <= 8 && n < Pow16(|text|)
    ensures HexNumber(text) == Some(n) <==> Upper(text) == FixedHex(n, |text|)
    decreases |text|
  {
    if text != "" {
      var last := |text| - 1;
      HexNumberReads(text[..last], n / 16);
      HexNumberLast(text, n);
      HexDigitReads(text[last], n % 16);
      assert Upper(text) == Upper(text[..last]) + [ToUpper(text[last])];
      assert Upper(text)[..last] == Upper(text[..last]) && FixedHex(n, |text|)[..last] == FixedHex(n / 16, last);
    }
  }

  lemma {:induction false} Pow16Fits(n: nat)
    requires n <= 8
    ensures Pow16(n) <= 0x1_0000_0000
    ensures Pow16(3) == 0x1000 && Pow16(8) == 0x1_0000_0000
  {
    assert Pow16(4) == 0x1_0000;
    if n < 8 {
      assert n == 0 || n == 1 || n == 2 || n == 3 || n == 4 || n == 5 || n == 6 || n == 7;
    }
  }

  // ---------------------------------------------------------------- one line

  function DataHex(data: seq<byte>): (text: string)
    ensures |text| == 2 * |data|
  {
    if data == [] then ""
    else [HexDigit(data[0] / 16), HexDigit(data[0] % 16)] + DataHex(data[1..])
  }

  /** The line for a frame under a given tag, without its carriage return. */
  function LineText(tag: char, frame: Frame): (text: string)
    requires |frame.data| <= MAX_DATA
    ensures |text| == IdWidth(tag) + 2 + 2 * |frame.data|
  {
    [tag] + FixedHex(frame.id, IdWidth(tag)) + [HexDigit(|frame.data|)] + DataHex(frame.data)
  }

  function IdWidth(tag: char): nat { if tag == 't' then 3 else 8 }

  function TagFor(frame: Frame): char { if frame.id > MAX_STANDARD_ID then 'T' else 't' }

  /** What the encoder writes. */
  function Text(frame: Frame): (text: string)
    requires |frame.data| <= MAX_DATA
  {
    LineText(TagFor(frame), frame) + [CR]
  }

  /** An identifier of at most eleven bits goes out as a standard frame, every other one as an extended frame. */
  lemma TagIs(frame: Frame)
    requires |frame.data| <= 8
    ensures Text(frame)[0] == 't' <==> frame.id < 0x800
    ensures Text(frame)[0] == 'T' <==> frame.id >= 0x800
    ensures |Text(frame)| == (if frame.id < 0x800 then 6 else 11) + 2 * |frame.data|
  {}

  /** The shortest hexadecimal text of a number, in lower case: what std::to_chars produces. */
  function LowerHex(n: nat): (text: string)
    ensures |text| >= 1
  {
    var digit := "0123456789abcdef"[n % 16];
    if n < 16 then [digit] else LowerHex(n / 16) + [digit]
  }

  function Zeros(n: nat): (text: string)
    ensures |text| == n
  {
    seq(n, _ => '0')
  }

  lemma {:induction false} PaddedHex(n: nat, width: nat)
    requires width >= 1 && n < Pow16(width)
    ensures |LowerHex(n)| <= width
    ensures Zeros(width - |LowerHex(n)|) + Upper(LowerHex(n)) == FixedHex(n, width)
    decreases width
  {
    hide HexDigit, ToUpper;
    var digit := "0123456789abcdef"[n % 16];
    LowerDigit(n % 16);
    if n < 16 {
      ZeroHex(width - 1);
      assert FixedHex(n, width) == FixedHex(0, width - 1) + [HexDigit(n)];
      assert Upper(LowerHex(n)) == [HexDigit(n)];
    } else {
      assert width > 1;
      PaddedHex(n / 16, width - 1);
      var zeros, high := Zeros(width - |LowerHex(n)|), LowerHex(n / 16);
      assert Upper(high + [digit]) == Upper(high) + [ToUpper(digit)];
      assert zeros + (Upper(high) + [ToUpper(digit)]) == (zeros + Upper(high)) + [ToUpper(digit)];
    }
  }

  lemma LowerDigit(n: nat)
    requires n < 16
    ensures ToUpper("0123456789abcdef"[n]) == HexDigit(n)
  {
    assert n == 0 || n == 1 || n == 2 || n == 3 || n == 4 || n == 5 || n == 6 || n == 7
        || n == 8 || n == 9 || n == 10 || n == 11 || n == 12 || n == 13 || n == 14 || n == 15;
  }

  lemma {:induction false} ZeroHex(width: nat)
    ensures FixedHex(0, width) == Zeros(width)
    decreases width
  {
    if width > 0 {
      ZeroHex(width - 1);
    }
  }

  /** The identifier in upper case, padded with zeros to the width of its frame kind. */
  method PaddedId(id: u32, width: nat) returns (text: string)
    requires width >= 1 && id < Pow16(width)
    ensures text == FixedHex(id, width)
  {
    var shortest := LowerHex(id);
    PaddedHex(id, width);
    text := Zeros(width - |shortest|);
    for i := 0 to |shortest|
      invariant text == Zeros(width - |shortest|) + Upper(shortest)[..i]
    {
      text := text + [ToUpper(shortest[i])];
    }
    assert Upper(shortest)[..|shortest|] == Upper(shortest);
  }

  method AppendData(text: string, data: seq<byte>) returns (result: string)
    ensures result == text + DataHex(data)
  {
    result := text;
    for i := 0 to |data|
      invariant result + DataHex(data[i..]) == text + DataHex(data)
    {
      var b := data[i];
      assert data[i..][1..] == data[i + 1..];
      result := result + [DIGITS[b / 16]] + [DIGITS[b % 16]];
    }
  }

  method EncodeLawicel(frame: Frame) returns (encoded: Option<string>)
    ensures encoded.Some? <==> |frame.data| <= 8 && frame.id < 0x2000_0000
    ensures encoded == if Encodable(frame) then Some(Text(frame)) else None
  {
    if |frame.data| > MAX_DATA || frame.id > MAX_ID {
      return None;
    }
    var extended := frame.id > MAX_STANDARD_ID;
    Pow16Fits(8);
    var id := PaddedId(frame.id, if extended then 8 else 3);
    LengthDigit(|frame.data|);
    var header := [if extended then 'T' else 't'] + id + [('0' as int + |frame.data|) as char];
    var result := AppendData(header, frame.data);
    return Some(result + [CR]);
  }

  lemma LengthDigit(n: nat)
    requires n <= 9
    ensures ('0' as int + n) as char == HexDigit(n)
  {
    assert n == 0 || n == 1 || n == 2 || n == 3 || n == 4 || n == 5 || n == 6 || n == 7 || n == 8 || n == 9;
  }

  /** The bytes of a run of digit pairs, unless some character is not a digit. */
  function HexBytes(text: string): (r: Option<seq<byte>>)
    requires |text| % 2 == 0
    ensures r.Some? ==> 2 * |r.value| == |text|
  {
    if text == "" then Some([])
    else
      var high, low, tail := HexValue(text[0]), HexValue(text[1]), HexBytes(text[2..]);
      if high < 0 || low < 0 || tail.None? then None else Some([16 * high + low] + tail.value)
  }

  lemma {:induction false} HexBytesRead(text: string, data: seq<byte>)
    requires |text| % 2 == 0
    ensures HexBytes(text) == Some(data) <==> Upper(text) == DataHex(data)
  {
    if text == "" {
      assert |DataHex(data)| == 2 * |data|;
    } else if data == [] {
    } else {
      hide HexValue, HexDigit, ToUpper;
      HexBytesRead(text[2..], data[1..]);
      HexDigitReads(text[0], data[0] / 16);
      HexDigitReads(text[1], data[0] % 16);
      HexPair(HexValue(text[0]), HexValue(text[1]), data[0]);
      FirstPair(text, data);
      FirstByte(text, data);
    }
  }

  lemma FirstPair(text: string, data: seq<byte>)
    requires |text| >= 2 && data != []
    ensures Upper(text) == DataHex(data) <==>
      && ToUpper(text[0]) == HexDigit(data[0] / 16) && ToUpper(text[1]) == HexDigit(data[0] % 16)
      && Upper(text[2..]) == DataHex(data[1..])
  {
    hide ToUpper, HexDigit;
    assert Upper(text) == [ToUpper(text[0]), ToUpper(text[1])] + Upper(text[2..]);
    assert Upper(text)[2..] == Upper(text[2..]) && DataHex(data)[2..] == DataHex(data[1..]);
  }

  lemma FirstByte(text: string, data: seq<byte>)
    requires |text| >= 2 && |text| % 2 == 0 && data != []
    ensures HexBytes(text) == Some(data) <==>
      && HexValue(text[0]) >= 0 && HexValue(text[1]) >= 0 && 16 * HexValue(text[0]) + HexValue(text[1]) == data[0]
      && HexBytes(text[2..]) == Some(data[1..])
  {
    hide HexValue;
    assert data == [data[0]] + data[1..];
  }

  lemma HexPair(high: int, low: int, b: byte)
    requires -1 <= high < 16 && -1 <= low < 16
    ensures high == b / 16 && low == b % 16 <==> high >= 0 && low >= 0 && 16 * high + low == b
  {}

  /** The frame of a line, as the parser reads it. */
  function ParsedLine(line: string): (r: Option<Frame>) {
    if line == "" || (line[0] != 't' && line[0] != 'T') then None
    else
      var width := IdWidth(line[0]);
      if |line| < width + 2 then None
      else
        var id := HexNumber(line[1..1 + width]);
        var length := line[1 + width] as int - '0' as int;
        if id.None? || (width == 3 && id.value > MAX_STANDARD_ID) || id.value > MAX_ID then None
        else if length < 0 || length > 8 || |line| != width + 2 + 2 * length then None
        else
          var data := HexBytes(line[width + 2..]);
          if data.None? then None else Some(Frame(id.value, data.value))
  }

  method ParseLine(line: string) returns (frame: Option<Frame>)
    ensures frame == ParsedLine(line)
  {
    if line == "" || (line[0] != 't' && line[0] != 'T') {
      return None;
    }
    var idWidth := if line[0] == 't' then 3 else 8;
    if |line| < 1 + idWidth + 1 {
      return None;
    }
    var id := ParseHex(line[1..1 + idWidth]);
    if id.None? || (idWidth == 3 && id.value > MAX_STANDARD_ID) || id.value > MAX_ID {
      return None;
    }
    var lengthChar := line[1 + idWidth];
    if lengthChar < '0' || lengthChar > '8' {
      return None;
    }
    var length := lengthChar as int - '0' as int;
    if |line| != 1 + idWidth + 1 + length * 2 {
      return None;
    }
    var data := ParseData(line[1 + idWidth + 1..], length);
    return if data.Some? then Some(Frame(id.value, data.value)) else None;
  }

  method ParseData(text: string, length: nat) returns (data: Option<seq<byte>>)
    requires |text| == 2 * length
    ensures data == HexBytes(text)
  {
    hide HexValue, HexBytes, Behind;
    var bytes: seq<byte> := [];
    assert text[0..] == text;
    NothingBefore(HexBytes(text));
    for index := 0 to length
      invariant HexBytes(text) == Behind(bytes, HexBytes(text[2 * index..]))
    {
      ghost var rest := text[2 * index..];
      assert rest[2..] == text[2 * (index + 1)..] && rest[0] == text[2 * index] && rest[1] == text[2 * index + 1];
      PairBehind(bytes, rest);
      var high, low := HexValue(text[2 * index]), HexValue(text[2 * index + 1]);
      if high < 0 || low < 0 {
        return None;
      }
      bytes := bytes + [16 * high + low];
    }
    assert text[2 * length..] == "";
    NothingAfter(bytes);
    return Some(bytes);
  }

  function Behind(bytes: seq<byte>, rest: Option<seq<byte>>): Option<seq<byte>> {
    if rest.None? then None else Some(bytes + rest.value)
  }

  lemma PairBehind(bytes: seq<byte>, rest: string)
    requires |rest| >= 2 && |rest| % 2 == 0
    ensures var high, low := HexValue(rest[0]), HexValue(rest[1]);
      if high < 0 || low < 0 then Behind(bytes, HexBytes(rest)) == None
      else Behind(bytes, HexBytes(rest)) == Behind(bytes + [16 * high + low], HexBytes(rest[2..]))
  {
    hide HexValue;
    var high, low, tail := HexValue(rest[0]), HexValue(rest[1]), HexBytes(rest[2..]);
    if high >= 0 && low >= 0 && tail.Some? {
      Associates(bytes, [16 * high + low], tail.value);
    }
  }

  lemma NothingBefore(rest: Option<seq<byte>>)
    ensures Behind([], rest) == rest
  {
    assert rest.Some? ==> [] + rest.value == rest.value;
  }

  lemma NothingAfter(bytes: seq<byte>)
    ensures Behind(bytes, HexBytes("")) == Some(bytes)
  {
    assert bytes + [] == bytes;
  }

  /** The parser's checks, gathered: what it takes to read a given frame. */
  lemma ParsedParts(line: string, frame: Frame)
    requires line != "" && line[0] in "tT" && |line| == IdWidth(line[0]) + 2 + 2 * |frame.data|
    ensures var width := IdWidth(line[0]);
      ParsedLine(line) == Some(frame) <==>
        && |frame.data| <= MAX_DATA && frame.id <= MAX_ID
        && (line[0] == 't' ==> frame.id <= MAX_STANDARD_ID)
        && HexNumber(line[1..1 + width]) == Some(frame.id)
        && line[1 + width] as int - '0' as int == |frame.data|
        && HexBytes(line[width + 2..]) == Some(frame.data)
  {}

  lemma ParsedLength(line: string, frame: Frame)
    requires ParsedLine(line) == Some(frame)
    ensures line != "" && line[0] in "tT" && |line| == IdWidth(line[0]) + 2 + 2 * |frame.data|
  {}

  /**
   * The parser accepts a line for a frame exactly when the line, in upper
   * case, is that frame's text under its own tag and the tag has room for the
   * identifier.
   */
  lemma {:induction false} ParsesExactlyTheText(line: string, frame: Frame)
    requires line != ""
    ensures ParsedLine(line) == Some(frame) <==>
      && line[0] in "tT"
      && Encodable(frame)
      && (line[0] == 't' ==> frame.id <= MAX_STANDARD_ID)
      && [line[0]] + Upper(line[1..]) == LineText(line[0], frame)
  {
    hide ParsedLine, LineText, FixedHex, HexNumber, HexBytes, DataHex, HexValue;
    var tag := line[0];
    var width, n := IdWidth(tag), |frame.data|;
    if tag in "tT" && |line| == width + 2 + 2 * n {
      ParsedParts(line, frame);
      if Encodable(frame) && (tag == 't' ==> frame.id <= MAX_STANDARD_ID) {
        var id, length, data := line[1..1 + width], line[1 + width], line[width + 2..];
        Pow16Fits(8);
        HexNumberReads(id, frame.id);
        LengthCharacter(length, n);
        HexBytesRead(data, frame.data);
        PartsAgree(tag, id, length, data, frame);
        assert Upper(line[1..]) == Upper(id) + [ToUpper(length)] + Upper(data);
      }
    } else if ParsedLine(line) == Some(frame) {
      ParsedLength(line, frame);
    }
  }

  lemma {:induction false} PartsAgree(tag: char, id: string, length: char, data: string, frame: Frame)
    requires |frame.data| <= MAX_DATA && |id| == IdWidth(tag) && |data| == 2 * |frame.data|
    ensures [tag] + (Upper(id) + [ToUpper(length)] + Upper(data)) == LineText(tag, frame) <==>
      && Upper(id) == FixedHex(frame.id, |id|)
      && ToUpper(length) == HexDigit(|frame.data|)
      && Upper(data) == DataHex(frame.data)
  {
    JoinInjective([tag], Upper(id), [ToUpper(length)], Upper(data),
                  FixedHex(frame.id, |id|), [HexDigit(|frame.data|)], DataHex(frame.data));
  }

  lemma JoinInjective(tag: string, a: string, b: string, c: string, a': string, b': string, c': string)
    requires |a| == |a'| && |b| == |b'|
    ensures tag + (a + b + c) == tag + a' + b' + c' <==> a == a' && b == b' && c == c'
  {
    var s, t := tag + (a + b + c), tag + a' + b' + c';
    var i, j := |tag|, |tag| + |a|;
    assert s[i..j] == a && t[i..j] == a';
    assert s[j..j + |b|] == b && t[j..j + |b|] == b';
    assert s[j + |b|..] == c && t[j + |b|..] == c';
  }

  lemma LengthCharacter(c: char, n: nat)
    requires n <= 9
    ensures ToUpper(c) == HexDigit(n) <==> c as int - '0' as int == n
  {
    LengthDigit(n);
  }
}
