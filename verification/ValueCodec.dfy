/** Register words and the values they spell, in every byte order. */
module ValueCodec {
  import opened Bytes
  import opened RegisterItems

  const WORD: nat := 0x1_0000

  function SwapBytes(word: u16): u16 {
    word % 0x100 * 0x100 + word / 0x100
  }

  /** Without an order of its own, a type of several registers is taken low word first. */
  function Resolve(kind: RegisterType, order: ByteOrder): ByteOrder {
    if order != Default then order
    else if RegisterCount(kind) > 1 then LittleEndian
    else BigEndian
  }

  function Decode16(word: u16, order: ByteOrder): u16 {
    if Resolve(UI16, order) == LittleEndian then SwapBytes(word) else word
  }

  function Join(high: u16, low: u16): u32 {
    high * WORD + low
  }

  function Decode32(first: u16, second: u16, order: ByteOrder): u32 {
    match Resolve(UI32, order)
    case BigEndian => Join(first, second)
    case LittleEndian => Join(second, first)
    case BigEndianByteSwap => Join(SwapBytes(first), SwapBytes(second))
    case LittleEndianByteSwap => Join(SwapBytes(second), SwapBytes(first))
    case Default => Join(second, first)
  }

  function Join4(w3: u16, w2: u16, w1: u16, w0: u16): u64 {
    Join(w3, w2) * (WORD * WORD) + Join(w1, w0)
  }

  function Decode64(a: u16, b: u16, c: u16, d: u16, order: ByteOrder): u64 {
    match Resolve(Double, order)
    case BigEndian => Join4(a, b, c, d)
    case LittleEndian => Join4(d, c, b, a)
    case BigEndianByteSwap => Join4(SwapBytes(a), SwapBytes(b), SwapBytes(c), SwapBytes(d))
    case LittleEndianByteSwap => Join4(SwapBytes(d), SwapBytes(c), SwapBytes(b), SwapBytes(a))
    case Default => Join4(d, c, b, a)
  }

  /** The low 16 bits after dropping n words. */
  function WordOf(raw: nat, n: nat): u16 {
    (if n == 0 then raw else if n == 1 then raw / WORD else if n == 2 then raw / (WORD * WORD)
     else raw / (WORD * WORD * WORD)) % WORD
  }

  function Encode16(raw: u16, order: ByteOrder): u16 {
    if Resolve(UI16, order) == LittleEndian then SwapBytes(raw) else raw
  }

  function Encode32(raw: u32, order: ByteOrder): (words: seq<u16>)
    ensures |words| == 2
  {
    var high, low := WordOf(raw, 1), WordOf(raw, 0);
    match Resolve(UI32, order)
    case BigEndian => [high, low]
    case LittleEndian => [low, high]
    case BigEndianByteSwap => [SwapBytes(high), SwapBytes(low)]
    case LittleEndianByteSwap => [SwapBytes(low), SwapBytes(high)]
    case Default => [low, high]
  }

  function Encode64(raw: u64, order: ByteOrder): (words: seq<u16>)
    ensures |words| == 4
  {
    var w3, w2, w1, w0 := WordOf(raw, 3), WordOf(raw, 2), WordOf(raw, 1), WordOf(raw, 0);
    match Resolve(Double, order)
    case BigEndian => [w3, w2, w1, w0]
    case LittleEndian => [w0, w1, w2, w3]
    case BigEndianByteSwap => [SwapBytes(w3), SwapBytes(w2), SwapBytes(w1), SwapBytes(w0)]
    case LittleEndianByteSwap => [SwapBytes(w0), SwapBytes(w1), SwapBytes(w2), SwapBytes(w3)]
    case Default => [w0, w1, w2, w3]
  }

  /** The words an integer edit writes: two or four for the wide integer types, one for every other type. */
  function EncodeValue(item: Item, value: u64): (words: seq<u16>)
    ensures 1 <= |words| <= 4
  {
    match item.kind
    case UI32 | I32 => Encode32(value % (WORD * WORD), item.byteOrder)
    case UI64 | I64 => Encode64(value, item.byteOrder)
    case _ => [Encode16(value % WORD, item.byteOrder)]
  }

  /** The value a numeric row's own words spell: `RegisterCount` words, first address first. */
  function DecodeWords(kind: RegisterType, order: ByteOrder, words: seq<u16>): RegisterValue
    requires |words| == RegisterCount(kind)
  {
    if |words| == 1 then IntegerValue(Decode16(words[0], order))
    else if |words| == 2 then
      var raw := Decode32(words[0], words[1], order);
      if IsFloating(kind) then FloatValue(raw) else IntegerValue(raw)
    else
      var raw := Decode64(words[0], words[1], words[2], words[3], order);
      if IsFloating(kind) then DoubleValue(raw) else IntegerValue(raw)
  }

  // ---------------------------------------------------------------- the values that words spell

  /** One word spells itself; only little-endian order exchanges its bytes. */
  lemma OneWordSpells(kind: RegisterType, order: ByteOrder, word: u16)
    requires RegisterCount(kind) == 1
    ensures DecodeWords(kind, order, [word])
         == IntegerValue(if order == LittleEndian then word % 256 * 256 + word / 256 else word)
  {}

  /**
   * Two words: low word first in the little-endian orders and without an
   * order of its own, high word first in the big-endian ones; the byte-swapped
   * orders exchange the bytes of each word.
   */
  lemma TwoWordsSpell(kind: RegisterType, order: ByteOrder, a: u16, b: u16)
    requires RegisterCount(kind) == 2
    ensures var x, y := a % 256 * 256 + a / 256, b % 256 * 256 + b / 256;
      var raw: nat :=
        match order
        case Default | LittleEndian => a + 65536 * b
        case BigEndian => b + 65536 * a
        case LittleEndianByteSwap => x + 65536 * y
        case BigEndianByteSwap => y + 65536 * x;
      && raw < 0x1_0000_0000
      && DecodeWords(kind, order, [a, b]) == if kind == Float then FloatValue(raw) else IntegerValue(raw)
  {}

  /** Four words, likewise. */
  lemma FourWordsSpell(kind: RegisterType, order: ByteOrder, a: u16, b: u16, c: u16, d: u16)
    requires RegisterCount(kind) == 4
    ensures
      var x, y := a % 256 * 256 + a / 256, b % 256 * 256 + b / 256;
      var z, w := c % 256 * 256 + c / 256, d % 256 * 256 + d / 256;
      var raw: nat :=
        match order
        case Default | LittleEndian => a + 65536 * (b + 65536 * (c + 65536 * d))
        case BigEndian => d + 65536 * (c + 65536 * (b + 65536 * a))
        case LittleEndianByteSwap => x + 65536 * (y + 65536 * (z + 65536 * w))
        case BigEndianByteSwap => w + 65536 * (z + 65536 * (y + 65536 * x));
      && raw < 0x1_0000_0000_0000_0000
      && DecodeWords(kind, order, [a, b, c, d]) == if kind == Double then DoubleValue(raw) else IntegerValue(raw)
  {}

  // ---------------------------------------------------------------- round trips

  lemma SwapTwice(word: u16)
    ensures SwapBytes(SwapBytes(word)) == word
  {
    var high, low := word / 256, word % 256;
    assert SwapBytes(word) == 256 * low + high;
    assert SwapBytes(word) / 256 == low && SwapBytes(word) % 256 == high;
  }

  lemma SplitJoins(raw: u32)
    ensures Join(WordOf(raw, 1), WordOf(raw, 0)) == raw
  {}

  lemma Split4Joins(raw: u64)
    ensures Join4(WordOf(raw, 3), WordOf(raw, 2), WordOf(raw, 1), WordOf(raw, 0)) == raw
  {
    var high, low := raw / (WORD * WORD), raw % (WORD * WORD);
    SplitJoins(high);
    SplitJoins(low);
    assert WordOf(raw, 3) == WordOf(high, 1) && WordOf(raw, 2) == WordOf(high, 0);
    assert WordOf(raw, 1) == WordOf(low, 1) && WordOf(raw, 0) == WordOf(low, 0);
  }

  lemma Round16(raw: u16, order: ByteOrder)
    ensures Decode16(Encode16(raw, order), order) == raw
  {
    SwapTwice(raw);
  }

  lemma {:induction false} Round32(raw: u32, order: ByteOrder)
    ensures var w := Encode32(raw, order); Decode32(w[0], w[1], order) == raw
  {
    hide SwapBytes, WordOf, Join;
    SplitJoins(raw);
    SwapTwice(WordOf(raw, 1));
    SwapTwice(WordOf(raw, 0));
  }

  lemma {:induction false} Round64(raw: u64, order: ByteOrder)
    ensures var w := Encode64(raw, order); Decode64(w[0], w[1], w[2], w[3], order) == raw
  {
    hide SwapBytes, WordOf, Join4;
    Split4Joins(raw);
    SwapTwice(WordOf(raw, 3));
    SwapTwice(WordOf(raw, 2));
    SwapTwice(WordOf(raw, 1));
    SwapTwice(WordOf(raw, 0));
  }

  function Modulus(words: nat): nat {
    if words == 1 then WORD else if words == 2 then WORD * WORD else 0x1_0000_0000_0000_0000
  }

  /**
   * Write then read back: for every integer row, byte order and value, the
   * encoded words are as many as the row's type reads, and they decode to the
   * value modulo the type's width.
   */
  lemma {:induction false} WriteReadsBack(item: Item, value: u64)
    requires !IsFloating(item.kind)
    ensures |EncodeValue(item, value)| == RegisterCount(item.kind)
    ensures DecodeWords(item.kind, item.byteOrder, EncodeValue(item, value))
         == IntegerValue(value % Modulus(RegisterCount(item.kind)))
  {
    hide Decode16, Decode32, Decode64, Encode16, Encode32, Encode64;
    Round16(value % WORD, item.byteOrder);
    Round32(value % (WORD * WORD), item.byteOrder);
    Round64(value, item.byteOrder);
  }
}
