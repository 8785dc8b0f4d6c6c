/** Polling a table: grouped, chunked reads, then decoding each row from the words read. */
module GroupedPolling {
  import opened Bytes
  import opened Bitwise
  import opened RegisterItems
  import opened RegisterGrouping
  import opened ChunkedReads
  import opened ValueCodec

  const MAX_U16: nat := 0xFFFF

  // ---------------------------------------------------------------- reading the ranges

  datatype GroupedRead = GroupedRead(values: map<nat, u16>, readCount: nat, failedReadCount: nat)

  const NOTHING_READ := GroupedRead(map[], 0, 0)

  /** The guard on each range before it is read. */
  predicate Addressable(r: Range, base: u16) {
    r.offset + base <= MAX_U16 && r.count <= MAX_U16
  }

  /** The words of one answer, under the row addresses they belong to. */
  function Stored(values: map<nat, u16>, offset: nat, words: seq<u16>): (r: map<nat, u16>)
    ensures forall a {:trigger a in r} :: a in r <==> a in values || offset <= a < offset + |words|
    ensures forall a {:trigger r[a]} :: a in r ==>
      r[a] == if offset <= a < offset + |words| then words[a - offset] else values[a]
    decreases |words|
  {
    if words == [] then values
    else
      var last := |words| - 1;
      Stored(values, offset, words[..last])[offset + last := words[last]]
  }

  /** What the answer to one range adds to what was read before. */
  function WithRange(before: GroupedRead, r: Range, answer: Result<seq<u16>>): GroupedRead {
    if answer.Failure? || |answer.value| < r.count
    then before.(readCount := before.readCount + 1, failedReadCount := before.failedReadCount + 1)
    else before.(readCount := before.readCount + 1, values := Stored(before.values, r.offset, answer.value[..r.count]))
  }

  /** A failed or short answer counts as failed and stores nothing; a long enough one stores the range's words. */
  lemma AnswerStored(before: GroupedRead, r: Range, answer: Result<seq<u16>>)
    ensures var after := WithRange(before, r, answer);
      && after.readCount == before.readCount + 1
      && if answer.Failure? || |answer.value| < r.count then
           after.values == before.values && after.failedReadCount == before.failedReadCount + 1
         else
           && after.failedReadCount == before.failedReadCount
           && (forall a: nat :: r.offset <= a < r.offset + r.count ==>
                 a in after.values && after.values[a] == answer.value[a - r.offset])
           && (forall a: nat :: !(r.offset <= a < r.offset + r.count) ==>
                 (a in after.values <==> a in before.values)
                 && (a in before.values ==> after.values[a] == before.values[a]))
  {}

  /** Reading ranges one after the other over a port that has already sent k requests. */
  function ReadRanges(device: Device, k: nat, ranges: seq<Range>, base: u16, before: GroupedRead): GroupedRead
    requires forall i :: 0 <= i < |ranges| ==> Addressable(ranges[i], base)
    decreases ranges
  {
    if ranges == [] then before
    else
      var r := ranges[0];
      assert Addressable(ranges[0], base);
      var outcome := ChunkedOutcome(device, k, base + r.offset, r.count);
      ReadRanges(device, k + |outcome.sent|, ranges[1..], base, WithRange(before, r, outcome.result))
  }

  /** A run of occupied addresses begins here. */
  ghost predicate BeginsAt(v: seq<Item>, branch: u32, a: int) {
    Covered(v, branch, a) && !Covered(v, branch, a - 1)
  }

  ghost predicate AllCovered(v: seq<Item>, branch: u32, a: int, count: nat) {
    forall x: int :: a <= x < a + count ==> Covered(v, branch, x)
  }

  /**
   * Rows a poll cannot address: a run of occupied addresses begins beyond the
   * 16-bit addresses left above the table's base, or is longer than a 16-bit
   * count can say.
   */
  ghost predicate OutOfReach(v: seq<Item>, branch: u32, base: u16) {
    || (exists a: nat :: BeginsAt(v, branch, a) && base + a > MAX_U16)
    || (exists a: nat :: AllCovered(v, branch, a, ADDRESSES))
  }

  /** A poll is abandoned exactly for such rows, whatever plan it computed. */
  lemma AbandonedIff(v: seq<Item>, branch: u32, ranges: seq<Range>, base: u16)
    requires IsPlan(v, branch, ranges)
    ensures (forall i :: 0 <= i < |ranges| ==> Addressable(ranges[i], base)) <==> !OutOfReach(v, branch, base)
  {
    hide Covered;
    forall i | 0 <= i < |ranges| && !Addressable(ranges[i], base) ensures OutOfReach(v, branch, base) {
      RangeOutOfReach(v, branch, ranges, i, base);
    }
    if OutOfReach(v, branch, base) {
      var i := ReachedRange(v, branch, ranges, base);
    }
  }

  lemma RangeOutOfReach(v: seq<Item>, branch: u32, ranges: seq<Range>, i: nat, base: u16)
    requires IsPlan(v, branch, ranges) && i < |ranges| && !Addressable(ranges[i], base)
    ensures OutOfReach(v, branch, base)
  {
    hide Covered;
    var a, r := ranges[i].offset, ranges[i];
    forall x: int | a <= x < a + r.count ensures Covered(v, branch, x) {
      assert InRange(ranges[i], x);
      assert InRanges(ranges, x);
    }
    StartIsFirst(ranges, i);
    assert InRanges(ranges, a - 1) <==> Covered(v, branch, a - 1);
    assert InRange(r, a);
    assert InRanges(ranges, a) <==> Covered(v, branch, a);
    assert BeginsAt(v, branch, a);
    assert r.count > MAX_U16 ==> AllCovered(v, branch, a, ADDRESSES);
  }

  /** The address before a range is in none of them. */
  lemma StartIsFirst(ranges: seq<Range>, i: nat)
    requires NormalForm(ranges) && i < |ranges|
    ensures !InRanges(ranges, ranges[i].offset - 1)
  {
    forall m | 0 <= m < |ranges| ensures !InRange(ranges[m], ranges[i].offset - 1) {
      if m < i {
        assert ranges[m].offset + ranges[m].count < ranges[i].offset;
      } else if m > i {
        assert ranges[i].offset + ranges[i].count < ranges[m].offset;
      }
    }
  }

  lemma ReachedRange(v: seq<Item>, branch: u32, ranges: seq<Range>, base: u16) returns (i: nat)
    requires IsPlan(v, branch, ranges) && OutOfReach(v, branch, base)
    ensures i < |ranges| && !Addressable(ranges[i], base)
  {
    hide Covered, NormalForm;
    if a: nat :| BeginsAt(v, branch, a) && base + a > MAX_U16 {
      assert InRanges(ranges, a) && !InRanges(ranges, a - 1);
      i := RangeHolding(ranges, a);
      assert !InRange(ranges[i], a - 1);
    } else {
      var a: nat :| AllCovered(v, branch, a, ADDRESSES);
      assert Covered(v, branch, a) && InRanges(ranges, a);
      i := RangeHolding(ranges, a);
      var end := ranges[i].offset + ranges[i].count;
      EndIsFree(ranges, i);
      assert !Covered(v, branch, end);
    }
  }

  /** One table read.  A range that cannot be addressed abandons the whole read, whatever was read before it. */
  method ReadGroupedRegisters(items: seq<ModbusItem>, branch: u32, port: RegisterPort, base: u16)
    returns (result: Option<GroupedRead>, ghost ranges: seq<Range>)
    modifies port
    ensures IsPlan(Views(items), branch, ranges)
    ensures result.Some? <==> forall i :: 0 <= i < |ranges| ==> Addressable(ranges[i], base)
    ensures result.None? <==> OutOfReach(Views(items), branch, base)
    ensures result.Some? ==> result.value == ReadRanges(port.device, |old(port.requests)|, ranges, base, NOTHING_READ)
  {
    hide IsPlan, Views, ReadRanges, ChunkedOutcome, Stored, OutOfReach;
    var grouped := BuildContiguousRanges(items, branch);
    ranges := grouped;
    AbandonedIff(Views(items), branch, ranges, base);
    ghost var k := |port.requests|;
    var read := NOTHING_READ;
    for i := 0 to |grouped|
      invariant forall j :: 0 <= j < i ==> Addressable(grouped[j], base)
      invariant (forall j :: 0 <= j < |grouped| ==> Addressable(grouped[j], base)) ==>
        ReadRanges(port.device, k, grouped, base, NOTHING_READ)
        == ReadRanges(port.device, |port.requests|, grouped[i..], base, read)
    {
      var range := grouped[i];
      if range.offset + base > MAX_U16 || range.count > MAX_U16 {
        return None, ranges;
      }
      ReadOneRange(port.device, |port.requests|, grouped[i..], base, read);
      assert grouped[i..][1..] == grouped[i + 1..];
      var registers := port.ChunkedRead(base + range.offset, range.count);
      read := WithRange(read, range, registers);
    }
    ReadNoRanges(port.device, |port.requests|, base, read);
    assert grouped[|grouped|..] == [];
    return Some(read), ranges;
  }

  lemma {:induction false} ReadOneRange(device: Device, k: nat, ranges: seq<Range>, base: u16, before: GroupedRead)
    requires ranges != [] && Addressable(ranges[0], base)
    ensures (forall i :: 0 <= i < |ranges| ==> Addressable(ranges[i], base)) ==>
      var outcome := ChunkedOutcome(device, k, base + ranges[0].offset, ranges[0].count);
      ReadRanges(device, k, ranges, base, before)
      == ReadRanges(device, k + |outcome.sent|, ranges[1..], base, WithRange(before, ranges[0], outcome.result))
  {}

  lemma {:induction false} ReadNoRanges(device: Device, k: nat, base: u16, before: GroupedRead)
    ensures ReadRanges(device, k, [], base, before) == before
  {}

  // ---------------------------------------------------------------- what a faithful device makes of it

  /** The range ends inside the 16-bit address space once the table's base is added. */
  predicate Readable(r: Range, base: u16) {
    r.count >= 1 && base + r.offset + r.count <= ADDRESSES
  }

  ghost predicate InReadable(ranges: seq<Range>, base: u16, a: int) {
    exists k :: 0 <= k < |ranges| && Readable(ranges[k], base) && InRange(ranges[k], a)
  }

  /** Every stored word is the slave's register at the row address plus the base. */
  ghost predicate Mirrors(values: map<nat, u16>, memory: seq<u16>, base: u16) {
    forall a {:trigger values[a]} :: a in values ==> base + a < |memory| && values[a] == memory[base + a]
  }

  lemma {:induction false} StoreMirrors(before: GroupedRead, r: Range, memory: seq<u16>, base: u16)
    requires |memory| == ADDRESSES && Readable(r, base) && Mirrors(before.values, memory, base)
    ensures var words := memory[base + r.offset..base + r.offset + r.count];
            var after := WithRange(before, r, Success(words));
      && Mirrors(after.values, memory, base)
      && (forall a {:trigger a in after.values} :: a in after.values <==> a in before.values || InRange(r, a))
      && after.failedReadCount == before.failedReadCount
  {
    var words := memory[base + r.offset..base + r.offset + r.count];
    assert words[..r.count] == words;
  }

  /** How many of the ranges run past the address space. */
  function Overruns(ranges: seq<Range>, base: u16): nat {
    if ranges == [] then 0
    else (if Readable(ranges[0], base) then 0 else 1) + Overruns(ranges[1..], base)
  }

  /**
   * Over a faithful device, the words stored are exactly those of the ranges
   * that end inside the address space; the other ranges are counted as failed.
   */
  lemma {:induction false} RangesMirrorMemory(
    device: Device, memory: seq<u16>, k: nat, ranges: seq<Range>, base: u16, before: GroupedRead)
    requires Faithful(device, memory)
    requires forall i :: 0 <= i < |ranges| ==> Addressable(ranges[i], base)
    requires Mirrors(before.values, memory, base)
    ensures var after := ReadRanges(device, k, ranges, base, before);
      && Mirrors(after.values, memory, base)
      && (forall a {:trigger a in after.values} :: a in after.values <==>
            a in before.values || InReadable(ranges, base, a))
      && after.readCount == before.readCount + |ranges|
      && after.failedReadCount == before.failedReadCount + Overruns(ranges, base)
    decreases ranges
  {
    hide Faithful, Mirrors, ChunkedOutcome, WithRange, Readable;
    if ranges != [] {
      var r := ranges[0];
      var outcome := ChunkedOutcome(device, k, base + r.offset, r.count);
      var next := WithRange(before, r, outcome.result);
      OneRangeMirrors(device, memory, k, r, base, before);
      RangesMirrorMemory(device, memory, k + |outcome.sent|, ranges[1..], base, next);
      forall a: nat ensures InReadable(ranges, base, a) <==>
        (Readable(r, base) && InRange(r, a)) || InReadable(ranges[1..], base, a)
      {
        InReadableHead(ranges, base, a);
      }
    } else {
      NothingReadable(base);
    }
  }

  lemma NothingReadable(base: u16)
    ensures forall a :: !InReadable([], base, a)
  {}

  lemma {:induction false} OneRangeMirrors(
    device: Device, memory: seq<u16>, k: nat, r: Range, base: u16, before: GroupedRead)
    requires Faithful(device, memory) && Addressable(r, base) && Mirrors(before.values, memory, base)
    ensures var next := WithRange(before, r, ChunkedOutcome(device, k, base + r.offset, r.count).result);
      && Mirrors(next.values, memory, base)
      && (forall a {:trigger a in next.values} :: a in next.values <==>
            a in before.values || (Readable(r, base) && InRange(r, a)))
      && next.readCount == before.readCount + 1
      && next.failedReadCount == before.failedReadCount + if Readable(r, base) then 0 else 1
  {
    hide Faithful, Mirrors, ChunkedOutcome;
    ChunkedReadsMemory(device, memory, k, base + r.offset, r.count);
    MemorySize(device, memory);
    if Readable(r, base) {
      StoreMirrors(before, r, memory, base);
    }
  }

  lemma {:induction false} MemorySize(device: Device, memory: seq<u16>)
    requires Faithful(device, memory)
    ensures |memory| == ADDRESSES
  {}

  lemma {:induction false} InReadableHead(ranges: seq<Range>, base: u16, a: int)
    requires ranges != []
    ensures InReadable(ranges, base, a) <==>
            (Readable(ranges[0], base) && InRange(ranges[0], a)) || InReadable(ranges[1..], base, a)
  {
    if InReadable(ranges[1..], base, a) {
      var k :| 0 <= k < |ranges[1..]| && Readable(ranges[1..][k], base) && InRange(ranges[1..][k], a);
      assert ranges[k + 1] == ranges[1..][k];
    }
    if InReadable(ranges, base, a) {
      var k :| 0 <= k < |ranges| && Readable(ranges[k], base) && InRange(ranges[k], a);
      assert k > 0 ==> ranges[1..][k - 1] == ranges[k];
    }
  }

  /** All of the branch's rows lie inside the slave's address space. */
  ghost predicate RowsFit(v: seq<Item>, branch: u32, base: u16) {
    forall i :: 0 <= i < |v| && Picks(v[i], branch) ==> base + v[i].End() <= ADDRESSES
  }

  lemma {:induction false} RangesFit(v: seq<Item>, branch: u32, ranges: seq<Range>, base: u16)
    requires IsPlan(v, branch, ranges) && RowsFit(v, branch, base)
    ensures forall i :: 0 <= i < |ranges| ==> Readable(ranges[i], base)
    ensures (forall i :: 0 <= i < |ranges| ==> Addressable(ranges[i], base)) <==>
            !(exists i :: 0 <= i < |ranges| && ranges[i].count == ADDRESSES)
  {
    forall i | 0 <= i < |ranges| ensures Readable(ranges[i], base) {
      var last := ranges[i].offset + ranges[i].count - 1;
      assert InRange(ranges[i], last);
      assert InRanges(ranges, last);
      assert Covered(v, branch, last);
      var j :| 0 <= j < |v| && Picks(v[j], branch) && v[j].offset <= last < v[j].End();
      assert base + v[j].End() <= ADDRESSES;
    }
  }

  /** The words a poll collects are exactly the slave's registers at the addresses the rows occupy. */
  lemma {:induction false} PollMirrorsMemory(
    v: seq<Item>, branch: u32, ranges: seq<Range>, base: u16, device: Device, memory: seq<u16>, k: nat)
    requires IsPlan(v, branch, ranges) && RowsFit(v, branch, base) && Faithful(device, memory)
    requires forall i :: 0 <= i < |ranges| ==> Addressable(ranges[i], base)
    ensures var read := ReadRanges(device, k, ranges, base, NOTHING_READ);
      && Mirrors(read.values, memory, base)
      && (forall a {:trigger a in read.values} :: a in read.values <==> Covered(v, branch, a))
      && read.readCount == |ranges| && read.failedReadCount == 0
  {
    RangesMirrorMemory(device, memory, k, ranges, base, NOTHING_READ);
    RangesFit(v, branch, ranges, base);
    NoOverruns(ranges, base);
    forall a: nat ensures InReadable(ranges, base, a) <==> Covered(v, branch, a) {
      assert InRanges(ranges, a) <==> Covered(v, branch, a);
      if InRanges(ranges, a) {
        var i := RangeHolding(ranges, a);
        assert Readable(ranges[i], base);
      }
    }
  }

  lemma {:induction false} NoOverruns(ranges: seq<Range>, base: u16)
    requires forall i :: 0 <= i < |ranges| ==> Readable(ranges[i], base)
    ensures Overruns(ranges, base) == 0
  {
    if ranges != [] {
      NoOverruns(ranges[1..], base);
    }
  }

  // ---------------------------------------------------------------- decoding the rows

  /** IEEE 754 comparison of single-precision bits: NaN differs from itself, the two zeros are equal. */
  predicate FloatEqual(a: u32, b: u32) {
    && !(a / 0x80_0000 % 0x100 == 0xFF && a % 0x80_0000 != 0)
    && !(b / 0x80_0000 % 0x100 == 0xFF && b % 0x80_0000 != 0)
    && (a == b || (a % 0x8000_0000 == 0 && b % 0x8000_0000 == 0))
  }

  predicate DoubleEqual(a: u64, b: u64) {
    && !(a / 0x10_0000_0000_0000 % 0x800 == 0x7FF && a % 0x10_0000_0000_0000 != 0)
    && !(b / 0x10_0000_0000_0000 % 0x800 == 0x7FF && b % 0x10_0000_0000_0000 != 0)
    && (a == b || (a % 0x8000_0000_0000_0000 == 0 && b % 0x8000_0000_0000_0000 == 0))
  }

  /** A single-precision NaN lies above the bits of infinity; the zeros differ in the sign bit alone. */
  lemma FloatEqualIff(a: u32, b: u32)
    ensures FloatEqual(a, b) <==>
      && a % 0x8000_0000 <= 0x7F80_0000 && b % 0x8000_0000 <= 0x7F80_0000
      && (a == b || {a, b} == {0, 0x8000_0000})
  {
    NotANumber32(a);
    NotANumber32(b);
    if (a == 0 || a == 0x8000_0000) && (b == 0 || b == 0x8000_0000) && a != b {
      assert {a, b} == {0, 0x8000_0000};
    }
  }

  lemma NotANumber32(a: u32)
    ensures a / 0x80_0000 % 0x100 == 0xFF && a % 0x80_0000 != 0 <==> a % 0x8000_0000 > 0x7F80_0000
  {}

  /** Likewise in double precision. */
  lemma DoubleEqualIff(a: u64, b: u64)
    ensures DoubleEqual(a, b) <==>
      && a % 0x8000_0000_0000_0000 <= 0x7FF0_0000_0000_0000 && b % 0x8000_0000_0000_0000 <= 0x7FF0_0000_0000_0000
      && (a == b || {a, b} == {0, 0x8000_0000_0000_0000})
  {
    NotANumber64(a);
    NotANumber64(b);
    if (a == 0 || a == 0x8000_0000_0000_0000) && (b == 0 || b == 0x8000_0000_0000_0000) && a != b {
      assert {a, b} == {0, 0x8000_0000_0000_0000};
    }
  }

  lemma NotANumber64(a: u64)
    ensures a / 0x10_0000_0000_0000 % 0x800 == 0x7FF && a % 0x10_0000_0000_0000 != 0
       <==> a % 0x8000_0000_0000_0000 > 0x7FF0_0000_0000_0000
  {}

  /** Two stored values compare equal: same alternative, equal contents. */
  predicate SameValue(a: RegisterValue, b: RegisterValue) {
    match (a, b)
    case (IntegerValue(x), IntegerValue(y)) => x == y
    case (FloatValue(x), FloatValue(y)) => FloatEqual(x, y)
    case (DoubleValue(x), DoubleValue(y)) => DoubleEqual(x, y)
    case _ => false
  }

  /** Values of different alternatives never compare equal, integers by value, the others as IEEE 754 has it. */
  lemma SameValueIff(a: RegisterValue, b: RegisterValue)
    ensures a.IntegerValue? && b.IntegerValue? ==> (SameValue(a, b) <==> a.value == b.value)
    ensures a.FloatValue? && b.FloatValue? ==>
      (SameValue(a, b) <==>
        && a.bits % 0x8000_0000 <= 0x7F80_0000 && b.bits % 0x8000_0000 <= 0x7F80_0000
        && (a.bits == b.bits || {a.bits, b.bits} == {0, 0x8000_0000}))
    ensures a.DoubleValue? && b.DoubleValue? ==>
      (SameValue(a, b) <==> DoubleEqual(a.doubleBits, b.doubleBits))
    ensures a.IntegerValue? != b.IntegerValue? || a.FloatValue? != b.FloatValue? ==> !SameValue(a, b)
  {
    hide FloatEqual, DoubleEqual;
    if a.FloatValue? && b.FloatValue? {
      FloatEqualIff(a.bits, b.bits);
    }
  }

  lemma HeldIsKept(held: RegisterValue, next: RegisterValue)
    ensures SameValue(held, next) ==> Replaced(held, next) == held
    ensures !SameValue(held, next) ==> Replaced(held, next) == next
  {}

  /** A value that compares equal to the held one is not stored. */
  function Replaced(held: RegisterValue, next: RegisterValue): RegisterValue {
    if SameValue(held, next) then held else next
  }

  /** The words of a row, if all of them were read. */
  predicate AllRead(values: map<nat, u16>, offset: nat, n: nat) {
    forall a :: offset <= a < offset + n ==> a in values
  }

  function WordsAt(values: map<nat, u16>, offset: nat, n: nat): (words: seq<u16>)
    requires AllRead(values, offset, n)
    ensures |words| == n
  {
    seq(n, i requires 0 <= i < n => values[offset + i])
  }

  /** Does a poll with these words refresh the row? */
  predicate Refreshes(item: Item, values: map<nat, u16>, branch: u32) {
    && Picks(item, branch)
    && !item.kind.Text? && !item.kind.Invalid?
    && AllRead(values, item.offset, RegisterCount(item.kind))
  }

  lemma RefreshesIff(item: Item, values: map<nat, u16>, branch: u32)
    ensures Refreshes(item, values, branch) <==>
      && SharesBit(item.branches, branch) && item.kind !in {Text, Invalid}
      && forall a: nat :: item.offset <= a < item.offset + RegisterCount(item.kind) ==> a in values
  {}

  function Refreshed(item: Item, values: map<nat, u16>, branch: u32): Item {
    if Refreshes(item, values, branch) then
      var words := WordsAt(values, item.offset, RegisterCount(item.kind));
      item.(value := Replaced(item.value, DecodeWords(item.kind, item.byteOrder, words)))
    else item
  }

  /** Does the refresh report the row as changed? */
  predicate Changes(item: Item, values: map<nat, u16>, branch: u32) {
    && Refreshes(item, values, branch)
    && !SameValue(item.value,
                  DecodeWords(item.kind, item.byteOrder, WordsAt(values, item.offset, RegisterCount(item.kind))))
  }

  /** The rows below n that changed, in order, as far as a byte can name them. */
  function ChangedRows(v: seq<Item>, values: map<nat, u16>, branch: u32, n: nat): seq<byte>
    requires n <= |v|
  {
    if n == 0 then []
    else
      var before := ChangedRows(v, values, branch, n - 1);
      if Changes(v[n - 1], values, branch) && n - 1 <= 0xFF then before + [n - 1] else before
  }

  function RefreshedAll(v: seq<Item>, values: map<nat, u16>, branch: u32): (w: seq<Item>)
    ensures |w| == |v|
  {
    seq(|v|, i requires 0 <= i < |v| => Refreshed(v[i], values, branch))
  }

  method RefreshItem(item: ModbusItem, values: map<nat, u16>, branch: u32) returns (changed: bool)
    modifies item
    ensures item.View() == Refreshed(old(item.View()), values, branch)
    ensures changed == Changes(old(item.View()), values, branch)
  {
    hide DecodeWords, SameValue, Picks;
    changed := false;
    if !Picks(item.View(), branch) || item.offset !in values || item.kind == Text || item.kind == Invalid {
      return;
    }
    var count := RegisterCount(item.kind);
    var words := [values[item.offset]];
    var offset := 1;
    while offset < count
      invariant 1 <= offset <= count && AllRead(values, item.offset, offset)
      invariant words == WordsAt(values, item.offset, offset)
    {
      if item.offset + offset !in values {
        return;
      }
      assert AllRead(values, item.offset, offset + 1);
      words := words + [values[item.offset + offset]];
      offset := offset + 1;
    }
    var next := DecodeWords(item.kind, item.byteOrder, words);
    changed := !SameValue(item.value, next);
    if changed {
      item.value := next;
    }
  }

  /** Decode every row of a table from the words of a poll. */
  method RefreshItems(items: seq<ModbusItem>, values: map<nat, u16>, branch: u32) returns (changedRows: seq<byte>)
    requires Distinct(items)
    modifies items
    ensures Views(items) == RefreshedAll(old(Views(items)), values, branch)
    ensures changedRows == ChangedRows(old(Views(items)), values, branch, |items|)
  {
    hide Refreshed, Changes, Views;
    ghost var v := Views(items);
    changedRows := [];
    for index := 0 to |items|
      invariant changedRows == ChangedRows(v, values, branch, index)
      invariant forall k :: index <= k < |items| ==> items[k].View() == v[k]
      invariant forall k :: 0 <= k < index ==> items[k].View() == Refreshed(v[k], values, branch)
    {
      var changed := RefreshItem(items[index], values, branch);
      if changed && index <= 0xFF {
        changedRows := changedRows + [index];
      }
    }
    assert |Views(items)| == |RefreshedAll(v, values, branch)|;
  }

  // ---------------------------------------------------------------- the refinement

  /** What reading the row's own words, in a request of its own, would decode to. */
  function ReadAlone(device: Device, k: nat, item: Item, base: u16): Option<RegisterValue>
    requires base + item.offset < ADDRESSES
  {
    var n := RegisterCount(item.kind);
    var answer := ChunkedOutcome(device, k, base + item.offset, n).result;
    if answer.Failure? || |answer.value| != n then None
    else Some(DecodeWords(item.kind, item.byteOrder, answer.value))
  }

  /**
   * Grouped, chunked polling refines reading each row on its own: over a
   * faithful device every numeric row of the branch whose size covers its type
   * ends up with the value its own words spell, however its neighbours are
   * arranged and however the ranges are cut into requests.
   */
  lemma {:induction false} RowsRefined(
    v: seq<Item>, branch: u32, ranges: seq<Range>, base: u16, device: Device, memory: seq<u16>, k: nat, i: nat,
    alone: nat)
    requires IsPlan(v, branch, ranges) && RowsFit(v, branch, base) && Faithful(device, memory)
    requires forall r :: 0 <= r < |ranges| ==> Addressable(ranges[r], base)
    requires i < |v| && Picks(v[i], branch) && !v[i].kind.Text? && !v[i].kind.Invalid?
    requires v[i].Size() >= RegisterCount(v[i].kind)
    ensures base + v[i].offset < ADDRESSES
    ensures var values := ReadRanges(device, k, ranges, base, NOTHING_READ).values;
            var own := ReadAlone(device, alone, v[i], base);
      && own.Some?
      && Refreshed(v[i], values, branch) == v[i].(value := Replaced(v[i].value, own.value))
  {
    hide IsPlan, DecodeWords, SameValue, Faithful, ReadRanges, ChunkedOutcome;
    var item, n := v[i], RegisterCount(v[i].kind);
    var values := ReadRanges(device, k, ranges, base, NOTHING_READ).values;
    MemorySize(device, memory);
    PollMirrorsMemory(v, branch, ranges, base, device, memory, k);
    assert base + item.End() <= ADDRESSES;
    forall a: nat | item.offset <= a < item.offset + n ensures a in values {
      assert Covered(v, branch, a);
    }
    ChunkedReadsMemory(device, memory, alone, base + item.offset, n);
    assert WordsAt(values, item.offset, n) == memory[base + item.offset..base + item.offset + n];
  }

  lemma {:induction false} ChangedRowsAre(v: seq<Item>, values: map<nat, u16>, branch: u32, n: nat)
    requires n <= |v|
    ensures var changed := ChangedRows(v, values, branch, n);
      && (forall i, j :: 0 <= i < j < |changed| ==> changed[i] < changed[j])
      && (forall b :: b in changed ==> b < n)
      && (forall i: nat :: i < n && i <= 0xFF ==> (i in changed <==> Changes(v[i], values, branch)))
  {
    hide Changes;
    if n > 0 {
      ChangedRowsAre(v, values, branch, n - 1);
      var before, changed := ChangedRows(v, values, branch, n - 1), ChangedRows(v, values, branch, n);
      if changed != before {
        OneMoreAscends(before, n - 1);
      }
    }
  }

  lemma OneMoreAscends(before: seq<byte>, last: byte)
    requires (forall i, j :: 0 <= i < j < |before| ==> before[i] < before[j]) && forall b :: b in before ==> b < last
    ensures var changed := before + [last];
      && (forall i, j :: 0 <= i < j < |changed| ==> changed[i] < changed[j])
      && forall b :: b in changed <==> b == last || b in before
  {
    var changed := before + [last];
    assert forall j :: 0 <= j < |before| ==> before[j] in before;
    assert changed[|before|] == last;
  }

  /**
   * What a poll does to a whole table: nothing but values, and only in rows of
   * the branch with a numeric type whose words were all read; every changed
   * row that a byte can name is reported, once and in order.
   */
  lemma {:induction false} RefreshIsReported(v: seq<Item>, values: map<nat, u16>, branch: u32)
    ensures var w, changed := RefreshedAll(v, values, branch), ChangedRows(v, values, branch, |v|);
      && (forall i, j :: 0 <= i < j < |changed| ==> changed[i] < changed[j])
      && (forall b :: b in changed ==> b < |v| && Refreshes(v[b], values, branch))
      && forall i: nat :: i < |v| ==>
           && w[i] == Refreshed(v[i], values, branch) == v[i].(value := w[i].value)
           && (w[i] != v[i] ==> Refreshes(v[i], values, branch) && (i <= 0xFF ==> i in changed))
  {
    hide Refreshes, SameValue, DecodeWords;
    ChangedRowsAre(v, values, branch, |v|);
  }

  /** Where a write goes: the manual address if there is one, else the row's own. */
  function ResolveAddress(item: Item, tableOffset: u16): Option<u16> {
    var offset := if item.manualAddress >= 0 then item.manualAddress else item.offset;
    if offset > MAX_U16 - tableOffset then None else Some(tableOffset + offset)
  }

  /** The address is refused exactly when it does not fit 16 bits. */
  lemma ResolvesTo(item: Item, tableOffset: u16)
    ensures item.manualAddress < 0 ==>
      ResolveAddress(item, tableOffset)
      == if tableOffset + item.offset < 65536 then Some(tableOffset + item.offset) else None
    ensures item.manualAddress >= 0 ==>
      ResolveAddress(item, tableOffset)
      == if tableOffset + item.manualAddress < 65536 then Some(tableOffset + item.manualAddress) else None
  {}
}
