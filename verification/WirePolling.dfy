/** Polling and writing a table over the wire: requests, replies cut up on their way, and a slave at the far end. */
module WirePolling {
  import opened Bytes
  import opened RegisterItems
  import opened RegisterGrouping
  import opened ChunkedReads
  import opened ValueCodec
  import opened ModbusProtocol
  import opened ModbusExchange
  import opened GroupedPolling

  /** A table that a poll reads in full: it can be addressed, and no row runs past the last address. */
  ghost predicate Pollable(v: seq<Item>, branch: u32, base: u16) {
    RowsFit(v, branch, base) && !OutOfReach(v, branch, base)
  }

  /** A table of one row is read in full exactly when the row ends inside the address space. */
  lemma OneRowPollable(item: Item, branch: u32, base: u16)
    requires Picks(item, branch) && 1 <= item.Size() < 65536
    ensures Pollable([item], branch, base) <==> base + item.End() <= 65536
  {
    var v := [item];
    assert Picks(v[0], branch);
    forall a: int ensures Covered(v, branch, a) <==> item.offset <= a < item.End() {
      assert v[0] == item;
    }
    if base + item.End() <= 65536 {
      forall a: nat ensures !(BeginsAt(v, branch, a) && base + a > MAX_U16) {}
      forall a: nat ensures !AllCovered(v, branch, a, ADDRESSES) {
        assert !Covered(v, branch, if item.offset <= a < item.End() then item.End() else a);
      }
    }
  }

  /** A row of the branch that a poll decodes. */
  predicate Decoded(item: Item, branch: u32) {
    && Picks(item, branch) && !item.kind.Text? && !item.kind.Invalid?
    && item.Size() >= RegisterCount(item.kind)
  }

  /** Among them every row of the branch with a numeric type and no declared size. */
  lemma DecodedIff(item: Item, branch: u32)
    ensures item.registerSize.None? ==>
      (Decoded(item, branch) <==> Picks(item, branch) && item.kind !in {Text, Invalid})
    ensures item.registerSize.Some? ==>
      (Decoded(item, branch) <==>
        Picks(item, branch) && item.kind !in {Text, Invalid} && item.registerSize.value >= RegisterCount(item.kind))
  {}

  function OwnWords(memory: seq<u16>, item: Item, base: u16): (words: seq<u16>)
    requires base + item.offset + RegisterCount(item.kind) <= |memory|
    ensures |words| == RegisterCount(item.kind)
  {
    memory[base + item.offset..base + item.offset + RegisterCount(item.kind)]
  }

  lemma RowInMemory(v: seq<Item>, branch: u32, base: u16, i: nat)
    requires RowsFit(v, branch, base) && i < |v| && Decoded(v[i], branch)
    ensures base + v[i].offset + RegisterCount(v[i].kind) <= ADDRESSES
  {}

  /**
   * A poll over the wire refines reading each row alone over the wire, and
   * both give the value that the slave's own registers spell: for every table
   * layout, every plan, either transport, and every way of cutting up replies.
   */
  lemma {:induction false} PollRefinesRowReads(
    v: seq<Item>, branch: u32, ranges: seq<Range>, base: u16,
    t: Transport, first: u16, unit: byte, bank: Bank, slave: Slave, cut: Cut, k: nat, i: nat, alone: nat)
    requires IsPlan(v, branch, ranges) && Pollable(v, branch, base)
    requires slave.Valid() && CutsOnly(cut)
    requires i < |v| && Decoded(v[i], branch)
    ensures forall r :: 0 <= r < |ranges| ==> Addressable(ranges[r], base)
    ensures base + v[i].offset + RegisterCount(v[i].kind) <= ADDRESSES
    ensures var device := LinkDevice(t, first, unit, bank, LineTo(t, unit, slave, cut));
            var read := ReadRanges(device, k, ranges, base, NOTHING_READ);
            var own := DecodeWords(v[i].kind, v[i].byteOrder, OwnWords(slave.Registers(bank), v[i], base));
      && read.failedReadCount == 0
      && ReadAlone(device, alone, v[i], base) == Some(own)
      && Refreshed(v[i], read.values, branch) == v[i].(value := Replaced(v[i].value, own))
  {
    hide IsPlan, DecodeWords, ReadRanges, ChunkedOutcome, LinkDevice, LineTo, Refreshed, Replaced, Faithful, OutOfReach;
    var device, memory := LinkDevice(t, first, unit, bank, LineTo(t, unit, slave, cut)), slave.Registers(bank);
    AbandonedIff(v, branch, ranges, base);
    RowInMemory(v, branch, base, i);
    LinkIsFaithful(t, first, unit, bank, slave, cut);
    PollMirrorsMemory(v, branch, ranges, base, device, memory, k);
    RowsRefined(v, branch, ranges, base, device, memory, k, i, alone);
    ChunkedReadsMemory(device, memory, alone, base + v[i].offset, RegisterCount(v[i].kind));
  }

  /** A write the slave has room for: confirmed, carried out, and nothing else of the slave touched. */
  lemma {:induction false} WriteIsApplied(
    t: Transport, first: u16, unit: byte, link: Link, offset: u16, words: seq<u16>, cut: Cut)
    requires link.slave.Valid() && CutsOnly(cut) && link.sequence == SequenceAt(t, first, link.sent)
    requires 1 <= |words| <= 123 && offset + |words| <= ADDRESSES
    ensures var (after, answer) := Called(t, unit, link, WriteCall(offset, |words|, words), cut);
      && answer == Wrote(Success(()))
      && after == Link(SequenceAt(t, first, link.sent + 1), link.sent + 1,
                       Slave(Written(link.slave.holding, offset, words), link.slave.inputs))
  {
    hide Served, WriteOnce, Written;
    CallIsDirect(t, unit, link, WriteCall(offset, |words|, words), cut);
    SequenceAdvances(t, first, link.sent);
  }

  /**
   * An integer written to a row of the table over the wire is confirmed, and a
   * poll of the whole table that follows reads it back modulo the width of the
   * row's type, whatever the slave held before.  A row that shares no register
   * with it is read as it would have been before the write.
   */
  lemma {:induction false} WriteThenPoll(
    v: seq<Item>, branch: u32, ranges: seq<Range>, base: u16,
    t: Transport, first: u16, unit: byte, link: Link, cut: Cut, i: nat, value: u64, other: nat)
    requires IsPlan(v, branch, ranges) && Pollable(v, branch, base)
    requires link.slave.Valid() && CutsOnly(cut) && link.sequence == SequenceAt(t, first, link.sent)
    requires i < |v| && Decoded(v[i], branch) && !IsFloating(v[i].kind) && v[i].manualAddress < 0
    requires other < |v| && Decoded(v[other], branch)
    ensures forall r :: 0 <= r < |ranges| ==> Addressable(ranges[r], base)
    ensures base + v[other].offset + RegisterCount(v[other].kind) <= ADDRESSES
    ensures var words := EncodeValue(v[i], value);
            var address := ResolveAddress(v[i], base);
      && address.Some?
      && var (after, answer) := Called(t, unit, link, WriteCall(address.value, |words|, words), cut);
      && answer == Wrote(Success(()))
      && after.slave.inputs == link.slave.inputs && after.sequence == SequenceAt(t, first, after.sent)
      && var device := LinkDevice(t, first, unit, Holding, LineTo(t, unit, after.slave, cut));
         var values := ReadRanges(device, after.sent, ranges, base, NOTHING_READ).values;
      && Refreshed(v[i], values, branch).value == IntegerValue(value % Modulus(RegisterCount(v[i].kind)))
      && (Apart(v[i], v[other]) ==>
            Refreshed(v[other], values, branch).value
            == Replaced(v[other].value,
                        DecodeWords(v[other].kind, v[other].byteOrder, OwnWords(link.slave.holding, v[other], base))))
  {
    hide IsPlan, DecodeWords, EncodeValue, ReadRanges, LinkDevice, LineTo, Refreshed, OutOfReach, RowsFit, Called,
      Written;
    var item, words := v[i], EncodeValue(v[i], value);
    AbandonedIff(v, branch, ranges, base);
    RowInMemory(v, branch, base, i);
    RowInMemory(v, branch, base, other);
    WriteReadsBack(item, value);
    WriteIsApplied(t, first, unit, link, base + item.offset, words, cut);
    var after := Called(t, unit, link, WriteCall(base + item.offset, |words|, words), cut).0;
    PollRefinesRowReads(v, branch, ranges, base, t, first, unit, Holding, after.slave, cut, after.sent, i, 0);
    PollRefinesRowReads(v, branch, ranges, base, t, first, unit, Holding, after.slave, cut, after.sent, other, 0);
    WrittenWords(link.slave.holding, item, v[other], base, words);
  }

  /** The two rows decode different registers. */
  predicate Apart(a: Item, b: Item) {
    a.offset + RegisterCount(a.kind) <= b.offset || b.offset + RegisterCount(b.kind) <= a.offset
  }

  predicate Uses(item: Item, address: nat) {
    item.offset <= address < item.offset + RegisterCount(item.kind)
  }

  lemma ApartIff(a: Item, b: Item)
    ensures Apart(a, b) <==> forall address: nat :: !(Uses(a, address) && Uses(b, address))
  {
    if !Apart(a, b) {
      var address := if a.offset < b.offset then b.offset else a.offset;
      assert Uses(a, address) && Uses(b, address);
    }
  }

  lemma WrittenWords(memory: seq<u16>, item: Item, other: Item, base: u16, words: seq<u16>)
    requires |words| == RegisterCount(item.kind)
    requires base + item.offset + RegisterCount(item.kind) <= |memory|
    requires base + other.offset + RegisterCount(other.kind) <= |memory|
    ensures var after := Written(memory, base + item.offset, words);
      && OwnWords(after, item, base) == words
      && (Apart(item, other) ==> OwnWords(after, other, base) == OwnWords(memory, other, base))
  {}
}
