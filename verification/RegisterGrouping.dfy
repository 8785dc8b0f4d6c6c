/** Merging register rows into address ranges. */
module RegisterGrouping {
  import opened Bytes
  import opened Bitwise
  import opened RegisterItems

  datatype Range = Range(offset: nat, count: nat)

  /** A row takes part in polling a branch. */
  predicate Picks(item: Item, branch: u32) {
    SharesBit(item.branches, branch)
  }

  // ---------------------------------------------------------------- what the ranges mean

  ghost predicate InRange(r: Range, a: int) {
    r.offset <= a < r.offset + r.count
  }

  ghost predicate InRanges(ranges: seq<Range>, a: int) {
    exists k :: 0 <= k < |ranges| && InRange(ranges[k], a)
  }

  /** Some row of the branch occupies the address. */
  ghost predicate Covered(v: seq<Item>, branch: u32, a: int) {
    exists i :: 0 <= i < |v| && Picks(v[i], branch) && v[i].offset <= a < v[i].End()
  }

  /** Non-empty ranges in address order, at least one unused address between neighbours. */
  ghost predicate NormalForm(ranges: seq<Range>) {
    && (forall k :: 0 <= k < |ranges| ==> ranges[k].count >= 1)
    && (forall j, k :: 0 <= j < k < |ranges| ==> ranges[j].offset + ranges[j].count < ranges[k].offset)
  }

  /** The ranges a poll of the branch reads. */
  ghost predicate IsPlan(v: seq<Item>, branch: u32, ranges: seq<Range>) {
    && NormalForm(ranges)
    && (forall a: int :: InRanges(ranges, a) <==> Covered(v, branch, a))
  }

  /** So an address is read exactly when a row that occupies it and the branch have a bit at the same place. */
  lemma PlannedIff(v: seq<Item>, branch: u32, ranges: seq<Range>, a: int)
    requires IsPlan(v, branch, ranges)
    ensures InRanges(ranges, a) <==>
      exists i: nat, k: nat ::
        i < |v| && v[i].offset <= a < v[i].offset + v[i].Size()
        && Shift(v[i].branches, k) % 2 == 1 && Shift(branch, k) % 2 == 1
  {
    assert InRanges(ranges, a) <==> Covered(v, branch, a);
    if Covered(v, branch, a) {
      var i :| 0 <= i < |v| && Picks(v[i], branch) && v[i].offset <= a < v[i].End();
      var k := SharedPlace(v[i].branches, branch);
    }
    if i: nat, k: nat :| i < |v| && v[i].offset <= a < v[i].offset + v[i].Size()
                         && Shift(v[i].branches, k) % 2 == 1 && Shift(branch, k) % 2 == 1 {
      PlaceIsShared(v[i].branches, branch, k);
      assert Picks(v[i], branch);
    }
  }

  lemma RangeHolding(ranges: seq<Range>, a: int) returns (k: int)
    requires InRanges(ranges, a)
    ensures 0 <= k < |ranges| && InRange(ranges[k], a)
  {
    k :| 0 <= k < |ranges| && InRange(ranges[k], a);
  }

  lemma {:induction false} NormalFormAt(p: seq<Range>, q: seq<Range>, k: nat)
    requires NormalForm(p) && NormalForm(q) && k < |p| && k <= |q| && p[..k] == q[..k]
    requires forall a: int :: InRanges(p, a) <==> InRanges(q, a)
    ensures k < |q| && q[k].offset <= p[k].offset
  {
    var start := p[k].offset;
    assert InRange(p[k], start);
    assert InRanges(p, start);
    var m := RangeHolding(q, start);
    assert forall j :: 0 <= j < k ==> q[j] == q[..k][j] == p[..k][j] == p[j];
    assert m >= k;
  }

  /** The address right after a range is in none of them. */
  lemma EndIsFree(q: seq<Range>, k: nat)
    requires NormalForm(q) && k < |q|
    ensures !InRanges(q, q[k].offset + q[k].count)
  {
    var end := q[k].offset + q[k].count;
    forall m | 0 <= m < |q| ensures !InRange(q[m], end) {
      if m < k {
        assert q[m].offset + q[m].count < q[k].offset;
      } else if m > k {
        assert end < q[m].offset;
      }
    }
  }

  lemma SameEnd(p: seq<Range>, q: seq<Range>, k: nat)
    requires NormalForm(q) && k < |p| && k < |q|
    requires forall a: int :: InRanges(p, a) <==> InRanges(q, a)
    requires p[k].offset == q[k].offset
    ensures p[k].count <= q[k].count
  {
    EndIsFree(q, k);
    assert !InRange(p[k], q[k].offset + q[k].count);
  }

  lemma {:induction false} NormalFormPrefix(p: seq<Range>, q: seq<Range>, k: nat)
    requires NormalForm(p) && NormalForm(q) && k <= |p|
    requires forall a: int :: InRanges(p, a) <==> InRanges(q, a)
    ensures k <= |q| && p[..k] == q[..k]
    decreases k
  {
    if k > 0 {
      var i := k - 1;
      NormalFormPrefix(p, q, i);
      NormalFormAt(p, q, i);
      NormalFormAt(q, p, i);
      SameEnd(p, q, i);
      SameEnd(q, p, i);
      assert p[..k] == p[..i] + [p[i]] && q[..k] == q[..i] + [q[i]];
    }
  }

  /** A set of addresses has one normal form. */
  lemma NormalFormUnique(p: seq<Range>, q: seq<Range>)
    requires NormalForm(p) && NormalForm(q)
    requires forall a: int :: InRanges(p, a) <==> InRanges(q, a)
    ensures p == q
  {
    NormalFormPrefix(p, q, |p|);
    NormalFormPrefix(q, p, |q|);
  }

  /** The plan depends on the occupied addresses only: not on the order of the rows, nor on how they overlap. */
  lemma PlanUnique(v: seq<Item>, w: seq<Item>, branch: u32, p: seq<Range>, q: seq<Range>)
    requires IsPlan(v, branch, p) && IsPlan(w, branch, q)
    requires forall a: int :: Covered(v, branch, a) <==> Covered(w, branch, a)
    ensures p == q
  {
    forall a: int ensures InRanges(p, a) <==> InRanges(q, a) {
      assert InRanges(p, a) <==> Covered(v, branch, a);
    }
    NormalFormUnique(p, q);
  }

  // ---------------------------------------------------------------- sorting the rows' extents

  datatype Extent = Extent(start: nat, size: nat)

  /** The order of std::pair. */
  predicate Below(a: Extent, b: Extent) {
    a.start < b.start || (a.start == b.start && a.size <= b.size)
  }

  predicate Sorted(s: seq<Extent>) {
    forall i, j :: 0 <= i < j < |s| ==> Below(s[i], s[j])
  }

  function InsertExtent(x: Extent, s: seq<Extent>): seq<Extent> {
    if s == [] || Below(x, s[0]) then [x] + s else [s[0]] + InsertExtent(x, s[1..])
  }

  /** The sorted arrangement, which is the one std::sort produces: equal pairs are interchangeable. */
  function SortExtents(s: seq<Extent>): seq<Extent> {
    if s == [] then [] else InsertExtent(s[0], SortExtents(s[1..]))
  }

  lemma {:induction false} InsertSorts(x: Extent, s: seq<Extent>)
    requires Sorted(s)
    ensures Sorted(InsertExtent(x, s)) && |InsertExtent(x, s)| == |s| + 1
    ensures forall e :: e in InsertExtent(x, s) <==> e == x || e in s
  {
    if s != [] && !Below(x, s[0]) {
      var rest := InsertExtent(x, s[1..]);
      InsertSorts(x, s[1..]);
      assert s == [s[0]] + s[1..];
      forall j | 0 <= j < |rest| ensures Below(s[0], rest[j]) {
        assert rest[j] in rest;
        if rest[j] != x {
          var k :| 0 <= k < |s[1..]| && s[1..][k] == rest[j];
          assert Below(s[0], s[k + 1]);
        }
      }
    }
  }

  lemma {:induction false} SortSorts(s: seq<Extent>)
    ensures Sorted(SortExtents(s)) && |SortExtents(s)| == |s|
    ensures forall e :: e in SortExtents(s) <==> e in s
  {
    if s != [] {
      SortSorts(s[1..]);
      InsertSorts(s[0], SortExtents(s[1..]));
      assert s == [s[0]] + s[1..];
    }
  }

  // ---------------------------------------------------------------- the sweep

  ghost predicate InExtents(s: seq<Extent>, a: int) {
    exists e :: e in s && e.start <= a < e.start + e.size
  }

  method BuildContiguousRanges(items: seq<ModbusItem>, branch: u32) returns (grouped: seq<Range>)
    ensures IsPlan(Views(items), branch, grouped)
  {
    var extents: seq<Extent> := [];
    for i := 0 to |items|
      invariant forall e :: e in extents ==> e.size > 0
      invariant forall a: int :: InExtents(extents, a) <==> Covered(Views(items)[..i], branch, a)
    {
      var item := items[i].View();
      assert Views(items)[..i + 1] == Views(items)[..i] + [item];
      CoveredOneMore(Views(items)[..i], item, branch);
      if SharesBit(items[i].branches, branch) && items[i].Size() != 0 {
        ExtentsOneMore(extents, Extent(items[i].offset, items[i].Size()));
        extents := extents + [Extent(items[i].offset, items[i].Size())];
      }
    }
    assert Views(items)[..|items|] == Views(items);
    if extents == [] {
      return [];
    }
    var sorted := SortExtents(extents);
    SortSorts(extents);
    grouped := Sweep(sorted);
  }

  lemma CoveredOneMore(v: seq<Item>, item: Item, branch: u32)
    ensures forall a: int :: Covered(v + [item], branch, a) <==>
      Covered(v, branch, a) || (Picks(item, branch) && item.offset <= a < item.End())
  {
    forall a: int ensures Covered(v + [item], branch, a) <==>
      Covered(v, branch, a) || (Picks(item, branch) && item.offset <= a < item.End())
    {
      var w := v + [item];
      if Covered(v, branch, a) {
        var i :| 0 <= i < |v| && Picks(v[i], branch) && v[i].offset <= a < v[i].End();
        assert w[i] == v[i];
      }
      if Picks(item, branch) && item.offset <= a < item.End() {
        assert w[|v|] == item;
      }
    }
  }

  lemma ExtentsOneMore(s: seq<Extent>, x: Extent)
    ensures forall a: int :: InExtents(s + [x], a) <==> InExtents(s, a) || x.start <= a < x.start + x.size
  {
    forall a: int ensures InExtents(s + [x], a) <==> InExtents(s, a) || x.start <= a < x.start + x.size {
      if x.start <= a < x.start + x.size {
        assert x in s + [x];
      }
      if InExtents(s, a) {
        var e :| e in s && e.start <= a < e.start + e.size;
        assert e in s + [x];
      }
    }
  }

  /** The closed ranges and the open one, as a plan of the extents seen so far. */
  ghost predicate Swept(seen: seq<Extent>, grouped: seq<Range>, start: nat, end: nat) {
    && start < end
    && NormalForm(grouped + [Range(start, end - start)])
    && (forall a: int :: InRanges(grouped + [Range(start, end - start)], a) <==> InExtents(seen, a))
    && (forall e :: e in seen ==> e.start + e.size <= end)
    && (exists e :: e in seen && e.start == start)
  }

  method Sweep(sorted: seq<Extent>) returns (grouped: seq<Range>)
    requires sorted != [] && Sorted(sorted) && forall e :: e in sorted ==> e.size > 0
    ensures NormalForm(grouped)
    ensures forall a: int :: InRanges(grouped, a) <==> InExtents(sorted, a)
  {
    hide InRanges, InExtents;
    grouped := [];
    var start: nat := sorted[0].start;
    var end: nat := start + sorted[0].size;
    SweepStarts(sorted[0]);
    assert sorted[..1] == [sorted[0]];
    for i := 1 to |sorted|
      invariant Swept(sorted[..i], grouped, start, end)
    {
      var nextStart := sorted[i].start;
      var nextEnd := nextStart + sorted[i].size;
      assert sorted[..i + 1] == sorted[..i] + [sorted[i]];
      assert forall e :: e in sorted[..i] ==> e.start <= nextStart;
      if nextStart <= end {
        SweepMerges(sorted[..i], grouped, start, end, sorted[i]);
        end := if end < nextEnd then nextEnd else end;
      } else {
        SweepCloses(sorted[..i], grouped, start, end, sorted[i]);
        grouped := grouped + [Range(start, end - start)];
        start := nextStart;
        end := nextEnd;
      }
    }
    assert sorted[..|sorted|] == sorted;
    grouped := grouped + [Range(start, end - start)];
  }

  lemma InRangesSnoc(ranges: seq<Range>, r: Range, a: int)
    ensures InRanges(ranges + [r], a) <==> InRanges(ranges, a) || InRange(r, a)
  {
    if InRanges(ranges, a) {
      var k := RangeHolding(ranges, a);
      assert (ranges + [r])[k] == ranges[k];
    }
    if InRange(r, a) {
      assert (ranges + [r])[|ranges|] == r;
    }
  }

  lemma SweepStarts(e: Extent)
    requires e.size > 0
    ensures Swept([e], [], e.start, e.start + e.size)
  {
    forall a: int ensures InRanges([] + [Range(e.start, e.size)], a) <==> InExtents([e], a) {
      InRangesSnoc([], Range(e.start, e.size), a);
      assert e in [e];
    }
    assert e in [e];
  }

  lemma SweepMerges(seen: seq<Extent>, grouped: seq<Range>, start: nat, end: nat, next: Extent)
    requires Swept(seen, grouped, start, end) && next.size > 0
    requires start <= next.start <= end
    ensures Swept(seen + [next], grouped, start, if end < next.start + next.size then next.start + next.size else end)
  {
    var end' := if end < next.start + next.size then next.start + next.size else end;
    var open_, open' := Range(start, end - start), Range(start, end' - start);
    ExtentsOneMore(seen, next);
    forall a: int ensures InRanges(grouped + [open'], a) <==> InExtents(seen + [next], a) {
      InRangesSnoc(grouped, open_, a);
      InRangesSnoc(grouped, open', a);
      assert InRanges(grouped + [open_], a) <==> InExtents(seen, a);
      assert InRange(open', a) <==> InRange(open_, a) || next.start <= a < next.start + next.size;
    }
    LastGrows(grouped, open_, open');
    var e :| e in seen && e.start == start;
    assert e in seen + [next];
  }

  lemma LastGrows(grouped: seq<Range>, last: Range, longer: Range)
    requires NormalForm(grouped + [last]) && longer.offset == last.offset && longer.count >= last.count
    ensures NormalForm(grouped + [longer])
  {
    var p, q := grouped + [last], grouped + [longer];
    assert p[|grouped|] == last;
    forall j, k | 0 <= j < k < |q| ensures q[j].offset + q[j].count < q[k].offset {
      assert p[j].offset + p[j].count < p[k].offset;
    }
    forall k | 0 <= k < |q| ensures q[k].count >= 1 {
      assert p[k].count >= 1;
    }
  }

  lemma SweepCloses(seen: seq<Extent>, grouped: seq<Range>, start: nat, end: nat, next: Extent)
    requires Swept(seen, grouped, start, end) && next.size > 0 && end < next.start
    ensures Swept(seen + [next], grouped + [Range(start, end - start)], next.start, next.start + next.size)
  {
    var closed, open_ := grouped + [Range(start, end - start)], Range(next.start, next.size);
    ExtentsOneMore(seen, next);
    forall a: int ensures InRanges(closed + [open_], a) <==> InExtents(seen + [next], a) {
      InRangesSnoc(closed, open_, a);
      assert InRanges(closed, a) <==> InExtents(seen, a);
    }
    forall j | 0 <= j < |closed| ensures closed[j].offset + closed[j].count < next.start {
      if j < |closed| - 1 {
        assert closed[j].offset + closed[j].count < closed[|closed| - 1].offset;
      }
    }
    assert next in seen + [next];
  }
}
