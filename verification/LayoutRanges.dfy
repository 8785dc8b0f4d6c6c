/** The poller's address ranges and the editor's groups are the same thing on a well-formed layout. */
module LayoutRanges {
  import opened Bytes
  import opened RegisterItems
  import opened LayoutSpec
  import opened LayoutLaws
  import opened RegisterGrouping

  /** The addresses of a group, as a range. */
  function GroupRange(v: seq<Item>, g: Group): Range
    requires g.first <= g.last < |v|
  {
    var start, end := v[g.first].offset, v[g.last].End();
    Range(start, if end >= start then end - start else 0)
  }

  /** The groups of a layout from a group boundary on, left to right. */
  function GroupsFrom(v: seq<Item>, from: nat): (groups: seq<Group>)
    requires WellFormed(v) && from <= |v|
    ensures forall k :: 0 <= k < |groups| ==> from <= groups[k].first <= groups[k].last < |v|
    decreases |v| - from
  {
    if from == |v| then []
    else
      GroupEndSucceeds(v, from);
      GroupEndIs(v, from, GroupEnd(v, from).value);
      var last := GroupEnd(v, from).value;
      [Group(from, last)] + GroupsFrom(v, last + 1)
  }

  function RangesOf(v: seq<Item>, groups: seq<Group>): (ranges: seq<Range>)
    requires forall k :: 0 <= k < |groups| ==> groups[k].first <= groups[k].last < |v|
    ensures |ranges| == |groups|
  {
    seq(|groups|, k requires 0 <= k < |groups| => GroupRange(v, groups[k]))
  }

  /** A boundary: nothing touches across it. */
  predicate Boundary(v: seq<Item>, at: nat) {
    at == 0 || at >= |v| || v[at - 1].End() < v[at].offset
  }

  lemma FirstGroup(v: seq<Item>, from: nat)
    requires WellFormed(v) && from < |v|
    ensures GroupEnd(v, from).Success?
    ensures var last := GroupEnd(v, from).value;
      && from <= last < |v|
      && GroupsFrom(v, from) == [Group(from, last)] + GroupsFrom(v, last + 1)
      && (Boundary(v, from) ==> IsGroup(v, from, Group(from, last)))
      && Boundary(v, last + 1)
  {
    GroupEndSucceeds(v, from);
    GroupEndIs(v, from, GroupEnd(v, from).value);
  }

  lemma {:induction false} GroupsAreGroups(v: seq<Item>, from: nat, k: nat)
    requires WellFormed(v) && from <= |v| && Boundary(v, from) && k < |GroupsFrom(v, from)|
    ensures IsGroup(v, GroupsFrom(v, from)[k].first, GroupsFrom(v, from)[k])
    decreases k
  {
    if from < |v| {
      FirstGroup(v, from);
      hide WellFormed, GroupsFrom, GroupEnd, IsGroup, Boundary;
      var last := GroupEnd(v, from).value;
      if k > 0 {
        assert GroupsFrom(v, from)[k] == GroupsFrom(v, last + 1)[k - 1];
        GroupsAreGroups(v, last + 1, k - 1);
      }
    }
  }

  /** Every row is in one of the groups. */
  lemma {:induction false} GroupHolding(v: seq<Item>, from: nat, i: nat) returns (k: nat)
    requires WellFormed(v) && from <= i < |v|
    ensures k < |GroupsFrom(v, from)|
    ensures GroupsFrom(v, from)[k].first <= i <= GroupsFrom(v, from)[k].last
    decreases |v| - from
  {
    GroupEndSucceeds(v, from);
    var last := GroupEnd(v, from).value;
    GroupEndIs(v, from, last);
    if i <= last {
      k := 0;
    } else {
      var rest := GroupHolding(v, last + 1, i);
      k := rest + 1;
      assert GroupsFrom(v, from)[k] == GroupsFrom(v, last + 1)[rest];
    }
  }

  /** Touching rows leave no hole: each address between their ends belongs to one of them. */
  lemma {:induction false} RowAtAddress(v: seq<Item>, first: nat, last: nat, a: int) returns (i: nat)
    requires first <= last < |v| && Contiguous(v, first, last)
    requires v[first].offset <= a < v[last].End()
    ensures first <= i <= last && v[i].offset <= a < v[i].End()
    decreases last - first
  {
    if a >= v[last].offset {
      i := last;
    } else {
      assert v[last - 1].End() == v[last].offset;
      i := RowAtAddress(v, first, last - 1, a);
    }
  }

  lemma {:induction false} OffsetsAscend(v: seq<Item>, i: nat, j: nat)
    requires WellFormed(v) && i <= j < |v|
    ensures v[i].offset <= v[j].offset && (i < j ==> v[i].End() <= v[j].offset)
    decreases j
  {
    if i < j {
      OffsetsAscend(v, i, j - 1);
      assert v[j - 1].Size() >= 1;
    }
  }

  lemma {:induction false} GroupsAscend(v: seq<Item>, from: nat, j: nat, k: nat)
    requires WellFormed(v) && from <= |v| && j < k < |GroupsFrom(v, from)|
    ensures GroupsFrom(v, from)[j].last < GroupsFrom(v, from)[k].first
    decreases j
  {
    hide WellFormed, Contiguous;
    GroupEndSucceeds(v, from);
    var last := GroupEnd(v, from).value;
    GroupEndIs(v, from, last);
    assert GroupsFrom(v, from)[k] == GroupsFrom(v, last + 1)[k - 1];
    if j > 0 {
      assert GroupsFrom(v, from)[j] == GroupsFrom(v, last + 1)[j - 1];
      GroupsAscend(v, last + 1, j - 1, k - 1);
    }
  }

  lemma GroupRangeEnds(v: seq<Item>, g: Group)
    requires WellFormed(v) && g.first <= g.last < |v|
    ensures GroupRange(v, g).count >= 1 && GroupRange(v, g).offset + GroupRange(v, g).count == v[g.last].End()
  {
    OffsetsAscend(v, g.first, g.last);
  }

  lemma GroupRangesNormal(v: seq<Item>)
    requires WellFormed(v)
    ensures NormalForm(RangesOf(v, GroupsFrom(v, 0)))
  {
    hide GroupsFrom, GroupRange, WellFormed, Contiguous;
    var groups := GroupsFrom(v, 0);
    var ranges := RangesOf(v, groups);
    forall k | 0 <= k < |ranges| ensures ranges[k].count >= 1 {
      GroupRangeEnds(v, groups[k]);
    }
    forall j, k | 0 <= j < k < |ranges| ensures ranges[j].offset + ranges[j].count < ranges[k].offset {
      GroupsAreGroups(v, 0, j);
      GroupsAscend(v, 0, j, k);
      GroupGap(v, groups[j], groups[k]);
    }
  }

  lemma GroupGap(v: seq<Item>, g: Group, h: Group)
    requires WellFormed(v) && IsGroup(v, g.first, g) && g.last < h.first <= h.last < |v|
    ensures GroupRange(v, g).offset + GroupRange(v, g).count < GroupRange(v, h).offset
  {
    GroupRangeEnds(v, g);
    OffsetsAscend(v, g.last + 1, h.first);
  }

  lemma GroupRangesCover(v: seq<Item>, branch: u32, a: int)
    requires WellFormed(v) && forall i :: 0 <= i < |v| ==> Picks(v[i], branch)
    ensures InRanges(RangesOf(v, GroupsFrom(v, 0)), a) <==> Covered(v, branch, a)
  {
    hide GroupsFrom, Picks, WellFormed, GroupRange;
    var groups := GroupsFrom(v, 0);
    var ranges := RangesOf(v, groups);
    if InRanges(ranges, a) {
      var k := RangeHolding(ranges, a);
      GroupsAreGroups(v, 0, k);
      GroupRangeIn(v, groups[k], a);
      var i := RowAtAddress(v, groups[k].first, groups[k].last, a);
      assert Picks(v[i], branch);
    }
    if Covered(v, branch, a) {
      var i :| 0 <= i < |v| && Picks(v[i], branch) && v[i].offset <= a < v[i].End();
      var k := GroupHolding(v, 0, i);
      OffsetsAscend(v, groups[k].first, i);
      OffsetsAscend(v, i, groups[k].last);
      EndsAscend(v, i, groups[k].last);
      GroupRangeIn(v, groups[k], a);
      assert InRange(ranges[k], a);
    }
  }

  lemma EndsAscend(v: seq<Item>, i: nat, j: nat)
    requires WellFormed(v) && i <= j < |v|
    ensures v[i].End() <= v[j].End()
  {
    OffsetsAscend(v, i, j);
  }

  lemma GroupRangeIn(v: seq<Item>, g: Group, a: int)
    requires WellFormed(v) && g.first <= g.last < |v|
    ensures InRange(GroupRange(v, g), a) <==> v[g.first].offset <= a < v[g.last].End()
  {
    GroupRangeEnds(v, g);
  }

  /**
   * On a well-formed layout whose rows all belong to the polled branch, the
   * ranges of a poll are exactly the groups the editor finds, left to right.
   */
  lemma RangesAreGroups(v: seq<Item>, branch: u32, ranges: seq<Range>)
    requires WellFormed(v) && forall i :: 0 <= i < |v| ==> Picks(v[i], branch)
    requires IsPlan(v, branch, ranges)
    ensures forall index, g {:trigger IsGroup(v, index, g)} :: IsGroup(v, index, g) ==> GroupRange(v, g) in ranges
    ensures forall r :: r in ranges ==> exists g: Group :: IsGroup(v, g.first, g) && GroupRange(v, g) == r
  {
    hide GroupsFrom, WellFormed, Picks, NormalForm, GroupRange;
    var groups := GroupsFrom(v, 0);
    var mine := RangesOf(v, groups);
    GroupRangesNormal(v);
    forall a: int ensures InRanges(ranges, a) <==> InRanges(mine, a) {
      GroupRangesCover(v, branch, a);
      assert InRanges(ranges, a) <==> Covered(v, branch, a);
    }
    NormalFormUnique(ranges, mine);
    forall r | r in ranges ensures exists g: Group :: IsGroup(v, g.first, g) && GroupRange(v, g) == r {
      var k :| 0 <= k < |ranges| && ranges[k] == r;
      GroupsAreGroups(v, 0, k);
    }
    forall index, g {:trigger IsGroup(v, index, g)} | IsGroup(v, index, g) ensures GroupRange(v, g) in ranges {
      GroupBounds(v, index, g);
      var k := GroupHolding(v, 0, index);
      GroupsAreGroups(v, 0, k);
      SameGroup(v, index, g, groups[k]);
      assert mine[k] == GroupRange(v, g);
    }
  }

  lemma SameGroup(v: seq<Item>, index: nat, g: Group, h: Group)
    requires IsGroup(v, index, g) && IsGroup(v, h.first, h) && h.first <= index <= h.last
    ensures g == h
  {
    FindGroupIs(v, index, g);
    FindGroupIs(v, index, h);
  }
}
