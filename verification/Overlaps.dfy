/** time_tracker_logic::DetectOverlaps: a sorted sweep that marks what the comparison of every pair would mark. */
module Overlaps {

  /** Seconds since the epoch. */
  datatype Interval = Interval(start: int, end: int)

  predicate Positive(a: Interval) { a.start < a.end }

  /** Two intervals overlap when they share time: touching at a bound is not enough, and an empty one shares none. */
  predicate Overlap(a: Interval, b: Interval) {
    Positive(a) && Positive(b) && a.start < b.end && b.start < a.end
  }

  predicate Lasts(a: Interval, t: int) { a.start <= t < a.end }

  /** That is, both last through some second. */
  lemma OverlapIff(a: Interval, b: Interval)
    ensures Overlap(a, b) <==> exists t: int :: Lasts(a, t) && Lasts(b, t)
  {
    if Overlap(a, b) {
      var t := if a.start < b.start then b.start else a.start;
      assert Lasts(a, t) && Lasts(b, t);
    }
  }

  predicate Flagged(s: seq<Interval>, i: nat)
    requires i < |s|
  {
    exists j :: 0 <= j < |s| && j != i && Overlap(s[i], s[j])
  }

  // ---------------------------------------------------------------- the order the sweep walks in

  predicate Indices(s: seq<Interval>, order: seq<nat>) {
    && |order| == |s|
    && (forall p :: 0 <= p < |order| ==> order[p] < |s|)
    && (forall p, q :: 0 <= p < q < |order| ==> order[p] != order[q])
    && (forall i: nat :: i < |s| ==> i in order)
  }

  /** Any order a sort by start may leave, whatever it does with equal starts. */
  predicate IsOrder(s: seq<Interval>, order: seq<nat>) {
    && Indices(s, order)
    && forall p, q :: 0 <= p < q < |order| ==> s[order[p]].start <= s[order[q]].start
  }

  // ---------------------------------------------------------------- the sweep

  /** Interval i is in an overlapping pair (p, q) of the order that comes before (left, right). */
  ghost predicate Seen(s: seq<Interval>, order: seq<nat>, left: nat, right: nat, i: nat)
    requires Indices(s, order)
  {
    exists p, q :: PairBefore(s, order, left, right, i, p, q)
  }

  predicate PairBefore(s: seq<Interval>, order: seq<nat>, left: nat, right: nat, i: nat, p: int, q: int)
    requires Indices(s, order)
  {
    && 0 <= p < q < |order| && (p < left || (p == left && q < right))
    && (order[p] == i || order[q] == i) && Overlap(s[order[p]], s[order[q]])
  }

  lemma NextPair(s: seq<Interval>, order: seq<nat>, left: nat, right: nat, i: nat)
    requires Indices(s, order) && left < right < |order|
    ensures Seen(s, order, left, right + 1, i) <==>
      Seen(s, order, left, right, i)
      || ((order[left] == i || order[right] == i) && Overlap(s[order[left]], s[order[right]]))
  {
    if (order[left] == i || order[right] == i) && Overlap(s[order[left]], s[order[right]]) {
      assert PairBefore(s, order, left, right + 1, i, left, right);
    }
    if Seen(s, order, left, right, i) {
      var p, q :| PairBefore(s, order, left, right, i, p, q);
      assert PairBefore(s, order, left, right + 1, i, p, q);
    }
    if Seen(s, order, left, right + 1, i) {
      var p, q :| PairBefore(s, order, left, right + 1, i, p, q);
      assert (p == left && q == right) || PairBefore(s, order, left, right, i, p, q);
    }
  }

  /** From `right` on nothing overlaps order[left]: the row is done. */
  lemma RowDone(s: seq<Interval>, order: seq<nat>, left: nat, right: nat, i: nat)
    requires Indices(s, order) && left < right <= |order|
    requires forall q :: right <= q < |order| ==> !Overlap(s[order[left]], s[order[q]])
    ensures Seen(s, order, left + 1, left + 2, i) <==> Seen(s, order, left, right, i)
  {
    if Seen(s, order, left + 1, left + 2, i) {
      var p, q :| PairBefore(s, order, left + 1, left + 2, i, p, q);
      assert PairBefore(s, order, left, right, i, p, q);
    }
    if Seen(s, order, left, right, i) {
      var p, q :| PairBefore(s, order, left, right, i, p, q);
      assert PairBefore(s, order, left + 1, left + 2, i, p, q);
    }
  }

  lemma NothingSeen(s: seq<Interval>, order: seq<nat>, i: nat)
    requires Indices(s, order)
    ensures !Seen(s, order, 0, 1, i)
  {}

  lemma AllSeen(s: seq<Interval>, order: seq<nat>, i: nat)
    requires Indices(s, order) && i < |s|
    ensures Seen(s, order, |order|, |order| + 1, i) <==> Flagged(s, i)
  {
    if Seen(s, order, |order|, |order| + 1, i) {
      var p, q :| PairBefore(s, order, |order|, |order| + 1, i, p, q);
      var j := if order[p] == i then order[q] else order[p];
      assert j != i && Overlap(s[i], s[j]);
    }
    if Flagged(s, i) {
      var j :| 0 <= j < |s| && j != i && Overlap(s[i], s[j]);
      assert i in order && j in order;
      var p :| 0 <= p < |order| && order[p] == i;
      var q :| 0 <= q < |order| && order[q] == j;
      assert if p < q then PairBefore(s, order, |order|, |order| + 1, i, p, q)
             else PairBefore(s, order, |order|, |order| + 1, i, q, p);
    }
  }

  /** The nested loops over any sorted order: an interval is marked iff another one overlaps it. */
  method Sweep(intervals: seq<Interval>, order: seq<nat>) returns (overlaps: seq<bool>)
    requires IsOrder(intervals, order)
    ensures |overlaps| == |intervals|
    ensures forall i :: 0 <= i < |intervals| ==> overlaps[i] == Flagged(intervals, i)
  {
    hide Seen, Flagged;
    overlaps := seq(|intervals|, _ => false);
    forall i: nat | i < |intervals| ensures !Seen(intervals, order, 0, 1, i) {
      NothingSeen(intervals, order, i);
    }
    var left: nat := 0;
    while left < |order|
      invariant left <= |order| && |overlaps| == |intervals|
      invariant forall i: nat :: i < |intervals| ==> overlaps[i] == Seen(intervals, order, left, left + 1, i)
    {
      var first := intervals[order[left]];
      var right := left + 1;
      if first.end > first.start {
        while right < |order|
          invariant left < right <= |order| && |overlaps| == |intervals|
          invariant forall i: nat :: i < |intervals| ==> overlaps[i] == Seen(intervals, order, left, right, i)
        {
          var second := intervals[order[right]];
          if second.start >= first.end {
            break;
          }
          forall i: nat | i < |intervals|
            ensures Seen(intervals, order, left, right + 1, i) <==>
              Seen(intervals, order, left, right, i)
              || ((order[left] == i || order[right] == i) && Overlap(first, second))
          {
            NextPair(intervals, order, left, right, i);
          }
          ghost var was := overlaps;
          assert Overlap(first, second) == (second.end > second.start && second.end > first.start);
          if second.end > second.start && second.end > first.start {
            overlaps := overlaps[order[left] := true][order[right] := true];
          }
          forall i: nat | i < |intervals| ensures overlaps[i] == Seen(intervals, order, left, right + 1, i) {
            assert was[i] == Seen(intervals, order, left, right, i);
            assert overlaps[i] == (was[i] || ((order[left] == i || order[right] == i) && Overlap(first, second)));
          }
          right := right + 1;
        }
      }
      forall i: nat | i < |intervals|
        ensures Seen(intervals, order, left + 1, left + 2, i) == Seen(intervals, order, left, right, i)
      {
        RowDone(intervals, order, left, right, i);
      }
      left := left + 1;
    }
    forall i: nat | i < |intervals| ensures overlaps[i] == Flagged(intervals, i) {
      AllSeen(intervals, order, i);
    }
  }

  // ---------------------------------------------------------------- sorting the indices

  predicate ByStart(s: seq<Interval>, order: seq<nat>) {
    && (forall p :: 0 <= p < |order| ==> order[p] < |s|)
    && forall p, q :: 0 <= p < q < |order| ==> s[order[p]].start <= s[order[q]].start
  }

  /** std::iota and std::ranges::sort by start; the sort is not stable, so callers rely on IsOrder only. */
  method SortedIndices(s: seq<Interval>) returns (order: seq<nat>)
    ensures IsOrder(s, order)
  {
    hide ByStart, Indices;
    order := [];
    EmptyOrder(s);
    for i := 0 to |s|
      invariant |order| == i && ByStart(s, order) && Indices(s[..i], order)
    {
      var at: nat := i;
      OrderInRange(s, order);
      while at > 0 && s[order[at - 1]].start > s[i].start
        invariant at <= i
        invariant forall p :: at <= p < i ==> s[order[p]].start > s[i].start
      {
        at := at - 1;
      }
      InsertKeepsIndices(s, order, i, at);
      InsertKeepsOrder(s, order, i, at);
      order := order[..at] + [i] + order[at..];
    }
    assert s[..|s|] == s;
    assert IsOrder(s, order) by { OrderIs(s, order); }
  }

  lemma EmptyOrder(s: seq<Interval>)
    ensures ByStart(s, []) && Indices(s[..0], [])
  {}

  lemma OrderInRange(s: seq<Interval>, order: seq<nat>)
    requires ByStart(s, order)
    ensures forall p :: 0 <= p < |order| ==> order[p] < |s|
  {}

  lemma OrderIs(s: seq<Interval>, order: seq<nat>)
    requires ByStart(s, order) && Indices(s, order)
    ensures IsOrder(s, order)
  {}

  lemma InsertKeepsIndices(s: seq<Interval>, order: seq<nat>, i: nat, at: nat)
    requires i < |s| && at <= |order| == i && Indices(s[..i], order)
    ensures Indices(s[..i + 1], order[..at] + [i] + order[at..])
  {
    var next := order[..at] + [i] + order[at..];
    assert |next| == i + 1;
    assert forall p :: 0 <= p <= i ==> next[p] == if p < at then order[p] else if p == at then i else order[p - 1];
    forall k: nat | k <= i ensures k in next {
      if k < i {
        assert k in order && order == order[..at] + order[at..];
      }
    }
  }

  lemma InsertKeepsOrder(s: seq<Interval>, order: seq<nat>, i: nat, at: nat)
    requires i < |s| && at <= |order| && ByStart(s, order)
    requires forall p :: at <= p < |order| ==> s[order[p]].start > s[i].start
    requires at > 0 ==> order[at - 1] < |s| && s[order[at - 1]].start <= s[i].start
    ensures ByStart(s, order[..at] + [i] + order[at..])
  {
    var next := order[..at] + [i] + order[at..];
    assert forall p :: 0 <= p < |next| ==> next[p] == if p < at then order[p] else if p == at then i else order[p - 1];
  }

  /** The marks do not depend on how the sort breaks ties: they are those of comparing every pair. */
  method DetectOverlaps(intervals: seq<Interval>) returns (overlaps: seq<bool>)
    ensures |overlaps| == |intervals|
    ensures forall i :: 0 <= i < |intervals| ==> overlaps[i] == Flagged(intervals, i)
  {
    var order := SortedIndices(intervals);
    overlaps := Sweep(intervals, order);
  }
}
