/** The worked time of a month: what is shown per day, and why it adds up. */
module WorkTotals {
  import opened Overlaps

  const SECONDS_PER_DAY := 86400

  function DateOf(time: int): int { time / SECONDS_PER_DAY }

  function TimeOfDay(time: int): int { time % SECONDS_PER_DAY }

  /** Dates are days since the epoch, also before it. */
  lemma TimeSplits(time: int)
    ensures time == 86400 * DateOf(time) + TimeOfDay(time) && 0 <= TimeOfDay(time) < 86400
  {}

  /** An interval counts when it is positive and nothing overlaps it. */
  predicate Counted(s: seq<Interval>, i: nat)
    requires i < |s|
  {
    Positive(s[i]) && !Flagged(s, i)
  }

  function Seconds(s: seq<Interval>, i: nat): int
    requires i < |s|
  {
    if Counted(s, i) then s[i].end - s[i].start else 0
  }

  /** That is, the length of a positive interval that shares no second with another positive one, else nothing. */
  lemma SecondsAre(s: seq<Interval>, i: nat)
    requires i < |s|
    ensures Seconds(s, i) ==
      if s[i].start < s[i].end
         && forall j :: 0 <= j < |s| && j != i && s[j].start < s[j].end ==>
              s[j].end <= s[i].start || s[i].end <= s[j].start
      then s[i].end - s[i].start else 0
  {
    if Counted(s, i) {
      forall j | 0 <= j < |s| && j != i && s[j].start < s[j].end
        ensures s[j].end <= s[i].start || s[i].end <= s[j].start
      {
        assert !Overlap(s[i], s[j]);
      }
    }
  }

  /** The time worked in the first n intervals. */
  function Worked(s: seq<Interval>, n: nat): int
    requires n <= |s|
  {
    if n == 0 then 0 else Worked(s, n - 1) + Seconds(s, n - 1)
  }

  // ---------------------------------------------------------------- per day

  /** The day of the month an interval starts on; `day` is the calendar's day number of a date. */
  function DayOf(s: seq<Interval>, day: int -> int, i: nat): int
    requires i < |s|
  {
    day(DateOf(s[i].start))
  }

  function DayTotal(s: seq<Interval>, day: int -> int, d: int, n: nat): int
    requires n <= |s|
  {
    if n == 0 then 0
    else DayTotal(s, day, d, n - 1) + if DayOf(s, day, n - 1) == d then Seconds(s, n - 1) else 0
  }

  /** Interval i is the first unflagged one of its day, so its row carries the day's total. */
  predicate CarriesTotal(s: seq<Interval>, day: int -> int, i: nat)
    requires i < |s|
  {
    !Flagged(s, i) && forall j: nat :: j < i && DayOf(s, day, j) == DayOf(s, day, i) ==> Flagged(s, j)
  }

  function TotalShown(s: seq<Interval>, day: int -> int, i: nat): int
    requires i < |s|
  {
    if CarriesTotal(s, day, i) then DayTotal(s, day, DayOf(s, day, i), |s|) else 0
  }

  /** The sum of the day totals in the first n rows. */
  function Shown(s: seq<Interval>, day: int -> int, n: nat): int
    requires n <= |s|
  {
    if n == 0 then 0 else Shown(s, day, n - 1) + TotalShown(s, day, n - 1)
  }

  /** The time worked in the first n intervals on the given days. */
  function WorkedOn(s: seq<Interval>, day: int -> int, days: set<int>, n: nat): int
    requires n <= |s|
  {
    if n == 0 then 0
    else WorkedOn(s, day, days, n - 1) + if DayOf(s, day, n - 1) in days then Seconds(s, n - 1) else 0
  }

  lemma {:induction false} OneMoreDay(s: seq<Interval>, day: int -> int, days: set<int>, d: int, n: nat)
    requires n <= |s| && d !in days
    ensures WorkedOn(s, day, days + {d}, n) == WorkedOn(s, day, days, n) + DayTotal(s, day, d, n)
  {
    if n > 0 {
      OneMoreDay(s, day, days, d, n - 1);
    }
  }

  lemma {:induction false} NoDays(s: seq<Interval>, day: int -> int, n: nat)
    requires n <= |s|
    ensures WorkedOn(s, day, {}, n) == 0
  {
    if n > 0 {
      NoDays(s, day, n - 1);
    }
  }

  lemma {:induction false} AllDays(s: seq<Interval>, day: int -> int, days: set<int>, n: nat)
    requires n <= |s|
    requires forall i: nat :: i < n && !Flagged(s, i) ==> DayOf(s, day, i) in days
    ensures WorkedOn(s, day, days, n) == Worked(s, n)
  {
    if n > 0 {
      AllDays(s, day, days, n - 1);
    }
  }

  /** The days with an unflagged interval among the first n. */
  function OpenDays(s: seq<Interval>, day: int -> int, n: nat): set<int>
    requires n <= |s|
  {
    if n == 0 then {} else OpenDays(s, day, n - 1) + if Flagged(s, n - 1) then {} else {DayOf(s, day, n - 1)}
  }

  lemma {:induction false} OpenDaysAre(s: seq<Interval>, day: int -> int, n: nat, d: int)
    requires n <= |s|
    ensures d in OpenDays(s, day, n) <==> exists i: nat :: i < n && !Flagged(s, i) && DayOf(s, day, i) == d
  {
    if n > 0 {
      OpenDaysAre(s, day, n - 1, d);
      if d in OpenDays(s, day, n) && d !in OpenDays(s, day, n - 1) {
        assert !Flagged(s, n - 1) && DayOf(s, day, n - 1) == d;
      }
    }
  }

  lemma {:induction false} CarriesIffNewDay(s: seq<Interval>, day: int -> int, i: nat)
    requires i < |s|
    ensures CarriesTotal(s, day, i) <==> !Flagged(s, i) && DayOf(s, day, i) !in OpenDays(s, day, i)
  {
    OpenDaysAre(s, day, i, DayOf(s, day, i));
  }

  lemma {:induction false} ShownIsOpenDays(s: seq<Interval>, day: int -> int, n: nat)
    requires n <= |s|
    ensures Shown(s, day, n) == WorkedOn(s, day, OpenDays(s, day, n), |s|)
  {
    hide Flagged, CarriesTotal;
    if n == 0 {
      NoDays(s, day, |s|);
    } else {
      ShownIsOpenDays(s, day, n - 1);
      CarriesIffNewDay(s, day, n - 1);
      var days, d := OpenDays(s, day, n - 1), DayOf(s, day, n - 1);
      if CarriesTotal(s, day, n - 1) {
        OneMoreDay(s, day, days, d, |s|);
      } else {
        assert OpenDays(s, day, n) == days;
      }
    }
  }

  /** Grouping by day conserves the total: the day totals that are shown add up to the time worked. */
  lemma ShownIsWorked(s: seq<Interval>, day: int -> int)
    ensures Shown(s, day, |s|) == Worked(s, |s|)
  {
    hide Flagged;
    ShownIsOpenDays(s, day, |s|);
    forall i: nat | i < |s| && !Flagged(s, i) ensures DayOf(s, day, i) in OpenDays(s, day, |s|) {
      OpenDaysAre(s, day, |s|, DayOf(s, day, i));
    }
    AllDays(s, day, OpenDays(s, day, |s|), |s|);
  }

  // ---------------------------------------------------------------- no more than the span

  function Moments(lo: int, hi: int): (r: set<int>)
    ensures forall t :: t in r <==> lo <= t < hi
    ensures |r| == if lo <= hi then hi - lo else 0
    decreases hi - lo
  {
    if lo >= hi then {} else Moments(lo, hi - 1) + {hi - 1}
  }

  /** The seconds in which counted work was done. */
  function Busy(s: seq<Interval>, n: nat): set<int>
    requires n <= |s|
  {
    if n == 0 then {}
    else Busy(s, n - 1) + if Counted(s, n - 1) then Moments(s[n - 1].start, s[n - 1].end) else {}
  }

  lemma {:induction false} BusyIsCounted(s: seq<Interval>, n: nat, t: int)
    requires n <= |s| && t in Busy(s, n)
    ensures exists i: nat :: i < n && Counted(s, i) && s[i].start <= t < s[i].end
  {
    if t in Busy(s, n - 1) {
      BusyIsCounted(s, n - 1, t);
    } else {
      assert Counted(s, n - 1);
    }
  }

  lemma NewSeconds(s: seq<Interval>, n: nat)
    requires n < |s| && Counted(s, n)
    ensures Busy(s, n) !! Moments(s[n].start, s[n].end)
  {
    hide Counted, Busy, Moments;
    forall t | t in Busy(s, n) ensures t !in Moments(s[n].start, s[n].end) {
      BusyIsCounted(s, n, t);
      var i: nat :| i < n && Counted(s, i) && s[i].start <= t < s[i].end;
      CountedApart(s, n, i);
    }
  }

  lemma DisjointSize(a: set<int>, b: set<int>)
    requires a !! b
    ensures |a + b| == |a| + |b|
  {}

  /** Counted intervals share no second, so their lengths add up to the number of busy seconds. */
  lemma {:induction false} WorkedIsBusy(s: seq<Interval>, n: nat)
    requires n <= |s|
    ensures |Busy(s, n)| == Worked(s, n)
  {
    hide Counted, Moments;
    if n > 0 {
      WorkedIsBusy(s, n - 1);
      if Counted(s, n - 1) {
        NewSeconds(s, n - 1);
        DisjointSize(Busy(s, n - 1), Moments(s[n - 1].start, s[n - 1].end));
        PositiveLength(s, n - 1);
      } else {
        assert Busy(s, n) == Busy(s, n - 1);
      }
    }
  }

  lemma PositiveLength(s: seq<Interval>, i: nat)
    requires i < |s| && Counted(s, i)
    ensures s[i].start < s[i].end
  {}

  lemma CountedApart(s: seq<Interval>, i: nat, j: nat)
    requires i < |s| && j < |s| && i != j && Counted(s, i) && Counted(s, j)
    ensures s[i].end <= s[j].start || s[j].end <= s[i].start
  {
    assert !Overlap(s[i], s[j]);
  }

  lemma SubsetIsSmaller(a: set<int>, b: set<int>)
    requires a <= b
    ensures |a| <= |b|
  {
    assert b == a + (b - a);
  }

  /** The total never exceeds the time from the first counted start to the last counted end. */
  lemma WorkedFitsSpan(s: seq<Interval>, lo: int, hi: int)
    requires lo <= hi
    requires forall i: nat :: i < |s| && Counted(s, i) ==> lo <= s[i].start && s[i].end <= hi
    ensures 0 <= Worked(s, |s|) <= hi - lo
  {
    hide Counted;
    forall t | t in Busy(s, |s|) ensures t in Moments(lo, hi) {
      BusyIsCounted(s, |s|, t);
    }
    SubsetIsSmaller(Busy(s, |s|), Moments(lo, hi));
    WorkedIsBusy(s, |s|);
  }
}
