/** The time entries of one month and the view built from them for the panel. */
module TimeEntries {
  import opened Bytes
  import opened Overlaps
  import opened WorkTotals

  /** What an entry says, and what the storage keeps of it. */
  datatype Row = Row(id: int, start: int, end: int, comment: string)

  class TimeEntry {
    var start: int
    var end: int
    var desc: string
    var id: int
    var isOverlap: bool

    constructor (start: int, end: int, desc: string, id: int)
      ensures AsRow() == Row(id, start, end, desc) && !isOverlap
    {
      this.start, this.end, this.desc, this.id, isOverlap := start, end, desc, id, false;
    }

    ghost function AsRow(): Row
      reads this
    {
      Row(id, start, end, desc)
    }
  }

  /** One line of the panel, for entry number `index` of the month. */
  datatype SerializedEntry = SerializedEntry(
    index: nat, date: Option<int>, start: int, end: int, duration: int, dayTotal: int, isWhite: bool, isTimeBad: bool)

  predicate NewDate(s: seq<Interval>, i: nat)
    requires i < |s|
  {
    i == 0 || DateOf(s[i].start) != DateOf(s[i - 1].start)
  }

  /** Rows alternate in colour from one date to the next; the first date is not white. */
  predicate White(s: seq<Interval>, i: nat)
    requires i < |s|
  {
    i > 0 && (if NewDate(s, i) then !White(s, i - 1) else White(s, i - 1))
  }

  /** Colours alternate exactly from one date to the next, from not white on. */
  lemma ColoursAlternate(s: seq<Interval>, i: nat)
    requires i < |s|
    ensures i == 0 ==> !White(s, i)
    ensures i > 0 ==> (White(s, i) != White(s, i - 1) <==> DateOf(s[i].start) != DateOf(s[i - 1].start))
  {}

  function RowAt(s: seq<Interval>, day: int -> int, i: nat): SerializedEntry
    requires i < |s|
  {
    var a := s[i];
    SerializedEntry(i, if NewDate(s, i) then Some(DateOf(a.start)) else None,
                    TimeOfDay(a.start), TimeOfDay(a.end), a.end - a.start, TotalShown(s, day, i),
                    White(s, i), TimeOfDay(a.start) > TimeOfDay(a.end))
  }

  /** The rows of day d among the first n entries, in order. */
  function DayRows(s: seq<Interval>, day: int -> int, d: int, n: nat): seq<SerializedEntry>
    requires n <= |s|
  {
    if n == 0 then []
    else DayRows(s, day, d, n - 1) + if DayOf(s, day, n - 1) == d then [RowAt(s, day, n - 1)] else []
  }

  function Get(m: map<int, int>, k: int): int {
    if k in m then m[k] else 0
  }

  function RowsIn(m: map<int, seq<SerializedEntry>>, k: int): seq<SerializedEntry> {
    if k in m then m[k] else []
  }

  /** The grouped view of the first n entries: every day that has rows, and no other. */
  ghost predicate IsView(m: map<int, seq<SerializedEntry>>, s: seq<Interval>, day: int -> int, n: nat)
    requires n <= |s|
  {
    && (forall d :: d in m ==> m[d] != [])
    && (forall d :: RowsIn(m, d) == DayRows(s, day, d, n))
  }

  lemma ViewOneMore(m: map<int, seq<SerializedEntry>>, s: seq<Interval>, day: int -> int, n: nat)
    requires n < |s| && IsView(m, s, day, n)
    ensures var d := DayOf(s, day, n); IsView(m[d := RowsIn(m, d) + [RowAt(s, day, n)]], s, day, n + 1)
  {
    hide RowAt, DayOf;
    var next := m[DayOf(s, day, n) := RowsIn(m, DayOf(s, day, n)) + [RowAt(s, day, n)]];
    forall d ensures RowsIn(next, d) == DayRows(s, day, d, n + 1) {
      assert RowsIn(m, d) == DayRows(s, day, d, n);
    }
  }

  ghost function IntervalsOf(entries: seq<TimeEntry>): (r: seq<Interval>)
    reads entries
    ensures |r| == |entries|
  {
    seq(|entries|, i requires 0 <= i < |entries| reads entries => Interval(entries[i].start, entries[i].end))
  }

  ghost function RowsOf(entries: seq<TimeEntry>): (r: seq<Row>)
    reads entries
    ensures |r| == |entries|
  {
    seq(|entries|, i requires 0 <= i < |entries| reads entries => entries[i].AsRow())
  }

  function Spans(rows: seq<Row>): (s: seq<Interval>)
    ensures |s| == |rows|
  {
    seq(|rows|, i requires 0 <= i < |rows| => Interval(rows[i].start, rows[i].end))
  }

  /** What the third pass keeps as it goes from row i to the next. */
  lemma NextRow(s: seq<Interval>, day: int -> int, i: nat)
    requires i < |s|
    ensures NewDate(s, i) <==> (if i == 0 then None else Some(DateOf(s[i - 1].start))) != Some(DateOf(s[i].start))
    ensures White(s, i) <==> (i == 0 || White(s, i - 1)) != NewDate(s, i)
    ensures var d := day(DateOf(s[i].start));
      var carries := d !in OpenDays(s, day, i) && !Flagged(s, i);
      && OpenDays(s, day, i + 1) == OpenDays(s, day, i) + (if carries then {d} else {})
      && Shown(s, day, i + 1) == Shown(s, day, i) + TotalShown(s, day, i)
      && TotalShown(s, day, i) == if carries then DayTotal(s, day, d, |s|) else 0
  {
    hide Flagged, CarriesTotal, DayTotal;
    CarriesIffNewDay(s, day, i);
  }

  lemma RowIs(s: seq<Interval>, day: int -> int, i: nat)
    requires i < |s|
    ensures RowAt(s, day, i) == SerializedEntry(
      i, if NewDate(s, i) then Some(DateOf(s[i].start)) else None, TimeOfDay(s[i].start), TimeOfDay(s[i].end),
      s[i].end - s[i].start, TotalShown(s, day, i), White(s, i), TimeOfDay(s[i].start) > TimeOfDay(s[i].end))
  {}

  class MonthlyTimeEntry {
    var totalWorktime: int
    var entries: seq<TimeEntry>
    var serialized: map<int, seq<SerializedEntry>>

    constructor ()
      ensures totalWorktime == 0 && entries == [] && serialized == map[]
    {
      totalWorktime, entries, serialized := 0, [], map[];
    }

    /** Every entry object belongs to one position. */
    ghost predicate Owned()
      reads this`entries
    {
      forall i, j :: 0 <= i < j < |entries| ==> entries[i] != entries[j]
    }

    ghost function Intervals(): (r: seq<Interval>)
      reads this`entries, entries
      ensures |r| == |entries|
    {
      IntervalsOf(entries)
    }

    ghost function Rows(): (r: seq<Row>)
      reads this`entries, entries
      ensures |r| == |entries|
    {
      RowsOf(entries)
    }

    /** First pass: the overlap flag of every entry. */
    method FlagOverlaps()
      requires Owned()
      modifies entries
      ensures Rows() == old(Rows()) && Intervals() == old(Intervals())
      ensures forall i: nat :: i < |entries| ==> entries[i].isOverlap == Flagged(Intervals(), i)
    {
      var intervals: seq<Interval> := [];
      for i := 0 to |entries|
        invariant intervals == Intervals()[..i]
      {
        intervals := intervals + [Interval(entries[i].start, entries[i].end)];
      }
      var overlaps := DetectOverlaps(intervals);
      for i := 0 to |entries|
        invariant Rows() == old(Rows()) && Intervals() == old(Intervals())
        invariant forall j: nat :: j < i ==> entries[j].isOverlap == overlaps[j]
      {
        entries[i].isOverlap := overlaps[i];
      }
      assert intervals == Intervals();
    }

    /** Second pass: the time worked per day. */
    method DayTotals(day: int -> int) returns (totals: map<int, int>)
      requires forall i: nat :: i < |entries| ==> entries[i].isOverlap == Flagged(Intervals(), i)
      ensures forall d :: Get(totals, d) == DayTotal(Intervals(), day, d, |entries|)
    {
      totals := map[];
      for i := 0 to |entries|
        invariant forall d :: Get(totals, d) == DayTotal(Intervals(), day, d, i)
      {
        var entry := entries[i];
        var duration := entry.end - entry.start;
        if !entry.isOverlap && duration > 0 {
          var d := day(DateOf(entry.start));
          totals := totals[d := Get(totals, d) + duration];
        }
      }
    }

    /** Third pass: the rows of the panel, the first unflagged row of each day carrying the day's total. */
    method BuildView(day: int -> int, totals: map<int, int>)
      requires Owned()
      requires forall i: nat :: i < |entries| ==> entries[i].isOverlap == Flagged(Intervals(), i)
      requires forall d :: Get(totals, d) == DayTotal(Intervals(), day, d, |entries|)
      modifies this`serialized, this`totalWorktime
      ensures IsView(serialized, Intervals(), day, |entries|)
      ensures totalWorktime == Shown(Intervals(), day, |entries|)
    {
      hide Flagged, DayRows, IsView, OpenDays, White, NewDate, Shown, TotalShown, DayTotal, RowAt;
      serialized, totalWorktime := map[], 0;
      ghost var s := Intervals();
      NothingShown(s, day);
      var processed: set<int> := {};
      var isWhite := true;
      var currentDate: Option<int> := None;
      for i := 0 to |entries|
        invariant Intervals() == s
        invariant processed == OpenDays(s, day, i)
        invariant isWhite == (i == 0 || White(s, i - 1))
        invariant currentDate == if i == 0 then None else Some(DateOf(s[i - 1].start))
        invariant totalWorktime == Shown(s, day, i)
        invariant IsView(serialized, s, day, i)
      {
        var entry := entries[i];
        var date := DateOf(entry.start);
        var isSetDate := false;
        if currentDate != Some(date) {
          isSetDate := true;
          currentDate := Some(date);
          isWhite := !isWhite;
        }
        var dayNumber := day(date);
        var dayTotal := 0;
        NextRow(s, day, i);
        if dayNumber !in processed && !entry.isOverlap {
          dayTotal := Get(totals, dayNumber);
          totalWorktime := totalWorktime + dayTotal;
          processed := processed + {dayNumber};
        }
        var row := SerializedEntry(i, if isSetDate then Some(date) else None,
                                   TimeOfDay(entry.start), TimeOfDay(entry.end), entry.end - entry.start, dayTotal,
                                   isWhite, TimeOfDay(entry.start) > TimeOfDay(entry.end));
        RowIs(s, day, i);
        ViewOneMore(serialized, s, day, i);
        serialized := serialized[dayNumber := RowsIn(serialized, dayNumber) + [row]];
      }
    }

    /** SerializeEntriesForOneMonth, for a month that is loaded. */
    method Serialize(day: int -> int)
      requires Owned()
      modifies this`serialized, this`totalWorktime, entries
      ensures Rows() == old(Rows()) && Intervals() == old(Intervals())
      ensures forall i: nat :: i < |entries| ==> entries[i].isOverlap == Flagged(Intervals(), i)
      ensures IsView(serialized, Intervals(), day, |entries|)
      ensures totalWorktime == Worked(Intervals(), |entries|)
    {
      FlagOverlaps();
      var totals := DayTotals(day);
      BuildView(day, totals);
      ShownIsWorked(Intervals(), day);
    }
  }

  lemma NothingShown(s: seq<Interval>, day: int -> int)
    ensures IsView(map[], s, day, 0) && OpenDays(s, day, 0) == {} && Shown(s, day, 0) == 0
  {}
}
