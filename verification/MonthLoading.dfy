/** Loading a month: what a query of the storage returns, what becomes of its ids, and what the index then shows. */
module MonthLoading {
  import opened Bytes
  import opened TimeEntries
  import opened MonthIndex

  // ---------------------------------------------------------------- what a query returns

  /** The bounds of the integers in which the tracker keeps its ids; the storage's own ids have 64 bits. */
  const INT_MIN: int := -0x8000_0000
  const INT_MAX: int := 0x7FFF_FFFF

  predicate Fits(id: int) { INT_MIN <= id <= INT_MAX }

  /** A stored id as it is read back: its low 32 bits, with their sign. */
  function Cut(id: int): (c: int)
    ensures Fits(c)
    ensures c == id <==> Fits(id)
    ensures (id - c) % 0x1_0000_0000 == 0
  {
    (id + 0x8000_0000) % 0x1_0000_0000 - 0x8000_0000
  }

  function CutRow(r: Row): Row { r.(id := Cut(r.id)) }

  function CutAll(stored: seq<Row>): (loaded: seq<Row>)
    ensures |loaded| == |stored|
    ensures forall i :: 0 <= i < |stored| ==> loaded[i] == CutRow(stored[i])
  {
    seq(|stored|, i requires 0 <= i < |stored| => CutRow(stored[i]))
  }

  ghost predicate Keyed(rows: map<int, Row>) {
    forall id :: id in rows ==> rows[id].id == id
  }

  /** A row of the table that starts in the range. */
  predicate Within(rows: map<int, Row>, first: int, last: int, r: Row) {
    r.id in rows && rows[r.id] == r && first <= r.start <= last
  }

  predicate Before(a: Row, b: Row) {
    a.start < b.start || (a.start == b.start && a.id < b.id)
  }

  predicate InOrder(stored: seq<Row>) {
    forall i, j :: 0 <= i < j < |stored| ==> Before(stored[i], stored[j])
  }

  ghost predicate Complete(rows: map<int, Row>, first: int, last: int, stored: seq<Row>) {
    forall r: Row :: Within(rows, first, last, r) ==> r in stored
  }

  /**
   * The rows of a range by start and then id: all of them, or, where the
   * database gives up after `limit` rows, the first so many.
   */
  ghost predicate IsResult(rows: map<int, Row>, first: int, last: int, limit: Option<nat>, stored: seq<Row>) {
    && InOrder(stored)
    && (forall r: Row :: r in stored ==> Within(rows, first, last, r))
    && (forall q, r: Row :: r in stored && Within(rows, first, last, q) && Before(q, r) ==> q in stored)
    && (limit.Some? ==> |stored| <= limit.value)
    && (limit.None? || |stored| < limit.value ==> Complete(rows, first, last, stored))
  }

  /** There is one such list. */
  lemma ResultUnique(
    rows: map<int, Row>, first: int, last: int, limit: Option<nat>, a: seq<Row>, b: seq<Row>)
    requires IsResult(rows, first, last, limit, a) && IsResult(rows, first, last, limit, b)
    ensures a == b
  {
    NotShorter(rows, first, last, limit, a, b);
    NotShorter(rows, first, last, limit, b, a);
    ShorterIsPrefix(rows, first, last, limit, a, b, |a|);
  }

  lemma NotShorter(rows: map<int, Row>, first: int, last: int, limit: Option<nat>, a: seq<Row>, b: seq<Row>)
    requires IsResult(rows, first, last, limit, a) && IsResult(rows, first, last, limit, b)
    ensures |a| >= |b|
  {
    if |a| < |b| {
      ShorterIsPrefix(rows, first, last, limit, a, b, |a|);
      assert b[|a|] in b;
      assert a[..|a|] == a;
      LaterIsNew(b, |a|);
    }
  }

  lemma LaterIsNew(b: seq<Row>, n: nat)
    requires InOrder(b) && n < |b|
    ensures b[n] !in b[..n]
  {
    forall i | 0 <= i < n ensures b[..n][i] != b[n] {
      assert Before(b[i], b[n]);
    }
  }

  lemma {:induction false} ShorterIsPrefix(
    rows: map<int, Row>, first: int, last: int, limit: Option<nat>, a: seq<Row>, b: seq<Row>, n: nat)
    requires IsResult(rows, first, last, limit, a) && IsResult(rows, first, last, limit, b)
    requires n <= |a| && n <= |b|
    ensures a[..n] == b[..n]
  {
    if n > 0 {
      ShorterIsPrefix(rows, first, last, limit, a, b, n - 1);
      var x, y := a[n - 1], b[n - 1];
      assert x in a && y in b;
      if Before(x, y) {
        NotEarlier(a, b, n - 1);
      } else if Before(y, x) {
        NotEarlier(b, a, n - 1);
      }
    }
  }

  /** Of two lists that agree below n, one does not hold what comes earlier at n in the other. */
  lemma NotEarlier(a: seq<Row>, b: seq<Row>, n: nat)
    requires InOrder(a) && InOrder(b) && n < |a| && n < |b| && a[..n] == b[..n] && Before(a[n], b[n])
    ensures a[n] !in b
  {
    forall i | 0 <= i < |b| ensures b[i] != a[n] {
      if i < n {
        assert a[i] == a[..n][i] == b[..n][i] == b[i];
        assert Before(a[i], a[n]);
      } else if i > n {
        assert Before(b[n], b[i]);
      }
    }
  }

  // ---------------------------------------------------------------- running the query

  function IdsWithin(rows: map<int, Row>, first: int, last: int): set<int> {
    set id | id in rows && first <= rows[id].start <= last
  }

  /** What was returned so far comes before the rows still to come. */
  ghost predicate Returned(rows: map<int, Row>, first: int, last: int, stored: seq<Row>, ids: set<int>) {
    && ids <= IdsWithin(rows, first, last)
    && InOrder(stored)
    && (forall r: Row :: r in stored ==>
          Within(rows, first, last, r) && r.id !in ids && forall id :: id in ids ==> Before(r, rows[id]))
    && (forall id :: id in IdsWithin(rows, first, last) && id !in ids ==> rows[id] in stored)
  }

  predicate Earliest(rows: map<int, Row>, ids: set<int>, id: int)
    requires ids <= rows.Keys
  {
    id in ids && forall other :: other in ids && other != id ==> Before(rows[id], rows[other])
  }

  lemma SomeId(ids: set<int>)
    requires ids != {}
    ensures exists id :: id in ids
  {
    assert (forall id :: id !in ids) ==> ids == {};
  }

  lemma {:induction false} SomeEarliest(rows: map<int, Row>, ids: set<int>)
    requires Keyed(rows) && ids <= rows.Keys && ids != {}
    ensures exists id :: Earliest(rows, ids, id)
    decreases |ids|
  {
    SomeId(ids);
    var one :| one in ids;
    var rest := ids - {one};
    if rest == {} {
      assert forall other :: other in ids ==> other == one by {
        assert ids == rest + {one};
      }
      assert Earliest(rows, ids, one);
    } else {
      SomeEarliest(rows, rest);
      var id :| Earliest(rows, rest, id);
      assert Earliest(rows, ids, if Before(rows[one], rows[id]) then one else id);
    }
  }

  lemma NothingReturned(rows: map<int, Row>, first: int, last: int)
    ensures Returned(rows, first, last, [], IdsWithin(rows, first, last)) && IdsWithin(rows, first, last) <= rows.Keys
    ensures CutAll([]) == []
  {}

  lemma ReturnNext(rows: map<int, Row>, first: int, last: int, stored: seq<Row>, ids: set<int>, id: int)
    requires Keyed(rows) && Returned(rows, first, last, stored, ids) && Earliest(rows, ids, id)
    ensures Returned(rows, first, last, stored + [rows[id]], ids - {id})
    ensures CutAll(stored + [rows[id]]) == CutAll(stored) + [CutRow(rows[id])]
  {
    var next := stored + [rows[id]];
    forall i, j | 0 <= i < j < |next| ensures Before(next[i], next[j]) {
      assert next[i] in stored;
    }
    assert rows[id] == next[|stored|];
    forall other | other in IdsWithin(rows, first, last) && other !in ids - {id} ensures rows[other] in next {}
  }

  lemma ReturnedResult(rows: map<int, Row>, first: int, last: int, limit: Option<nat>, stored: seq<Row>, ids: set<int>)
    requires Keyed(rows) && Returned(rows, first, last, stored, ids)
    requires limit.Some? ==> |stored| <= limit.value
    requires ids == {} || (limit.Some? && |stored| == limit.value)
    ensures IsResult(rows, first, last, limit, stored)
  {
    forall q, r: Row | r in stored && Within(rows, first, last, q) && Before(q, r) ensures q in stored {
      assert q.id in ids ==> Before(r, q);
    }
  }

  // ---------------------------------------------------------------- what loading relies on

  lemma OrderedAreDistinct(stored: seq<Row>)
    requires InOrder(stored)
    requires forall i, j :: 0 <= i < j < |stored| && stored[i].id == stored[j].id ==> stored[i] == stored[j]
    ensures DistinctIds(stored)
  {
    forall i, j | 0 <= i < j < |stored| ensures stored[i].id != stored[j].id {
      assert Before(stored[i], stored[j]);
    }
  }

  /** What loading relies on of the rows a query returned. */
  predicate FromStorage(rows: map<int, Row>, stored: seq<Row>) {
    DistinctIds(stored) && forall r :: r in stored ==> r.id in rows && rows[r.id] == r
  }

  /** When an oversized id is cut to that of a row with the same contents, that row was returned as well. */
  predicate TwinsIncluded(rows: map<int, Row>, stored: seq<Row>) {
    forall r :: r in stored && Cut(r.id) in rows && rows[Cut(r.id)] == CutRow(r) ==> CutRow(r) in stored
  }

  /** The query does not break off, or no id is cut to a higher one. */
  ghost predicate Settled(rows: map<int, Row>, limit: Option<nat>) {
    limit.None? || forall id :: id in rows ==> id >= INT_MIN
  }

  lemma ResultIsFromStorage(rows: map<int, Row>, first: int, last: int, limit: Option<nat>, stored: seq<Row>)
    requires IsResult(rows, first, last, limit, stored)
    ensures FromStorage(rows, stored)
    ensures Settled(rows, limit) ==> TwinsIncluded(rows, stored)
  {
    forall i, j | 0 <= i < j < |stored| ensures stored[i].id == stored[j].id ==> stored[i] == stored[j] {
      assert stored[i] in stored && stored[j] in stored;
    }
    OrderedAreDistinct(stored);
    if Settled(rows, limit) {
      forall r | r in stored && Cut(r.id) in rows && rows[Cut(r.id)] == CutRow(r) ensures CutRow(r) in stored {
        assert Within(rows, first, last, r);
        assert Within(rows, first, last, CutRow(r));
        if !Fits(r.id) && limit.Some? {
          assert r.id > INT_MAX;
          assert Before(CutRow(r), r);
        }
      }
    }
  }

  // ---------------------------------------------------------------- the steps of a load

  /** Loading a row is one step, except that a row read back with id 0 is inserted once more. */
  predicate StepFor(s: State, r: Row, step: Step) {
    if r.id != 0 then step == Load(r)
    else
      match step
      case Failed => true
      case Insert(n) => n == r.(id := n.id) && n.id !in s.rows && Fits(n.id)
      case Orphan(n) => n == r.(id := n.id) && n.id !in s.rows && n.id > INT_MAX
      case _ => false
  }

  ghost predicate Loading(s: State, loaded: seq<Row>, steps: seq<Step>, key: int -> int)
    decreases |steps|
  {
    && |steps| == |loaded|
    && (steps != [] ==>
          StepFor(s, loaded[0], steps[0]) && Loading(Apply(s, steps[0], key), loaded[1..], steps[1..], key))
  }

  lemma {:induction false} LoadingAppend(
    s: State, loaded: seq<Row>, steps: seq<Step>, key: int -> int, r: Row, step: Step)
    requires Loading(s, loaded, steps, key) && StepFor(Run(s, steps, key), r, step)
    ensures Loading(s, loaded + [r], steps + [step], key)
    ensures Run(s, steps + [step], key) == Apply(Run(s, steps, key), step, key)
    decreases |steps|
  {
    hide StepFor, Apply;
    if steps == [] {
      assert loaded + [r] == [r] && steps + [step] == [step];
    } else {
      assert (loaded + [r])[1..] == loaded[1..] + [r] && (steps + [step])[1..] == steps[1..] + [step];
      LoadingAppend(Apply(s, steps[0], key), loaded[1..], steps[1..], key, r, step);
    }
  }

  /** A step of a load leaves another row loadable. */
  lemma StillLoadable(s: State, step: Step, key: int -> int, r: Row)
    requires Allowed(s, step) && Allowed(s, Load(r))
    requires (step.Load? && step.row.id != r.id) || step.Insert? || step.Orphan? || step.Failed?
    ensures Allowed(Apply(s, step, key), Load(r))
  {
    if step.Load? || step.Insert? {
      AddedHolds(s.months, key(step.row.start), step.row, r.id);
    }
  }

  lemma AddedHolds(months: map<int, seq<Row>>, k: int, r: Row, id: int)
    ensures Holds(Added(months, k, r), id) <==> Holds(months, id) || r.id == id
  {
    var t: map<int, seq<Row>> := Added(months, k, r);
    if r.id == id {
      assert t[k][|t[k]| - 1].id == id;
      assert HasId(t[k], id);
    }
    if Holds(months, id) {
      var l :| l in months && HasId(months[l], id);
      var i :| 0 <= i < |months[l]| && months[l][i].id == id;
      assert t[l][i].id == id;
      assert HasId(t[l], id);
    }
    if Holds(t, id) && r.id != id {
      var l :| l in t && HasId(t[l], id);
      var i :| 0 <= i < |t[l]| && t[l][i].id == id;
      assert months[l][i].id == id;
      assert HasId(months[l], id);
    }
  }

  /** No step of a load lets go of an id. */
  lemma StepHolds(s: State, r: Row, step: Step, key: int -> int, id: int)
    requires StepFor(s, r, step)
    ensures Holds(Apply(s, step, key).months, id) <==>
            Holds(s.months, id) || ((step.Load? || step.Insert?) && step.row.id == id)
  {
    if step.Load? || step.Insert? {
      AddedHolds(s.months, key(step.row.start), step.row, id);
    }
  }

  // ---------------------------------------------------------------- damage is not mended

  /** A bucket with an id twice, or with a row that is misplaced or not what the storage keeps. */
  ghost predicate Spoilt(s: State, key: int -> int, k: int) {
    && k in s.months
    && (!DistinctIds(s.months[k]) || exists r :: r in s.months[k] && r.id <= INT_MAX && !InPlace(s, key, k, r))
  }

  /** Loading one row keeps the index consistent exactly when the storage keeps that row and no bucket holds it. */
  lemma LoadKeepsIffAllowed(s: State, key: int -> int, r: Row)
    requires Consistent(s, key) && r.id <= INT_MAX
    ensures Allowed(s, Load(r)) ==> Consistent(Apply(s, Load(r), key), key)
    ensures !Allowed(s, Load(r)) ==> Spoilt(Apply(s, Load(r), key), key, key(r.start))
  {
    var k, t := key(r.start), Apply(s, Load(r), key);
    if Allowed(s, Load(r)) {
      StepKeepsConsistent(s, Load(r), key);
    } else if Holds(s.months, r.id) && r.id in s.rows && s.rows[r.id] == r {
      var l :| l in s.months && HasId(s.months[l], r.id);
      var i :| 0 <= i < |s.months[l]| && s.months[l][i].id == r.id;
      assert GoodBucket(s, key, l);
      assert InPlace(s, key, l, s.months[l][i]);
      assert t.months[k][i].id == t.months[k][|s.months[k]|].id;
    } else {
      assert t.months[k][|t.months[k]| - 1] == r && !InPlace(t, key, k, r);
    }
  }

  lemma SpoiltIsInconsistent(s: State, key: int -> int, k: int)
    requires Spoilt(s, key, k)
    ensures !Consistent(s, key)
  {
    assert !GoodBucket(s, key, k);
  }

  /** A step that adds nothing else than the row it is for mends no bucket. */
  lemma StepStaysSpoilt(s: State, key: int -> int, k: int, r: Row, step: Step)
    requires Spoilt(s, key, k) && StepFor(s, r, step)
    ensures Spoilt(Apply(s, step, key), key, k)
  {
    var b, t := s.months[k], Apply(s, step, key);
    if !DistinctIds(b) {
      var i, j :| 0 <= i < j < |b| && b[i].id == b[j].id;
      assert t.months[k][i].id == t.months[k][j].id;
    } else {
      var q :| q in b && q.id <= INT_MAX && !InPlace(s, key, k, q);
      var i :| 0 <= i < |b| && b[i] == q;
      assert t.months[k][i] == q;
      if InPlace(t, key, k, q) {
        assert step.Insert? && step.row == q;
        assert t.months[k][|b|] == q;
        assert t.months[k][i].id == t.months[k][|b|].id;
      }
    }
  }

  lemma {:induction false} SpoiltStays(s: State, key: int -> int, k: int, loaded: seq<Row>, steps: seq<Step>)
    requires Spoilt(s, key, k) && Loading(s, loaded, steps, key)
    ensures Spoilt(Run(s, steps, key), key, k)
    decreases |steps|
  {
    hide Spoilt, StepFor;
    if steps != [] {
      StepStaysSpoilt(s, key, k, loaded[0], steps[0]);
      SpoiltStays(Apply(s, steps[0], key), key, k, loaded[1..], steps[1..]);
    }
  }

  predicate IdsFit(loaded: seq<Row>) {
    forall i :: 0 <= i < |loaded| ==> Fits(loaded[i].id)
  }

  /** A load leaves the index consistent exactly when every step of it was allowed at its turn. */
  lemma {:induction false} LoadingKeepsIffAllowed(s: State, loaded: seq<Row>, steps: seq<Step>, key: int -> int)
    requires Consistent(s, key) && Loading(s, loaded, steps, key) && IdsFit(loaded)
    ensures Consistent(Run(s, steps, key), key) <==> AllAllowed(s, steps, key)
    decreases |steps|
  {
    hide Consistent, Spoilt, Apply;
    if steps != [] {
      var t := Apply(s, steps[0], key);
      if Allowed(s, steps[0]) {
        StepKeepsConsistent(s, steps[0], key);
        LoadingKeepsIffAllowed(t, loaded[1..], steps[1..], key);
      } else {
        var r := loaded[0];
        LoadKeepsIffAllowed(s, key, r);
        SpoiltStays(t, key, key(r.start), loaded[1..], steps[1..]);
        SpoiltIsInconsistent(Run(t, steps[1..], key), key, key(r.start));
      }
    }
  }

  // ---------------------------------------------------------------- which queries load well

  /** Every row returned fits the tracker's ids and is not held yet, unless it reads back with id 0. */
  ghost predicate LoadsWell(s: State, stored: seq<Row>) {
    forall r :: r in stored && Cut(r.id) != 0 ==> Fits(r.id) && !Holds(s.months, r.id)
  }

  predicate IdsComeBack(stored: seq<Row>) {
    forall r :: r in stored ==> Fits(r.id) || Cut(r.id) == 0
  }

  /** Every row read is stored as it was read and held by no bucket, and no id is read twice; id 0 aside. */
  ghost predicate ReadWell(s: State, loaded: seq<Row>) {
    forall j :: 0 <= j < |loaded| && loaded[j].id != 0 ==>
      Allowed(s, Load(loaded[j])) && forall i :: 0 <= i < j ==> loaded[i].id != loaded[j].id
  }

  /** A load leaves the index consistent exactly when its rows were read well. */
  lemma LoadKeepsIff(s: State, loaded: seq<Row>, steps: seq<Step>, key: int -> int)
    requires Consistent(s, key) && Loading(s, loaded, steps, key) && IdsFit(loaded)
    ensures Consistent(Run(s, steps, key), key) <==> ReadWell(s, loaded)
  {
    hide Consistent, Loading, Run, AllAllowed, ReadWell;
    LoadingKeepsIffAllowed(s, loaded, steps, key);
    if ReadWell(s, loaded) {
      ReadWellIsAllowed(s, loaded, steps, key);
    }
    if AllAllowed(s, steps, key) {
      AllowedIsReadWell(s, loaded, steps, key);
    }
  }

  lemma {:induction false} ReadWellIsAllowed(s: State, loaded: seq<Row>, steps: seq<Step>, key: int -> int)
    requires Loading(s, loaded, steps, key) && ReadWell(s, loaded)
    ensures AllAllowed(s, steps, key)
    decreases |steps|
  {
    hide Holds, Apply;
    if steps != [] {
      var rest, t := loaded[1..], Apply(s, steps[0], key);
      forall j | 0 <= j < |rest| && rest[j].id != 0
        ensures Allowed(t, Load(rest[j])) && forall i :: 0 <= i < j ==> rest[i].id != rest[j].id
      {
        assert rest[j] == loaded[j + 1] && loaded[0].id != loaded[j + 1].id;
        StillLoadable(s, steps[0], key, rest[j]);
      }
      ReadWellIsAllowed(t, rest, steps[1..], key);
    }
  }

  lemma AllowedIsReadWell(s: State, loaded: seq<Row>, steps: seq<Step>, key: int -> int)
    requires Loading(s, loaded, steps, key) && AllAllowed(s, steps, key) && IdsFit(loaded)
    ensures ReadWell(s, loaded)
  {
    hide Holds, Loading, AllAllowed;
    forall j | 0 <= j < |loaded| && loaded[j].id != 0
      ensures Allowed(s, Load(loaded[j])) && forall i :: 0 <= i < j ==> loaded[i].id != loaded[j].id
    {
      NoneWasHeld(s, loaded, steps, key, j);
      LoadedIsStored(s, loaded, steps, key, j);
      forall i | 0 <= i < j ensures loaded[i].id != loaded[j].id {
        if loaded[i].id != 0 {
          LoadedOnce(s, loaded, steps, key, i, j);
        }
      }
    }
  }

  /**
   * What a query returned is read well exactly when every row, other than
   * those that read back with id 0, has an id of at most 32 bits that no
   * bucket holds.
   */
  lemma QueryReadsWell(s: State, stored: seq<Row>)
    requires FromStorage(s.rows, stored) && TwinsIncluded(s.rows, stored)
    ensures ReadWell(s, CutAll(stored)) <==> LoadsWell(s, stored)
  {
    hide Holds;
    var loaded := CutAll(stored);
    if ReadWell(s, loaded) {
      forall r | r in stored && Cut(r.id) != 0 ensures Fits(r.id) && !Holds(s.months, r.id) {
        var j :| 0 <= j < |stored| && stored[j] == r;
        assert Allowed(s, Load(loaded[j]));
        var i :| 0 <= i < |stored| && stored[i] == CutRow(r);
        assert loaded[i].id == loaded[j].id;
        assert i == j;
      }
    }
    if LoadsWell(s, stored) {
      forall j | 0 <= j < |loaded| && loaded[j].id != 0
        ensures Allowed(s, Load(loaded[j])) && forall i :: 0 <= i < j ==> loaded[i].id != loaded[j].id
      {
        assert stored[j] in stored;
        forall i | 0 <= i < j ensures loaded[i].id != loaded[j].id {
          assert stored[i] in stored;
        }
      }
    }
  }

  lemma {:induction false} NoneWasHeld(s: State, loaded: seq<Row>, steps: seq<Step>, key: int -> int, j: nat)
    requires Loading(s, loaded, steps, key) && AllAllowed(s, steps, key) && j < |loaded| && loaded[j].id != 0
    ensures !Holds(s.months, loaded[j].id)
    decreases |steps|
  {
    hide Holds;
    if j > 0 {
      NoneWasHeld(Apply(s, steps[0], key), loaded[1..], steps[1..], key, j - 1);
      StepHolds(s, loaded[0], steps[0], key, loaded[j].id);
    }
  }

  /** No id is loaded twice. */
  lemma {:induction false} LoadedOnce(s: State, loaded: seq<Row>, steps: seq<Step>, key: int -> int, i: nat, j: nat)
    requires Loading(s, loaded, steps, key) && AllAllowed(s, steps, key) && i < j < |loaded|
    requires loaded[i].id != 0
    ensures loaded[i].id != loaded[j].id
    decreases |steps|
  {
    hide Holds;
    var t := Apply(s, steps[0], key);
    if i > 0 {
      LoadedOnce(t, loaded[1..], steps[1..], key, i - 1, j - 1);
    } else if loaded[j].id != 0 {
      NoneWasHeld(t, loaded[1..], steps[1..], key, j - 1);
      StepHolds(s, loaded[0], steps[0], key, loaded[i].id);
    }
  }

  /** A row that was allowed at its turn was stored, as read back, from the start. */
  lemma {:induction false} LoadedIsStored(s: State, loaded: seq<Row>, steps: seq<Step>, key: int -> int, j: nat)
    requires Loading(s, loaded, steps, key) && AllAllowed(s, steps, key)
    requires j < |loaded| && loaded[j].id != 0 && loaded[j].id <= INT_MAX
    ensures loaded[j].id in s.rows && s.rows[loaded[j].id] == loaded[j]
    decreases |steps|
  {
    hide Holds;
    if j > 0 {
      var t := Apply(s, steps[0], key);
      LoadedIsStored(t, loaded[1..], steps[1..], key, j - 1);
      NoneWasHeld(t, loaded[1..], steps[1..], key, j - 1);
      StepHolds(s, loaded[0], steps[0], key, loaded[j].id);
    }
  }

  /** In particular, whoever knows that the range holds no held row and only 32-bit ids may load it. */
  lemma {:induction false} CheckedBeforehand(s: State, first: int, last: int, stored: seq<Row>)
    requires forall r: Row :: r in stored ==> Within(s.rows, first, last, r)
    requires forall id :: id in s.rows && first <= s.rows[id].start <= last ==> Fits(id) && !Holds(s.months, id)
    ensures LoadsWell(s, stored)
  {
    hide Holds;
    forall r | r in stored ensures Fits(r.id) && !Holds(s.months, r.id) {
      assert Within(s.rows, first, last, r);
    }
  }

  // ---------------------------------------------------------------- what is shown after a load

  /** The rows that the steps of a load put into buckets, in order. */
  function ShownRows(steps: seq<Step>): seq<Row> {
    if steps == [] then []
    else (if steps[0].Load? || steps[0].Insert? then [steps[0].row] else []) + ShownRows(steps[1..])
  }

  function Filled(months: map<int, seq<Row>>, k: int, rows: seq<Row>): map<int, seq<Row>> {
    if rows == [] then months else months[k := Bucket(months, k) + rows]
  }

  lemma FilledMore(months: map<int, seq<Row>>, k: int, r: Row, rows: seq<Row>)
    ensures Filled(Added(months, k, r), k, rows) == Filled(months, k, [r] + rows)
  {
    Associates(Bucket(months, k), [r], rows);
    assert [r] + [] == [r];
  }

  /** Rows that all start in one month go to the end of its bucket, in the order of the query, and nowhere else. */
  lemma {:induction false} LoadingFills(s: State, loaded: seq<Row>, steps: seq<Step>, key: int -> int, k: int)
    requires Loading(s, loaded, steps, key)
    requires forall i :: 0 <= i < |loaded| ==> key(loaded[i].start) == k
    ensures Run(s, steps, key).months == Filled(s.months, k, ShownRows(steps))
    decreases |steps|
  {
    hide Filled, Added;
    if steps != [] {
      LoadingFills(Apply(s, steps[0], key), loaded[1..], steps[1..], key, k);
      assert key(loaded[0].start) == k;
      if steps[0].Load? || steps[0].Insert? {
        FilledMore(s.months, k, steps[0].row, ShownRows(steps[1..]));
      } else {
        assert [] + ShownRows(steps[1..]) == ShownRows(steps[1..]);
      }
    } else {
      FilledNone(s.months, k);
    }
  }

  lemma FilledNone(months: map<int, seq<Row>>, k: int)
    ensures Filled(months, k, []) == months
  {}

  /** Wherever its rows belong: a load shows them and hides none. */
  lemma {:induction false} LoadingShows(s: State, loaded: seq<Row>, steps: seq<Step>, key: int -> int, q: Row)
    requires Loading(s, loaded, steps, key)
    ensures Shows(Run(s, steps, key).months, q) <==> Shows(s.months, q) || q in ShownRows(steps)
    decreases |steps|
  {
    hide Shows;
    if steps != [] {
      LoadingShows(Apply(s, steps[0], key), loaded[1..], steps[1..], key, q);
      if steps[0].Load? || steps[0].Insert? {
        AddIsLocal(s.months, key(steps[0].row.start), steps[0].row, q);
      }
    }
  }

  /** Rows with ids of 32 bits other than 0 are shown as they are stored, and the storage is only read. */
  lemma {:induction false} PlainLoads(s: State, stored: seq<Row>, steps: seq<Step>, key: int -> int)
    requires Loading(s, CutAll(stored), steps, key)
    requires forall r :: r in stored ==> Fits(r.id) && r.id != 0
    ensures ShownRows(steps) == stored && Run(s, steps, key).rows == s.rows
    decreases |steps|
  {
    if steps != [] {
      assert CutAll(stored)[1..] == CutAll(stored[1..]);
      assert stored[0] in stored && steps[0] == Load(stored[0]);
      PlainLoads(Apply(s, steps[0], key), stored[1..], steps[1..], key);
      assert stored == [stored[0]] + stored[1..];
    }
  }

  // ---------------------------------------------------------------- two ids that do not come back

  const NOTHING := State(map[], map[])

  /**
   * An insertion whose id needs more than 32 bits leaves a row behind.  Read
   * back, it is shown under an id that no stored row has: the index is no
   * longer consistent, and the entry can be neither edited nor removed.
   */
  lemma OversizedIdBreaksIndex(steps: seq<Step>, key: int -> int)
    requires var stored := Row(0x8000_0000, 0, 1, "");
      Loading(Run(NOTHING, [Orphan(stored), Forget], key), CutAll([stored]), steps, key)
    ensures var stored, shown := Row(0x8000_0000, 0, 1, ""), Row(-0x8000_0000, 0, 1, "");
      var before := Run(NOTHING, [Orphan(stored), Forget], key);
      var after := Run(before, steps, key);
      && AllAllowed(NOTHING, [Orphan(stored), Forget], key) && Consistent(before, key)
      && IsResult(before.rows, 0, 0, None, [stored]) && steps == [Load(shown)]
      && !Consistent(after, key) && Shows(after.months, shown)
      && (forall r: Row :: r.id == shown.id ==> !Allowed(after, Edit(r))) && !Allowed(after, Delete(shown.id))
  {
    var stored, shown := Row(0x8000_0000, 0, 1, ""), Row(-0x8000_0000, 0, 1, "");
    TwoSteps(NOTHING, Orphan(stored), Forget, key);
    var before := State(map[], map[stored.id := stored]);
    assert CutAll([stored]) == [shown];
    assert steps == [steps[0]];
    OneStep(before, steps[0], key);
    assert InOrder([stored]);
    assert Added(map[], key(0), shown)[key(0)] == [shown];
    LoadKeepsIffAllowed(before, key, shown);
    SpoiltIsInconsistent(Run(before, steps, key), key, key(0));
  }

  lemma OneStep(s: State, step: Step, key: int -> int)
    ensures Run(s, [step], key) == Apply(s, step, key)
    ensures AllAllowed(s, [step], key) <==> Allowed(s, step)
  {
    assert [step][1..] == [];
  }

  lemma TwoSteps(s: State, a: Step, b: Step, key: int -> int)
    ensures Run(s, [a, b], key) == Apply(Apply(s, a, key), b, key)
    ensures AllAllowed(s, [a, b], key) <==> Allowed(s, a) && Allowed(Apply(s, a, key), b)
  {
    hide Allowed, Apply;
    assert [a, b][1..] == [b];
    OneStep(Apply(s, a, key), b, key);
  }

  /** A row whose id reads back as 0 is not shown; a copy of it is inserted and shown in its place. */
  lemma ZeroIdIsCopied(rows: map<int, Row>, stored: Row, steps: seq<Step>, key: int -> int)
    requires Cut(stored.id) == 0 && Loading(State(map[], rows), CutAll([stored]), steps, key)
    ensures |steps| == 1
    ensures var after, step := Run(State(map[], rows), steps, key), steps[0];
      if step.Insert? then
        && step.row == stored.(id := step.row.id) && step.row.id !in rows && Fits(step.row.id)
        && after.rows == rows[step.row.id := step.row] && ShownRows(steps) == [step.row]
      else if step.Orphan? then
        && step.row == stored.(id := step.row.id) && step.row.id !in rows && step.row.id > INT_MAX
        && after.rows == rows[step.row.id := step.row] && ShownRows(steps) == []
      else after.rows == rows && ShownRows(steps) == []
  {
    assert steps == [steps[0]];
    OneStep(State(map[], rows), steps[0], key);
  }

  // ---------------------------------------------------------------- what the tracker uses

  /** A load that read what a query returned, or nothing. */
  lemma LoadIsJudged(
    s: State, first: int, last: int, limit: Option<nat>, stored: seq<Row>, steps: seq<Step>, key: int -> int)
    requires stored == [] || IsResult(s.rows, first, last, limit, stored)
    requires Loading(s, CutAll(stored), steps, key)
    ensures Consistent(s, key) ==> (Consistent(Run(s, steps, key), key) <==> ReadWell(s, CutAll(stored)))
    ensures Settled(s.rows, limit) ==> (ReadWell(s, CutAll(stored)) <==> LoadsWell(s, stored))
  {
    hide Consistent, Run, IsResult, Settled, Loading, LoadsWell;
    if Consistent(s, key) {
      LoadKeepsIff(s, CutAll(stored), steps, key);
    }
    if Settled(s.rows, limit) {
      if stored == [] {
        NothingLoadsWell(s);
      } else {
        ResultIsFromStorage(s.rows, first, last, limit, stored);
        QueryReadsWell(s, stored);
      }
    }
  }

  lemma NothingLoadsWell(s: State)
    ensures ReadWell(s, CutAll([])) && LoadsWell(s, [])
  {}

  lemma NoSteps(s: State, key: int -> int)
    ensures Loading(s, CutAll([]), [], key) && Run(s, [], key) == s
  {}

  lemma EmptyIsConsistent(rows: map<int, Row>, key: int -> int)
    requires Keyed(rows)
    ensures Consistent(State(map[], rows), key)
  {}

  lemma LoadedFromNothing(rows: map<int, Row>, stored: seq<Row>, steps: seq<Step>, key: int -> int, k: int)
    requires Keyed(rows) && Loading(State(map[], rows), CutAll(stored), steps, key)
    ensures LoadsWell(State(map[], rows), stored) <==> IdsComeBack(stored)
    ensures (forall r :: r in stored ==> key(r.start) == k) ==>
      Run(State(map[], rows), steps, key).months == Filled(map[], k, ShownRows(steps))
    ensures (forall r :: r in stored ==> Fits(r.id) && r.id != 0) ==>
      ShownRows(steps) == stored && Run(State(map[], rows), steps, key).rows == rows
  {
    hide Loading, Run, Filled, ShownRows;
    if forall r :: r in stored ==> key(r.start) == k {
      LoadingFills(State(map[], rows), CutAll(stored), steps, key, k);
    }
    if forall r :: r in stored ==> Fits(r.id) && r.id != 0 {
      PlainLoads(State(map[], rows), stored, steps, key);
    }
  }
}
