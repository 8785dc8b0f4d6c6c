/** The month index of the time tracker as values: which buckets hold which rows, next to what the storage holds. */
module MonthIndex {
  import opened TimeEntries

  datatype State = State(months: map<int, seq<Row>>, rows: map<int, Row>)

  predicate DistinctIds(b: seq<Row>) {
    forall i, j :: 0 <= i < j < |b| ==> b[i].id != b[j].id
  }

  predicate HasId(b: seq<Row>, id: int) {
    exists i :: 0 <= i < |b| && b[i].id == id
  }

  predicate Holds(months: map<int, seq<Row>>, id: int) {
    exists k :: k in months && HasId(months[k], id)
  }

  /** A row in bucket k belongs there and is what the storage keeps. */
  predicate InPlace(s: State, key: int -> int, k: int, r: Row) {
    key(r.start) == k && r.id in s.rows && s.rows[r.id] == r
  }

  predicate GoodBucket(s: State, key: int -> int, k: int)
    requires k in s.months
  {
    s.months[k] != [] && DistinctIds(s.months[k]) && forall r :: r in s.months[k] ==> InPlace(s, key, k, r)
  }

  /** `key` is the calendar's year * 100 + month of a start time. */
  ghost predicate Consistent(s: State, key: int -> int) {
    && (forall k :: k in s.months ==> GoodBucket(s, key, k))
    && (forall id :: id in s.rows ==> s.rows[id].id == id)
  }

  /** So an id has one place at most, in the bucket of its own start. */
  lemma OnePlace(s: State, key: int -> int, k: int, i: nat, l: int, j: nat)
    requires Consistent(s, key)
    requires k in s.months && i < |s.months[k]| && l in s.months && j < |s.months[l]|
    requires s.months[k][i].id == s.months[l][j].id
    ensures k == l == key(s.months[k][i].start) && i == j
  {
    assert GoodBucket(s, key, k) && GoodBucket(s, key, l);
    assert InPlace(s, key, k, s.months[k][i]) && InPlace(s, key, l, s.months[l][j]);
  }

  // ---------------------------------------------------------------- what the operations do to the buckets

  function Bucket(months: map<int, seq<Row>>, k: int): seq<Row> {
    if k in months then months[k] else []
  }

  function Added(months: map<int, seq<Row>>, k: int, r: Row): map<int, seq<Row>> {
    months[k := Bucket(months, k) + [r]]
  }

  function Others(b: seq<Row>, id: int): seq<Row> {
    if b == [] then [] else (if b[0].id == id then [] else [b[0]]) + Others(b[1..], id)
  }

  /** The buckets without an id; a bucket left empty goes away. */
  function Without(months: map<int, seq<Row>>, id: int): map<int, seq<Row>> {
    map k | k in months && Others(months[k], id) != [] :: Others(months[k], id)
  }

  function Renewed(b: seq<Row>, r: Row): seq<Row> {
    seq(|b|, i requires 0 <= i < |b| => if b[i].id == r.id then r else b[i])
  }

  /** A new row for an id it holds: in place when the month stays, else at the end of the other month. */
  function Edited(months: map<int, seq<Row>>, k: int, r: Row): map<int, seq<Row>> {
    if k in months && HasId(months[k], r.id) then months[k := Renewed(months[k], r)]
    else Added(Without(months, r.id), k, r)
  }

  // ---------------------------------------------------------------- runs

  datatype Step =
    | Forget                // LoadEntries starts by dropping every bucket
    | Load(row: Row)        // a row the storage returned
    | Insert(row: Row)      // the storage chose row.id
    | Orphan(row: Row)      // inserted, but with an id the caller cannot represent
    | Edit(row: Row)
    | Delete(id: int)
    | Failed                // any operation the storage refused

  predicate Allowed(s: State, step: Step) {
    match step
    case Forget => true
    case Load(r) => r.id in s.rows && s.rows[r.id] == r && !Holds(s.months, r.id)
    case Insert(r) => r.id !in s.rows
    case Orphan(r) => r.id !in s.rows
    case Edit(r) => r.id in s.rows && Holds(s.months, r.id)
    case Delete(id) => id in s.rows && Holds(s.months, id)
    case Failed => true
  }

  function Apply(s: State, step: Step, key: int -> int): State {
    match step
    case Forget => s.(months := map[])
    case Load(r) => s.(months := Added(s.months, key(r.start), r))
    case Insert(r) => State(Added(s.months, key(r.start), r), s.rows[r.id := r])
    case Orphan(r) => s.(rows := s.rows[r.id := r])
    case Edit(r) => State(Edited(s.months, key(r.start), r), s.rows[r.id := r])
    case Delete(id) => State(Without(s.months, id), s.rows - {id})
    case Failed => s
  }

  lemma {:induction false} OthersAre(b: seq<Row>, id: int)
    requires DistinctIds(b)
    ensures DistinctIds(Others(b, id))
    ensures forall r :: r in Others(b, id) <==> r in b && r.id != id
  {
    if b != [] {
      OthersAre(b[1..], id);
      assert b == [b[0]] + b[1..];
      var rest := Others(b[1..], id);
      forall i | 0 <= i < |rest| ensures rest[i].id != b[0].id {
        assert rest[i] in b[1..];
        var j :| 0 <= j < |b[1..]| && b[1..][j] == rest[i];
        assert b[j + 1].id != b[0].id;
      }
    }
  }

  /** With distinct ids, the rows other than one are the rows around it. */
  lemma {:induction false} OthersAround(b: seq<Row>, i: nat)
    requires DistinctIds(b) && i < |b|
    ensures Others(b, b[i].id) == b[..i] + b[i + 1..]
  {
    if i == 0 {
      NoneOut(b[1..], b[0].id);
      assert b[..0] + b[1..] == b[1..];
    } else {
      OthersAround(b[1..], i - 1);
      assert b[..i] + b[i + 1..] == [b[0]] + (b[1..][..i - 1] + b[1..][i..]);
    }
  }

  lemma {:induction false} NoneOut(b: seq<Row>, id: int)
    requires !HasId(b, id)
    ensures Others(b, id) == b
  {
    if b != [] {
      forall i | 0 <= i < |b[1..]| ensures b[1..][i].id != id {
        assert b[i + 1].id != id;
      }
      NoneOut(b[1..], id);
    }
  }

  lemma AddKeeps(s: State, key: int -> int, r: Row)
    requires Consistent(s, key) && !Holds(s.months, r.id)
    ensures Consistent(State(Added(s.months, key(r.start), r), s.rows[r.id := r]), key)
  {
    hide HasId;
    var k := key(r.start);
    var t := State(Added(s.months, k, r), s.rows[r.id := r]);
    forall l | l in t.months ensures GoodBucket(t, key, l) {
      assert l in s.months ==> GoodBucket(s, key, l) && !HasId(s.months[l], r.id);
      var b := Bucket(s.months, l);
      NoSuchId(b, r.id);
      forall q | q in t.months[l] ensures InPlace(t, key, l, q) {
        if q in b {
          assert InPlace(s, key, l, q);
        }
      }
    }
  }

  lemma NoSuchId(b: seq<Row>, id: int)
    ensures !HasId(b, id) <==> forall i :: 0 <= i < |b| ==> b[i].id != id
  {}

  lemma DropKeeps(s: State, key: int -> int, id: int, rows: map<int, Row>)
    requires Consistent(s, key)
    requires forall other :: other in s.rows && other != id ==> other in rows && rows[other] == s.rows[other]
    requires forall other :: other in rows ==> rows[other].id == other
    ensures Consistent(State(Without(s.months, id), rows), key)
    ensures !Holds(Without(s.months, id), id)
  {
    var t := State(Without(s.months, id), rows);
    forall k | k in t.months ensures GoodBucket(t, key, k) && !HasId(t.months[k], id) {
      assert GoodBucket(s, key, k);
      OthersAre(s.months[k], id);
      forall r | r in t.months[k] ensures InPlace(t, key, k, r) && r.id != id {
        assert InPlace(s, key, k, r);
      }
    }
  }

  lemma RenewKeeps(s: State, key: int -> int, r: Row)
    requires Consistent(s, key)
    requires key(r.start) in s.months && HasId(s.months[key(r.start)], r.id)
    ensures Consistent(State(s.months[key(r.start) := Renewed(s.months[key(r.start)], r)], s.rows[r.id := r]), key)
  {
    var k := key(r.start);
    var t := State(s.months[k := Renewed(s.months[k], r)], s.rows[r.id := r]);
    var at :| 0 <= at < |s.months[k]| && s.months[k][at].id == r.id;
    forall l | l in t.months ensures GoodBucket(t, key, l) {
      assert GoodBucket(s, key, l);
      forall j | 0 <= j < |t.months[l]| ensures InPlace(t, key, l, t.months[l][j]) {
        assert InPlace(s, key, l, s.months[l][j]);
        if s.months[l][j].id == r.id {
          OnePlace(s, key, k, at, l, j);
        }
      }
    }
  }

  /** Every step keeps the buckets and the storage in step, also the steps the storage refuses. */
  lemma StepKeepsConsistent(s: State, step: Step, key: int -> int)
    requires Consistent(s, key) && Allowed(s, step)
    ensures Consistent(Apply(s, step, key), key)
  {
    hide GoodBucket, HasId;
    match step
    case Load(r) =>
      AddKeeps(s, key, r);
      assert s.rows[r.id := r] == s.rows;
    case Insert(r) =>
      NotHeld(s, key, r.id);
      AddKeeps(s, key, r);
    case Edit(r) =>
      var k := key(r.start);
      if k in s.months && HasId(s.months[k], r.id) {
        RenewKeeps(s, key, r);
      } else {
        DropKeeps(s, key, r.id, s.rows);
        AddKeeps(State(Without(s.months, r.id), s.rows), key, r);
      }
    case Delete(id) => DropKeeps(s, key, id, s.rows - {id});
    case Orphan(r) => GrowKeeps(s, key, r);
    case _ =>
  }

  lemma NotHeld(s: State, key: int -> int, id: int)
    requires Consistent(s, key) && id !in s.rows
    ensures !Holds(s.months, id)
  {
    forall k | k in s.months ensures !HasId(s.months[k], id) {
      assert GoodBucket(s, key, k);
      forall i | 0 <= i < |s.months[k]| ensures s.months[k][i].id != id {
        assert InPlace(s, key, k, s.months[k][i]);
      }
    }
  }

  lemma GrowKeeps(s: State, key: int -> int, r: Row)
    requires Consistent(s, key) && r.id !in s.rows
    ensures Consistent(s.(rows := s.rows[r.id := r]), key)
  {
    var t := s.(rows := s.rows[r.id := r]);
    forall k | k in t.months ensures GoodBucket(t, key, k) {
      assert GoodBucket(s, key, k);
      assert forall q :: q in s.months[k] ==> InPlace(s, key, k, q);
    }
  }

  function Run(s: State, steps: seq<Step>, key: int -> int): State
    decreases |steps|
  {
    if steps == [] then s else Run(Apply(s, steps[0], key), steps[1..], key)
  }

  ghost predicate AllAllowed(s: State, steps: seq<Step>, key: int -> int)
    decreases |steps|
  {
    steps != [] ==> Allowed(s, steps[0]) && AllAllowed(Apply(s, steps[0], key), steps[1..], key)
  }

  lemma {:induction false} OneMoreStep(s: State, steps: seq<Step>, step: Step, key: int -> int)
    ensures Run(s, [], key) == s && AllAllowed(s, [], key)
    ensures Run(s, steps + [step], key) == Apply(Run(s, steps, key), step, key)
    ensures AllAllowed(s, steps + [step], key) <==> AllAllowed(s, steps, key) && Allowed(Run(s, steps, key), step)
    decreases |steps|
  {
    hide Apply, Allowed;
    if steps == [] {
      assert steps + [step] == [step] && [step][1..] == [];
    } else {
      assert (steps + [step])[1..] == steps[1..] + [step];
      OneMoreStep(Apply(s, steps[0], key), steps[1..], step, key);
    }
  }

  lemma {:induction false} RunKeepsConsistent(s: State, steps: seq<Step>, key: int -> int)
    requires Consistent(s, key) && AllAllowed(s, steps, key)
    ensures Consistent(Run(s, steps, key), key)
    decreases |steps|
  {
    if steps != [] {
      StepKeepsConsistent(s, steps[0], key);
      RunKeepsConsistent(Apply(s, steps[0], key), steps[1..], key);
    }
  }

  // ---------------------------------------------------------------- how the vectors are changed

  predicate OnlyPlace(months: map<int, seq<Row>>, k: int, i: nat)
    requires k in months && i < |months[k]|
  {
    forall l, j :: l in months && 0 <= j < |months[l]| && months[l][j].id == months[k][i].id ==> l == k && j == i
  }

  lemma ConsistentHasOnePlace(s: State, key: int -> int, k: int, i: nat)
    requires Consistent(s, key) && k in s.months && i < |s.months[k]|
    ensures OnlyPlace(s.months, k, i)
  {
    forall l, j: nat | l in s.months && j < |s.months[l]| && s.months[l][j].id == s.months[k][i].id
      ensures l == k && j == i
    {
      OnePlace(s, key, k, i, l, j);
    }
  }

  /** Overwriting the values keeps every id where it is. */
  lemma SamePlace(months: map<int, seq<Row>>, k: int, i: nat, r: Row, l: int, j: nat)
    requires k in months && i < |months[k]| && months[k][i].id == r.id && OnlyPlace(months, k, i)
    requires var renewed := months[k := Renewed(months[k], r)];
      l in renewed && j < |renewed[l]| && renewed[l][j].id == r.id
    ensures l == k && j == i
  {
    assert months[l][j].id == r.id;
  }

  function Erased(b: seq<Row>, i: nat): seq<Row>
    requires i < |b|
  {
    b[..i] + b[i + 1..]
  }

  /** Erasing the entry and then a bucket left empty is what Without says. */
  lemma ErasedIsWithout(s: State, key: int -> int, k: int, i: nat)
    requires Consistent(s, key) && k in s.months && i < |s.months[k]|
    ensures Without(s.months, s.months[k][i].id)
         == if |s.months[k]| == 1 then s.months - {k} else s.months[k := Erased(s.months[k], i)]
  {
    var id := s.months[k][i].id;
    ConsistentHasOnePlace(s, key, k, i);
    assert GoodBucket(s, key, k);
    OthersAround(s.months[k], i);
    forall l | l in s.months && l != k ensures Others(s.months[l], id) == s.months[l] && s.months[l] != [] {
      assert GoodBucket(s, key, l);
      NoneOut(s.months[l], id);
    }
  }

  /** MoveEntryToMonth on the entry at (k, i). */
  function Moved(months: map<int, seq<Row>>, k: int, i: nat, newKey: int): map<int, seq<Row>>
    requires k in months && i < |months[k]|
  {
    if k == newKey then months
    else
      var added := Added(months[k := Erased(months[k], i)], newKey, months[k][i]);
      if |months[k]| == 1 then added - {k} else added
  }

  /** Writing the new values into the entry and then moving it is what Edited says. */
  lemma MovedIsEdited(s: State, key: int -> int, k: int, i: nat, r: Row)
    requires Consistent(s, key) && k in s.months && i < |s.months[k]| && s.months[k][i].id == r.id
    ensures Moved(s.months[k := Renewed(s.months[k], r)], k, i, key(r.start)) == Edited(s.months, key(r.start), r)
  {
    var newKey, b := key(r.start), s.months[k];
    ConsistentHasOnePlace(s, key, k, i);
    if k != newKey {
      assert newKey in s.months ==> !HasId(s.months[newKey], r.id);
      assert Renewed(b, r)[i] == r;
      assert Erased(Renewed(b, r), i) == Erased(b, i);
      ErasedIsWithout(s, key, k, i);
    }
  }

  // ---------------------------------------------------------------- nothing else changes

  /** The row an id has in the buckets. */
  ghost predicate Shows(months: map<int, seq<Row>>, r: Row) {
    exists k :: k in months && r in months[k]
  }

  lemma EditIsLocal(s: State, key: int -> int, r: Row)
    requires Consistent(s, key) && Holds(s.months, r.id)
    ensures var t := Edited(s.months, key(r.start), r);
      && Shows(t, r)
      && forall q: Row :: q.id != r.id ==> (Shows(t, q) <==> Shows(s.months, q))
  {
    hide Holds;
    var k, t := key(r.start), Edited(s.months, key(r.start), r);
    forall l | l in s.months ensures DistinctIds(s.months[l]) && s.months[l] != [] {
      assert GoodBucket(s, key, l);
    }
    if k in s.months && HasId(s.months[k], r.id) {
      var at :| 0 <= at < |s.months[k]| && s.months[k][at].id == r.id;
      assert t[k][at] == r;
      forall q: Row | q.id != r.id ensures Shows(t, q) <==> Shows(s.months, q) {
        RenewedElsewhere(s.months[k], r, q);
        if Shows(s.months, q) {
          var l :| l in s.months && q in s.months[l];
          assert l in t && q in t[l];
        }
        if Shows(t, q) {
          var l :| l in t && q in t[l];
          assert l in s.months && q in s.months[l];
        }
      }
    } else {
      assert k in t && t[k][|t[k]| - 1] == r;
      forall q: Row | q.id != r.id ensures Shows(t, q) <==> Shows(s.months, q) {
        DropIsLocal(s, key, r.id, q);
        var w := Without(s.months, r.id);
        if Shows(w, q) {
          var l :| l in w && q in w[l];
          assert l in t && q in t[l];
        }
        if Shows(t, q) {
          var l :| l in t && q in t[l];
          assert l in w && q in w[l];
        }
      }
    }
  }

  lemma RenewedElsewhere(b: seq<Row>, r: Row, q: Row)
    requires q.id != r.id
    ensures q in Renewed(b, r) <==> q in b
  {
    if q in b {
      var i :| 0 <= i < |b| && b[i] == q;
      assert Renewed(b, r)[i] == q;
    }
  }

  lemma DropIsLocal(s: State, key: int -> int, id: int, q: Row)
    requires Consistent(s, key)
    ensures Shows(Without(s.months, id), q) <==> Shows(s.months, q) && q.id != id
  {
    var w := Without(s.months, id);
    forall k | k in s.months ensures forall r :: r in Others(s.months[k], id) <==> r in s.months[k] && r.id != id {
      assert GoodBucket(s, key, k);
      OthersAre(s.months[k], id);
    }
    if Shows(s.months, q) && q.id != id {
      var k :| k in s.months && q in s.months[k];
      assert q in Others(s.months[k], id);
      assert k in w && q in w[k];
    }
    if Shows(w, q) {
      var k :| k in w && q in w[k];
      assert k in s.months && q in s.months[k];
    }
  }

  lemma AddIsLocal(months: map<int, seq<Row>>, k: int, r: Row, q: Row)
    ensures Shows(Added(months, k, r), q) <==> Shows(months, q) || q == r
  {
    var t := Added(months, k, r);
    assert t[k][|t[k]| - 1] == r;
    if Shows(months, q) {
      var l :| l in months && q in months[l];
      assert l in t && q in t[l];
    }
    if Shows(t, q) {
      var l :| l in t && q in t[l];
      assert (l in months && q in months[l]) || q == r;
    }
  }

  // ---------------------------------------------------------------- what each step does

  /** What a step does to the storage and to the rows that are shown, whatever bucket they are in. */
  lemma StepMeans(s: State, step: Step, key: int -> int, q: Row)
    requires Consistent(s, key) && Allowed(s, step)
    ensures var t := Apply(s, step, key);
      match step
      case Forget => t.rows == s.rows && !Shows(t.months, q)
      case Load(r) => t.rows == s.rows && (Shows(t.months, q) <==> Shows(s.months, q) || q == r)
      case Insert(r) => t.rows == s.rows[r.id := r] && (Shows(t.months, q) <==> Shows(s.months, q) || q == r)
      case Orphan(r) => t.rows == s.rows[r.id := r] && t.months == s.months
      case Edit(r) =>
        t.rows == s.rows[r.id := r] && (Shows(t.months, q) <==> q == r || (q.id != r.id && Shows(s.months, q)))
      case Delete(id) => t.rows == s.rows - {id} && (Shows(t.months, q) <==> q.id != id && Shows(s.months, q))
      case Failed => t == s
  {
    hide Consistent, Holds, Edited, Without, Added;
    match step
    case Load(r) => AddIsLocal(s.months, key(r.start), r, q);
    case Insert(r) => AddIsLocal(s.months, key(r.start), r, q);
    case Edit(r) =>
      EditIsLocal(s, key, r);
      StepKeepsConsistent(s, step, key);
      if q.id == r.id && Shows(Apply(s, step, key).months, q) {
        ShownIsStored(Apply(s, step, key), key, q);
      }
    case Delete(id) => DropIsLocal(s, key, id, q);
    case _ =>
  }

  lemma ShownIsStored(s: State, key: int -> int, q: Row)
    requires Consistent(s, key) && Shows(s.months, q)
    ensures q.id in s.rows && s.rows[q.id] == q
  {
    var k :| k in s.months && q in s.months[k];
    assert GoodBucket(s, key, k);
    assert InPlace(s, key, k, q);
  }

  /** A loaded or inserted row comes last in the bucket of its start; the other buckets stay as they are. */
  lemma StepAppends(s: State, step: Step, key: int -> int)
    requires step.Load? || step.Insert?
    ensures var t, k := Apply(s, step, key).months, key(step.row.start);
      && t.Keys == s.months.Keys + {k}
      && t[k] == (if k in s.months then s.months[k] else []) + [step.row]
      && forall l :: l in s.months && l != k ==> t[l] == s.months[l]
  {}
}
