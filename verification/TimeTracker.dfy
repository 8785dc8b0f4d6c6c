/** The time tracker: entries in month buckets, kept next to a storage whose operations may fail. */
module TimeTracker {
  import opened Bytes
  import opened TimeEntries
  import opened MonthIndex
  import opened MonthLoading
  import opened Overlaps
  import opened WorkTotals

  /** What the tracker relies on of its database: a table keyed by id. Which writes fail is not determined. */
  class Storage {
    var isOpen: bool
    var rows: map<int, Row>
    /** After how many rows a query breaks off, if it does. */
    var limit: Option<nat>

    /** The new row may be written although its id is too large to be returned. */
    method Insert(start: int, end: int, comment: string) returns (id: Option<int>, ghost row: Row)
      modifies this`rows
      ensures rows == old(rows) || (row.id !in old(rows) && rows == old(rows)[row.id := row])
      ensures row == Row(row.id, start, end, comment)
      ensures if id.Some? then rows != old(rows) && row.id == id.value && Fits(row.id)
              else rows != old(rows) ==> row.id > INT_MAX
    {
      id, row := None, Row(0, start, end, comment);
      var newId: int := *;
      if isOpen && newId >= INT_MIN && newId !in rows {
        rows := rows[newId := Row(newId, start, end, comment)];
        row := row.(id := newId);
        if newId <= INT_MAX {
          id := Some(newId);
        }
      }
    }

    method Update(id: int, start: int, end: int, comment: string) returns (ok: bool)
      modifies this`rows
      ensures ok ==> id in old(rows) && rows == old(rows)[id := Row(id, start, end, comment)]
      ensures !ok ==> rows == old(rows)
    {
      var accepted: bool := *;
      ok := isOpen && id in rows && accepted;
      if ok {
        rows := rows[id := Row(id, start, end, comment)];
      }
    }

    method Remove(id: int) returns (ok: bool)
      modifies this`rows
      ensures ok ==> id in old(rows) && rows == old(rows) - {id}
      ensures !ok ==> rows == old(rows)
    {
      var accepted: bool := *;
      ok := isOpen && id in rows && accepted;
      if ok {
        rows := rows - {id};
      }
    }

    /** The rows that start in a range, by start and then id, with their ids cut; fewer when the query breaks off. */
    method LoadRange(first: int, last: int) returns (loaded: seq<Row>, ghost stored: seq<Row>)
      requires Keyed(rows)
      ensures loaded == CutAll(stored)
      ensures if isOpen then IsResult(rows, first, last, limit, stored) else stored == []
    {
      hide IsResult, Returned, CutRow, Cut, Before;
      loaded, stored := [], [];
      if !isOpen {
        return;
      }
      var ids := IdsWithin(rows, first, last);
      NothingReturned(rows, first, last);
      while ids != {} && (limit.None? || |loaded| < limit.value)
        invariant Returned(rows, first, last, stored, ids) && ids <= rows.Keys
        invariant loaded == CutAll(stored) && (limit.Some? ==> |stored| <= limit.value)
        decreases |ids|
      {
        SomeEarliest(rows, ids);
        var id :| Earliest(rows, ids, id);
        ReturnNext(rows, first, last, stored, ids, id);
        loaded, stored := loaded + [CutRow(rows[id])], stored + [rows[id]];
        ids := ids - {id};
      }
      ReturnedResult(rows, first, last, limit, stored, ids);
    }
  }

  class TimeTracker {
    var months: map<int, MonthlyTimeEntry>
    var lastId: int
    const storage: Storage
    const MonthKey: int -> int
    const DayOfMonth: int -> int
    /** The first and the last second of a month. */
    const MonthBounds: (int, int) -> (int, int)

    ghost function Held(): set<TimeEntry>
      reads this`months, months.Values
    {
      set k, i | k in months && 0 <= i < |months[k].entries| :: months[k].entries[i]
    }

    ghost function View(): map<int, seq<Row>>
      reads this`months, months.Values, Held()
    {
      map k | k in months :: months[k].Rows()
    }

    ghost function AsState(): State
      reads this`months, months.Values, Held(), storage
    {
      State(View(), storage.rows)
    }

    ghost predicate Distinct()
      reads this`months
    {
      forall k, l :: k in months && l in months && k != l ==> months[k] != months[l]
    }

    /** The buckets and their entries are objects of their own. */
    ghost predicate Sound()
      reads this`months, months.Values
    {
      Distinct() && forall k :: k in months ==> months[k].Owned()
    }

    ghost predicate Valid()
      reads this`months, months.Values, Held(), storage
    {
      Distinct() && Consistent(AsState(), MonthKey)
    }

    constructor (storage: Storage, monthKey: int -> int, dayOfMonth: int -> int, monthBounds: (int, int) -> (int, int))
      requires Keyed(storage.rows)
      ensures Valid() && this.storage == storage && months == map[]
    {
      months, lastId, this.storage := map[], 0, storage;
      MonthKey, DayOfMonth, MonthBounds := monthKey, dayOfMonth, monthBounds;
    }

    /** Only bucket `key` lists other entries than before. */
    twostate predicate Relisted(key: int)
      reads this, months.Values
    {
      && months == old(months) && key in months
      && forall k :: k in months && k != key ==> months[k].entries == old(months[k].entries)
    }

    twostate lemma ViewRelisted(key: int)
      requires Relisted(key)
      requires forall e :: e in old(Held()) ==> unchanged(e)
      ensures View() == old(View())[key := RowsOf(months[key].entries)]
    {
      forall k | k in months && k != key ensures View()[k] == old(View())[k] {
        forall i: int | 0 <= i < |old(months[k].entries)|
          ensures months[k].entries[i].AsRow() == old(months[k].entries[i].AsRow())
        {
          assert old(months[k].entries)[i] in old(Held());
        }
      }
    }

    method PushBack(key: int, entry: TimeEntry)
      requires Distinct() && key in months
      modifies months.Values
      ensures months == old(months) && Held() == old(Held()) + {entry}
      ensures View() == old(View())[key := old(View())[key] + [entry.AsRow()]]
      ensures old(Sound()) && entry !in old(Held()) ==> Sound()
    {
      var month := months[key];
      month.entries := month.entries + [entry];
      HeldMore(entry, key);
      ViewRelisted(key);
      RowsOfMore(old(month.entries), entry);
      StillOwned(key, entry);
    }

    /** A new entry makes no object occur twice. */
    twostate lemma StillOwned(key: int, new entry: TimeEntry)
      requires Relisted(key) && months[key].entries == old(months[key].entries) + [entry]
      ensures old(Sound()) && entry !in old(Held()) ==> Sound()
    {
      if old(Sound()) && entry !in old(Held()) {
        forall k | k in months ensures months[k].Owned() {
          assert old(months[k].Owned());
          forall i: int | 0 <= i < |old(months[key].entries)| ensures old(months[key].entries)[i] != entry {
            assert old(months[key].entries)[i] in old(Held());
          }
        }
      }
    }

    lemma RowsOfMore(entries: seq<TimeEntry>, entry: TimeEntry)
      ensures RowsOf(entries + [entry]) == RowsOf(entries) + [entry.AsRow()]
    {}

    twostate lemma HeldMore(new entry: TimeEntry, key: int)
      requires Relisted(key) && months[key].entries == old(months[key].entries) + [entry]
      ensures Held() == old(Held()) + {entry}
    {
      var last := |months[key].entries| - 1;
      assert months[key].entries[last] == entry;
      forall e | e in old(Held()) ensures e in Held() {
        var k: int, i: int :| k in months && 0 <= i < |old(months[k].entries)| && old(months[k].entries)[i] == e;
        assert months[k].entries[i] == e;
      }
    }

    twostate predicate NewMonth(new month: MonthlyTimeEntry, key: int)
      reads this
    {
      key !in old(months) && months == old(months)[key := month]
    }

    twostate lemma SameHeld(new month: MonthlyTimeEntry, key: int)
      requires NewMonth(month, key) && month.entries == []
      requires forall k :: k in old(months) ==> unchanged(old(months)[k])
      ensures Held() == old(Held())
    {
      forall e | e in old(Held()) ensures e in Held() {
        var k: int, i: int :| k in old(months) && 0 <= i < |old(months[k].entries)| && old(months[k].entries)[i] == e;
        assert months[k].entries[i] == e;
      }
    }

    twostate lemma SameView(new month: MonthlyTimeEntry, key: int)
      requires NewMonth(month, key) && month.entries == []
      requires forall k :: k in old(months) ==> unchanged(old(months)[k])
      requires forall e :: e in old(Held()) ==> unchanged(e)
      ensures View() == old(View())[key := []]
    {
      forall k | k in old(months) ensures View()[k] == old(View())[k] {
        forall i: int | 0 <= i < |old(months[k].entries)|
          ensures months[k].entries[i].AsRow() == old(months[k].entries[i].AsRow())
        {
          assert old(months[k].entries)[i] in old(Held());
        }
      }
    }

    /** m_Entries.try_emplace(key). */
    method TryEmplace(key: int)
      requires Distinct()
      modifies this`months
      ensures Distinct() && fresh(months.Values - old(months.Values)) && key in months && Held() == old(Held())
      ensures View() == if key in old(View()) then old(View()) else old(View())[key := []]
      ensures old(Sound()) ==> Sound()
    {
      if key !in months {
        var month := new MonthlyTimeEntry();
        months := months[key := month];
        SameHeld(month, key);
        SameView(month, key);
      }
    }

    method Append(key: int, entry: TimeEntry)
      requires Distinct()
      modifies this`months, months.Values
      ensures Distinct() && fresh(months.Values - old(months.Values)) && Held() == old(Held()) + {entry}
      ensures View() == Added(old(View()), key, entry.AsRow())
      ensures old(Sound()) && entry !in old(Held()) ==> Sound()
    {
      hide View, Held;
      TryEmplace(key);
      PushBack(key, entry);
    }

    lemma StorageApart()
      ensures forall k :: k in months ==> (months[k] as object) != storage
      ensures forall e :: e in Held() ==> (e as object) != storage
    {}

    /** The buckets are not part of the storage. */
    twostate lemma EntriesApart()
      requires months == old(months) && (forall k :: k in months ==> unchanged(months[k]))
      requires forall e :: e in old(Held()) ==> unchanged(e)
      ensures Held() == old(Held()) && View() == old(View())
    {
      forall k | k in months ensures View()[k] == old(View())[k] {
        forall i: int | 0 <= i < |months[k].entries|
          ensures months[k].entries[i].AsRow() == old(months[k].entries[i].AsRow())
        {
          assert months[k].entries[i] in old(Held());
        }
      }
    }

    method AppendNew(start: int, end: int, comment: string, id: int) returns (entry: TimeEntry)
      requires Distinct()
      modifies this`months, months.Values
      ensures Distinct() && fresh(months.Values - old(months.Values))
      ensures fresh(entry) && Held() == old(Held()) + {entry} && entry.AsRow() == Row(id, start, end, comment)
      ensures View() == Added(old(View()), MonthKey(start), Row(id, start, end, comment))
      ensures old(Sound()) ==> Sound()
    {
      entry := new TimeEntry(start, end, comment, id);
      EntriesApart();
      Append(MonthKey(start), entry);
    }

    /** A refused insert may still have left a row that no bucket will show. */
    method InsertRow(start: int, end: int, comment: string) returns (id: Option<int>, ghost step: Step)
      modifies storage`rows
      ensures View() == old(View()) && Held() == old(Held())
      ensures Allowed(old(AsState()), step) && AsState() == Apply(old(AsState()), step, MonthKey)
      ensures step.Failed? || (step.Orphan? && step.row == Row(step.row.id, start, end, comment))
      ensures id.None? && step.Orphan? ==> step.row.id > INT_MAX
      ensures id.Some? ==> step == Orphan(Row(id.value, start, end, comment)) && Fits(id.value)
    {
      ghost var row;
      StorageApart();
      id, row := storage.Insert(start, end, comment);
      EntriesApart();
      step := if storage.rows == old(storage.rows) then Failed else Orphan(row);
    }

    /** An entry with an id is only put in its bucket: whether the index stays consistent is the caller's doing. */
    method AddEntry(start: int, end: int, comment: string, id: int) returns (entry: TimeEntry?, ghost step: Step)
      requires Distinct()
      modifies this`months, this`lastId, months.Values, storage`rows
      ensures Distinct() && fresh(months.Values - old(months.Values)) && (old(Sound()) ==> Sound())
      ensures if entry == null then Held() == old(Held()) else fresh(entry) && Held() == old(Held()) + {entry}
      ensures if storage.isOpen then StepFor(old(AsState()), Row(id, start, end, comment), step) else step.Failed?
      ensures AsState() == Apply(old(AsState()), step, MonthKey)
      ensures entry == null <==> step.Failed? || step.Orphan?
      ensures entry != null ==> entry.AsRow() == step.row
      ensures old(Valid()) && id <= INT_MAX ==> (Valid() <==> Allowed(old(AsState()), step))
    {
      hide Consistent, Holds, Added, View, Held, Sound, Allowed, Fits, Distinct;
      ghost var before := AsState();
      if !storage.isOpen {
        AddKeepsIffAllowed(before, Failed, MonthKey);
        return null, Failed;
      }
      var rowId := id;
      if id == 0 {
        var inserted;
        inserted, step := InsertRow(start, end, comment);
        FreshRow(before, step);
        if inserted.None? {
          AddKeepsIffAllowed(before, step, MonthKey);
          return null, step;
        }
        lastId := inserted.value;
        rowId := lastId;
      }
      StorageApart();
      entry := AppendNew(start, end, comment, rowId);
      step := if id == 0 then Insert(entry.AsRow()) else Load(entry.AsRow());
      AddKeepsIffAllowed(before, step, MonthKey);
    }

    // -------------------------------------------------------------- finding

    /** The search that FindEntry, RemoveEntry and MoveEntryToMonth share. */
    method Locate(id: int) returns (at: Option<(int, nat)>)
      ensures View() == old(View()) && Held() == old(Held())
      ensures at.None? ==> !MonthIndex.Holds(View(), id)
      ensures at.Some? ==> at.value.0 in months && at.value.1 < |months[at.value.0].entries|
                           && months[at.value.0].entries[at.value.1].id == id
    {
      var keys := months.Keys;
      while keys != {}
        invariant keys <= months.Keys
        invariant forall k :: k in months && k !in keys ==> !HasId(months[k].Rows(), id)
        decreases |keys|
      {
        SomeId(keys);
        var k :| k in keys;
        var entries := months[k].entries;
        var i: nat := 0;
        while i < |entries|
          invariant i <= |entries|
          invariant forall j :: 0 <= j < i ==> entries[j].id != id
        {
          if entries[i].id == id {
            return Some((k, i));
          }
          i := i + 1;
        }
        assert months[k].entries == entries;
        keys := keys - {k};
      }
      at := None;
    }

    method FindEntry(id: int) returns (entry: TimeEntry?)
      ensures entry == null <==> !MonthIndex.Holds(View(), id)
      ensures entry != null ==> entry in Held() && entry.id == id
    {
      var at := Locate(id);
      if at.None? {
        return null;
      }
      entry := months[at.value.0].entries[at.value.1];
      HeldHere(at.value.0, at.value.1);
    }

    lemma HeldHere(k: int, i: nat)
      requires k in months && i < |months[k].entries|
      ensures months[k].entries[i] in Held() && MonthIndex.Holds(View(), months[k].entries[i].id)
    {
      assert View()[k][i].id == months[k].entries[i].id;
    }

    // -------------------------------------------------------------- removing

    lemma RowsOfErased(entries: seq<TimeEntry>, i: nat)
      requires i < |entries|
      ensures RowsOf(entries[..i] + entries[i + 1..]) == Erased(RowsOf(entries), i)
    {}

    method EraseEntry(k: int, i: nat)
      requires Distinct() && k in months && i < |months[k].entries|
      modifies months.Values
      ensures months == old(months) && Held() <= old(Held())
      ensures View() == old(View())[k := Erased(old(View())[k], i)]
    {
      var month := months[k];
      month.entries := month.entries[..i] + month.entries[i + 1..];
      ViewRelisted(k);
      RowsOfErased(old(month.entries), i);
      forall e | e in Held() ensures e in old(Held()) {
        var l: int, j: int :| l in months && 0 <= j < |months[l].entries| && months[l].entries[j] == e;
        assert old(months[l].entries)[if l == k && j >= i then j + 1 else j] == e;
      }
    }

    method EraseMonth(k: int)
      requires Distinct()
      modifies this`months
      ensures Distinct() && months.Values <= old(months.Values) && Held() <= old(Held())
      ensures View() == old(View()) - {k}
    {
      months := months - {k};
    }

    method RemoveEntry(id: int) returns (ok: bool)
      requires Valid()
      modifies this`months, months.Values, storage`rows
      ensures Valid() && months.Values <= old(months.Values) && Held() <= old(Held())
      ensures ok ==> Allowed(old(AsState()), Delete(id)) && AsState() == Apply(old(AsState()), Delete(id), MonthKey)
      ensures !ok ==> AsState() == old(AsState())
    {
      hide Consistent, Without, Held, View, Holds;
      ghost var before := AsState();
      var at := Locate(id);
      if at.None? || !storage.isOpen {
        return false;
      }
      var k, i := at.value.0, at.value.1;
      LocatedAt(k, i);
      ok := RemoveRow(id);
      if !ok {
        return;
      }
      StepKeepsConsistent(before, Delete(id), MonthKey);
      ErasedIsWithout(before, MonthKey, k, i);
      StorageApart();
      EraseEntry(k, i);
      BucketLength(k);
      if months[k].entries == [] {
        EraseMonth(k);
      }
      assert AsState() == Apply(before, Delete(id), MonthKey);
    }

    method RemoveRow(id: int) returns (ok: bool)
      modifies storage`rows
      ensures View() == old(View()) && Held() == old(Held())
      ensures ok ==> id in old(storage.rows) && storage.rows == old(storage.rows) - {id}
      ensures !ok ==> storage.rows == old(storage.rows)
    {
      StorageApart();
      ok := storage.Remove(id);
      EntriesApart();
    }

    lemma BucketLength(k: int)
      requires k in months
      ensures k in View() && |View()[k]| == |months[k].entries|
    {}

    lemma LocatedAt(k: int, i: nat)
      requires k in months && i < |months[k].entries|
      ensures k in View() && |View()[k]| == |months[k].entries|
      ensures View()[k][i] == months[k].entries[i].AsRow()
      ensures MonthIndex.Holds(View(), months[k].entries[i].id)
    {
      HeldHere(k, i);
    }

    // -------------------------------------------------------------- moving and editing

    method MoveEntryToMonth(id: int, newKey: int) returns (ok: bool, ghost k: int, ghost i: nat)
      requires Distinct()
      modifies this`months, months.Values
      ensures Distinct() && fresh(months.Values - old(months.Values)) && Held() <= old(Held())
      ensures ok <==> MonthIndex.Holds(old(View()), id)
      ensures ok ==> k in old(View()) && i < |old(View())[k]| && old(View())[k][i].id == id
                     && View() == Moved(old(View()), k, i, newKey)
      ensures !ok ==> View() == old(View())
    {
      hide Held, View;
      k, i := 0, 0;
      var at := Locate(id);
      if at.None? {
        return false, k, i;
      }
      var month, index := at.value.0, at.value.1;
      LocatedAt(month, index);
      k, i, ok := month, index, true;
      if month == newKey {
        return;
      }
      var moved := months[month].entries[index];
      HeldHere(month, index);
      EraseEntry(month, index);
      BucketLength(month);
      var removeOldMonth := months[month].entries == [];
      Append(newKey, moved);
      if removeOldMonth {
        EraseMonth(month);
      }
    }

    /** The values of the entry at (k, i) are overwritten. */
    method Overwrite(k: int, i: nat, start: int, end: int, comment: string)
      requires k in months && i < |months[k].entries| && OnlyPlace(View(), k, i)
      modifies months[k].entries[i]
      ensures months == old(months) && Held() == old(Held())
      ensures MonthIndex.Holds(View(), old(View())[k][i].id)
      ensures View() == old(View())[k := Renewed(old(View())[k], Row(old(View())[k][i].id, start, end, comment))]
    {
      var entry := months[k].entries[i];
      ghost var before := View();
      entry.start, entry.end, entry.desc := start, end, comment;
      forall l: int, j: int | l in months && 0 <= j < |months[l].entries|
        ensures View()[l][j] == if l == k && j == i then entry.AsRow() else before[l][j]
        ensures before[l][j].id == entry.id ==> l == k && j == i
      {
        assert before[l][j].id == entry.id ==> before[l][j].id == before[k][i].id;
      }
      forall l | l in months && l != k ensures View()[l] == before[l] {}
      assert View()[k] == Renewed(before[k], entry.AsRow());
      HeldHere(k, i);
    }

    method Rewrite(k: int, i: nat, start: int, end: int, comment: string)
      requires Distinct() && k in months && i < |months[k].entries|
      requires k in View() && i < |View()[k]| && OnlyPlace(View(), k, i)
      modifies this`months, months.Values, months[k].entries[i]
      ensures Distinct() && fresh(months.Values - old(months.Values)) && Held() <= old(Held())
      ensures var row := Row(old(View())[k][i].id, start, end, comment);
        View() == Moved(old(View())[k := Renewed(old(View())[k], row)], k, i, MonthKey(start))
    {
      hide Held, View, Moved, Renewed;
      ghost var before := View();
      var id := months[k].entries[i].id;
      LocatedAt(k, i);
      Overwrite(k, i, start, end, comment);
      var ok;
      ghost var l, j;
      ok, l, j := MoveEntryToMonth(id, MonthKey(start));
      SamePlace(before, k, i, Row(id, start, end, comment), l, j);
    }

    method UpdateRow(id: int, start: int, end: int, comment: string) returns (ok: bool)
      modifies storage`rows
      ensures View() == old(View()) && Held() == old(Held())
      ensures ok ==> id in old(storage.rows) && storage.rows == old(storage.rows)[id := Row(id, start, end, comment)]
      ensures !ok ==> storage.rows == old(storage.rows)
    {
      StorageApart();
      ok := storage.Update(id, start, end, comment);
      EntriesApart();
    }

    method EditEntry(id: int, start: int, end: int, comment: string) returns (ok: bool)
      requires Valid()
      modifies this`months, months.Values, Held(), storage`rows
      ensures Valid() && fresh(months.Values - old(months.Values)) && Held() <= old(Held())
      ensures var step := Edit(Row(id, start, end, comment));
        ok ==> Allowed(old(AsState()), step) && AsState() == Apply(old(AsState()), step, MonthKey)
      ensures !ok ==> AsState() == old(AsState())
    {
      hide Consistent, Moved, Edited, Renewed, Held, View, Holds;
      ghost var before := AsState();
      var at := Locate(id);
      if at.None? || !storage.isOpen {
        return false;
      }
      var k, i := at.value.0, at.value.1;
      LocatedAt(k, i);
      ok := UpdateRow(id, start, end, comment);
      if !ok {
        return;
      }
      ghost var row := Row(id, start, end, comment);
      StepKeepsConsistent(before, Edit(row), MonthKey);
      ConsistentHasOnePlace(before, MonthKey, k, i);
      HeldHere(k, i);
      StorageApart();
      Rewrite(k, i, start, end, comment);
      MovedIsEdited(before, MonthKey, k, i, row);
      assert AsState() == Apply(before, Edit(row), MonthKey);
    }

    // -------------------------------------------------------------- loading and showing a month

    /** The flags, the view and the total of a month, if it has a bucket. */
    ghost predicate Serialized(key: int)
      reads this`months, months.Values, Held()
    {
      key in months ==>
        var m := months[key];
        && m.totalWorktime == Worked(m.Intervals(), |m.entries|)
        && IsView(m.serialized, m.Intervals(), DayOfMonth, |m.entries|)
        && forall i: nat :: i < |m.entries| ==> m.entries[i].isOverlap == Flagged(m.Intervals(), i)
    }

    method SerializeEntriesForOneMonth(year: int, month: int)
      requires Sound()
      modifies months.Values, Held()
      ensures Sound() && months == old(months) && Held() == old(Held())
      ensures AsState() == old(AsState()) && Valid() == old(Valid())
      ensures 1400 <= year <= 9999 && 1 <= month <= 12 ==> Serialized(year * 100 + month)
    {
      hide Flagged, Worked, IsView;
      if year < 1400 || year > 9999 || month < 1 || month > 12 {
        return;
      }
      var offset := year * 100 + month;
      if offset !in months {
        return;
      }
      var m := months[offset];
      HeldAll(offset);
      m.Serialize(DayOfMonth);
      SameRows(offset);
    }

    /** Entries with ids of their own are objects of their own. */
    lemma ValidIsSound()
      requires Valid()
      ensures Sound()
    {
      forall k | k in months ensures months[k].Owned() {
        assert GoodBucket(AsState(), MonthKey, k);
        var b, entries := View()[k], months[k].entries;
        forall i, j | 0 <= i < j < |entries| ensures entries[i] != entries[j] {
          assert b[i].id != b[j].id;
        }
      }
    }

    lemma HeldAll(k: int)
      requires k in months
      ensures forall e :: e in months[k].entries ==> e in Held()
    {
      forall e | e in months[k].entries ensures e in Held() {
        var i :| 0 <= i < |months[k].entries| && months[k].entries[i] == e;
        HeldHere(k, i);
      }
    }

    /** Only flags and views of bucket k were touched: every row reads as before. */
    twostate lemma SameRows(k: int)
      requires months == old(months) && k in months
      requires forall l :: l in months ==> months[l].entries == old(months[l].entries)
      requires forall e :: e in old(Held()) && e !in months[k].entries ==> unchanged(e)
      requires months[k].Rows() == old(months[k].Rows())
      ensures View() == old(View()) && Held() == old(Held())
    {
      forall l | l in months ensures View()[l] == old(View())[l] {
        forall i: int | 0 <= i < |months[l].entries|
          ensures months[l].entries[i].AsRow() == old(months[l].entries[i].AsRow())
        {
          var e := months[l].entries[i];
          assert e in old(Held());
          if e in months[k].entries {
            var j :| 0 <= j < |months[k].entries| && months[k].entries[j] == e;
            assert months[k].Rows()[j] == old(months[k].Rows())[j];
          }
        }
      }
    }

    method LoadRows(first: int, last: int) returns (loaded: seq<Row>, ghost stored: seq<Row>)
      requires Keyed(storage.rows)
      ensures View() == old(View()) && Held() == old(Held()) && loaded == CutAll(stored)
      ensures if storage.isOpen then IsResult(storage.rows, first, last, storage.limit, stored) else stored == []
    {
      loaded, stored := storage.LoadRange(first, last);
    }

    /** Every row the query returns becomes a step, in order; nothing is forgotten before. */
    method LoadEntriesForOneMonth(year: int, month: int) returns (ghost stored: seq<Row>, ghost steps: seq<Step>)
      requires Sound() && Keyed(storage.rows)
      modifies this`months, this`lastId, months.Values, Held(), storage`rows
      ensures Sound() && fresh(months.Values - old(months.Values)) && fresh(Held() - old(Held()))
      ensures var bounds := MonthBounds(year, month);
        if 1400 <= year <= 9999 && 1 <= month <= 12 && storage.isOpen
        then IsResult(old(storage.rows), bounds.0, bounds.1, storage.limit, stored) && Serialized(year * 100 + month)
        else stored == []
      ensures Loading(old(AsState()), CutAll(stored), steps, MonthKey)
      ensures AsState() == Run(old(AsState()), steps, MonthKey)
      ensures old(Valid()) ==> (Valid() <==> ReadWell(old(AsState()), CutAll(stored)))
      ensures Settled(old(storage.rows), storage.limit) ==>
        (ReadWell(old(AsState()), CutAll(stored)) <==> LoadsWell(old(AsState()), stored))
    {
      hide Consistent, Held, View, Holds, Run, Apply, Loading, StepFor, IsResult, Settled, LoadsWell, ReadWell, Flagged,
        Worked, IsView;
      ghost var before := AsState();
      stored, steps := [], [];
      NoSteps(before, MonthKey);
      LoadIsJudged(before, 0, 0, storage.limit, stored, steps, MonthKey);
      if year < 1400 || year > 9999 || month < 1 || month > 12 || !storage.isOpen {
        return;
      }
      var bounds := MonthBounds(year, month);
      var loaded;
      loaded, stored := LoadRows(bounds.0, bounds.1);
      ghost var created: set<TimeEntry> := {};
      var j: nat := 0;
      while j < |loaded|
        invariant j <= |loaded| && Sound() && storage.isOpen && storage.limit == old(storage.limit)
        invariant fresh(months.Values - old(months.Values))
        invariant fresh(created) && Held() <= old(Held()) + created
        invariant Loading(before, loaded[..j], steps, MonthKey) && AsState() == Run(before, steps, MonthKey)
      {
        var row := loaded[j];
        var entry;
        ghost var step;
        entry, step := AddEntry(row.start, row.end, row.comment, row.id);
        created := if entry == null then created else created + {entry};
        LoadingAppend(before, loaded[..j], steps, MonthKey, row, step);
        assert loaded[..j] + [row] == loaded[..j + 1];
        steps := steps + [step];
        j := j + 1;
      }
      assert loaded[..j] == loaded;
      LoadIsJudged(before, bounds.0, bounds.1, storage.limit, stored, steps, MonthKey);
      SerializeEntriesForOneMonth(year, month);
    }

    /** What is shown of a month whose bucket holds the rows read: theirs are the flags, the view and the total. */
    lemma MonthAsRead(year: int, month: int, rows: seq<Row>)
      requires Serialized(year * 100 + month) && rows != []
      requires View() == Filled(map[], year * 100 + month, rows)
      ensures months.Keys == {year * 100 + month}
      ensures var m, s := months[year * 100 + month], Spans(rows);
        && |m.entries| == |rows| && m.totalWorktime == Worked(s, |s|) && IsView(m.serialized, s, DayOfMonth, |s|)
        && forall i: nat :: i < |rows| ==>
             m.entries[i].AsRow() == rows[i] && m.entries[i].isOverlap == Flagged(s, i)
    {
      var k := year * 100 + month;
      assert View().Keys == {k};
      assert View()[k] == [] + rows == rows;
      assert months[k].Intervals() == Spans(months[k].Rows());
    }

    method ClearMonths()
      modifies this`months
      ensures months == map[] && View() == map[] && Held() == {} && Sound()
    {
      months := map[];
    }

    /**
     * Whatever the buckets held before, they now hold what the query returned:
     * for a month whose rows all belong to its bucket, that bucket alone.
     */
    method LoadEntries(year: int, month: int) returns (ghost stored: seq<Row>, ghost steps: seq<Step>)
      requires Keyed(storage.rows)
      modifies this`months, this`lastId, storage`rows
      ensures Sound() && fresh(months.Values) && fresh(Held())
      ensures var bounds := MonthBounds(year, month);
        if 1400 <= year <= 9999 && 1 <= month <= 12 && storage.isOpen
        then IsResult(old(storage.rows), bounds.0, bounds.1, storage.limit, stored) && Serialized(year * 100 + month)
        else stored == []
      ensures var empty := State(map[], old(storage.rows));
        Loading(empty, CutAll(stored), steps, MonthKey) && AsState() == Run(empty, steps, MonthKey)
      ensures Valid() <==> ReadWell(State(map[], old(storage.rows)), CutAll(stored))
      ensures Settled(old(storage.rows), storage.limit) ==> (Valid() <==> IdsComeBack(stored))
      ensures (forall r: Row :: r in stored ==> MonthKey(r.start) == year * 100 + month) ==>
        View() == Filled(map[], year * 100 + month, ShownRows(steps))
      ensures (forall r: Row :: r in stored ==> Fits(r.id) && r.id != 0) ==>
        ShownRows(steps) == stored && storage.rows == old(storage.rows)
    {
      hide Consistent, Run, Apply, View, Holds, Loading, IsResult, Settled, Filled, ShownRows, Flagged, Worked, IsView,
        Serialized, IdsComeBack, LoadsWell, ReadWell;
      ghost var rows := storage.rows;
      ClearMonths();
      EmptyIsConsistent(rows, MonthKey);
      stored, steps := LoadEntriesForOneMonth(year, month);
      LoadedFromNothing(rows, stored, steps, MonthKey, year * 100 + month);
      SerializeEntriesForOneMonth(year, month);
    }
  }

  lemma AddKeepsIffAllowed(s: State, step: Step, key: int -> int)
    requires step.Load? || step.Insert? || step.Orphan? || step.Failed?
    requires step.Insert? || step.Orphan? ==> step.row.id !in s.rows
    ensures Consistent(s, key) && (step.Load? ==> step.row.id <= INT_MAX) ==>
      (Consistent(Apply(s, step, key), key) <==> Allowed(s, step))
  {
    hide Consistent, Apply, Spoilt, Holds;
    if Consistent(s, key) && (step.Load? ==> step.row.id <= INT_MAX) {
      if Allowed(s, step) {
        StepKeepsConsistent(s, step, key);
      } else {
        LoadKeepsIffAllowed(s, key, step.row);
        SpoiltIsInconsistent(Apply(s, step, key), key, key(step.row.start));
      }
    }
  }

  lemma FreshRow(s: State, step: Step)
    requires Allowed(s, step)
    ensures step.Orphan? ==> step.row.id !in s.rows
  {}
}
