/** The live layout editor: edits a table of register rows in place. */
module LayoutEditor {
  import opened Bytes
  import opened RegisterItems
  import opened LayoutSpec
  import opened LayoutLaws

  datatype EditResult = EditResult(result: Result<nat>, selectedIndex: nat)

  class RegisterTable {
    var items: seq<ModbusItem>

    ghost predicate Valid()
      reads this
    {
      Distinct(items)
    }

    constructor ()
      ensures Valid() && items == []
    {
      items := [];
    }

    /** The maximal touching run around a row, found by walking outwards from it. */
    method FindContiguousGroup(index: nat) returns (r: Result<Group>)
      ensures r == FindGroup(Views(items), index)
    {
      ghost var v := Views(items);
      if index >= |items| {
        return Failure(NoSelection);
      }
      var groupStart: nat := index;
      while groupStart > 0
        invariant groupStart <= index && GroupStart(v, index) == GroupStart(v, groupStart)
      {
        var previousEnd := items[groupStart - 1].offset + items[groupStart - 1].Size();
        var currentStart := items[groupStart].offset;
        if previousEnd < currentStart {
          break;
        }
        if previousEnd > currentStart {
          return Failure(OverlapBefore);
        }
        groupStart := groupStart - 1;
      }
      assert GroupStart(v, index) == Success(groupStart);
      var groupEnd: nat := index;
      while groupEnd + 1 < |items|
        invariant index <= groupEnd < |items| && GroupEnd(v, index) == GroupEnd(v, groupEnd)
      {
        var currentEnd := items[groupEnd].offset + items[groupEnd].Size();
        var nextStart := items[groupEnd + 1].offset;
        if currentEnd < nextStart {
          break;
        }
        if currentEnd > nextStart {
          return Failure(OverlapAfter);
        }
        groupEnd := groupEnd + 1;
      }
      return Success(Group(groupStart, groupEnd));
    }

    method SetOffset(at: nat, offset: nat)
      requires Valid() && at < |items|
      modifies items[at]
      ensures Views(items) == Placed(old(Views(items)), at, offset)
    {
      items[at].offset := offset;
      assert forall k :: 0 <= k < |items| && k != at ==> items[k] != items[at];
    }

    /** Give the rows of a group consecutive addresses. */
    method Reflow(first: nat, last: nat, startOffset: nat)
      requires Valid() && first <= last < |items|
      modifies items
      ensures Views(items) == Reflowed(old(Views(items)), first, last, startOffset)
    {
      hide TotalSize, Views;
      ghost var v := Views(items);
      var offset: nat := startOffset;
      assert SizeBefore(v, first, first) == 0 by { NoRows(v[first..first]); }
      for i := first to last + 1
        invariant PartlyLaid(v, Views(items), first, i, startOffset)
        invariant offset == startOffset + SizeBefore(v, first, i)
      {
        var size := items[i].Size();
        LayOneMore(v, Views(items), first, i, startOffset);
        SetOffset(i, offset);
        offset := offset + size;
      }
      ReflowedRows(v, first, last, startOffset, Views(items));
    }

    method WouldOverlapNext(last: nat) returns (r: bool)
      requires last < |items|
      ensures r == OverlapsNext(Views(items), last)
    {
      r := last + 1 < |items| && items[last].offset + items[last].Size() >= items[last + 1].offset;
    }

    /** Swap two neighbouring rows of a group and reflow it. */
    method SwapRows(k: nat, g: Group)
      requires Valid() && g.first <= k < g.last < |items|
      modifies this, items
      ensures Valid() && items == Swapped(old(items), k)
      ensures Views(items) == Relaid(old(Views(items)), g, Swapped(Rows(old(Views(items)), g), k - g.first))
    {
      hide Views, Laid, Relaid, Reflowed;
      ghost var v := Views(items);
      var groupOffset := items[g.first].offset;
      ViewsSwapped(items, k);
      SwapThenReflow(v, g, k);
      items := Swapped(items, k);
      Reflow(g.first, g.last, groupOffset);
    }

    method PutRow(at: nat, row: ModbusItem)
      requires Valid() && at <= |items| && row !in items
      modifies this
      ensures Valid() && items == Inserted(old(items), at, row)
      ensures Views(items) == Inserted(old(Views(items)), at, row.View())
      ensures forall i :: 0 <= i < |items| ==> items[i] == row || items[i] in old(items)
    {
      ViewsInserted(items, at, row);
      items := Inserted(items, at, row);
    }

    method TakeRow(at: nat)
      requires Valid() && at < |items|
      modifies this
      ensures Valid() && items == Removed(old(items), at)
      ensures Views(items) == Removed(old(Views(items)), at)
      ensures forall i :: 0 <= i < |items| ==> items[i] in old(items)
    {
      ViewsRemoved(items, at);
      items := Removed(items, at);
    }

    /** Take a row out of its group and reflow what is left of it. */
    method DeleteRow(index: nat, g: Group)
      requires Valid() && g.first <= index <= g.last < |items|
      modifies this, items
      ensures Valid() && items == Removed(old(items), index)
      ensures Views(items) == Relaid(old(Views(items)), g, Removed(Rows(old(Views(items)), g), index - g.first))
    {
      hide Views, Laid, Relaid, Reflowed;
      ghost var v := Views(items);
      var groupOffset := items[g.first].offset;
      RemoveThenReflow(v, g, index);
      TakeRow(index);
      if g.first < g.last && g.first < |items| {
        Reflow(g.first, g.last - 1, groupOffset);
      }
    }

    /** Put a new row after `index` and reflow the group, which may then reach the next one. */
    method PutBelow(index: nat, g: Group) returns (row: ModbusItem)
      requires Valid() && IsGroup(Views(items), index, g)
      modifies this, items
      ensures Valid() && fresh(row) && items == Inserted(old(items), index + 1, row) && |items| == |old(items)| + 1
      ensures var v := old(Views(items));
              Views(items) == Relaid(v, g, Inserted(Rows(v, g), index - g.first + 1, NewRegister(v[index])))
    {
      hide Views, Laid, Relaid, Reflowed, TotalSize, IsGroup, ReachesNext, OverlapsNext, Rows, Removed, Inserted,
        Distinct, Item.Size;
      ghost var v := Views(items);
      GroupBounds(v, index, g);
      var groupOffset := items[g.first].offset;
      row := new ModbusItem(NewRegister(items[index].View()));
      InsertedLength(items, index + 1, row);
      InsertThenReflow(v, index, g);
      PutRow(index + 1, row);
      Reflow(g.first, g.last + 1, groupOffset);
    }

    /** Put a new row after `index` and reflow the group; take it out again if the group would reach the next one. */
    method InsertRow(index: nat, g: Group) returns (inserted: bool)
      requires Valid() && IsGroup(Views(items), index, g)
      modifies this, items
      ensures Valid()
      ensures var v := old(Views(items));
              var rows := Inserted(Rows(v, g), index - g.first + 1, NewRegister(v[index]));
              inserted == !ReachesNext(v, g, rows) && Views(items) == if inserted then Relaid(v, g, rows) else v
      ensures !inserted ==> items == old(items)
      ensures inserted ==> |items| == |old(items)| + 1 && fresh(items[index + 1]) &&
                           items == Inserted(old(items), index + 1, items[index + 1])
    {
      hide Views, Laid, Relaid, Reflowed, TotalSize, IsGroup, ReachesNext, OverlapsNext, Rows, Removed, Inserted,
        Distinct, Item.Size;
      ghost var v, before := Views(items), items;
      GroupBounds(v, index, g);
      var groupOffset := items[g.first].offset;
      InsertThenReflow(v, index, g);
      InsertThenRemove(v, index, g);
      var row := PutBelow(index, g);
      InsertedLength(before, index + 1, row);
      var overlaps := WouldOverlapNext(g.last + 1);
      if overlaps {
        RemovedInserted(before, index + 1, row);
        TakeRow(index + 1);
        Reflow(g.first, g.last, groupOffset);
      }
      inserted := !overlaps;
    }

    /**
     * One edit of the layout.  The table afterwards is what the edit means on
     * values; a refused edit leaves the same rows with the same contents, even
     * though an insertion is carried out before it is checked.
     */
    method EditLayout(index: nat, action: Action) returns (r: EditResult)
      requires Valid()
      modifies this, items
      ensures Valid()
      ensures Outcome(Views(items), r.result) == LayoutSpec.EditLayout(old(Views(items)), index, action)
      ensures r.result.Failure? ==> r.selectedIndex == index && items == old(items)
      ensures r.result.Success? ==> r.selectedIndex == r.result.value && SameRows(old(items), items, index, action)
      ensures r.result.Success? && action.InsertAfter? ==> |items| > index + 1 && fresh(items[index + 1])
    {
      hide Laid, Relaid, Views, FindGroup, IsGroup, Contiguous, ReachesNext, LayoutSpec.EditLayout, Rows;
      ghost var v := Views(items);
      var group := FindContiguousGroup(index);
      if group.Failure? {
        FindFails(v, index, action);
        return EditResult(Failure(group.error), index);
      }
      var g := group.value;
      FindGroupIs(v, index, g);
      GroupBounds(v, index, g);
      match action
      case MoveUp =>
        MoveUpIs(v, index, g);
        if index == g.first {
          return EditResult(Failure(AtTop), index);
        }
        SwapRows(index - 1, g);
        return EditResult(Success(index - 1), index - 1);
      case MoveDown =>
        if index == g.last {
          LastStays(v, index, g);
          return EditResult(Failure(AtBottom), index);
        }
        MoveDownIs(v, index, g);
        SwapRows(index, g);
        return EditResult(Success(index + 1), index + 1);
      case Delete =>
        DeleteIs(v, index, g);
        DeleteRow(index, g);
        var left := |items|;
        var selected := if left == 0 then 0 else if index < left then index else left - 1;
        return EditResult(Success(selected), selected);
      case InsertAfter =>
        InsertIs(v, index, g);
        var inserted := InsertRow(index, g);
        if !inserted {
          return EditResult(Failure(LayoutSpec.WouldOverlapNext), index);
        }
        return EditResult(Success(index + 1), index + 1);
    }

    /** One type change, carried out and then taken back if it would reach the next group. */
    method ChangeType(index: nat, newType: RegisterType) returns (r: EditResult)
      requires Valid()
      modifies items
      ensures Valid() && items == old(items)
      ensures Outcome(Views(items), r.result) == LayoutSpec.ChangeType(old(Views(items)), index, newType)
      ensures r.selectedIndex == index
    {
      hide Laid, Relaid, Views, FindGroup, IsGroup, Contiguous, ReachesNext, TotalSize, Reflowed, OverlapsNext, Rows,
        WithType;
      ghost var v := Views(items);
      if index >= |items| {
        return EditResult(Failure(NoSelection), index);
      }
      if items[index].kind == Bool {
        return EditResult(Failure(BitField), index);
      }
      if !IsSizedType(newType) {
        return EditResult(Failure(UnsupportedType), index);
      }
      var group := FindContiguousGroup(index);
      if group.Failure? {
        return EditResult(Failure(group.error), index);
      }
      var g := group.value;
      FindGroupIs(v, index, g);
      GroupBounds(v, index, g);
      RetypeIs(v, index, g, newType);
      RetypeThenReflow(v, index, g, newType);
      RetypeThenBack(v, index, g, newType);
      var groupOffset := items[g.first].offset;
      var oldType, oldSize, oldValue := items[index].kind, items[index].registerSize, items[index].value;
      SetType(index, newType, None, NO_VALUE);
      Reflow(g.first, g.last, groupOffset);
      var overlaps := WouldOverlapNext(g.last);
      if overlaps {
        SetType(index, oldType, oldSize, oldValue);
        Reflow(g.first, g.last, groupOffset);
        return EditResult(Failure(LayoutSpec.WouldOverlapNext), index);
      }
      return EditResult(Success(index), index);
    }

    method SetType(at: nat, kind: RegisterType, size: Option<nat>, value: RegisterValue)
      requires Valid() && at < |items|
      modifies items[at]
      ensures Views(items) == WithType(old(Views(items)), at, kind, size, value)
    {
      items[at].kind := kind;
      items[at].registerSize := size;
      items[at].value := value;
      assert forall k :: 0 <= k < |items| && k != at ==> items[k] != items[at];
    }
  }

  // ---------------------------------------------------------------- the in-place steps, on values

  predicate OverlapsNext(v: seq<Item>, last: nat)
    requires last < |v|
  {
    last + 1 < |v| && v[last].End() >= v[last + 1].offset
  }

  /** Which row objects a successful edit keeps, and in what order. */
  ghost predicate SameRows(before: seq<ModbusItem>, after: seq<ModbusItem>, index: nat, action: Action) {
    && index < |before|
    && match action
       case MoveUp => index > 0 && after == Swapped(before, index - 1)
       case MoveDown => index + 1 < |before| && after == Swapped(before, index)
       case Delete => after == Removed(before, index)
       case InsertAfter => |after| == |before| + 1 && after == Inserted(before, index + 1, after[index + 1])
  }

  /** Row by row: a move exchanges two row objects, a deletion takes one out, an insertion puts a new one in. */
  lemma SameRowsAre(before: seq<ModbusItem>, after: seq<ModbusItem>, index: nat, action: Action)
    requires SameRows(before, after, index, action)
    ensures index < |before|
    ensures action.MoveUp? || action.MoveDown? ==>
      var other: int := if action.MoveUp? then index - 1 else index + 1;
      && 0 <= other < |before| && |after| == |before|
      && after[other] == before[index] && after[index] == before[other]
      && forall j :: 0 <= j < |before| && j != index && j != other ==> after[j] == before[j]
    ensures action.Delete? ==>
      && |after| == |before| - 1
      && forall j :: 0 <= j < |after| ==> after[j] == before[if j < index then j else j + 1]
    ensures action.InsertAfter? ==>
      && |after| == |before| + 1
      && forall j :: 0 <= j < |before| ==> after[if j <= index then j else j + 1] == before[j]
  {}

  lemma LastStays(v: seq<Item>, index: nat, g: Group)
    requires IsGroup(v, index, g) && index == g.last
    ensures LayoutSpec.EditLayout(v, index, MoveDown) == Outcome(v, Failure(AtBottom))
  {
    FindGroupIs(v, index, g);
  }

  lemma FindFails(v: seq<Item>, index: nat, action: Action)
    requires FindGroup(v, index).Failure?
    ensures LayoutSpec.EditLayout(v, index, action) == Outcome(v, Failure(FindGroup(v, index).error))
  {}

  lemma {:induction false} ViewsSwapped(items: seq<ModbusItem>, k: nat)
    requires k + 1 < |items|
    ensures Views(Swapped(items, k)) == Swapped(Views(items), k)
    ensures Distinct(items) ==> Distinct(Swapped(items, k))
    ensures forall x :: x in Swapped(items, k) ==> x in items
  {
    hide Views;
    assert |Views(Swapped(items, k))| == |Swapped(Views(items), k)|;
  }

  lemma {:induction false} ViewsRemoved(items: seq<ModbusItem>, k: nat)
    requires k < |items|
    ensures Views(Removed(items, k)) == Removed(Views(items), k)
    ensures Distinct(items) ==> Distinct(Removed(items, k))
    ensures forall x :: x in Removed(items, k) ==> x in items
  {
    hide Views, Distinct;
    var shorter, w := Removed(items, k), Removed(Views(items), k);
    assert |Views(shorter)| == |w|;
    forall i | 0 <= i < |w| ensures Views(shorter)[i] == w[i] {
      if i < k {
        assert shorter[i] == items[i] && w[i] == Views(items)[i];
      } else {
        assert shorter[i] == items[i + 1] && w[i] == Views(items)[i + 1];
      }
    }
    RemovedDistinct(items, k);
  }

  lemma RemovedDistinct(items: seq<ModbusItem>, k: nat)
    requires k < |items|
    ensures Distinct(items) ==> Distinct(Removed(items, k))
    ensures forall x :: x in Removed(items, k) ==> x in items
  {}

  lemma {:induction false} ViewsInserted(items: seq<ModbusItem>, k: nat, item: ModbusItem)
    requires k <= |items| && item !in items
    ensures Views(Inserted(items, k, item)) == Inserted(Views(items), k, item.View())
    ensures Distinct(items) ==> Distinct(Inserted(items, k, item))
    ensures forall x :: x in Inserted(items, k, item) ==> x == item || x in items
  {
    hide Views, Distinct;
    var longer, w := Inserted(items, k, item), Inserted(Views(items), k, item.View());
    assert |Views(longer)| == |w|;
    forall i | 0 <= i < |w| ensures Views(longer)[i] == w[i] {
      if i < k {
        assert longer[i] == items[i] && w[i] == Views(items)[i];
      } else if i > k {
        assert longer[i] == items[i - 1] && w[i] == Views(items)[i - 1];
      }
    }
    InsertedDistinct(items, k, item);
  }

  lemma InsertedDistinct(items: seq<ModbusItem>, k: nat, item: ModbusItem)
    requires k <= |items| && item !in items
    ensures Distinct(items) ==> Distinct(Inserted(items, k, item))
    ensures forall x :: x in Inserted(items, k, item) ==> x == item || x in items
  {}

  lemma ReflowedIsRelaid(v: seq<Item>, g: Group, rows: seq<Item>)
    requires g.first <= g.last < |v| && rows != []
    ensures var w := v[..g.first] + rows + v[g.last + 1..];
      Reflowed(w, g.first, g.first + |rows| - 1, v[g.first].offset) == Relaid(v, g, rows)
  {
    hide Laid;
    var w := v[..g.first] + rows + v[g.last + 1..];
    assert w[g.first..g.first + |rows|] == rows;
  }

  lemma SwapThenReflow(v: seq<Item>, g: Group, k: nat)
    requires g.first <= k < g.last < |v|
    ensures Reflowed(Swapped(v, k), g.first, g.last, v[g.first].offset)
         == Relaid(v, g, Swapped(Rows(v, g), k - g.first))
  {
    hide Laid, Reflowed, Relaid;
    var rows := Swapped(Rows(v, g), k - g.first);
    assert Swapped(v, k) == v[..g.first] + rows + v[g.last + 1..];
    ReflowedIsRelaid(v, g, rows);
  }

  lemma RemoveThenReflow(v: seq<Item>, g: Group, index: nat)
    requires g.first <= index <= g.last < |v|
    ensures g.first < g.last ==>
              Reflowed(Removed(v, index), g.first, g.last - 1, v[g.first].offset)
              == Relaid(v, g, Removed(Rows(v, g), index - g.first))
    ensures g.first == g.last ==> Removed(v, index) == Relaid(v, g, Removed(Rows(v, g), index - g.first))
  {
    hide Reflowed;
    var rows := Removed(Rows(v, g), index - g.first);
    assert Removed(v, index) == v[..g.first] + rows + v[g.last + 1..];
    if g.first < g.last {
      ReflowedIsRelaid(v, g, rows);
    } else {
      assert rows == [];
    }
  }

  /** An insertion and its overlap test. */
  lemma InsertThenReflow(v: seq<Item>, index: nat, g: Group)
    requires IsGroup(v, index, g)
    ensures var item := NewRegister(v[index]);
            var rows := Inserted(Rows(v, g), index - g.first + 1, item);
            var w := Relaid(v, g, rows);
      && Reflowed(Inserted(v, index + 1, item), g.first, g.last + 1, v[g.first].offset) == w
      && |w| == |v| + 1
      && OverlapsNext(w, g.last + 1) == ReachesNext(v, g, rows)
  {
    hide Laid, Reflowed, TotalSize, Relaid, Contiguous, ReachesNext, OverlapsNext, Inserted, NewRegister;
    var item := NewRegister(v[index]);
    var rows := Inserted(Rows(v, g), index - g.first + 1, item);
    InsertedInside(v, g.first, g.last + 1, index + 1, item);
    InsertedLength(Rows(v, g), index - g.first + 1, item);
    ReflowedIsRelaid(v, g, rows);
    OverlapMeansReach(v, g, rows);
    RelaidParts(v, g, rows);
  }

  /** Taking the inserted row out again restores the layout. */
  lemma InsertThenRemove(v: seq<Item>, index: nat, g: Group)
    requires IsGroup(v, index, g)
    ensures var w := Relaid(v, g, Inserted(Rows(v, g), index - g.first + 1, NewRegister(v[index])));
      && |w| == |v| + 1
      && Reflowed(Removed(w, index + 1), g.first, g.last, v[g.first].offset) == v
  {
    hide Laid, Reflowed, TotalSize, Relaid, Unplaced, IsGroup, Rows, Removed, Inserted;
    GroupBounds(v, index, g);
    var item, k, start := NewRegister(v[index]), index - g.first + 1, v[g.first].offset;
    var rows := Inserted(Rows(v, g), k, item);
    var w, g' := Relaid(v, g, rows), Group(g.first, g.last + 1);
    InsertedLength(Rows(v, g), k, item);
    RelaidParts(v, g, rows);
    RowsRelaid(v, g, rows);
    RelaidStart(v, g, rows);
    RemoveBack(Rows(v, g), k, item, start);
    RelaidBack(v, index, g, rows, Removed(Laid(rows, start), k));
    RemoveThenReflow(w, g', index + 1);
  }

  lemma InsertedLength<T>(s: seq<T>, k: nat, x: T)
    requires k <= |s|
    ensures |Inserted(s, k, x)| == |s| + 1 && Inserted(s, k, x)[k] == x
  {}

  lemma InsertedInside<T>(s: seq<T>, i: nat, j: nat, k: nat, x: T)
    requires i <= k <= j <= |s|
    ensures Inserted(s, k, x) == s[..i] + Inserted(s[i..j], k - i, x) + s[j..]
  {}

  lemma RemovedInserted<T>(s: seq<T>, k: nat, x: T)
    requires k <= |s|
    ensures k < |Inserted(s, k, x)| && Removed(Inserted(s, k, x), k) == s
  {}

  lemma ThreeParts<T>(s: seq<T>, i: nat, j: nat)
    requires i <= j <= |s|
    ensures s == s[..i] + s[i..j] + s[j..]
  {}

  /** A type change and its overlap test. */
  lemma RetypeThenReflow(v: seq<Item>, index: nat, g: Group, kind: RegisterType)
    requires IsGroup(v, index, g)
    ensures var rows := Rows(v, g)[index - g.first := Retyped(v[index], kind)];
            var w := Relaid(v, g, rows);
      && Reflowed(WithType(v, index, kind, None, NO_VALUE), g.first, g.last, v[g.first].offset) == w
      && |w| == |v|
      && OverlapsNext(w, g.last) == ReachesNext(v, g, rows)
  {
    hide Laid, Reflowed, TotalSize, Relaid, Contiguous, ReachesNext, OverlapsNext;
    var rows := Rows(v, g)[index - g.first := Retyped(v[index], kind)];
    assert WithType(v, index, kind, None, NO_VALUE) == v[..g.first] + rows + v[g.last + 1..];
    ReflowedIsRelaid(v, g, rows);
    OverlapMeansReach(v, g, rows);
    RelaidParts(v, g, rows);
  }

  /** Giving the row its old type, declared size and value back restores the layout. */
  lemma RetypeThenBack(v: seq<Item>, index: nat, g: Group, kind: RegisterType)
    requires IsGroup(v, index, g)
    ensures var w := Relaid(v, g, Rows(v, g)[index - g.first := Retyped(v[index], kind)]);
      && |w| == |v|
      && Reflowed(WithType(w, index, v[index].kind, v[index].registerSize, v[index].value),
                  g.first, g.last, v[g.first].offset) == v
  {
    hide Laid, Reflowed, TotalSize, Relaid, Unplaced, IsGroup, Retyped, WithType, Rows;
    GroupBounds(v, index, g);
    var k, rows := index - g.first, Rows(v, g)[index - g.first := Retyped(v[index], kind)];
    RelaidParts(v, g, rows);
    RowsRelaid(v, g, rows);
    RelaidStart(v, g, rows);
    RowOfGroup(v, index, g);
    RetypeBack(Rows(v, g), k, kind, v[g.first].offset);
    RelaidBack(v, index, g, rows,
               WithType(Laid(rows, v[g.first].offset), k, v[index].kind, v[index].registerSize, v[index].value));
    RetypeInPlace(Relaid(v, g, rows), g, index, v[index].kind, v[index].registerSize, v[index].value);
  }

  /** Retyping a row and reflowing its group is laying out the group with that row retyped. */
  lemma RetypeInPlace(
    w: seq<Item>, g: Group, index: nat, kind: RegisterType, size: Option<nat>, value: RegisterValue)
    requires g.first <= index <= g.last < |w|
    ensures Reflowed(WithType(w, index, kind, size, value), g.first, g.last, w[g.first].offset)
         == Relaid(w, g, WithType(Rows(w, g), index - g.first, kind, size, value))
  {
    hide Laid, Reflowed, Relaid, WithType;
    var rows := Rows(w, g);
    ThreeParts(w, g.first, g.last + 1);
    WithTypeInside(w[..g.first], rows, w[g.last + 1..], index - g.first, kind, size, value);
    WithTypeLength(rows, index - g.first, kind, size, value);
    ReflowedIsRelaid(w, g, WithType(rows, index - g.first, kind, size, value));
  }

  lemma RowOfGroup(v: seq<Item>, index: nat, g: Group)
    requires g.first <= index <= g.last < |v|
    ensures Rows(v, g)[index - g.first] == v[index]
  {}

  lemma WithTypeLength(v: seq<Item>, at: nat, kind: RegisterType, size: Option<nat>, value: RegisterValue)
    requires at < |v|
    ensures |WithType(v, at, kind, size, value)| == |v|
  {}

  lemma WithTypeInside(
    a: seq<Item>, b: seq<Item>, c: seq<Item>, k: nat, kind: RegisterType, size: Option<nat>, value: RegisterValue)
    requires k < |b|
    ensures WithType(a + b + c, |a| + k, kind, size, value) == a + WithType(b, k, kind, size, value) + c
  {}

  lemma RetypeBack(rows: seq<Item>, k: nat, kind: RegisterType, start: nat)
    requires k < |rows|
    ensures var laid := Laid(rows[k := Retyped(rows[k], kind)], start);
      Unplaced(WithType(laid, k, rows[k].kind, rows[k].registerSize, rows[k].value)) == Unplaced(rows)
  {
    hide Laid;
    var changed := rows[k := Retyped(rows[k], kind)];
    var laid := Laid(changed, start);
    UnplacedLaid(changed, start);
    forall i | 0 <= i < |rows|
      ensures Unplaced(WithType(laid, k, rows[k].kind, rows[k].registerSize, rows[k].value))[i] == Unplaced(rows)[i]
    {
      assert Unplaced(laid)[i] == Unplaced(changed)[i];
    }
  }

  lemma RelaidStart(v: seq<Item>, g: Group, rows: seq<Item>)
    requires g.first <= g.last < |v| && rows != []
    ensures g.first + |rows| <= |Relaid(v, g, rows)| && Relaid(v, g, rows)[g.first].offset == v[g.first].offset
  {
    hide Laid, TotalSize, Relaid;
    RelaidParts(v, g, rows);
    LaidIsContiguous(rows, v[g.first].offset);
    assert Relaid(v, g, rows)[g.first + 0] == Laid(rows, v[g.first].offset)[0];
  }

  lemma OverlapMeansReach(v: seq<Item>, g: Group, rows: seq<Item>)
    requires g.first <= g.last < |v| && rows != []
    ensures g.first + |rows| <= |Relaid(v, g, rows)|
    ensures OverlapsNext(Relaid(v, g, rows), g.first + |rows| - 1) == ReachesNext(v, g, rows)
  {
    hide Laid, TotalSize, Relaid;
    RelaidParts(v, g, rows);
    LaidIsContiguous(rows, v[g.first].offset);
    var w, n := Relaid(v, g, rows), g.first + |rows|;
    assert w[g.first + (|rows| - 1)] == Laid(rows, v[g.first].offset)[|rows| - 1];
    if n < |w| {
      assert w[n] == v[g.last + 1];
    }
  }

  /** v with one row's type, declared size and value replaced. */
  function WithType(v: seq<Item>, at: nat, kind: RegisterType, size: Option<nat>, value: RegisterValue): seq<Item>
    requires at < |v|
  {
    v[at := v[at].(kind := kind, registerSize := size, value := value)]
  }

  /** v with one row at another address. */
  function Placed(v: seq<Item>, at: nat, offset: nat): seq<Item>
    requires at < |v|
  {
    v[at := v[at].(offset := offset)]
  }

  function SizeBefore(v: seq<Item>, first: nat, at: nat): nat
    requires first <= at <= |v|
  {
    TotalSize(v[first..at])
  }

  /** w is v with the rows from `first` up to `at` laid out. */
  ghost predicate PartlyLaid(v: seq<Item>, w: seq<Item>, first: nat, at: nat, start: nat)
    requires first <= at <= |v|
  {
    && |w| == |v|
    && (forall k :: 0 <= k < |v| && !(first <= k < at) ==> w[k] == v[k])
    && (forall k {:trigger w[k]} :: first <= k < at ==> w[k] == v[k].(offset := start + SizeBefore(v, first, k)))
  }

  lemma LayOneMore(v: seq<Item>, w: seq<Item>, first: nat, at: nat, start: nat)
    requires first <= at < |v| && PartlyLaid(v, w, first, at, start)
    ensures PartlyLaid(v, Placed(w, at, start + SizeBefore(v, first, at)), first, at + 1, start)
    ensures SizeBefore(v, first, at + 1) == SizeBefore(v, first, at) + w[at].Size()
    ensures SizeBefore(v, first, first) == 0
  {
    hide TotalSize;
    assert v[first..at + 1] == v[first..at] + [v[at]];
    TotalSizeJoin(v[first..at], [v[at]]);
    SingleSize(v[at]);
    NoRows(v[first..first]);
  }

  function Reflowed(v: seq<Item>, first: nat, last: nat, start: nat): (w: seq<Item>)
    requires first <= last < |v|
    ensures |w| == |v|
  {
    v[..first] + Laid(v[first..last + 1], start) + v[last + 1..]
  }

  lemma ReflowedRows(v: seq<Item>, first: nat, last: nat, start: nat, w: seq<Item>)
    requires first <= last < |v| && PartlyLaid(v, w, first, last + 1, start)
    ensures w == Reflowed(v, first, last, start)
  {
    hide TotalSize, Laid;
    var rows := v[first..last + 1];
    forall k | first <= k <= last ensures w[k] == Reflowed(v, first, last, start)[k] {
      LaidAt(rows, start, k - first);
      assert rows[..k - first] == v[first..k];
      assert Reflowed(v, first, last, start)[k] == Laid(rows, start)[k - first];
    }
  }
}
