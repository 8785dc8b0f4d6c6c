/** What each edit of a register layout does to the rows, and exactly when it is refused. */
module LayoutEffects {
  import opened Bytes
  import opened RegisterItems
  import opened LayoutSpec
  import opened LayoutLaws

  /** The same row, but for its address. */
  predicate SameRow(a: Item, b: Item) {
    a == b.(offset := a.offset)
  }

  lemma SameRowIff(a: Item, b: Item)
    ensures SameRow(a, b) <==>
      && a.name == b.name && a.branches == b.branches && a.byteOrder == b.byteOrder
      && a.manualAddress == b.manualAddress && a.kind == b.kind && a.registerSize == b.registerSize
      && a.value == b.value
  {}

  /** Laying out a group changes addresses only. */
  lemma RelaidRows(v: seq<Item>, g: Group, rows: seq<Item>)
    requires g.first <= g.last < |v|
    ensures var w, u := Relaid(v, g, rows), v[..g.first] + rows + v[g.last + 1..];
      |w| == |u| && forall j :: 0 <= j < |w| ==> SameRow(w[j], u[j])
  {
    hide Laid, Relaid;
    var w, u := Relaid(v, g, rows), v[..g.first] + rows + v[g.last + 1..];
    RelaidParts(v, g, rows);
    forall j | 0 <= j < |w| ensures SameRow(w[j], u[j]) {
      var k := j - g.first;
      if 0 <= k < |rows| {
        LaidAt(rows, v[g.first].offset, k);
        assert w[g.first + k] == Laid(rows, v[g.first].offset)[k];
      }
    }
  }

  // ---------------------------------------------------------------- moving

  /** Moving up exchanges a row with the one above it in its group, and is refused exactly at the top of the group. */
  lemma MoveUpDoes(v: seq<Item>, index: nat, g: Group)
    requires IsGroup(v, index, g)
    ensures var outcome := EditLayout(v, index, MoveUp);
      if index == g.first then outcome == Outcome(v, Failure(AtTop))
      else
        && outcome.result == Success(index - 1) && |outcome.layout| == |v|
        && SameRow(outcome.layout[index - 1], v[index]) && SameRow(outcome.layout[index], v[index - 1])
        && forall j :: 0 <= j < |v| && j != index && j != index - 1 ==> SameRow(outcome.layout[j], v[j])
  {
    hide Relaid, EditLayout, IsGroup, Rows;
    GroupBounds(v, index, g);
    MoveUpIs(v, index, g);
    if index > g.first {
      RelaidRows(v, g, Swapped(Rows(v, g), index - g.first - 1));
      SwappedAt(v, g, index - 1);
    }
  }

  lemma MoveDownDoes(v: seq<Item>, index: nat, g: Group)
    requires IsGroup(v, index, g)
    ensures var outcome := EditLayout(v, index, MoveDown);
      if index == g.last then outcome == Outcome(v, Failure(AtBottom))
      else
        && outcome.result == Success(index + 1) && |outcome.layout| == |v|
        && SameRow(outcome.layout[index + 1], v[index]) && SameRow(outcome.layout[index], v[index + 1])
        && forall j :: 0 <= j < |v| && j != index && j != index + 1 ==> SameRow(outcome.layout[j], v[j])
  {
    hide Relaid, EditLayout, IsGroup, Rows;
    GroupBounds(v, index, g);
    if index < g.last {
      MoveDownIs(v, index, g);
      RelaidRows(v, g, Swapped(Rows(v, g), index - g.first));
      SwappedAt(v, g, index);
    } else {
      StaysAtBottom(v, index, g);
    }
  }

  lemma StaysAtBottom(v: seq<Item>, index: nat, g: Group)
    requires IsGroup(v, index, g) && index == g.last
    ensures EditLayout(v, index, MoveDown) == Outcome(v, Failure(AtBottom))
  {
    FindGroupIs(v, index, g);
  }

  lemma SwappedAt(v: seq<Item>, g: Group, k: nat)
    requires g.first <= k < g.last < |v|
    ensures v[..g.first] + Swapped(Rows(v, g), k - g.first) + v[g.last + 1..] == Swapped(v, k)
  {
    SwapInside(v, g.first, g.last + 1, k);
  }

  lemma SwapInside<T>(s: seq<T>, i: nat, j: nat, k: nat)
    requires i <= k && k + 1 < j <= |s|
    ensures s[..i] + Swapped(s[i..j], k - i) + s[j..] == Swapped(s, k)
  {}

  lemma RemoveInside<T>(s: seq<T>, i: nat, j: nat, k: nat)
    requires i <= k < j <= |s|
    ensures s[..i] + Removed(s[i..j], k - i) + s[j..] == Removed(s, k)
  {}

  lemma InsertInside<T>(s: seq<T>, i: nat, j: nat, k: nat, x: T)
    requires i <= k <= j <= |s|
    ensures s[..i] + Inserted(s[i..j], k - i, x) + s[j..] == Inserted(s, k, x)
  {}

  lemma ReplaceInside<T>(s: seq<T>, i: nat, j: nat, k: nat, x: T)
    requires i <= k < j <= |s|
    ensures s[..i] + s[i..j][k - i := x] + s[j..] == s[k := x]
  {}

  // ---------------------------------------------------------------- deleting and inserting

  /** Deleting is never refused; the selection goes to the row that takes the place, or to the new last row. */
  lemma DeleteDoes(v: seq<Item>, index: nat, g: Group)
    requires IsGroup(v, index, g)
    ensures var outcome := EditLayout(v, index, Delete);
      && outcome.result.Success? && |outcome.layout| == |v| - 1
      && (index < |v| - 1 ==> outcome.result.value == index)
      && (index == |v| - 1 > 0 ==> outcome.result.value == index - 1)
      && (|v| == 1 ==> outcome.result.value == 0)
      && (forall j :: 0 <= j < index ==> SameRow(outcome.layout[j], v[j]))
      && (forall j :: index <= j < |v| - 1 ==> SameRow(outcome.layout[j], v[j + 1]))
  {
    hide Relaid, EditLayout, IsGroup;
    GroupBounds(v, index, g);
    DeleteIs(v, index, g);
    RelaidRows(v, g, Removed(Rows(v, g), index - g.first));
    RemoveInside(v, g.first, g.last + 1, index);
  }

  /** An inserted row is a 16-bit register of the same branches right below, without a value. */
  lemma InsertDoes(v: seq<Item>, index: nat, g: Group)
    requires IsGroup(v, index, g) && EditLayout(v, index, InsertAfter).result.Success?
    ensures var outcome := EditLayout(v, index, InsertAfter);
      && outcome.result == Success(index + 1) && |outcome.layout| == |v| + 1
      && SameRow(outcome.layout[index + 1],
                 Item("new_register", v[index].branches, Default, -1, 0, UI16, None, IntegerValue(0)))
      && (forall j :: 0 <= j <= index ==> SameRow(outcome.layout[j], v[j]))
      && (forall j :: index < j < |v| ==> SameRow(outcome.layout[j + 1], v[j]))
  {
    hide Relaid, EditLayout, IsGroup, ReachesNext, Rows, Inserted;
    GroupBounds(v, index, g);
    InsertIs(v, index, g);
    RelaidRows(v, g, Inserted(Rows(v, g), index - g.first + 1, NewRegister(v[index])));
    InsertedAt(v, g, index, NewRegister(v[index]));
  }

  lemma InsertedAt(v: seq<Item>, g: Group, index: nat, row: Item)
    requires g.first <= index <= g.last < |v|
    ensures v[..g.first] + Inserted(Rows(v, g), index - g.first + 1, row) + v[g.last + 1..]
         == Inserted(v, index + 1, row)
    ensures var u := Inserted(v, index + 1, row);
      && |u| == |v| + 1 && u[index + 1] == row
      && (forall j :: 0 <= j <= index ==> u[j] == v[j])
      && (forall j :: index < j < |v| ==> u[j + 1] == v[j])
  {
    InsertInside(v, g.first, g.last + 1, index + 1, row);
  }

  // ---------------------------------------------------------------- changing a type

  /**
   * A type change is refused exactly for a bit, for a type that is not a
   * register of its own, and where the group would then reach the next one.
   */
  lemma TypeRefusedIff(v: seq<Item>, index: nat, g: Group, kind: RegisterType)
    requires WellFormed(v) && IsGroup(v, index, g)
    ensures ChangeType(v, index, kind).result.Failure? <==>
      || v[index].kind == Bool
      || kind in {Bool, UI8, I8, Text, Invalid}
      || (g.last < |v| - 1
          && v[g.last].End() - v[index].Size() + RegisterCount(kind) >= v[g.last + 1].offset)
  {
    hide Relaid, Laid, TotalSize, Item.Size, Item.End;
    GroupBounds(v, index, g);
    if v[index].kind == Bool || kind in {Bool, UI8, I8, Text, Invalid} {
      UnfitType(v, index, kind);
    } else {
      hide ChangeType;
      var rows, k := Rows(v, g), index - g.first;
      RetypeIs(v, index, g, kind);
      GroupIsLaid(v, index, g);
      RetypedSize(v[index], kind);
      ReplaceTotal(rows, k, Retyped(v[index], kind));
    }
  }

  /** The error tells which: a bit first, then the type. */
  lemma UnfitType(v: seq<Item>, index: nat, kind: RegisterType)
    requires index < |v|
    ensures v[index].kind == Bool ==> ChangeType(v, index, kind).result == Failure(BitField)
    ensures v[index].kind != Bool && kind in {Bool, UI8, I8, Text, Invalid} ==>
      ChangeType(v, index, kind).result == Failure(UnsupportedType)
  {}

  lemma ReplaceTotal(rows: seq<Item>, k: nat, item: Item)
    requires k < |rows|
    ensures TotalSize(rows[k := item]) == TotalSize(rows) - rows[k].Size() + item.Size()
  {
    hide TotalSize;
    assert rows == rows[..k] + ([rows[k]] + rows[k + 1..]);
    assert rows[k := item] == rows[..k] + ([item] + rows[k + 1..]);
    TotalSizeJoin(rows[..k], [rows[k]] + rows[k + 1..]);
    TotalSizeJoin([rows[k]], rows[k + 1..]);
    TotalSizeJoin(rows[..k], [item] + rows[k + 1..]);
    TotalSizeJoin([item], rows[k + 1..]);
    SingleSize(rows[k]);
    SingleSize(item);
  }

  /** A done type change: the row has the new type, no declared size and no value; every other row is the same row. */
  lemma TypeChangeDoes(v: seq<Item>, index: nat, g: Group, kind: RegisterType)
    requires IsGroup(v, index, g) && ChangeType(v, index, kind).result.Success?
    ensures var outcome := ChangeType(v, index, kind);
      && outcome.result == Success(index) && |outcome.layout| == |v|
      && SameRow(outcome.layout[index],
                 v[index].(kind := kind, registerSize := None, value := IntegerValue(0)))
      && forall j :: 0 <= j < |v| && j != index ==> SameRow(outcome.layout[j], v[j])
  {
    hide Relaid, IsGroup, ReachesNext;
    GroupBounds(v, index, g);
    FindGroupIs(v, index, g);
    RelaidRows(v, g, Rows(v, g)[index - g.first := Retyped(v[index], kind)]);
    ReplaceInside(v, g.first, g.last + 1, index, Retyped(v[index], kind));
  }

  /** No row, no edit. */
  lemma NothingSelected(v: seq<Item>, index: nat, action: Action, kind: RegisterType)
    requires index >= |v|
    ensures EditLayout(v, index, action) == Outcome(v, Failure(NoSelection))
    ensures ChangeType(v, index, kind) == Outcome(v, Failure(NoSelection))
  {}
}
