/** What every edit of a register layout keeps, over every run of edits. */
module LayoutLaws {
  import opened RegisterItems
  import opened LayoutSpec

  // ---------------------------------------------------------------- rows laid end to end

  lemma {:induction false} TotalSizeJoin(a: seq<Item>, b: seq<Item>)
    ensures TotalSize(a + b) == TotalSize(a) + TotalSize(b)
  {
    if a == [] {
      assert a + b == b;
    } else {
      assert (a + b)[1..] == a[1..] + b;
      TotalSizeJoin(a[1..], b);
    }
  }

  lemma {:induction false} LaidAt(items: seq<Item>, start: nat, k: nat)
    requires k < |items|
    ensures Laid(items, start)[k] == items[k].(offset := start + TotalSize(items[..k]))
    ensures Laid(items, start)[k].Size() == items[k].Size()
    decreases k
  {
    if k > 0 {
      LaidAt(items[1..], start + items[0].Size(), k - 1);
      assert items[..k] == [items[0]] + items[1..][..k - 1];
    }
  }

  lemma LaidEnd(items: seq<Item>, start: nat, k: nat)
    requires k < |items|
    ensures Laid(items, start)[k].End() == start + TotalSize(items[..k + 1])
  {
    LaidAt(items, start, k);
    assert items[..k + 1] == items[..k] + [items[k]];
    TotalSizeJoin(items[..k], [items[k]]);
    assert [items[k]][1..] == [];
  }

  lemma LaidIsContiguous(items: seq<Item>, start: nat)
    requires items != []
    ensures Contiguous(Laid(items, start), 0, |items| - 1)
    ensures Laid(items, start)[0].offset == start
    ensures Laid(items, start)[|items| - 1].End() == start + TotalSize(items)
  {
    forall i | 0 <= i < |items| - 1 ensures Laid(items, start)[i].End() == Laid(items, start)[i + 1].offset {
      LaidEnd(items, start, i);
      LaidAt(items, start, i + 1);
    }
    LaidEnd(items, start, |items| - 1);
    assert items[..|items|] == items;
  }

  lemma LaidSizes(items: seq<Item>, start: nat)
    ensures forall i :: 0 <= i < |items| ==> Laid(items, start)[i].Size() == items[i].Size()
  {
    forall i | 0 <= i < |items| ensures Laid(items, start)[i].Size() == items[i].Size() {
      LaidAt(items, start, i);
    }
  }

  lemma {:induction false} ContiguousOffset(rows: seq<Item>, k: nat)
    requires k < |rows| && Contiguous(rows, 0, |rows| - 1)
    ensures rows[k].offset == rows[0].offset + TotalSize(rows[..k])
    decreases k
  {
    hide TotalSize;
    if k == 0 {
      NoRows(rows[..0]);
    } else {
      ContiguousOffset(rows, k - 1);
      assert rows[k - 1].End() == rows[k].offset;
      assert rows[..k] == rows[..k - 1] + [rows[k - 1]];
      TotalSizeJoin(rows[..k - 1], [rows[k - 1]]);
      SingleSize(rows[k - 1]);
    }
  }

  lemma NoRows(rows: seq<Item>)
    requires rows == []
    ensures TotalSize(rows) == 0
  {}

  /** Rows that already touch are where laying them out would put them. */
  lemma {:induction false} ContiguousIsLaid(rows: seq<Item>)
    requires rows != [] && Contiguous(rows, 0, |rows| - 1)
    ensures Laid(rows, rows[0].offset) == rows
  {
    hide Laid, TotalSize;
    forall k | 0 <= k < |rows| ensures Laid(rows, rows[0].offset)[k] == rows[k] {
      LaidAt(rows, rows[0].offset, k);
      ContiguousOffset(rows, k);
    }
  }

  lemma GroupIsLaid(v: seq<Item>, index: nat, g: Group)
    requires IsGroup(v, index, g)
    ensures Laid(Rows(v, g), v[g.first].offset) == Rows(v, g)
    ensures Relaid(v, g, Rows(v, g)) == v
    ensures v[g.last].End() == v[g.first].offset + TotalSize(Rows(v, g))
  {
    hide TotalSize, Laid;
    var rows := Rows(v, g);
    forall i | 0 <= i < |rows| - 1 ensures rows[i].End() == rows[i + 1].offset {
      assert v[g.first + i].End() == v[g.first + i + 1].offset;
    }
    ContiguousIsLaid(rows);
    LaidIsContiguous(rows, v[g.first].offset);
    assert v == v[..g.first] + rows + v[g.last + 1..];
  }

  // ---------------------------------------------------------------- replacing a group's rows

  predicate NoneEmpty(rows: seq<Item>) {
    forall i :: 0 <= i < |rows| ==> rows[i].Size() >= 1
  }

  /** Where each row of the new layout comes from. */
  lemma RelaidParts(v: seq<Item>, g: Group, rows: seq<Item>)
    requires g.first <= g.last < |v|
    ensures var w := Relaid(v, g, rows);
      && |w| == |v| - (g.last + 1 - g.first) + |rows|
      && w[..g.first] == v[..g.first]
      && w[g.first + |rows|..] == v[g.last + 1..]
      && w[g.first..g.first + |rows|] == Laid(rows, v[g.first].offset)
      && (forall i :: 0 <= i < g.first ==> w[i] == v[i])
      && (forall i :: 0 <= i < |rows| ==> w[g.first + i] == Laid(rows, v[g.first].offset)[i])
      && (forall i {:trigger w[i]} :: g.first + |rows| <= i < |w| ==> w[i] == v[i - |rows| + g.last + 1 - g.first])
  {}

  /** The replaced rows form one maximal group at the old start address. */
  lemma RelaidGroup(v: seq<Item>, index: nat, g: Group, rows: seq<Item>, at: nat)
    requires WellFormed(v) && IsGroup(v, index, g) && rows != [] && !ReachesNext(v, g, rows)
    requires g.first <= at < g.first + |rows|
    ensures var w := Relaid(v, g, rows);
      && |w| >= g.first + |rows|
      && w[g.first].offset == v[g.first].offset
      && IsGroup(w, at, Group(g.first, g.first + |rows| - 1))
  {
    hide WellFormed, Laid, TotalSize, Relaid;
    var w, start := Relaid(v, g, rows), v[g.first].offset;
    var last := g.first + |rows| - 1;
    RelaidParts(v, g, rows);
    LaidIsContiguous(rows, start);
    assert w[g.first] == Laid(rows, start)[0] && w[last] == Laid(rows, start)[|rows| - 1];
    forall i | g.first <= i < last ensures w[i].End() == w[i + 1].offset {
      var k := i - g.first;
      assert w[g.first + k] == Laid(rows, start)[k] && w[g.first + (k + 1)] == Laid(rows, start)[k + 1];
    }
  }

  lemma RelaidNoneEmpty(v: seq<Item>, g: Group, rows: seq<Item>)
    requires g.first <= g.last < |v| && NoneEmpty(v) && NoneEmpty(rows)
    ensures NoneEmpty(Relaid(v, g, rows))
  {
    hide Laid, Relaid;
    var w, start := Relaid(v, g, rows), v[g.first].offset;
    RelaidParts(v, g, rows);
    LaidSizes(rows, start);
    forall i | 0 <= i < |w| ensures w[i].Size() >= 1 {
      if g.first <= i < g.first + |rows| {
        assert w[g.first + (i - g.first)] == Laid(rows, start)[i - g.first];
      }
    }
  }

  /** The row before the group stays clear of whatever now follows it. */
  lemma RelaidSeam(v: seq<Item>, index: nat, g: Group, rows: seq<Item>)
    requires WellFormed(v) && IsGroup(v, index, g) && !ReachesNext(v, g, rows)
    ensures var w := Relaid(v, g, rows);
      && (0 < g.first < |w| ==> w[g.first - 1].End() <= w[g.first].offset)
      && (rows != [] && g.first + |rows| < |w| ==>
            w[g.first + |rows| - 1].End() <= w[g.first + |rows|].offset)
  {
    hide Laid, Relaid, TotalSize, Item.Size;
    RelaidParts(v, g, rows);
    GroupAscends(v, index, g);
    if rows != [] {
      RelaidGroup(v, index, g, rows, g.first);
    }
  }

  lemma RelaidWellFormed(v: seq<Item>, index: nat, g: Group, rows: seq<Item>)
    requires WellFormed(v) && IsGroup(v, index, g) && NoneEmpty(rows) && !ReachesNext(v, g, rows)
    ensures WellFormed(Relaid(v, g, rows))
  {
    hide Laid, Relaid, TotalSize, ReachesNext, Item.Size, Item.End;
    var w, n := Relaid(v, g, rows), g.first + |rows|;
    RelaidParts(v, g, rows);
    RelaidNoneEmpty(v, g, rows);
    RelaidSeam(v, index, g, rows);
    forall i | 0 <= i < |w| - 1 ensures w[i].End() <= w[i + 1].offset {
      if g.first <= i < n - 1 {
        RelaidGroup(v, index, g, rows, g.first);
        assert Contiguous(w, g.first, n - 1);
      } else if i >= n {
        assert w[i] == v[i - |rows| + g.last + 1 - g.first];
        assert w[i + 1] == v[i + 1 - |rows| + g.last + 1 - g.first];
      }
    }
  }

  lemma GroupAscends(v: seq<Item>, index: nat, g: Group)
    requires IsGroup(v, index, g)
    ensures v[g.first].offset <= v[g.last].End()
  {
    GroupIsLaid(v, index, g);
  }

  // ---------------------------------------------------------------- what each edit does to the sizes

  lemma {:induction false} SwapKeepsSize(rows: seq<Item>, k: nat)
    requires k + 1 < |rows|
    ensures TotalSize(Swapped(rows, k)) == TotalSize(rows)
    ensures NoneEmpty(rows) ==> NoneEmpty(Swapped(rows, k))
  {
    hide TotalSize, NoneEmpty, Swapped;
    SwappedParts(rows, k);
    SwapKeepsTotal(rows[..k], rows[k], rows[k + 1], rows[k + 2..]);
    SwapKeepsNoneEmpty(rows, k);
  }

  lemma SwappedParts<T>(s: seq<T>, k: nat)
    requires k + 1 < |s|
    ensures s == s[..k] + [s[k], s[k + 1]] + s[k + 2..]
    ensures Swapped(s, k) == s[..k] + [s[k + 1], s[k]] + s[k + 2..]
  {}

  lemma SwapKeepsNoneEmpty(rows: seq<Item>, k: nat)
    requires k + 1 < |rows|
    ensures NoneEmpty(rows) ==> NoneEmpty(Swapped(rows, k))
  {}

  lemma SwapKeepsTotal(head: seq<Item>, a: Item, b: Item, tail: seq<Item>)
    ensures TotalSize(head + [a, b] + tail) == TotalSize(head + [b, a] + tail)
  {
    hide TotalSize;
    TotalSizeJoin(head + [a, b], tail);
    TotalSizeJoin(head, [a, b]);
    TotalSizeJoin(head + [b, a], tail);
    TotalSizeJoin(head, [b, a]);
    PairSize(a, b);
    PairSize(b, a);
  }

  lemma PairSize(a: Item, b: Item)
    ensures TotalSize([a, b]) == a.Size() + b.Size()
  {
    assert [a, b][1..] == [b] && [b][1..] == [];
    assert TotalSize([b]) == b.Size() + TotalSize([]);
  }

  lemma SingleSize(a: Item)
    ensures TotalSize([a]) == a.Size()
  {
    assert [a][1..] == [];
  }

  lemma RemoveShrinks(rows: seq<Item>, k: nat)
    requires k < |rows|
    ensures TotalSize(Removed(rows, k)) == TotalSize(rows) - rows[k].Size()
    ensures NoneEmpty(rows) ==> NoneEmpty(Removed(rows, k))
  {
    hide TotalSize;
    assert rows == rows[..k] + ([rows[k]] + rows[k + 1..]);
    TotalSizeJoin(rows[..k], [rows[k]] + rows[k + 1..]);
    TotalSizeJoin([rows[k]], rows[k + 1..]);
    TotalSizeJoin(rows[..k], rows[k + 1..]);
    SingleSize(rows[k]);
  }

  lemma {:induction false} InsertGrows(rows: seq<Item>, k: nat, item: Item)
    requires k <= |rows|
    ensures TotalSize(Inserted(rows, k, item)) == TotalSize(rows) + item.Size()
    ensures NoneEmpty(rows) && item.Size() >= 1 ==> NoneEmpty(Inserted(rows, k, item))
  {
    hide TotalSize;
    assert rows == rows[..k] + rows[k..];
    TotalSizeJoin(rows[..k], rows[k..]);
    TotalSizeJoin(rows[..k] + [item], rows[k..]);
    TotalSizeJoin(rows[..k], [item]);
    SingleSize(item);
  }

  /** The rows a successful edit leaves in the group. */
  function NewRows(v: seq<Item>, g: Group, edit: Edit): seq<Item>
    requires IsGroup(v, Row(edit), g) && Apply(v, edit).result.Success?
  {
    FindGroupIs(v, Row(edit), g);
    var rows, k := Rows(v, g), Row(edit) - g.first;
    match edit
    case TypeEdit(row, kind) => rows[k := Retyped(v[row], kind)]
    case LayoutEdit(index, action) =>
      match action
      case MoveUp => Swapped(rows, k - 1)
      case MoveDown => Swapped(rows, k)
      case Delete => Removed(rows, k)
      case InsertAfter => Inserted(rows, k + 1, NewRegister(v[index]))
  }

  function Row(edit: Edit): nat {
    match edit
    case LayoutEdit(index, _) => index
    case TypeEdit(row, _) => row
  }

  lemma MoveUpIs(v: seq<Item>, index: nat, g: Group)
    requires IsGroup(v, index, g)
    ensures EditLayout(v, index, MoveUp) ==
      if index == g.first then Outcome(v, Failure(AtTop))
      else Outcome(Relaid(v, g, Swapped(Rows(v, g), index - g.first - 1)), Success(index - 1))
  {
    hide Relaid, Swapped;
    FindGroupIs(v, index, g);
  }

  lemma MoveDownIs(v: seq<Item>, index: nat, g: Group)
    requires IsGroup(v, index, g) && index < g.last
    ensures EditLayout(v, index, MoveDown) ==
            Outcome(Relaid(v, g, Swapped(Rows(v, g), index - g.first)), Success(index + 1))
  {
    hide Relaid, Swapped;
    FindGroupIs(v, index, g);
  }

  lemma DeleteIs(v: seq<Item>, index: nat, g: Group)
    requires IsGroup(v, index, g)
    ensures EditLayout(v, index, Delete) ==
      var left := |v| - 1;
      Outcome(Relaid(v, g, Removed(Rows(v, g), index - g.first)),
              Success(if left == 0 then 0 else if index < left then index else left - 1))
  {
    hide Relaid, Removed;
    FindGroupIs(v, index, g);
  }

  lemma InsertIs(v: seq<Item>, index: nat, g: Group)
    requires IsGroup(v, index, g)
    ensures EditLayout(v, index, InsertAfter) ==
      var rows := Inserted(Rows(v, g), index - g.first + 1, NewRegister(v[index]));
      if ReachesNext(v, g, rows) then Outcome(v, Failure(WouldOverlapNext))
      else Outcome(Relaid(v, g, rows), Success(index + 1))
  {
    hide Relaid, Inserted, ReachesNext;
    FindGroupIs(v, index, g);
  }

  lemma RetypeIs(v: seq<Item>, index: nat, g: Group, kind: RegisterType)
    requires IsGroup(v, index, g) && !v[index].kind.Bool? && IsSizedType(kind)
    ensures ChangeType(v, index, kind) ==
      var rows := Rows(v, g)[index - g.first := Retyped(v[index], kind)];
      if ReachesNext(v, g, rows) then Outcome(v, Failure(WouldOverlapNext))
      else Outcome(Relaid(v, g, rows), Success(index))
  {
    hide Relaid, ReachesNext;
    FindGroupIs(v, index, g);
  }

  lemma GroupNoneEmpty(v: seq<Item>, index: nat, g: Group)
    requires WellFormed(v) && IsGroup(v, index, g)
    ensures NoneEmpty(Rows(v, g)) && !ReachesNext(v, g, Rows(v, g))
  {
    hide TotalSize, Laid, Relaid, Item.Size, Item.End, Contiguous;
    GroupIsLaid(v, index, g);
    RowsNoneEmpty(v, g);
  }

  lemma RowsNoneEmpty(v: seq<Item>, g: Group)
    requires WellFormed(v) && g.first <= g.last < |v|
    ensures NoneEmpty(Rows(v, g))
  {
    hide Item.Size;
  }

  lemma EditFindsGroup(v: seq<Item>, edit: Edit)
    requires Apply(v, edit).result.Success?
    ensures FindGroup(v, Row(edit)).Success? && IsGroup(v, Row(edit), FindGroup(v, Row(edit)).value)
    ensures edit.TypeEdit? ==> !v[edit.row].kind.Bool? && IsSizedType(edit.kind)
    ensures edit.LayoutEdit? && edit.action.MoveDown? ==> edit.index < FindGroup(v, edit.index).value.last
  {
    hide Relaid, ReachesNext;
    var found := FindGroup(v, Row(edit));
    if found.Success? {
      FindGroupIs(v, Row(edit), found.value);
    }
  }

  lemma EditRelays(v: seq<Item>, edit: Edit) returns (g: Group)
    requires WellFormed(v) && Apply(v, edit).result.Success?
    ensures g == FindGroup(v, Row(edit)).value && IsGroup(v, Row(edit), g)
    ensures Apply(v, edit).layout == Relaid(v, g, NewRows(v, g, edit))
    ensures NoneEmpty(NewRows(v, g, edit)) && !ReachesNext(v, g, NewRows(v, g, edit))
  {
    hide TotalSize, Laid, Relaid, Swapped, Removed, Inserted, WellFormed, IsGroup, EditLayout, ChangeType, Item.Size,
      Rows;
    var index := Row(edit);
    EditFindsGroup(v, edit);
    g := FindGroup(v, index).value;
    GroupBounds(v, index, g);
    GroupNoneEmpty(v, index, g);
    var rows, k := Rows(v, g), index - g.first;
    match edit
    case TypeEdit(row, kind) =>
      RetypeIs(v, row, g, kind);
      RetypedSize(v[row], kind);
    case LayoutEdit(_, action) =>
      match action
      case MoveUp =>
        MoveUpIs(v, index, g);
        SwapKeepsSize(rows, k - 1);
      case MoveDown =>
        MoveDownIs(v, index, g);
        SwapKeepsSize(rows, k);
      case Delete =>
        DeleteIs(v, index, g);
        RemoveShrinks(rows, k);
      case InsertAfter =>
        InsertIs(v, index, g);
        InsertGrows(rows, k + 1, NewRegister(v[index]));
        NewRegisterSize(v[index]);
  }

  lemma RetypedSize(item: Item, kind: RegisterType)
    ensures Retyped(item, kind).Size() == RegisterCount(kind) >= 1
  {}

  lemma NewRegisterSize(item: Item)
    ensures NewRegister(item).Size() == 1
  {}

  // ---------------------------------------------------------------- the main results

  /** Every edit, successful or refused, keeps a layout well formed. */
  lemma EditKeepsWellFormed(v: seq<Item>, edit: Edit)
    requires WellFormed(v)
    ensures WellFormed(Apply(v, edit).layout)
  {
    hide WellFormed, Relaid, ReachesNext, NewRows;
    if Apply(v, edit).result.Success? {
      var g := EditRelays(v, edit);
      RelaidWellFormed(v, Row(edit), g, NewRows(v, g, edit));
    } else {
      RefusedUnchanged(v, edit);
    }
  }

  lemma RefusedUnchanged(v: seq<Item>, edit: Edit)
    requires Apply(v, edit).result.Failure?
    ensures Apply(v, edit).layout == v
  {}

  /**
   * A successful edit changes only the maximal touching group of its row: the
   * rows before and after it are the same rows at the same addresses, the
   * group keeps its start address, and it is still one group, not touching
   * its neighbours.
   */
  lemma EditIsLocal(v: seq<Item>, edit: Edit) returns (g: Group)
    requires WellFormed(v) && Apply(v, edit).result.Success?
    ensures IsGroup(v, Row(edit), g)
    ensures var w := Apply(v, edit).layout;
            var end := |w| - (|v| - 1 - g.last);
      && g.first <= end <= |w|
      && w[..g.first] == v[..g.first]
      && w[end..] == v[g.last + 1..]
      && (g.first < end ==> w[g.first].offset == v[g.first].offset)
      && (g.first < end ==> IsGroup(w, g.first, Group(g.first, end - 1)))
  {
    hide WellFormed, NewRows, Apply, IsGroup, Relaid, Laid, TotalSize, ReachesNext;
    g := EditRelays(v, edit);
    var rows := NewRows(v, g, edit);
    GroupBounds(v, Row(edit), g);
    RelaidParts(v, g, rows);
    if rows != [] {
      RelaidGroup(v, Row(edit), g, rows, g.first);
    }
  }

  lemma GroupBounds(v: seq<Item>, index: nat, g: Group)
    requires IsGroup(v, index, g)
    ensures g.first <= index <= g.last < |v|
  {}

  function ApplyAll(v: seq<Item>, edits: seq<Edit>): seq<Item>
    decreases edits
  {
    if edits == [] then v else ApplyAll(Apply(v, edits[0]).layout, edits[1..])
  }

  lemma {:induction false} OneMoreEdit(v: seq<Item>, edits: seq<Edit>, edit: Edit)
    ensures ApplyAll(v, []) == v
    ensures ApplyAll(v, edits + [edit]) == Apply(ApplyAll(v, edits), edit).layout
    decreases edits
  {
    hide Apply;
    if edits == [] {
      assert edits + [edit] == [edit] && [edit][1..] == [];
    } else {
      assert (edits + [edit])[1..] == edits[1..] + [edit];
      OneMoreEdit(Apply(v, edits[0]).layout, edits[1..], edit);
    }
  }

  /** Over every run of edits, whatever they are and whichever are refused, the layout stays well formed. */
  lemma {:induction false} RunKeepsWellFormed(v: seq<Item>, edits: seq<Edit>)
    requires WellFormed(v)
    ensures WellFormed(ApplyAll(v, edits))
    decreases edits
  {
    hide WellFormed, Apply;
    if edits != [] {
      EditKeepsWellFormed(v, edits[0]);
      RunKeepsWellFormed(Apply(v, edits[0]).layout, edits[1..]);
    }
  }

  /** On a well-formed layout an insertion is refused exactly when one free register separates the groups. */
  lemma InsertRefusedIff(v: seq<Item>, index: nat, g: Group)
    requires WellFormed(v) && IsGroup(v, index, g)
    ensures EditLayout(v, index, InsertAfter).result == Failure(WouldOverlapNext) <==>
            g.last < |v| - 1 && v[g.last + 1].offset == v[g.last].End() + 1
  {
    hide TotalSize, Laid, Relaid, Inserted, Rows;
    InsertIs(v, index, g);
    GroupIsLaid(v, index, g);
    InsertGrows(Rows(v, g), index - g.first + 1, NewRegister(v[index]));
  }

  // ---------------------------------------------------------------- edits that undo each other

  /** A row without its address: laying out depends on nothing else. */
  function Unplaced(items: seq<Item>): (r: seq<Item>)
    ensures |r| == |items|
    ensures forall i :: 0 <= i < |items| ==> r[i] == items[i].(offset := 0)
  {
    seq(|items|, i requires 0 <= i < |items| => items[i].(offset := 0))
  }

  lemma {:induction false} LaidFromUnplaced(a: seq<Item>, b: seq<Item>, start: nat)
    requires Unplaced(a) == Unplaced(b)
    ensures Laid(a, start) == Laid(b, start)
  {
    assert |Unplaced(a)| == |a| && |Unplaced(b)| == |b|;
    if a != [] {
      assert Unplaced(a)[0] == Unplaced(b)[0];
      assert a[0].Size() == Unplaced(a)[0].Size() && b[0].Size() == Unplaced(b)[0].Size();
      assert Unplaced(a[1..]) == Unplaced(a)[1..] && Unplaced(b[1..]) == Unplaced(b)[1..];
      LaidFromUnplaced(a[1..], b[1..], start + a[0].Size());
    }
  }

  lemma UnplacedLaid(items: seq<Item>, start: nat)
    ensures Unplaced(Laid(items, start)) == Unplaced(items)
  {
    forall i | 0 <= i < |items| ensures Unplaced(Laid(items, start))[i] == Unplaced(items)[i] {
      LaidAt(items, start, i);
    }
  }

  /** Laying out the group's old rows again, in any disguise of addresses, restores the layout. */
  lemma RelaidBack(v: seq<Item>, index: nat, g: Group, rows: seq<Item>, back: seq<Item>)
    requires IsGroup(v, index, g) && rows != []
    requires Unplaced(back) == Unplaced(Rows(v, g))
    ensures var w, g' := Relaid(v, g, rows), Group(g.first, g.first + |rows| - 1);
            g'.last < |w| && Relaid(w, g', back) == v
  {
    hide Unplaced;
    var w, g' := Relaid(v, g, rows), Group(g.first, g.first + |rows| - 1);
    RelaidParts(v, g, rows);
    LaidIsContiguous(rows, v[g.first].offset);
    assert w[g.first + 0] == Laid(rows, v[g.first].offset)[0];
    LaidFromUnplaced(back, Rows(v, g), v[g.first].offset);
    GroupIsLaid(v, index, g);
  }

  lemma RowsRelaid(v: seq<Item>, g: Group, rows: seq<Item>)
    requires g.first <= g.last < |v| && rows != []
    ensures var g' := Group(g.first, g.first + |rows| - 1);
            g'.last < |Relaid(v, g, rows)| && Rows(Relaid(v, g, rows), g') == Laid(rows, v[g.first].offset)
  {
    RelaidParts(v, g, rows);
  }

  /** Moving a row up and then back down restores the layout. */
  lemma MoveUpThenDown(v: seq<Item>, index: nat)
    requires WellFormed(v) && EditLayout(v, index, MoveUp).result.Success?
    ensures EditLayout(v, index, MoveUp).result.value == index - 1
    ensures EditLayout(EditLayout(v, index, MoveUp).layout, index - 1, MoveDown) == Outcome(v, Success(index))
  {
    hide Unplaced, TotalSize, Relaid, Laid, WellFormed, ReachesNext, IsGroup, EditLayout, Swapped, Rows;
    var g := EditRelays(v, LayoutEdit(index, MoveUp));
    GroupBounds(v, index, g);
    MoveUpIs(v, index, g);
    var k, start := index - g.first - 1, v[g.first].offset;
    var rows := Swapped(Rows(v, g), k);
    var w := Relaid(v, g, rows);
    RelaidGroup(v, index, g, rows, index - 1);
    MoveDownIs(w, index - 1, g);
    RowsRelaid(v, g, rows);
    SwapBack(Rows(v, g), k, start);
    RelaidBack(v, index, g, rows, Swapped(Laid(rows, start), k));
  }

  lemma SwapBack(rows: seq<Item>, k: nat, start: nat)
    requires k + 1 < |rows|
    ensures Unplaced(Swapped(Laid(Swapped(rows, k), start), k)) == Unplaced(rows)
  {
    var laid := Laid(Swapped(rows, k), start);
    UnplacedLaid(Swapped(rows, k), start);
    forall i | 0 <= i < |rows| ensures Unplaced(Swapped(laid, k))[i] == Unplaced(rows)[i] {
      var j := if i == k then k + 1 else if i == k + 1 then k else i;
      assert Swapped(laid, k)[i] == laid[j] && Swapped(rows, k)[j] == rows[i];
      assert Unplaced(laid)[j] == Unplaced(Swapped(rows, k))[j];
    }
  }

  /** Deleting the row just inserted restores the layout. */
  lemma InsertThenDelete(v: seq<Item>, index: nat)
    requires WellFormed(v) && EditLayout(v, index, InsertAfter).result.Success?
    ensures EditLayout(v, index, InsertAfter).result.value == index + 1
    ensures EditLayout(EditLayout(v, index, InsertAfter).layout, index + 1, Delete).layout == v
    ensures EditLayout(EditLayout(v, index, InsertAfter).layout, index + 1, Delete).result.Success?
  {
    hide Unplaced, TotalSize, Relaid, Laid, WellFormed, ReachesNext, IsGroup, EditLayout, Rows, Removed;
    var g := EditRelays(v, LayoutEdit(index, InsertAfter));
    GroupBounds(v, index, g);
    InsertIs(v, index, g);
    var k, start := index - g.first + 1, v[g.first].offset;
    var rows := Inserted(Rows(v, g), k, NewRegister(v[index]));
    var w, g' := Relaid(v, g, rows), Group(g.first, g.last + 1);
    RelaidGroup(v, index, g, rows, index + 1);
    DeleteIs(w, index + 1, g');
    RowsRelaid(v, g, rows);
    RemoveBack(Rows(v, g), k, NewRegister(v[index]), start);
    RelaidBack(v, index, g, rows, Removed(Laid(rows, start), k));
  }

  lemma RemoveBack(rows: seq<Item>, k: nat, item: Item, start: nat)
    requires k <= |rows|
    ensures Unplaced(Removed(Laid(Inserted(rows, k, item), start), k)) == Unplaced(rows)
  {
    var longer := Inserted(rows, k, item);
    var laid := Laid(longer, start);
    UnplacedLaid(longer, start);
    forall i | 0 <= i < |rows| ensures Unplaced(Removed(laid, k))[i] == Unplaced(rows)[i] {
      var j := if i < k then i else i + 1;
      assert Removed(laid, k)[i] == laid[j] && longer[j] == rows[i];
      assert Unplaced(laid)[j] == Unplaced(longer)[j];
    }
  }
}
