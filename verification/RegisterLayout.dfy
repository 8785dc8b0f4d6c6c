/** What the live layout editor does to a table of register rows, on values. */
module LayoutSpec {
  import opened Bytes
  import opened RegisterItems

  datatype EditError =
    | NoSelection | OverlapBefore | OverlapAfter | AtTop | AtBottom
    | WouldOverlapNext | BitField | UnsupportedType

  datatype Result<+T> = Success(value: T) | Failure(error: EditError)

  // ---------------------------------------------------------------- layouts and their groups

  /** Rows in address order, none empty, none reaching into the next. */
  predicate WellFormed(v: seq<Item>) {
    && (forall i :: 0 <= i < |v| ==> v[i].Size() >= 1)
    && (forall i :: 0 <= i < |v| - 1 ==> v[i].End() <= v[i + 1].offset)
  }

  lemma OneMoreRow(v: seq<Item>, item: Item)
    ensures WellFormed([])
    ensures WellFormed(v + [item]) <==>
      WellFormed(v) && item.Size() >= 1 && (v == [] || v[|v| - 1].End() <= item.offset)
  {
    var w := v + [item];
    if WellFormed(w) {
      assert w[|v|] == item && forall i :: 0 <= i < |v| ==> w[i] == v[i];
      assert forall i :: 0 <= i < |v| - 1 ==> w[i].End() <= w[i + 1].offset;
      if v != [] {
        assert w[|v| - 1].End() <= w[|v| - 1 + 1].offset;
      }
    }
  }

  predicate Contiguous(v: seq<Item>, first: nat, last: nat)
    requires last < |v|
  {
    forall i :: first <= i < last ==> v[i].End() == v[i + 1].offset
  }

  datatype Group = Group(first: nat, last: nat)

  /** The maximal run of touching rows around `index`. */
  predicate IsGroup(v: seq<Item>, index: nat, g: Group) {
    && g.first <= index <= g.last < |v|
    && Contiguous(v, g.first, g.last)
    && (g.first > 0 ==> v[g.first - 1].End() < v[g.first].offset)
    && (g.last < |v| - 1 ==> v[g.last].End() < v[g.last + 1].offset)
  }

  function GroupStart(v: seq<Item>, at: nat): Result<nat>
    requires at < |v|
  {
    if at == 0 || v[at - 1].End() < v[at].offset then Success(at)
    else if v[at - 1].End() > v[at].offset then Failure(OverlapBefore)
    else GroupStart(v, at - 1)
  }

  function GroupEnd(v: seq<Item>, at: nat): Result<nat>
    requires at < |v|
    decreases |v| - at
  {
    if at == |v| - 1 || v[at].End() < v[at + 1].offset then Success(at)
    else if v[at].End() > v[at + 1].offset then Failure(OverlapAfter)
    else GroupEnd(v, at + 1)
  }

  function FindGroup(v: seq<Item>, index: nat): Result<Group> {
    if index >= |v| then Failure(NoSelection)
    else
      var first, last := GroupStart(v, index), GroupEnd(v, index);
      if first.Failure? then Failure(first.error)
      else if last.Failure? then Failure(last.error)
      else Success(Group(first.value, last.value))
  }

  lemma {:induction false} GroupStartIs(v: seq<Item>, at: nat, first: nat)
    requires at < |v|
    ensures GroupStart(v, at) == Success(first) <==>
      && first <= at && Contiguous(v, first, at)
      && (first > 0 ==> v[first - 1].End() < v[first].offset)
    decreases at
  {
    if at == 0 || v[at - 1].End() < v[at].offset {
    } else if v[at - 1].End() > v[at].offset {
    } else {
      GroupStartIs(v, at - 1, first);
      assert first <= at - 1 && Contiguous(v, first, at - 1) ==> Contiguous(v, first, at);
    }
  }

  lemma {:induction false} GroupEndIs(v: seq<Item>, at: nat, last: nat)
    requires at < |v|
    ensures GroupEnd(v, at) == Success(last) <==>
      && at <= last < |v| && Contiguous(v, at, last)
      && (last < |v| - 1 ==> v[last].End() < v[last + 1].offset)
    decreases |v| - at
  {
    if at == |v| - 1 || v[at].End() < v[at + 1].offset {
    } else if v[at].End() > v[at + 1].offset {
    } else {
      GroupEndIs(v, at + 1, last);
      assert at + 1 <= last < |v| && Contiguous(v, at + 1, last) ==> Contiguous(v, at, last);
    }
  }

  /** The search finds the maximal touching run, and nothing else. */
  lemma FindGroupIs(v: seq<Item>, index: nat, g: Group)
    ensures FindGroup(v, index) == Success(g) <==> IsGroup(v, index, g)
  {
    if index < |v| {
      GroupStartIs(v, index, g.first);
      GroupEndIs(v, index, g.last);
      if g.first <= index <= g.last < |v| {
        assert Contiguous(v, g.first, index) && Contiguous(v, index, g.last) <==> Contiguous(v, g.first, g.last);
      }
    }
  }

  lemma {:induction false} GroupStartFails(v: seq<Item>, at: nat)
    requires at < |v|
    ensures GroupStart(v, at).Failure? <==>
      exists k: nat :: 0 < k <= at && Contiguous(v, k, at) && v[k - 1].End() > v[k].offset
    ensures GroupStart(v, at).Failure? ==> GroupStart(v, at).error == OverlapBefore
    decreases at
  {
    if at > 0 && v[at - 1].End() == v[at].offset {
      GroupStartFails(v, at - 1);
      assert forall k: nat :: k <= at - 1 ==> (Contiguous(v, k, at - 1) <==> Contiguous(v, k, at));
    } else if at > 0 && v[at - 1].End() > v[at].offset {
      assert Contiguous(v, at, at);
    }
  }

  lemma {:induction false} GroupEndFails(v: seq<Item>, at: nat)
    requires at < |v|
    ensures GroupEnd(v, at).Failure? <==>
      exists k: nat :: at <= k < |v| - 1 && Contiguous(v, at, k) && v[k].End() > v[k + 1].offset
    ensures GroupEnd(v, at).Failure? ==> GroupEnd(v, at).error == OverlapAfter
    decreases |v| - at
  {
    if at < |v| - 1 && v[at].End() == v[at + 1].offset {
      GroupEndFails(v, at + 1);
      assert forall k: nat :: at + 1 <= k < |v| ==> (Contiguous(v, at + 1, k) <==> Contiguous(v, at, k));
    } else if at < |v| - 1 && v[at].End() > v[at + 1].offset {
      assert Contiguous(v, at, at);
    }
  }

  /**
   * The search fails where touching rows lead to an overlap: upwards first,
   * then downwards.
   */
  lemma FindGroupFails(v: seq<Item>, index: nat)
    requires index < |v|
    ensures FindGroup(v, index) == Failure(OverlapBefore) <==>
      exists k: nat :: 0 < k <= index && Contiguous(v, k, index) && v[k - 1].End() > v[k].offset
    ensures FindGroup(v, index) == Failure(OverlapAfter) <==>
      && !(exists k: nat :: 0 < k <= index && Contiguous(v, k, index) && v[k - 1].End() > v[k].offset)
      && (exists k: nat :: index <= k < |v| - 1 && Contiguous(v, index, k) && v[k].End() > v[k + 1].offset)
  {
    GroupStartFails(v, index);
    GroupEndFails(v, index);
  }

  lemma {:induction false} GroupEndSucceeds(v: seq<Item>, at: nat)
    requires WellFormed(v) && at < |v|
    ensures GroupEnd(v, at).Success?
    decreases |v| - at
  {
    if at < |v| - 1 && v[at].End() == v[at + 1].offset {
      GroupEndSucceeds(v, at + 1);
    }
  }

  // ---------------------------------------------------------------- laying rows out

  /** The rows placed one after the other from a start address. */
  function Laid(items: seq<Item>, start: nat): (r: seq<Item>)
    ensures |r| == |items|
  {
    if items == [] then [] else [items[0].(offset := start)] + Laid(items[1..], start + items[0].Size())
  }

  function TotalSize(items: seq<Item>): nat {
    if items == [] then 0 else items[0].Size() + TotalSize(items[1..])
  }

  /** A layout with one group's rows replaced and laid out from the group's start. */
  function Relaid(v: seq<Item>, g: Group, rows: seq<Item>): seq<Item>
    requires g.first <= g.last < |v|
  {
    v[..g.first] + Laid(rows, v[g.first].offset) + v[g.last + 1..]
  }

  /** Would these rows, laid out, touch or cross the next group? */
  predicate ReachesNext(v: seq<Item>, g: Group, rows: seq<Item>)
    requires g.first <= g.last < |v|
  {
    g.last < |v| - 1 && v[g.first].offset + TotalSize(rows) >= v[g.last + 1].offset
  }

  function Rows(v: seq<Item>, g: Group): (rows: seq<Item>)
    requires g.first <= g.last < |v|
    ensures |rows| == g.last + 1 - g.first
  {
    v[g.first..g.last + 1]
  }

  function Swapped<T>(s: seq<T>, k: nat): (r: seq<T>)
    requires k + 1 < |s|
    ensures |r| == |s|
  {
    s[k := s[k + 1]][k + 1 := s[k]]
  }

  function Removed<T>(s: seq<T>, k: nat): seq<T>
    requires k < |s|
  {
    s[..k] + s[k + 1..]
  }

  function Inserted<T>(s: seq<T>, k: nat, x: T): seq<T>
    requires k <= |s|
  {
    s[..k] + [x] + s[k..]
  }

  /** The row an insertion adds after `previous`. */
  function NewRegister(previous: Item): Item {
    Item("new_register", previous.branches, Default, -1, previous.End(), UI16, None, NO_VALUE)
  }

  /** A row given another type: its declared size and its value go. */
  function Retyped(item: Item, kind: RegisterType): Item {
    item.(kind := kind, registerSize := None, value := NO_VALUE)
  }

  // ---------------------------------------------------------------- the edits

  datatype Action = MoveUp | MoveDown | Delete | InsertAfter

  datatype Edit = LayoutEdit(index: nat, action: Action) | TypeEdit(row: nat, kind: RegisterType)

  datatype Outcome = Outcome(layout: seq<Item>, result: Result<nat>)

  function EditLayout(v: seq<Item>, index: nat, action: Action): Outcome {
    var found := FindGroup(v, index);
    if found.Failure? then Outcome(v, Failure(found.error))
    else
      FindGroupIs(v, index, found.value);
      var g := found.value;
      var rows, k := Rows(v, g), index - g.first;
      match action
      case MoveUp =>
        if index == g.first then Outcome(v, Failure(AtTop))
        else Outcome(Relaid(v, g, Swapped(rows, k - 1)), Success(index - 1))
      case MoveDown =>
        if index == g.last then Outcome(v, Failure(AtBottom))
        else Outcome(Relaid(v, g, Swapped(rows, k)), Success(index + 1))
      case Delete =>
        var left := |v| - 1;
        Outcome(Relaid(v, g, Removed(rows, k)),
                Success(if left == 0 then 0 else if index < left then index else left - 1))
      case InsertAfter =>
        var more := Inserted(rows, k + 1, NewRegister(v[index]));
        if ReachesNext(v, g, more) then Outcome(v, Failure(WouldOverlapNext))
        else Outcome(Relaid(v, g, more), Success(index + 1))
  }

  predicate IsSizedType(kind: RegisterType) {
    kind in {UI16, I16, UI32, I32, UI64, I64, Float, Double}
  }

  function ChangeType(v: seq<Item>, index: nat, kind: RegisterType): Outcome {
    if index >= |v| then Outcome(v, Failure(NoSelection))
    else if v[index].kind.Bool? then Outcome(v, Failure(BitField))
    else if !IsSizedType(kind) then Outcome(v, Failure(UnsupportedType))
    else
      var found := FindGroup(v, index);
      if found.Failure? then Outcome(v, Failure(found.error))
      else
        FindGroupIs(v, index, found.value);
        var g := found.value;
        var rows := Rows(v, g)[index - g.first := Retyped(v[index], kind)];
        if ReachesNext(v, g, rows) then Outcome(v, Failure(WouldOverlapNext))
        else Outcome(Relaid(v, g, rows), Success(index))
  }

  function Apply(v: seq<Item>, edit: Edit): Outcome {
    match edit
    case LayoutEdit(index, action) => EditLayout(v, index, action)
    case TypeEdit(row, kind) => ChangeType(v, row, kind)
  }
}
