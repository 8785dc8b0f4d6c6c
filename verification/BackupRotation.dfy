/** Backup rotation: which owned names are removed, and that under the default format those are the oldest ones. */
module BackupRotation {
  import opened Bytes
  import opened BackupNames

  // ---------------------------------------------------------------- the order of names

  /** std::string's operator<. */
  predicate Less(a: string, b: string) {
    b != "" && (a == "" || a[0] < b[0] || (a[0] == b[0] && Less(a[1..], b[1..])))
  }

  lemma {:induction false} LessIsStrict(a: string, b: string)
    ensures !(Less(a, b) && Less(b, a))
    ensures a != b ==> Less(a, b) || Less(b, a)
  {
    if a != "" && b != "" && a[0] == b[0] {
      LessIsStrict(a[1..], b[1..]);
      assert a == [a[0]] + a[1..] && b == [b[0]] + b[1..];
    }
  }

  lemma {:induction false} LessIsTransitive(a: string, b: string, c: string)
    requires Less(a, b) && Less(b, c)
    ensures Less(a, c)
  {
    if a != "" && a[0] == b[0] == c[0] {
      LessIsTransitive(a[1..], b[1..], c[1..]);
    }
  }

  lemma {:induction false} LessInFront(a: string, b: string, x: string, y: string)
    requires |a| == |b| && Less(a, b)
    ensures Less(a + x, b + y)
  {
    if a[0] == b[0] {
      LessInFront(a[1..], b[1..], x, y);
      assert (a + x)[1..] == a[1..] + x && (b + y)[1..] == b[1..] + y;
    }
  }

  lemma {:induction false} LessBehind(p: string, a: string, b: string)
    requires Less(a, b)
    ensures Less(p + a, p + b)
  {
    if p == "" {
      assert p + a == a && p + b == b;
    } else {
      LessBehind(p[1..], a, b);
      assert (p + a)[1..] == p[1..] + a && (p + b)[1..] == p[1..] + b;
    }
  }

  predicate Sorted(s: seq<string>) {
    forall i, j :: 0 <= i < j < |s| ==> s[i] == s[j] || Less(s[i], s[j])
  }

  function Insert(x: string, s: seq<string>): (r: seq<string>)
    ensures multiset(r) == multiset(s) + multiset{x} && |r| == |s| + 1
  {
    if s == [] then [x]
    else if !Less(s[0], x) then [x] + s
    else
      assert s == [s[0]] + s[1..];
      [s[0]] + Insert(x, s[1..])
  }

  /** std::ranges::sort by name; equal names are interchangeable. */
  function SortNames(s: seq<string>): (r: seq<string>)
    ensures multiset(r) == multiset(s) && |r| == |s|
  {
    if s == [] then []
    else
      assert s == [s[0]] + s[1..];
      Insert(s[0], SortNames(s[1..]))
  }

  lemma {:induction false} InsertSorts(x: string, s: seq<string>)
    requires Sorted(s)
    ensures Sorted(Insert(x, s))
  {
    if s != [] {
      var r := Insert(x, s);
      if Less(s[0], x) {
        InsertSorts(x, s[1..]);
        var tail := Insert(x, s[1..]);
        forall j | 0 <= j < |tail| ensures s[0] == tail[j] || Less(s[0], tail[j]) {
          assert tail[j] in multiset(tail);
          assert tail[j] == x || tail[j] in multiset(s[1..]);
        }
      } else {
        LessIsStrict(s[0], x);
        forall j | 0 <= j < |s| ensures x == s[j] || Less(x, s[j]) {
          if x != s[0] && s[j] != s[0] {
            LessIsTransitive(x, s[0], s[j]);
          }
        }
      }
    }
  }

  lemma {:induction false} SortSorts(s: seq<string>)
    ensures Sorted(SortNames(s))
  {
    if s != [] {
      SortSorts(s[1..]);
      InsertSorts(s[0], SortNames(s[1..]));
    }
  }

  // ---------------------------------------------------------------- which names go

  function OwnedIn(names: seq<string>, source: string, format: string): seq<string> {
    if names == [] then []
    else OwnedIn(names[..|names| - 1], source, format)
         + if IsOwnedBackupName(source, names[|names| - 1], format) then [names[|names| - 1]] else []
  }

  lemma {:induction false} OwnedInIs(names: seq<string>, source: string, format: string, n: string)
    ensures n in OwnedIn(names, source, format) <==> n in names && IsOwnedBackupName(source, n, format)
  {
    if names != [] {
      OwnedInIs(names[..|names| - 1], source, format, n);
      assert names == names[..|names| - 1] + [names[|names| - 1]];
    }
  }

  predicate Distinct(names: seq<string>) {
    forall i, j :: 0 <= i < j < |names| ==> names[i] != names[j]
  }

  lemma {:induction false} OwnedInDistinct(names: seq<string>, source: string, format: string)
    requires Distinct(names)
    ensures Distinct(OwnedIn(names, source, format))
  {
    if names != [] {
      var front := names[..|names| - 1];
      OwnedInDistinct(front, source, format);
      forall k | 0 <= k < |OwnedIn(front, source, format)|
        ensures OwnedIn(front, source, format)[k] != names[|names| - 1]
      {
        OwnedInIs(front, source, format, OwnedIn(front, source, format)[k]);
      }
    }
  }

  function Excess(owned: nat, maxBackups: int): nat {
    if maxBackups <= 0 || owned < maxBackups then 0 else owned - (maxBackups - 1)
  }

  /** The removed names are owned, in order, and below every owned name that stays; exactly the excess goes. */
  ghost predicate AreSmallest(
    removed: seq<string>, names: seq<string>, source: string, maxBackups: int, format: string)
  {
    && |removed| == Excess(|OwnedIn(names, source, format)|, maxBackups)
    && Sorted(removed) && Distinct(removed)
    && (forall r :: r in removed ==> r in names && IsOwnedBackupName(source, r, format))
    && (forall r, k :: r in removed && k in names && k !in removed && IsOwnedBackupName(source, k, format)
          ==> Less(r, k))
  }

  /**
   * With the backup about to be made, as many owned names are left as the
   * limit allows, or all of them if they are fewer.  Without a limit nothing
   * goes.
   */
  lemma RotationLeaves(removed: seq<string>, names: seq<string>, source: string, maxBackups: int, format: string)
    requires AreSmallest(removed, names, source, maxBackups, format)
    ensures maxBackups <= 0 ==> removed == []
    ensures maxBackups >= 1 ==>
      var owned := |OwnedIn(names, source, format)|;
      owned - |removed| + 1 == if owned + 1 <= maxBackups then owned + 1 else maxBackups
  {
    LeftOver(|OwnedIn(names, source, format)|, maxBackups);
    hide Excess, OwnedIn, Sorted, Distinct, Less, IsOwnedBackupName;
  }

  lemma LeftOver(owned: nat, maxBackups: int)
    ensures maxBackups <= 0 ==> Excess(owned, maxBackups) == 0
    ensures maxBackups >= 1 ==>
      owned - Excess(owned, maxBackups) + 1 == if owned + 1 <= maxBackups then owned + 1 else maxBackups
  {}

  /** `names` are the children of the destination; a directory that cannot be read has none. */
  method RotationCandidates(names: seq<string>, source: string, maxBackups: int, format: string)
    returns (candidates: seq<string>)
    requires forall i, j :: 0 <= i < j < |names| ==> names[i] != names[j]
    ensures AreSmallest(candidates, names, source, maxBackups, format)
  {
    hide IsOwnedBackupName, Less;
    var owned: seq<string> := [];
    if maxBackups <= 0 {
      return [];
    }
    for i := 0 to |names|
      invariant owned == OwnedIn(names[..i], source, format)
    {
      assert names[..i + 1][..i] == names[..i];
      if IsOwnedBackupName(source, names[i], format) {
        owned := owned + [names[i]];
      }
    }
    assert names[..|names|] == names;
    var sorted := SortNames(owned);
    var keepBeforeNew := maxBackups - 1;
    if |sorted| <= keepBeforeNew {
      return [];
    }
    candidates := sorted[..|sorted| - keepBeforeNew];
    SmallestFirst(names, source, format, sorted, |sorted| - keepBeforeNew);
  }

  lemma SameMembers(a: seq<string>, b: seq<string>)
    requires multiset(a) == multiset(b)
    ensures forall n :: n in a <==> n in b
    ensures Distinct(a) ==> Distinct(b)
  {
    forall n ensures n in a <==> n in b {
      assert n in multiset(a) <==> n in multiset(b);
    }
    if Distinct(a) && !Distinct(b) {
      var i, j :| 0 <= i < j < |b| && b[i] == b[j];
      Twice(b, i, j);
      Once(a, b[i]);
    }
  }

  lemma Twice(b: seq<string>, i: nat, j: nat)
    requires i < j < |b| && b[i] == b[j]
    ensures multiset(b)[b[i]] >= 2
  {
    assert b == b[..j] + b[j..];
    assert b[..j][i] == b[i] && b[j..][0] == b[i];
    assert b[i] in multiset(b[..j]) && b[i] in multiset(b[j..]);
  }

  lemma {:induction false} Once(a: seq<string>, n: string)
    requires Distinct(a)
    ensures multiset(a)[n] <= 1
  {
    if a != [] {
      assert a == [a[0]] + a[1..];
      Once(a[1..], n);
      if a[0] == n {
        assert n !in a[1..];
        assert n !in multiset(a[1..]);
      }
    }
  }

  lemma SmallestFirst(names: seq<string>, source: string, format: string, sorted: seq<string>, n: nat)
    requires Distinct(names) && sorted == SortNames(OwnedIn(names, source, format)) && n <= |sorted|
    ensures Sorted(sorted[..n]) && Distinct(sorted[..n])
    ensures forall r :: r in sorted[..n] ==> r in names && IsOwnedBackupName(source, r, format)
    ensures forall r, k :: r in sorted[..n] && k in names && k !in sorted[..n] && IsOwnedBackupName(source, k, format)
              ==> Less(r, k)
  {
    hide IsOwnedBackupName, Less, SortNames, OwnedIn;
    var owned := OwnedIn(names, source, format);
    SortSorts(owned);
    OwnedInDistinct(names, source, format);
    SameMembers(owned, sorted);
    forall k ensures k in sorted <==> k in names && IsOwnedBackupName(source, k, format) {
      OwnedInIs(names, source, format, k);
    }
    forall j | 0 <= j < n ensures sorted[j] in sorted[..n] {
      assert sorted[..n][j] == sorted[j];
    }
    forall r, k | r in sorted[..n] && k in sorted && k !in sorted[..n] ensures Less(r, k) {
      var i :| 0 <= i < n && sorted[i] == r;
      var j :| 0 <= j < |sorted| && sorted[j] == k;
    }
  }

  /** Rotation for one source leaves every backup of another one where it is. */
  lemma OthersAreKept(
    removed: seq<string>, names: seq<string>, source: string, maxBackups: int, format: string, other: string,
    name: string)
    requires AreSmallest(removed, names, source, maxBackups, format)
    requires other != source && IsOwnedBackupName(other, name, format)
    ensures name !in removed
  {
    if name in removed {
      OneOwner(source, other, name, format);
    }
  }

  // ---------------------------------------------------------------- names that carry a time

  /** A field of a time format: a separator, then a number of fixed width. */
  datatype Field = Field(lead: char, width: nat)

  const DEFAULT_FORMAT := "_%Y_%m_%d %H_%M_%S"

  /** Year, month, day, hour, minute, second: from the most significant on. */
  const DEFAULT_FIELDS := [Field('_', 4), Field('_', 2), Field('_', 2), Field(' ', 2), Field('_', 2), Field('_', 2)]

  function Pow10(n: nat): nat { if n == 0 then 1 else 10 * Pow10(n - 1) }

  function DigitChar(d: nat): char
    requires d < 10
  {
    ('0' as int + d) as char
  }

  function Number(n: nat, width: nat): (r: string)
    ensures |r| == width
  {
    if width == 0 then "" else Number(n / 10, width - 1) + [DigitChar(n % 10)]
  }

  function Stamp(fields: seq<Field>, time: seq<nat>): string
    requires |time| == |fields|
  {
    if fields == [] then ""
    else [fields[0].lead] + Number(time[0], fields[0].width) + Stamp(fields[1..], time[1..])
  }

  predicate InRange(fields: seq<Field>, time: seq<nat>) {
    |time| == |fields| && forall i :: 0 <= i < |fields| ==> time[i] < Pow10(fields[i].width)
  }

  predicate Earlier(x: seq<nat>, y: seq<nat>) {
    x != [] && y != [] && (x[0] < y[0] || (x[0] == y[0] && Earlier(x[1..], y[1..])))
  }

  /** The first field that differs decides. */
  lemma {:induction false} EarlierIff(x: seq<nat>, y: seq<nat>)
    requires |x| == |y|
    ensures Earlier(x, y) <==> exists k :: 0 <= k < |x| && x[..k] == y[..k] && x[k] < y[k]
  {
    if x != [] {
      EarlierIff(x[1..], y[1..]);
      if x[0] == y[0] {
        if k :| 0 <= k < |x[1..]| && x[1..][..k] == y[1..][..k] && x[1..][k] < y[1..][k] {
          assert x[..k + 1] == [x[0]] + x[1..][..k] && y[..k + 1] == [y[0]] + y[1..][..k];
          assert x[k + 1] < y[k + 1];
        }
        if k :| 0 <= k < |x| && x[..k] == y[..k] && x[k] < y[k] {
          assert x[1..][..k - 1] == x[..k][1..] && y[1..][..k - 1] == y[..k][1..];
          assert x[1..][k - 1] < y[1..][k - 1];
        }
      } else {
        assert x[..0] == y[..0];
        forall k | 0 < k < |x| ensures x[..k] != y[..k] {
          assert x[..k][0] != y[..k][0];
        }
      }
    }
  }

  lemma {:induction false} SmallerNumber(x: nat, y: nat, width: nat)
    requires x < y < Pow10(width)
    ensures Less(Number(x, width), Number(y, width))
  {
    if x / 10 < y / 10 {
      SmallerNumber(x / 10, y / 10, width - 1);
      LessInFront(Number(x / 10, width - 1), Number(y / 10, width - 1), [DigitChar(x % 10)], [DigitChar(y % 10)]);
    } else {
      assert x / 10 == y / 10 && x % 10 < y % 10;
      LessBehind(Number(x / 10, width - 1), [DigitChar(x % 10)], [DigitChar(y % 10)]);
    }
  }

  lemma FirstField(fields: seq<Field>, time: seq<nat>, end: string)
    requires |time| == |fields| > 0
    ensures Stamp(fields, time) + end
         == [fields[0].lead] + (Number(time[0], fields[0].width) + (Stamp(fields[1..], time[1..]) + end))
  {
    hide Number;
    var lead, number, rest := [fields[0].lead], Number(time[0], fields[0].width), Stamp(fields[1..], time[1..]);
    StampStarts(fields, time);
    hide Stamp;
    Associates(lead, number, rest);
    Associates(lead, number + rest, end);
    Associates(number, rest, end);
  }

  lemma StampStarts(fields: seq<Field>, time: seq<nat>)
    requires |time| == |fields| > 0
    ensures Stamp(fields, time) == [fields[0].lead] + Number(time[0], fields[0].width) + Stamp(fields[1..], time[1..])
  {}

  /** An earlier time has the smaller text, whatever follows. */
  lemma {:induction false} EarlierIsLess(fields: seq<Field>, x: seq<nat>, y: seq<nat>, endX: string, endY: string)
    requires InRange(fields, x) && InRange(fields, y) && Earlier(x, y)
    ensures Less(Stamp(fields, x) + endX, Stamp(fields, y) + endY)
  {
    hide Less, Stamp, Number;
    var f := fields[0];
    var restX, restY := Stamp(fields[1..], x[1..]) + endX, Stamp(fields[1..], y[1..]) + endY;
    var nx, ny := Number(x[0], f.width), Number(y[0], f.width);
    FirstField(fields, x, endX);
    FirstField(fields, y, endY);
    if x[0] < y[0] {
      SmallerNumber(x[0], y[0], f.width);
      LessInFront(nx, ny, restX, restY);
    } else {
      EarlierIsLess(fields[1..], x[1..], y[1..], endX, endY);
      LessBehind(nx, restX, restY);
    }
    LessBehind([f.lead], nx + restX, ny + restY);
  }

  function TimedName(source: string, time: seq<nat>, archived: bool): string
    requires |time| == |DEFAULT_FIELDS|
  {
    BackupName(source, Stamp(DEFAULT_FIELDS, time), archived)
  }

  lemma SmallerNameIsNotNewer(source: string, x: seq<nat>, a: bool, y: seq<nat>, b: bool)
    requires InRange(DEFAULT_FIELDS, x) && InRange(DEFAULT_FIELDS, y)
    requires Less(TimedName(source, x, a), TimedName(source, y, b))
    ensures !Earlier(y, x)
  {
    hide Less, Stamp;
    var endX, endY := if a then ARCHIVE else "", if b then ARCHIVE else "";
    var p, q := Stamp(DEFAULT_FIELDS, x), Stamp(DEFAULT_FIELDS, y);
    assert TimedName(source, x, a) == source + (p + endX) && TimedName(source, y, b) == source + (q + endY);
    if Earlier(y, x) {
      EarlierIsLess(DEFAULT_FIELDS, y, x, endY, endX);
      LessBehind(source, q + endY, p + endX);
      LessIsStrict(source + (q + endY), source + (p + endX));
    }
  }

  /** Under the default format every backup that stays is at least as new as every one that goes. */
  lemma {:induction false} KeptAreAtLeastAsNew(
    removed: seq<string>, names: seq<string>, source: string, maxBackups: int,
    x: seq<nat>, a: bool, y: seq<nat>, b: bool)
    requires AreSmallest(removed, names, source, maxBackups, DEFAULT_FORMAT)
    requires InRange(DEFAULT_FIELDS, x) && InRange(DEFAULT_FIELDS, y)
    requires TimedName(source, x, a) in removed
    requires var kept := TimedName(source, y, b);
      kept in names && kept !in removed && IsOwnedBackupName(source, kept, DEFAULT_FORMAT)
    ensures !Earlier(y, x)
  {
    SmallerNameIsNotNewer(source, x, a, y, b);
  }

  // ---------------------------------------------------------------- every owned name carries a time

  function FieldSlots(fields: seq<Field>): seq<Slot> {
    if fields == [] then [] else [Exactly(fields[0].lead)] + Digits(fields[0].width) + FieldSlots(fields[1..])
  }

  predicate AllDigits(text: string) {
    forall i :: 0 <= i < |text| ==> IsDigit(text[i])
  }

  function NumberOf(text: string): nat
    requires AllDigits(text)
  {
    if text == "" then 0
    else
      assert IsDigit(text[|text| - 1]);
      10 * NumberOf(text[..|text| - 1]) + (text[|text| - 1] as int - '0' as int)
  }

  lemma {:induction false} NumberReads(text: string)
    requires AllDigits(text)
    ensures NumberOf(text) < Pow10(|text|) && Number(NumberOf(text), |text|) == text
  {
    if text != "" {
      var front, n := text[..|text| - 1], NumberOf(text);
      NumberReads(front);
      var d := text[|text| - 1] as int - '0' as int;
      assert n / 10 == NumberOf(front) && n % 10 == d;
      assert text == front + [text[|text| - 1]];
    }
  }

  lemma FieldSplits(text: string, f: Field, tail: seq<Slot>)
    requires Fills(text, [Exactly(f.lead)] + Digits(f.width) + tail)
    ensures |text| == 1 + f.width + |tail| && text[0] == f.lead
    ensures AllDigits(text[1..1 + f.width])
    ensures Fills(text[1 + f.width..], tail)
  {
    var slots := [Exactly(f.lead)] + Digits(f.width) + tail;
    assert Fits(text[0], slots[0]);
    var number := text[1..1 + f.width];
    forall i | 0 <= i < f.width ensures IsDigit(number[i]) {
      assert Fits(text[i + 1], slots[i + 1]) && slots[i + 1] == AnyDigit;
    }
    forall i | 0 <= i < |tail| ensures Fits(text[1 + f.width..][i], tail[i]) {
      assert Fits(text[1 + f.width + i], slots[1 + f.width + i]);
    }
  }

  /** A text that fills the fields' slots is the stamp of some time. */
  lemma {:induction false} FilledIsStamp(text: string, fields: seq<Field>) returns (time: seq<nat>)
    requires Fills(text, FieldSlots(fields))
    ensures InRange(fields, time) && text == Stamp(fields, time)
  {
    hide Fills, Number, NumberOf, Pow10, Digits;
    if fields == [] {
      NothingFills(text);
      time := [];
    } else {
      var f := fields[0];
      FieldSplits(text, f, FieldSlots(fields[1..]));
      var number, rest := text[1..1 + f.width], text[1 + f.width..];
      var later := FilledIsStamp(rest, fields[1..]);
      NumberReads(number);
      time := [NumberOf(number)] + later;
      assert time[1..] == later;
      forall i | 0 <= i < |fields| ensures time[i] < Pow10(fields[i].width) {
        assert i > 0 ==> time[i] == later[i - 1] && fields[i] == fields[1..][i - 1];
      }
      assert text == [f.lead] + number + rest;
    }
  }

  lemma SlotsOfCharacter(format: string)
    requires format != "" && format[0] != '%'
    ensures Slots(format) == Before([Exactly(format[0])], Slots(format[1..]))
  {}

  lemma SlotsOfSpecifier(format: string)
    requires |format| >= 2 && format[0] == '%' && DigitsForSpecifier(format[1]) > 0
    ensures Slots(format) == Before(Digits(DigitsForSpecifier(format[1])), Slots(format[2..]))
  {
    assert DigitsForSpecifier('%') == 0;
  }

  lemma FieldOf(format: string, f: Field, tail: seq<Slot>)
    requires |format| >= 3 && format[0] == f.lead != '%' && format[1] == '%'
    requires DigitsForSpecifier(format[2]) == f.width > 0 && Slots(format[3..]) == Some(tail)
    ensures Slots(format) == Some([Exactly(f.lead)] + Digits(f.width) + tail)
  {
    hide Slots, Digits, DigitsForSpecifier;
    SlotsOfCharacter(format);
    SlotsOfSpecifier(format[1..]);
    assert format[1..][2..] == format[3..];
    SlotsAssociate([Exactly(f.lead)], Digits(f.width), tail);
  }

  lemma SlotsAssociate(a: seq<Slot>, b: seq<Slot>, c: seq<Slot>)
    ensures (a + b) + c == a + (b + c)
  {}

  lemma DefaultField(i: nat)
    requires i < |DEFAULT_FIELDS|
    ensures DEFAULT_FORMAT[3 * i] == DEFAULT_FIELDS[i].lead != '%' && DEFAULT_FORMAT[3 * i + 1] == '%'
    ensures DigitsForSpecifier(DEFAULT_FORMAT[3 * i + 2]) == DEFAULT_FIELDS[i].width > 0
  {}

  lemma {:induction false} DefaultSlotsFrom(i: nat)
    requires i <= |DEFAULT_FIELDS|
    ensures Slots(DEFAULT_FORMAT[3 * i..]) == Some(FieldSlots(DEFAULT_FIELDS[i..]))
    decreases |DEFAULT_FIELDS| - i
  {
    hide Slots, DigitsForSpecifier, Digits;
    var format, fields := DEFAULT_FORMAT, DEFAULT_FIELDS;
    if i == |fields| {
      NoSlots();
      assert format[3 * i..] == "" && fields[i..] == [];
    } else {
      DefaultSlotsFrom(i + 1);
      DefaultField(i);
      var rest := format[3 * i..];
      assert rest[3..] == format[3 * (i + 1)..] && fields[i..][1..] == fields[i + 1..];
      FieldOf(rest, fields[i], FieldSlots(fields[i + 1..]));
    }
  }

  lemma {:induction false} DefaultSlots()
    ensures Slots(DEFAULT_FORMAT) == Some(FieldSlots(DEFAULT_FIELDS)) && Rotatable(DEFAULT_FORMAT)
  {
    hide Slots;
    DefaultSlotsFrom(0);
    assert DEFAULT_FORMAT[3 * 0..] == DEFAULT_FORMAT && DEFAULT_FIELDS[0..] == DEFAULT_FIELDS;
    assert FieldSlots(DEFAULT_FIELDS)[1] == Digits(4)[0] == AnyDigit;
  }

  lemma {:induction false} OwnedNameHasTime(source: string, name: string) returns (time: seq<nat>, archived: bool)
    requires IsOwnedBackupName(source, name, DEFAULT_FORMAT)
    ensures InRange(DEFAULT_FIELDS, time) && name == TimedName(source, time, archived)
  {
    DefaultSlots();
    OwnedIff(source, name, DEFAULT_FORMAT);
    var stamp;
    stamp, archived :| Matches(stamp, DEFAULT_FORMAT) && name == BackupName(source, stamp, archived);
    time := FilledIsStamp(stamp, DEFAULT_FIELDS);
  }

  /**
   * Under two formats a name can have two owners: once the format has been
   * changed, a job may take another job's older backup for its own.
   */
  lemma FormatChangeMovesOwnership()
    ensures IsOwnedBackupName("a", "a_2024_05", "_%Y_%m") && IsOwnedBackupName("a_2024", "a_2024_05", "_%m")
  {
    hide Slots, Digits;
    var year, month := Field('_', 4), Field('_', 2);
    NoSlots();
    assert "_%m"[3..] == "" && "_%Y_%m"[3..] == "_%m";
    FieldOf("_%m", month, []);
    FieldOf("_%Y_%m", year, [Exactly('_')] + Digits(2) + []);
    TwoDigits();
    assert "a_2024_05"[1..] == "_2024_05" && "a_2024_05"[6..] == "_05";
  }

  lemma TwoDigits()
    ensures Digits(2) == [AnyDigit, AnyDigit] && Digits(4) == [AnyDigit, AnyDigit, AnyDigit, AnyDigit]
  {}
}
