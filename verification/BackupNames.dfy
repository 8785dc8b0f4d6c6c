/** Which directory entries belong to a backup job: names made of the source name and a filled-in time format. */
module BackupNames {
  import opened Bytes

  /** The fixed width of the number that a time specifier prints; zero when it is not understood. */
  function DigitsForSpecifier(c: char): nat {
    if c == 'Y' then 4
    else if c == 'j' then 3
    else if c in "CdeHImMSUWy" then 2
    else 0
  }

  /** Year in four digits, day of the year in three, every other understood specifier in two. */
  lemma SpecifierDigits(c: char)
    ensures DigitsForSpecifier(c) == 4 <==> c == 'Y'
    ensures DigitsForSpecifier(c) == 3 <==> c == 'j'
    ensures DigitsForSpecifier(c) == 2 <==> c in {'C', 'd', 'e', 'H', 'I', 'm', 'M', 'S', 'U', 'W', 'y'}
    ensures DigitsForSpecifier(c) in {0, 2, 3, 4}
    ensures IsDigit(c) <==> c in {'0', '1', '2', '3', '4', '5', '6', '7', '8', '9'}
  {}

  predicate IsDigit(c: char) { '0' <= c <= '9' }

  /** What a format allows at one position of the text. */
  datatype Slot = Exactly(c: char) | AnyDigit

  predicate Fits(c: char, slot: Slot) {
    match slot
    case Exactly(d) => c == d
    case AnyDigit => IsDigit(c)
  }

  predicate Fills(text: string, slots: seq<Slot>) {
    |text| == |slots| && forall i :: 0 <= i < |text| ==> Fits(text[i], slots[i])
  }

  function Digits(n: nat): (r: seq<Slot>)
    ensures |r| == n
  {
    seq(n, _ => AnyDigit)
  }

  function Before(slots: seq<Slot>, rest: Option<seq<Slot>>): Option<seq<Slot>> {
    if rest.None? then None else Some(slots + rest.value)
  }

  /** The slots of a format, or None when rotation does not understand it. */
  function Slots(format: string): Option<seq<Slot>> {
    if format == "" then Some([])
    else if format[0] != '%' then Before([Exactly(format[0])], Slots(format[1..]))
    else if |format| == 1 then None
    else if format[1] == '%' then Before([Exactly('%')], Slots(format[2..]))
    else if DigitsForSpecifier(format[1]) == 0 then None
    else Before(Digits(DigitsForSpecifier(format[1])), Slots(format[2..]))
  }

  /**
   * Unit by unit: a character stands for itself, a doubled percent sign for
   * one, a specifier for its digits; a sign alone or before anything else is
   * not understood.
   */
  lemma SlotsOfUnit(format: string)
    ensures Slots("") == Some([])
    ensures format != "" && format[0] != '%' ==> Slots(format) == Before([Exactly(format[0])], Slots(format[1..]))
    ensures |format| >= 2 && format[0] == '%' && format[1] == '%' ==>
      Slots(format) == Before([Exactly('%')], Slots(format[2..]))
    ensures |format| >= 2 && format[0] == '%' && DigitsForSpecifier(format[1]) > 0 ==>
      Slots(format) == Before(seq(DigitsForSpecifier(format[1]), _ => AnyDigit), Slots(format[2..]))
    ensures |format| >= 2 && format[0] == '%' != format[1] && DigitsForSpecifier(format[1]) == 0 ==>
      Slots(format) == None
    ensures format == "%" ==> Slots(format) == None
  {
    assert DigitsForSpecifier('%') == 0;
  }

  predicate Matches(text: string, format: string) {
    Slots(format).Some? && Fills(text, Slots(format).value)
  }

  predicate MatchesAll(text: string, slots: Option<seq<Slot>>) {
    slots.Some? && Fills(text, slots.value)
  }

  lemma FillsFirst(text: string, slot: Slot, rest: seq<Slot>)
    ensures Fills(text, [slot] + rest) <==> text != "" && Fits(text[0], slot) && Fills(text[1..], rest)
  {
    if Fills(text, [slot] + rest) {
      assert Fits(text[0], ([slot] + rest)[0]);
      forall i | 0 <= i < |text[1..]| ensures Fits(text[1..][i], rest[i]) {
        assert Fits(text[i + 1], ([slot] + rest)[i + 1]);
      }
    }
  }

  /** The loop that compares text and format character by character. */
  method MatchesTimeFormat(text: string, format: string) returns (r: bool)
    ensures r <==> Matches(text, format)
  {
    hide Fills;
    var index: nat, f: nat := 0, 0;
    assert text[0..] == text && format[0..] == format;
    while f < |format|
      invariant f <= |format| && index <= |text|
      invariant Matches(text, format) <==> MatchesAll(text[index..], Slots(format[f..]))
      decreases |format| - f
    {
      var rest := format[f..];
      if format[f] != '%' {
        assert rest[1..] == format[f + 1..];
        CharacterStep(text, index, format[f], Slots(format[f + 1..]));
        if index >= |text| || text[index] != format[f] {
          return false;
        }
        index, f := index + 1, f + 1;
        continue;
      }
      f := f + 1;
      if f >= |format| {
        return false;
      }
      assert rest[1] == format[f] && rest[2..] == format[f + 1..];
      if format[f] == '%' {
        CharacterStep(text, index, '%', Slots(format[f + 1..]));
        if index >= |text| || text[index] != '%' {
          return false;
        }
        index, f := index + 1, f + 1;
        continue;
      }
      var digits := DigitsForSpecifier(format[f]);
      if digits == 0 {
        return false;
      }
      ghost var after := Slots(format[f + 1..]);
      for digit := 0 to digits
        invariant index <= |text|
        invariant Matches(text, format) <==> MatchesAll(text[index..], Before(Digits(digits - digit), after))
      {
        DigitStep(text, index, digits - digit, after);
        if !(index < |text| && IsDigit(text[index])) {
          return false;
        }
        index := index + 1;
      }
      NoDigits(after);
      f := f + 1;
    }
    r := index == |text|;
    assert r <==> Fills(text[index..], []) by { NothingFills(text[index..]); }
  }

  lemma NothingFills(text: string)
    ensures Fills(text, []) <==> text == ""
  {}

  lemma NoDigits(rest: Option<seq<Slot>>)
    ensures Before(Digits(0), rest) == rest
  {
    if rest.Some? {
      assert Digits(0) + rest.value == rest.value;
    }
  }

  lemma CharacterStep(text: string, index: nat, c: char, rest: Option<seq<Slot>>)
    requires index <= |text|
    ensures MatchesAll(text[index..], Before([Exactly(c)], rest))
        <==> index < |text| && text[index] == c && MatchesAll(text[index + 1..], rest)
  {
    if rest.Some? {
      FillsFirst(text[index..], Exactly(c), rest.value);
      assert index < |text| ==> text[index..][1..] == text[index + 1..];
    }
  }

  lemma DigitStep(text: string, index: nat, n: nat, rest: Option<seq<Slot>>)
    requires index <= |text| && n > 0
    ensures MatchesAll(text[index..], Before(Digits(n), rest))
        <==> index < |text| && IsDigit(text[index]) && MatchesAll(text[index + 1..], Before(Digits(n - 1), rest))
  {
    if rest.Some? {
      assert Digits(n) + rest.value == [AnyDigit] + (Digits(n - 1) + rest.value);
      FillsFirst(text[index..], AnyDigit, Digits(n - 1) + rest.value);
      assert index < |text| ==> text[index..][1..] == text[index + 1..];
    }
  }

  // ---------------------------------------------------------------- rotatable formats

  /** Understood, and with at least one digit: otherwise every backup would have the same name. */
  predicate Rotatable(format: string) {
    Slots(format).Some? && AnyDigit in Slots(format).value
  }

  method IsRotatableTimeFormat(format: string) returns (r: bool)
    ensures r <==> Rotatable(format)
  {
    var hasSpecifier := false;
    var index: nat := 0;
    assert format[0..] == format;
    while index < |format|
      invariant index <= |format|
      invariant Slots(format).Some? <==> Slots(format[index..]).Some?
      invariant Slots(format).Some? ==>
        (AnyDigit in Slots(format).value <==> hasSpecifier || AnyDigit in Slots(format[index..]).value)
      decreases |format| - index
    {
      var rest := format[index..];
      if format[index] != '%' {
        assert rest[1..] == format[index + 1..];
        index := index + 1;
        continue;
      }
      index := index + 1;
      if index >= |format| {
        return false;
      }
      assert rest[1] == format[index] && rest[2..] == format[index + 1..];
      if format[index] == '%' {
        index := index + 1;
        continue;
      }
      var digits := DigitsForSpecifier(format[index]);
      if digits == 0 {
        return false;
      }
      assert AnyDigit in Digits(digits) by { assert Digits(digits)[0] == AnyDigit; }
      hasSpecifier := true;
      index := index + 1;
    }
    r := hasSpecifier;
  }

  // ---------------------------------------------------------------- owned names

  const ARCHIVE := ".7z"

  predicate EndsWith(s: string, suffix: string) {
    |s| >= |suffix| && s[|s| - |suffix|..] == suffix
  }

  /** The name of a backup directory or of its archive.  Only such names are ever removed. */
  predicate IsOwnedBackupName(source: string, candidate: string, format: string) {
    Rotatable(format)
    && var stem := Stem(candidate);
       source <= stem && Matches(stem[|source|..], format)
  }

  function Stem(name: string): string {
    if EndsWith(name, ARCHIVE) then name[..|name| - 3] else name
  }

  /** The name of a backup whose filled-in format is `stamp`. */
  function BackupName(source: string, stamp: string, archived: bool): string {
    source + stamp + if archived then ARCHIVE else ""
  }

  predicate EndsInArchive(slots: seq<Slot>) {
    && |slots| >= 3
    && slots[|slots| - 3] == Exactly('.') && slots[|slots| - 2] == Exactly('7') && slots[|slots| - 1] == Exactly('z')
  }

  /** Digits come at least two at a time. */
  lemma {:induction false} DigitRuns(format: string, i: nat)
    requires Slots(format).Some? && i < |Slots(format).value| && Slots(format).value[i] == AnyDigit
    ensures var slots := Slots(format).value;
      (i > 0 && slots[i - 1] == AnyDigit) || (i + 1 < |slots| && slots[i + 1] == AnyDigit)
    decreases |format|
  {
    if format[0] != '%' {
      DigitRuns(format[1..], i - 1);
    } else if format[1] == '%' {
      DigitRuns(format[2..], i - 1);
    } else {
      var d := DigitsForSpecifier(format[1]);
      if i >= d {
        DigitRuns(format[2..], i - d);
      } else {
        assert forall j :: 0 <= j < d ==> Slots(format).value[j] == AnyDigit;
        assert d >= 2;
      }
    }
  }

  /** The first unit of a format and the slots it stands for. */
  lemma {:induction false} FirstUnit(format: string) returns (width: nat, first: seq<Slot>)
    requires format != "" && Slots(format).Some?
    ensures 1 <= width <= 2 && width <= |format| && first != []
    ensures Slots(format[width..]).Some? && Slots(format).value == first + Slots(format[width..]).value
    ensures width == 1 ==> first == [Exactly(format[0])] && format[0] != '%'
    ensures width == 2 ==> format[0] == '%' && format[1] != '.'
    ensures width == 2 ==>
      first == [Exactly('%')] || (|first| >= 2 && forall i :: 0 <= i < |first| ==> first[i] == AnyDigit)
  {
    width := if format[0] == '%' then 2 else 1;
    first := if format[0] != '%' then [Exactly(format[0])]
             else if format[1] == '%' then [Exactly('%')] else Digits(DigitsForSpecifier(format[1]));
  }

  /** A slot for an ordinary character comes from that character. */
  lemma OrdinarySlot(format: string, c: char, rest: seq<Slot>)
    requires c != '%' && Slots(format) == Some([Exactly(c)] + rest)
    ensures format != "" && format[0] == c && Slots(format[1..]) == Some(rest)
  {
    var width, first := FirstUnit(format);
    var tail := Slots(format[width..]).value;
    assert (first + tail)[0] == first[0] == Exactly(c);
    assert (first + tail)[1..] == tail && ([Exactly(c)] + rest)[1..] == rest;
  }

  lemma ArchiveSlots(format: string)
    requires Slots(format) == Some([Exactly('7'), Exactly('z')])
    ensures format == "7z"
  {
    assert [Exactly('7'), Exactly('z')] == [Exactly('7')] + [Exactly('z')];
    OrdinarySlot(format, '7', [Exactly('z')]);
    assert [Exactly('z')] == [Exactly('z')] + [];
    OrdinarySlot(format[1..], 'z', []);
    assert format[1..][1..] == format[2..];
    OnlyEmpty(format[2..]);
  }

  lemma OnlyEmpty(format: string)
    requires Slots(format) == Some([])
    ensures format == ""
  {}

  lemma EndOfTail(first: seq<Slot>, tail: seq<Slot>)
    requires |tail| >= 3
    ensures EndsInArchive(first + tail) <==> EndsInArchive(tail)
  {}

  /** With fewer than three slots behind it, the unit in front must be the dot of ".7z". */
  lemma EndInFirst(format: string, width: nat, first: seq<Slot>, tail: seq<Slot>)
    requires |tail| < 3 && EndsInArchive(first + tail)
    requires width <= |format| && Slots(format[width..]) == Some(tail) && first != []
    requires width == 1 ==> first == [Exactly(format[0])]
    requires width != 1 ==>
      first == [Exactly('%')] || (|first| >= 2 && forall i :: 0 <= i < |first| ==> first[i] == AnyDigit)
    ensures width == 1 && format == ARCHIVE
  {
    hide Slots;
    var slots := first + tail;
    assert slots[|first| - 1] == first[|first| - 1] && slots[0] == first[0];
    assert |first| == 1 && |tail| == 2 && slots[1] == tail[0] && slots[2] == tail[1];
    assert tail == [Exactly('7'), Exactly('z')];
    ArchiveSlots(format[width..]);
    assert format == [format[0]] + format[1..];
    assert format[0] == '.' && format[1..] == "7z";
    assert ['.'] + "7z" == ARCHIVE;
  }

  /** The filled-in format ends in ".7z" exactly when the format does. */
  lemma {:induction false} ArchiveEnd(format: string)
    requires Slots(format).Some?
    ensures EndsInArchive(Slots(format).value) <==> EndsWith(format, ARCHIVE)
    decreases |format|
  {
    hide Slots, EndsWith;
    if format == "" {
      NoSlots();
    } else {
      var width, first := FirstUnit(format);
      var rest, tail := format[width..], Slots(format[width..]).value;
      ArchiveEnd(rest);
      ArchiveItself();
      EndOfRest(format, width);
      if |tail| >= 3 {
        EndOfTail(first, tail);
      } else if EndsInArchive(first + tail) {
        EndInFirst(format, width, first, tail);
      }
      if EndsWith(format, ARCHIVE) {
        EndOfText(format, width);
      }
    }
  }

  lemma NoSlots()
    ensures Slots("") == Some([]) && !EndsWith("", ARCHIVE)
  {}

  lemma ArchiveItself()
    ensures Slots(ARCHIVE).Some? && EndsInArchive(Slots(ARCHIVE).value) && EndsWith(ARCHIVE, ARCHIVE)
  {
    assert ARCHIVE[1..] == "7z" && "7z"[1..] == "z" && "z"[1..] == "";
    assert Slots("z").value == [Exactly('z')] + [] == [Exactly('z')];
    assert Slots("7z").value == [Exactly('7')] + [Exactly('z')];
  }

  lemma EndOfRest(format: string, width: nat)
    requires width <= |format|
    ensures EndsWith(format[width..], ARCHIVE) ==> EndsWith(format, ARCHIVE)
  {
    var rest := format[width..];
    assert |rest| >= 3 ==> format[|format| - 3..] == rest[|rest| - 3..];
  }

  lemma EndOfText(format: string, width: nat)
    requires 1 <= width <= 2 && width <= |format| && EndsWith(format, ARCHIVE)
    requires width == 2 ==> format[0] == '%' && format[1] != '.'
    ensures EndsWith(format[width..], ARCHIVE) || (width == 1 && format == ARCHIVE)
  {
    var end := format[|format| - 3..];
    assert end[0] == '.' && forall k :: 0 <= k < 3 ==> format[|format| - 3 + k] == end[k];
    if |format| - width >= 3 {
      assert end == format[width..][|format| - width - 3..];
    }
  }

  /** A filled-in format behind a source name ends in ".7z" exactly when the format does. */
  lemma StampEnd(source: string, stamp: string, format: string)
    requires Rotatable(format) && Matches(stamp, format)
    ensures EndsWith(source + stamp, ARCHIVE) <==> EndsWith(format, ARCHIVE)
  {
    var slots := Slots(format).value;
    ArchiveEnd(format);
    var i :| 0 <= i < |slots| && slots[i] == AnyDigit;
    DigitRuns(format, i);
    EndOfName(source, stamp);
    if |slots| >= 3 {
      EndOfStamp(stamp, slots);
      if stamp[|stamp| - 3..] == ARCHIVE && slots[|slots| - 2] == AnyDigit {
        DigitRuns(format, |slots| - 2);
      }
    } else {
      assert slots[1] == AnyDigit;
    }
  }

  lemma EndOfName(source: string, stamp: string)
    ensures |stamp| >= 3 ==> (EndsWith(source + stamp, ARCHIVE) <==> stamp[|stamp| - 3..] == ARCHIVE)
    ensures |stamp| == 2 && EndsWith(source + stamp, ARCHIVE) ==> stamp[1] == 'z'
  {
    var name := source + stamp;
    if |stamp| >= 3 {
      assert name[|name| - 3..] == stamp[|stamp| - 3..];
    } else if |stamp| == 2 && EndsWith(name, ARCHIVE) {
      assert name[|name| - 3..][2] == stamp[1];
    }
  }

  lemma EndOfStamp(stamp: string, slots: seq<Slot>)
    requires Fills(stamp, slots) && |slots| >= 3
    ensures EndsInArchive(slots) ==> stamp[|stamp| - 3..] == ARCHIVE
    ensures stamp[|stamp| - 3..] == ARCHIVE ==>
      var n := |slots|;
      && slots[n - 3] == Exactly('.') && slots[n - 1] == Exactly('z')
      && (slots[n - 2] == Exactly('7') || slots[n - 2] == AnyDigit)
  {
    var n, end := |slots|, stamp[|stamp| - 3..];
    assert Fits(end[0], slots[n - 3]) && Fits(end[1], slots[n - 2]) && Fits(end[2], slots[n - 1]);
  }

  /** A job owns the archive names of its format always, and the plain names unless the format itself ends in ".7z". */
  lemma OwnedIff(source: string, name: string, format: string)
    requires Rotatable(format)
    ensures IsOwnedBackupName(source, name, format) <==>
      exists stamp, archived :: Matches(stamp, format) && name == BackupName(source, stamp, archived)
                                && (archived || !EndsWith(format, ARCHIVE))
  {
    hide Matches, Rotatable;
    if IsOwnedBackupName(source, name, format) {
      var archived, stem := EndsWith(name, ARCHIVE), Stem(name);
      var stamp := stem[|source|..];
      assert stem == source + stamp;
      assert name == BackupName(source, stamp, archived);
      StampEnd(source, stamp, format);
    }
    if stamp, archived :| Matches(stamp, format) && name == BackupName(source, stamp, archived)
                          && (archived || !EndsWith(format, ARCHIVE)) {
      StampEnd(source, stamp, format);
      StemOf(source, stamp, archived);
    }
  }

  /** Without the archive suffix, what follows the source name is the stamp again. */
  lemma StemOf(source: string, stamp: string, archived: bool)
    requires archived || !EndsWith(source + stamp, ARCHIVE)
    ensures var name := BackupName(source, stamp, archived);
            var stem := Stem(name);
      source <= stem && stem[|source|..] == stamp
  {
    var stem := source + stamp;
    var name := BackupName(source, stamp, archived);
    assert name == stem + if archived then ARCHIVE else "";
    if archived {
      assert name[|name| - 3..] == ARCHIVE && name[..|name| - 3] == stem;
    } else {
      assert name == stem;
    }
    assert stem[|source|..] == stamp;
  }

  ghost predicate IsBackupName(source: string, name: string, format: string) {
    exists stamp, archived :: Matches(stamp, format) && name == BackupName(source, stamp, archived)
  }

  function SomeStamp(slots: seq<Slot>): string {
    seq(|slots|, i requires 0 <= i < |slots| => if slots[i].Exactly? then slots[i].c else '0')
  }

  /** Ownership recognises exactly the names the job produces, if and only if the format does not end in ".7z". */
  lemma OwnsItsNamesIff(format: string)
    requires Rotatable(format)
    ensures (forall source, name :: IsOwnedBackupName(source, name, format) <==> IsBackupName(source, name, format))
        <==> !EndsWith(format, ARCHIVE)
  {
    if EndsWith(format, ARCHIVE) {
      var name := SomeStamp(Slots(format).value);
      assert Matches(name, format) && name == BackupName("", name, false);
      assert IsBackupName("", name, format);
      OwnedIff("", name, format);
      assert !IsOwnedBackupName("", name, format);
    } else {
      forall source, name ensures IsOwnedBackupName(source, name, format) <==> IsBackupName(source, name, format) {
        OwnedIff(source, name, format);
      }
    }
  }

  // ---------------------------------------------------------------- who owns a name

  /** Two slots that some character fits. */
  predicate Meet(a: Slot, b: Slot) {
    match (a, b)
    case (Exactly(c), _) => Fits(c, b)
    case (_, Exactly(d)) => Fits(d, a)
    case _ => true
  }

  function Common(a: Slot, b: Slot): (c: char)
    requires Meet(a, b)
    ensures Fits(c, a) && Fits(c, b)
  {
    if a.Exactly? then a.c else if b.Exactly? then b.c else '0'
  }

  /** A text for the longer slots can end in a text for the shorter ones. */
  predicate Covers(longer: seq<Slot>, shorter: seq<Slot>) {
    |shorter| < |longer| && forall i :: 0 <= i < |shorter| ==> Meet(longer[|longer| - |shorter| + i], shorter[i])
  }

  ghost predicate Shared(format: string, other: string) {
    exists source, claimant, name ::
      source != claimant && IsOwnedBackupName(source, name, format) && IsOwnedBackupName(claimant, name, other)
  }

  /**
   * Two sources can own one name, each under its format, exactly when texts of
   * one format can end in texts of the other, shorter one: never under one
   * format.
   */
  lemma SharedIff(format: string, other: string)
    requires Rotatable(format) && Rotatable(other)
    ensures Shared(format, other) <==>
      Covers(Slots(format).value, Slots(other).value) || Covers(Slots(other).value, Slots(format).value)
  {
    hide IsOwnedBackupName, Covers;
    if source, claimant, name :|
      source != claimant && IsOwnedBackupName(source, name, format) && IsOwnedBackupName(claimant, name, other) {
      OwnersDiffer(source, claimant, name, format, other);
    }
    if Covers(Slots(format).value, Slots(other).value) {
      var claimant, name := CoveredName(format, other);
    }
    if Covers(Slots(other).value, Slots(format).value) {
      var source, name := CoveredName(other, format);
    }
  }

  lemma OwnersDiffer(source: string, claimant: string, name: string, format: string, other: string)
    requires IsOwnedBackupName(source, name, format) && IsOwnedBackupName(claimant, name, other) && source != claimant
    ensures Covers(Slots(format).value, Slots(other).value) || Covers(Slots(other).value, Slots(format).value)
  {
    var stem := Stem(name);
    assert source == stem[..|source|] && claimant == stem[..|claimant|];
    if |source| < |claimant| {
      LongerCovers(stem, source, claimant, Slots(format).value, Slots(other).value);
    } else {
      LongerCovers(stem, claimant, source, Slots(other).value, Slots(format).value);
    }
  }

  lemma LongerCovers(stem: string, source: string, claimant: string, longer: seq<Slot>, shorter: seq<Slot>)
    requires source <= stem && claimant <= stem && |source| < |claimant|
    requires Fills(stem[|source|..], longer) && Fills(stem[|claimant|..], shorter)
    ensures Covers(longer, shorter)
  {
    var skip := |longer| - |shorter|;
    forall i | 0 <= i < |shorter| ensures Meet(longer[skip + i], shorter[i]) {
      assert stem[|source|..][skip + i] == stem[|claimant|..][i];
    }
  }

  lemma ArchiveIsOwned(source: string, stamp: string, format: string)
    requires Rotatable(format) && Matches(stamp, format)
    ensures IsOwnedBackupName(source, BackupName(source, stamp, true), format)
  {
    hide IsOwnedBackupName, Rotatable, Matches;
    OwnedIff(source, BackupName(source, stamp, true), format);
  }

  function CommonTail(tail: seq<Slot>, shorter: seq<Slot>): (text: string)
    requires |tail| == |shorter| && forall i :: 0 <= i < |shorter| ==> Meet(tail[i], shorter[i])
    ensures Fills(text, tail) && Fills(text, shorter)
  {
    seq(|shorter|, i requires 0 <= i < |shorter| => Common(tail[i], shorter[i]))
  }

  /** A text for the longer slots that ends in one for the shorter. */
  lemma Overlay(longer: seq<Slot>, shorter: seq<Slot>) returns (text: string)
    requires Covers(longer, shorter)
    ensures Fills(text, longer) && Fills(text[|longer| - |shorter|..], shorter)
  {
    var skip := |longer| - |shorter|;
    forall i | 0 <= i < |shorter| ensures Meet(longer[skip..][i], shorter[i]) {}
    var head, tail := SomeStamp(longer[..skip]), CommonTail(longer[skip..], shorter);
    text := head + tail;
    assert text[skip..] == tail;
    forall i | 0 <= i < |longer| ensures Fits(text[i], longer[i]) {
      assert i >= skip ==> Fits(tail[i - skip], longer[skip..][i - skip]);
    }
  }

  /** An archive name that the source "" owns under the longer format, and another source under the shorter. */
  lemma CoveredName(format: string, other: string) returns (claimant: string, name: string)
    requires Rotatable(format) && Rotatable(other) && Covers(Slots(format).value, Slots(other).value)
    ensures claimant != "" && IsOwnedBackupName("", name, format) && IsOwnedBackupName(claimant, name, other)
  {
    var longer, shorter := Slots(format).value, Slots(other).value;
    var skip := |longer| - |shorter|;
    var stamp := Overlay(longer, shorter);
    assert Matches(stamp, format) && Matches(stamp[skip..], other);
    hide *;
    claimant, name := stamp[..skip], BackupName("", stamp, true);
    ArchiveIsOwned("", stamp, format);
    ArchiveIsOwned(claimant, stamp[skip..], other);
    SameName(stamp, skip);
  }

  lemma SameName(stamp: string, skip: nat)
    requires skip <= |stamp|
    ensures BackupName("", stamp, true) == BackupName(stamp[..skip], stamp[skip..], true)
  {
    assert stamp[..skip] + stamp[skip..] == stamp == "" + stamp;
  }

  /** Under one format a name belongs to one source at most. */
  lemma OneOwner(source: string, other: string, name: string, format: string)
    requires IsOwnedBackupName(source, name, format) && IsOwnedBackupName(other, name, format)
    ensures source == other
  {
    if source != other {
      OwnersDiffer(source, other, name, format, format);
    }
  }
}
