/**
 * SettingsIniDocument: parse a settings file, change values, render it again. Rendering what was parsed gives
 * the same bytes back, and a change is found again by the next parse exactly when it can be written at its place.
 */
module SettingsDocument {
  import opened Bytes
  import opened SettingsText
  import opened SettingsEdit

  datatype Entry = Entry(section: string, key: string, value: string, comment: string, line: nat, begin: nat, end: nat)

  /** A line and the entry that was found in it. */
  datatype Marked = Marked(line: Line, entry: Option<nat>)

  /** Why a parse fails; a malformed header is reported with its line number, counted from 1. */
  datatype Verdict = Fine | EmptyText | MalformedHeader(number: nat) | NoSettings

  datatype Scanned = Scanned(entries: seq<Entry>, malformed: Option<nat>)

  function EntryOf(section: string, s: Setting, line: nat): Entry {
    Entry(section, s.key, s.value, s.comment, line, s.begin, s.end)
  }

  /** The entries of lines[i..], up to a malformed header. */
  function Scan(lines: seq<Line>, i: nat, section: string): (r: Scanned)
    requires i <= |lines|
    decreases |lines| - i
  {
    if i == |lines| then Scanned([], None)
    else match Meaning(section, lines[i].content)
      case Nothing => Scan(lines, i + 1, section)
      case Malformed => Scanned([], Some(i))
      case Header(next) => Scan(lines, i + 1, next)
      case Value(s) =>
        var rest := Scan(lines, i + 1, section);
        Scanned([EntryOf(section, s, i)] + rest.entries, rest.malformed)
  }

  /** Which entry was found in a line. */
  function EntryAt(entries: seq<Entry>, line: nat): (r: Option<nat>)
    ensures r.Some? ==> r.value < |entries| && entries[r.value].line == line
    ensures r.None? ==> forall k :: 0 <= k < |entries| ==> entries[k].line != line
  {
    if entries == [] then None
    else if entries[|entries| - 1].line == line then Some(|entries| - 1)
    else EntryAt(entries[..|entries| - 1], line)
  }

  function MarkedBy(lines: seq<Line>, entries: seq<Entry>): (r: seq<Marked>)
    ensures |r| == |lines|
  {
    seq(|lines|, i requires 0 <= i < |lines| => Marked(lines[i], EntryAt(entries, i)))
  }

  /** What a parse leaves behind, also when it fails. */
  datatype Document = Document(lines: seq<Marked>, entries: seq<Entry>, verdict: Verdict)

  function Parsed(text: string): Document {
    var lines := SplitLines(text);
    var scanned := Scan(lines, 0, "");
    Document(MarkedBy(lines, scanned.entries), scanned.entries,
             if text == "" then EmptyText
             else if scanned.malformed.Some? then MalformedHeader(scanned.malformed.value + 1)
             else if scanned.entries == [] then NoSettings
             else Fine)
  }

  /** Every marked line holds the span its entry names. */
  ghost predicate Renderable(lines: seq<Marked>, entries: seq<Entry>) {
    forall j :: 0 <= j < |lines| && lines[j].entry.Some? ==>
      lines[j].entry.value < |entries|
      && entries[lines[j].entry.value].begin <= entries[lines[j].entry.value].end <= |lines[j].line.content|
  }

  function WithSpan(content: string, e: Entry): string
    requires e.begin <= e.end <= |content|
  {
    content[..e.begin] + e.value + content[e.end..]
  }

  ghost function Shown(lines: seq<Marked>, entries: seq<Entry>, j: nat): Line
    requires Renderable(lines, entries) && j < |lines|
  {
    if lines[j].entry.None? then lines[j].line
    else lines[j].line.(content := WithSpan(lines[j].line.content, entries[lines[j].entry.value]))
  }

  ghost function ShownLines(lines: seq<Marked>, entries: seq<Entry>): (r: seq<Line>)
    requires Renderable(lines, entries)
    ensures |r| == |lines| && forall j :: 0 <= j < |lines| ==> r[j] == Shown(lines, entries, j)
  {
    seq(|lines|, j requires 0 <= j < |lines| => Shown(lines, entries, j))
  }

  ghost function Rendered(lines: seq<Marked>, entries: seq<Entry>): string
    requires Renderable(lines, entries)
  {
    JoinLines(ShownLines(lines, entries))
  }

  // ---------------------------------------------------------------- what a scan finds

  predicate EntryFits(lines: seq<Line>, from: nat, e: Entry) {
    && from <= e.line < |lines|
    && Meaning(e.section, lines[e.line].content).Value?
    && e == EntryOf(e.section, Meaning(e.section, lines[e.line].content).setting, e.line)
  }

  /** Entries of lines[from..], each the setting its own line holds, in line order. */
  predicate InOrder(lines: seq<Line>, from: nat, entries: seq<Entry>) {
    && (forall k :: 0 <= k < |entries| ==> EntryFits(lines, from, entries[k]))
    && (forall k, l :: 0 <= k < l < |entries| ==> entries[k].line < entries[l].line)
  }

  lemma InOrderEarlier(lines: seq<Line>, from: nat, entries: seq<Entry>)
    requires InOrder(lines, from + 1, entries)
    ensures InOrder(lines, from, entries)
  {
    forall k | 0 <= k < |entries| ensures EntryFits(lines, from, entries[k]) {
      assert EntryFits(lines, from + 1, entries[k]);
    }
  }

  lemma {:induction false} InOrderCons(lines: seq<Line>, e: Entry, rest: seq<Entry>)
    requires EntryFits(lines, e.line, e) && InOrder(lines, e.line + 1, rest)
    ensures InOrder(lines, e.line, [e] + rest)
  {
    var entries := [e] + rest;
    forall k | 0 <= k < |entries| ensures EntryFits(lines, e.line, entries[k]) && (k > 0 ==> e.line < entries[k].line) {
      if k > 0 {
        assert EntryFits(lines, e.line + 1, rest[k - 1]);
      }
    }
  }

  lemma {:induction false} ScanFinds(lines: seq<Line>, i: nat, section: string)
    requires i <= |lines|
    ensures InOrder(lines, i, Scan(lines, i, section).entries)
    decreases |lines| - i
  {
    hide Meaning, InOrder;
    if i == |lines| {
      NothingInOrder(lines, i);
    } else {
      match Meaning(section, lines[i].content)
      case Nothing =>
        ScanFinds(lines, i + 1, section);
        InOrderEarlier(lines, i, Scan(lines, i + 1, section).entries);
      case Malformed => NothingInOrder(lines, i);
      case Header(next) =>
        ScanFinds(lines, i + 1, next);
        InOrderEarlier(lines, i, Scan(lines, i + 1, next).entries);
      case Value(s) =>
        ScanFinds(lines, i + 1, section);
        InOrderCons(lines, EntryOf(section, s, i), Scan(lines, i + 1, section).entries);
    }
  }

  /** The section a line stands in: that of the last header before it. */
  function SectionAt(lines: seq<Line>, i: nat): string
    requires i <= |lines|
  {
    if i == 0 then ""
    else match Meaning(SectionAt(lines, i - 1), lines[i - 1].content)
      case Header(next) => next
      case _ => SectionAt(lines, i - 1)
  }

  lemma {:induction false} SectionIsLastHeader(lines: seq<Line>, header: nat, i: nat, name: string)
    requires header < i <= |lines| && Meaning("", lines[header].content) == Header(name)
    requires forall j :: header < j < i ==> !Meaning("", lines[j].content).Header?
    ensures SectionAt(lines, i) == name
    decreases i
  {
    hide Meaning;
    SameHeader(SectionAt(lines, i - 1), lines[i - 1].content);
    if header < i - 1 {
      SectionIsLastHeader(lines, header, i - 1, name);
    }
  }

  lemma {:induction false} NoSectionAtFirst(lines: seq<Line>, i: nat)
    requires i <= |lines| && forall j :: 0 <= j < i ==> !Meaning("", lines[j].content).Header?
    ensures SectionAt(lines, i) == ""
    decreases i
  {
    hide Meaning;
    if i > 0 {
      NoSectionAtFirst(lines, i - 1);
    }
  }

  /** Whether a line is a header does not depend on where it stands. */
  lemma SameHeader(section: string, line: string)
    ensures Meaning(section, line).Header? || Meaning("", line).Header? ==> Meaning(section, line) == Meaning("", line)
    ensures Meaning(section, line).Malformed? <==> Meaning("", line).Malformed?
  {}

  /** How far a scan gets: to the first malformed header. */
  predicate ScanEnds(lines: seq<Line>, from: nat, scanned: Scanned) {
    match scanned.malformed
    case None => forall j :: from <= j < |lines| ==> !Meaning("", lines[j].content).Malformed?
    case Some(m) =>
      && from <= m < |lines| && Meaning("", lines[m].content).Malformed?
      && forall j :: from <= j < m ==> !Meaning("", lines[j].content).Malformed?
  }

  /** An entry for every setting line of an editable section on the way, under its own section, and no other. */
  ghost predicate FindsAll(lines: seq<Line>, from: nat, scanned: Scanned) {
    var end := if scanned.malformed.Some? then scanned.malformed.value else |lines|;
    forall e: Entry ::
      e in scanned.entries <==>
        && from <= e.line < end && e.line < |lines|
        && Meaning(SectionAt(lines, e.line), lines[e.line].content)
           == Value(Setting(e.key, e.value, e.comment, e.begin, e.end))
        && e.section == SectionAt(lines, e.line)
  }

  lemma {:induction false} ScanFindsAll(lines: seq<Line>, i: nat)
    requires i <= |lines|
    ensures ScanEnds(lines, i, Scan(lines, i, SectionAt(lines, i)))
    ensures FindsAll(lines, i, Scan(lines, i, SectionAt(lines, i)))
    decreases |lines| - i
  {
    hide Meaning;
    var section := SectionAt(lines, i);
    var scanned := Scan(lines, i, section);
    ScanFinds(lines, i, section);
    if i < |lines| {
      SameHeader(section, lines[i].content);
      if !Meaning(section, lines[i].content).Malformed? {
        ScanFindsAll(lines, i + 1);
        ScanFinds(lines, i + 1, SectionAt(lines, i + 1));
      }
    }
  }

  /**
   * The entries of a text: the settings of its lines before the first unclosed
   * header, each under the section it stands in.
   */
  lemma EntriesAre(text: string, e: Entry)
    ensures e in Parsed(text).entries <==>
      var lines := SplitLines(text);
      && e.line < |lines| && (forall j :: 0 <= j <= e.line ==> !Meaning("", lines[j].content).Malformed?)
      && Meaning(SectionAt(lines, e.line), lines[e.line].content)
         == Value(Setting(e.key, e.value, e.comment, e.begin, e.end))
      && e.section == SectionAt(lines, e.line)
  {
    hide Meaning;
    var lines := SplitLines(text);
    ScanFindsAll(lines, 0);
    if e.line < |lines| {
      SameHeader(SectionAt(lines, e.line), lines[e.line].content);
    }
  }

  /** The verdict of a parse: the first unclosed header by its number from 1, else whether any setting was found. */
  lemma VerdictIs(text: string)
    ensures var lines, verdict := SplitLines(text), Parsed(text).verdict;
      && (verdict == EmptyText <==> text == "")
      && (forall n: nat :: verdict == MalformedHeader(n) <==>
            && text != "" && 1 <= n <= |lines| && Meaning("", lines[n - 1].content).Malformed?
            && forall j :: 0 <= j < n - 1 ==> !Meaning("", lines[j].content).Malformed?)
      && (verdict == Fine ==> Parsed(text).entries != [])
      && (verdict == NoSettings ==> Parsed(text).entries == [])
  {
    hide Meaning;
    var lines := SplitLines(text);
    ScanFindsAll(lines, 0);
  }

  lemma NothingInOrder(lines: seq<Line>, from: nat)
    ensures InOrder(lines, from, [])
  {}

  /** Each entry is the setting of its own line. */
  lemma EntryIsSetting(lines: seq<Line>, k: nat)
    requires k < |Scan(lines, 0, "").entries|
    ensures var e := Scan(lines, 0, "").entries[k];
      && e.line < |lines| && e.begin <= e.end <= |lines[e.line].content|
      && Meaning(e.section, lines[e.line].content).Value?
      && SettingIn(lines[e.line].content) == Some(Setting(e.key, e.value, e.comment, e.begin, e.end))
      && e.value == lines[e.line].content[e.begin..e.end]
  {
    hide Meaning, SettingIn;
    ScanFinds(lines, 0, "");
    var e := Scan(lines, 0, "").entries[k];
    assert EntryFits(lines, 0, e);
    MeaningIsSetting(e.section, lines[e.line].content);
  }

  lemma MarksAreEntries(lines: seq<Line>, k: nat)
    requires k < |Scan(lines, 0, "").entries|
    ensures var entries := Scan(lines, 0, "").entries; EntryAt(entries, entries[k].line) == Some(k)
  {
    ScanFinds(lines, 0, "");
  }

  lemma ParsedIsRenderable(text: string)
    ensures Renderable(Parsed(text).lines, Parsed(text).entries)
  {
    hide Scan, Meaning, SettingIn;
    var lines := SplitLines(text);
    var entries := Scan(lines, 0, "").entries;
    forall k | 0 <= k < |entries| ensures
        entries[k].line < |lines| && entries[k].begin <= entries[k].end <= |lines[entries[k].line].content|
    {
      EntryIsSetting(lines, k);
    }
  }

  /** Rendering what was parsed gives the text back, byte for byte, also after a failed parse. */
  lemma RenderGivesBack(text: string)
    ensures Renderable(Parsed(text).lines, Parsed(text).entries)
    ensures Rendered(Parsed(text).lines, Parsed(text).entries) == text
  {
    hide Scan, Meaning, SettingIn, JoinLines;
    ParsedIsRenderable(text);
    var d, lines := Parsed(text), SplitLines(text);
    forall j | 0 <= j < |lines| ensures Shown(d.lines, d.entries, j) == lines[j] {
      if d.lines[j].entry.Some? {
        EntryIsSetting(lines, d.lines[j].entry.value);
      }
    }
    assert ShownLines(d.lines, d.entries) == lines;
    JoinOfSplit(text);
  }

  // ---------------------------------------------------------------- editing values

  /** The entries with new values; everything else about them stays. */
  function WithValues(entries: seq<Entry>, values: seq<string>): (r: seq<Entry>)
    requires |values| == |entries|
    ensures |r| == |entries|
  {
    seq(|entries|, k requires 0 <= k < |entries| => entries[k].(value := values[k]))
  }

  /** A value that can be written where the entry is: it reads like a value, and no comment mark gets glued to it. */
  predicate Writable(content: string, e: Entry, v: string) {
    CleanValue(v) && (v == "" || e.value != "" || e.end == |content|)
  }

  /** The next parse found the same entries with the new values; only the spans may have moved. */
  predicate Survives(again: seq<Entry>, entries: seq<Entry>, values: seq<string>) {
    && |again| == |entries| == |values|
    && forall k :: 0 <= k < |again| ==>
         again[k] == entries[k].(value := values[k], begin := again[k].begin, end := again[k].end)
  }

  function Entries(lines: seq<Line>): seq<Entry> {
    Scan(lines, 0, "").entries
  }

  lemma EditIsRenderable(lines: seq<Line>, values: seq<string>)
    requires |values| == |Entries(lines)|
    ensures Renderable(MarkedBy(lines, Entries(lines)), WithValues(Entries(lines), values))
  {
    hide Scan, Meaning, SettingIn;
    forall k | 0 <= k < |values| ensures
        var e := Entries(lines)[k]; e.line < |lines| && e.begin <= e.end <= |lines[e.line].content|
    {
      EntryIsSetting(lines, k);
    }
  }

  /** The lines as they are written after the edit. */
  ghost function EditedLines(lines: seq<Line>, values: seq<string>): (r: seq<Line>)
    requires |values| == |Entries(lines)|
    ensures |r| == |lines|
  {
    EditIsRenderable(lines, values);
    ShownLines(MarkedBy(lines, Entries(lines)), WithValues(Entries(lines), values))
  }

  lemma EditedLineIs(lines: seq<Line>, values: seq<string>, j: nat)
    requires |values| == |Entries(lines)| && j < |lines|
    ensures EditedLines(lines, values)[j].ending == lines[j].ending
    ensures EntryAt(Entries(lines), j).None? ==> EditedLines(lines, values)[j] == lines[j]
  {
    hide Scan, SettingIn;
    EditIsRenderable(lines, values);
  }

  lemma EditedEntryLineIs(lines: seq<Line>, values: seq<string>, k: nat)
    requires |values| == |Entries(lines)| && k < |values|
    ensures var e := Entries(lines)[k];
      && e.line < |lines| && SettingIn(lines[e.line].content).Some?
      && EditedLines(lines, values)[e.line].content
         == Edited(lines[e.line].content, SettingIn(lines[e.line].content).value, values[k])
  {
    hide Scan, SettingIn, Meaning;
    EntryIsSetting(lines, k);
    MarksAreEntries(lines, k);
    EditIsRenderable(lines, values);
  }

  lemma {:induction false} EditedMeaning(section: string, line: string, v: string)
    requires Meaning(section, line).Value? && CleanValue(v)
    requires var s := SettingIn(line).value; v == "" || s.value != "" || s.end == |line|
    ensures var s := Meaning(section, line).setting;
            var edited := Meaning(section, Edited(line, s, v));
      edited.Value? && edited.setting.key == s.key && edited.setting.comment == s.comment && edited.setting.value == v
  {
    hide Meaning, SettingIn, CleanValue;
    MeaningIsSetting(section, line);
    EditedSetting(line, v);
    EditedKind(section, line, v);
  }

  predicate AllWritable(lines: seq<Line>, values: seq<string>)
    requires |values| == |Entries(lines)|
  {
    forall k :: 0 <= k < |values| ==>
      var e := Entries(lines)[k]; e.line < |lines| && Writable(lines[e.line].content, e, values[k])
  }

  lemma {:induction false} ScanOfEdited(lines: seq<Line>, values: seq<string>, i: nat, section: string, k: nat)
    requires |values| == |Entries(lines)| && AllWritable(lines, values)
    requires i <= |lines| && k <= |values|
    requires Scan(lines, i, section).entries == Entries(lines)[k..]
    requires k > 0 ==> Entries(lines)[k - 1].line < i
    ensures var again := Scan(EditedLines(lines, values), i, section);
      && again.malformed == Scan(lines, i, section).malformed
      && Survives(again.entries, Entries(lines)[k..], values[k..])
    decreases |lines| - i
  {
    hide Meaning, SettingIn, EditedLines, CleanValue;
    if i < |lines| {
      var entries, edited := Entries(lines), EditedLines(lines, values);
      ScanFinds(lines, 0, "");
      var meaning := Meaning(section, lines[i].content);
      if meaning.Value? {
        assert entries[k] == entries[k..][0] == EntryOf(section, meaning.setting, i);
        assert entries[k + 1..] == entries[k..][1..] == Scan(lines, i + 1, section).entries;
        ScanOfEdited(lines, values, i + 1, section, k + 1);
        MeaningIsSetting(section, lines[i].content);
        EditedEntryLineIs(lines, values, k);
        EditedMeaning(section, lines[i].content, values[k]);
        SurvivesCons(Scan(edited, i, section).entries, entries[k..], values[k..]);
      } else {
        NoEntryHere(lines, i, section, k);
        EditedLineIs(lines, values, i);
        if !meaning.Malformed? {
          ScanOfEdited(lines, values, i + 1, if meaning.Header? then meaning.section else section, k);
        }
      }
    }
  }

  lemma SurvivesCons(again: seq<Entry>, entries: seq<Entry>, values: seq<string>)
    requires again != [] && entries != [] && values != []
    requires again[0] == entries[0].(value := values[0], begin := again[0].begin, end := again[0].end)
    requires Survives(again[1..], entries[1..], values[1..])
    ensures Survives(again, entries, values)
  {
    forall k | 0 <= k < |again|
      ensures again[k] == entries[k].(value := values[k], begin := again[k].begin, end := again[k].end)
    {
      if k > 0 {
        assert again[k] == again[1..][k - 1] && entries[k] == entries[1..][k - 1] && values[k] == values[1..][k - 1];
      }
    }
  }

  lemma NoEntryHere(lines: seq<Line>, i: nat, section: string, k: nat)
    requires i < |lines| && k <= |Entries(lines)|
    requires Scan(lines, i, section).entries == Entries(lines)[k..]
    requires k > 0 ==> Entries(lines)[k - 1].line < i
    requires !Meaning(section, lines[i].content).Value?
    ensures EntryAt(Entries(lines), i).None?
  {
    hide Meaning, EntryAt;
    var entries, meaning := Entries(lines), Meaning(section, lines[i].content);
    ScanFinds(lines, 0, "");
    if !meaning.Malformed? {
      var next := if meaning.Header? then meaning.section else section;
      ScanFinds(lines, i + 1, next);
      assert InOrder(lines, i + 1, entries[k..]);
    }
    forall l | k <= l < |entries| ensures entries[l].line != i {
      assert entries[l] == entries[k..][l - k];
      assert EntryFits(lines, i + 1, entries[k..][l - k]);
    }
  }

  // ---------------------------------------------------------------- the edited text parses to the edited entries

  lemma EditedHasNoBreak(line: string, s: Setting, v: string)
    requires s.begin <= s.end <= |line| && !HasBreak(line) && !HasBreak(v)
    ensures !HasBreak(Edited(line, s, v))
  {
    forall i | 0 <= i < |Edited(line, s, v)| ensures !IsBreak(Edited(line, s, v)[i]) {
      EditedAt(line, s.begin, s.end, v, i);
    }
  }

  /** Lines with the same endings, each unchanged or replaced by non-empty content without breaks. */
  lemma {:induction false} SplittableAlike(lines: seq<Line>, other: seq<Line>)
    requires Splittable(lines) && |other| == |lines|
    requires forall j :: 0 <= j < |lines| ==>
               other[j].ending == lines[j].ending && !HasBreak(other[j].content)
               && (other[j].content == lines[j].content || other[j].content != "")
    ensures Splittable(other)
  {
    if lines != [] {
      SplittableAlike(lines[1..], other[1..]);
    }
  }

  /** Values without breaks leave the edited lines apart, so the next parse sees exactly them. */
  lemma {:induction false} EditedTextSplits(text: string, values: seq<string>)
    requires |values| == |Entries(SplitLines(text))|
    requires forall k :: 0 <= k < |values| ==> !HasBreak(values[k])
    ensures SplitLines(JoinLines(EditedLines(SplitLines(text), values))) == EditedLines(SplitLines(text), values)
  {
    hide SplitLines, Scan, Meaning, SettingIn, EditedLines, HasBreak, JoinLines, Splittable;
    var lines := SplitLines(text);
    var edited := EditedLines(lines, values);
    SplitIsSplittable(text);
    forall j | 0 <= j < |lines| ensures
        edited[j].ending == lines[j].ending && !HasBreak(edited[j].content)
        && (edited[j].content == lines[j].content || edited[j].content != "")
    {
      EditedLineIs(lines, values, j);
      SplittableLine(lines, j);
      var at := EntryAt(Entries(lines), j);
      if at.Some? {
        EditedEntryLineIs(lines, values, at.value);
        var s := SettingIn(lines[j].content).value;
        SettingIsInside(lines[j].content);
        EditedHasNoBreak(lines[j].content, s, values[at.value]);
      }
    }
    SplittableAlike(lines, edited);
    SplitOfJoin(edited);
  }

  lemma SettingIsInside(line: string)
    requires SettingIn(line).Some?
    ensures 0 < SettingIn(line).value.begin
  {
    hide Find, SkipSpaces, FindComment, DropSpaces, Trim;
  }

  /** Every value a parse produces is clean. */
  lemma ParsedValuesAreClean(text: string, k: nat)
    requires k < |Parsed(text).entries|
    ensures CleanValue(Parsed(text).entries[k].value)
  {
    hide Scan, Meaning, SettingIn, SplitLines, CleanValue;
    var lines := SplitLines(text);
    EntryIsSetting(lines, k);
    SplitIsSplittable(text);
    SplittableLine(lines, Parsed(text).entries[k].line);
    ParsedValueIsClean(lines[Parsed(text).entries[k].line].content);
  }

  ghost function EditedText(text: string, values: seq<string>): string
    requires |values| == |Parsed(text).entries|
  {
    EditIsRenderable(SplitLines(text), values);
    Rendered(Parsed(text).lines, WithValues(Parsed(text).entries, values))
  }

  /** After a successful parse, the next parse of the edited text finds the edit and nothing else, */
  ghost predicate EditSurvives(text: string, values: seq<string>)
    requires |values| == |Parsed(text).entries|
  {
    var again := Parsed(EditedText(text, values));
    again.verdict.Fine? && Survives(again.entries, Parsed(text).entries, values)
  }

  /** exactly when every new value is writable at its place. */
  lemma {:induction false} EditsSurviveIffWritable(text: string, values: seq<string>)
    requires Parsed(text).verdict.Fine? && |values| == |Parsed(text).entries|
    ensures EditSurvives(text, values) <==> AllWritable(SplitLines(text), values)
  {
    hide Scan, Meaning, SettingIn, SplitLines, JoinLines, CleanValue;
    if AllWritable(SplitLines(text), values) {
      WritableSurvives(text, values);
    }
    if EditSurvives(text, values) {
      SurvivorIsWritable(text, values);
    }
  }

  lemma {:induction false} WritableSurvives(text: string, values: seq<string>)
    requires Parsed(text).verdict.Fine? && |values| == |Parsed(text).entries|
    requires AllWritable(SplitLines(text), values)
    ensures EditSurvives(text, values)
  {
    hide Scan, Meaning, SettingIn, SplitLines, JoinLines;
    var lines := SplitLines(text);
    EditedTextSplits(text, values);
    var edited := EditedText(text, values);
    assert edited == JoinLines(EditedLines(lines, values));
    assert Entries(lines)[0..] == Entries(lines) && values[0..] == values;
    ScanOfEdited(lines, values, 0, "", 0);
    NoText();
  }

  lemma NoText()
    ensures SplitLines("") == [] && Scan([], 0, "") == Scanned([], None)
  {}

  lemma {:induction false} SurvivorIsWritable(text: string, values: seq<string>)
    requires Parsed(text).verdict.Fine? && |values| == |Parsed(text).entries|
    requires EditSurvives(text, values)
    ensures AllWritable(SplitLines(text), values)
  {
    hide Scan, Meaning, SettingIn, SplitLines, JoinLines, CleanValue, EditedLines;
    var lines := SplitLines(text);
    var edited := EditedText(text, values);
    var again := Parsed(edited);
    forall k | 0 <= k < |values| ensures CleanValue(values[k]) && !HasBreak(values[k]) {
      assert again.entries[k].value == values[k];
      ParsedValuesAreClean(edited, k);
      CleanHasNoBreak(values[k]);
    }
    EditedTextSplits(text, values);
    EditedTextIs(text, values);
    forall k | 0 <= k < |values| ensures
        var e := Entries(lines)[k]; e.line < |lines| && Writable(lines[e.line].content, e, values[k])
    {
      var e := Entries(lines)[k];
      EntryIsSetting(lines, k);
      EditedEntryLineIs(lines, values, k);
      EntryIsSetting(EditedLines(lines, values), k);
      assert again.entries[k].line == e.line && again.entries[k].value == values[k];
      if values[k] != "" && e.value == "" && e.end < |lines[e.line].content| {
        GluedSetting(lines[e.line].content, values[k]);
      }
    }
  }

  lemma CleanHasNoBreak(v: string)
    requires CleanValue(v)
    ensures !HasBreak(v)
  {}

  lemma EditedTextIs(text: string, values: seq<string>)
    requires |values| == |Parsed(text).entries|
    ensures EditedText(text, values) == JoinLines(EditedLines(SplitLines(text), values))
  {}

  // ---------------------------------------------------------------- one edit, byte by byte

  function ValuesOf(entries: seq<Entry>): (r: seq<string>)
    ensures |r| == |entries|
  {
    seq(|entries|, k requires 0 <= k < |entries| => entries[k].value)
  }

  lemma {:induction false} JoinAppend(a: seq<Line>, b: seq<Line>)
    ensures JoinLines(a + b) == JoinLines(a) + JoinLines(b)
  {
    hide JoinLines;
    if a == [] {
      NoLines();
      assert a + b == b;
      assert JoinLines(a) + JoinLines(b) == JoinLines(b);
    } else {
      JoinAppend(a[1..], b);
      assert a == [a[0]] + a[1..];
      assert a + b == [a[0]] + (a[1..] + b);
      JoinFirst(a[0], a[1..]);
      JoinFirst(a[0], a[1..] + b);
      Associates(a[0].content + a[0].ending, JoinLines(a[1..]), JoinLines(b));
    }
  }

  lemma {:induction false} JoinAround(lines: seq<Line>, j: nat)
    requires j < |lines|
    ensures JoinLines(lines) == JoinLines(lines[..j]) + lines[j].content + (lines[j].ending + JoinLines(lines[j + 1..]))
  {
    hide JoinLines;
    SplitAt(lines, j);
    JoinAppend(lines[..j], [lines[j]] + lines[j + 1..]);
    JoinFirst(lines[j], lines[j + 1..]);
    Regroup(JoinLines(lines[..j]), lines[j].content, lines[j].ending, JoinLines(lines[j + 1..]));
  }

  lemma SplitAt(lines: seq<Line>, j: nat)
    requires j < |lines|
    ensures lines == lines[..j] + ([lines[j]] + lines[j + 1..])
  {}

  lemma Regroup(a: string, b: string, c: string, d: string)
    ensures a + ((b + c) + d) == (a + b) + (c + d)
  {
    Associates(b, c, d);
    Associates(a, b, c + d);
  }

  lemma OneLineEdited(lines: seq<Line>, k: nat, v: string)
    requires k < |Entries(lines)|
    ensures var e := Entries(lines)[k];
      && e.line < |lines| && SettingIn(lines[e.line].content).Some?
      && EditedLines(lines, ValuesOf(Entries(lines))[k := v])
         == lines[e.line := lines[e.line].(
                    content := Edited(lines[e.line].content, SettingIn(lines[e.line].content).value, v))]
  {
    hide Scan, Meaning, SettingIn, EditedLines;
    var values := ValuesOf(Entries(lines))[k := v];
    EditedEntryLineIs(lines, values, k);
    forall j | 0 <= j < |lines| ensures
        && EditedLines(lines, values)[j].ending == lines[j].ending
        && (j != Entries(lines)[k].line ==> EditedLines(lines, values)[j] == lines[j])
    {
      EditedLineIs(lines, values, j);
      var at := EntryAt(Entries(lines), j);
      if at.Some? && at.value != k {
        EditedEntryLineIs(lines, values, at.value);
        EntryIsSetting(lines, at.value);
      }
    }
  }

  /** Changing one value replaces its own span of the text and keeps every other byte. */
  lemma EditChangesOneSpan(text: string, k: nat, v: string)
    requires k < |Parsed(text).entries|
    ensures var e := Parsed(text).entries[k];
            var before := SplitLines(text)[..if e.line <= |SplitLines(text)| then e.line else 0];
            var at := |JoinLines(before)| + e.begin;
      && at + |e.value| <= |text|
      && text[at..at + |e.value|] == e.value
      && EditedText(text, ValuesOf(Parsed(text).entries)[k := v]) == text[..at] + v + text[at + |e.value|..]
  {
    hide Scan, Meaning, SettingIn, EditedLines, SplitLines, JoinLines;
    var lines := SplitLines(text);
    var e := Parsed(text).entries[k];
    EntryIsSetting(lines, k);
    OneLineEdited(lines, k, v);
    EditedTextIs(text, ValuesOf(Entries(lines))[k := v]);
    JoinOfSplit(text);
    JoinAround(lines, e.line);
    var content := lines[e.line].content;
    var edited := lines[e.line := lines[e.line].(content := Edited(content, SettingIn(content).value, v))];
    JoinAround(edited, e.line);
    assert edited[..e.line] == lines[..e.line] && edited[e.line + 1..] == lines[e.line + 1..];
    SpanInside(JoinLines(lines[..e.line]), content, lines[e.line].ending + JoinLines(lines[e.line + 1..]),
               e.begin, e.end, v);
  }

  lemma SpanInside(before: string, content: string, after: string, begin: nat, end: nat, v: string)
    requires begin <= end <= |content|
    ensures var text, at := before + content + after, |before| + begin;
      && text[at..at + end - begin] == content[begin..end]
      && before + (content[..begin] + v + content[end..]) + after == text[..at] + v + text[at + end - begin..]
  {
    var text, at := before + content + after, |before| + begin;
    assert text[..at] == before + content[..begin];
    assert text[at + end - begin..] == content[end..] + after;
  }

  lemma HeaderLine()
    ensures Meaning("", "[a]") == Header("a")
  {
    var line := "[a]";
    SkipSpacesIs(line, 0, 0);
    DropSpacesIs(line, 0, 3, 3);
    assert Trim(line) == line;
    FindIs(line, ']', 0, 2);
    SkipSpacesIs("a", 0, 0);
    DropSpacesIs("a", 0, 1, 1);
    assert line[1..2] == "a" && Trim("a") == "a";
  }

  lemma SettingLine()
    ensures Meaning("a", "k=;") == Value(Setting("k", "", "", 2, 2))
  {
    hide Normalize;
    var line := "k=;";
    SkipSpacesIs(line, 0, 0);
    DropSpacesIs(line, 0, 3, 3);
    assert Trim(line) == line;
    SkipSpacesIs("k", 0, 0);
    DropSpacesIs("k", 0, 1, 1);
    assert line[..1] == "k" && Trim("k") == "k";
    FindIs(line, '=', 0, 1);
    SkipSpacesIs(line, 2, 2);
    FindCommentIs(line, 2, 2);
    assert line[3..] == "" && line[2..2] == "" && Trim("") == "";
    assert IsEditableSection("a") by { NormalizedA(); }
  }

  lemma NormalizedA()
    ensures Normalize("a") == "a"
  {}

  /** The place that cannot be filled: an empty value whose comment follows at once. */
  lemma {:induction false} EmptyBeforeCommentIsLost()
    ensures var text := "[a]\nk=;";
      && Parsed(text).verdict.Fine? && |Parsed(text).entries| == 1
      && CleanValue("v") && !EditSurvives(text, ["v"])
  {
    hide Meaning, SplitLines, JoinLines;
    var text, lines := "[a]\nk=;", [Line("[a]", "\n"), Line("k=;", "")];
    JoinFirst(lines[1], []);
    NoLines();
    JoinFirst(lines[0], [lines[1]]);
    assert lines == [lines[0]] + [lines[1]] && [lines[1]] == [lines[1]] + [];
    assert JoinLines(lines) == text;
    assert lines[1..] == [lines[1]] && lines[1..][1..] == [];
    SplitOfJoin(lines);
    HeaderLine();
    SettingLine();
    assert Scan(lines, 2, "a") == Scanned([], None);
    assert Scan(lines, 1, "a").entries == [Entry("a", "k", "", "", 1, 2, 2)];
    assert Entries(lines) == [Entry("a", "k", "", "", 1, 2, 2)];
    EditsSurviveIffWritable(text, ["v"]);
    assert !Writable(lines[1].content, Entries(lines)[0], ["v"][0]);
  }
}
