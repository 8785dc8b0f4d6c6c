/** The settings document as the program holds it: lines and entries that parsing fills and the dialog edits. */
module SettingsIniDocument {
  import opened Bytes
  import opened SettingsText
  import opened SettingsDocument

  method TrimView(value: string) returns (r: string)
    ensures r == Trim(value)
  {
    var from: nat, upto: nat := 0, |value|;
    while from < upto && IsSpace(value[from])
      invariant from <= upto == |value|
      invariant SkipSpaces(value, from) == SkipSpaces(value, 0)
    {
      from := from + 1;
    }
    while upto > from && IsSpace(value[upto - 1])
      invariant from <= upto <= |value| && from == SkipSpaces(value, 0)
      invariant DropSpaces(value, from, upto) == DropSpaces(value, from, |value|)
    {
      upto := upto - 1;
    }
    r := value[from..upto];
  }

  method NormalizeText(value: string) returns (normalized: string)
    ensures normalized == Normalize(value)
  {
    normalized := "";
    var i: nat := 0;
    assert value[0..] == value;
    while i < |value|
      invariant i <= |value|
      invariant normalized + Normalize(value[i..]) == Normalize(value)
    {
      assert value[i..][1..] == value[i + 1..];
      if value[i] == '_' || value[i] == '-' || IsSpace(value[i]) {
        i := i + 1;
        continue;
      }
      normalized := normalized + [ToLower(value[i])];
      i := i + 1;
    }
  }

  /** The length of the line stands for "no comment". */
  method FindInlineComment(line: string, begin: nat) returns (index: nat)
    requires begin <= |line|
    ensures index == FindComment(line, begin, begin)
  {
    index := begin;
    while index < |line|
      invariant begin <= index <= |line|
      invariant FindComment(line, begin, index) == FindComment(line, begin, begin)
    {
      if IsCommentMark(line[index]) && (index == begin || IsSpace(line[index - 1])) {
        return;
      }
      index := index + 1;
    }
  }

  /** Where the value begins, the comment mark is, and the value ends. */
  method ValueSpan(line: string, equals: nat) returns (begin: nat, mark: nat, end: nat)
    requires equals < |line|
    ensures equals < begin <= end <= mark <= |line|
    ensures begin == SkipSpaces(line, equals + 1)
    ensures mark == FindComment(line, begin, begin) && end == DropSpaces(line, begin, mark)
  {
    hide FindComment, IsSpace, CommentAt;
    begin := equals + 1;
    while begin < |line| && IsSpace(line[begin])
      invariant equals < begin <= |line|
      invariant SkipSpaces(line, begin) == SkipSpaces(line, equals + 1)
    {
      begin := begin + 1;
    }
    mark := FindInlineComment(line, begin);
    end := mark;
    while end > begin && IsSpace(line[end - 1])
      invariant begin <= end <= mark
      invariant DropSpaces(line, begin, end) == DropSpaces(line, begin, mark)
    {
      end := end - 1;
    }
  }

  method ReadSetting(line: string) returns (r: Option<Setting>)
    ensures r == SettingIn(line)
  {
    hide FindComment, Find, Trim, SettingIn, IsSpace, SkipSpaces, DropSpaces;
    SettingParts(line);
    var equals := Find(line, '=', 0);
    if equals == |line| {
      return None;
    }
    var key := TrimView(line[..equals]);
    if key == "" {
      return None;
    }
    var begin, mark, end := ValueSpan(line, equals);
    var comment := "";
    if mark < |line| {
      comment := TrimView(line[mark + 1..]);
    }
    r := Some(Setting(key, line[begin..end], comment, begin, end));
  }

  method ReadLines(content: string) returns (lines: seq<Line>)
    ensures lines == SplitLines(content)
  {
    hide FindBreak, SplitLines;
    NoLines();
    lines := [];
    var offset: nat := 0;
    assert content[0..] == content;
    while offset < |content|
      invariant offset <= |content|
      invariant lines + SplitLines(content[offset..]) == SplitLines(content)
    {
      var rest := content[offset..];
      var lineEnd := offset + FindBreak(rest);
      var line := Line(content[offset..lineEnd], "");
      ghost var was := offset;
      if lineEnd == |content| {
        offset := |content|;
      } else if content[lineEnd] == '\r' && lineEnd + 1 < |content| && content[lineEnd + 1] == '\n' {
        line := line.(ending := "\r\n");
        offset := lineEnd + 2;
      } else {
        line := line.(ending := [content[lineEnd]]);
        offset := lineEnd + 1;
      }
      NextLine(content, was, offset, line);
      Associates(lines, [line], SplitLines(content[offset..]));
      lines := lines + [line];
    }
    assert content[offset..] == "" && lines + [] == lines;
  }

  lemma {:induction false} NextLine(content: string, offset: nat, next: nat, line: Line)
    requires offset < |content|
    requires var end := offset + FindBreak(content[offset..]);
      && next == end + BreakLength(content, end)
      && line.content == content[offset..end] && line.ending == content[end..next]
    ensures SplitLines(content[offset..]) == [line] + SplitLines(content[next..])
  {
    hide FindBreak, BreakLength, SplitLines;
    var rest := content[offset..];
    var end := FindBreak(rest);
    SameBreak(content, offset, end);
    SplitFirst(rest);
    SliceOfRest(content, offset, end, next - offset);
  }

  lemma SplitFirst(text: string)
    requires text != ""
    ensures var end := FindBreak(text);
            var next := end + BreakLength(text, end);
      SplitLines(text) == [Line(text[..end], text[end..next])] + SplitLines(text[next..])
  {
    hide FindBreak, BreakLength;
  }

  lemma SameBreak(content: string, offset: nat, end: nat)
    requires offset + end <= |content|
    ensures BreakLength(content[offset..], end) == BreakLength(content, offset + end)
  {}

  lemma SliceOfRest(content: string, offset: nat, a: nat, b: nat)
    requires a <= b && offset + b <= |content|
    ensures content[offset..][..a] == content[offset..offset + a]
    ensures content[offset..][a..b] == content[offset + a..offset + b]
    ensures content[offset..][b..] == content[offset + b..]
  {}

  lemma EntryAtSnoc(entries: seq<Entry>, e: Entry, j: nat)
    ensures EntryAt(entries + [e], j) == if j == e.line then Some(|entries|) else EntryAt(entries, j)
  {
    assert (entries + [e])[..|entries|] == entries;
  }

  lemma {:induction false} MarkNext(split: seq<Line>, entries: seq<Entry>, e: Entry)
    requires e.line < |split| && EntryAt(entries, e.line).None?
    ensures MarkedBy(split, entries + [e])
         == MarkedBy(split, entries)[e.line := Marked(split[e.line], Some(|entries|))]
  {
    hide EntryAt;
    forall j: nat | j < |split|
      ensures EntryAt(entries + [e], j) == if j == e.line then Some(|entries|) else EntryAt(entries, j)
    {
      EntryAtSnoc(entries, e, j);
    }
  }

  lemma UnmarkedBeyond(entries: seq<Entry>, i: nat)
    requires forall k :: 0 <= k < |entries| ==> entries[k].line < i
    ensures EntryAt(entries, i).None?
  {}

  class SettingsIniDocument {
    var lines: seq<Marked>
    var entries: seq<Entry>

    constructor ()
      ensures lines == [] && entries == [] && Valid()
    {
      lines, entries := [], [];
    }

    ghost predicate Valid()
      reads this
    {
      Renderable(lines, entries)
    }

    method Parse(content: string) returns (verdict: Verdict)
      modifies this
      ensures Document(lines, entries, verdict) == Parsed(content)
      ensures Valid()
    {
      hide Scan, Meaning, SettingIn, SplitLines, Trim, EntryAt, IsEditableSection, Find;
      ParsedIsRenderable(content);
      entries := [];
      var split := ReadLines(content);
      lines := seq(|split|, i requires 0 <= i < |split| => Marked(split[i], None));
      ghost var all := Scan(split, 0, "");
      NoText();
      UnmarkedAtFirst(split);
      assert lines == MarkedBy(split, []);
      if content == "" {
        return EmptyText;
      }
      var section := "";
      var i: nat := 0;
      while i < |split|
        invariant i <= |split|
        invariant forall k :: 0 <= k < |entries| ==> entries[k].line < i
        invariant lines == MarkedBy(split, entries)
        invariant entries + Scan(split, i, section).entries == all.entries
        invariant Scan(split, i, section).malformed == all.malformed
      {
        var line := split[i].content;
        ScanStep(split, i, section);
        UnmarkedBeyond(entries, i);
        i := i + 1;
        var trimmed := TrimView(line);
        if trimmed == "" || IsCommentMark(trimmed[0]) {
          continue;
        }
        if trimmed[0] == '[' {
          var closing := Find(trimmed, ']', 0);
          if closing == |trimmed| {
            assert all == Scanned(entries, Some(i - 1));
            return MalformedHeader(i);
          }
          section := TrimView(trimmed[1..closing]);
          continue;
        }
        if section == "" || !IsEditableSection(section) {
          continue;
        }
        var setting := ReadSetting(line);
        if setting.None? {
          continue;
        }
        var entry := EntryOf(section, setting.value, i - 1);
        MarkNext(split, entries, entry);
        lines := lines[i - 1 := lines[i - 1].(entry := Some(|entries|))];
        entries := entries + [entry];
      }
      ScanEnd(split, section);
      assert all == Scanned(entries, None);
      verdict := if entries == [] then NoSettings else Fine;
    }

    method Render() returns (rendered: string)
      requires Valid()
      ensures rendered == Rendered(lines, entries)
    {
      hide JoinLines;
      rendered := "";
      ghost var shown := ShownLines(lines, entries);
      assert shown[0..] == shown;
      var i: nat := 0;
      while i < |lines|
        invariant i <= |lines|
        invariant rendered + JoinLines(shown[i..]) == JoinLines(shown)
      {
        var line := lines[i].line;
        ghost var was := rendered;
        if lines[i].entry.None? {
          rendered := rendered + line.content;
        } else {
          var entry := entries[lines[i].entry.value];
          rendered := rendered + (line.content[..entry.begin] + entry.value + line.content[entry.end..]);
        }
        rendered := rendered + line.ending;
        assert shown[i..] == [shown[i]] + shown[i + 1..];
        JoinFirst(shown[i], shown[i + 1..]);
        assert rendered == was + shown[i].content + shown[i].ending;
        Associates(was + shown[i].content, shown[i].ending, JoinLines(shown[i + 1..]));
        Associates(was, shown[i].content, shown[i].ending + JoinLines(shown[i + 1..]));
        Associates(shown[i].content, shown[i].ending, JoinLines(shown[i + 1..]));
        i := i + 1;
      }
      NoLines();
      assert shown[i..] == [] && rendered + "" == rendered;
    }

    /** The dialog assigns an entry's value through the vector that Entries() hands out. */
    method SetValue(k: nat, v: string)
      requires Valid() && k < |entries|
      modifies this
      ensures Valid() && lines == old(lines)
      ensures entries == WithValues(old(entries), ValuesOf(old(entries))[k := v])
    {
      entries := entries[k := entries[k].(value := v)];
    }
  }

  lemma UnmarkedAtFirst(split: seq<Line>)
    ensures forall i: nat :: i < |split| ==> EntryAt([], i).None?
  {}

  lemma ScanEnd(split: seq<Line>, section: string)
    ensures Scan(split, |split|, section) == Scanned([], None)
  {}

  lemma ScanStep(split: seq<Line>, i: nat, section: string)
    requires i < |split|
    ensures var trimmed, scan := Trim(split[i].content), Scan(split, i, section);
      if trimmed == "" || IsCommentMark(trimmed[0]) then scan == Scan(split, i + 1, section)
      else if trimmed[0] == '[' then
        var closing := Find(trimmed, ']', 0);
        scan == if closing == |trimmed| then Scanned([], Some(i)) else Scan(split, i + 1, Trim(trimmed[1..closing]))
      else if section == "" || !IsEditableSection(section) || SettingIn(split[i].content).None?
      then scan == Scan(split, i + 1, section)
      else
        && scan.entries
           == [EntryOf(section, SettingIn(split[i].content).value, i)] + Scan(split, i + 1, section).entries
        && scan.malformed == Scan(split, i + 1, section).malformed
  {
    hide Trim, SettingIn, IsEditableSection;
  }
}
