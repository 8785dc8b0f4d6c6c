/** The text of a settings file: lines, sections, and the value inside a setting line. */
module SettingsText {
  import opened Bytes

  // ---------------------------------------------------------------- characters and searching

  /** std::isspace in the "C" locale. */
  predicate IsSpace(c: char) { c == ' ' || 9 <= c as int <= 13 }

  predicate IsBreak(c: char) { c == '\r' || c == '\n' }

  predicate IsCommentMark(c: char) { c == '#' || c == ';' }

  /** The characters that count, by their codes. */
  lemma CharactersAre(c: char)
    ensures IsSpace(c) <==> c as int in {32, 9, 10, 11, 12, 13}
    ensures IsBreak(c) <==> c as int in {10, 13}
    ensures IsCommentMark(c) <==> c as int in {35, 59}
  {}

  function SkipSpaces(s: string, from: nat): (at: nat)
    requires from <= |s|
    ensures from <= at <= |s|
    ensures forall i :: from <= i < at ==> IsSpace(s[i])
    ensures at < |s| ==> !IsSpace(s[at])
    decreases |s| - from
  {
    if from < |s| && IsSpace(s[from]) then SkipSpaces(s, from + 1) else from
  }

  /** The end of s[from..upto] once trailing white space is dropped. */
  function DropSpaces(s: string, from: nat, upto: nat): (at: nat)
    requires from <= upto <= |s|
    ensures from <= at <= upto
    ensures forall i :: at <= i < upto ==> IsSpace(s[i])
    ensures at > from ==> !IsSpace(s[at - 1])
    decreases upto
  {
    if upto > from && IsSpace(s[upto - 1]) then DropSpaces(s, from, upto - 1) else upto
  }

  function Trim(s: string): (r: string)
    ensures |r| <= |s|
    ensures r != "" ==> !IsSpace(r[0]) && !IsSpace(r[|r| - 1])
  {
    var from := SkipSpaces(s, 0);
    s[from..DropSpaces(s, from, |s|)]
  }

  /** Trimming takes white space off both ends and nothing else. */
  lemma TrimTakes(s: string) returns (before: string, after: string)
    ensures s == before + Trim(s) + after
    ensures forall i :: 0 <= i < |before| ==> IsSpace(before[i])
    ensures forall i :: 0 <= i < |after| ==> IsSpace(after[i])
  {
    var from := SkipSpaces(s, 0);
    var upto := DropSpaces(s, from, |s|);
    before, after := s[..from], s[upto..];
  }

  /** The first position of c at or after `from`, or the length. */
  function Find(s: string, c: char, from: nat): (at: nat)
    requires from <= |s|
    ensures from <= at <= |s|
    ensures forall i :: from <= i < at ==> s[i] != c
    ensures at < |s| ==> s[at] == c
    decreases |s| - from
  {
    if from < |s| && s[from] != c then Find(s, c, from + 1) else from
  }

  function FindBreak(s: string): (at: nat)
    ensures at <= |s|
    ensures forall i :: 0 <= i < at ==> !IsBreak(s[i])
    ensures at < |s| ==> IsBreak(s[at])
  {
    if s == "" || IsBreak(s[0]) then 0 else 1 + FindBreak(s[1..])
  }

  /** A comment mark counts at the start of the value, or after white space. */
  predicate CommentAt(line: string, begin: nat, at: nat) {
    begin <= at < |line| && IsCommentMark(line[at]) && (at == begin || IsSpace(line[at - 1]))
  }

  /** A mark right behind any other character belongs to the value. */
  lemma MarkInside(head: string, c: char, tail: string, begin: nat)
    requires begin < |head| && IsCommentMark(c)
    ensures CommentAt(head + [c] + tail, begin, |head|) <==> head[|head| - 1] as int in {32, 9, 10, 11, 12, 13}
    ensures CommentAt(head + [c] + tail, |head|, |head|)
  {
    var line := head + [c] + tail;
    assert line[|head|] == c && line[|head| - 1] == head[|head| - 1];
  }

  function FindComment(line: string, begin: nat, from: nat): (at: nat)
    requires begin <= from <= |line|
    ensures from <= at <= |line|
    ensures forall i :: from <= i < at ==> !CommentAt(line, begin, i)
    ensures at < |line| ==> CommentAt(line, begin, at)
    decreases |line| - from
  {
    if from < |line| && !CommentAt(line, begin, from) then FindComment(line, begin, from + 1) else from
  }

  // ---------------------------------------------------------------- lines

  datatype Line = Line(content: string, ending: string)

  predicate HasBreak(s: string) {
    exists i :: 0 <= i < |s| && IsBreak(s[i])
  }

  /** How long the line break at `end` is: CR LF counts as one break. */
  function BreakLength(text: string, end: nat): (n: nat)
    requires end <= |text|
    ensures end + n <= |text| && n <= 2 && (n == 0 <==> end == |text|)
  {
    if end == |text| then 0
    else if text[end] == '\r' && end + 1 < |text| && text[end + 1] == '\n' then 2
    else 1
  }

  function SplitLines(text: string): (lines: seq<Line>)
    decreases |text|
  {
    if text == "" then []
    else
      var end := FindBreak(text);
      var next := end + BreakLength(text, end);
      [Line(text[..end], text[end..next])] + SplitLines(text[next..])
  }

  function JoinLines(lines: seq<Line>): string {
    if lines == [] then "" else lines[0].content + lines[0].ending + JoinLines(lines[1..])
  }

  /** Splitting loses nothing. */
  lemma {:induction false} JoinOfSplit(text: string)
    ensures JoinLines(SplitLines(text)) == text
    decreases |text|
  {
    hide JoinLines, FindBreak, BreakLength;
    if text != "" {
      var end := FindBreak(text);
      var next := end + BreakLength(text, end);
      JoinOfSplit(text[next..]);
      JoinFirst(Line(text[..end], text[end..next]), SplitLines(text[next..]));
      assert text == text[..end] + text[end..next] + text[next..];
    } else {
      NoLines();
    }
  }

  lemma NoLines()
    ensures SplitLines("") == [] && JoinLines([]) == ""
  {}

  lemma JoinFirst(line: Line, rest: seq<Line>)
    ensures JoinLines([line] + rest) == line.content + line.ending + JoinLines(rest)
  {
    assert ([line] + rest)[1..] == rest;
  }

  /** What a list of lines must look like to be the lines of its own text. */
  predicate Splittable(lines: seq<Line>) {
    lines != [] ==>
      && !HasBreak(lines[0].content)
      && lines[0].ending in {"", "\n", "\r", "\r\n"}
      && (lines[0].ending == "" ==> |lines| == 1 && lines[0].content != "")
      && (lines[0].ending == "\r" && |lines| > 1 ==> lines[1].content != "" || lines[1].ending != "\n")
      && Splittable(lines[1..])
  }

  lemma FindBreakIs(s: string, at: nat)
    requires at <= |s| && (forall i :: 0 <= i < at ==> !IsBreak(s[i])) && (at < |s| ==> IsBreak(s[at]))
    ensures FindBreak(s) == at
  {}

  lemma {:induction false} SplitIsSplittable(text: string)
    ensures Splittable(SplitLines(text))
    decreases |text|
  {
    if text != "" {
      var end := FindBreak(text);
      var next := end + BreakLength(text, end);
      hide FindBreak, BreakLength, Splittable;
      SplitIsSplittable(text[next..]);
      BreakIs(text, end);
      LineInFront(text, end, next);
    } else {
      assert Splittable([]);
    }
  }

  /** The line up to a break goes in front of the lines of what follows it. */
  lemma LineInFront(text: string, end: nat, next: nat)
    requires end <= next <= |text| && (next == end ==> end == |text| > 0)
    requires forall i :: 0 <= i < end ==> !IsBreak(text[i])
    requires text[end..next] in {"", "\n", "\r", "\r\n"}
    requires text[end..next] == "\r" && next < |text| ==> text[next] != '\n'
    requires Splittable(SplitLines(text[next..]))
    ensures Splittable([Line(text[..end], text[end..next])] + SplitLines(text[next..]))
  {
    var first, rest := Line(text[..end], text[end..next]), text[next..];
    var lines := [first] + SplitLines(rest);
    hide SplitLines;
    assert lines[1..] == SplitLines(rest);
    if rest == "" {
      NoLines();
    } else if first.ending == "\r" {
      assert rest[0] == text[next];
      FirstLine(rest);
    }
  }

  lemma BreakIs(text: string, end: nat)
    requires end <= |text| && (end < |text| ==> IsBreak(text[end]))
    ensures var n := BreakLength(text, end);
      && text[end..end + n] in {"", "\n", "\r", "\r\n"}
      && (text[end..end + n] == "\r" && end + n < |text| ==> text[end + n] != '\n')
  {
    var n := BreakLength(text, end);
    if n == 0 {
      assert text[end..end + n] == "";
    } else if n == 1 {
      assert text[end..end + n] == [text[end]];
    } else {
      assert text[end..end + n] == "\r\n";
    }
  }

  lemma FirstLine(text: string)
    requires text != "" && text[0] != '\n'
    ensures SplitLines(text)[0].content != "" || SplitLines(text)[0].ending != "\n"
  {
    if FindBreak(text) == 0 {
      assert text[0..BreakLength(text, 0)][0] == text[0];
    }
  }

  lemma {:induction false} SplitOfJoin(lines: seq<Line>)
    requires Splittable(lines)
    ensures SplitLines(JoinLines(lines)) == lines
  {
    hide FindBreak, BreakLength;
    if lines != [] {
      var line, rest := lines[0], JoinLines(lines[1..]);
      var text := line.content + line.ending + rest;
      SplitOfJoin(lines[1..]);
      assert lines == [line] + lines[1..];
      if line.ending == "\r" {
        RestAfterReturn(lines[1..]);
      }
      FirstLineOf(line, rest);
      assert text[..|line.content|] == line.content && text[|line.content| + |line.ending|..] == rest;
      assert text[|line.content|..|line.content| + |line.ending|] == line.ending;
    }
  }

  lemma FirstLineOf(line: Line, rest: string)
    requires !HasBreak(line.content) && line.ending in {"", "\n", "\r", "\r\n"}
    requires line.ending == "" ==> rest == ""
    requires line.ending == "\r" && rest != "" ==> rest[0] != '\n'
    ensures var text := line.content + line.ending + rest;
      FindBreak(text) == |line.content| && BreakLength(text, |line.content|) == |line.ending|
  {
    var text, end := line.content + line.ending + rest, |line.content|;
    forall i | 0 <= i < end ensures !IsBreak(text[i]) {
      assert text[i] == line.content[i];
    }
    forall i | 0 <= i < |line.ending| ensures text[end + i] == line.ending[i] {}
    FindBreakIs(text, end);
    assert |line.ending| == 1 && end + 1 < |text| ==> text[end + 1] == rest[0];
  }

  lemma RestAfterReturn(lines: seq<Line>)
    requires Splittable(lines)
    requires lines != [] ==> lines[0].content != "" || lines[0].ending != "\n"
    ensures JoinLines(lines) != "" ==> JoinLines(lines)[0] != '\n'
  {
    if lines != [] {
      var line := lines[0];
      var text := line.content + line.ending;
      if line.content != "" {
        assert JoinLines(lines)[0] == line.content[0] && !IsBreak(line.content[0]);
      } else {
        assert JoinLines(lines)[0] == line.ending[0];
      }
    }
  }

  lemma {:induction false} SplittableLine(lines: seq<Line>, i: nat)
    requires Splittable(lines) && i < |lines|
    ensures !HasBreak(lines[i].content)
    decreases i
  {
    if i > 0 {
      SplittableLine(lines[1..], i - 1);
    }
  }

  // ---------------------------------------------------------------- sections

  function ToLower(c: char): char {
    if 'A' <= c <= 'Z' then (c as int - 'A' as int + 'a' as int) as char else c
  }

  function Normalize(s: string): string {
    if s == "" then ""
    else if s[0] == '_' || s[0] == '-' || IsSpace(s[0]) then Normalize(s[1..])
    else [ToLower(s[0])] + Normalize(s[1..])
  }

  /** Character by character: separators and white space go, capital letters become small. */
  lemma {:induction false} NormalizeInTwo(s: string, t: string)
    ensures Normalize(s + t) == Normalize(s) + Normalize(t)
    decreases |s|
  {
    if s == "" {
      assert s + t == t;
    } else {
      assert (s + t)[1..] == s[1..] + t;
      NormalizeInTwo(s[1..], t);
    }
  }

  lemma NormalizeOne(c: char)
    ensures Normalize([c]) ==
      if c == '_' || c == '-' || IsSpace(c) then ""
      else if 65 <= c as int <= 90 then [(c as int + 32) as char]
      else [c]
  {
    assert [c][1..] == "";
  }

  /** The sections whose settings are left alone. */
  lemma EditableIff(section: string)
    ensures IsEditableSection(section) <==>
      && Normalize(section) !in {"", "macroconfig", "keysglobal", "cmdexecutor", "commandexecutor"}
      && (forall rest :: Normalize(section) != "keysmacro" + rest && Normalize(section) != "backup" + rest)
  {
    var n := Normalize(section);
    if "keysmacro" <= n {
      assert n == "keysmacro" + n[9..];
    }
    if "backup" <= n {
      assert n == "backup" + n[6..];
    }
  }

  predicate IsEditableSection(section: string) {
    var n := Normalize(section);
    && n != "" && n != "macroconfig" && n != "keysglobal" && !("keysmacro" <= n)
    && !("backup" <= n) && n != "cmdexecutor" && n != "commandexecutor"
  }

  // ---------------------------------------------------------------- one line

  /** Where the parts of a setting line are. */
  datatype Setting = Setting(key: string, value: string, comment: string, begin: nat, end: nat)

  /** The setting in a line of an editable section, if there is one. */
  function SettingIn(line: string): (r: Option<Setting>)
    ensures r.Some? ==> r.value.begin <= r.value.end <= |line| && r.value.value == line[r.value.begin..r.value.end]
  {
    var equals := Find(line, '=', 0);
    if equals == |line| then None
    else
      var key := Trim(line[..equals]);
      if key == "" then None
      else
        var begin := SkipSpaces(line, equals + 1);
        var mark := FindComment(line, begin, begin);
        var end := DropSpaces(line, begin, mark);
        Some(Setting(key, line[begin..end], if mark < |line| then Trim(line[mark + 1..]) else "", begin, end))
  }

  datatype LineMeaning = Nothing | Malformed | Header(section: string) | Value(setting: Setting)

  /** What a line means after the lines before it left `section` current. */
  function Meaning(section: string, line: string): LineMeaning {
    var trimmed := Trim(line);
    if trimmed == "" || IsCommentMark(trimmed[0]) then Nothing
    else if trimmed[0] == '[' then
      var closing := Find(trimmed, ']', 0);
      if closing == |trimmed| then Malformed else Header(Trim(trimmed[1..closing]))
    else if section == "" || !IsEditableSection(section) then Nothing
    else
      var setting := SettingIn(line);
      if setting.Some? then Value(setting.value) else Nothing
  }

  /** A header is a bracketed name, with anything behind it; a bracket that is never closed is malformed. */
  lemma HeaderIff(section: string, line: string, name: string)
    ensures Meaning(section, line) == Header(name) <==>
      exists inside, rest :: Trim(line) == "[" + inside + "]" + rest && ']' !in inside && name == Trim(inside)
    ensures Meaning(section, line) == Malformed <==>
      Trim(line) != "" && Trim(line)[0] == '[' && ']' !in Trim(line)
  {
    hide Trim, SettingIn, IsEditableSection;
    var trimmed := Trim(line);
    forall inside, rest | trimmed == "[" + inside + "]" + rest ensures trimmed != "" && trimmed[0] == '[' {
      assert ("[" + inside + "]" + rest)[0] == '[';
    }
    if trimmed != "" && trimmed[0] == '[' {
      var closing := Find(trimmed, ']', 0);
      if closing < |trimmed| {
        assert trimmed == "[" + trimmed[1..closing] + "]" + trimmed[closing + 1..];
      }
      if inside, rest :| trimmed == "[" + inside + "]" + rest && ']' !in inside && name == Trim(inside) {
        assert trimmed[|inside| + 1] == ']';
        assert forall i :: 0 <= i < |inside| ==> trimmed[i + 1] == inside[i];
        assert closing == |inside| + 1;
        assert trimmed[1..closing] == inside;
      }
    }
  }

  /** A setting counts in an editable section, on a line that is neither a comment nor a header. */
  lemma ValueIff(section: string, line: string, setting: Setting)
    ensures Meaning(section, line) == Value(setting) <==>
      && section != "" && IsEditableSection(section)
      && Trim(line) != "" && Trim(line)[0] !in {'#', ';', '['}
      && SettingIn(line) == Some(setting)
  {}

  // ---------------------------------------------------------------- editing a line

  /** The values a parse can produce. */
  predicate CleanValue(v: string) {
    && !HasBreak(v)
    && (v != "" ==> !IsSpace(v[0]) && !IsSpace(v[|v| - 1]))
    && (forall i :: 0 <= i < |v| ==> !CommentAt(v, 0, i))
  }

  /** The line with the setting's value replaced. */
  function Edited(line: string, s: Setting, v: string): string
    requires s.begin <= s.end <= |line|
  {
    line[..s.begin] + v + line[s.end..]
  }

  lemma FindIs(s: string, c: char, from: nat, at: nat)
    requires from <= at <= |s| && (forall i :: from <= i < at ==> s[i] != c) && (at < |s| ==> s[at] == c)
    ensures Find(s, c, from) == at
  {}

  lemma SkipSpacesIs(s: string, from: nat, at: nat)
    requires from <= at <= |s| && (forall i :: from <= i < at ==> IsSpace(s[i])) && (at < |s| ==> !IsSpace(s[at]))
    ensures SkipSpaces(s, from) == at
  {}

  lemma DropSpacesIs(s: string, from: nat, upto: nat, at: nat)
    requires from <= at <= upto <= |s|
    requires (forall i :: at <= i < upto ==> IsSpace(s[i])) && (at > from ==> !IsSpace(s[at - 1]))
    ensures DropSpaces(s, from, upto) == at
  {}

  lemma FindCommentIs(line: string, begin: nat, at: nat)
    requires begin <= at <= |line| && (forall i :: begin <= i < at ==> !CommentAt(line, begin, i))
    requires at < |line| ==> CommentAt(line, begin, at)
    ensures FindComment(line, begin, begin) == at
  {}

  /** The shape of a setting line: spaces up to the value, spaces up to the comment. */
  ghost predicate Shape(line: string, equals: nat, begin: nat, end: nat, mark: nat) {
    && equals < begin <= end <= mark <= |line|
    && line[equals] == '=' && (forall i :: 0 <= i < equals ==> line[i] != '=')
    && (forall i :: equals < i < begin ==> IsSpace(line[i]))
    && (begin < |line| ==> !IsSpace(line[begin]))
    && (forall i :: begin <= i < mark ==> !CommentAt(line, begin, i))
    && (mark < |line| ==> CommentAt(line, begin, mark))
    && (forall i :: end <= i < mark ==> IsSpace(line[i]))
    && (end > begin ==> !IsSpace(line[end - 1]))
  }

  lemma SettingParts(line: string)
    ensures SettingIn(line).Some? <==> Find(line, '=', 0) < |line| && Trim(line[..Find(line, '=', 0)]) != ""
    ensures SettingIn(line).Some? ==>
      var equals := Find(line, '=', 0);
      var begin := SkipSpaces(line, equals + 1);
      var mark := FindComment(line, begin, begin);
      var end := DropSpaces(line, begin, mark);
      SettingIn(line).value
        == Setting(Trim(line[..equals]), line[begin..end], if mark < |line| then Trim(line[mark + 1..]) else "",
                   begin, end)
  {
    hide Find, SkipSpaces, FindComment, DropSpaces, Trim;
  }

  lemma {:induction false} SettingHasShape(line: string)
    requires SettingIn(line).Some?
    ensures var s := SettingIn(line).value;
            var equals := Find(line, '=', 0);
            var mark := FindComment(line, s.begin, s.begin);
      && Shape(line, equals, s.begin, s.end, mark)
      && s.key == Trim(line[..equals]) != ""
      && s.comment == if mark < |line| then Trim(line[mark + 1..]) else ""
  {
    hide Find, SkipSpaces, FindComment, DropSpaces, Trim, IsSpace, IsCommentMark, CommentAt, SettingIn, Shape;
    SettingParts(line);
    var equals := Find(line, '=', 0);
    var begin := SkipSpaces(line, equals + 1);
    var mark := FindComment(line, begin, begin);
    var end := DropSpaces(line, begin, mark);
    FoundShape(line, equals, begin, end, mark);
    assert SettingIn(line).value.begin == begin && SettingIn(line).value.end == end;
  }

  lemma FoundShape(line: string, equals: nat, begin: nat, end: nat, mark: nat)
    requires equals < |line| && equals == Find(line, '=', 0)
    requires begin == SkipSpaces(line, equals + 1) && mark == FindComment(line, begin, begin)
    requires end == DropSpaces(line, begin, mark)
    ensures Shape(line, equals, begin, end, mark)
  {
    hide Find, SkipSpaces, FindComment, DropSpaces, IsSpace, CommentAt;
  }

  lemma {:induction false} ShapeIsSetting(line: string, equals: nat, begin: nat, end: nat, mark: nat)
    requires Shape(line, equals, begin, end, mark) && Trim(line[..equals]) != ""
    ensures SettingIn(line) ==
      Some(Setting(Trim(line[..equals]), line[begin..end], if mark < |line| then Trim(line[mark + 1..]) else "",
                   begin, end))
  {
    hide Find, SkipSpaces, FindComment, DropSpaces, Trim, IsSpace, IsCommentMark, CommentAt;
    FindIs(line, '=', 0, equals);
    SkipSpacesIs(line, equals + 1, begin);
    FindCommentIs(line, begin, mark);
    DropSpacesIs(line, begin, mark, end);
  }

  /** With a value directly before the comment mark, the mark would not count: so the value is empty. */
  lemma TightMeansEmpty(line: string, equals: nat, begin: nat, end: nat, mark: nat)
    requires Shape(line, equals, begin, end, mark)
    ensures end == mark < |line| <==> begin == end < |line|
  {
    if end == mark < |line| {
      assert CommentAt(line, begin, mark);
    }
    assert end < mark ==> IsSpace(line[end]);
  }
}
