/** What replacing the value inside one setting line does to the line's meaning. */
module SettingsEdit {
  import opened Bytes
  import opened SettingsText

  lemma EditedAt(line: string, begin: nat, end: nat, v: string, i: nat)
    requires begin <= end <= |line|
    requires i < begin + |v| + |line| - end
    ensures var w := line[..begin] + v + line[end..];
      w[i] == if i < begin then line[i] else if i < begin + |v| then v[i - begin] else line[i - begin - |v| + end]
  {}

  /** A comment mark inside a clean value never counts in the line around it. */
  lemma NoCommentInValue(v: string, w: string, begin: nat, i: nat)
    requires CleanValue(v) && begin + |v| <= |w| && w[begin..begin + |v|] == v && i < |v|
    ensures !CommentAt(w, begin, begin + i)
  {
    assert w[begin + i] == v[i] && (i > 0 ==> w[begin + i - 1] == v[i - 1]);
    assert !CommentAt(v, 0, i);
  }

  /** Up to the moved comment mark, no comment mark counts. */
  lemma NoCommentBefore(line: string, equals: nat, begin: nat, end: nat, mark: nat, v: string, i: nat)
    requires Shape(line, equals, begin, end, mark) && CleanValue(v)
    requires begin <= i < mark - end + begin + |v|
    ensures !CommentAt(line[..begin] + v + line[end..], begin, i)
  {
    var w, end' := line[..begin] + v + line[end..], begin + |v|;
    if i < end' {
      assert w[begin..end'] == v;
      NoCommentInValue(v, w, begin, i - begin);
    } else {
      EditedAt(line, begin, end, v, i);
      assert IsSpace(line[i - end' + end]);
    }
  }

  /** A non-empty value put where a value was, or where no comment follows. */
  lemma NonEmptyEditKeepsShape(line: string, equals: nat, begin: nat, end: nat, mark: nat, v: string)
    requires Shape(line, equals, begin, end, mark) && CleanValue(v) && v != ""
    requires begin < end || end == |line|
    ensures var w := line[..begin] + v + line[end..];
            Shape(w, equals, begin, begin + |v|, mark - end + begin + |v|)
  {
    var w := line[..begin] + v + line[end..];
    var end', mark' := begin + |v|, mark - end + begin + |v|;
    forall i | 0 <= i < |w|
      ensures w[i] == if i < begin then line[i] else if i < end' then v[i - begin] else line[i - end' + end]
    {
      EditedAt(line, begin, end, v, i);
    }
    forall i | begin <= i < mark' ensures !CommentAt(w, begin, i) {
      NoCommentBefore(line, equals, begin, end, mark, v, i);
    }
    TightMeansEmpty(line, equals, begin, end, mark);
    if mark' < |w| {
      assert CommentAt(line, begin, mark);
      assert IsSpace(line[mark - 1]);
    }
  }

  /** The value taken away: the spaces around it join up. */
  lemma EmptyEditKeepsShape(line: string, equals: nat, begin: nat, end: nat, mark: nat)
    requires Shape(line, equals, begin, end, mark)
    ensures var w := line[..begin] + line[end..];
            var at := begin + mark - end;
            Shape(w, equals, at, at, at)
  {
    var w := line[..begin] + line[end..];
    var at := begin + mark - end;
    forall i | 0 <= i < |w| ensures w[i] == if i < begin then line[i] else line[i - begin + end] {
      assert w == line[..begin] + "" + line[end..];
      EditedAt(line, begin, end, "", i);
    }
    if at < |w| {
      assert CommentAt(line, begin, mark);
      assert w[at] == line[mark];
    }
  }

  lemma EditedTails(line: string, begin: nat, end: nat, mark: nat, v: string)
    requires begin <= end <= mark <= |line|
    ensures var w := line[..begin] + v + line[end..];
            var mark' := mark - end + begin + |v|;
      && |w| - mark' == |line| - mark
      && (mark < |line| ==> w[mark' + 1..] == line[mark + 1..])
  {}

  /** The edit that works: the same key and comment, and the new value. */
  lemma EditedSetting(line: string, v: string)
    requires SettingIn(line).Some? && CleanValue(v)
    requires var s := SettingIn(line).value; v == "" || s.value != "" || s.end == |line|
    ensures var s := SettingIn(line).value;
            var edited := SettingIn(Edited(line, s, v));
      && edited.Some?
      && edited.value.key == s.key && edited.value.comment == s.comment && edited.value.value == v
  {
    hide Shape, SettingIn, Trim, CleanValue, Find, FindComment, Edited, IsSpace, IsCommentMark;
    var s := SettingIn(line).value;
    var equals, mark := Find(line, '=', 0), FindComment(line, s.begin, s.begin);
    SettingHasShape(line);
    ShapeBounds(line, equals, s.begin, s.end, mark);
    if v == "" {
      EmptiedSetting(line, equals, s, mark);
    } else {
      FilledSetting(line, equals, s, mark, v);
    }
  }

  lemma EmptiedSetting(line: string, equals: nat, s: Setting, mark: nat)
    requires Shape(line, equals, s.begin, s.end, mark) && s.begin <= s.end <= |line|
    requires s.key == Trim(line[..equals]) != "" && s.comment == if mark < |line| then Trim(line[mark + 1..]) else ""
    ensures var edited := SettingIn(Edited(line, s, ""));
      edited.Some? && edited.value.key == s.key && edited.value.comment == s.comment && edited.value.value == ""
  {
    hide SettingIn, Trim, Edited;
    EditedAround(line, equals, s, mark, "");
    EmptyEditKeepsShape(line, equals, s.begin, s.end, mark);
    hide Shape;
    var at := s.begin + mark - s.end;
    ReadsAs(Edited(line, s, ""), equals, at, at, at);
  }

  lemma {:induction false} FilledSetting(line: string, equals: nat, s: Setting, mark: nat, v: string)
    requires Shape(line, equals, s.begin, s.end, mark) && s.begin <= s.end <= |line|
    requires CleanValue(v) && v != "" && (s.begin < s.end || s.end == |line|)
    requires s.key == Trim(line[..equals]) != "" && s.comment == if mark < |line| then Trim(line[mark + 1..]) else ""
    ensures var edited := SettingIn(Edited(line, s, v));
      edited.Some? && edited.value.key == s.key && edited.value.comment == s.comment && edited.value.value == v
  {
    hide SettingIn, Trim, Edited, CleanValue;
    EditedAround(line, equals, s, mark, v);
    NonEmptyEditKeepsShape(line, equals, s.begin, s.end, mark, v);
    hide Shape;
    ReadsAs(Edited(line, s, v), equals, s.begin, s.begin + |v|, mark - s.end + s.begin + |v|);
  }

  lemma EditedAround(line: string, equals: nat, s: Setting, mark: nat, v: string)
    requires equals < s.begin <= s.end <= mark <= |line|
    ensures var w := Edited(line, s, v);
            var mark' := mark - s.end + s.begin + |v|;
      && |w| - mark' == |line| - mark
      && w[..equals] == line[..equals] && w[s.begin..s.begin + |v|] == v
      && (mark < |line| ==> w[mark' + 1..] == line[mark + 1..])
      && (v == "" ==> w == line[..s.begin] + line[s.end..] && w[mark'..mark'] == "")
      && w == line[..s.begin] + v + line[s.end..]
  {
    EditedTails(line, s.begin, s.end, mark, v);
  }

  lemma {:induction false} ReadsAs(w: string, equals: nat, begin: nat, end: nat, mark: nat)
    requires Shape(w, equals, begin, end, mark) && Trim(w[..equals]) != ""
    ensures equals < begin <= end <= mark <= |w|
    ensures SettingIn(w) == Some(Setting(Trim(w[..equals]), w[begin..end],
                                         if mark < |w| then Trim(w[mark + 1..]) else "", begin, end))
  {
    ShapeIsSetting(w, equals, begin, end, mark);
  }

  lemma ShapeBounds(line: string, equals: nat, begin: nat, end: nat, mark: nat)
    requires Shape(line, equals, begin, end, mark)
    ensures equals < begin <= end <= mark <= |line|
  {}

  /** A clean value before a comment mark: the mark at its end no longer counts, so the comment is found later. */
  lemma GluedComment(line: string, begin: nat, v: string)
    requires begin < |line| && CommentAt(line, begin, begin) && CleanValue(v) && v != ""
    ensures var w := line[..begin] + v + line[begin..];
      && !IsSpace(w[begin]) && !IsSpace(w[begin + |v|])
      && begin + |v| < FindComment(w, begin, begin)
  {
    hide FindComment;
    var w, glued := line[..begin] + v + line[begin..], begin + |v|;
    assert w[begin..glued] == v && w[begin] == v[0] && w[glued - 1] == v[|v| - 1] && w[glued] == line[begin];
    forall i | begin <= i <= glued ensures !CommentAt(w, begin, i) {
      if i < glued {
        NoCommentInValue(v, w, begin, i - begin);
      }
    }
    var mark := FindComment(w, begin, begin);
    assert mark < |w| ==> CommentAt(w, begin, mark);
  }

  /** The edit that fails: a value typed into an empty place right before a comment swallows the comment mark. */
  lemma {:induction false} GluedSetting(line: string, v: string)
    requires SettingIn(line).Some? && CleanValue(v) && v != ""
    requires var s := SettingIn(line).value; s.value == "" && s.end < |line|
    ensures var s := SettingIn(line).value;
            var edited := SettingIn(Edited(line, s, v));
      edited.Some? && edited.value.key == s.key && |edited.value.value| > |v|
  {
    hide Find, SkipSpaces, FindComment, DropSpaces, Trim, SettingIn, CleanValue, IsSpace, CommentAt, Shape, Edited;
    var s := SettingIn(line).value;
    SettingHasShape(line);
    var equals, mark, begin := Find(line, '=', 0), FindComment(line, s.begin, s.begin), s.begin;
    TightMeansEmpty(line, equals, begin, s.end, mark);
    ShapeBounds(line, equals, begin, s.end, mark);
    assert CommentAt(line, begin, begin) by { MarkCounts(line, equals, begin, s.end, mark); }
    var w := Edited(line, s, v);
    EditedAround(line, equals, s, mark, v);
    GluedComment(line, begin, v);
    GluedStart(line, equals, begin, s.end, mark, w, v);
    GluedReads(w, equals, begin, |v|);
  }

  lemma GluedReads(w: string, equals: nat, begin: nat, n: nat)
    requires equals < |w| && Find(w, '=', 0) == equals && Trim(w[..equals]) != ""
    requires begin <= |w| && SkipSpaces(w, equals + 1) == begin
    requires begin + n < FindComment(w, begin, begin) && !IsSpace(w[begin + n])
    ensures SettingIn(w).Some? && SettingIn(w).value.key == Trim(w[..equals]) && |SettingIn(w).value.value| > n
  {
    hide Find, SkipSpaces, FindComment, DropSpaces, Trim, SettingIn, IsSpace;
    SettingParts(w);
    assert DropSpaces(w, begin, FindComment(w, begin, begin)) > begin + n;
  }

  lemma MarkCounts(line: string, equals: nat, begin: nat, end: nat, mark: nat)
    requires Shape(line, equals, begin, end, mark) && mark < |line|
    ensures CommentAt(line, begin, mark)
  {}

  /** Up to the value nothing changes, so the value is looked for at the same place. */
  lemma GluedStart(line: string, equals: nat, begin: nat, end: nat, mark: nat, w: string, v: string)
    requires Shape(line, equals, begin, end, mark)
    requires w == line[..begin] + v + line[end..] && v != "" && !IsSpace(w[begin])
    ensures Find(w, '=', 0) == equals && SkipSpaces(w, equals + 1) == begin
  {
    hide Find, SkipSpaces, IsSpace, CommentAt;
    forall i | 0 <= i < begin ensures w[i] == line[i] {
      EditedAt(line, begin, end, v, i);
    }
    FindIs(w, '=', 0, equals);
    SkipSpacesIs(w, equals + 1, begin);
  }

  // ---------------------------------------------------------------- the values a parse produces

  lemma ParsedValueIsClean(line: string)
    requires SettingIn(line).Some? && !HasBreak(line)
    ensures CleanValue(SettingIn(line).value.value)
  {
    hide SettingIn, Trim, Find, FindComment;
    var s := SettingIn(line).value;
    SettingHasShape(line);
    var v := s.value;
    assert |v| == s.end - s.begin;
    forall i | 0 <= i < |v| ensures !CommentAt(v, 0, i) && !IsBreak(v[i]) {
      assert v[i] == line[s.begin + i] && (i > 0 ==> v[i - 1] == line[s.begin + i - 1]);
      assert !CommentAt(line, s.begin, s.begin + i);
    }
  }

  // ---------------------------------------------------------------- the line keeps its kind

  lemma TrimStarts(s: string)
    ensures Trim(s) != "" <==> SkipSpaces(s, 0) < |s|
    ensures Trim(s) != "" ==> Trim(s)[0] == s[SkipSpaces(s, 0)]
  {
    hide SkipSpaces, DropSpaces;
    var from := SkipSpaces(s, 0);
    var upto := DropSpaces(s, from, |s|);
    if from < |s| {
      assert upto > from;
    }
  }

  /** A line that begins like a setting line, up to its equals sign, is of the same kind. */
  lemma {:induction false} SameKind(section: string, line: string, other: string, equals: nat)
    requires equals < |line| && equals < |other| && line[..equals] == other[..equals] && Trim(line[..equals]) != ""
    requires Meaning(section, line).Value? && SettingIn(other).Some?
    ensures Meaning(section, other) == Value(SettingIn(other).value)
  {
    hide Trim, SettingIn, IsEditableSection, SkipSpaces;
    TrimStarts(line[..equals]);
    TrimStarts(line);
    TrimStarts(other);
    var at := SkipSpaces(line[..equals], 0);
    forall i | 0 <= i < at ensures IsSpace(line[i]) && IsSpace(other[i]) {
      assert line[i] == line[..equals][i] && other[i] == other[..equals][i];
    }
    assert line[at] == line[..equals][at] && other[at] == other[..equals][at];
    SkipSpacesIs(line, 0, at);
    SkipSpacesIs(other, 0, at);
  }

  lemma {:induction false} EditedKind(section: string, line: string, v: string)
    requires Meaning(section, line).Value?
    requires SettingIn(Edited(line, SettingIn(line).value, v)).Some?
    ensures Meaning(section, Edited(line, SettingIn(line).value, v))
         == Value(SettingIn(Edited(line, SettingIn(line).value, v)).value)
  {
    hide Shape, SettingIn, Trim, Find, FindComment;
    var s := SettingIn(line).value;
    SettingHasShape(line);
    var equals := Find(line, '=', 0);
    ShapeBounds(line, equals, s.begin, s.end, FindComment(line, s.begin, s.begin));
    assert Edited(line, s, v)[..equals] == line[..equals];
    SameKind(section, line, Edited(line, s, v), equals);
  }

  lemma {:induction false} MeaningIsSetting(section: string, line: string)
    requires Meaning(section, line).Value?
    ensures SettingIn(line) == Some(Meaning(section, line).setting)
  {}
}
