/** How the loader turns the text of one chapter file into a chapter title
    and a chapter body: the first non-blank line is the title line; when
    it starts with the marker `第{n}章`, every occurrence of the marker is
    cut from it; a file without a usable title gets `章节{n}`; and the body
    is every line after the title line. */
module ChapterText {

  import opened Wrappers
  import opened Text
  import opened Epub

  /** `第{n}章`: the marker a title line of chapter `n` may start with. */
  function Marker(number: int): string {
    "第" + Decimal(number) + "章"
  }

  /** `章节{n}`: the title of a chapter whose file has none. */
  function DefaultTitle(number: int): string {
    "章节" + Decimal(number)
  }

  /** The index of the first line that is not blank, if any. */
  function FirstNonBlank(lines: seq<string>): (r: Option<nat>)
    ensures r.Some? ==> r.value < |lines|
  {
    FirstNonBlankFrom(lines, 0)
  }

  /** The index of the first line at or after `i` that is not blank. */
  function FirstNonBlankFrom(lines: seq<string>, i: nat): (r: Option<nat>)
    ensures r.Some? ==> i <= r.value < |lines|
    decreases |lines| - i
  {
    if i >= |lines| then None
    else if Strip(lines[i]) != [] then Some(i)
    else FirstNonBlankFrom(lines, i + 1)
  }

  /** The search finds no line exactly when every line from `i` on is blank. */
  lemma {:induction false} FirstNonBlankNone(lines: seq<string>, i: nat)
    requires i <= |lines|
    ensures FirstNonBlankFrom(lines, i).None? <==> forall k :: i <= k < |lines| ==> Strip(lines[k]) == []
    decreases |lines| - i
  {
    if i < |lines| && Strip(lines[i]) == [] {
      FirstNonBlankNone(lines, i + 1);
      assert FirstNonBlankFrom(lines, i) == FirstNonBlankFrom(lines, i + 1);
      if forall k :: i + 1 <= k < |lines| ==> Strip(lines[k]) == [] {
        forall k | i <= k < |lines| ensures Strip(lines[k]) == [] {
          if k > i {
            assert i + 1 <= k < |lines|;
          }
        }
      }
    }
  }

  /** The line the search finds is not blank. */
  lemma {:induction false} FirstNonBlankIsNonBlank(lines: seq<string>, i: nat)
    requires i <= |lines| && FirstNonBlankFrom(lines, i).Some?
    ensures Strip(lines[FirstNonBlankFrom(lines, i).value]) != []
    decreases |lines| - i
  {
    if Strip(lines[i]) == [] {
      assert FirstNonBlankFrom(lines, i) == FirstNonBlankFrom(lines, i + 1);
      FirstNonBlankIsNonBlank(lines, i + 1);
    }
  }

  /** Every line between `i` and the line the search finds is blank. */
  lemma {:induction false} FirstNonBlankSkipsBlank(lines: seq<string>, i: nat, k: nat)
    requires FirstNonBlankFrom(lines, i).Some? && i <= k < FirstNonBlankFrom(lines, i).value
    ensures Strip(lines[k]) == []
    decreases |lines| - i
  {
    if Strip(lines[i]) == [] {
      if k > i {
        assert FirstNonBlankFrom(lines, i) == FirstNonBlankFrom(lines, i + 1);
        FirstNonBlankSkipsBlank(lines, i + 1, k);
      }
    } else {
      assert false;
    }
  }

  /** The index of the line the body starts at: just after the title line,
      or 0 when there is none. */
  function ContentStart(lines: seq<string>): (start: nat)
    ensures start <= |lines|
  {
    match FirstNonBlank(lines)
    case None => 0
    case Some(i) => i + 1
  }

  /** The title a stripped title line gives: every occurrence of the marker
      removed and the rest stripped, or the line itself when it does not
      start with the marker. */
  function TitleOf(number: int, line: string): string {
    if StartsWith(line, Marker(number)) then Strip(ReplaceAll(line, Marker(number), "")) else line
  }

  /** The title of chapter `number` whose file holds `content`. */
  function Title(number: int, content: string): (title: string)
    ensures title != []
  {
    var lines := Split(content, '\n');
    var found := match FirstNonBlank(lines)
      case None => ""
      case Some(i) => TitleOf(number, Strip(lines[i]));
    if found == [] then DefaultTitle(number) else found
  }

  /** The body of a chapter whose file holds `content`: the lines after the
      title line, joined again. */
  function Body(content: string): string {
    var lines := Split(content, '\n');
    Join(lines[ContentStart(lines)..], '\n')
  }

  /** The title search of `export_novel_to_epub`: a scan over the lines
      that stops at the first non-blank one. */
  method ExtractTitle(number: int, content: string) returns (title: string, body: string)
    ensures title == Title(number, content) && body == Body(content)
  {
    var lines := Split(content, '\n');
    title := "";
    var contentStart := 0;
    var i := 0;
    while i < |lines|
      invariant 0 <= i <= |lines|
      invariant FirstNonBlankFrom(lines, i) == FirstNonBlank(lines)
      invariant contentStart == 0 && title == ""
    {
      var line := Strip(lines[i]);
      if line != [] {
        var marker := "第" + Decimal(number) + "章";
        if StartsWith(line, marker) {
          title := Strip(ReplaceAll(line, marker, ""));
        } else {
          title := line;
        }
        contentStart := i + 1;
        assert FirstNonBlank(lines) == Some(i);
        assert title == TitleOf(number, Strip(lines[i]));
        break;
      }
      i := i + 1;
    }
    assert contentStart == ContentStart(lines);
    if title == [] {
      title := "章节" + Decimal(number);
    }
    body := Join(lines[contentStart..], '\n');
  }

  lemma {:induction false} AllBlankNoTitleLine(lines: seq<string>, i: nat)
    requires i <= |lines| && forall k :: i <= k < |lines| ==> IsBlank(lines[k])
    ensures FirstNonBlankFrom(lines, i) == None
    decreases |lines| - i
  {
    if i < |lines| {
      StripEmptyIffBlank(lines[i]);
      AllBlankNoTitleLine(lines, i + 1);
    }
  }

  /** A file that is all whitespace gets the default title and keeps its
      whole text as body. */
  lemma BlankFileGetsDefaultTitle(number: int, content: string)
    requires IsBlank(content)
    ensures Title(number, content) == DefaultTitle(number)
    ensures Body(content) == content
  {
    var lines := Split(content, '\n');
    BlankIffLinesBlank(content);
    AllBlankNoTitleLine(lines, 0);
    assert lines[0..] == lines;
    JoinSplit(content, '\n');
  }

  /** The file is the lines up to and including the title line, then a
      newline and the body; when the title line is the last line the body
      is empty. */
  lemma BodyFollowsTitleLine(content: string)
    requires FirstNonBlank(Split(content, '\n')).Some?
    ensures var lines := Split(content, '\n');
      var i := FirstNonBlank(lines).value;
      && (i + 1 == |lines| ==> Body(content) == [] && content == Join(lines, '\n'))
      && (i + 1 < |lines| ==> content == Join(lines[..i + 1], '\n') + "\n" + Body(content))
  {
    var lines := Split(content, '\n');
    var i := FirstNonBlank(lines).value;
    JoinSplit(content, '\n');
    if i + 1 < |lines| {
      assert lines == lines[..i + 1] + lines[i + 1..];
      JoinAppend(lines[..i + 1], lines[i + 1..], '\n');
    } else {
      assert lines[i + 1..] == [];
    }
  }

  /** A title that neither starts nor ends with whitespace strips to itself
      after a leading space. */
  lemma StripSpaceThenTitle(t: string)
    requires t != [] && !IsSpace(t[0]) && !IsSpace(t[|t| - 1])
    ensures Strip(" " + t) == t
  {
    assert (" " + t)[1..] == t;
    assert TrimLeft(" " + t) == TrimLeft(t);
    StripTrimmed(t);
  }

  /** The marker is cut from `第{n}章 {t}`, leaving ` {t}`, when `t` does
      not itself contain the marker (every occurrence would be cut). */
  lemma MarkerRemoved(number: int, t: string)
    requires !Occurs(Marker(number), t)
    ensures ReplaceAll(Marker(number) + " " + t, Marker(number), "") == " " + t
  {
    var m := Marker(number);
    MarkerShape(number);
    assert m + " " + t == m + (" " + t);
    ReplaceAllLeading(m, " " + t, "");
    assert (" " + t)[1..] == t;
    assert !StartsWith(" " + t, m) by {
      assert (" " + t)[0] != m[0];
    }
    ReplaceAllAbsent(" " + t, m, "");
  }

  lemma MarkerShape(number: int)
    ensures |Marker(number)| >= 3 && Marker(number)[0] == '第' && '\n' !in Marker(number)
  {
    var m := Marker(number);
    assert m == ['第'] + Decimal(number) + ['章'];
    forall k | 0 <= k < |m| ensures m[k] != '\n' {
      if 0 < k < |m| - 1 {
        assert m[k] == Decimal(number)[k - 1];
      }
    }
  }

  /** The line `第{n}章 {t}` is a single stripped line whose title is `t`. */
  lemma MarkedLine(number: int, t: string)
    requires t != [] && !IsSpace(t[0]) && !IsSpace(t[|t| - 1])
    requires '\n' !in t && !Occurs(Marker(number), t)
    ensures '\n' !in Marker(number) + " " + t
    ensures Strip(Marker(number) + " " + t) == Marker(number) + " " + t
    ensures TitleOf(number, Marker(number) + " " + t) == t
  {
    var m := Marker(number);
    var line := m + " " + t;
    MarkerShape(number);
    StartsWithConcat(m, " " + t);
    assert line == m + (" " + t);
    assert line[0] == '第' && line[|line| - 1] == t[|t| - 1];
    StripTrimmed(line);
    MarkerRemoved(number, t);
    StripSpaceThenTitle(t);
  }

  /** The file the generator writes, `第{n}章 {t}` on the first line and
      the text after it, reads back as title `t` and that text, provided
      the title is non-empty, has no surrounding whitespace, no newline
      and does not itself contain `第{n}章`. */
  lemma ExtractRoundTrip(number: int, t: string, rest: string)
    requires t != [] && !IsSpace(t[0]) && !IsSpace(t[|t| - 1])
    requires '\n' !in t && !Occurs(Marker(number), t)
    ensures Title(number, Marker(number) + " " + t + "\n" + rest) == t
    ensures Body(Marker(number) + " " + t + "\n" + rest) == rest
  {
    var line := Marker(number) + " " + t;
    MarkedLine(number, t);
    SplitAppend(line, rest, '\n');
    SplitNoSeparator(line, '\n');
    var lines := Split(line + "\n" + rest, '\n');
    assert lines == [line] + Split(rest, '\n');
    assert FirstNonBlank(lines) == Some(0);
    assert lines[1..] == Split(rest, '\n');
    JoinSplit(rest, '\n');
  }
}
