/** The worker side of the reviewer: turning the language model's free-text
    reply for each file into structured issues, and summarising them.

    The model call itself is not part of this module: each file's fully
    assembled reply text is an input, given in a sequence parallel to the
    files. */
module Services {
  import opened PyStr
  import opened Seqs

  /** One changed file of the pull request, as fetched by the routes. */
  datatype FileData = FileData(filename: string, content: string)

  /** One issue the reviewer reported: the four `" | "`-separated fields of
      an `Issue:` line. `kind` is kept verbatim; `line` may be negative. */
  datatype Issue = Issue(kind: string, line: int, description: string, suggestion: string)

  /** The per-file entry of the result: the file's name and its issues. */
  datatype FileReport = FileReport(filename: string, issues: seq<Issue>)

  datatype Summary = Summary(totalFiles: nat, totalIssues: nat, criticalIssues: nat)

  /** `{"files": [...], "summary": {...}}`. */
  datatype StructuredResults = StructuredResults(files: seq<FileReport>, summary: Summary)

  /** What the Celery task body ends with: a returned value, or a request to
      retry (raised from its exception handler). */
  datatype TaskOutcome = Returned(value: Option<StructuredResults>) | Retried

  const IssueMarker: string := "Issue:"
  const FieldSeparator: string := " | "
  const Newline: string := "\n"
  const Colon: string := ":"

  // ---------------------------------------------------------------------
  // Parsing one line

  /** `segment.split(":")[1].strip()`, with None where the index is out of
      range (the segment has no colon). */
  function Field(segment: string): Option<string>
  {
    var parts := Split(segment, Colon);
    if |parts| < 2 then None else Some(Strip(parts[1]))
  }

  /** A field's value is the stripped text strictly between the segment's
      first colon (at `i`) and its second colon (at `j`, or the end of the
      segment if there is no second one); it is not "everything after the
      first colon". */
  lemma FieldBetweenColons(segment: string, i: nat, j: nat)
    requires i < j <= |segment|
    requires segment[i] == ':' && (j == |segment| || segment[j] == ':')
    requires forall k :: 0 <= k < j && k != i ==> segment[k] != ':'
    ensures Field(segment) == Some(Strip(segment[i + 1..j]))
  {
    assert Colon == [':'];
    SplitAtFirst(segment, ':', i);
    var rest, n := segment[i + 1..], j - (i + 1);
    forall k | 0 <= k < n
      ensures rest[k] != ':'
    {
      assert rest[k] == segment[i + 1 + k];
    }
    FirstPiece(rest, ':', n);
    assert rest[..n] == segment[i + 1..j];
    FieldOfSecondPart(segment, segment[i + 1..j]);
  }

  lemma FieldOfSecondPart(segment: string, part: string)
    requires |Split(segment, Colon)| >= 2 && Split(segment, Colon)[1] == part
    ensures Field(segment) == Some(Strip(part))
  {
  }

  /** A segment without any colon has no field value. */
  lemma FieldWithoutColon(segment: string)
    requires forall k :: 0 <= k < |segment| ==> segment[k] != ':'
    ensures Field(segment) == None
  {
    assert Colon == [':'];
    SplitAbsent(segment, ':');
  }

  /** In terms of how a segment is written, `name: value` yields the
      stripped value, and `name: value: more` yields the same: anything from
      a second colon on is dropped, so a description that itself holds a
      colon is cut at it. */
  lemma FieldOfNamedValue(name: string, value: string, more: Option<string>)
    requires ':' !in name && ':' !in value
    ensures more.None? ==> Field(name + ":" + value) == Some(Strip(value))
    ensures more.Some? ==> Field(name + ":" + value + ":" + more.value) == Some(Strip(value))
  {
    var i, j := |name|, |name| + 1 + |value|;
    var segment := if more.None? then name + ":" + value else name + ":" + value + ":" + more.value;
    assert segment[..j] == name + ":" + value;
    assert segment[i + 1..j] == value;
    forall k | 0 <= k < j && k != i
      ensures segment[k] != ':'
    {
      if k < i {
        assert segment[k] == name[k];
      } else {
        assert segment[k] == value[k - i - 1];
      }
    }
    FieldBetweenColons(segment, i, j);
  }

  /** The dictionary built for one line holding the marker; None where
      Python raises (fewer than four segments, a segment without a colon,
      a line field that `int()` rejects). */
  function ParseIssueLine(line: string): Option<Issue>
  {
    var details := Split(line, FieldSeparator);
    if |details| < 4 then None
    else
      var kind, line, description, suggestion :=
        Field(details[0]), Field(details[1]), Field(details[2]), Field(details[3]);
      if kind.None? || line.None? || description.None? || suggestion.None? then None
      else
        match ParseInt(line.value)
        case None => None
        case Some(n) => Some(Issue(kind.value, n, description.value, suggestion.value))
  }

  /** A segment free of '|' ends at the separator that follows it. */
  lemma SplitAfterSegment(segment: string, rest: string)
    requires '|' !in segment
    ensures Split(segment + FieldSeparator + rest, FieldSeparator) == [segment] + Split(rest, FieldSeparator)
  {
    var s, i := segment + FieldSeparator + rest, |segment|;
    assert s[i..i + 3] == FieldSeparator;
    forall j | 0 <= j < i
      ensures !OccursAt(s, FieldSeparator, j)
    {
      assert s[j + 1] != '|' by {
        if j + 1 < i {
          assert s[j + 1] == segment[j + 1];
        }
      }
      if j + 3 <= |s| {
        assert s[j..j + 3][1] == s[j + 1];
      }
    }
    SplitAtOccurrence(s, FieldSeparator, i);
    assert s[..i] == segment && s[i + 3..] == rest;
  }

  /** A '|'-free text is a single segment. */
  lemma SplitSingleSegment(segment: string)
    requires '|' !in segment
    ensures Split(segment, FieldSeparator) == [segment]
  {
    forall j | 0 <= j < |segment|
      ensures !OccursAt(segment, FieldSeparator, j)
    {
      if j + 3 <= |segment| {
        assert segment[j..j + 3][1] == segment[j + 1];
      }
    }
    SplitNoOccurrence(segment, FieldSeparator);
  }

  /** A line written as segments joined by `" | "`, the first four of them
      '|'-free, is read field by field from those four: it yields an issue
      exactly when each has a colon and the second's value reads as an
      integer, and whatever segments follow the fourth play no part. */
  lemma IssueOfSegments(segments: seq<string>)
    requires |segments| >= 4
    requires forall k :: 0 <= k < 4 ==> '|' !in segments[k]
    ensures ParseIssueLine(Join(segments, FieldSeparator)) ==
      if && Field(segments[0]).Some? && Field(segments[1]).Some? && Field(segments[2]).Some?
         && Field(segments[3]).Some? && ParseInt(Field(segments[1]).value).Some?
      then Some(Issue(Field(segments[0]).value, ParseInt(Field(segments[1]).value).value,
                      Field(segments[2]).value, Field(segments[3]).value))
      else None
  {
    var text := Join(segments, FieldSeparator);
    LeadingSegments(segments, 4);
    IssueOfDetails(text, Split(text, FieldSeparator));
  }

  /** Splitting joined segments gives back each leading '|'-free segment. */
  lemma {:induction false} LeadingSegments(segments: seq<string>, n: nat)
    requires n <= |segments|
    requires forall k :: 0 <= k < n ==> '|' !in segments[k]
    ensures |Split(Join(segments, FieldSeparator), FieldSeparator)| >= n
    ensures forall k :: 0 <= k < n ==> Split(Join(segments, FieldSeparator), FieldSeparator)[k] == segments[k]
    decreases n
  {
    if n > 0 {
      if |segments| == 1 {
        SplitSingleSegment(segments[0]);
      } else {
        var rest := segments[1..];
        LeadingSegments(rest, n - 1);
        assert Join(segments, FieldSeparator) == segments[0] + FieldSeparator + Join(rest, FieldSeparator);
        SplitAfterSegment(segments[0], Join(rest, FieldSeparator));
        var pieces, later := Split(Join(segments, FieldSeparator), FieldSeparator), Split(Join(rest, FieldSeparator), FieldSeparator);
        assert pieces == [segments[0]] + later;
        forall k | 0 <= k < n
          ensures pieces[k] == segments[k]
        {
          if k > 0 {
            assert pieces[k] == later[k - 1] && segments[k] == rest[k - 1];
          }
        }
      }
    }
  }

  /** How a line's issue is read from its segments. */
  lemma IssueOfDetails(text: string, details: seq<string>)
    requires Split(text, FieldSeparator) == details && |details| >= 4
    ensures ParseIssueLine(text) ==
      if && Field(details[0]).Some? && Field(details[1]).Some? && Field(details[2]).Some?
         && Field(details[3]).Some? && ParseInt(Field(details[1]).value).Some?
      then Some(Issue(Field(details[0]).value, ParseInt(Field(details[1]).value).value,
                      Field(details[2]).value, Field(details[3]).value))
      else None
  {
  }

  // ---------------------------------------------------------------------
  // The line format the parser expects

  /** `<name>: <value>`. */
  function Labelled(name: string, value: string): string
  {
    name + ": " + value
  }

  /** `Issue: <kind> | Line: <n> | Description: <text> | Suggestion: <text>`. */
  function FormatIssue(issue: Issue): string
  {
    Join(FormatSegments(issue), FieldSeparator)
  }

  /** The names of the four segments, in order. */
  const Labels: seq<string> := ["Issue", "Line", "Description", "Suggestion"]

  function FormatSegments(issue: Issue): (segments: seq<string>)
    ensures |segments| == 4
  {
    seq(4, k requires 0 <= k < 4 => Labelled(Labels[k], FormatValues(issue)[k]))
  }

  /** A text field that survives the round trip: on one line, with no colon,
      no '|', and no whitespace at either end for `strip()` to remove. */
  predicate PlainText(t: string)
  {
    && ':' !in t && '|' !in t && '\n' !in t
    && (t != [] ==> !IsSpace(t[0]) && !IsSpace(t[|t| - 1]))
  }

  predicate PlainIssue(issue: Issue)
  {
    PlainText(issue.kind) && PlainText(issue.description) && PlainText(issue.suggestion)
  }

  /** Reading back a line written in the expected format gives the issue it
      was written from, negative line numbers included. */
  lemma ParseFormatIssue(issue: Issue)
    requires PlainIssue(issue)
    ensures ParseIssueLine(FormatIssue(issue)) == Some(issue)
  {
    FieldOfFormat(issue, 0);
    FieldOfFormat(issue, 1);
    FieldOfFormat(issue, 2);
    FieldOfFormat(issue, 3);
    ParseShow(issue.line);
    FormatSegmentsPlain(issue);
    IssueOfSegments(FormatSegments(issue));
  }

  /** The values written into the four segments. */
  function FormatValues(issue: Issue): seq<string>
  {
    [issue.kind, Show(issue.line), issue.description, issue.suggestion]
  }

  /** Each segment of a formatted issue yields the value it was written from. */
  lemma FieldOfFormat(issue: Issue, k: nat)
    requires PlainIssue(issue) && k < 4
    ensures Field(FormatSegments(issue)[k]) == Some(FormatValues(issue)[k])
  {
    LabelsPlain(k);
    ValuePlain(issue, k);
    FieldOfLabelled(Labels[k], FormatValues(issue)[k]);
  }

  lemma LabelsPlain(k: nat)
    requires k < 4
    ensures ':' !in Labels[k] && '|' !in Labels[k] && '\n' !in Labels[k]
  {
  }

  lemma ValuePlain(issue: Issue, k: nat)
    requires PlainIssue(issue) && k < 4
    ensures PlainText(FormatValues(issue)[k])
  {
    if k == 1 {
      ShowPlain(issue.line);
    }
  }

  /** The four segments of a formatted issue each stay on one line and hold
      no '|'. */
  lemma FormatSegmentsPlain(issue: Issue)
    requires PlainIssue(issue)
    ensures forall k :: 0 <= k < 4 ==> '|' !in FormatSegments(issue)[k] && '\n' !in FormatSegments(issue)[k]
  {
    var segments := FormatSegments(issue);
    forall k | 0 <= k < 4
      ensures '|' !in segments[k] && '\n' !in segments[k]
    {
      LabelsPlain(k);
      ValuePlain(issue, k);
    }
  }

  /** `<name>: <value>` with a plain value yields the value. */
  lemma FieldOfLabelled(name: string, value: string)
    requires ':' !in name && '|' !in name && PlainText(value)
    ensures '|' !in Labelled(name, value)
    ensures Field(Labelled(name, value)) == Some(value)
  {
    var padded := " " + value;
    assert Labelled(name, value) == name + ":" + padded;
    FieldOfNamedValue(name, padded, None);
    StripSpaceBefore(value);
  }

  lemma StripSpaceBefore(value: string)
    requires value != [] ==> !IsSpace(value[0]) && !IsSpace(value[|value| - 1])
    ensures Strip(" " + value) == value
  {
    assert " " + value == " " + value + "";
    StripPadded(" ", value, "");
  }

  /** A formatted issue is one line holding the marker. */
  lemma FormatIssueLine(issue: Issue)
    requires PlainIssue(issue)
    ensures '\n' !in FormatIssue(issue)
    ensures Contains(FormatIssue(issue), IssueMarker)
  {
    var segments := FormatSegments(issue);
    FormatSegmentsPlain(issue);
    JoinWithout(segments, FieldSeparator, '\n');
    var text := FormatIssue(issue);
    assert text == segments[0] + FieldSeparator + Join(segments[1..], FieldSeparator);
    assert text[..6] == IssueMarker;
    assert OccursAt(text, IssueMarker, 0);
  }

  /** A reply made of one formatted line per issue. */
  function FormatReply(issues: seq<Issue>): string
  {
    Join(seq(|issues|, k requires 0 <= k < |issues| => FormatIssue(issues[k])), Newline)
  }

  /** Lines that all hold the marker are all selected. */
  lemma {:induction false} IssueLinesAllMarked(lines: seq<string>)
    requires forall k :: 0 <= k < |lines| ==> Contains(lines[k], IssueMarker)
    ensures IssueLines(lines) == lines
  {
    if lines != [] {
      var n := |lines| - 1;
      assert forall k :: 0 <= k < n ==> lines[..n][k] == lines[k];
      IssueLinesAllMarked(lines[..n]);
      assert lines[..n] + [lines[n]] == lines;
    }
  }

  /** Reading back a reply written one issue per line in the expected format
      gives exactly those issues, in order. */
  lemma ParseFormatReply(issues: seq<Issue>)
    requires forall k :: 0 <= k < |issues| ==> PlainIssue(issues[k])
    ensures ParsedIssues(FormatReply(issues)) == Some(issues)
  {
    if issues == [] {
      assert Split(FormatReply(issues), Newline) == [[]];
      assert !Contains([], IssueMarker);
      NoMarkerNoIssues(FormatReply(issues));
    } else {
      var lines := FormattedLines(issues);
      ParseMarkedLines(lines, issues);
    }
  }

  /** Lines that all hold the marker and each parse to an issue give those
      issues, in order. */
  lemma ParseMarkedLines(lines: seq<string>, issues: seq<Issue>)
    requires |lines| == |issues|
    requires forall k :: 0 <= k < |lines| ==> Contains(lines[k], IssueMarker)
    requires forall k :: 0 <= k < |lines| ==> ParseIssueLine(lines[k]) == Some(issues[k])
    ensures ParseAll(IssueLines(lines)) == Some(issues)
  {
    IssueLinesAllMarked(lines);
    var rs := LineIssues(lines);
    forall k | 0 <= k < |rs|
      ensures rs[k] == Some(issues[k])
    {
    }
    CollectValues(rs, issues);
  }

  /** The lines of a formatted reply: one per issue, each holding the marker
      and parsing to its issue. */
  lemma FormattedLines(issues: seq<Issue>) returns (lines: seq<string>)
    requires issues != []
    requires forall k :: 0 <= k < |issues| ==> PlainIssue(issues[k])
    ensures |lines| == |issues|
    ensures Split(FormatReply(issues), Newline) == lines
    ensures forall k :: 0 <= k < |lines| ==> Contains(lines[k], IssueMarker)
    ensures forall k :: 0 <= k < |lines| ==> ParseIssueLine(lines[k]) == Some(issues[k])
  {
    lines := seq(|issues|, k requires 0 <= k < |issues| => FormatIssue(issues[k]));
    forall k | 0 <= k < |lines|
      ensures '\n' !in lines[k] && Contains(lines[k], IssueMarker)
      ensures ParseIssueLine(lines[k]) == Some(issues[k])
    {
      FormatIssueLine(issues[k]);
      ParseFormatIssue(issues[k]);
    }
    assert Newline == ['\n'];
    SplitJoin(lines, '\n');
  }

  /** The decimal form of a number is plain text. */
  lemma ShowPlain(n: int)
    ensures PlainText(Show(n))
  {
    var s := Show(n);
    assert forall k :: 0 <= k < |s| ==> s[k] == '-' || IsDigit(s[k]);
    assert '\n' !in s;
  }

  // ---------------------------------------------------------------------
  // Parsing one reply

  /** The lines holding the marker `Issue:`, in their original order. */
  function IssueLines(lines: seq<string>): (candidates: seq<string>)
    ensures |candidates| <= |lines|
    ensures forall k :: 0 <= k < |candidates| ==> Contains(candidates[k], IssueMarker)
  {
    if lines == [] then []
    else
      var last := lines[|lines| - 1];
      var before := IssueLines(lines[..|lines| - 1]);
      if Contains(last, IssueMarker) then before + [last] else before
  }

  /** The selection is made line by line, independently of the neighbours:
      the lines kept from two stretches of text are those kept from the first
      followed by those kept from the second. */
  lemma {:induction false} IssueLinesAppend(a: seq<string>, b: seq<string>)
    ensures IssueLines(a + b) == IssueLines(a) + IssueLines(b)
    decreases |b|
  {
    if b != [] {
      var b' := b[..|b| - 1];
      assert (a + b)[..|a + b| - 1] == a + b';
      IssueLinesAppend(a, b');
    } else {
      assert a + b == a;
    }
  }

  /** The filter is complete and keeps order: the line at any position is kept,
      between the lines kept before it and those kept after it, exactly when
      it holds the marker. */
  lemma IssueLinesAt(lines: seq<string>, i: nat)
    requires i < |lines|
    ensures IssueLines(lines) ==
      IssueLines(lines[..i])
      + (if Contains(lines[i], IssueMarker) then [lines[i]] else [])
      + IssueLines(lines[i + 1..])
  {
    Splice(lines, i);
    IssueLinesAround(lines[..i], lines[i], lines[i + 1..]);
  }

  /** `IssueLinesAt` for a line given between two stretches of text. */
  lemma IssueLinesAround(before: seq<string>, line: string, after: seq<string>)
    ensures IssueLines(before + [line] + after) ==
      IssueLines(before)
      + (if Contains(line, IssueMarker) then [line] else [])
      + IssueLines(after)
  {
    IssueLinesAppend(before + [line], after);
    IssueLinesAppend(before, [line]);
    assert [line][..0] == [];
  }

  /** Python evaluates the items one after another and the first exception
      abandons the rest: the values of all results, or None once one of them
      is missing. */
  function Collect<T>(results: seq<Option<T>>): (r: Option<seq<T>>)
    ensures r.Some? ==> |r.value| == |results|
  {
    if results == [] then Some([])
    else
      var n := |results| - 1;
      match Collect(results[..n])
      case None => None
      case Some(before) =>
        match results[n]
        case None => None
        case Some(x) => Some(before + [x])
  }

  /** All or nothing: the collection succeeds exactly when every item does,
      and then holds the items' values one to one and in order. */
  lemma {:induction false} CollectAllOrNothing<T>(results: seq<Option<T>>)
    ensures Collect(results).Some? <==> forall k :: 0 <= k < |results| ==> results[k].Some?
    ensures Collect(results).Some? ==>
      forall k :: 0 <= k < |results| ==> Collect(results).value[k] == results[k].value
  {
    if results != [] {
      var n := |results| - 1;
      var before := results[..n];
      CollectAllOrNothing(before);
      assert forall k :: 0 <= k < n ==> before[k] == results[k];
    }
  }

  /** Results that all hold a value collect to exactly those values. */
  lemma CollectValues<T>(results: seq<Option<T>>, values: seq<T>)
    requires |results| == |values|
    requires forall k :: 0 <= k < |results| ==> results[k] == Some(values[k])
    ensures Collect(results) == Some(values)
  {
    CollectAllOrNothing(results);
    var collected := Collect(results).value;
    assert forall k :: 0 <= k < |values| ==> collected[k] == values[k];
    assert collected == values;
  }

  /** One more item extends the collected values, or fails the whole
      collection. */
  lemma CollectStep<T>(results: seq<Option<T>>, i: nat, before: seq<T>)
    requires i < |results| && Collect(results[..i]) == Some(before)
    ensures results[i].None? ==> Collect(results) == None
    ensures results[i].Some? ==> Collect(results[..i + 1]) == Some(before + [results[i].value])
  {
    assert results[..i + 1] == results[..i] + [results[i]];
    CollectSnoc(results[..i], results[i]);
    if results[i].None? {
      CollectFailureSticks(results, i + 1);
    }
  }

  lemma CollectSnoc<T>(results: seq<Option<T>>, last: Option<T>)
    ensures Collect(results + [last]) ==
      if Collect(results).Some? && last.Some? then Some(Collect(results).value + [last.value]) else None
  {
    assert (results + [last])[..|results|] == results;
  }

  /** Once a prefix fails, the whole collection fails. */
  lemma {:induction false} CollectFailureSticks<T>(results: seq<Option<T>>, n: nat)
    requires n <= |results|
    requires Collect(results[..n]) == None
    ensures Collect(results) == None
    decreases |results|
  {
    if n < |results| {
      var m := |results| - 1;
      assert results[..m][..n] == results[..n];
      CollectFailureSticks(results[..m], n);
    } else {
      assert results[..n] == results;
    }
  }

  /** The outcome of parsing each candidate line. */
  function LineIssues(candidates: seq<string>): (rs: seq<Option<Issue>>)
  {
    seq(|candidates|, k requires 0 <= k < |candidates| => ParseIssueLine(candidates[k]))
  }

  lemma LineIssuesAppend(a: seq<string>, b: seq<string>)
    ensures LineIssues(a + b) == LineIssues(a) + LineIssues(b)
  {
    var l, r := LineIssues(a + b), LineIssues(a) + LineIssues(b);
    forall k | 0 <= k < |a + b|
      ensures l[k] == r[k]
    {
      if k < |a| {
        assert (a + b)[k] == a[k];
      } else {
        assert (a + b)[k] == b[k - |a|];
      }
    }
  }

  /** The issues of the candidate lines, all or nothing. */
  function ParseAll(candidates: seq<string>): Option<seq<Issue>>
  {
    Collect(LineIssues(candidates))
  }

  /** The candidates parse exactly when every one of them does, and then the
      k-th issue is the k-th candidate's, so issues and candidate lines
      correspond one to one and in order. */
  lemma ParseAllOneToOne(candidates: seq<string>)
    ensures ParseAll(candidates).Some? <==>
      forall k :: 0 <= k < |candidates| ==> ParseIssueLine(candidates[k]).Some?
    ensures ParseAll(candidates).Some? ==>
      && |ParseAll(candidates).value| == |candidates|
      && forall k :: 0 <= k < |candidates| ==> Some(ParseAll(candidates).value[k]) == ParseIssueLine(candidates[k])
  {
    var rs := LineIssues(candidates);
    CollectAllOrNothing(rs);
    assert forall k :: 0 <= k < |candidates| ==> rs[k] == ParseIssueLine(candidates[k]);
  }

  /** The issues of one file's reply text: every line containing `Issue:`
      parsed in order, or None when one of them fails. */
  function ParsedIssues(reply: string): Option<seq<Issue>>
  {
    ParseAll(IssueLines(Split(reply, Newline)))
  }

  /** Lines without the marker select nothing. */
  lemma {:induction false} IssueLinesUnmarked(lines: seq<string>)
    requires forall k :: 0 <= k < |lines| ==> !Contains(lines[k], IssueMarker)
    ensures IssueLines(lines) == []
  {
    if lines != [] {
      var n := |lines| - 1;
      assert forall k :: 0 <= k < n ==> lines[..n][k] == lines[k];
      IssueLinesUnmarked(lines[..n]);
    }
  }

  /** A reply with no line containing `Issue:` yields an empty issue list
      (not None). */
  lemma NoMarkerNoIssues(reply: string)
    requires forall k :: 0 <= k < |Split(reply, Newline)| ==> !Contains(Split(reply, Newline)[k], IssueMarker)
    ensures ParsedIssues(reply) == Some([])
  {
    IssueLinesUnmarked(Split(reply, Newline));
    assert LineIssues([]) == [];
  }

  /** Once a prefix of the lines fails to parse, the whole reply fails. */
  lemma FailureSticks(lines: seq<string>, n: nat)
    requires n <= |lines|
    requires ParseAll(IssueLines(lines[..n])) == None
    ensures ParseAll(IssueLines(lines)) == None
  {
    var a, b := lines[..n], lines[n..];
    TakeDrop(lines, n);
    IssueLinesAppend(a, b);
    LineIssuesAppend(IssueLines(a), IssueLines(b));
    PrefixOfAppend(LineIssues(IssueLines(a)), LineIssues(IssueLines(b)));
    CollectFailureSticks(LineIssues(IssueLines(lines)), |IssueLines(a)|);
  }

  /** A single line that holds the marker but does not parse (fewer than four
      segments, a segment without a colon, a line field `int()` rejects)
      makes the whole reply fail, wherever it stands. */
  lemma MalformedLineSpoilsReply(reply: string, k: nat)
    requires k < |Split(reply, Newline)|
    requires Contains(Split(reply, Newline)[k], IssueMarker)
    requires ParseIssueLine(Split(reply, Newline)[k]) == None
    ensures ParsedIssues(reply) == None
  {
    var lines := Split(reply, Newline);
    ParseStep(lines, k);
    FailureSticks(lines, k + 1);
  }

  /** One more line: unmarked lines change nothing, a marked line adds its
      issue or makes the whole prefix fail. */
  lemma ParseStep(lines: seq<string>, i: nat)
    requires i < |lines|
    ensures ParseAll(IssueLines(lines[..i + 1])) ==
      if !Contains(lines[i], IssueMarker) then ParseAll(IssueLines(lines[..i]))
      else if ParseAll(IssueLines(lines[..i])).Some? && ParseIssueLine(lines[i]).Some? then
        Some(ParseAll(IssueLines(lines[..i])).value + [ParseIssueLine(lines[i]).value])
      else None
  {
    var before, line := lines[..i], lines[i];
    assert lines[..i + 1] == before + [line];
    IssueLinesAppend(before, [line]);
    assert IssueLines([line]) == if Contains(line, IssueMarker) then [line] else [] by {
      assert [line][..0] == [];
    }
    if Contains(line, IssueMarker) {
      LineIssuesAppend(IssueLines(before), [line]);
      CollectSnoc(LineIssues(IssueLines(before)), ParseIssueLine(line));
    } else {
      assert IssueLines(before) + [] == IssueLines(before);
    }
  }

  /** The per-line loop of the analysis for one file: splits the reply on
      newlines and appends the issue of every line holding the marker; a
      line that fails to parse ends the whole analysis with None. */
  method ParseIssues(reply: string) returns (issues: Option<seq<Issue>>)
    ensures issues == ParsedIssues(reply)
  {
    var lines := Split(reply, Newline);
    var found: seq<Issue> := [];
    var i := 0;
    while i < |lines|
      invariant 0 <= i <= |lines|
      invariant ParseAll(IssueLines(lines[..i])) == Some(found)
    {
      var line := lines[i];
      ParseStep(lines, i);
      if Contains(line, IssueMarker) {
        var issue := ParseIssueLine(line);
        if issue.None? {
          FailureSticks(lines, i + 1);
          return None;
        }
        found := found + [issue.value];
      }
      i := i + 1;
    }
    assert lines[..i] == lines;
    issues := Some(found);
  }

  // ---------------------------------------------------------------------
  // All files and the summary

  /** `issue["type"].lower() == "bug"`. */
  predicate IsBug(issue: Issue)
  {
    Lower(issue.kind) == "bug"
  }

  /** The critical kind is "bug" in any mix of letter cases, and nothing else. */
  lemma IsBugSpellings(issue: Issue)
    ensures IsBug(issue) <==>
      |issue.kind| == 3 && issue.kind[0] in "bB" && issue.kind[1] in "uU" && issue.kind[2] in "gG"
  {
    var k := issue.kind;
    if IsBug(issue) {
      var l := Lower(k);
      assert |k| == |l| == 3;
      assert l[0] == LowerChar(k[0]) && l[1] == LowerChar(k[1]) && l[2] == LowerChar(k[2]);
    }
    if |k| == 3 && k[0] in "bB" && k[1] in "uU" && k[2] in "gG" {
      assert Lower(k) == "bug";
    }
  }

  /** Number of issues of kind "bug", in any letter case. */
  function CountBugs(issues: seq<Issue>): (n: nat)
    ensures n <= |issues|
  {
    if issues == [] then 0
    else (if IsBug(issues[0]) then 1 else 0) + CountBugs(issues[1..])
  }

  lemma {:induction false} CountBugsAppend(a: seq<Issue>, b: seq<Issue>)
    ensures CountBugs(a + b) == CountBugs(a) + CountBugs(b)
    decreases |a|
  {
    if a != [] {
      assert (a + b)[1..] == a[1..] + b;
      CountBugsAppend(a[1..], b);
    } else {
      assert a + b == b;
    }
  }

  /** `sum(len(file["issues"]) for file in all_issues)`. */
  function TotalIssues(reports: seq<FileReport>): nat
  {
    if reports == [] then 0 else |reports[0].issues| + TotalIssues(reports[1..])
  }

  /** `sum(1 for file in all_issues for issue in file["issues"] if ...)`. */
  function CriticalIssues(reports: seq<FileReport>): nat
  {
    if reports == [] then 0 else CountBugs(reports[0].issues) + CriticalIssues(reports[1..])
  }

  /** Every issue of every file, file by file. */
  function AllIssues(reports: seq<FileReport>): seq<Issue>
  {
    if reports == [] then [] else reports[0].issues + AllIssues(reports[1..])
  }

  function Summarize(reports: seq<FileReport>): Summary
  {
    Summary(|reports|, TotalIssues(reports), CriticalIssues(reports))
  }

  /** The summary counts the issues of all files exactly once: the total is
      the number of issues across the files, the critical count is the number
      of those whose kind is "bug", and so never exceeds the total. */
  lemma {:induction false} SummaryCounts(reports: seq<FileReport>)
    ensures Summarize(reports).totalFiles == |reports|
    ensures Summarize(reports).totalIssues == |AllIssues(reports)|
    ensures Summarize(reports).criticalIssues == CountBugs(AllIssues(reports))
    ensures Summarize(reports).criticalIssues <= Summarize(reports).totalIssues
  {
    if reports != [] {
      SummaryCounts(reports[1..]);
      CountBugsAppend(reports[0].issues, AllIssues(reports[1..]));
    }
  }

  /** One file's report, or None when its reply does not parse. */
  function FileResult(file: FileData, reply: string): Option<FileReport>
  {
    match ParsedIssues(reply)
    case None => None
    case Some(issues) => Some(FileReport(file.filename, issues))
  }

  /** The outcome for each file, in order. */
  function FileResults(files: seq<FileData>, replies: seq<string>): seq<Option<FileReport>>
    requires |replies| == |files|
  {
    seq(|files|, i requires 0 <= i < |files| => FileResult(files[i], replies[i]))
  }

  /** The per-file reports, all or nothing: one entry per file, in order. */
  function Reports(files: seq<FileData>, replies: seq<string>): Option<seq<FileReport>>
    requires |replies| == |files|
  {
    Collect(FileResults(files, replies))
  }

  /** What `analyze_code_with_gemini` returns for the given files when the
      model replies with `replies` (one text per file). */
  function Analysis(files: seq<FileData>, replies: seq<string>): Option<StructuredResults>
    requires |replies| == |files|
  {
    match Reports(files, replies)
    case None => None
    case Some(reports) => Some(StructuredResults(reports, Summarize(reports)))
  }

  /** Reports exist exactly when every reply parses; then there is one per
      file, in input order, with the file's name unchanged (even when it has
      no issues) and the issues of that file's reply. */
  lemma ReportsPerFile(files: seq<FileData>, replies: seq<string>)
    requires |replies| == |files|
    ensures Reports(files, replies).Some? <==>
      forall i :: 0 <= i < |files| ==> ParsedIssues(replies[i]).Some?
    ensures Reports(files, replies).Some? ==>
      var reports := Reports(files, replies).value;
      && |reports| == |files|
      && forall i :: 0 <= i < |files| ==>
           reports[i].filename == files[i].filename && Some(reports[i].issues) == ParsedIssues(replies[i])
  {
    var rs := FileResults(files, replies);
    CollectAllOrNothing(rs);
    assert forall i :: 0 <= i < |files| ==> rs[i] == FileResult(files[i], replies[i]);
  }

  /** The analysis succeeds exactly when every file's reply parses: a single
      malformed `Issue:` line in any file makes the whole result None. On
      success it lists every file once, in order, with its own issues, and
      its summary holds `total_files == |files|`, `total_issues` the number
      of issues across files, and `critical_issues` those of kind "bug". */
  lemma AnalysisAllOrNothing(files: seq<FileData>, replies: seq<string>)
    requires |replies| == |files|
    ensures Analysis(files, replies).Some? <==>
      forall i :: 0 <= i < |files| ==> ParsedIssues(replies[i]).Some?
    ensures Analysis(files, replies).Some? ==>
      var result := Analysis(files, replies).value;
      && |result.files| == |files|
      && (forall i :: 0 <= i < |files| ==>
            result.files[i].filename == files[i].filename
            && Some(result.files[i].issues) == ParsedIssues(replies[i]))
      && result.summary.totalFiles == |files|
      && result.summary.totalIssues == |AllIssues(result.files)|
      && result.summary.criticalIssues == CountBugs(AllIssues(result.files))
      && result.summary.criticalIssues <= result.summary.totalIssues
  {
    ReportsPerFile(files, replies);
    if Reports(files, replies).Some? {
      SummaryCounts(Reports(files, replies).value);
    }
  }

  /** One more file extends the reports collected so far with that file's
      report, or fails them all. */
  lemma ReportStep(files: seq<FileData>, replies: seq<string>, i: nat, reports: seq<FileReport>)
    requires |replies| == |files| && i < |files|
    requires Collect(FileResults(files, replies)[..i]) == Some(reports)
    ensures ParsedIssues(replies[i]).None? ==> Reports(files, replies) == None
    ensures ParsedIssues(replies[i]).Some? ==>
      Collect(FileResults(files, replies)[..i + 1])
        == Some(reports + [FileReport(files[i].filename, ParsedIssues(replies[i]).value)])
  {
    var outcomes := FileResults(files, replies);
    assert outcomes[i] == FileResult(files[i], replies[i]);
    CollectStep(outcomes, i, reports);
  }

  /** The per-file loop of `analyze_code_with_gemini`: parse each file's
      reply, append its report, and finish with the summary; a parse failure
      anywhere makes the call return None. */
  method AnalyzeCode(files: seq<FileData>, replies: seq<string>) returns (results: Option<StructuredResults>)
    requires |replies| == |files|
    ensures results == Analysis(files, replies)
  {
    var reports: seq<FileReport> := [];
    ghost var outcomes := FileResults(files, replies);
    var i := 0;
    while i < |files|
      invariant 0 <= i <= |files|
      invariant Collect(outcomes[..i]) == Some(reports)
    {
      var issues := ParseIssues(replies[i]);
      ReportStep(files, replies, i, reports);
      if issues.None? {
        return None;
      }
      reports := reports + [FileReport(files[i].filename, issues.value)];
      i := i + 1;
    }
    TakeAll(outcomes);
    results := Some(StructuredResults(reports, Summarize(reports)));
  }

  /** `analyze_pr_task`: hands back whatever the analysis returned, None
      included. The analysis catches every failure itself, so the task's
      retry handler is never reached. */
  method AnalyzePrTask(files: seq<FileData>, replies: seq<string>) returns (outcome: TaskOutcome)
    requires |replies| == |files|
    ensures outcome.Returned?
    ensures outcome.value == Analysis(files, replies)
  {
    var results := AnalyzeCode(files, replies);
    outcome := Returned(results);
  }
}
