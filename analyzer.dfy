/**
 * The analyzer: the reply of the text-generation service is parsed line by
 * line into a summary and a sentiment, and a failed call is turned into an
 * error pair instead of escaping.
 *
 * The call itself is not modelled; its outcome is an input, either the
 * reply's text or the cause of the failure.
 */
module Analyzer {
  import opened Options
  import opened Text

  const SummaryMarker: string := "SUMMARY:"
  const SentimentMarker: string := "SENTIMENT:"
  const ErrorPrefix: string := "Error analyzing transcript: "
  const ErrorSentiment: string := "Error"

  /** The pair the analyzer returns. */
  datatype Analysis = Analysis(summary: string, sentiment: string)

  /** What the call to the generation service produced. */
  datatype CallOutcome = Reply(content: string) | Failure(cause: string)

  /** No line can start with both markers, so the `elif` never hides a sentiment line. */
  lemma MarkersExclusive(line: string)
    ensures !(StartsWith(line, SummaryMarker) && StartsWith(line, SentimentMarker))
  {
    if StartsWith(line, SummaryMarker) {
      assert line[..|SummaryMarker|][1] == 'U';
      assert line[1] != SentimentMarker[1];
    }
  }

  /** What a matching line contributes: every occurrence of the marker removed,
      then surrounding whitespace stripped. The value never begins or ends with
      whitespace, and it is a whitespace-padded part of the line with the
      markers removed. */
  function FieldValue(line: string, marker: string): (v: string)
    requires marker != []
    ensures HasTrimmedEdges(v)
    ensures exists i: nat :: PaddedAt(RemoveAll(line, marker), i, v)
  {
    Strip(RemoveAll(line, marker))
  }

  /** `lines[k]` is the last line that starts with `marker`. */
  predicate IsLastMatch(lines: seq<string>, marker: string, k: nat) {
    k < |lines| && StartsWith(lines[k], marker) &&
    forall j :: k < j < |lines| ==> !StartsWith(lines[j], marker)
  }

  /** No line starts with `marker`. */
  predicate NoMatch(lines: seq<string>, marker: string) {
    forall j :: 0 <= j < |lines| ==> !StartsWith(lines[j], marker)
  }

  /** The value of the last line that starts with `marker`, searching from the
      end: the reference definition the parsing loop is proved against. */
  function LastValue(lines: seq<string>, marker: string): (v: Option<string>)
    requires marker != []
    ensures v.Some? ==> HasTrimmedEdges(v.value)
  {
    if lines == [] then None
    else if StartsWith(lines[|lines| - 1], marker) then Some(FieldValue(lines[|lines| - 1], marker))
    else LastValue(lines[..|lines| - 1], marker)
  }

  /** The analysis of a reply already split into lines. A field with no
      matching line is the empty string. */
  function ParsedLines(lines: seq<string>): Analysis {
    Analysis(LastValue(lines, SummaryMarker).GetOr(""), LastValue(lines, SentimentMarker).GetOr(""))
  }

  /** The analysis of a whole reply, split on `'\n'`. */
  function Parsed(reply: string): Analysis {
    ParsedLines(Split(reply, '\n'))
  }

  /** The pair returned when the call or the parsing fails with `cause`. */
  function ErrorAnalysis(cause: string): (a: Analysis)
    ensures a.sentiment == ErrorSentiment
    ensures StartsWith(a.summary, ErrorPrefix) && a.summary[|ErrorPrefix|..] == cause
  {
    Analysis(ErrorPrefix + cause, ErrorSentiment)
  }

  /** The analyzer's answer for every outcome of the call: it never fails. A
      failure gives the error pair; a reply gives trimmed fields, and it gives
      the sentiment `Error` only through a `SENTIMENT:` line of its own. */
  function Analyzed(outcome: CallOutcome): (a: Analysis)
    ensures outcome.Failure? ==>
              a.sentiment == ErrorSentiment &&
              StartsWith(a.summary, ErrorPrefix) && a.summary[|ErrorPrefix|..] == outcome.cause
    ensures outcome.Reply? ==> HasTrimmedEdges(a.summary) && HasTrimmedEdges(a.sentiment)
    ensures outcome.Reply? && a.sentiment == ErrorSentiment ==>
              !NoMatch(Split(outcome.content, '\n'), SentimentMarker)
  {
    match outcome
    case Reply(content) =>
      UnmatchedFieldsAreEmpty(Split(content, '\n'));
      Parsed(content)
    case Failure(cause) => ErrorAnalysis(cause)
  }

  // ---------------------------------------------------------------------------
  // The parsing loop and the analyzer

  /** The parsing loop: each line that starts with `SUMMARY:` sets the summary,
      otherwise each line that starts with `SENTIMENT:` sets the sentiment. */
  method ParseReply(reply: string) returns (result: Analysis)
    ensures result == Parsed(reply)
  {
    var lines := Split(reply, '\n');
    var summary, sentiment := "", "";
    for i := 0 to |lines|
      invariant summary == LastValue(lines[..i], SummaryMarker).GetOr("")
      invariant sentiment == LastValue(lines[..i], SentimentMarker).GetOr("")
    {
      var line := lines[i];
      LastValueSnoc(lines[..i], line, SummaryMarker);
      LastValueSnoc(lines[..i], line, SentimentMarker);
      assert lines[..i + 1] == lines[..i] + [line];
      if StartsWith(line, SummaryMarker) {
        MarkersExclusive(line);
        summary := Strip(RemoveAll(line, SummaryMarker));
      } else if StartsWith(line, SentimentMarker) {
        sentiment := Strip(RemoveAll(line, SentimentMarker));
      }
    }
    assert lines[..|lines|] == lines;
    result := Analysis(summary, sentiment);
  }

  /** The analyzer: a reply is parsed, a failure becomes the error pair. */
  method AnalyzeTranscript(outcome: CallOutcome) returns (result: Analysis)
    ensures outcome.Reply? ==> result == Parsed(outcome.content)
    ensures outcome.Failure? ==> result == Analysis(ErrorPrefix + outcome.cause, ErrorSentiment)
    ensures result == Analyzed(outcome)
  {
    match outcome
    case Reply(content) =>
      result := ParseReply(content);
    case Failure(cause) =>
      result := Analysis(ErrorPrefix + cause, ErrorSentiment);
  }

  // ---------------------------------------------------------------------------
  // Properties of the parse

  /** Appending one line: a matching line decides the value, any other line keeps it. */
  lemma LastValueSnoc(lines: seq<string>, line: string, marker: string)
    requires marker != []
    ensures LastValue(lines + [line], marker) ==
            if StartsWith(line, marker) then Some(FieldValue(line, marker)) else LastValue(lines, marker)
  {
  }

  /** A field is unset exactly when no line starts with its marker. */
  lemma {:induction false} NoMatchIffUnset(lines: seq<string>, marker: string)
    requires marker != []
    ensures LastValue(lines, marker) == None <==> NoMatch(lines, marker)
  {
    if lines != [] {
      var init := lines[..|lines| - 1];
      NoMatchIffUnset(init, marker);
      assert lines == init + [lines[|lines| - 1]];
      if NoMatch(init, marker) && !StartsWith(lines[|lines| - 1], marker) {
        forall j | 0 <= j < |lines| ensures !StartsWith(lines[j], marker) {
          if j < |lines| - 1 { assert lines[j] == init[j]; }
        }
      }
      if NoMatch(lines, marker) {
        forall j | 0 <= j < |init| ensures !StartsWith(init[j], marker) {
          assert init[j] == lines[j];
        }
      }
    }
  }

  /** Last match wins: the value comes from the last line that starts with the marker. */
  lemma {:induction false} LastMatchWins(lines: seq<string>, marker: string, k: nat)
    requires marker != []
    requires IsLastMatch(lines, marker, k)
    ensures LastValue(lines, marker) == Some(FieldValue(lines[k], marker))
  {
    if k < |lines| - 1 {
      var init := lines[..|lines| - 1];
      assert !StartsWith(lines[|lines| - 1], marker);
      assert IsLastMatch(init, marker, k) by {
        forall j | k < j < |init| ensures !StartsWith(init[j], marker) {
          assert init[j] == lines[j];
        }
      }
      LastMatchWins(init, marker, k);
    }
  }

  /** With no `SUMMARY:` line the summary is empty; with no `SENTIMENT:` line the
      sentiment is empty; and a non-empty field implies a matching line. */
  lemma UnmatchedFieldsAreEmpty(lines: seq<string>)
    ensures NoMatch(lines, SummaryMarker) ==> ParsedLines(lines).summary == ""
    ensures NoMatch(lines, SentimentMarker) ==> ParsedLines(lines).sentiment == ""
    ensures ParsedLines(lines).summary != "" ==> !NoMatch(lines, SummaryMarker)
    ensures ParsedLines(lines).sentiment != "" ==> !NoMatch(lines, SentimentMarker)
  {
    NoMatchIffUnset(lines, SummaryMarker);
    NoMatchIffUnset(lines, SentimentMarker);
  }

  /** Each field is the marker-free, stripped text of the last line carrying its marker. */
  lemma ParsedFromLastLines(lines: seq<string>, s: nat, t: nat)
    requires IsLastMatch(lines, SummaryMarker, s) && IsLastMatch(lines, SentimentMarker, t)
    ensures ParsedLines(lines) ==
            Analysis(FieldValue(lines[s], SummaryMarker), FieldValue(lines[t], SentimentMarker))
  {
    LastMatchWins(lines, SummaryMarker, s);
    LastMatchWins(lines, SentimentMarker, t);
  }

  /** Parsed values never begin or end with whitespace. */
  lemma ParsedFieldsTrimmed(reply: string)
    ensures HasTrimmedEdges(Parsed(reply).summary) && HasTrimmedEdges(Parsed(reply).sentiment)
  {
  }

  /** One loop step: a `SUMMARY:` line sets the summary and never the sentiment,
      a `SENTIMENT:` line sets the sentiment only, and any other line (one with
      spaces before the marker included) changes nothing. */
  lemma ParseStep(lines: seq<string>, line: string)
    ensures StartsWith(line, SummaryMarker) ==>
              ParsedLines(lines + [line]) == ParsedLines(lines).(summary := FieldValue(line, SummaryMarker))
    ensures !StartsWith(line, SummaryMarker) && StartsWith(line, SentimentMarker) ==>
              ParsedLines(lines + [line]) == ParsedLines(lines).(sentiment := FieldValue(line, SentimentMarker))
    ensures !StartsWith(line, SummaryMarker) && !StartsWith(line, SentimentMarker) ==>
              ParsedLines(lines + [line]) == ParsedLines(lines)
  {
    LastValueSnoc(lines, line, SummaryMarker);
    LastValueSnoc(lines, line, SentimentMarker);
    MarkersExclusive(line);
  }

  /** A line with whitespace before the marker is not a matching line. */
  lemma IndentedLineIgnored(lines: seq<string>, line: string)
    requires line != [] && IsSpace(line[0])
    ensures ParsedLines(lines + [line]) == ParsedLines(lines)
  {
    assert line[0] != 'S';
    assert !StartsWith(line, SummaryMarker) && !StartsWith(line, SentimentMarker) by {
      assert SummaryMarker[0] == SentimentMarker[0] == 'S';
    }
    ParseStep(lines, line);
  }

  /** Only the last matching line matters: the value for `a + b` is the value
      for `b` when `b` has a matching line, and the value for `a` otherwise. */
  lemma {:induction false} LastValueConcat(a: seq<string>, b: seq<string>, marker: string)
    requires marker != []
    ensures LastValue(a + b, marker) ==
            if LastValue(b, marker).Some? then LastValue(b, marker) else LastValue(a, marker)
  {
    if b == [] {
      assert a + b == a;
    } else {
      var init := b[..|b| - 1];
      var last := b[|b| - 1];
      assert a + b == (a + init) + [last];
      assert b == init + [last];
      LastValueSnoc(a + init, last, marker);
      LastValueSnoc(init, last, marker);
      LastValueConcat(a, init, marker);
    }
  }

  /** A line that starts with one of the two markers. */
  predicate IsMarked(line: string) {
    StartsWith(line, SummaryMarker) || StartsWith(line, SentimentMarker)
  }

  /** The lines that start with one of the two markers, in their order: every
      such line is kept, and no other line is. */
  function Relevant(lines: seq<string>): (r: seq<string>)
    ensures |r| <= |lines|
    ensures forall k :: 0 <= k < |r| ==> IsMarked(r[k])
    ensures forall k :: 0 <= k < |lines| && IsMarked(lines[k]) ==> lines[k] in r
    ensures forall k :: 0 <= k < |r| ==> r[k] in lines
  {
    if lines == [] then []
    else
      var last := lines[|lines| - 1];
      var init := lines[..|lines| - 1];
      assert forall k :: 0 <= k < |init| ==> init[k] == lines[k];
      if IsMarked(last) then Relevant(init) + [last] else Relevant(init)
  }

  /** Filtering distributes over concatenation, so the kept lines keep their order. */
  lemma {:induction false} RelevantConcat(a: seq<string>, b: seq<string>)
    ensures Relevant(a + b) == Relevant(a) + Relevant(b)
  {
    if b == [] {
      assert a + b == a;
    } else {
      var init := b[..|b| - 1];
      assert (a + b)[..|a + b| - 1] == a + init;
      assert (a + b)[|a + b| - 1] == b[|b| - 1];
      RelevantConcat(a, init);
    }
  }

  /** Interleaved other lines do not matter: dropping them leaves the result unchanged. */
  lemma {:induction false} OtherLinesIrrelevant(lines: seq<string>)
    ensures ParsedLines(Relevant(lines)) == ParsedLines(lines)
  {
    if lines != [] {
      var init := lines[..|lines| - 1];
      var last := lines[|lines| - 1];
      assert lines == init + [last];
      OtherLinesIrrelevant(init);
      ParseStep(init, last);
      ParseStep(Relevant(init), last);
    }
  }

  /** The order of a `SUMMARY:` line and a `SENTIMENT:` line does not matter. */
  lemma SwapSummaryAndSentiment(before: seq<string>, x: string, y: string, after: seq<string>)
    requires StartsWith(x, SummaryMarker) && StartsWith(y, SentimentMarker)
    ensures ParsedLines(before + [x, y] + after) == ParsedLines(before + [y, x] + after)
  {
    MarkersExclusive(x);
    MarkersExclusive(y);
    assert [x, y] == [x] + [y] && [y, x] == [y] + [x];
    assert [x][..0] == [] && [y][..0] == [];
    LastValueConcat([x], [y], SummaryMarker);
    LastValueConcat([x], [y], SentimentMarker);
    LastValueConcat([y], [x], SummaryMarker);
    LastValueConcat([y], [x], SentimentMarker);
    LastValueConcat(before, [x, y], SummaryMarker);
    LastValueConcat(before, [x, y], SentimentMarker);
    LastValueConcat(before, [y, x], SummaryMarker);
    LastValueConcat(before, [y, x], SentimentMarker);
    LastValueConcat(before + [x, y], after, SummaryMarker);
    LastValueConcat(before + [x, y], after, SentimentMarker);
    LastValueConcat(before + [y, x], after, SummaryMarker);
    LastValueConcat(before + [y, x], after, SentimentMarker);
  }

  /** The error pair keeps the whole cause: different causes give different pairs. */
  lemma ErrorCauseRecoverable(c1: string, c2: string)
    requires ErrorAnalysis(c1) == ErrorAnalysis(c2)
    ensures c1 == c2
  {
  }

  // ---------------------------------------------------------------------------
  // Replies in the requested layout

  /** A line made of a marker, one space and a trimmed value free of the marker
      yields exactly that value. */
  lemma MarkedLineValue(marker: string, x: string)
    requires marker != [] && marker[0] != ' '
    requires HasTrimmedEdges(x) && !Contains(x, marker)
    ensures StartsWith(marker + " " + x, marker)
    ensures FieldValue(marker + " " + x, marker) == x
  {
    var line := marker + " " + x;
    assert line[..|marker|] == marker;
    assert line[|marker|..] == " " + x;
    RemoveAllKeepsPlainPrefix(" ", x, marker);
    RemoveAllUnchangedIff(x, marker);
    assert RemoveAll(line, marker) == " " + x;
    assert IsBlank(" ");
    StripPadded(" ", x, []);
    assert " " + x + [] == " " + x;
  }

  /** The two lines of a reply in the requested layout. */
  function SummaryLine(x: string): string { SummaryMarker + " " + x }
  function SentimentLine(y: string): string { SentimentMarker + " " + y }

  /** Two lines in either order are parsed into the values they carry. */
  lemma LayoutLinesParsed(x: string, y: string)
    requires HasTrimmedEdges(x) && !Contains(x, SummaryMarker)
    requires HasTrimmedEdges(y) && !Contains(y, SentimentMarker)
    ensures ParsedLines([SummaryLine(x), SentimentLine(y)]) == Analysis(x, y)
    ensures ParsedLines([SentimentLine(y), SummaryLine(x)]) == Analysis(x, y)
  {
    MarkedLineValue(SummaryMarker, x);
    MarkedLineValue(SentimentMarker, y);
    MarkersExclusive(SummaryLine(x));
    MarkersExclusive(SentimentLine(y));
    ParsedFromLastLines([SummaryLine(x), SentimentLine(y)], 0, 1);
    ParsedFromLastLines([SentimentLine(y), SummaryLine(x)], 1, 0);
  }

  /** A reply in the requested layout, a `SUMMARY:` line and a `SENTIMENT:` line
      in either order, gives back the two values. */
  lemma RequestedLayoutParsed(x: string, y: string)
    requires '\n' !in x && '\n' !in y
    requires HasTrimmedEdges(x) && !Contains(x, SummaryMarker)
    requires HasTrimmedEdges(y) && !Contains(y, SentimentMarker)
    ensures Parsed(SummaryLine(x) + "\n" + SentimentLine(y)) == Analysis(x, y)
    ensures Parsed(SentimentLine(y) + "\n" + SummaryLine(x)) == Analysis(x, y)
  {
    var s, t := SummaryLine(x), SentimentLine(y);
    assert '\n' !in s && '\n' !in t;
    SplitTwoLines(s, t, '\n');
    SplitTwoLines(t, s, '\n');
    LayoutLinesParsed(x, y);
  }

  /** The reply of the refund scenario is a reply in the requested layout. */
  lemma RefundReplyLayout()
    ensures SummaryLine("Customer requested a refund.") + "\n" + SentimentLine("negative")
            == "SUMMARY: Customer requested a refund.\nSENTIMENT: negative"
  {
    RefundSummaryLine();
    RefundSentimentLine();
    assert "SUMMARY: Customer requested a refund." + "\n" + "SENTIMENT: negative"
        == "SUMMARY: Customer requested a refund.\nSENTIMENT: negative";
  }

  lemma RefundSummaryLine()
    ensures SummaryLine("Customer requested a refund.") == "SUMMARY: Customer requested a refund."
  {
  }

  lemma RefundSentimentLine()
    ensures SentimentLine("negative") == "SENTIMENT: negative"
  {
  }

  /** The refund scenario: the reply
      `SUMMARY: Customer requested a refund.` / `SENTIMENT: negative`
      is parsed into that summary and that sentiment. */
  lemma RefundReplyParsed()
    ensures Parsed("SUMMARY: Customer requested a refund.\nSENTIMENT: negative")
            == Analysis("Customer requested a refund.", "negative")
  {
    var x, y := "Customer requested a refund.", "negative";
    RefundReplyLayout();
    MissingFirstCharNotContained(x, SummaryMarker);
    MissingFirstCharNotContained(y, SentimentMarker);
    RequestedLayoutParsed(x, y);
  }

  /** `str.replace` removes the marker wherever it occurs in a matching line,
      not only as its prefix: a second `SUMMARY:` inside the line disappears
      too, whatever surrounds it. */
  lemma InteriorMarkerRemoved(a: string, b: string)
    ensures FieldValue(SummaryMarker + a + SummaryMarker + b, SummaryMarker)
            == Strip(RemoveAll(a, SummaryMarker) + RemoveAll(b, SummaryMarker))
  {
    var m := SummaryMarker;
    assert HeadUnique(m);
    RemoveAllAtOccurrence([], m, a + m + b);
    assert [] + m + (a + m + b) == m + a + m + b;
    RemoveAllAtOccurrence(a, m, b);
  }

  /** A failure is not marked as such on the way out: a reply in the requested
      layout can produce exactly the pair a failure with cause `c` produces. */
  lemma ErrorIndistinguishable(c: string)
    requires c != [] && !IsSpace(c[|c| - 1])
    requires '\n' !in c && 'S' !in c
    ensures Parsed(SummaryLine(ErrorPrefix + c) + "\n" + SentimentLine(ErrorSentiment)) == ErrorAnalysis(c)
  {
    var x := ErrorPrefix + c;
    assert x[0] == 'E' && x[|x| - 1] == c[|c| - 1];
    assert '\n' !in x && 'S' !in x by {
      assert forall ch :: ch in x ==> ch in ErrorPrefix || ch in c;
    }
    MissingFirstCharNotContained(x, SummaryMarker);
    MissingFirstCharNotContained(ErrorSentiment, SentimentMarker);
    RequestedLayoutParsed(x, ErrorSentiment);
  }
}
