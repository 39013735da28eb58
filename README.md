# Call analyzer: reply parser and append-only log, in Dafny

This project models the logic of a small call-center web service (`app.py`).
The service takes a customer-service transcript and asks a hosted text-generation service to summarize it and classify its sentiment.
It parses the service's free-text reply into a `(summary, sentiment)` pair and appends one row per analysis to the log `call_analysis.csv`.
It then returns the result as a JSON payload.

The model has five modules:

- `Options` (`options.dfy`): the `Option` datatype. It stands for "the field was never set" and for "the log file does not exist".
- `Text` (`text.dfy`): the Python string operations the parser relies on, with Python's semantics.
  - `str.split('\n')` is `Split`. `"".split('\n') == [""]`, and a trailing separator gives a trailing `""`. `Join` is its inverse.
  - `str.startswith` is `StartsWith`.
  - `str.replace(marker, '')` is `RemoveAll`: one left-to-right pass that deletes non-overlapping occurrences.
  - `str.strip()` is `Strip`. It removes exactly the characters for which Python's `str.isspace()` holds (`IsSpace`), Unicode space separators included.
- `Analyzer` (`analyzer.dfy`): the reply parser and the error mapping.
  - The external call is abstracted to its outcome: `CallOutcome = Reply(content) | Failure(cause)`.
  - `ParseReply` is the source's loop, with its `if`/`elif`. It is proved equal to `Parsed`.
  - `Parsed` is a reference definition. It searches backwards for the last line carrying each marker (`LastValue`).
  - `AnalyzeTranscript` turns a failure into `("Error analyzing transcript: " + cause, "Error")`.
- `Recorder` (`recorder.dfy`): the class `CallLog`. Its field `file` is `None` while the file does not exist, and otherwise the sequence of rows, each a sequence of fields.
  - `SaveToCsv` writes the header only when the file did not exist. It then appends exactly one data row and returns `"call_analysis.csv"`.
- `Handler` (`handler.dfy`): `Analyze`, the `POST /analyze` handler.
  - Form data is a `map<string, string>`. The JSON payload is the `Response` datatype.
  - An empty or absent transcript yields `{"error": "No transcript provided"}`. No analysis runs and no row is written.
  - Otherwise the handler analyzes, records, and echoes the transcript, summary, sentiment and file name.

The code calls `line.replace('SUMMARY:', '')`, which removes every occurrence of the marker anywhere in the line, not only the leading one.
`FieldValue` models that call, and `InteriorMarkerRemoved` states the consequence.
Also, the `elif` never matters: no line can start with both markers (`MarkersExclusive`).
So the sentiment comes from the last `SENTIMENT:` line, exactly as the summary comes from the last `SUMMARY:` line.

## Model

| member | source | states |
|---|---|---|
| `Text.Split` | app.py:48 | `response.split('\n')` yields at least one line, and no line contains a newline |
| `Text.JoinSplit` | app.py:48 | joining the split lines with `'\n'` gives back the reply text |
| `Text.SplitJoin` | app.py:48 | splitting the join of newline-free lines gives back those lines |
| `Text.SplitTwoLines` | app.py:48 | two newline-free lines separated by one newline split into exactly those two lines |
| `Text.IsSpaceIsPythonWhitespace` | app.py:50-52 | the whitespace that `strip()` removes is exactly Python's `str.isspace()` set, listed character by character |
| `Text.StartsWithCharwise` | app.py:49-51 | `line.startswith(marker)` holds exactly when the line is at least as long as the marker and agrees with it at every position of the marker |
| `Text.RemoveAll` | app.py:50-52 | `replace(marker, '')` never lengthens the line |
| `Text.RemoveAllUnchangedIff` | app.py:50-52 | `replace(marker, '')` returns the line unchanged exactly when the marker does not occur in it, and a strictly shorter line otherwise |
| `Text.NoOverlap` | app.py:50-52 | when the marker's first character occurs nowhere else in it, no occurrence can start inside another one |
| `Text.RemoveAllAtOccurrence` | app.py:50-52 | for such a marker every occurrence is deleted, wherever it stands: replacing in `a + marker + b` gives the replacement of `a` followed by the replacement of `b` |
| `Text.RemoveAllKeepsPlainPrefix` | app.py:50-52 | text that does not contain the marker's first character is copied unchanged ahead of the rest of the replacement |
| `Text.MissingFirstCharNotContained` | app.py:50-52 | text lacking the marker's first character does not contain the marker |
| `Text.TrimLeft` | app.py:50-52 | the result is a suffix of the input; everything dropped is whitespace; the result does not start with whitespace |
| `Text.TrimRight` | app.py:50-52 | the result is a prefix of the input; everything dropped is whitespace; the result does not end with whitespace |
| `Text.Strip` | app.py:50-52 | `strip()` returns a part of the line padded only by whitespace on both sides, and it neither starts nor ends with whitespace |
| `Text.StripPadded` | app.py:50-52 | for any text with non-whitespace edges and any whitespace padding around it, `strip()` returns exactly that text |
| `Text.StripIdempotent` | app.py:50-52 | stripping a stripped value changes nothing |
| `Analyzer.MarkersExclusive` | app.py:49-51 | no line starts with both `SUMMARY:` and `SENTIMENT:`, so the `elif` hides no sentiment line |
| `Analyzer.FieldValue` | app.py:50-52 | a matched line's value has no leading or trailing whitespace, and is a whitespace-padded part of the line with every marker occurrence removed |
| `Analyzer.LastValue` | app.py:46-52 | the value of the last line carrying the marker never has whitespace at its edges |
| `Analyzer.ErrorAnalysis` | app.py:56-57 | the failure pair has sentiment `"Error"` and a summary of `"Error analyzing transcript: "` followed by the whole cause |
| `Analyzer.ParseReply` | app.py:45-54 | the line-by-line loop with its `if`/`elif` returns exactly the last-match analysis `Parsed(reply)` |
| `Analyzer.Analyzed` | app.py:45-57 | a failure with cause `c` gives sentiment `"Error"` and summary `"Error analyzing transcript: "` followed by `c`; a reply gives fields without edge whitespace, and sentiment `"Error"` only when it has a `SENTIMENT:` line |
| `Analyzer.AnalyzeTranscript` | app.py:45-57 | a reply is parsed; a failure with cause `c` gives exactly `("Error analyzing transcript: " + c, "Error")`; the analyzer always returns a pair and never fails |
| `Analyzer.LastValueSnoc` | app.py:48-52 | one more line sets the field when it starts with the marker and leaves the field alone otherwise |
| `Analyzer.NoMatchIffUnset` | app.py:46-52 | a field stays unset if and only if no line starts with its marker |
| `Analyzer.LastMatchWins` | app.py:48-52 | when several lines start with the marker, the value comes from the last of them |
| `Analyzer.UnmatchedFieldsAreEmpty` | app.py:46-54 | with no `SUMMARY:` line the summary is `""`, and with no `SENTIMENT:` line the sentiment is `""`; a non-empty field implies a matching line |
| `Analyzer.ParsedFromLastLines` | app.py:48-54 | each field is the marker-free, stripped text of the last line carrying its marker |
| `Analyzer.ParsedFieldsTrimmed` | app.py:50-52 | neither returned field starts or ends with whitespace |
| `Analyzer.ParseStep` | app.py:49-52 | a `SUMMARY:` line sets only the summary; a `SENTIMENT:` line sets only the sentiment; any other line changes neither field |
| `Analyzer.IndentedLineIgnored` | app.py:49-52 | a line with whitespace before the marker changes neither field |
| `Analyzer.LastValueConcat` | app.py:48-54 | for the reply `a + b`, the value comes from `b` when `b` has a matching line, and from `a` otherwise |
| `Analyzer.Relevant` | app.py:48-52 | keeps every line that starts with one of the two markers; every kept line is a marked line of the input |
| `Analyzer.RelevantConcat` | app.py:48-52 | filtering the lines of `a + b` gives the kept lines of `a` followed by those of `b`, so the kept lines stay in reply order |
| `Analyzer.OtherLinesIrrelevant` | app.py:48-54 | dropping all lines that start with neither marker leaves the result unchanged |
| `Analyzer.SwapSummaryAndSentiment` | app.py:48-54 | swapping an adjacent `SUMMARY:` line and `SENTIMENT:` line anywhere in the reply leaves the result unchanged |
| `Analyzer.ErrorCauseRecoverable` | app.py:57 | different failure causes give different failure pairs |
| `Analyzer.MarkedLineValue` | app.py:49-52 | the line `marker + " " + x` matches, and its value is `x` when `x` is trimmed and free of the marker |
| `Analyzer.LayoutLinesParsed` | app.py:48-54 | a summary line and a sentiment line, in either order, yield their two values |
| `Analyzer.RequestedLayoutParsed` | app.py:45-54 | the reply `SUMMARY: x` / `SENTIMENT: y`, in either order, is parsed into `(x, y)` |
| `Analyzer.RefundReplyParsed` | app.py:45-54 | the reply `SUMMARY: Customer requested a refund.` / `SENTIMENT: negative` gives `("Customer requested a refund.", "negative")` |
| `Analyzer.InteriorMarkerRemoved` | app.py:50 | for any texts `a` and `b`, the line `SUMMARY:` + `a` + `SUMMARY:` + `b` yields the stripped replacement of `a` followed by that of `b`: the interior marker is removed too, not only the leading one |
| `Analyzer.ErrorIndistinguishable` | app.py:45-57 | some genuine reply parses to exactly the pair a failure produces, so the two cannot be told apart |
| `Recorder.DataRow` | app.py:68-73 | a data row has one field per header column |
| `Recorder.Appended` | app.py:63-73 | a missing file acts as a header-only file: earlier rows are unchanged, the length grows by one, and the new row is last |
| `Recorder.AppendKeepsWellFormed` | app.py:63-73 | appending a four-field row to a missing or well-formed log (header first, four fields per row) keeps it well-formed |
| `Recorder.AppendAllToExisting` | app.py:61-73 | a series of appends to an existing file adds exactly those rows, in order, after the old ones |
| `Recorder.AppendAllFromMissing` | app.py:61-73 | from no file, a series of appends gives the header once at the top followed by the data rows in order |
| `Recorder.CallLog.SaveToCsv` | app.py:59-75 | returns `"call_analysis.csv"`; the file becomes `[header, row]` when it did not exist and `R + [row]` when it held `R`; a well-formed log stays well-formed |
| `Handler.FormTranscript` | app.py:83 | the transcript is empty exactly when the form field is absent or empty; otherwise it is the submitted field |
| `Handler.Analyze` | app.py:81-95 | an empty transcript gives exactly `{"error": "No transcript provided"}` and leaves the log unchanged. Otherwise the payload echoes the transcript, the analyzer's summary and sentiment, and `"call_analysis.csv"`, and exactly one row is appended |

## Left out

- The call to the generation service (app.py:24-45): the prompt text, the model name and the sampling parameters are not modelled. Its outcome is an input, `Reply(content)` or `Failure(cause)`. A reply whose content is missing, or that has no choices, raises inside the `try` block. The model covers that case as a `Failure`.
- The text of exception messages (`str(e)`): the cause is an opaque string.
- Flask routing, `render_template`, `jsonify`, `request.form` and `app.run` (app.py:1, 11, 77-79, 97-98): web plumbing. Requests are maps from field names to strings, and responses are the `Response` datatype.
- Startup configuration (app.py:8-19): loading `.env`, reading `GROQ_API_KEY` and refusing to start without it are environment I/O.
- CSV quoting and escaping, file opening and UTF-8 encoding (app.py:63-65): done by Python's `csv` module and the OS. Rows are sequences of fields, not bytes, so the round trip through a CSV reader is not modelled.
- Failure to open or write the log file: it propagates out of the handler uncaught. The model has no storage errors.
- `datetime.now()` and its `%Y-%m-%d %H:%M:%S` formatting (app.py:69): the clock is nondeterministic, so the timestamp string is a parameter.
- Concurrent requests appending to the same file: the source does no coordination, and the model handles one request at a time.
