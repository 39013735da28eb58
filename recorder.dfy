/**
 * The recorder: the append-only log `call_analysis.csv`. The file is a
 * sequence of rows of fields, or nothing at all when it does not exist yet.
 * Quoting, encoding and the bytes on disk are not modelled.
 */
module Recorder {
  import opened Options

  /** One line of the log, as its fields. */
  type Row = seq<string>

  const FileName: string := "call_analysis.csv"
  const Header: Row := ["Timestamp", "Transcript", "Summary", "Sentiment"]

  /** The data row written for one analysis, in the column order of the header. */
  function DataRow(timestamp: string, transcript: string, summary: string, sentiment: string): (row: Row)
    ensures |row| == |Header|
  {
    [timestamp, transcript, summary, sentiment]
  }

  /** The rows of the log after one append. A missing file behaves as if it held
      the header alone: every earlier row stays where it was and exactly one row,
      the new one, is added at the end. */
  function Appended(file: Option<seq<Row>>, row: Row): (rows: seq<Row>)
    ensures |rows| == |file.GetOr([Header])| + 1
    ensures rows[..|rows| - 1] == file.GetOr([Header])
    ensures rows[|rows| - 1] == row
  {
    match file
    case None => [Header, row]
    case Some(existing) => existing + [row]
  }

  /** A log this program wrote: the header, then rows with one field per column. */
  predicate WellFormed(rows: seq<Row>) {
    |rows| >= 1 && rows[0] == Header &&
    forall k :: 1 <= k < |rows| ==> |rows[k]| == |Header|
  }

  /** Appending a four-field row to a missing or well-formed log leaves it well-formed. */
  lemma AppendKeepsWellFormed(file: Option<seq<Row>>, row: Row)
    requires file.None? || WellFormed(file.value)
    requires |row| == |Header|
    ensures WellFormed(Appended(file, row))
  {
  }

  /** The log after a series of appends, one per handled request, in order. */
  function AppendAll(file: Option<seq<Row>>, rows: seq<Row>): Option<seq<Row>>
    decreases |rows|
  {
    if rows == [] then file else AppendAll(Some(Appended(file, rows[0])), rows[1..])
  }

  /** Appends to an existing log only add the new rows after the old ones. */
  lemma {:induction false} AppendAllToExisting(existing: seq<Row>, rows: seq<Row>)
    ensures AppendAll(Some(existing), rows) == Some(existing + rows)
    decreases |rows|
  {
    if rows == [] {
      assert existing + rows == existing;
    } else {
      AppendAllToExisting(existing + [rows[0]], rows[1..]);
      assert existing + [rows[0]] + rows[1..] == existing + rows;
    }
  }

  /** Starting from no file, the header is written exactly once, at the top,
      and the data rows follow in the order they were appended. */
  lemma AppendAllFromMissing(rows: seq<Row>)
    requires rows != []
    ensures AppendAll(None, rows) == Some([Header] + rows)
  {
    AppendAllToExisting([Header, rows[0]], rows[1..]);
    assert [Header, rows[0]] + rows[1..] == [Header] + rows;
  }

  /** The log file, which outlives every request. */
  class CallLog {
    var file: Option<seq<Row>>

    constructor (initial: Option<seq<Row>>)
      ensures file == initial
    {
      file := initial;
    }

    /** The file is missing or well-formed. */
    predicate WellFormedLog()
      reads this
    {
      file.None? || WellFormed(file.value)
    }

    /** Appends one data row, writing the header first when the file does not
        exist, and returns the file name. */
    method SaveToCsv(timestamp: string, transcript: string, summary: string, sentiment: string)
      returns (filename: string)
      modifies this
      ensures filename == FileName
      ensures file == Some(Appended(old(file), DataRow(timestamp, transcript, summary, sentiment)))
      ensures old(WellFormedLog()) ==> WellFormedLog()
    {
      filename := FileName;
      var fileExists := file.Some?;
      var rows := if fileExists then file.value else [];
      if !fileExists {
        rows := rows + [Header];
      }
      var row := DataRow(timestamp, transcript, summary, sentiment);
      rows := rows + [row];
      assert rows == Appended(file, row) by {
        if !fileExists { assert [] + [Header] + [row] == [Header, row]; }
      }
      if WellFormedLog() {
        AppendKeepsWellFormed(file, row);
      }
      file := Some(rows);
    }
  }
}
