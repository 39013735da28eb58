/**
 * The `POST /analyze` handler: read the transcript from the form, reject an
 * empty one, otherwise analyze it, record it and echo the result. Requests and
 * responses are plain values; the JSON encoding is not modelled.
 */
module Handler {
  import opened Options
  import opened Analyzer
  import opened Recorder

  const TranscriptField: string := "transcript"
  const NoTranscriptError: string := "No transcript provided"

  /** The JSON payload of the response. */
  datatype Response =
    | ErrorPayload(error: string)
    | ResultPayload(transcript: string, summary: string, sentiment: string, filename: string)

  /** `request.form.get('transcript', '')`: the submitted transcript, or the
      empty string when the field is absent. */
  function FormTranscript(form: map<string, string>): (t: string)
    ensures t == "" <==> TranscriptField !in form || form[TranscriptField] == ""
    ensures t != "" ==> form[TranscriptField] == t
  {
    if TranscriptField in form then form[TranscriptField] else ""
  }

  /** Handles one request. `outcome` is what the generation service answers if
      it is called, and `timestamp` the clock reading taken when the row is written. */
  method Analyze(log: CallLog, form: map<string, string>, outcome: CallOutcome, timestamp: string)
    returns (response: Response)
    modifies log
    ensures FormTranscript(form) == "" ==>
              response == ErrorPayload(NoTranscriptError) && log.file == old(log.file)
    ensures FormTranscript(form) != "" ==>
              var t, a := FormTranscript(form), Analyzed(outcome);
              response == ResultPayload(t, a.summary, a.sentiment, FileName) &&
              log.file == Some(Appended(old(log.file), DataRow(timestamp, t, a.summary, a.sentiment)))
    ensures old(log.WellFormedLog()) ==> log.WellFormedLog()
  {
    var transcript := FormTranscript(form);
    if transcript == "" {
      return ErrorPayload(NoTranscriptError);
    }
    var result := AnalyzeTranscript(outcome);
    var filename := log.SaveToCsv(timestamp, transcript, result.summary, result.sentiment);
    response := ResultPayload(transcript, result.summary, result.sentiment, filename);
  }
}
