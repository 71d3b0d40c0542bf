/** The scripted command-line client (cli/translation_cli.py): the
    connection test's verdict, the report of a failed request, reading
    sentences from a file and sending a large file in batches. History
    commands use the shared ledger. */
module TranslationCli {
  import opened Common
  import opened Text
  import opened Validation
  import opened Orchestrator
  import opened Handler
  import opened Batching
  import opened Ledger

  /** _test_connection: the minimal request's status is 200 or 400; any
      exception (None) means failure. */
  function TestConnection(status: Option<int>): (ok: bool)
    ensures ok ==> status.Some?
    ensures status == Some(200) || status == Some(400) ==> ok
    ensures status.Some? && status.value != 200 && status.value != 400 ==> !ok
  {
    status.Some? && (status.value == 200 || status.value == 400)
  }

  /** The minimal request the connection test sends. */
  const TestPayload: Json := JObj(map["source_language" := JStr("en"),
                                      "target_languages" := JList([JStr("es")]),
                                      "sentences" := JList([JStr("test")])])

  lemma TestPayloadAdmitted()
    ensures Admitted(TestPayload)
  {
    var f := TestPayload.fields;
    assert !IsSpace("test"[0]);
    assert Strip("test") != [];
    assert WellFormedRequest(f["source_language"], f["target_languages"], f["sentences"]);
  }

  /** Against this server the test's request is always admitted, so the test
      passes exactly when the server can write the result document: a 500
      from a failed write is reported as a failed connection. */
  lemma TestConnectionReflectsStorage(text: string, parseJson: string -> Option<Json>, env: Env, clock: Clock,
                                      id: string, backend: Backend, inputPutOk: bool, outputPutOk: bool)
    requires parseJson(text) == Some(TestPayload)
    requires ValidDate(clock.inputDay) && ValidDate(clock.outputDay)
    ensures var o := LambdaHandler(map["body" := JStr(text)], parseJson, env, clock, id, backend, inputPutOk, outputPutOk);
      TestConnection(Some(o.response.StatusCode())) <==> outputPutOk
  {
    TestPayloadAdmitted();
    var event := map["body" := JStr(text)];
    assert RequestData(event, parseJson) == Some(TestPayload);
    if !outputPutOk {
      OutputWriteFatal(event, parseJson, env, clock, id, backend, inputPutOk);
    }
  }

  /** The body of a non-200 response as the client finds it. */
  datatype ReplyBody = Empty | Undecodable | Decoded(value: Json)

  /** What the client does with a non-200 response before exiting. */
  datatype FailureReport = Reported(message: Json) | BadFormat | Crashed

  const UnknownErrorMessage := "Unknown error"

  /** translate's non-200 branch: the body's error.message, "Unknown error"
      when there is no body or no message; a body that does not decode ends
      the program (as a network error or as an invalid response format,
      depending on the version of the HTTP library); one that is not an
      object (or whose error is not an object) raises. */
  function ReportFailure(body: ReplyBody): (r: FailureReport)
    ensures body.Empty? ==> r == Reported(JStr(UnknownErrorMessage))
    ensures body.Undecodable? <==> r.BadFormat?
    ensures body.Decoded? && !body.value.JObj? ==> r.Crashed?
    ensures body.Decoded? && body.value.JObj? && ("error" !in body.value.fields || body.value.fields["error"].JObj?) ==> r.Reported?
    ensures body.Decoded? && body.value.JObj? && "error" in body.value.fields && !body.value.fields["error"].JObj? ==> r.Crashed?
    ensures r.Reported? && body.Decoded? ==>
      var m := body.value.fields;
      ("error" in m && m["error"].JObj? && "message" in m["error"].fields && r.message == m["error"].fields["message"])
      || (r.message == JStr(UnknownErrorMessage) && ("error" !in m || (m["error"].JObj? && "message" !in m["error"].fields)))
  {
    match body
    case Empty => Reported(JStr(UnknownErrorMessage))
    case Undecodable => BadFormat
    case Decoded(v) =>
      if !v.JObj? then Crashed
      else
        var error := if "error" in v.fields then v.fields["error"] else JObj(map[]);
        if !error.JObj? then Crashed
        else if "message" in error.fields then Reported(error.fields["message"])
        else Reported(JStr(UnknownErrorMessage))
  }

  /** Every error the server sends is reported with the server's own
      message. */
  lemma ServerErrorsReportedVerbatim(code: int, message: string)
    ensures ReportFailure(Decoded(ErrorBody(code, message))) == Reported(JStr(message))
  {
    var body := ErrorBody(code, message);
    assert "error" in body.fields;
    assert "message" in body.fields["error"].fields;
  }

  /** Whatever request reaches this server, a reply other than 200 is an
      error response, and the client reports the server's own message. */
  lemma HandlerErrorsReportedVerbatim(event: map<string, Json>, parseJson: string -> Option<Json>, env: Env, clock: Clock,
                                      id: string, backend: Backend, inputPutOk: bool, outputPutOk: bool)
    requires ValidDate(clock.inputDay) && ValidDate(clock.outputDay)
    ensures var o := LambdaHandler(event, parseJson, env, clock, id, backend, inputPutOk, outputPutOk);
      o.response.StatusCode() != 200 ==>
        o.response.Failed? && ReportFailure(Decoded(o.response.Body())) == Reported(JStr(o.response.message))
  {
    var o := LambdaHandler(event, parseJson, env, clock, id, backend, inputPutOk, outputPutOk);
    if o.response.Failed? {
      ServerErrorsReportedVerbatim(o.response.code, o.response.message);
    }
  }

  /** How translate_file reads its input: the file is missing, is not
      valid JSON, or gives the value the rest of translate_file goes on
      with. */
  datatype FileSentences =
    | NoSuchFile
    | InvalidJson
    | Sentences(value: Json)

  /** translate_file's reading step: a JSON list as it is; a JSON object
      with a "sentences" field, that field's value whatever it is; any other
      JSON value, the one sentence str(value) (`show` stands for str); a
      text file, its stripped non-blank lines ('#' lines kept). */
  function ReadSentences(file: InputFile, show: Json -> string): (r: FileSentences)
    ensures file.MissingFile? <==> r.NoSuchFile?
    ensures file.JsonFile? && file.parsed.None? <==> r.InvalidJson?
    ensures file.TextFile? ==> r == Sentences(JList(JsonStrings(KeptLines(Split(file.content, '\n'), false))))
    ensures file.JsonFile? && file.parsed.Some? ==>
      var data := file.parsed.value;
      && (data.JList? ==> r == Sentences(data))
      && (data.JObj? && "sentences" in data.fields ==> r == Sentences(data.fields["sentences"]))
      && (!data.JList? && !(data.JObj? && "sentences" in data.fields) ==> r == Sentences(JList([JStr(show(data))])))
  {
    match file
    case MissingFile => NoSuchFile
    case JsonFile(None) => InvalidJson
    case JsonFile(Some(data)) =>
      if data.JList? then Sentences(data)
      else if data.JObj? && "sentences" in data.fields then Sentences(data.fields["sentences"])
      else Sentences(JList([JStr(show(data))]))
    case TextFile(content) => Sentences(JList(JsonStrings(KeptLines(Split(content, '\n'), false))))
  }

  /** A file written one sentence per line is read back as those sentences,
      '#' lines included. */
  lemma TextFileRoundTrip(sentences: seq<string>, show: Json -> string)
    requires forall k :: 0 <= k < |sentences| ==>
      '\n' !in sentences[k] && Strip(sentences[k]) == sentences[k] && sentences[k] != []
    ensures ReadSentences(TextFile(Join(sentences, '\n')), show)
         == Sentences(JList(JsonStrings(sentences)))
  {
    OneSentencePerLineRoundTrip(sentences, false);
  }

  /** What translate_file ends with. */
  datatype FileRun =
    | NoSentences
    | RangeError
    | Batched(outcome: SendOutcome<Json>)
    | SingleResult(reply: Option<Json>)

  /** translate_file's sending step. `send` stands for translate: the
      result of one request, None when it ends the program. An empty list is
      an error exit; a list longer than batchSize goes in slices, in order,
      with a pause between consecutive ones; otherwise one request. A batch
      size of 0 makes range() raise; a negative one sends nothing. */
  method TranslateFile(sentences: seq<Json>, batchSize: int, send: seq<Json> -> Option<Json>)
    returns (run: FileRun, trace: seq<Step<Json>>)
    ensures sentences == [] ==> run == NoSentences && trace == []
    ensures sentences != [] && |sentences| <= batchSize ==> run == SingleResult(send(sentences)) && trace == [Send(sentences)]
    ensures sentences != [] && batchSize == 0 ==> run == RangeError && trace == []
    ensures sentences != [] && batchSize < 0 ==> run == Batched(Answered([])) && trace == []
    ensures 0 < batchSize < |sentences| ==>
      var batches := Slices(sentences, batchSize);
      && run == Batched(SendAll(batches, send))
      && (run.outcome.Answered? ==> trace == Schedule(batches))
      && (run.outcome.Stopped? ==> run.outcome.at < |batches| && trace == Schedule(batches[..run.outcome.at + 1]))
  {
    trace := [];
    if sentences == [] {
      return NoSentences, trace;
    }
    if |sentences| <= batchSize {
      trace := [Send(sentences)];
      return SingleResult(send(sentences)), trace;
    }
    if batchSize == 0 {
      return RangeError, trace;
    }
    if batchSize < 0 {
      return Batched(Answered([])), trace;
    }
    var outcome;
    outcome, trace := SendBatches(sentences, batchSize, send);
    run := Batched(outcome);
  }
}
