/** The server's request handler (lambda_code/lambda_function.py,
    lambda_handler, store_input_request, store_result_in_s3,
    create_error_response): required fields, validation, date-partitioned
    storage keys, the two writes with their different failure policies,
    and the mapping of failures to HTTP status codes.

    The environment (bucket names, environment tag), the job id, the four
    clock readings, the JSON decoder, the translation backend and the
    outcome of each storage write are parameters. */
module Handler {
  import opened Common
  import opened Text
  import opened Validation
  import opened Orchestrator

  // ---------------------------------------------------------------------
  // Date-partitioned keys

  /** A calendar date as datetime.now() can produce it (4-digit years). */
  datatype Date = Date(year: nat, month: nat, day: nat)

  predicate ValidDate(d: Date) {
    1000 <= d.year <= 9999 && 1 <= d.month <= 12 && 1 <= d.day <= 31
  }

  function Pow10(w: nat): (p: nat)
    ensures p >= 1
  {
    if w == 0 then 1 else 10 * Pow10(w - 1)
  }

  predicate IsDigit(c: char) {
    '0' <= c <= '9'
  }

  function DigitChar(d: nat): (c: char)
    requires d < 10
    ensures IsDigit(c) && c as int - '0' as int == d
  {
    ('0' as int + d) as char
  }

  /** n written with exactly `width` decimal digits, zero-padded (strftime's
      %m and %d, and %Y for 4-digit years). */
  function Pad(n: nat, width: nat): (r: string)
    ensures |r| == width
    ensures forall k :: 0 <= k < width ==> IsDigit(r[k])
  {
    if width == 0 then [] else Pad(n / 10, width - 1) + [DigitChar(n % 10)]
  }

  /** The number a string of decimal digits denotes. */
  function DigitsValue(s: string): nat
    requires forall k :: 0 <= k < |s| ==> IsDigit(s[k])
  {
    if s == [] then 0
    else
      assert IsDigit(s[|s| - 1]);
      10 * DigitsValue(s[..|s| - 1]) + (s[|s| - 1] as int - '0' as int)
  }

  /** Reading back a padded number gives the number. */
  lemma {:induction false} PadRoundTrip(n: nat, width: nat)
    requires n < Pow10(width)
    ensures DigitsValue(Pad(n, width)) == n
  {
    if width > 0 {
      PadRoundTrip(n / 10, width - 1);
      var r := Pad(n, width);
      assert r[..|r| - 1] == Pad(n / 10, width - 1);
    }
  }

  /** strftime('%Y/%m/%d'). */
  function DatePath(d: Date): (p: string)
    requires ValidDate(d)
    ensures |p| == 10 && p[4] == '/' && p[7] == '/'
  {
    Pad(d.year, 4) + "/" + Pad(d.month, 2) + "/" + Pad(d.day, 2)
  }

  /** Distinct dates give distinct date paths. */
  lemma DatePathInjective(d1: Date, d2: Date)
    requires ValidDate(d1) && ValidDate(d2)
    requires DatePath(d1) == DatePath(d2)
    ensures d1 == d2
  {
    var p1, p2 := DatePath(d1), DatePath(d2);
    assert p1[..4] == Pad(d1.year, 4) && p2[..4] == Pad(d2.year, 4);
    assert p1[5..7] == Pad(d1.month, 2) && p2[5..7] == Pad(d2.month, 2);
    assert p1[8..] == Pad(d1.day, 2) && p2[8..] == Pad(d2.day, 2);
    PadRoundTrip(d1.year, 4);
    PadRoundTrip(d2.year, 4);
    PadRoundTrip(d1.month, 2);
    PadRoundTrip(d2.month, 2);
    PadRoundTrip(d1.day, 2);
    PadRoundTrip(d2.day, 2);
  }

  /** Key of the input audit document: requests/YYYY/MM/DD/<id>_request.json. */
  function InputKey(d: Date, id: string): string
    requires ValidDate(d)
  {
    "requests/" + DatePath(d) + "/" + id + "_request.json"
  }

  /** Where the parts of an input key sit. */
  lemma InputKeyShape(d: Date, id: string)
    requires ValidDate(d)
    ensures var key := InputKey(d, id);
      && |key| == 33 + |id|
      && key[..9] == "requests/" && key[9..19] == DatePath(d) && key[19] == '/'
      && key[20..20 + |id|] == id && key[20 + |id|..] == "_request.json"
  {
  }

  /** Key of the output result document: translations/YYYY/MM/DD/<id>.json. */
  function OutputKey(d: Date, id: string): string
    requires ValidDate(d)
  {
    "translations/" + DatePath(d) + "/" + id + ".json"
  }

  /** Where the parts of an output key sit. */
  lemma OutputKeyShape(d: Date, id: string)
    requires ValidDate(d)
    ensures var key := OutputKey(d, id);
      && |key| == 29 + |id|
      && key[..13] == "translations/" && key[13..23] == DatePath(d) && key[23] == '/'
      && key[24..24 + |id|] == id && key[24 + |id|..] == ".json"
  {
  }

  /** Output keys are deterministic addresses: the key determines the date
      and the job id it was built from. */
  lemma OutputKeyInjective(d1: Date, id1: string, d2: Date, id2: string)
    requires ValidDate(d1) && ValidDate(d2)
    requires OutputKey(d1, id1) == OutputKey(d2, id2)
    ensures d1 == d2 && id1 == id2
  {
    var k1, k2 := OutputKey(d1, id1), OutputKey(d2, id2);
    assert |id1| == |id2|;
    assert k1[13..23] == DatePath(d1) && k2[13..23] == DatePath(d2);
    DatePathInjective(d1, d2);
    assert k1[24..24 + |id1|] == id1 && k2[24..24 + |id2|] == id2;
  }

  /** Input keys determine their date and job id in the same way. */
  lemma InputKeyInjective(d1: Date, id1: string, d2: Date, id2: string)
    requires ValidDate(d1) && ValidDate(d2)
    requires InputKey(d1, id1) == InputKey(d2, id2)
    ensures d1 == d2 && id1 == id2
  {
    var k1, k2 := InputKey(d1, id1), InputKey(d2, id2);
    assert |id1| == |id2|;
    assert k1[9..19] == DatePath(d1) && k2[9..19] == DatePath(d2);
    DatePathInjective(d1, d2);
    assert k1[20..20 + |id1|] == id1 && k2[20..20 + |id2|] == id2;
  }

  /** The s3://bucket/key URL of a stored object. */
  function S3Url(bucket: string, key: string): string {
    "s3://" + bucket + "/" + key
  }

  /** Where the parts of an s3:// URL sit. */
  lemma S3UrlShape(bucket: string, key: string)
    ensures var url := S3Url(bucket, key);
      && |url| == 6 + |bucket| + |key|
      && url[..5] == "s3://" && url[5..5 + |bucket|] == bucket && url[5 + |bucket|] == '/'
      && url[6 + |bucket|..] == key
  {
  }

  // ---------------------------------------------------------------------
  // Persistence

  datatype Env = Env(inputBucket: string, outputBucket: string, environment: string)

  /** The readings of datetime.now() in the order the handler takes them:
      the input key's date, the audit document's timestamp, the result
      document's timestamp, the output key's date. */
  datatype Clock = Clock(inputDay: Date, auditTime: string, resultTime: string, outputDay: Date)

  datatype Document =
    | InputRecord(translationId: string, timestamp: string, request: Json, environment: string)
    | OutputRecord(translationId: string, sourceLanguage: string, timestamp: string, totalSentences: nat,
                   targetLanguages: seq<string>, environment: string, inputLocation: string,
                   translations: map<string, seq<string>>)

  datatype StoredObject = StoredObject(bucket: string, key: string, document: Document)

  /** store_input_request: best effort. A failed put is swallowed and
      reported as the empty URL; a successful one stores the audit record. */
  function StoreInputRequest(env: Env, request: Json, key: string, id: string, timestamp: string, putOk: bool)
    : (r: (string, seq<StoredObject>))
    ensures putOk ==> r.0 == S3Url(env.inputBucket, key) && |r.1| == 1 && r.1[0].bucket == env.inputBucket && r.1[0].key == key
    ensures !putOk ==> r.0 == "" && r.1 == []
  {
    if putOk then (S3Url(env.inputBucket, key), [StoredObject(env.inputBucket, key, InputRecord(id, timestamp, request, env.environment))])
    else ("", [])
  }

  /** store_result_in_s3: a failed put is re-raised to the caller. */
  function StoreResult(env: Env, doc: Document, key: string, putOk: bool): (r: Result<(string, StoredObject), string>)
    ensures r.Ok? <==> putOk
    ensures r.Ok? ==> r.value.0 == S3Url(env.outputBucket, key) && r.value.1 == StoredObject(env.outputBucket, key, doc)
  {
    if putOk then Ok((S3Url(env.outputBucket, key), StoredObject(env.outputBucket, key, doc))) else Err("S3 output storage error")
  }

  // ---------------------------------------------------------------------
  // Responses

  datatype Location = Location(bucket: string, key: string, url: string)

  datatype Summary = Summary(sourceLanguage: string, targetLanguages: seq<string>,
                             sentencesProcessed: nat, translationsGenerated: nat)

  /** The body of a response. A success carries the job id, both locations
      and a summary, but no translations: only the GUI and, when it has an
      S3 client, the interactive client read those from storage. */
  datatype Response =
    | Accepted(translationId: string, inputLocation: Location, outputLocation: Location, summary: Summary, timestamp: string)
    | Failed(code: int, message: string)
  {
    function StatusCode(): int {
      if Accepted? then 200 else code
    }

    /** The JSON document sent as the response's body. */
    function Body(): Json {
      match this
      case Accepted(translationId, inputLocation, outputLocation, summary, timestamp) =>
        JObj(map["success" := JBool(true), "translation_id" := JStr(translationId),
                 "input_location" := LocationJson(inputLocation), "output_location" := LocationJson(outputLocation),
                 "summary" := SummaryJson(summary), "timestamp" := JStr(timestamp)])
      case Failed(code, message) => ErrorBody(code, message)
    }
  }

  function LocationJson(loc: Location): Json {
    JObj(map["bucket" := JStr(loc.bucket), "key" := JStr(loc.key), "url" := JStr(loc.url)])
  }

  function SummaryJson(summary: Summary): Json {
    JObj(map["source_language" := JStr(summary.sourceLanguage),
             "target_languages" := JList(JsonStrings(summary.targetLanguages)),
             "sentences_processed" := JNum(summary.sentencesProcessed),
             "translations_generated" := JNum(summary.translationsGenerated)])
  }

  /** create_error_response: the status code, and a body with success
      false and an error object carrying the same code and the message. */
  function ErrorResponse(code: int, message: string): (r: Response)
    ensures r.Failed? && r.StatusCode() == code
    ensures r.Body() == ErrorBody(code, message)
    ensures r.Body().fields["success"] == JBool(false)
    ensures r.Body().fields["error"].fields["code"] == JNum(code)
    ensures r.Body().fields["error"].fields["message"] == JStr(message)
  {
    Failed(code, message)
  }

  /** The JSON body of an error response; the timestamp is not modelled. */
  function ErrorBody(code: int, message: string): Json {
    JObj(map["success" := JBool(false), "error" := JObj(map["code" := JNum(code), "message" := JStr(message)])])
  }

  const InvalidJsonMessage := "Invalid JSON in request body"
  const InternalErrorMessage := "Internal server error"
  function MissingFieldMessage(field: string): string {
    "Missing required field: " + field
  }

  const RequiredFields: seq<string> := ["source_language", "target_languages", "sentences"]

  /** The request data: the decoded body when it is a string, the body itself
      when it is already a value, the whole event when there is no body.
      None when the body is not valid JSON. */
  function RequestData(event: map<string, Json>, parseJson: string -> Option<Json>): (r: Option<Json>)
    ensures "body" !in event ==> r == Some(JObj(event))
    ensures "body" in event && event["body"].JStr? ==> r == parseJson(event["body"].s)
    ensures "body" in event && !event["body"].JStr? ==> r == Some(event["body"])
    ensures r.None? ==> "body" in event && event["body"].JStr?
  {
    if "body" in event then
      if event["body"].JStr? then parseJson(event["body"].s) else Some(event["body"])
    else Some(JObj(event))
  }

  /** Python's `field in data`: dictionary keys, list elements, substrings;
      None when the membership test itself raises (numbers, booleans, null). */
  function HasField(data: Json, field: string): Option<bool> {
    match data
    case JObj(fields) => Some(field in fields)
    case JList(items) => Some(JStr(field) in items)
    case JStr(s) => Some(Contains(s, field))
    case _ => None
  }

  /** The required-field loop: the first field that is absent, None when all
      are present, Err when the membership test raises. */
  function FirstMissingField(data: Json, fields: seq<string>): (r: Result<Option<string>, string>)
    ensures data.JObj? ==> r.Ok?
    ensures data.JObj? ==> (r == Ok(None) <==> forall k :: 0 <= k < |fields| ==> fields[k] in data.fields)
    ensures r.Ok? && r.value.Some? ==>
      exists k :: 0 <= k < |fields| && fields[k] == r.value.value && HasField(data, fields[k]) == Some(false) &&
        forall j :: 0 <= j < k ==> HasField(data, fields[j]) == Some(true)
  {
    if fields == [] then Ok(None)
    else match HasField(data, fields[0])
      case None => Err("TypeError")
      case Some(false) => Ok(Some(fields[0]))
      case Some(true) =>
        var r := FirstMissingField(data, fields[1..]);
        assert forall k :: 1 <= k < |fields| ==> fields[k] == fields[1..][k - 1];
        r
  }

  function Strings(items: seq<Json>): (r: seq<string>)
    requires forall k :: 0 <= k < |items| ==> items[k].JStr?
    ensures |r| == |items| && forall k :: 0 <= k < |items| ==> r[k] == items[k].s
  {
    seq(|items|, k requires 0 <= k < |items| => items[k].s)
  }

  /** Sending strings as JSON strings and reading them back loses nothing. */
  lemma StringsOfJsonStrings(lines: seq<string>)
    ensures Strings(JsonStrings(lines)) == lines
  {
  }

  /** Python's sum(len(translations[lang]) for lang in translations), the
      dictionary's keys taken in insertion order. */
  function SumLengths(m: map<string, seq<string>>, keys: seq<string>): nat
    requires forall k :: 0 <= k < |keys| ==> keys[k] in m
  {
    if keys == [] then 0 else |m[keys[0]]| + SumLengths(m, keys[1..])
  }

  lemma {:induction false} SumOfEqualLengths(m: map<string, seq<string>>, keys: seq<string>, n: nat)
    requires forall k :: 0 <= k < |keys| ==> keys[k] in m && |m[keys[k]]| == n
    ensures SumLengths(m, keys) == n * |keys|
  {
    if keys != [] {
      SumOfEqualLengths(m, keys[1..], n);
    }
  }

  /** A request that passed the field and validation checks: its parts. */
  predicate Admitted(data: Json) {
    && data.JObj?
    && "source_language" in data.fields && "target_languages" in data.fields && "sentences" in data.fields
    && ValidateInput(data.fields["source_language"], data.fields["target_languages"], data.fields["sentences"]).None?
  }

  /** The three fields of an admitted request. */
  function SourceOf(data: Json): string
    requires Admitted(data)
  {
    data.fields["source_language"].s
  }

  function TargetsOf(data: Json): seq<string>
    requires Admitted(data)
  {
    Strings(data.fields["target_languages"].items)
  }

  function SentencesOf(data: Json): seq<string>
    requires Admitted(data)
  {
    Strings(data.fields["sentences"].items)
  }

  datatype HandlerOutcome = HandlerOutcome(response: Response, stored: seq<StoredObject>)

  /** On a dictionary the required-field loop reports the first absent
      field in the order source_language, target_languages, sentences. */
  lemma FirstMissingOfObject(fields: map<string, Json>)
    ensures FirstMissingField(JObj(fields), RequiredFields) ==
      if "source_language" !in fields then Ok(Some("source_language"))
      else if "target_languages" !in fields then Ok(Some("target_languages"))
      else if "sentences" !in fields then Ok(Some("sentences"))
      else Ok(None)
  {
    var data := JObj(fields);
    var last: seq<string> := ["sentences"];
    var tail: seq<string> := ["target_languages", "sentences"];
    assert last[1..] == [];
    assert FirstMissingField(data, last) == if "sentences" !in fields then Ok(Some("sentences")) else Ok(None);
    assert tail[1..] == last;
    assert FirstMissingField(data, tail) ==
      if "target_languages" !in fields then Ok(Some("target_languages")) else FirstMissingField(data, last);
    assert RequiredFields[1..] == tail;
  }

  /** The checks lambda_handler makes before any work: a decodable body,
      the three required fields in order, a dictionary, validate_input.
      Ok carries the admitted request; Err the error response. */
  function Intake(event: map<string, Json>, parseJson: string -> Option<Json>): (r: Result<Json, Response>)
    ensures r.Ok? <==> RequestData(event, parseJson).Some? && Admitted(RequestData(event, parseJson).value)
    ensures r.Ok? ==> r.value == RequestData(event, parseJson).value
    ensures r.Err? ==> r.error.Failed? && r.error.code in {400, 500}
    ensures RequestData(event, parseJson).None? ==> r == Err(Failed(400, InvalidJsonMessage))
    ensures RequestData(event, parseJson).Some? && RequestData(event, parseJson).value.JObj? ==>
      var fields := RequestData(event, parseJson).value.fields;
      && ("source_language" !in fields ==> r == Err(Failed(400, MissingFieldMessage("source_language"))))
      && ("source_language" in fields && "target_languages" !in fields ==>
            r == Err(Failed(400, MissingFieldMessage("target_languages"))))
      && ("source_language" in fields && "target_languages" in fields && "sentences" !in fields ==>
            r == Err(Failed(400, MissingFieldMessage("sentences"))))
      && ("source_language" in fields && "target_languages" in fields && "sentences" in fields &&
          ValidateInput(fields["source_language"], fields["target_languages"], fields["sentences"]).Some? ==>
            r == Err(Failed(400, ValidateInput(fields["source_language"], fields["target_languages"], fields["sentences"]).value)))
  {
    match RequestData(event, parseJson)
    case None => Err(ErrorResponse(400, InvalidJsonMessage))
    case Some(data) =>
      match FirstMissingField(data, RequiredFields)
      case Err(_) => Err(ErrorResponse(500, InternalErrorMessage))
      case Ok(Some(field)) =>
        if data.JObj? then FirstMissingOfObject(data.fields); Err(ErrorResponse(400, MissingFieldMessage(field)))
        else Err(ErrorResponse(400, MissingFieldMessage(field)))
      case Ok(None) =>
        if !data.JObj? then
          // data['source_language'] on a list or a string raises TypeError
          Err(ErrorResponse(500, InternalErrorMessage))
        else
          assert RequiredFields[0] in data.fields && RequiredFields[1] in data.fields && RequiredFields[2] in data.fields;
          var source, targets, sentences := data.fields["source_language"], data.fields["target_languages"], data.fields["sentences"];
          match ValidateInput(source, targets, sentences)
          case Some(message) => Err(ErrorResponse(400, message))
          case None => Ok(data)
  }

  /** The work done for an admitted request: audit write, translation,
      result write, response. */
  function Run(data: Json, env: Env, clock: Clock, id: string, backend: Backend, inputPutOk: bool, outputPutOk: bool)
    : (o: HandlerOutcome)
    requires Admitted(data)
    requires ValidDate(clock.inputDay) && ValidDate(clock.outputDay)
    ensures o.response.Accepted? <==> outputPutOk
    ensures !outputPutOk ==> o.response == Failed(500, InternalErrorMessage)
    ensures o.response.Accepted? ==> o.response.translationId == id
  {
    var src, langs, texts := SourceOf(data), TargetsOf(data), SentencesOf(data);
    var inputKey := InputKey(clock.inputDay, id);
    var (_, audit) := StoreInputRequest(env, data, inputKey, id, clock.auditTime, inputPutOk);
    var translations := Expected(src, langs, texts, backend);
    var inputUrl := S3Url(env.inputBucket, inputKey);
    var doc := OutputRecord(id, src, clock.resultTime, |texts|, langs, env.environment, inputUrl, translations);
    var outputKey := OutputKey(clock.outputDay, id);
    match StoreResult(env, doc, outputKey, outputPutOk)
    case Err(_) => HandlerOutcome(ErrorResponse(500, InternalErrorMessage), audit)
    case Ok((url, written)) =>
      var summary := Summary(src, langs, |texts|, SumLengths(translations, Dedup(langs)));
      HandlerOutcome(
        Accepted(id, Location(env.inputBucket, inputKey, inputUrl), Location(env.outputBucket, outputKey, url),
                 summary, clock.resultTime),
        audit + [written])
  }

  /** lambda_handler: accepted exactly when the request is admitted and
      the result document is written; client errors store nothing. */
  function LambdaHandler(event: map<string, Json>, parseJson: string -> Option<Json>, env: Env, clock: Clock,
                         id: string, backend: Backend, inputPutOk: bool, outputPutOk: bool): (o: HandlerOutcome)
    requires ValidDate(clock.inputDay) && ValidDate(clock.outputDay)
    ensures o.response.StatusCode() in {200, 400, 500}
    ensures o.response.StatusCode() == 400 ==> o.stored == []
    ensures o.response.Accepted? <==>
      RequestData(event, parseJson).Some? && Admitted(RequestData(event, parseJson).value) && outputPutOk
    ensures o.response.Accepted? ==> o.response.translationId == id
  {
    match Intake(event, parseJson)
    case Err(response) => HandlerOutcome(response, [])
    case Ok(data) => Run(data, env, clock, id, backend, inputPutOk, outputPutOk)
  }

  /** The audit write is best effort: whether it succeeds changes what is
      stored, never the response. */
  lemma InputAuditBestEffort(event: map<string, Json>, parseJson: string -> Option<Json>, env: Env, clock: Clock,
                             id: string, backend: Backend, outputPutOk: bool)
    requires ValidDate(clock.inputDay) && ValidDate(clock.outputDay)
    ensures LambdaHandler(event, parseJson, env, clock, id, backend, true, outputPutOk).response
         == LambdaHandler(event, parseJson, env, clock, id, backend, false, outputPutOk).response
  {
  }

  /** A failed result write is fatal: an admitted request then gets 500
      "Internal server error", with at most the audit record stored. */
  lemma OutputWriteFatal(event: map<string, Json>, parseJson: string -> Option<Json>, env: Env, clock: Clock,
                         id: string, backend: Backend, inputPutOk: bool)
    requires ValidDate(clock.inputDay) && ValidDate(clock.outputDay)
    requires RequestData(event, parseJson).Some? && Admitted(RequestData(event, parseJson).value)
    ensures var o := LambdaHandler(event, parseJson, env, clock, id, backend, inputPutOk, false);
      && o.response == Failed(500, InternalErrorMessage)
      && |o.stored| == (if inputPutOk then 1 else 0)
      && forall k :: 0 <= k < |o.stored| ==> o.stored[k].document.InputRecord?
  {
  }

  /** What an accepted job stored and reported: the result document at the
      date-partitioned output key holding one row per distinct target, each
      as long as the sentence list; the summary counts N sentences and N
      times the number of distinct targets translations. */
  lemma AcceptedJob(event: map<string, Json>, parseJson: string -> Option<Json>, env: Env, clock: Clock,
                    id: string, backend: Backend, inputPutOk: bool)
    requires ValidDate(clock.inputDay) && ValidDate(clock.outputDay)
    requires RequestData(event, parseJson).Some? && Admitted(RequestData(event, parseJson).value)
    ensures var data := RequestData(event, parseJson).value;
      var o := LambdaHandler(event, parseJson, env, clock, id, backend, inputPutOk, true);
      var n := |SentencesOf(data)|;
      && o.response.Accepted?
      && o.response.outputLocation == Location(env.outputBucket, OutputKey(clock.outputDay, id),
                                               S3Url(env.outputBucket, OutputKey(clock.outputDay, id)))
      && o.response.inputLocation.key == InputKey(clock.inputDay, id)
      && o.response.summary.sentencesProcessed == n
      && o.response.summary.translationsGenerated == n * |Dedup(TargetsOf(data))|
      && |o.stored| == (if inputPutOk then 2 else 1)
      && o.stored[|o.stored| - 1].key == OutputKey(clock.outputDay, id)
      && o.stored[|o.stored| - 1].document.OutputRecord?
      && o.stored[|o.stored| - 1].document.translations == Expected(SourceOf(data), TargetsOf(data), SentencesOf(data), backend)
  {
    var data := RequestData(event, parseJson).value;
    var langs := TargetsOf(data);
    var m := Expected(SourceOf(data), langs, SentencesOf(data), backend);
    var keys := Dedup(langs);
    SumOfEqualLengths(m, keys, |SentencesOf(data)|);
  }

  /** With distinct targets the count is N times the number of targets; a
      repeated target is counted once, because its list is rebuilt rather
      than extended. */
  lemma TranslationsGeneratedCount(targets: seq<string>, n: nat)
    ensures n * |Dedup(targets)| == n * |targets| <==> n == 0 || NoDup(targets)
  {
    DedupKeepsLength(targets);
    MulCancel(n, |Dedup(targets)|, |targets|);
  }

  lemma MulCancel(n: nat, a: nat, b: nat)
    requires a <= b
    ensures n * a == n * b <==> n == 0 || a == b
  {
    if n > 0 && a < b {
      assert n * b == n * a + n * (b - a);
    }
  }
}
