/** The desktop client (cli/translation_gui.py): reading the sentence box
    and the target-language choices, resolving the source language, finding
    the result's bucket, and the record it saves. Its polls are in Polling
    and its history views in Ledger. */
module TranslationGui {
  import opened Common
  import opened Text
  import opened Handler
  import opened Ledger
  import Validation

  const InputPlaceholder := "Enter sentences to translate, one per line..."
  const AdditionalPlaceholder := "e.g., it,pt,fr"

  // ---------------------------------------------------------------------
  // Sentences

  /** The sentences the box holds: none for the untouched placeholder,
      otherwise its stripped non-blank lines, '#' lines included. */
  function InputSentences(text: string): (r: seq<string>) {
    if text == InputPlaceholder then [] else KeptLines(Split(text, '\n'), false)
  }

  /** get_input_sentences. */
  method GetInputSentences(text: string) returns (sentences: seq<string>)
    ensures sentences == InputSentences(text)
    ensures forall k :: 0 <= k < |sentences| ==> sentences[k] != [] && Strip(sentences[k]) == sentences[k]
  {
    if text == InputPlaceholder {
      return [];
    }
    sentences := [];
    var lines := Split(text, '\n');
    for i := 0 to |lines|
      invariant sentences == KeptLines(lines[..i], false)
    {
      var line := Strip(lines[i]);
      assert lines[..i + 1][..i] == lines[..i];
      if line != [] {
        sentences := sentences + [line];
      }
    }
    assert lines[..|lines|] == lines;
  }

  /** No sentence the box yields is refused by the server as blank. */
  lemma BoxSentencesNeverBlank(text: string)
    ensures forall k :: 0 <= k < |InputSentences(text)| ==>
      Validation.SentenceFault(JStr(InputSentences(text)[k])) != Some(Validation.BlankSentenceMessage)
  {
    var s := InputSentences(text);
    forall k | 0 <= k < |s|
      ensures Validation.SentenceFault(JStr(s[k])) != Some(Validation.BlankSentenceMessage)
    {
      assert Strip(s[k]) == s[k] && s[k] != [];
    }
  }

  /** Sentences typed one per line come back as typed. */
  lemma BoxRoundTrip(sentences: seq<string>)
    requires forall k :: 0 <= k < |sentences| ==>
      '\n' !in sentences[k] && Strip(sentences[k]) == sentences[k] && sentences[k] != []
    ensures Join(sentences, '\n') != InputPlaceholder ==> InputSentences(Join(sentences, '\n')) == sentences
  {
    assert forall k :: 0 <= k < |sentences| ==> KeepLine(sentences[k], false);
    OneSentencePerLineRoundTrip(sentences, false);
  }

  // ---------------------------------------------------------------------
  // Target languages

  /** A target-language check box: its code and whether it is ticked. */
  datatype Box = Box(code: string, ticked: bool)

  function Codes(boxes: seq<Box>): (r: seq<string>)
    ensures |r| == |boxes| && forall k :: 0 <= k < |boxes| ==> r[k] == boxes[k].code
  {
    seq(|boxes|, k requires 0 <= k < |boxes| => boxes[k].code)
  }

  /** The ticked boxes' codes, in the boxes' order. */
  function Ticked(boxes: seq<Box>): (r: seq<string>)
    ensures forall k :: 0 <= k < |boxes| && boxes[k].ticked ==> boxes[k].code in r
    ensures forall x :: x in r ==> x in Codes(boxes)
    ensures NoDup(Codes(boxes)) ==> NoDup(r)
    ensures |boxes| == 1 ==> r == (if boxes[0].ticked then [boxes[0].code] else [])
  {
    if boxes == [] then []
    else
      var init := boxes[..|boxes| - 1];
      var last := boxes[|boxes| - 1];
      var r := Ticked(init);
      assert Codes(init) == Codes(boxes)[..|boxes| - 1];
      assert forall k :: 0 <= k < |init| ==> init[k] == boxes[k];
      if last.ticked then
        assert NoDup(Codes(boxes)) ==> last.code !in r;
        r + [last.code]
      else r
  }

  /** Only ticked boxes contribute: every code in the result is the code
      of a ticked box. */
  lemma {:induction false} TickedOnlyTicked(boxes: seq<Box>)
    ensures forall x :: x in Ticked(boxes) ==> exists k :: 0 <= k < |boxes| && boxes[k].ticked && boxes[k].code == x
  {
    if boxes != [] {
      var init := boxes[..|boxes| - 1];
      TickedOnlyTicked(init);
      assert forall k :: 0 <= k < |init| ==> init[k] == boxes[k];
    }
  }

  /** The loop's step: the box at i adds its code when ticked. */
  lemma TickedPrefixStep(boxes: seq<Box>, i: nat)
    requires i < |boxes|
    ensures Ticked(boxes[..i + 1]) == if boxes[i].ticked then Ticked(boxes[..i]) + [boxes[i].code] else Ticked(boxes[..i])
  {
    assert boxes[..i + 1][..i] == boxes[..i];
  }

  /** Ticking is read box by box: the ticked codes of two runs of boxes
      are those of the first run followed by those of the second, so the
      result keeps the boxes' order. */
  lemma {:induction false} TickedAppend(a: seq<Box>, b: seq<Box>)
    ensures Ticked(a + b) == Ticked(a) + Ticked(b)
    decreases |b|
  {
    if b == [] {
      assert a + b == a;
    } else {
      var init := b[..|b| - 1];
      TickedAppend(a, init);
      assert (a + b)[..|a + b| - 1] == a + init;
      assert (a + b)[|a + b| - 1] == b[|b| - 1];
    }
  }

  /** The codes typed into the additional-languages field: its parts
      between commas, stripped and lowercased; none when the field is blank
      or still shows its placeholder. */
  function Extras(additional: string): (r: seq<string>) {
    var a := Strip(additional);
    if a == [] || a == AdditionalPlaceholder then []
    else
      var parts := Split(a, ',');
      seq(|parts|, k requires 0 <= k < |parts| => Lower(Strip(parts[k])))
  }

  /** The selection after appending, in order, each non-empty extra code
      not already selected. */
  function AddNew(selected: seq<string>, extras: seq<string>): (r: seq<string>)
    ensures |selected| <= |r| && r[..|selected|] == selected
    ensures NoDup(selected) ==> NoDup(r)
    ensures forall x :: x in r ==> x in selected || (x in extras && x != [])
    ensures forall j :: 0 <= j < |extras| && extras[j] != [] ==> extras[j] in r
  {
    if extras == [] then selected
    else
      var init := extras[..|extras| - 1];
      var x := extras[|extras| - 1];
      var s := AddNew(selected, init);
      assert forall j :: 0 <= j < |init| ==> init[j] == extras[j];
      if x != [] && x !in s then
        assert (s + [x])[..|selected|] == s[..|selected|];
        s + [x]
      else s
  }

  /** Typed codes are taken one after another: adding two runs of extras
      is adding the first and then the second, so extras keep their typed
      order. */
  lemma {:induction false} AddNewAppend(selected: seq<string>, e1: seq<string>, e2: seq<string>)
    ensures AddNew(selected, e1 + e2) == AddNew(AddNew(selected, e1), e2)
    decreases |e2|
  {
    if e2 == [] {
      assert e1 + e2 == e1;
    } else {
      var init := e2[..|e2| - 1];
      AddNewAppend(selected, e1, init);
      assert (e1 + e2)[..|e1 + e2| - 1] == e1 + init;
      assert (e1 + e2)[|e1 + e2| - 1] == e2[|e2| - 1];
    }
  }

  /** One more typed code is appended when non-empty and new; with no
      earlier extras this is the one-extra case. */
  lemma AddNewSnoc(selected: seq<string>, extras: seq<string>, x: string)
    ensures AddNew(selected, extras + [x]) ==
      (if x != [] && x !in AddNew(selected, extras) then AddNew(selected, extras) + [x] else AddNew(selected, extras))
  {
    assert (extras + [x])[..|extras|] == extras;
  }

  /** The loop's step: the extra at i is appended when non-empty and new. */
  lemma AddNewPrefixStep(selected: seq<string>, extras: seq<string>, i: nat)
    requires i < |extras|
    ensures AddNew(selected, extras[..i + 1]) ==
      (if extras[i] != [] && extras[i] !in AddNew(selected, extras[..i])
       then AddNew(selected, extras[..i]) + [extras[i]] else AddNew(selected, extras[..i]))
  {
    assert extras[..i + 1][..i] == extras[..i];
  }

  /** The target languages get_selected_target_languages returns. */
  function SelectedTargets(boxes: seq<Box>, additional: string): seq<string> {
    AddNew(Ticked(boxes), Extras(additional))
  }

  /** With distinct box codes (they are a dictionary's keys) the selection
      has no repeated language; the ticked codes come first, in box order,
      and every typed code is in it. */
  lemma SelectionDistinct(boxes: seq<Box>, additional: string)
    requires NoDup(Codes(boxes))
    ensures var r := SelectedTargets(boxes, additional);
      && NoDup(r)
      && r[..|Ticked(boxes)|] == Ticked(boxes)
      && forall j :: 0 <= j < |Extras(additional)| && Extras(additional)[j] != [] ==> Extras(additional)[j] in r
  {
  }

  /** get_selected_target_languages. */
  method GetSelectedTargetLanguages(boxes: seq<Box>, additional: string) returns (selected: seq<string>)
    ensures selected == SelectedTargets(boxes, additional)
  {
    selected := [];
    for i := 0 to |boxes|
      invariant selected == Ticked(boxes[..i])
    {
      TickedPrefixStep(boxes, i);
      if boxes[i].ticked {
        selected := selected + [boxes[i].code];
      }
    }
    assert boxes[..|boxes|] == boxes;
    ghost var ticked := selected;
    var a := Strip(additional);
    if a != [] && a != AdditionalPlaceholder {
      var parts := Split(a, ',');
      ghost var extras := Extras(additional);
      for i := 0 to |parts|
        invariant selected == AddNew(ticked, extras[..i])
      {
        var lang := Lower(Strip(parts[i]));
        AddNewPrefixStep(ticked, extras, i);
        if lang != [] && lang !in selected {
          selected := selected + [lang];
        }
      }
      assert extras[..|parts|] == extras;
    }
  }

  // ---------------------------------------------------------------------
  // Source language

  /** The source drop-down's entries: each code and the name shown for it,
      in dictionary order. */
  const LanguageNames: seq<(string, string)> := [
    ("en", "English 🇺🇸"), ("es", "Spanish 🇪🇸"), ("fr", "French 🇫🇷"), ("de", "German 🇩🇪"),
    ("it", "Italian 🇮🇹"), ("pt", "Portuguese 🇵🇹"), ("ru", "Russian 🇷🇺"), ("zh", "Chinese 🇨🇳"),
    ("ja", "Japanese 🇯🇵"), ("ko", "Korean 🇰🇷"), ("ar", "Arabic 🇸🇦"), ("hi", "Hindi 🇮🇳"),
    ("tr", "Turkish 🇹🇷"), ("pl", "Polish 🇵🇱"), ("nl", "Dutch 🇳🇱")]

  /** Every drop-down entry has a code. */
  lemma LanguageCodesNonEmpty()
    ensures forall k :: 0 <= k < |LanguageNames| ==> |LanguageNames[k].0| == 2
  {
  }

  /** The code of the first entry shown with this name. */
  function CodeForName(table: seq<(string, string)>, name: string): (r: Option<string>)
    ensures r.None? <==> forall k :: 0 <= k < |table| ==> table[k].1 != name
    ensures r.Some? ==> exists k :: 0 <= k < |table| && table[k].1 == name && table[k].0 == r.value &&
                                    forall j :: 0 <= j < k ==> table[j].1 != name
    ensures r.Some? && (forall k :: 0 <= k < |table| ==> |table[k].0| == 2) ==> |r.value| == 2
  {
    if table == [] then None
    else if table[0].1 == name then Some(table[0].0)
    else
      var r := CodeForName(table[1..], name);
      assert forall k :: 1 <= k < |table| ==> table[k] == table[1..][k - 1];
      if r.Some? then
        ghost var k :| 0 <= k < |table[1..]| && table[1..][k].1 == name && table[1..][k].0 == r.value &&
                       forall j :: 0 <= j < k ==> table[1..][j].1 != name;
        assert table[k + 1].1 == name;
        r
      else r
  }

  /** start_translation's source code: the code of a chosen drop-down
      name, otherwise the typed value lowercased and stripped; nothing (a
      warning) when that is empty. */
  function ResolveSourceCode(value: string): (r: Option<string>)
    ensures r.Some? ==> r.value != []
    ensures CodeForName(LanguageNames, value).Some? ==> r == CodeForName(LanguageNames, value)
    ensures CodeForName(LanguageNames, value).None? ==>
      r == (if Lower(Strip(value)) == [] then None else Some(Lower(Strip(value))))
  {
    match CodeForName(LanguageNames, value)
    case Some(code) =>
      LanguageCodesNonEmpty();
      Some(code)
    case None =>
      StripLowerCommute(value);
      var typed := Strip(Lower(value));
      if typed == [] then None else Some(typed)
  }

  // ---------------------------------------------------------------------
  // Starting a job

  datatype Start = Warning(message: string) | Launch(source: string, targets: seq<string>, sentences: seq<string>)

  const NoSentencesWarning := "Please enter sentences to translate"
  const NoTargetsWarning := "Please select at least one target language"
  const NoSourceWarning := "Please select or enter a source language"

  /** start_translation: the sentences, then the targets, then the source
      code, each refused with its own warning when missing; otherwise the
      job is launched with all three. */
  method StartTranslation(text: string, boxes: seq<Box>, additional: string, sourceValue: string) returns (r: Start)
    ensures InputSentences(text) == [] ==> r == Warning(NoSentencesWarning)
    ensures InputSentences(text) != [] && SelectedTargets(boxes, additional) == [] ==> r == Warning(NoTargetsWarning)
    ensures InputSentences(text) != [] && SelectedTargets(boxes, additional) != [] && ResolveSourceCode(sourceValue).None? ==>
      r == Warning(NoSourceWarning)
    ensures r.Launch? <==> InputSentences(text) != [] && SelectedTargets(boxes, additional) != [] && ResolveSourceCode(sourceValue).Some?
    ensures r.Launch? ==>
      && r.sentences == InputSentences(text) && r.targets == SelectedTargets(boxes, additional)
      && Some(r.source) == ResolveSourceCode(sourceValue)
  {
    var sentences := GetInputSentences(text);
    if sentences == [] {
      return Warning(NoSentencesWarning);
    }
    var targets := GetSelectedTargetLanguages(boxes, additional);
    if targets == [] {
      return Warning(NoTargetsWarning);
    }
    var source := ResolveSourceCode(sourceValue);
    if source.None? {
      return Warning(NoSourceWarning);
    }
    return Launch(source.value, targets, sentences);
  }

  // ---------------------------------------------------------------------
  // The result's location

  const S3Scheme := "s3://"

  /** The bucket named by an s3:// URL: the first '/'-separated segment
      once every "s3://" is removed; nothing for other URLs. */
  function BucketFromUrl(url: string): (r: Option<string>)
    ensures r.Some? <==> StartsWith(url, S3Scheme)
    ensures r.Some? ==> '/' !in r.value
  {
    if StartsWith(url, S3Scheme) then Some(Split(RemoveAll(url, S3Scheme), '/')[0]) else None
  }

  /** run_translation and retry_fetch_translations: the bucket the result
      names, else the one its URL names, else the configured one. Empty
      values count as absent. */
  function ResolveBucket(bucket: Option<string>, url: string, configured: string): (r: string)
    ensures bucket.Some? && bucket.value != [] ==> r == bucket.value
    ensures (bucket.None? || bucket.value == []) && BucketFromUrl(url).Some? && BucketFromUrl(url).value != [] ==>
      r == BucketFromUrl(url).value
    ensures (bucket.None? || bucket.value == []) && (BucketFromUrl(url).None? || BucketFromUrl(url).value == []) ==>
      r == configured
    ensures r == [] ==> configured == []
  {
    var named := if bucket.Some? then bucket.value else [];
    var fromUrl := if named == [] && BucketFromUrl(url).Some? then BucketFromUrl(url).value else named;
    if fromUrl == [] then configured else fromUrl
  }

  /** The URL the server writes names the server's bucket: with the bucket
      field missing, the URL alone leads back to it. */
  lemma UrlLeadsBackToBucket(bucket: string, key: string, configured: string)
    requires bucket != [] && '/' !in bucket && ':' !in bucket
    ensures BucketFromUrl(S3Url(bucket, key)) == Some(bucket)
    ensures ResolveBucket(None, S3Url(bucket, key), configured) == bucket
  {
    var url := S3Url(bucket, key);
    var rest := bucket + ("/" + key);
    SchemeDropped(rest);
    assert url == S3Scheme + rest;
    SchemeNowhereInBucket(bucket, "/" + key);
    RemoveAllAppend(bucket, "/" + key, S3Scheme);
    NoMatchWithoutFirstChar("/", key, S3Scheme);
    RemoveAllAppend("/", key, S3Scheme);
    var cleaned := RemoveAll(key, S3Scheme);
    assert RemoveAll(url, S3Scheme) == bucket + ['/'] + cleaned;
    SplitJoinStep(bucket, cleaned, '/');
  }

  /** A URL's leading scheme is removed first. */
  lemma SchemeDropped(rest: string)
    ensures StartsWith(S3Scheme + rest, S3Scheme)
    ensures RemoveAll(S3Scheme + rest, S3Scheme) == RemoveAll(rest, S3Scheme)
  {
    assert (S3Scheme + rest)[..|S3Scheme|] == S3Scheme;
    assert (S3Scheme + rest)[|S3Scheme|..] == rest;
  }

  /** No "s3://" starts inside a bucket name that has no ':' or '/', when a
      '/' follows it. */
  lemma {:induction false} SchemeNowhereInBucket(bucket: string, tail: string)
    requires ':' !in bucket && '/' !in bucket && tail != [] && tail[0] == '/'
    ensures NoMatchStarts(bucket, tail, S3Scheme)
    decreases |bucket|
  {
    if bucket != [] {
      var t := bucket + tail;
      if |t| >= |S3Scheme| {
        var k := if |bucket| == 1 then 1 else 2;
        assert t[k] == (if |bucket| > 2 then bucket[2] else '/');
        assert t[..|S3Scheme|][k] != S3Scheme[k];
      }
      assert forall c :: c in bucket[1..] ==> c in bucket;
      SchemeNowhereInBucket(bucket[1..], tail);
      assert (bucket + tail)[1..] == bucket[1..] + tail;
    }
  }

  /** Where the GUI polls, if anywhere: the result's key and resolved
      bucket, when both are non-empty ("No S3 location found" otherwise). */
  function PollLocation(key: Option<string>, bucket: Option<string>, url: string, configured: string): (r: Option<(string, string)>)
    ensures r.Some? <==> key.Some? && key.value != [] && ResolveBucket(bucket, url, configured) != []
    ensures r.Some? ==> r.value == (ResolveBucket(bucket, url, configured), key.value)
  {
    var b := ResolveBucket(bucket, url, configured);
    if key.Some? && key.value != [] && b != [] then Some((b, key.value)) else None
  }

  /** For an accepted job the GUI polls exactly the object the server
      wrote. */
  lemma PollsWhereServerWrote(event: map<string, Json>, parseJson: string -> Option<Json>, env: Env, clock: Clock,
                              id: string, backend: Orchestrator.Backend, inputPutOk: bool, configured: string)
    requires ValidDate(clock.inputDay) && ValidDate(clock.outputDay) && env.outputBucket != []
    requires RequestData(event, parseJson).Some? && Admitted(RequestData(event, parseJson).value)
    ensures var o := LambdaHandler(event, parseJson, env, clock, id, backend, inputPutOk, true);
      && o.response.Accepted?
      && var loc := o.response.outputLocation;
      && PollLocation(Some(loc.key), Some(loc.bucket), loc.url, configured) == Some((env.outputBucket, OutputKey(clock.outputDay, id)))
      && o.stored[|o.stored| - 1].bucket == env.outputBucket
      && o.stored[|o.stored| - 1].key == OutputKey(clock.outputDay, id)
  {
    AcceptedJob(event, parseJson, env, clock, id, backend, inputPutOk);
    var key := OutputKey(clock.outputDay, id);
    assert |key| > 0;
    PollsNamedLocation(env.outputBucket, key, S3Url(env.outputBucket, key), configured);
    var o := LambdaHandler(event, parseJson, env, clock, id, backend, inputPutOk, true);
    assert o.stored[|o.stored| - 1].bucket == env.outputBucket;
  }

  /** A location whose bucket and key are both non-empty is polled as it
      stands, whatever its URL and the configured bucket. */
  lemma PollsNamedLocation(bucket: string, key: string, url: string, configured: string)
    requires bucket != [] && key != []
    ensures PollLocation(Some(key), Some(bucket), url, configured) == Some((bucket, key))
  {
  }

  // ---------------------------------------------------------------------
  // History

  /** save_to_history's bucket: the output location's own when it is
      non-empty, else the one an s3:// URL names, else whatever (empty or
      missing) the location held; nothing without an output location, and
      no configured fallback here. */
  function SavedBucket(location: Option<Location>, bucket: Option<string>, url: string): (r: Option<string>)
    ensures location.None? ==> r.None?
    ensures location.Some? && bucket.Some? && bucket.value != [] ==> r == bucket
    ensures location.Some? && (bucket.None? || bucket.value == []) ==>
      r == (if StartsWith(url, S3Scheme) then BucketFromUrl(url) else bucket)
  {
    if location.None? then None
    else if bucket.Some? && bucket.value != [] then bucket
    else if BucketFromUrl(url).Some? then BucketFromUrl(url)
    else bucket
  }

  /** The record save_to_history appends for an accepted job. */
  function GuiRecord(reply: Response, timestamp: string, source: string, targets: seq<string>, count: nat): (r: HistoryRecord)
    requires reply.Accepted?
    ensures r.translationId == reply.translationId && r.sentenceCount == count && r.timestamp == timestamp
    ensures r.sourceLang == source && r.targetLangs == targets
    ensures r.outputUrl == Some(reply.outputLocation.url) && r.s3Key == Some(reply.outputLocation.key)
    ensures r.outputBucket == SavedBucket(Some(reply.outputLocation), Some(reply.outputLocation.bucket), reply.outputLocation.url)
  {
    var loc := reply.outputLocation;
    HistoryRecord(reply.translationId, timestamp, source, targets, count, Some(loc.url), Some(loc.key),
                  SavedBucket(Some(loc), Some(loc.bucket), loc.url))
  }

  // ---------------------------------------------------------------------
  // Viewing a saved record

  /** Where view_translations_from_s3 reads a record's result, or why it
      does not: no usable bucket, no key, or a crash on a null URL. */
  datatype ViewTarget = ViewFrom(bucket: string, key: string) | NoBucketFound | NoKeyFound | ViewCrashed

  /** view_translations_from_s3's choice of bucket and key, which
      download_from_s3 repeats. hasBucketField
      says whether the record holds an output_bucket entry: every GUI record
      does (null when nothing was recovered), no command-line record does.
      That entry is used as it stands; without it, an s3:// output URL names
      the bucket and any other URL leaves the configured one; a null URL
      raises. An empty or missing bucket or key is an error. */
  function ViewLocation(record: HistoryRecord, hasBucketField: bool, configured: string): (r: ViewTarget)
    ensures r.ViewCrashed? <==> !hasBucketField && record.outputUrl.None?
    ensures r.ViewFrom? ==> r.bucket != [] && r.key != [] && record.s3Key == Some(r.key)
    ensures hasBucketField && r.ViewFrom? ==> record.outputBucket == Some(r.bucket)
    ensures hasBucketField && (record.outputBucket.None? || record.outputBucket.value == []) ==> r == NoBucketFound
    ensures !hasBucketField && record.outputUrl.Some? && r.ViewFrom? ==>
      r.bucket == (if StartsWith(record.outputUrl.value, S3Scheme) then BucketFromUrl(record.outputUrl.value).value else configured)
    ensures r.NoKeyFound? ==> record.s3Key.None? || record.s3Key.value == []
    ensures hasBucketField && record.outputBucket.Some? && record.outputBucket.value != []
            && record.s3Key.Some? && record.s3Key.value != [] ==>
      r == ViewFrom(record.outputBucket.value, record.s3Key.value)
    ensures !hasBucketField && record.outputUrl.Some? && record.s3Key.Some? && record.s3Key.value != [] ==>
      var u := record.outputUrl.value;
      var b := if StartsWith(u, S3Scheme) then BucketFromUrl(u).value else configured;
      r == (if b != [] then ViewFrom(b, record.s3Key.value) else NoBucketFound)
  {
    var bucket :=
      if hasBucketField then record.outputBucket
      else if record.outputUrl.None? then None
      else if StartsWith(record.outputUrl.value, S3Scheme) then BucketFromUrl(record.outputUrl.value)
      else Some(configured);
    if !hasBucketField && record.outputUrl.None? then ViewCrashed
    else if bucket.None? || bucket.value == [] then NoBucketFound
    else if record.s3Key.None? || record.s3Key.value == [] then NoKeyFound
    else ViewFrom(bucket.value, record.s3Key.value)
  }

  /** A GUI record of an accepted job names the bucket its result is in, so
      viewing it from the history reads the object the server wrote,
      whatever bucket is configured. */
  lemma GuiRecordKeepsBucket(reply: Response, timestamp: string, source: string, targets: seq<string>, count: nat,
                             configured: string)
    requires reply.Accepted? && reply.outputLocation.bucket != [] && reply.outputLocation.key != []
    ensures var r := GuiRecord(reply, timestamp, source, targets, count);
      && r.outputBucket == Some(reply.outputLocation.bucket)
      && ViewLocation(r, true, configured) == ViewFrom(reply.outputLocation.bucket, reply.outputLocation.key)
  {
  }

  /** A command-line record of a job this server accepted has no bucket
      entry, but its URL names the bucket written, so viewing it reads the
      written object whatever bucket is configured. */
  lemma CliRecordViewedAtUrlBucket(event: map<string, Json>, parseJson: string -> Option<Json>, env: Env, clock: Clock,
                                   id: string, backend: Orchestrator.Backend, inputPutOk: bool,
                                   timestamp: string, source: string, targets: seq<string>, count: nat, configured: string)
    requires ValidDate(clock.inputDay) && ValidDate(clock.outputDay)
    requires env.outputBucket != [] && '/' !in env.outputBucket && ':' !in env.outputBucket
    requires RequestData(event, parseJson).Some? && Admitted(RequestData(event, parseJson).value)
    ensures var o := LambdaHandler(event, parseJson, env, clock, id, backend, inputPutOk, true);
      && o.response.Accepted?
      && ViewLocation(CliRecord(o.response, timestamp, source, targets, count), false, configured)
           == ViewFrom(env.outputBucket, OutputKey(clock.outputDay, id))
  {
    AcceptedJob(event, parseJson, env, clock, id, backend, inputPutOk);
    var key := OutputKey(clock.outputDay, id);
    assert |key| > 0;
    var o := LambdaHandler(event, parseJson, env, clock, id, backend, inputPutOk, true);
    CliRecordViewedAt(o.response, env.outputBucket, key, timestamp, source, targets, count, configured);
  }

  /** A command-line record whose URL is s3://bucket/key is viewed at that
      bucket and key. */
  lemma CliRecordViewedAt(reply: Response, bucket: string, key: string, timestamp: string, source: string,
                          targets: seq<string>, count: nat, configured: string)
    requires bucket != [] && '/' !in bucket && ':' !in bucket && key != []
    requires reply.Accepted? && reply.outputLocation.url == S3Url(bucket, key) && reply.outputLocation.key == key
    ensures ViewLocation(CliRecord(reply, timestamp, source, targets, count), false, configured) == ViewFrom(bucket, key)
  {
    UrlLeadsBackToBucket(bucket, key, configured);
  }
}
