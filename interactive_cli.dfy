/** The interactive command-line client (cli/interactive_cli.py): how a
    translate call is dispatched (one request, or batches), how per-batch
    translations are combined, how the translations a job produced are
    normalised to one list per target, how an input file is read, the
    language prompt's code checks and the progress animation's cap. The
    history it keeps is the shared ledger; the poll is in Polling. */
module InteractiveCli {
  import opened Common
  import opened Text
  import opened Batching
  import opened Polling
  import Validation

  /** translate switches to batches when batch_size is truthy (given and
      non-zero) and smaller than the number of sentences. */
  predicate UsesBatching(batchSize: Option<int>, n: nat)
    ensures UsesBatching(batchSize, n) ==> batchSize.Some? && batchSize.value != 0
    ensures UsesBatching(batchSize, n) && batchSize.value > 0 ==> n >= 2
  {
    batchSize.Some? && batchSize.value != 0 && n > batchSize.value
  }

  /** The sentence lists translate sends, one request each: the whole list,
      or its slices of batch_size. A negative batch size that triggers
      batching makes range() empty, so nothing is sent. */
  function RequestPlan(batchSize: Option<int>, sentences: seq<string>): (plan: seq<seq<string>>)
    ensures !UsesBatching(batchSize, |sentences|) ==> plan == [sentences]
    ensures UsesBatching(batchSize, |sentences|) && batchSize.value > 0 ==>
      && |plan| >= 2
      && Flatten(plan) == sentences
      && forall k :: 0 <= k < |plan| ==> 0 < |plan[k]| <= batchSize.value
    ensures UsesBatching(batchSize, |sentences|) && batchSize.value < 0 ==> plan == []
  {
    if !UsesBatching(batchSize, |sentences|) then [sentences]
    else if batchSize.value < 0 then []
    else
      var b := batchSize.value;
      SlicesFlatten(sentences, b);
      SlicesCount(sentences, b);
      AtLeastTwo(|Slices(sentences, b)|, b, |sentences|);
      Slices(sentences, b)
  }

  lemma AtLeastTwo(q: nat, b: nat, n: nat)
    requires q * b >= n > b > 0
    ensures q >= 2
  {
    if q < 2 {
      MulMonotone(q, 1, b);
      assert false;
    }
  }

  /** The batch count the client prints, (N + B - 1) // B, is the number of
      slices. */
  lemma BatchCountPrinted(sentences: seq<string>, b: nat)
    requires b > 0 && sentences != []
    ensures |Slices(sentences, b)| == (|sentences| + b - 1) / b
  {
    SlicesCount(sentences, b);
    CeilingDivision(|sentences|, b, |Slices(sentences, b)|);
  }

  /** q is (n + b - 1) // b exactly when q slices of b hold n and q - 1 do
      not. */
  lemma CeilingDivision(n: nat, b: nat, q: nat)
    requires b > 0 && q > 0
    requires q * b >= n && (q - 1) * b < n
    ensures q == (n + b - 1) / b
  {
    var a := n + b - 1;
    assert (q - 1) * b == q * b - b;
    assert q * b <= a < q * b + b;
    DivisionUnique(a, b, q);
  }

  lemma DivisionUnique(a: nat, b: nat, q: nat)
    requires b > 0 && q * b <= a < q * b + b
    ensures a / b == q
  {
    var d := a / b;
    if d < q {
      MulMonotone(d + 1, q, b);
      assert false;
    } else if d > q {
      MulMonotone(q + 1, d, b);
      assert false;
    }
  }

  lemma MulMonotone(x: int, y: int, b: nat)
    requires x <= y
    ensures x * b <= y * b
    ensures (x - 1) * b == x * b - b
  {
  }

  /** A list that a translations value contributes to list.extend (the
      server writes lists; other values are not modelled). */
  function Part(reply: map<string, Json>, lang: string): seq<Json> {
    if lang in reply && reply[lang].JList? then reply[lang].items else []
  }

  /** all_translations[lang] after the given batch replies: each reply's
      list for lang, in batch order, once per occurrence of lang among the
      targets (the inner loop visits a repeated target more than once). */
  function Gathered(replies: seq<map<string, Json>>, lang: string, c: nat): (r: seq<Json>) {
    if replies == [] then []
    else Gathered(replies[..|replies| - 1], lang, c) + Repeat(Part(replies[|replies| - 1], lang), c)
  }

  /** Each reply's lists concatenated in batch order. */
  function Concatenated(replies: seq<map<string, Json>>, lang: string): (r: seq<Json>) {
    if replies == [] then [] else Part(replies[0], lang) + Concatenated(replies[1..], lang)
  }

  /** For a target named once, the combined list is the in-order
      concatenation of the batches' lists. */
  lemma {:induction false} GatheredOnce(replies: seq<map<string, Json>>, lang: string)
    ensures Gathered(replies, lang, 1) == Concatenated(replies, lang)
    decreases |replies|
  {
    if replies != [] {
      var init := replies[..|replies| - 1];
      var x := Part(replies[|replies| - 1], lang);
      GatheredOnce(init, lang);
      assert Repeat(x, 1) == x;
      ConcatenatedSnoc(init, replies[|replies| - 1], lang);
      assert init + [replies[|replies| - 1]] == replies;
    }
  }

  lemma {:induction false} ConcatenatedSnoc(replies: seq<map<string, Json>>, last: map<string, Json>, lang: string)
    ensures Concatenated(replies + [last], lang) == Concatenated(replies, lang) + Part(last, lang)
    decreases |replies|
  {
    if replies == [] {
      assert [last][1..] == [];
    } else {
      ConcatenatedSnoc(replies[1..], last, lang);
      assert (replies + [last])[1..] == replies[1..] + [last];
    }
  }

  /** When every batch's reply holds one translation per sentence of that
      batch, a target named once ends with one translation per input
      sentence. */
  lemma {:induction false} ConcatenatedAligned(batches: seq<seq<string>>, replies: seq<map<string, Json>>, lang: string)
    requires |replies| == |batches|
    requires forall k :: 0 <= k < |batches| ==> |Part(replies[k], lang)| == |batches[k]|
    ensures |Concatenated(replies, lang)| == |Flatten(batches)|
    decreases |batches|
  {
    if batches != [] {
      ConcatenatedAligned(batches[1..], replies[1..], lang);
    }
  }

  /** The loop both list-building steps share: for each target in turn,
      the target's list is extended with ext(target), so a repeated target
      is extended once per occurrence. */
  method ExtendPerTarget(m: map<string, seq<Json>>, targets: seq<string>, ext: string -> seq<Json>)
    returns (next: map<string, seq<Json>>)
    requires forall l :: l in targets ==> l in m
    ensures next.Keys == m.Keys
    ensures forall l :: l in m ==> next[l] == m[l] + Repeat(ext(l), Count(targets, l))
  {
    next := m;
    for j := 0 to |targets|
      invariant next.Keys == m.Keys
      invariant forall l :: l in m ==> next[l] == m[l] + Repeat(ext(l), Count(targets[..j], l))
    {
      ExtendStep(m, next, targets, j, ext);
      next := next[targets[j] := next[targets[j]] + ext(targets[j])];
    }
    assert targets[..|targets|] == targets;
  }

  /** One turn of ExtendPerTarget keeps its invariant. */
  lemma ExtendStep(m: map<string, seq<Json>>, prev: map<string, seq<Json>>, targets: seq<string>, j: nat,
                   ext: string -> seq<Json>)
    requires j < |targets| && targets[j] in m && prev.Keys == m.Keys
    requires forall l :: l in m ==> prev[l] == m[l] + Repeat(ext(l), Count(targets[..j], l))
    ensures var next := prev[targets[j] := prev[targets[j]] + ext(targets[j])];
      forall l :: l in m ==> next[l] == m[l] + Repeat(ext(l), Count(targets[..j + 1], l))
  {
    var next := prev[targets[j] := prev[targets[j]] + ext(targets[j])];
    assert targets[..j + 1][..j] == targets[..j];
    forall l | l in m
      ensures next[l] == m[l] + Repeat(ext(l), Count(targets[..j + 1], l))
    {
      var c := Count(targets[..j], l);
      if l == targets[j] {
        assert Count(targets[..j + 1], l) == c + 1;
        assert Repeat(ext(l), c + 1) == Repeat(ext(l), c) + ext(l);
      } else {
        assert Count(targets[..j + 1], l) == c;
      }
    }
  }

  /** all_translations after a reply: each target's list extended with the
      reply's list for it, if it has one, once per occurrence of the
      target. */
  method Accumulate(combined: map<string, seq<Json>>, targets: seq<string>, reply: map<string, Json>)
    returns (next: map<string, seq<Json>>)
    requires forall l :: l in targets ==> l in combined
    ensures next.Keys == combined.Keys
    ensures forall l :: l in combined ==> next[l] == combined[l] + Repeat(Part(reply, l), Count(targets, l))
  {
    next := ExtendPerTarget(combined, targets, l => Part(reply, l));
  }

  /** all_translations holds, for every target, the lists of the replies
      so far in batch order, once per occurrence of the target. */
  predicate GatheredSoFar(combined: map<string, seq<Json>>, targets: seq<string>, replies: seq<map<string, Json>>) {
    && combined.Keys == (set l | l in targets)
    && forall l :: l in combined ==> combined[l] == Gathered(replies, l, Count(targets, l))
  }

  /** Accumulating one more reply keeps GatheredSoFar. */
  lemma GatheredSoFarStep(combined: map<string, seq<Json>>, next: map<string, seq<Json>>, targets: seq<string>,
                          replies: seq<map<string, Json>>, reply: map<string, Json>)
    requires GatheredSoFar(combined, targets, replies)
    requires next.Keys == combined.Keys
    requires forall l :: l in combined ==> next[l] == combined[l] + Repeat(Part(reply, l), Count(targets, l))
    ensures GatheredSoFar(next, targets, replies + [reply])
  {
    assert (replies + [reply])[..|replies|] == replies;
  }

  /** _translate_in_batches: one translate call per slice, in order, a
      pause between consecutive ones; `translate` stands for a single-request
      translate and gives the normalised translations, or None when it ends
      the program. Each target's list is the batches' lists in order. */
  method TranslateInBatches(targets: seq<string>, sentences: seq<string>, b: int,
                            translate: seq<string> -> Option<map<string, Json>>)
    returns (run: SendOutcome<map<string, Json>>, combined: map<string, seq<Json>>, trace: seq<Step<string>>)
    requires UsesBatching(Some(b), |sentences|)
    ensures b < 0 ==> run == Answered([]) && trace == []
    ensures b > 0 ==> run == SendAll(Slices(sentences, b), translate)
    ensures b > 0 && run.Answered? ==> trace == Schedule(Slices(sentences, b))
    ensures b > 0 && run.Stopped? ==>
      run.at < |Slices(sentences, b)| && trace == Schedule(Slices(sentences, b)[..run.at + 1])
    ensures run.Answered? ==>
      && combined.Keys == (set l | l in targets)
      && forall l :: l in combined ==> combined[l] == Gathered(run.replies, l, Count(targets, l))
  {
    combined := map l | l in targets :: [];
    var results: seq<map<string, Json>> := [];
    trace := [];
    if b < 0 {
      return Answered(results), combined, trace;
    }
    var n := |sentences|;
    var i := 0;
    while i < n
      invariant 0 <= i <= n
      invariant RunFrom(sentences, b, i, translate, results, trace) == RunFrom(sentences, b, 0, translate, [], [])
      invariant GatheredSoFar(combined, targets, results)
      decreases n - i
    {
      var stop := if i + b < n then i + b else n;
      var batch := sentences[i..stop];
      var result := translate(batch);
      if result.None? {
        RunMeaning(sentences, b, translate);
        return Stopped(|results|), combined, trace + [Send(batch)];
      }
      var next := Accumulate(combined, targets, result.value);
      GatheredSoFarStep(combined, next, targets, results, result.value);
      // the pause between batches, none after the last
      trace := if stop < n then trace + [Send(batch)] + [Pause] else trace + [Send(batch)];
      combined, results, i := next, results + [result.value], stop;
    }
    RunMeaning(sentences, b, translate);
    run := Answered(results);
  }

  /** translations_data once a string has been decoded: the decoded value,
      or {} when the string is not JSON. */
  function Decoded(data: Json, parseJson: string -> Option<Json>): Json {
    if data.JStr? then parseJson(data.s).GetOr(JObj(map[])) else data
  }

  /** A value the list branch can iterate: a list of objects, or the empty
      string. */
  predicate EntryList(v: Json) {
    (v.JList? && forall k :: 0 <= k < |v.items| ==> v.items[k].JObj?) || v == JStr([])
  }

  function Entries(v: Json): seq<Json> {
    if v.JList? then v.items else []
  }

  /** sentence_entry.get(lang, ""). */
  function Get(entry: Json, lang: string): Json
    requires entry.JObj?
  {
    if lang in entry.fields then entry.fields[lang] else JStr("")
  }

  /** normalized[lang] after the given entries: each entry's value for
      lang, once per occurrence of lang among the targets. */
  function Column(entries: seq<Json>, lang: string, c: nat): (r: seq<Json>)
    requires forall k :: 0 <= k < |entries| ==> entries[k].JObj?
  {
    if entries == [] then []
    else Column(entries[..|entries| - 1], lang, c) + Repeat([Get(entries[|entries| - 1], lang)], c)
  }

  /** For a target named once, its column holds one value per entry, in
      entry order, with "" where the entry lacks the language. */
  lemma {:induction false} ColumnOnce(entries: seq<Json>, lang: string)
    requires forall k :: 0 <= k < |entries| ==> entries[k].JObj?
    ensures |Column(entries, lang, 1)| == |entries|
    ensures forall k :: 0 <= k < |entries| ==> Column(entries, lang, 1)[k] == Get(entries[k], lang)
    decreases |entries|
  {
    if entries != [] {
      var init := entries[..|entries| - 1];
      ColumnOnce(init, lang);
      assert Repeat([Get(entries[|entries| - 1], lang)], 1) == [Get(entries[|entries| - 1], lang)];
    }
  }

  /** translate's normalisation to a dictionary of lists: a string is
      decoded first ({} if it is not JSON); a dictionary gets an empty list
      for every missing target; a list of per-sentence dictionaries becomes
      one list per target. Anything else raises (None). */
  method NormalizeTranslations(data: Json, targets: seq<string>, parseJson: string -> Option<Json>)
    returns (r: Option<map<string, Json>>)
    ensures r.Some? <==> Decoded(data, parseJson).JObj? || EntryList(Decoded(data, parseJson))
    ensures r.Some? ==> forall l :: l in targets ==> l in r.value
    ensures Decoded(data, parseJson).JObj? ==>
      var f := Decoded(data, parseJson).fields;
      && r.Some? && r.value.Keys == f.Keys + (set l | l in targets)
      && (forall k :: k in f ==> r.value[k] == f[k])
      && (forall l :: l in targets && l !in f ==> r.value[l] == JList([]))
    ensures EntryList(Decoded(data, parseJson)) ==>
      var entries := Entries(Decoded(data, parseJson));
      && r.Some? && r.value.Keys == (set l | l in targets)
      && forall l :: l in targets ==> r.value[l] == JList(Column(entries, l, Count(targets, l)))
  {
    var td := data;
    if td.JStr? {
      match parseJson(td.s)
      case Some(v) => td := v;
      case None => td := JObj(map[]);
    }
    assert td == Decoded(data, parseJson);
    if td.JObj? {
      var m := td.fields;
      for j := 0 to |targets|
        invariant m.Keys == td.fields.Keys + (set l | l in targets[..j])
        invariant forall k :: k in td.fields ==> m[k] == td.fields[k]
        invariant forall l :: l in targets[..j] && l !in td.fields ==> m[l] == JList([])
      {
        assert targets[..j + 1] == targets[..j] + [targets[j]];
        if targets[j] !in m {
          m := m[targets[j] := JList([])];
        }
      }
      assert targets[..|targets|] == targets;
      return Some(m);
    }
    if !EntryList(td) {
      return None;
    }
    var entries := Entries(td);
    var columns := NormalizeEntries(entries, targets);
    r := Some(map l | l in columns :: JList(columns[l]));
  }

  /** One more entry adds its value to the end of every column. */
  lemma ColumnSnoc(entries: seq<Json>, i: nat)
    requires i < |entries| && forall k :: 0 <= k < |entries| ==> entries[k].JObj?
    ensures forall lang, c :: Column(entries[..i + 1], lang, c) == Column(entries[..i], lang, c) + Repeat([Get(entries[i], lang)], c)
  {
    assert entries[..i + 1][..i] == entries[..i];
  }

  /** The list branch of the normalisation: normalized starts with an
      empty list per target, and every entry appends its value for each
      target in turn. */
  method NormalizeEntries(entries: seq<Json>, targets: seq<string>) returns (columns: map<string, seq<Json>>)
    requires forall k :: 0 <= k < |entries| ==> entries[k].JObj?
    ensures columns.Keys == (set l | l in targets)
    ensures forall l :: l in columns ==> columns[l] == Column(entries, l, Count(targets, l))
  {
    columns := map l | l in targets :: [];
    for i := 0 to |entries|
      invariant columns.Keys == (set l | l in targets)
      invariant forall l :: l in columns ==> columns[l] == Column(entries[..i], l, Count(targets, l))
    {
      var entry := entries[i];
      columns := ExtendPerTarget(columns, targets, l => [Get(entry, l)]);
      ColumnSnoc(entries, i);
    }
    assert entries[..|entries|] == entries;
  }

  /** translate after an accepted job: poll for the result when S3 is
      configured and the reply names an output key, then normalise what was
      read. None when a read fails with anything but a missing object (the
      error ends the client) or when the data cannot be normalised. */
  method ObtainTranslations(s3Configured: bool, outputKey: string, store: nat -> ReadOutcome,
                            targets: seq<string>, parseJson: string -> Option<Json>)
    returns (r: Option<map<string, Json>>, attempts: nat)
    ensures !s3Configured || outputKey == [] ==>
      && attempts == 0 && r.Some? && r.value.Keys == (set l | l in targets)
      && forall l :: l in targets ==> r.value[l] == JList([])
    ensures s3Configured && outputKey != [] && FirstStop(store, InteractiveAttempts).Some? ==>
      var k := FirstStop(store, InteractiveAttempts).value;
      && attempts == k + 1
      && (store(k).OtherError? ==> r.None?)
      && (IsHit(store(k)) && store(k).translations.JObj? ==>
            var f := store(k).translations.fields;
            && r.Some? && r.value.Keys == f.Keys + (set l | l in targets)
            && forall n :: n in f ==> r.value[n] == f[n])
    ensures s3Configured && outputKey != [] && FirstStop(store, InteractiveAttempts).Some? ==>
      var k := FirstStop(store, InteractiveAttempts).value;
      IsHit(store(k)) ==>
        var d := Decoded(store(k).translations, parseJson);
        && (r.Some? <==> d.JObj? || EntryList(d))
        && (d.JObj? ==> r.Some? && forall l :: l in targets && l !in d.fields ==> l in r.value && r.value[l] == JList([]))
        && (EntryList(d) ==>
              && r.Some? && r.value.Keys == (set l | l in targets)
              && forall l :: l in targets ==> r.value[l] == JList(Column(Entries(d), l, Count(targets, l))))
    ensures s3Configured && outputKey != [] && FirstStop(store, InteractiveAttempts).None? ==>
      attempts == InteractiveAttempts && (r.Some? ==> forall l :: l in targets ==> l in r.value)
  {
    var data := JObj(map[]);
    attempts := 0;
    if s3Configured && outputKey != [] {
      var outcome, read, sleeps := InteractivePoll(data, store);
      match outcome
      case Aborted(n) =>
        return None, n;
      case Retrieved(n) =>
        data, attempts := read, n;
      case TimedOut =>
        data, attempts := read, InteractiveAttempts;
    }
    r := NormalizeTranslations(data, targets, parseJson);
  }

  /** What detect_file_content returns: the sentences value and the source
      language the file names, if any. */
  datatype Detected = Detected(sentences: Json, source: Option<Json>)

  /** detect_file_content: a .json file holding an object gives its
      "sentences" value (or [str(data)] when it has none) and its
      "source_language"; a list is taken as it is; any other JSON value is
      the one sentence str(value) (`show` stands for str). Any other file
      gives its stripped non-blank lines, '#' comments skipped. A file that
      cannot be read or decoded gives no sentences. */
  method DetectFileContent(file: InputFile, show: Json -> string) returns (r: Detected)
    ensures file.MissingFile? || file == JsonFile(None) ==> r == Detected(JList([]), None)
    ensures file.TextFile? ==> r == Detected(JList(JsonStrings(KeptLines(Split(file.content, '\n'), true))), None)
    ensures file.JsonFile? && file.parsed.Some? ==>
      var data := file.parsed.value;
      && (data.JList? ==> r == Detected(data, None))
      && (data.JObj? && "sentences" in data.fields ==> r.sentences == data.fields["sentences"])
      && (data.JObj? && "sentences" !in data.fields ==> r.sentences == JList([JStr(show(data))]))
      && (data.JObj? ==> r.source == (if "source_language" in data.fields then Some(data.fields["source_language"]) else None))
      && (!data.JList? && !data.JObj? ==> r == Detected(JList([JStr(show(data))]), None))
  {
    match file
    case MissingFile =>
      return Detected(JList([]), None);
    case JsonFile(None) =>
      return Detected(JList([]), None);
    case JsonFile(Some(data)) =>
      if data.JObj? {
        var source := if "source_language" in data.fields then Some(data.fields["source_language"]) else None;
        var sentences := if "sentences" in data.fields then data.fields["sentences"] else JList([]);
        if !Truthy(sentences) && "sentences" !in data.fields {
          sentences := JList([JStr(show(data))]);
        }
        return Detected(sentences, source);
      } else if data.JList? {
        return Detected(data, None);
      } else {
        return Detected(JList([JStr(show(data))]), None);
      }
    case TextFile(content) =>
      var lines := Split(content, '\n');
      var sentences: seq<string> := [];
      for i := 0 to |lines|
        invariant sentences == KeptLines(lines[..i], true)
      {
        var line := Strip(lines[i]);
        assert lines[..i + 1][..i] == lines[..i];
        if line != [] && !StartsWith(line, "#") {
          sentences := sentences + [line];
        }
      }
      assert lines[..|lines|] == lines;
      return Detected(JList(JsonStrings(sentences)), None);
  }

  /** The numbered menu of prompt_for_language. */
  const Menu: map<string, string> := map[
    "1" := "en", "2" := "es", "3" := "fr", "4" := "de", "5" := "it", "6" := "pt",
    "7" := "ru", "8" := "zh", "9" := "ja", "10" := "ko", "11" := "ar", "12" := "hi"]

  /** Every entry of the menu is a two-letter code. */
  lemma MenuCodesHaveTwoLetters()
    ensures forall k :: k in Menu ==> |Menu[k]| == 2
  {
  }

  /** One answer to prompt_for_language: ask again, or the code(s) it
      returns. */
  datatype Choice = AskAgain | Code(code: string) | Codes(codes: seq<string>)

  /** [lang.strip().lower() for lang in choice.split(',')]. */
  function CommaCodes(choice: string): (r: seq<string>)
    ensures |r| == |Split(choice, ',')| && r != []
    ensures forall k :: 0 <= k < |r| ==> r[k] == Strip(Lower(Split(choice, ',')[k]))
  {
    var parts := Split(choice, ',');
    seq(|parts|, k requires 0 <= k < |parts| => Strip(Lower(parts[k])))
  }

  predicate AllTwoLetters(codes: seq<string>) {
    forall k :: 0 <= k < |codes| ==> |codes[k]| == 2
  }

  /** prompt_for_language's handling of one answer: a menu number gives its
      code; with several allowed, a comma-separated answer gives its
      stripped, lowercased parts when each has two characters; otherwise the
      lowercased answer when it has two characters. */
  function LanguageChoice(raw: string, allowMultiple: bool): (r: Choice)
    ensures Strip(raw) == [] ==> r == AskAgain
    ensures Strip(raw) in Menu ==> r == (if allowMultiple then Codes([Menu[Strip(raw)]]) else Code(Menu[Strip(raw)]))
    ensures r.Code? ==> !allowMultiple && |r.code| == 2
    ensures r.Codes? ==> allowMultiple && r.codes != [] && AllTwoLetters(r.codes)
    ensures allowMultiple && Strip(raw) != [] && Strip(raw) !in Menu && ',' in Strip(raw) ==>
      r == (if AllTwoLetters(CommaCodes(Strip(raw))) then Codes(CommaCodes(Strip(raw))) else AskAgain)
    ensures Strip(raw) != [] && Strip(raw) !in Menu && !(allowMultiple && ',' in Strip(raw)) ==>
      r == (if |Lower(Strip(raw))| == 2 then (if allowMultiple then Codes([Lower(Strip(raw))]) else Code(Lower(Strip(raw)))) else AskAgain)
  {
    var choice := Strip(raw);
    MenuCodesHaveTwoLetters();
    if choice == [] then AskAgain
    else if choice in Menu then
      if allowMultiple then Codes([Menu[choice]]) else Code(Menu[choice])
    else if allowMultiple && ',' in choice then
      var langs := CommaCodes(choice);
      if AllTwoLetters(langs) then Codes(langs) else AskAgain
    else
      var lang := Lower(choice);
      if |lang| == 2 then (if allowMultiple then Codes([lang]) else Code(lang)) else AskAgain
  }

  /** Every code the prompt accepts passes the server's language-code rule,
      so a request built from accepted answers is never refused for its
      codes. */
  lemma AcceptedCodesPassServerRule(raw: string, allowMultiple: bool)
    ensures var r := LanguageChoice(raw, allowMultiple);
      && (r.Code? ==> Validation.IsCode(JStr(r.code)))
      && (r.Codes? ==> forall k :: 0 <= k < |r.codes| ==> Validation.IsCode(JStr(r.codes[k])))
  {
  }

  /** _animate_progress's reading at a given elapsed time: elapsed over the
      estimate as a percentage, capped at 95. */
  function ProgressAt(elapsed: real, estimate: real): (p: real)
    requires estimate > 0.0
  {
    var raw := elapsed / estimate * 100.0;
    if raw < 95.0 then raw else 95.0
  }

  /** _animate_progress: while the bar is below 95, set it from the next
      clock reading. It never passes 95 (only the completed request sets
      100), and it stops as soon as it reaches 95. An estimate of 0 makes
      the first reading divide by zero and ends the animation. */
  method AnimateProgress(estimate: real, clock: seq<real>) returns (shown: seq<real>)
    ensures estimate == 0.0 ==> shown == []
    ensures |shown| <= |clock|
    ensures estimate > 0.0 ==> forall k :: 0 <= k < |shown| ==> shown[k] == ProgressAt(clock[k], estimate)
    ensures forall k :: 0 <= k < |shown| ==> shown[k] <= 95.0
    ensures forall k :: 0 <= k < |shown| - 1 ==> shown[k] < 95.0
    ensures |shown| < |clock| ==> estimate == 0.0 || (shown != [] && shown[|shown| - 1] == 95.0)
  {
    shown := [];
    if estimate == 0.0 {
      return;
    }
    var n := 0.0;
    var i := 0;
    while n < 95.0 && i < |clock|
      invariant 0 <= i <= |clock| && |shown| == i
      invariant i > 0 ==> n == shown[i - 1]
      invariant i == 0 ==> n == 0.0
      invariant estimate > 0.0 ==> forall k :: 0 <= k < i ==> shown[k] == ProgressAt(clock[k], estimate)
      invariant forall k :: 0 <= k < i ==> shown[k] <= 95.0
      invariant forall k :: 0 <= k < i - 1 ==> shown[k] < 95.0
      decreases |clock| - i
    {
      var raw := clock[i] / estimate * 100.0;
      n := if raw < 95.0 then raw else 95.0;
      shown := shown + [n];
      i := i + 1;
    }
  }

  /** The bar rises with the clock: a later reading never shows less. */
  lemma ProgressMonotone(e1: real, e2: real, estimate: real)
    requires estimate > 0.0 && 0.0 <= e1 <= e2
    ensures ProgressAt(e1, estimate) <= ProgressAt(e2, estimate)
  {
    assert e1 / estimate <= e2 / estimate;
  }
}
