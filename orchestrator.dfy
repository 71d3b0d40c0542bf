/** Server-side translation with per-pair failure isolation
    (lambda_code/lambda_function.py, process_translations and
    batch_translate). The translation backend is a function parameter: it
    maps one call (text, source code, target code, and the position of the
    sentence in the request) to the translated text or to the failure's
    message. The position makes every call an outcome of its own, so two
    equal sentences may fare differently, as two calls to the service may. */
module Orchestrator {
  import opened Common
  import opened Text

  type Backend = (string, string, string, nat) -> Result<string, string>

  /** What process_translations stores for one call. */
  function TranslationCell(out: Result<string, string>): string {
    match out
    case Ok(text) => text
    case Err(message) => "[Translation Error: " + message + "]"
  }

  /** What batch_translate stores for one call. */
  function BatchCell(out: Result<string, string>): string {
    match out
    case Ok(text) => text
    case Err(message) => "[Error: " + message + "]"
  }

  /** The list one target language receives: one cell per sentence, in
      sentence order, each from the backend called on the stripped sentence. */
  function Row(source: string, lang: string, sentences: seq<string>, backend: Backend): (row: seq<string>)
    ensures |row| == |sentences|
  {
    seq(|sentences|, i requires 0 <= i < |sentences| => TranslationCell(backend(Strip(sentences[i]), source, lang, i)))
  }

  /** The mapping process_translations promises: one row per distinct target. */
  function Expected(source: string, targets: seq<string>, sentences: seq<string>, backend: Backend): (m: map<string, seq<string>>)
    ensures forall lang :: lang in m <==> lang in targets
    ensures forall lang :: lang in m ==> |m[lang]| == |sentences|
  {
    map lang | lang in targets :: Row(source, lang, sentences, backend)
  }

  /** process_translations: for each target in order, reset its list, then
      append one cell per sentence; a failed call leaves an error marker in
      its slot and the loop goes on. */
  method ProcessTranslations(source: string, targets: seq<string>, sentences: seq<string>, backend: Backend)
    returns (translations: map<string, seq<string>>)
    ensures translations == Expected(source, targets, sentences, backend)
  {
    translations := map[];
    var t := 0;
    while t < |targets|
      invariant 0 <= t <= |targets|
      invariant translations == Expected(source, targets[..t], sentences, backend)
    {
      var lang := targets[t];
      ghost var before := translations;
      translations := translations[lang := []];
      var i := 0;
      while i < |sentences|
        invariant 0 <= i <= |sentences|
        invariant translations == before[lang := Row(source, lang, sentences[..i], backend)]
      {
        var out := backend(Strip(sentences[i]), source, lang, i);
        translations := translations[lang := translations[lang] + [TranslationCell(out)]];
        i := i + 1;
        assert Row(source, lang, sentences[..i], backend)
            == Row(source, lang, sentences[..i - 1], backend) + [TranslationCell(out)];
      }
      assert sentences[..i] == sentences;
      t := t + 1;
      assert targets[..t] == targets[..t - 1] + [lang];
      assert translations == Expected(source, targets[..t], sentences, backend);
    }
    assert targets[..t] == targets;
  }

  /** Slot i of a target's list holds the translation of the stripped
      sentence i when that call succeeded, and the error marker carrying the
      failure's message when it failed. */
  lemma CellReflectsCall(source: string, targets: seq<string>, sentences: seq<string>, backend: Backend,
                         lang: string, i: nat)
    requires lang in targets && i < |sentences|
    ensures var out := backend(Strip(sentences[i]), source, lang, i);
      && lang in Expected(source, targets, sentences, backend)
      && i < |Expected(source, targets, sentences, backend)[lang]|
      && Expected(source, targets, sentences, backend)[lang][i]
         == (if out.Ok? then out.value else "[Translation Error: " + out.error + "]")
  {
  }

  /** Failure isolation: if two backends differ only on the call for
      sentence i into badLang, the results differ at most in that one slot;
      every other language's list and every other slot of badLang's list is
      the same. */
  lemma FailureIsolated(source: string, targets: seq<string>, sentences: seq<string>,
                        b1: Backend, b2: Backend, i: nat, badLang: string)
    requires forall t, s, l, k: nat :: (k, l) != (i, badLang) ==> b1(t, s, l, k) == b2(t, s, l, k)
    ensures var m1, m2 := Expected(source, targets, sentences, b1), Expected(source, targets, sentences, b2);
      && m1.Keys == m2.Keys
      && (forall lang :: lang in m1 && lang != badLang ==> m1[lang] == m2[lang])
      && (badLang in m1 ==> forall k :: 0 <= k < |sentences| && k != i ==> m1[badLang][k] == m2[badLang][k])
  {
    var m1, m2 := Expected(source, targets, sentences, b1), Expected(source, targets, sentences, b2);
    forall lang | lang in m1 && lang != badLang ensures m1[lang] == m2[lang] {
      assert forall k :: 0 <= k < |sentences| ==> b1(Strip(sentences[k]), source, lang, k) == b2(Strip(sentences[k]), source, lang, k);
    }
    if badLang in m1 {
      forall k | 0 <= k < |sentences| && k != i ensures m1[badLang][k] == m2[badLang][k] {
        assert b1(Strip(sentences[k]), source, badLang, k) == b2(Strip(sentences[k]), source, badLang, k);
      }
    }
  }

  /** batch_translate: the sentences are walked in slices of batchSize, each
      sent unstripped to one target; a failure leaves "[Error: ...]" in its
      place. A zero step makes Python's range() raise; a negative step walks
      nothing. */
  method BatchTranslate(sentences: seq<string>, source: string, target: string, batchSize: int, backend: Backend)
    returns (r: Result<seq<string>, string>)
    ensures batchSize == 0 ==> r.Err?
    ensures batchSize < 0 ==> r == Ok([])
    ensures batchSize > 0 ==> r.Ok? && |r.value| == |sentences|
    ensures batchSize > 0 ==> forall i :: 0 <= i < |sentences| ==> r.value[i] == BatchCell(backend(sentences[i], source, target, i))
  {
    if batchSize == 0 {
      return Err("range() arg 3 must not be zero");
    }
    var translations: seq<string> := [];
    if batchSize < 0 {
      return Ok(translations);
    }
    var start := 0;
    while start < |sentences|
      invariant 0 <= start <= |sentences| + batchSize
      invariant |translations| == if start < |sentences| then start else |sentences|
      invariant forall i :: 0 <= i < |translations| ==> translations[i] == BatchCell(backend(sentences[i], source, target, i))
      decreases |sentences| - start
    {
      var stop := if start + batchSize < |sentences| then start + batchSize else |sentences|;
      var batch := sentences[start..stop];
      var k := 0;
      while k < |batch|
        invariant 0 <= k <= |batch|
        invariant |translations| == start + k
        invariant forall i :: 0 <= i < |translations| ==> translations[i] == BatchCell(backend(sentences[i], source, target, i))
      {
        translations := translations + [BatchCell(backend(batch[k], source, target, start + k))];
        k := k + 1;
      }
      start := start + batchSize;
    }
    return Ok(translations);
  }
}
