/** The server's structural check of a translation request
    (lambda_code/lambda_function.py, validate_input): the first violated
    rule, in a fixed order, names the error; a request that breaks no rule
    is valid. */
module Validation {
  import opened Common
  import opened Text

  const MaxTargets: nat := 10
  const MaxSentences: nat := 100
  const MaxSentenceLength: nat := 5000

  const SourceCodeMessage := "Source language must be a 2-character language code"
  const TargetsEmptyMessage := "Target languages must be a non-empty list"
  const TargetsTooManyMessage := "Maximum 10 target languages allowed"
  const TargetCodeMessage := "All target languages must be 2-character language codes"
  const SentencesEmptyMessage := "Sentences must be a non-empty list"
  const SentencesTooManyMessage := "Maximum 100 sentences allowed per request"
  const BlankSentenceMessage := "All sentences must be non-empty strings"
  const LongSentenceMessage := "Each sentence must be less than 5000 characters"

  /** A 2-character language code: a JSON string of length 2. */
  predicate IsCode(v: Json) {
    v.JStr? && |v.s| == 2
  }

  /** What is wrong with one sentence, if anything: not a string or blank
      after stripping is reported before being too long. */
  function SentenceFault(v: Json): (r: Option<string>)
    ensures r.None? <==> v.JStr? && Strip(v.s) != [] && |v.s| <= MaxSentenceLength
    ensures r.Some? ==> r.value == BlankSentenceMessage || r.value == LongSentenceMessage
    ensures r == Some(LongSentenceMessage) <==> v.JStr? && Strip(v.s) != [] && |v.s| > MaxSentenceLength
  {
    if !v.JStr? || Strip(v.s) == [] then Some(BlankSentenceMessage)
    else if |v.s| > MaxSentenceLength then Some(LongSentenceMessage)
    else None
  }

  /** The fault of the first faulty sentence, scanning in order. */
  function FirstSentenceFault(items: seq<Json>): (r: Option<string>)
    ensures r.None? <==> forall k :: 0 <= k < |items| ==> SentenceFault(items[k]).None?
    ensures r.Some? ==> exists k :: 0 <= k < |items| && SentenceFault(items[k]) == r &&
                          forall j :: 0 <= j < k ==> SentenceFault(items[j]).None?
  {
    if items == [] then None
    else if SentenceFault(items[0]).Some? then SentenceFault(items[0])
    else
      var r := FirstSentenceFault(items[1..]);
      assert forall k :: 1 <= k < |items| ==> items[k] == items[1..][k - 1];
      r
  }

  /** The rules, in the order they are checked. */
  datatype Rule =
    | SourceIsCode
    | TargetsNonEmptyList
    | TargetsAtMostTen
    | TargetsAreCodes
    | SentencesNonEmptyList
    | SentencesAtMostHundred
    | SentencesWellFormed

  const RuleOrder: seq<Rule> := [SourceIsCode, TargetsNonEmptyList, TargetsAtMostTen, TargetsAreCodes,
                                 SentencesNonEmptyList, SentencesAtMostHundred, SentencesWellFormed]

  /** Whether a rule holds of a request, stated on its own. */
  predicate Holds(rule: Rule, source: Json, targets: Json, sentences: Json) {
    match rule
    case SourceIsCode => IsCode(source)
    case TargetsNonEmptyList => targets.JList? && |targets.items| > 0
    case TargetsAtMostTen => targets.JList? ==> |targets.items| <= MaxTargets
    case TargetsAreCodes => targets.JList? ==> forall k :: 0 <= k < |targets.items| ==> IsCode(targets.items[k])
    case SentencesNonEmptyList => sentences.JList? && |sentences.items| > 0
    case SentencesAtMostHundred => sentences.JList? ==> |sentences.items| <= MaxSentences
    case SentencesWellFormed =>
      sentences.JList? ==>
        forall k :: 0 <= k < |sentences.items| ==>
          sentences.items[k].JStr? && Strip(sentences.items[k].s) != [] && |sentences.items[k].s| <= MaxSentenceLength
  }

  /** The message reported when a rule is the first one broken. For the
      per-sentence rule it is the first faulty sentence that decides between
      the blank and the too-long message. */
  function MessageOf(rule: Rule, sentences: Json): string {
    match rule
    case SourceIsCode => SourceCodeMessage
    case TargetsNonEmptyList => TargetsEmptyMessage
    case TargetsAtMostTen => TargetsTooManyMessage
    case TargetsAreCodes => TargetCodeMessage
    case SentencesNonEmptyList => SentencesEmptyMessage
    case SentencesAtMostHundred => SentencesTooManyMessage
    case SentencesWellFormed =>
      if sentences.JList? then FirstSentenceFault(sentences.items).GetOr(BlankSentenceMessage) else BlankSentenceMessage
  }

  /** A well-formed request: a 2-letter source, 1 to 10 2-letter targets,
      1 to 100 non-blank sentences of at most 5000 characters. */
  predicate WellFormedRequest(source: Json, targets: Json, sentences: Json) {
    && IsCode(source)
    && targets.JList? && 1 <= |targets.items| <= MaxTargets
    && (forall k :: 0 <= k < |targets.items| ==> IsCode(targets.items[k]))
    && sentences.JList? && 1 <= |sentences.items| <= MaxSentences
    && (forall k :: 0 <= k < |sentences.items| ==>
          sentences.items[k].JStr? && Strip(sentences.items[k].s) != [] && |sentences.items[k].s| <= MaxSentenceLength)
  }

  /** Rule number i is the first one of RuleOrder that the request breaks. */
  predicate IsFirstBroken(i: nat, source: Json, targets: Json, sentences: Json) {
    && i < |RuleOrder|
    && !Holds(RuleOrder[i], source, targets, sentences)
    && forall j :: 0 <= j < i ==> Holds(RuleOrder[j], source, targets, sentences)
  }

  /** validate_input: None exactly for a well-formed request. */
  function ValidateInput(source: Json, targets: Json, sentences: Json): (r: Option<string>)
    ensures r.None? <==> WellFormedRequest(source, targets, sentences)
  {
    if !IsCode(source) then Some(SourceCodeMessage)
    else if !targets.JList? || |targets.items| == 0 then Some(TargetsEmptyMessage)
    else if |targets.items| > MaxTargets then Some(TargetsTooManyMessage)
    else if exists k :: 0 <= k < |targets.items| && !IsCode(targets.items[k]) then Some(TargetCodeMessage)
    else if !sentences.JList? || |sentences.items| == 0 then Some(SentencesEmptyMessage)
    else if |sentences.items| > MaxSentences then Some(SentencesTooManyMessage)
    else FirstSentenceFault(sentences.items)
  }

  /** The well-formed requests are exactly those that keep every rule. */
  lemma WellFormedIffAllRulesHold(source: Json, targets: Json, sentences: Json)
    ensures WellFormedRequest(source, targets, sentences) <==>
            forall i :: 0 <= i < |RuleOrder| ==> Holds(RuleOrder[i], source, targets, sentences)
  {
    if WellFormedRequest(source, targets, sentences) {
      WellFormedKeepsEveryRule(source, targets, sentences);
    }
    if forall i :: 0 <= i < |RuleOrder| ==> Holds(RuleOrder[i], source, targets, sentences) {
      EveryRuleMakesWellFormed(source, targets, sentences);
    }
  }

  lemma WellFormedKeepsEveryRule(source: Json, targets: Json, sentences: Json)
    requires WellFormedRequest(source, targets, sentences)
    ensures forall i :: 0 <= i < |RuleOrder| ==> Holds(RuleOrder[i], source, targets, sentences)
  {
  }

  lemma EveryRuleMakesWellFormed(source: Json, targets: Json, sentences: Json)
    requires forall i :: 0 <= i < |RuleOrder| ==> Holds(RuleOrder[i], source, targets, sentences)
    ensures WellFormedRequest(source, targets, sentences)
  {
    assert Holds(RuleOrder[0], source, targets, sentences);
    assert Holds(RuleOrder[1], source, targets, sentences);
    assert Holds(RuleOrder[2], source, targets, sentences);
    assert Holds(RuleOrder[3], source, targets, sentences);
    assert Holds(RuleOrder[4], source, targets, sentences);
    assert Holds(RuleOrder[5], source, targets, sentences);
    assert Holds(RuleOrder[6], source, targets, sentences);
  }

  /** Unicode whitespace counts as blank: a sentence made only of no-break
      or ideographic spaces is refused like an empty one. */
  lemma UnicodeSpacesAreBlank(source: Json, target: Json, spaces: string)
    requires IsCode(source) && IsCode(target) && 0 < |spaces| <= MaxSentenceLength
    requires forall k :: 0 <= k < |spaces| ==> spaces[k] == '\U{00A0}' || spaces[k] == '\U{3000}'
    ensures ValidateInput(source, JList([target]), JList([JStr(spaces)])) == Some(BlankSentenceMessage)
  {
    assert AllSpace(spaces);
    assert SentenceFault(JStr(spaces)) == Some(BlankSentenceMessage);
    assert FirstSentenceFault([JStr(spaces)]) == Some(BlankSentenceMessage);
  }

  /** An invalid request is answered with the message of the first rule it
      breaks: the checks short-circuit in RuleOrder. */
  lemma ValidateReportsFirstBrokenRule(source: Json, targets: Json, sentences: Json)
    ensures ValidateInput(source, targets, sentences).Some? ==>
      exists i: nat :: IsFirstBroken(i, source, targets, sentences) &&
        ValidateInput(source, targets, sentences).value == MessageOf(RuleOrder[i], sentences)
  {
    var r := ValidateInput(source, targets, sentences);
    var i: nat;
    if !IsCode(source) {
      i := 0;
    } else if !targets.JList? || |targets.items| == 0 {
      i := 1;
    } else if |targets.items| > MaxTargets {
      i := 2;
    } else if exists k :: 0 <= k < |targets.items| && !IsCode(targets.items[k]) {
      i := 3;
    } else if !sentences.JList? || |sentences.items| == 0 {
      i := 4;
    } else if |sentences.items| > MaxSentences {
      i := 5;
    } else {
      i := 6;
    }
    if r.Some? {
      assert IsFirstBroken(i, source, targets, sentences);
    }
  }
}
