/** Bounded polling of the result store for a job's translations
    (cli/interactive_cli.py, translate; cli/translation_gui.py,
    run_translation and retry_fetch_translations). Attempt k's read of the
    output object is given by an oracle: the document's `translations`
    value, a missing object, or any other failure. Sleeps are counted, not
    taken. */
module Polling {
  import opened Common

  datatype ReadOutcome = Found(translations: Json) | NoSuchKey | OtherError

  const InteractiveAttempts: nat := 30
  const GuiAttempts: nat := 60
  const ExtendedRetryAttempts: nat := 120

  /** Python truthiness of a decoded JSON value. */
  predicate Truthy(v: Json) {
    match v
    case JNull => false
    case JBool(b) => b
    case JNum(n) => n != 0
    case JStr(s) => s != []
    case JList(items) => items != []
    case JObj(fields) => fields != map[]
  }

  /** An attempt that ends the poll with translations in hand. */
  predicate IsHit(r: ReadOutcome) {
    r.Found? && Truthy(r.translations)
  }

  /** The first of attempts 0 .. budget-1 that is a hit. */
  function FirstHit(store: nat -> ReadOutcome, budget: nat): (r: Option<nat>)
    ensures r.Some? ==> r.value < budget && IsHit(store(r.value))
  {
    if budget == 0 then None
    else
      match FirstHit(store, budget - 1)
      case Some(k) => Some(k)
      case None => if IsHit(store(budget - 1)) then Some(budget - 1) else None
  }

  /** There is a first hit exactly when some attempt is a hit, and no
      attempt before it is one. */
  lemma {:induction false} FirstHitMeaning(store: nat -> ReadOutcome, budget: nat)
    ensures FirstHit(store, budget).None? <==> forall k :: 0 <= k < budget ==> !IsHit(store(k))
    ensures FirstHit(store, budget).Some? ==> forall k :: 0 <= k < FirstHit(store, budget).value ==> !IsHit(store(k))
  {
    if budget > 0 {
      FirstHitMeaning(store, budget - 1);
    }
  }

  /** A longer budget finds what a shorter one finds, at the same attempt. */
  lemma {:induction false} FirstHitExtends(store: nat -> ReadOutcome, short: nat, long: nat)
    requires short <= long
    requires FirstHit(store, short).Some?
    ensures FirstHit(store, long) == FirstHit(store, short)
    decreases long - short
  {
    if short < long {
      FirstHitExtends(store, short, long - 1);
    }
  }

  /** A hit, after no earlier one, is the first hit of any longer budget. */
  lemma HitsAt(store: nat -> ReadOutcome, attempt: nat, budget: nat)
    requires attempt < budget && FirstHit(store, attempt).None? && IsHit(store(attempt))
    ensures FirstHit(store, budget) == Some(attempt)
  {
    FirstHitExtends(store, attempt + 1, budget);
  }

  /** The first attempt that ends the interactive poll: a hit, or a failure
      other than a missing object, which propagates out of the loop. */
  function FirstStop(store: nat -> ReadOutcome, budget: nat): (r: Option<nat>)
    ensures r.Some? ==> r.value < budget && (IsHit(store(r.value)) || store(r.value).OtherError?)
  {
    if budget == 0 then None
    else
      match FirstStop(store, budget - 1)
      case Some(k) => Some(k)
      case None => if IsHit(store(budget - 1)) || store(budget - 1).OtherError? then Some(budget - 1) else None
  }

  /** The interactive poll stops exactly when some attempt is a hit or
      another failure, and every attempt before that one was a miss. */
  lemma {:induction false} FirstStopMeaning(store: nat -> ReadOutcome, budget: nat)
    ensures FirstStop(store, budget).None? <==>
      forall k :: 0 <= k < budget ==> !IsHit(store(k)) && !store(k).OtherError?
    ensures FirstStop(store, budget).Some? ==>
      forall k :: 0 <= k < FirstStop(store, budget).value ==> !IsHit(store(k)) && !store(k).OtherError?
  {
    if budget > 0 {
      FirstStopMeaning(store, budget - 1);
    }
  }

  /** Without other failures the interactive poll stops exactly where a
      poll that retries everything would. */
  lemma {:induction false} FirstStopWithoutErrors(store: nat -> ReadOutcome, budget: nat)
    requires forall k :: 0 <= k < budget ==> !store(k).OtherError?
    ensures FirstStop(store, budget) == FirstHit(store, budget)
  {
    if budget > 0 {
      FirstStopWithoutErrors(store, budget - 1);
    }
  }

  /** translations_data after n attempts: the value of the last object read,
      or the initial value when no object was read. */
  function LastRead(initial: Json, store: nat -> ReadOutcome, n: nat): Json {
    if n == 0 then initial
    else if store(n - 1).Found? then store(n - 1).translations
    else LastRead(initial, store, n - 1)
  }

  /** What is left in translations_data was read at some attempt, or is
      the initial value when no read found an object. */
  lemma {:induction false} LastReadOrigin(initial: Json, store: nat -> ReadOutcome, n: nat)
    ensures var v := LastRead(initial, store, n);
      (exists k :: 0 <= k < n && store(k) == Found(v)) || (v == initial && forall k :: 0 <= k < n ==> !store(k).Found?)
  {
    if n > 0 && !store(n - 1).Found? {
      LastReadOrigin(initial, store, n - 1);
    }
  }

  datatype PollOutcome = Retrieved(attempts: nat) | TimedOut | Aborted(attempts: nat)

  /** The interactive client's poll: up to 30 reads, stopping at the first
      non-empty translations; a missing object is retried after a sleep, any
      other failure ends the poll (and the client). */
  method InteractivePoll(initial: Json, store: nat -> ReadOutcome)
    returns (outcome: PollOutcome, data: Json, sleeps: nat)
    requires !Truthy(initial)
    ensures match FirstStop(store, InteractiveAttempts)
      case None => outcome == TimedOut && sleeps == InteractiveAttempts
      case Some(k) => sleeps == k && (if IsHit(store(k)) then outcome == Retrieved(k + 1) else outcome == Aborted(k + 1))
    ensures outcome.Retrieved? ==> Truthy(data) && store(outcome.attempts - 1) == Found(data)
    ensures outcome.TimedOut? ==> data == LastRead(initial, store, InteractiveAttempts) && !Truthy(data)
  {
    data := initial;
    sleeps := 0;
    var attempt := 0;
    while attempt < InteractiveAttempts
      invariant 0 <= attempt <= InteractiveAttempts
      invariant sleeps == attempt
      invariant FirstStop(store, attempt).None?
      invariant data == LastRead(initial, store, attempt)
      invariant !Truthy(data)
    {
      var r := store(attempt);
      if r.OtherError? {
        StopsAt(store, attempt, InteractiveAttempts);
        return Aborted(attempt + 1), data, sleeps;
      }
      if r.Found? {
        data := r.translations;
        if Truthy(data) {
          StopsAt(store, attempt, InteractiveAttempts);
          return Retrieved(attempt + 1), data, sleeps;
        }
      }
      sleeps := sleeps + 1;
      attempt := attempt + 1;
    }
    outcome := TimedOut;
  }

  /** An attempt that ends the poll, after none did, is where it stops. */
  lemma StopsAt(store: nat -> ReadOutcome, attempt: nat, budget: nat)
    requires attempt < budget && FirstStop(store, attempt).None?
    requires IsHit(store(attempt)) || store(attempt).OtherError?
    ensures FirstStop(store, budget) == Some(attempt)
  {
    FirstStopExtends(store, attempt + 1, budget);
  }

  lemma {:induction false} FirstStopExtends(store: nat -> ReadOutcome, short: nat, long: nat)
    requires short <= long
    requires FirstStop(store, short).Some?
    ensures FirstStop(store, long) == FirstStop(store, short)
    decreases long - short
  {
    if short < long {
      FirstStopExtends(store, short, long - 1);
    }
  }

  /** The progress run_translation reports before attempt k of 60. */
  function GuiProgress(attempt: nat): real {
    50.0 + (attempt as real / GuiAttempts as real) * 45.0
  }

  /** Reported progress stays in [50, 95) and rises with every attempt. */
  lemma GuiProgressBounds(attempt: nat)
    requires attempt < GuiAttempts
    ensures 50.0 <= GuiProgress(attempt) < 95.0
    ensures attempt + 1 < GuiAttempts ==> GuiProgress(attempt) < GuiProgress(attempt + 1)
  {
    assert attempt as real <= 59.0;
  }

  /** run_translation's poll: up to 60 reads, stopping at the first
      non-empty translations; every failure is retried after a sleep. Before
      each read the progress is reported. */
  method GuiPoll(store: nat -> ReadOutcome) returns (outcome: PollOutcome, data: Option<Json>, progress: seq<real>)
    ensures match FirstHit(store, GuiAttempts)
      case None => outcome == TimedOut && data == None && |progress| == GuiAttempts
      case Some(k) => outcome == Retrieved(k + 1) && data == Some(store(k).translations) && |progress| == k + 1
    ensures forall k :: 0 <= k < |progress| ==> progress[k] == GuiProgress(k)
  {
    progress := [];
    var attempt := 0;
    while attempt < GuiAttempts
      invariant 0 <= attempt <= GuiAttempts
      invariant |progress| == attempt
      invariant forall k :: 0 <= k < attempt ==> progress[k] == GuiProgress(k)
      invariant FirstHit(store, attempt).None?
    {
      progress := progress + [GuiProgress(attempt)];
      var r := store(attempt);
      if r.Found? && Truthy(r.translations) {
        HitsAt(store, attempt, GuiAttempts);
        return Retrieved(attempt + 1), Some(r.translations), progress;
      }
      attempt := attempt + 1;
    }
    return TimedOut, None, progress;
  }

  /** What retry_fetch_translations ends with. FetchFailed is its outer
      error branch ("Failed to fetch from S3"). */
  datatype RetryOutcome = Shown(translations: Json) | PollingCancelled | NotReadyYet | FetchFailed

  function RetryStatus(o: RetryOutcome): string {
    match o
    case Shown(_) => "✅ Translations retrieved from S3!"
    case PollingCancelled => "Polling cancelled"
    case NotReadyYet => "Translations not ready yet"
    case FetchFailed => "S3 fetch failed"
  }

  /** The status line tells the outcomes apart: two outcomes with the same
      status are both shown translations or are the same outcome. */
  lemma RetryStatusTellsOutcome(a: RetryOutcome, b: RetryOutcome)
    ensures RetryStatus(a) == RetryStatus(b) ==> (a.Shown? && b.Shown?) || a == b
  {
  }

  /** 120 attempts when the user asks for extended polling, otherwise 1. */
  function RetryBudget(extended: bool): nat {
    if extended then ExtendedRetryAttempts else 1
  }

  /** The retry polls 120 times or exactly once, and more than once only
      when extended polling was asked for. */
  lemma RetryBudgetChoices(extended: bool)
    ensures RetryBudget(extended) == 120 || RetryBudget(extended) == 1
    ensures RetryBudget(extended) > 1 <==> extended
  {
  }

  /** The cancel flag as seen before attempt k (or after the loop, k = the
      budget): set once the user cancels, before check cancelAt, and never
      cleared. The Cancel button runs only while the window processes
      events: before the loop (cancelAt 0) or in attempt c - 1's update,
      after its status line and before its read (cancelAt c). */
  predicate CancelledBy(cancelAt: Option<nat>, k: nat) {
    cancelAt.Some? && cancelAt.value <= k
  }

  /** A cancel in attempt c - 1's update destroys the window, so when that
      attempt's read finds no object, the NoSuchKey handler's status-line
      update raises outside the loop's own handlers. */
  predicate CancelledBeforeMissingRead(budget: nat, cancelAt: Option<nat>, store: nat -> ReadOutcome) {
    cancelAt.Some? && 0 < cancelAt.value <= budget && store(cancelAt.value - 1).NoSuchKey?
  }

  /** The outcome the retry promises: translations from the first hit among
      the attempts made before a cancel; otherwise a failure when the cancel
      came just before a missing object was read, cancelled if the flag was
      set by the end, else not ready. */
  function RetrySpec(budget: nat, cancelAt: Option<nat>, store: nat -> ReadOutcome): RetryOutcome {
    var limit := if cancelAt.Some? && cancelAt.value < budget then cancelAt.value else budget;
    match FirstHit(store, limit)
    case Some(k) => Shown(store(k).translations)
    case None =>
      if CancelledBeforeMissingRead(budget, cancelAt, store) then FetchFailed
      else if CancelledBy(cancelAt, budget) then PollingCancelled
      else NotReadyYet
  }

  /** Cancelling and running out of attempts are told apart: without a
      cancel the outcome is never "cancelled", and a cancel before the first
      check stops the poll before any read. */
  lemma RetryOutcomesDistinct(budget: nat, cancelAt: Option<nat>, store: nat -> ReadOutcome)
    ensures cancelAt.None? ==> RetrySpec(budget, cancelAt, store) != PollingCancelled
    ensures cancelAt == Some(0) ==> RetrySpec(budget, cancelAt, store) == PollingCancelled
    ensures cancelAt.None? && FirstHit(store, budget).None? ==> RetrySpec(budget, cancelAt, store) == NotReadyYet
    ensures cancelAt.None? ==> RetrySpec(budget, cancelAt, store) != FetchFailed
    ensures 0 < budget && cancelAt == Some(1) && store(0).NoSuchKey? ==> RetrySpec(budget, cancelAt, store) == FetchFailed
  {
  }

  /** retry_fetch_translations' loop: check the cancel flag, read, stop on
      non-empty translations, swallow every failure except a missing object
      read after a cancel, and sleep only when the budget is more than one
      attempt. */
  method RetryFetch(extended: bool, cancelAt: Option<nat>, store: nat -> ReadOutcome)
    returns (outcome: RetryOutcome, attempts: nat, sleeps: nat)
    ensures outcome == RetrySpec(RetryBudget(extended), cancelAt, store)
    ensures attempts <= RetryBudget(extended)
    ensures RetryBudget(extended) == 1 ==> sleeps == 0
    ensures RetryBudget(extended) > 1 ==> sleeps == (if outcome.Shown? || outcome.FetchFailed? then attempts - 1 else attempts)
  {
    var budget := RetryBudget(extended);
    attempts := 0;
    sleeps := 0;
    var attempt := 0;
    while attempt < budget
      invariant 0 <= attempt <= budget
      invariant attempts == attempt
      invariant sleeps == (if budget > 1 then attempt else 0)
      invariant cancelAt.Some? ==> attempt <= cancelAt.value
      invariant FirstHit(store, attempt).None?
      invariant 0 < attempt && CancelledBy(cancelAt, attempt) ==> !store(attempt - 1).NoSuchKey?
    {
      if CancelledBy(cancelAt, attempt) {
        break;
      }
      attempts := attempts + 1;
      var r := store(attempt);
      if r.Found? && Truthy(r.translations) {
        HitsAt(store, attempt, if cancelAt.Some? && cancelAt.value < budget then cancelAt.value else budget);
        return Shown(r.translations), attempts, sleeps;
      }
      if r.NoSuchKey? && CancelledBy(cancelAt, attempt + 1) {
        // the handler writes to the status line the cancel destroyed
        return FetchFailed, attempts, sleeps;
      }
      if budget > 1 {
        sleeps := sleeps + 1;
      }
      attempt := attempt + 1;
    }
    if CancelledBy(cancelAt, attempt) {
      outcome := PollingCancelled;
    } else {
      outcome := NotReadyYet;
    }
  }
}
