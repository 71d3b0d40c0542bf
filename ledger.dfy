/** The local history ledger the three clients share
    (cli/interactive_cli.py and cli/translation_cli.py _save_to_history,
    _load_history, get_translation_status, list_translations;
    cli/translation_gui.py save_to_history, load_history, refresh_history,
    lookup_translation, on_history_double_click): a JSON file holding the
    most recent records, oldest first. */
module Ledger {
  import opened Common
  import opened Text
  import opened Orchestrator
  import opened Handler

  const MaxRecords: nat := 100
  const RecentShown: nat := 50

  /** One completed job as a client remembers it. The command-line clients
      leave outputBucket absent; the GUI recovers it from the result. */
  datatype HistoryRecord = HistoryRecord(
    translationId: string,
    timestamp: string,
    sourceLang: string,
    targetLangs: seq<string>,
    sentenceCount: nat,
    outputUrl: Option<string>,
    s3Key: Option<string>,
    outputBucket: Option<string>)

  /** The history file as a load finds it. */
  datatype HistoryFile = Missing | Unreadable | Stored(records: seq<HistoryRecord>)

  /** _load_history / load_history: a missing or unreadable file is an
      empty history, never an error. */
  function LoadHistory(f: HistoryFile): (h: seq<HistoryRecord>)
    ensures f.Stored? ==> h == f.records
    ensures !f.Stored? ==> h == []
  {
    if f.Stored? then f.records else []
  }

  /** history[-n:] once the history is longer than n. */
  function Capped<T>(h: seq<T>, n: nat): (r: seq<T>)
    ensures |r| <= |h|
  {
    if |h| > n then h[|h| - n..] else h
  }

  /** Appending and capping keeps at most 100 records, the new one last,
      every older record that fits in its old order, and drops the oldest
      first. */
  lemma {:induction false} AppendCapped<T>(h: seq<T>, r: T)
    requires |h| <= MaxRecords
    ensures var c := Capped(h + [r], MaxRecords);
      && |c| == (if |h| < MaxRecords then |h| + 1 else MaxRecords)
      && c[|c| - 1] == r
      && (|h| < MaxRecords ==> c == h + [r])
      && (|h| == MaxRecords ==> c == h[1..] + [r])
  {
    var c := Capped(h + [r], MaxRecords);
    if |h| == MaxRecords {
      assert c == (h + [r])[1..];
      assert (h + [r])[1..] == h[1..] + [r];
    }
  }

  /** Capping keeps a suffix: every kept record was in the input, in the
      same relative order, and the last one is the input's last. */
  lemma CappedIsSuffix<T>(h: seq<T>, n: nat)
    ensures var c := Capped(h, n);
      && |c| == (if |h| > n then n else |h|)
      && c == h[|h| - |c|..]
  {
  }

  /** The history file, updated in place by each save. */
  class HistoryStore {
    var file: HistoryFile

    constructor(initial: HistoryFile)
      ensures file == initial
    {
      file := initial;
    }

    function Load(): seq<HistoryRecord>
      reads this
    {
      LoadHistory(file)
    }

    /** _save_to_history / save_to_history: load, append one record, keep
        the last 100, write back. */
    method Save(record: HistoryRecord)
      modifies this
      ensures file == Stored(Capped(LoadHistory(old(file)) + [record], MaxRecords))
      ensures |Load()| <= MaxRecords && Load() != [] && Load()[|Load()| - 1] == record
    {
      var history := LoadHistory(file);
      history := history + [record];
      if |history| > MaxRecords {
        history := history[|history| - MaxRecords..];
      }
      file := Stored(history);
    }
  }

  /** The record both command-line clients save after an accepted job
      (_save_to_history): the server's id and output location, no bucket. */
  function CliRecord(reply: Response, timestamp: string, source: string, targets: seq<string>, count: nat): (r: HistoryRecord)
    requires reply.Accepted?
    ensures r.translationId == reply.translationId && r.outputBucket.None?
    ensures r.outputUrl == Some(reply.outputLocation.url) && r.s3Key == Some(reply.outputLocation.key)
  {
    HistoryRecord(reply.translationId, timestamp, source, targets, count,
                  Some(reply.outputLocation.url), Some(reply.outputLocation.key), None)
  }

  /** A job's record, once saved, is what a later status query by the same
      id finds, whatever the file held before. */
  lemma SavedRecordFound(f: HistoryFile, record: HistoryRecord)
    ensures var h := Capped(LoadHistory(f) + [record], MaxRecords);
      GetTranslationStatus(h, record.translationId).Some?
  {
    var all := LoadHistory(f) + [record];
    var h := Capped(all, MaxRecords);
    assert h != [] && h[|h| - 1] == record by {
      if |all| > MaxRecords {
        assert h == all[|all| - MaxRecords..];
      }
    }
    assert !(forall j :: 0 <= j < |h| ==> h[j].translationId != record.translationId);
  }

  /** The history a command-line client keeps for an accepted job points at
      the object where the server stored that job's translations. */
  lemma CliRecordPointsAtResult(event: map<string, Json>, parseJson: string -> Option<Json>, env: Env, clock: Clock,
                                id: string, backend: Backend, inputPutOk: bool,
                                timestamp: string, source: string, targets: seq<string>, count: nat)
    requires ValidDate(clock.inputDay) && ValidDate(clock.outputDay)
    requires RequestData(event, parseJson).Some? && Admitted(RequestData(event, parseJson).value)
    ensures var o := LambdaHandler(event, parseJson, env, clock, id, backend, inputPutOk, true);
      && o.response.Accepted?
      && var r := CliRecord(o.response, timestamp, source, targets, count);
      && r.translationId == id
      && r.s3Key == Some(OutputKey(clock.outputDay, id))
      && o.stored[|o.stored| - 1].key == r.s3Key.value
  {
    AcceptedJob(event, parseJson, env, clock, id, backend, inputPutOk);
  }

  /** The index of the first record whose id equals the given one. */
  function FindExact(h: seq<HistoryRecord>, id: string): (r: Option<nat>)
    ensures r.None? <==> forall j :: 0 <= j < |h| ==> h[j].translationId != id
    ensures r.Some? ==> r.value < |h| && h[r.value].translationId == id &&
                        forall j :: 0 <= j < r.value ==> h[j].translationId != id
  {
    if h == [] then None
    else if h[0].translationId == id then Some(0)
    else
      match FindExact(h[1..], id)
      case None => None
      case Some(i) => Some(i + 1)
  }

  /** The index of the first (oldest) record whose id starts with the prefix. */
  function FindByPrefix(h: seq<HistoryRecord>, prefix: string): (r: Option<nat>)
    ensures r.None? <==> forall j :: 0 <= j < |h| ==> !StartsWith(h[j].translationId, prefix)
    ensures r.Some? ==> r.value < |h| && StartsWith(h[r.value].translationId, prefix) &&
                        forall j :: 0 <= j < r.value ==> !StartsWith(h[j].translationId, prefix)
  {
    if h == [] then None
    else if StartsWith(h[0].translationId, prefix) then Some(0)
    else
      match FindByPrefix(h[1..], prefix)
      case None => None
      case Some(i) => Some(i + 1)
  }

  /** get_translation_status: the first record with exactly this id, or
      nothing (the empty dictionary). */
  function GetTranslationStatus(h: seq<HistoryRecord>, id: string): (r: Option<HistoryRecord>)
    ensures r.Some? ==> exists i :: 0 <= i < |h| && r.value == h[i] && h[i].translationId == id &&
                          forall j :: 0 <= j < i ==> h[j].translationId != id
    ensures r.None? <==> forall j :: 0 <= j < |h| ==> h[j].translationId != id
  {
    match FindExact(h, id)
    case None => None
    case Some(i) => Some(h[i])
  }

  /** A full id is a prefix of itself, so prefix lookup never misses a
      record exact lookup finds, and finds it or an older record. */
  lemma PrefixLookupCoversExact(h: seq<HistoryRecord>, id: string)
    ensures FindExact(h, id).Some? ==>
      FindByPrefix(h, id).Some? && FindByPrefix(h, id).value <= FindExact(h, id).value
  {
    match FindExact(h, id)
    case None =>
    case Some(i) =>
      assert StartsWith(h[i].translationId, id);
  }

  /** With ids that share no prefix relation, prefix lookup by a full id
      finds exactly the record exact lookup finds. */
  lemma PrefixLookupExactWhenIdsIndependent(h: seq<HistoryRecord>, id: string)
    requires forall j :: 0 <= j < |h| && StartsWith(h[j].translationId, id) ==> h[j].translationId == id
    ensures FindByPrefix(h, id) == FindExact(h, id)
  {
    match FindExact(h, id)
    case None =>
      assert forall j :: 0 <= j < |h| ==> !StartsWith(h[j].translationId, id);
    case Some(i) =>
      assert StartsWith(h[i].translationId, id);
      var p := FindByPrefix(h, id);
      assert p.Some? && p.value <= i;
      assert h[p.value].translationId == id;
  }

  /** What lookup_translation reports. */
  datatype LookupOutcome = AskForId | Found(record: HistoryRecord) | NotFound(id: string)

  /** lookup_translation: strip the typed id; an empty one is refused;
      otherwise the oldest record whose id starts with it. */
  function LookupTranslation(h: seq<HistoryRecord>, typed: string): (r: LookupOutcome)
    ensures r.AskForId? <==> Strip(typed) == []
    ensures r.Found? ==> exists i :: 0 <= i < |h| && r.record == h[i] && StartsWith(h[i].translationId, Strip(typed)) &&
                           forall j :: 0 <= j < i ==> !StartsWith(h[j].translationId, Strip(typed))
    ensures r.NotFound? ==> r.id == Strip(typed) && forall j :: 0 <= j < |h| ==> !StartsWith(h[j].translationId, r.id)
  {
    var id := Strip(typed);
    if id == [] then AskForId
    else
      match FindByPrefix(h, id)
      case None => NotFound(id)
      case Some(i) => Found(h[i])
  }

  /** The id as the history table shows it: the first 8 characters and "...". */
  function ShownId(id: string): (shown: string)
    ensures |shown| == (if |id| <= 8 then |id| else 8) + 3
    ensures shown[..|shown| - 3] == id[..|shown| - 3] && shown[|shown| - 3..] == "..."
  {
    (if |id| <= 8 then id else id[..8]) + "..."
  }

  /** on_history_double_click: the shown id with every "..." removed,
      looked up as a prefix. */
  function RecordForRow(h: seq<HistoryRecord>, shown: string): (r: Option<HistoryRecord>)
    ensures r.None? <==> forall j :: 0 <= j < |h| ==> !StartsWith(h[j].translationId, RemoveAll(shown, "..."))
    ensures r.Some? ==> exists i :: 0 <= i < |h| && r.value == h[i] && StartsWith(h[i].translationId, RemoveAll(shown, "...")) &&
                          forall j :: 0 <= j < i ==> !StartsWith(h[j].translationId, RemoveAll(shown, "..."))
  {
    match FindByPrefix(h, RemoveAll(shown, "..."))
    case None => None
    case Some(i) => Some(h[i])
  }

  /** Only 8 characters of the id survive into the table, so a double click
      on a row opens the oldest record sharing those 8 characters, which
      need not be the row's own. */
  lemma DoubleClickOpensOldestSharingShownPrefix(older: HistoryRecord, newer: HistoryRecord)
    requires |older.translationId| >= 8 && |newer.translationId| >= 8
    requires '.' !in newer.translationId[..8]
    requires older.translationId[..8] == newer.translationId[..8]
    ensures RecordForRow([older, newer], ShownId(newer.translationId)) == Some(older)
  {
    var p := newer.translationId[..8];
    var shown := ShownId(newer.translationId);
    assert shown == p + "...";
    NoMatchWithoutFirstChar(p, "...", "...");
    RemoveAllAppend(p, "...", "...");
    assert RemoveAll("...", "...") == RemoveAll([], "...");
    assert p + [] == p;
    assert StartsWith(older.translationId, p);
  }

  /** What list_translations prints: nothing to list, or a header count and
      the records shown. */
  datatype Listing = NoHistory | Listed(headerCount: int, shown: seq<HistoryRecord>)

  /** Python's h[-limit:]. */
  function TailByNegativeIndex<T>(h: seq<T>, limit: int): (r: seq<T>)
    ensures |r| <= |h|
  {
    var start := -limit;
    var from := if start < 0 then (if start + |h| < 0 then 0 else start + |h|) else (if start > |h| then |h| else start);
    h[from..]
  }

  /** list_translations as written: the header promises min(limit, len)
      records and the loop shows history[-limit:]. */
  function ListAsWritten(h: seq<HistoryRecord>, limit: int): (r: Listing)
    ensures r.NoHistory? <==> h == []
  {
    if h == [] then NoHistory
    else Listed(if limit < |h| then limit else |h|, TailByNegativeIndex(h, limit))
  }

  /** For a positive limit the written listing is right: the last
      min(limit, len) records, as the header says. */
  lemma ListAsWrittenPositive(h: seq<HistoryRecord>, limit: int)
    requires h != [] && limit > 0
    ensures var r := ListAsWritten(h, limit);
      r.Listed? && |r.shown| == r.headerCount && r.shown == h[|h| - r.headerCount..]
  {
  }

  /** A limit of 0 shows the whole history under a header announcing 0
      records (-0 is 0, and h[0:] is everything). */
  lemma ListAsWrittenZeroShowsAll(h: seq<HistoryRecord>)
    requires h != []
    ensures ListAsWritten(h, 0) == Listed(0, h)
  {
  }

  /** The listing the header describes: the last min(limit, len) records,
      none for a limit of 0 or below. */
  function ListRecent(h: seq<HistoryRecord>, limit: int): (r: Listing)
    ensures r.NoHistory? <==> h == []
    ensures r.Listed? ==> 0 <= r.headerCount <= |h| && |r.shown| == r.headerCount
    ensures r.Listed? ==> r.shown == h[|h| - r.headerCount..]
    ensures r.Listed? ==> r.headerCount == (if limit <= 0 then 0 else if limit < |h| then limit else |h|)
  {
    if h == [] then NoHistory
    else
      var n := if limit <= 0 then 0 else if limit < |h| then limit else |h|;
      Listed(n, h[|h| - n..])
  }

  /** The corrected listing agrees with the written one for every positive
      limit. */
  lemma ListRecentAgreesForPositiveLimit(h: seq<HistoryRecord>, limit: int)
    requires limit > 0
    ensures ListRecent(h, limit) == ListAsWritten(h, limit)
  {
  }

  function Reverse<T>(s: seq<T>): (r: seq<T>)
    ensures |r| == |s|
    ensures forall k :: 0 <= k < |s| ==> r[k] == s[|s| - 1 - k]
  {
    if s == [] then [] else [s[|s| - 1]] + Reverse(s[..|s| - 1])
  }

  /** refresh_history: reversed(history[-50:]), the newest record first. */
  function RecentFirst(h: seq<HistoryRecord>): (r: seq<HistoryRecord>)
    ensures |r| == (if |h| < RecentShown then |h| else RecentShown)
    ensures forall k :: 0 <= k < |r| ==> r[k] == h[|h| - 1 - k]
  {
    Reverse(Capped(h, RecentShown))
  }

  /** Saving a record puts it at the top of the GUI's history table. */
  lemma SavedRecordShownFirst(h: seq<HistoryRecord>, record: HistoryRecord)
    requires |h| <= MaxRecords
    ensures RecentFirst(Capped(h + [record], MaxRecords))[0] == record
  {
    AppendCapped(h, record);
  }
}
