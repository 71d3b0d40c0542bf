# Translation job lifecycle, modelled in Dafny

This project models the core of a small AWS translation service and its three clients.

**The server.** A Lambda handler receives a request of a source language, target languages and sentences. It:

- checks the required fields, then validates them rule by rule, reporting the first broken rule;
- translates every (language, sentence) pair, keeping a failed call inside its own slot;
- writes a best-effort audit copy of the request and the result, under date-partitioned S3 keys;
- answers with where the result will be.

**The clients.** Two command-line clients and a Tk desktop client:

- read sentences from files or a text box;
- split long jobs into batches of `batch_size` sentences, sent in order with a pause between batches;
- poll S3 for the result with a bounded number of attempts (30, 60, or 120/1 with a cancel flag);
- normalise what they read to a dictionary of lists;
- keep a local history ledger capped at 100 records, with exact and prefix lookup and "last k" listings.

External effects are parameters of the model:

- the translation backend is a function from one call (text, source, target, sentence position) to a result, so every call has an outcome of its own;
- S3 reads are a sequence of outcomes, one per poll attempt;
- S3 writes are booleans;
- `json.loads` is a partial function;
- the uuid, the dates and the timestamps are plain values;
- sleeps appear as steps in a trace, or as a count.

Modules, one per component:

| module | file | covers |
|---|---|---|
| `Common` | common.dfy | Option, Result, decoded JSON values, input files, duplicates |
| `Text` | text.dfy | Python's `strip`, `lower`, `split`, `replace`, `startswith`, line reading |
| `Validation` | validation.dfy | `validate_input` |
| `Orchestrator` | orchestrator.dfy | `process_translations`, `batch_translate` |
| `Handler` | handler.dfy | `lambda_handler`, storage keys, the two writes, error responses |
| `Batching` | batching.dfy | slicing into batches, the send/pause schedule, sending batches in order |
| `Ledger` | ledger.dfy | the history file, lookups, listings |
| `Polling` | polling.dfy | the three poll loops |
| `TranslationCli` | translation_cli.dfy | cli/translation_cli.py |
| `InteractiveCli` | interactive_cli.dfy | cli/interactive_cli.py |
| `TranslationGui` | translation_gui.dfy | cli/translation_gui.py |

Behaviour of the code worth knowing before reading the contracts:

- **Prefix lookup returns the oldest match.** `lookup_translation` and `on_history_double_click` scan the history oldest first, so they return the first matching record in file order, not the newest one.
- **The server's success reply carries no translations.** `translation_cli.py` therefore shows an empty table (`result.get('translations', {})`) and never reads S3. The interactive client polls S3 only when it has an S3 client and the reply names a key. The GUI polls S3 for them.
- **A sentence's two checks are interleaved.** `validate_input` checks "blank" and "too long" sentence by sentence, so the first faulty sentence decides which of the two messages is reported.
- **A sentence of exactly 5000 characters is accepted,** despite the message "less than 5000".

## Model

| member | source | states |
|---|---|---|
| Common.Count | lambda_code/lambda_function.py:219-221 | occurrences of a value: at most the length, zero exactly when absent (how often a repeated target is visited) |
| Common.CountNoDup | cli/interactive_cli.py:621-624 | a target named once among distinct targets is visited exactly once |
| Common.Dedup | lambda_code/lambda_function.py:217-221 | the distinct targets, in first-occurrence order: no duplicates, same members, never longer |
| Common.DedupOfDistinct | lambda_code/lambda_function.py:217-221 | distinct targets are kept as they are |
| Common.DedupShorterWithDuplicate | lambda_code/lambda_function.py:217-221 | a repeated target makes the key set strictly smaller than the target list |
| Common.DedupKeepsLength | lambda_code/lambda_function.py:217-221 | key count equals target count if and only if the targets are distinct |
| Common.JsonStrings | cli/interactive_cli.py:224-231 | the lines as JSON strings, one per line, in order |
| Text.TrimStart | lambda_code/lambda_function.py:204 | `lstrip()` with Python's full `isspace` set (ASCII whitespace, U+0085, U+00A0, U+1680, U+2000-U+200A, U+2028, U+2029, U+202F, U+205F, U+3000): a suffix of the text, dropping only whitespace, starting with a non-space character |
| Text.TrimEnd | lambda_code/lambda_function.py:204 | `rstrip()` with the same whitespace set: a prefix of the text, dropping only whitespace, ending with a non-space character |
| Text.Strip | lambda_code/lambda_function.py:204 | `str.strip()` with Python's full whitespace set: never longer; empty exactly for all-whitespace text (so "\u00a0" strips to ""); no whitespace at either end of a non-empty result |
| Text.StripAt | lambda_code/lambda_function.py:204 | `strip()` is `lstrip()` followed by `rstrip()`: it removes the leading and the trailing whitespace run and nothing else |
| Text.StripIdempotent | cli/interactive_cli.py:227 | stripping twice is stripping once |
| Text.LowerChar | cli/translation_gui.py:601-602 | `lower()` on one character, for the ASCII capitals: shifted by 32; every other character unchanged |
| Text.Lower | cli/translation_gui.py:601-602 | `lower()` restricted to ASCII capitals: same length, character by character |
| Text.LowerKeepsSpace | cli/translation_gui.py:601-602 | lowering a character never makes or removes whitespace |
| Text.LowerTail | cli/translation_gui.py:601-602 | lowering and dropping the first character commute |
| Text.LowerInit | cli/translation_gui.py:601-602 | lowering and dropping the last character commute |
| Text.StripLowerCommute | cli/translation_gui.py:601-602 | `s.lower().strip() == s.strip().lower()` for every text, so the GUI and the prompt normalise codes alike |
| Text.IndexOf | cli/translation_gui.py:716 | first position of a character |
| Text.IndexOfIs | cli/translation_gui.py:716 | a position with no earlier occurrence is the first |
| Text.Split | cli/translation_gui.py:631 | `str.split(sep)`: at least one part, no part contains the separator |
| Text.SplitAt | cli/translation_gui.py:631 | the first separator ends the first part; splitting continues after it |
| Text.JoinCons | cli/translation_gui.py:631 | joining a part in front of a non-empty list puts one separator between |
| Text.SplitJoinStep | cli/translation_gui.py:631 | a separator-free part followed by the separator splits off as the first part |
| Text.JoinSplit | cli/translation_gui.py:631 | joining the parts of a split restores the text |
| Text.SplitJoin | cli/translation_gui.py:631 | splitting a join of separator-free parts restores the parts |
| Text.RemoveAll | cli/translation_gui.py:716 | `replace(pat, "")`: never longer than the input |
| Text.RemoveAllNoMatch | cli/translation_gui.py:716 | text without the pattern is unchanged |
| Text.RemoveAllAppend | cli/translation_gui.py:716 | when no occurrence of the pattern starts inside a prefix, the prefix passes through and removal continues in the rest |
| Text.RemoveAllKeepsFirst | cli/translation_gui.py:716 | a character where no occurrence starts is kept, and removal continues after it |
| Text.NoMatchWithoutFirstChar | cli/translation_gui.py:716 | no occurrence starts in a prefix that lacks the pattern's first character |
| Text.KeptLines | cli/interactive_cli.py:224-231 | the stripped non-blank lines in file order; with comment skipping, none starts with '#' |
| Text.KeptLinesOfCleanLines | cli/translation_cli.py:418-420 | lines that are already clean come back unchanged |
| Text.OneSentencePerLineRoundTrip | cli/translation_cli.py:418-420 | sentences written one per line are read back exactly |
| Validation.SentenceFault | lambda_code/lambda_function.py:204-208 | no fault if and only if the sentence is a non-blank string of at most 5000 characters; blank is reported before too long |
| Validation.UnicodeSpacesAreBlank | lambda_code/lambda_function.py:204-205 | a sentence of no-break or ideographic spaces is refused as blank, as Python's `strip()` empties it |
| Validation.FirstSentenceFault | lambda_code/lambda_function.py:204-208 | no fault if and only if every sentence is fine; otherwise the fault of the first faulty sentence |
| Validation.ValidateInput | lambda_code/lambda_function.py:178-210 | None if and only if the request is well formed |
| Validation.WellFormedIffAllRulesHold | lambda_code/lambda_function.py:178-210 | well formed if and only if all seven rules hold |
| Validation.EveryRuleMakesWellFormed | lambda_code/lambda_function.py:178-210 | a request keeping all seven rules is well formed |
| Validation.ValidateReportsFirstBrokenRule | lambda_code/lambda_function.py:178-210 | a reported message is that of the first broken rule in the order source, targets, target count, target codes, sentences, sentence count, sentence contents |
| Orchestrator.Row | lambda_code/lambda_function.py:223-240 | one cell per sentence |
| Orchestrator.Expected | lambda_code/lambda_function.py:217-242 | keys exactly the target languages, each list as long as the sentence list |
| Orchestrator.ProcessTranslations | lambda_code/lambda_function.py:212-242 | the nested loop builds exactly `Expected`, with a repeated target's list restarted |
| Orchestrator.CellReflectsCall | lambda_code/lambda_function.py:223-240 | cell (lang, i) holds the answer of the call for the stripped sentence i into lang, or "[Translation Error: msg]" |
| Orchestrator.FailureIsolated | lambda_code/lambda_function.py:223-240 | changing the outcome of the one call for (sentence i, language) changes no other language's list and no other slot of that language's list |
| Orchestrator.BatchTranslate | lambda_code/lambda_function.py:324-346 | batch size 0 raises; negative gives []; positive gives one cell per sentence in order, from that sentence's own call, "[Error: msg]" for failures |
| Handler.Pow10 | lambda_code/lambda_function.py:62 | the bound of a zero-padded field is positive |
| Handler.DigitChar | lambda_code/lambda_function.py:62 | a digit's character |
| Handler.Pad | lambda_code/lambda_function.py:62 | `strftime` zero padding: the width asked for, all digits |
| Handler.PadRoundTrip | lambda_code/lambda_function.py:62 | a padded number reads back as itself |
| Handler.DatePath | lambda_code/lambda_function.py:62 | `YYYY/MM/DD`: ten characters with slashes at 4 and 7 |
| Handler.InputKeyShape | lambda_code/lambda_function.py:62 | `requests/` then the date path, `/`, the id and `_request.json`, at fixed offsets |
| Handler.OutputKeyShape | lambda_code/lambda_function.py:92 | `translations/` then the date path, `/`, the id and `.json`, at fixed offsets |
| Handler.S3UrlShape | lambda_code/lambda_function.py:267 | `s3://`, the bucket, `/`, then the key |
| Handler.DatePathInjective | lambda_code/lambda_function.py:62 | different days give different date paths |
| Handler.OutputKeyInjective | lambda_code/lambda_function.py:92 | `translations/YYYY/MM/DD/<id>.json` determines the day and the id |
| Handler.InputKeyInjective | lambda_code/lambda_function.py:62 | `requests/YYYY/MM/DD/<id>_request.json` determines the day and the id |
| Handler.StoreInputRequest | lambda_code/lambda_function.py:137-176 | a failed audit write is swallowed as ""; a successful one stores one object under the input key |
| Handler.StoreResult | lambda_code/lambda_function.py:244-274 | succeeds if and only if the write does, returning the s3:// URL and storing the document under the output key |
| Handler.ErrorResponse | lambda_code/lambda_function.py:276-296 | the given status code, and a body with `success` false and an `error` object carrying the same code and the message |
| Handler.RequestData | lambda_code/lambda_function.py:31-37 | a string body is decoded (None exactly when it does not decode); any other body is taken as it is; without a body the whole event is the request |
| Handler.FirstMissingField | lambda_code/lambda_function.py:40-43 | on an object: none missing if and only if all three fields are present; otherwise the first absent field in order |
| Handler.Strings | lambda_code/lambda_function.py:46-48 | the validated sentences as strings, in order |
| Handler.StringsOfJsonStrings | lambda_code/lambda_function.py:46-48 | strings sent as JSON strings are read back unchanged |
| Handler.SumOfEqualLengths | lambda_code/lambda_function.py:123 | lists of equal length n over k keys sum to n times k |
| Handler.FirstMissingOfObject | lambda_code/lambda_function.py:40-43 | the missing field reported is source_language, then target_languages, then sentences |
| Handler.Intake | lambda_code/lambda_function.py:30-53 | admitted if and only if the body decodes and every field and rule holds; invalid JSON gives 400; each missing field gives its 400; a validation message gives 400 |
| Handler.Run | lambda_code/lambda_function.py:55-135 | accepted if and only if the output write succeeds; otherwise 500 "Internal server error" |
| Handler.LambdaHandler | lambda_code/lambda_function.py:23-135 | status is 200, 400 or 500; a 400 stores nothing; accepted if and only if the request is admitted and the output write succeeds |
| Handler.InputAuditBestEffort | lambda_code/lambda_function.py:173-176 | the response does not depend on whether the audit write succeeded |
| Handler.OutputWriteFatal | lambda_code/lambda_function.py:272-274 | a failed output write gives 500 with at most the audit copy stored |
| Handler.AcceptedJob | lambda_code/lambda_function.py:55-127 | an accepted job names the output key and URL, counts the sentences and `n * distinct targets` translations, and stores `Expected` under the output key |
| Handler.TranslationsGeneratedCount | lambda_code/lambda_function.py:123 | `translations_generated` equals `n * len(targets)` if and only if there are no sentences or the targets are distinct |
| Handler.MulCancel | lambda_code/lambda_function.py:123 | arithmetic step of the count |
| Batching.Slices | cli/interactive_cli.py:601-604 | `sentences[i:i+B]` for i = 0, B, 2B, …: each slice has 1 to B items |
| Batching.SlicesCount | cli/translation_cli.py:432-435 | enough slices of B for N items, and one fewer would not do; none for no items |
| Batching.SlicesFlatten | cli/interactive_cli.py:601-604 | the slices concatenate back to the input |
| Batching.SlicesFull | cli/interactive_cli.py:601-604 | every slice but the last has exactly B items |
| Batching.SlicesFromTail | cli/translation_cli.py:432-433 | the slices the loop takes from index i on are the slices of the rest of the list |
| Batching.Schedule | cli/translation_cli.py:432-445 | the send/pause steps of n batches: 2n-1 steps |
| Batching.ScheduleShape | cli/translation_cli.py:432-445 | batch k is sent at step 2k and a pause sits between consecutive sends |
| Batching.ScheduleSnoc | cli/interactive_cli.py:626-628 | one more batch adds a pause and a send |
| Batching.PausesBetweenOnly | cli/interactive_cli.py:626-628 | the last step is a send, and there are exactly n-1 pauses |
| Batching.PauseCount | cli/translation_cli.py:443-445 | at most the number of steps |
| Batching.PauseCountAppend | cli/translation_cli.py:443-445 | pauses of a concatenation add up |
| Batching.SendAllMeaning | cli/translation_cli.py:432-448 | answered with one reply per batch if and only if every batch is answered; a stop names the first unanswered batch |
| Batching.SendAllStopsForGood | cli/translation_cli.py:432-448 | once a batch fails, later batches change nothing |
| Batching.SendAllSnoc | cli/translation_cli.py:432-448 | one more batch appends its reply or stops there |
| Batching.TraceTurn | cli/translation_cli.py:432-445 | a send after a pause continues the schedule |
| Batching.SendTurn | cli/translation_cli.py:432-448 | one loop step keeps the outcome equal to `SendAll` of the batches sent |
| Batching.RunFromSlices | cli/translation_cli.py:432-448 | the loop from index i sends exactly the slices from i on, in order |
| Batching.RunOverMeaning | cli/translation_cli.py:432-448 | from any point where the batches so far were answered, the run ends with outcome `SendAll` and the schedule of the batches sent |
| Batching.RunMeaning | cli/translation_cli.py:427-448 | the whole run has outcome `SendAll(Slices)` and the full schedule, or the schedule up to the first unanswered batch |
| Batching.SendBatches | cli/translation_cli.py:427-448 | the loop sends the slices in order: outcome `SendAll(Slices)`, and a trace of the full schedule, or the schedule up to the failed batch |
| Batching.RepeatLength | cli/interactive_cli.py:621-624 | a list extended c times over grows by c times its length |
| Ledger.LoadHistory | cli/interactive_cli.py:833-842 | the stored records; [] for a missing or unreadable file |
| Ledger.Capped | cli/translation_cli.py:387-388 | never longer than its input |
| Ledger.AppendCapped | cli/interactive_cli.py:824-828 | appending to at most 100 records: under the cap the record is added; at the cap the oldest is dropped; the new record is last |
| Ledger.CappedIsSuffix | cli/translation_cli.py:387-388 | the cap keeps the last min(n, len) records |
| Ledger.HistoryStore.Save | cli/interactive_cli.py:809-831 | the file becomes the loaded history plus the record, capped at 100, ending with the record |
| Ledger.CliRecord | cli/translation_cli.py:373-382 | the command-line record keeps the server's id, URL and key, and no bucket |
| Ledger.SavedRecordFound | cli/translation_cli.py:368-390 | after a save, looking up the saved id finds a record |
| Ledger.CliRecordPointsAtResult | cli/translation_cli.py:373-382 | the record of an accepted job names the key the server wrote the result under |
| Ledger.FindExact | cli/translation_cli.py:319-340 | the first record with exactly this id, or none if and only if no record has it |
| Ledger.FindByPrefix | cli/translation_gui.py:1544-1562 | the first (oldest) record whose id starts with the prefix, or none if and only if none does |
| Ledger.GetTranslationStatus | cli/interactive_cli.py:756-781 | the first record in file order with this id; empty if and only if none has it |
| Ledger.PrefixLookupCoversExact | cli/translation_gui.py:1544-1562 | prefix lookup with a full id finds a match no later than the exact one |
| Ledger.PrefixLookupExactWhenIdsIndependent | cli/translation_gui.py:1544-1562 | when no other id extends this one, prefix and exact lookup agree |
| Ledger.LookupTranslation | cli/translation_gui.py:1530-1569 | a blank entry asks for an id; otherwise the first (oldest) record whose id starts with the stripped entry; not found means no id does |
| Ledger.ShownId | cli/translation_gui.py:1014 | the first 8 characters of the id (all of a shorter one) followed by "..." |
| Ledger.RecordForRow | cli/translation_gui.py:1032-1044 | the first (oldest) record whose id starts with the row's text less every "...", none if and only if no id does |
| Ledger.DoubleClickOpensOldestSharingShownPrefix | cli/translation_gui.py:1032-1044 | a row shows 8 characters, so double-clicking the newer of two records sharing them opens the older |
| Ledger.TailByNegativeIndex | cli/translation_cli.py:361 | `h[-limit:]` is never longer than h |
| Ledger.ListAsWritten | cli/translation_cli.py:350-366 | nothing to list if and only if the history is empty |
| Ledger.ListAsWrittenPositive | cli/translation_cli.py:358-361 | for a positive limit, the last min(limit, len) records, as the header says |
| Ledger.ListAsWrittenZeroShowsAll | cli/interactive_cli.py:799-802 | a limit of 0 shows every record under a header announcing 0 |
| Ledger.ListRecent | cli/interactive_cli.py:791-807 | the header count is min(limit, len), or 0 for a limit of 0 or less, and exactly that many newest records are shown in order |
| Ledger.ListRecentAgreesForPositiveLimit | cli/interactive_cli.py:799-802 | the corrected listing equals the written one for every positive limit |
| Ledger.Reverse | cli/translation_gui.py:1012 | `reversed`: element k is element len-1-k |
| Ledger.RecentFirst | cli/translation_gui.py:1012 | at most 50 rows, newest first |
| Ledger.SavedRecordShownFirst | cli/translation_gui.py:980-983 | after a save, the first row of the history tab is the saved record |
| TranslationCli.TestPayloadAdmitted | cli/translation_cli.py:77-81 | the connection test's request passes the server's checks |
| TranslationCli.TestConnection | cli/translation_cli.py:84-86 | the test passes for status 200 or 400, fails for any other status, and fails when the request raises |
| TranslationCli.TestConnectionReflectsStorage | cli/translation_cli.py:84-86 | against this server, the test succeeds if and only if the result write succeeds (status 200 or 400) |
| TranslationCli.ReportFailure | cli/translation_cli.py:191-198 | a non-200 reply reports `error.message`, or "Unknown error" exactly when there is none; every decoded object whose "error" is absent or an object is reported, one whose "error" is anything else crashes; an undecodable body ends the program; a non-object body crashes |
| TranslationCli.ServerErrorsReportedVerbatim | cli/translation_cli.py:195-198 | the message of a server error response is the one reported |
| TranslationCli.HandlerErrorsReportedVerbatim | cli/translation_cli.py:191-198 | every non-200 reply this server can send is an error response, and the client reports the server's own message |
| TranslationCli.ReadSentences | cli/translation_cli.py:408-420 | missing file and invalid JSON are told apart; a JSON list is used as is; an object's "sentences" value is passed on whatever it is; any other JSON value becomes the one sentence `str(value)`; a text file gives its stripped non-empty lines, '#' lines included |
| TranslationCli.TextFileRoundTrip | cli/translation_cli.py:418-420 | sentences written one per line are read back exactly |
| TranslationCli.TranslateFile | cli/translation_cli.py:403-458 | no sentences is an error; up to the batch size one request; batch size 0 raises; negative sends nothing; otherwise `SendAll` of the slices in order, with pauses only between batches |
| Polling.FirstHit | cli/translation_gui.py:735-786 | an attempt within the budget whose read is a hit |
| Polling.FirstHitMeaning | cli/translation_gui.py:735-786 | none if and only if no attempt within the budget hits; no attempt before the found one hits |
| Polling.HitsAt | cli/translation_gui.py:743-786 | the first hit within a larger budget is an attempt that hits after none did |
| Polling.FirstHitExtends | cli/translation_gui.py:1663-1700 | a larger budget finds the same first hit |
| Polling.FirstStop | cli/interactive_cli.py:517-527 | an attempt within the budget that is a hit or a non-NoSuchKey error |
| Polling.FirstStopMeaning | cli/interactive_cli.py:517-527 | none if and only if every attempt within the budget is a miss or NoSuchKey; no attempt before the found one stops |
| Polling.StopsAt | cli/interactive_cli.py:517-527 | the first stop within a larger budget is an attempt that stops after none did |
| Polling.FirstStopWithoutErrors | cli/interactive_cli.py:517-527 | without other errors the interactive poll stops where a retry-everything poll would |
| Polling.LastReadOrigin | cli/interactive_cli.py:521-522 | what is left in `translations_data` was read at some attempt, or is the initial value |
| Polling.InteractivePoll | cli/interactive_cli.py:510-527 | at most 30 attempts; stops at the first hit (retrieved) or other error (aborted); otherwise timed out after 30 sleeps, holding the last value read |
| Polling.FirstStopExtends | cli/interactive_cli.py:517-527 | a larger budget stops at the same attempt |
| Polling.GuiProgressBounds | cli/translation_gui.py:738-741 | progress `50 + attempt/60*45` is in [50, 95) and rises with each attempt |
| Polling.GuiPoll | cli/translation_gui.py:733-786 | at most 60 attempts; every error retried; the first hit's translations, or a timeout after 60 |
| Polling.RetryStatusTellsOutcome | cli/translation_gui.py:1704-1722 | the status line names the outcome: equal status lines mean the same outcome or shown translations |
| Polling.RetryOutcomesDistinct | cli/translation_gui.py:1704-1716 | no cancel means never "cancelled" and never a failure; cancel before the first attempt means "cancelled"; a cancel during the first attempt whose read finds no object means "S3 fetch failed"; no cancel and no hit means "not ready" |
| Polling.RetryBudgetChoices | cli/translation_gui.py:1631 | 120 attempts when extended polling is asked for, otherwise exactly 1 |
| Polling.RetryFetch | cli/translation_gui.py:1631-1716 | budget 120 or 1; cancel checked before each attempt; outcome `RetrySpec`, which fails when the cancel came during the attempt whose read found no object; no sleep with a budget of 1, otherwise one per attempt not ending in a hit or a failure |
| InteractiveCli.UsesBatching | cli/interactive_cli.py:443 | batching applies only with a given, non-zero batch size that the sentence count exceeds, so a positive size needs at least two sentences |
| InteractiveCli.RequestPlan | cli/interactive_cli.py:442-446 | one request with all sentences unless batching applies; batching sends at least two slices of at most B items that concatenate to the input, or nothing for a negative B |
| InteractiveCli.AtLeastTwo | cli/interactive_cli.py:442-446 | more sentences than B need at least two batches |
| InteractiveCli.BatchCountPrinted | cli/interactive_cli.py:604 | the slice count is `(N + B - 1) // B` |
| InteractiveCli.CeilingDivision | cli/interactive_cli.py:604 | the unique q with `(q-1)*B < N <= q*B` is `(N+B-1)//B` |
| InteractiveCli.DivisionUnique | cli/interactive_cli.py:604 | arithmetic step of the count |
| InteractiveCli.MulMonotone | cli/interactive_cli.py:604 | arithmetic step of the count |
| InteractiveCli.GatheredOnce | cli/interactive_cli.py:620-624 | for a target named once, the combined list is the concatenation of the batches' lists in batch order |
| InteractiveCli.ConcatenatedSnoc | cli/interactive_cli.py:620-624 | one more batch appends its list |
| InteractiveCli.ConcatenatedAligned | cli/interactive_cli.py:620-624 | when each batch answers one item per sentence, the combined list has one item per sentence |
| InteractiveCli.ExtendPerTarget | cli/interactive_cli.py:621-624 | each target's list is extended once per occurrence of the target; other keys unchanged |
| InteractiveCli.ExtendStep | cli/interactive_cli.py:621-624 | one inner-loop step extends one target's list |
| InteractiveCli.Accumulate | cli/interactive_cli.py:620-624 | after a batch, each list is extended by that batch's list for the language (once per occurrence) |
| InteractiveCli.GatheredSoFarStep | cli/interactive_cli.py:620-624 | extending every list by one more batch keeps every list equal to the batches' lists gathered so far |
| InteractiveCli.TranslateInBatches | cli/interactive_cli.py:591-657 | batches sent in order with pauses only between them; when all answer, one list per target, holding the batches' lists in order |
| InteractiveCli.ColumnOnce | cli/interactive_cli.py:542-546 | a target named once gets one value per entry, in order |
| InteractiveCli.NormalizeTranslations | cli/interactive_cli.py:529-548 | a string is decoded first ({} when undecodable); a dict keeps its values and gains `[]` for each missing target; a list of entries becomes one list per target; anything else fails |
| InteractiveCli.NormalizeEntries | cli/interactive_cli.py:542-546 | a list of per-sentence dicts becomes, per target, the entries' values ("" when absent) |
| InteractiveCli.ColumnSnoc | cli/interactive_cli.py:542-546 | one more entry adds its value (or "") to the end of every column |
| InteractiveCli.ObtainTranslations | cli/interactive_cli.py:509-548 | no S3 or no key gives an empty list per target; an S3 error ends the client; a retrieved dict reaches the caller with every value intact and [] for each missing target; a retrieved list of entries gives one column per target; anything else fails |
| InteractiveCli.DetectFileContent | cli/interactive_cli.py:200-235 | missing or invalid JSON gives nothing; a list is used as is; a dict gives its sentences and source; text gives the non-comment stripped lines |
| InteractiveCli.MenuCodesHaveTwoLetters | cli/interactive_cli.py:48-61 | every menu entry is a two-letter code |
| InteractiveCli.CommaCodes | cli/interactive_cli.py:309-310 | each comma-separated part, stripped and lowercased |
| InteractiveCli.LanguageChoice | cli/interactive_cli.py:296-322 | a blank answer asks again; a menu number gives its code; a comma list gives its stripped, lowercased parts if every one has two letters, else asks again; any other answer gives its lowercased form if it has two letters, else asks again |
| InteractiveCli.AcceptedCodesPassServerRule | cli/interactive_cli.py:309-322 | every code the prompt accepts passes the server's two-character rule |
| InteractiveCli.AnimateProgress | cli/interactive_cli.py:728-736 | the bar follows elapsed/estimate, is never above 95, and stops only on reaching 95 or running out of time |
| InteractiveCli.ProgressMonotone | cli/interactive_cli.py:731-733 | the bar never goes down as time passes |
| TranslationGui.GetInputSentences | cli/translation_gui.py:624-636 | [] for the placeholder, otherwise the stripped non-empty lines in order |
| TranslationGui.BoxSentencesNeverBlank | cli/translation_gui.py:624-636 | no sentence from the box is refused as blank by the server |
| TranslationGui.BoxRoundTrip | cli/translation_gui.py:624-636 | clean non-empty sentences typed one per line come back as typed, unless the text is the placeholder |
| TranslationGui.Codes | cli/translation_gui.py:641-643 | the box codes in order |
| TranslationGui.Ticked | cli/translation_gui.py:641-644 | every ticked code, only box codes, no duplicates when the codes are distinct, one box gives its code exactly when ticked; only ticked codes through `TickedOnlyTicked`, order through `TickedAppend` |
| TranslationGui.TickedOnlyTicked | cli/translation_gui.py:641-644 | every code selected is the code of a ticked box |
| TranslationGui.TickedAppend | cli/translation_gui.py:641-644 | the ticked codes of two runs of boxes are those of the first followed by those of the second, so box order is kept |
| TranslationGui.AddNew | cli/translation_gui.py:647-653 | keeps the selection as a prefix, adds no duplicates, includes every non-empty extra, adds only extras; one extra at a time through `AddNewSnoc`, order through `AddNewAppend` |
| TranslationGui.AddNewSnoc | cli/translation_gui.py:650-653 | one more typed code is appended exactly when non-empty and not yet selected (with no earlier extras, the one-extra case) |
| TranslationGui.AddNewAppend | cli/translation_gui.py:650-653 | adding two runs of typed codes is adding the first, then the second, so typed order is kept |
| TranslationGui.SelectionDistinct | cli/translation_gui.py:638-655 | the selection has no repeats, starts with the ticked codes, and holds every typed code |
| TranslationGui.GetSelectedTargetLanguages | cli/translation_gui.py:638-655 | the two loops compute `AddNew(Ticked(boxes), Extras(field))` |
| TranslationGui.CodeForName | cli/translation_gui.py:595-598 | the code of the first entry with this name, or none if and only if no entry has it |
| TranslationGui.LanguageCodesNonEmpty | cli/translation_gui.py:590-598 | every code in the drop-down table has two characters |
| TranslationGui.ResolveSourceCode | cli/translation_gui.py:590-607 | a drop-down name gives its code; otherwise the typed value lowercased and stripped; empty gives none |
| TranslationGui.StartTranslation | cli/translation_gui.py:577-622 | warns about sentences, then targets, then source, in that order; launches if and only if all three are present, with exactly those values |
| TranslationGui.BucketFromUrl | cli/translation_gui.py:714-718 | a bucket if and only if the URL starts with "s3://"; it contains no '/' |
| TranslationGui.ResolveBucket | cli/translation_gui.py:710-722 | the result's bucket, else the URL's, else the configured one exactly when neither names one; empty only when all are |
| TranslationGui.UrlLeadsBackToBucket | cli/translation_gui.py:1604-1616 | the URL the server writes leads back to the server's bucket |
| TranslationGui.SchemeDropped | cli/translation_gui.py:716 | removing "s3://" from a URL that starts with it removes the prefix and continues in the rest |
| TranslationGui.SchemeNowhereInBucket | cli/translation_gui.py:716 | no "s3://" starts inside a bucket name free of ':' and '/' |
| TranslationGui.PollLocation | cli/translation_gui.py:724 | polls if and only if both key and resolved bucket are non-empty ("No S3 location found" otherwise) |
| TranslationGui.PollsWhereServerWrote | cli/translation_gui.py:710-724 | for an accepted job the GUI polls exactly the bucket and key the server wrote |
| TranslationGui.SavedBucket | cli/translation_gui.py:956-966 | the location's bucket, else the URL's, else what the location held; none without a location |
| TranslationGui.GuiRecord | cli/translation_gui.py:968-977 | the GUI record keeps the id, timestamp, source, targets, count, URL, key and the recovered bucket |
| TranslationGui.ViewLocation | cli/translation_gui.py:1092-1112 | as in view_translations_from_s3 and download_from_s3: the record's output_bucket entry whenever it has one, else the s3:// URL's bucket, else the configured one; a null URL without that entry crashes; an empty bucket or key is an error, and a non-empty bucket and key are always viewed |
| TranslationGui.GuiRecordKeepsBucket | cli/translation_gui.py:956-977 | viewing a GUI record from the history reads the object the server wrote, whatever bucket is configured |
| TranslationGui.CliRecordViewedAt | cli/translation_gui.py:1092-1103 | a command-line record whose URL is s3://bucket/key is viewed at that bucket and key |
| TranslationGui.CliRecordViewedAtUrlBucket | cli/translation_gui.py:1092-1103 | a command-line record of an accepted job has no bucket entry, yet viewing it reads the object the server wrote, through its URL |

## Left out

- Terminal and Tk user interface: widgets, message boxes, colours, progress bars, printing, the queue dispatcher and the `_display_translations_*` printers.
- `input()`-driven prompts (`prompt_for_sentences`, `prompt_for_options`, `interactive_translate`, `setup_wizard`) and `argparse` mains. Only the language prompt's checks on one answer are modelled, as `InteractiveCli.LanguageChoice`; the loop that asks again is not.
- Threads: the progress animation is modelled as a sequence of clock readings and the GUI poll as a sequential loop. Concurrency with the cancel button is reduced to the attempt index at which the flag is first seen.
- HTTP, boto3 and the Translate service are parameters (see above). Timeouts, connection errors and `sys.exit` are not modelled beyond the outcomes the loops distinguish.
- Floating point: the time estimate and the cost estimate are left out. Progress uses Dafny reals, not IEEE doubles.
- JSON text is not parsed or printed. Decoded values are the `Json` datatype; numbers are integers. `json.loads` is a partial function parameter and `str(data)` a function parameter.
- Dates are given as year/month/day; timezones and `datetime.now()` are parameters.
- InteractiveCli.Part: a reply value for a language that is not a list is treated as an empty list. The source's `extend` on a string would add its characters, and on other values raises.
- TranslationCli.TranslateFile: each batch goes through `translate`, which appends one history record when its request is accepted. A batched job therefore leaves one record per answered batch, in order, and a run that stops at batch k keeps the k records before it. The model's `send` stands for the whole request, so these records are not in its contract; which batches were answered is given by `Batching.SendAllMeaning`.
- InteractiveCli.TranslateInBatches: the same holds here. Each answered batch's `translate` call appends its own history record, and those records are not in the contract.
- Orchestrator.Expected: the backend is a function of its arguments. Two calls with the same text, languages and position therefore get the same answer, so a repeated target's second pass repeats the first pass's cells. The real service may answer differently or fail on the second call.
- Batching.SendAll: `send` is a function of the batch. Two identical batches therefore get the same reply, which the real server (new id, new output key) does not guarantee.
- Handler.LambdaHandler: the output document's `metadata` object (`processing_time_ms`, `aws_request_id`) is not modelled, because it comes from the Lambda context and is never read back.
- Ledger.LoadHistory: a history file holding valid JSON that is not a list is returned as it is by the source, and the callers' list operations then fail. The model's file holds records or is unreadable.
- InteractiveCli.ObtainTranslations: after a timeout, the contract only says every target is keyed, not which value was normalised.
- TranslationCli.ReadSentences: it takes a file's content as given. Encoding errors and I/O failures are not modelled.
- Ledger.HistoryStore.Save: writing the file is modelled as replacing the stored records; a failing write is not modelled.
- Text.Lower: only the ASCII capitals are lowered. Python's `lower()` also maps non-ASCII capitals, sometimes to two characters (`'İ'.lower()` has length 2), so the two-letter checks on a typed code can differ for such input.
- Text.LowerChar: maps only 'A'-'Z'; every non-ASCII case mapping is left out, for the reason given for Text.Lower.
- TranslationCli.TranslateFile: it takes the sentences as a list. When a .json object's "sentences" value is not a list, translate_file hands it to `len()`, slicing and the server: a string is sent and refused with 400, null ends the program as "no sentences", a number raises. `ReadSentences` returns that value, but what follows is not modelled.
- Text file reading splits on '\n' only. Python's `for line in f` also ends a line at a lone '\r' (universal newlines); that is not modelled.
- Polling.RetryFetch: closing the retry dialog with the window's close button, rather than Cancel, destroys it without setting the flag. Every later attempt's status-line update then raises inside the loop's own handler before the read, so the source ends "Translations not ready yet" even when the object exists. The model has no such event and reads on.
- Orchestrator.Expected: the result is a map, so the order of the translations dictionary's keys (first occurrence of each target), which the written JSON document keeps, is not modelled.
- `testing/test_api.py` is a live test client and is not part of this model.
- `get_supported_languages`, `estimate_translation_cost`, `status`, `get_s3_translation`, the GUI's detail window and download functions apart from their choice of bucket and key (`TranslationGui.ViewLocation`), and `test_s3_access` are outside the modelled core.

## Findings

| source | as written | input that shows it | evidently intended | confidence | as-written member | corrected member |
|---|---|---|---|---|---|---|
| cli/translation_cli.py:358-361 and cli/interactive_cli.py:799-802 | the header promises `min(limit, len)` records, but the loop prints `history[-limit:]` | `limit = 0` with a non-empty history: the header says "showing last 0" and every record is printed (a negative limit prints all but the oldest `-limit`) | print exactly the last `min(limit, len)` records, none for a limit of 0 or less | not executed | Ledger.ListAsWrittenZeroShowsAll | Ledger.ListRecent |
