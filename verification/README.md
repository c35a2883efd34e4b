# Verified models of ERP front-end and script logic

This project models, in Dafny, the parts of the ERP repository whose behaviour is hardest to
see from the code, and proves what they promise for all inputs, runs and interleavings.

- **CSV** (`Csv`, `CsvPrinter`, `CsvRecords`, `CsvRoundTrip`, `CsvDetect`, `CsvText`, `CsvInverse`):
  the customer board's reader is a one-pass loop with quote state, look-ahead, CR, LF and CRLF
  handling, trimming and blank-row dropping. It is proved equal to a declarative reading: a
  three-state quoting automaton that yields tokens, tokens split into records, records cleaned. The
  writer and the delimiter guess are related to the reader by if-and-only-if theorems, and the writer
  is undone for every table by a reader that keeps what the board's reader cleans away.
- **Benchmark** (`Benchmark`, `Percentiles`): workers that share a cursor and interleave at
  `await`; a run is any sequence of possible turns, and an exception out of `fetch` ends a worker.
  The samples are sorted and read off by nearest rank, in exact arithmetic.
- **Inactivity** (`Inactivity`): the browser's pending timers are a map from ids, so that a
  forgotten or doubled timer would show; traces are made of clicks, waits, timer expiries, renders
  and server answers.
- **Global search** (`GlobalSearch`): each run of the search effect leaves a request with its own
  `active` flag; timers and replies come in any order.
- **Column settings and paging** (`ColumnSettings`, `Paging`).
- **Vehicle import** (`VehicleImport`): the board's chunking against the service's row loop, for
  every possible per-row creation function with a database state.
- **Dates** (`ExcelDate`) and the **demo seed** (`SeedDemo`), over `Decimals`, `JsString` and `Sequences`.

Components that change state are classes whose methods are proved equal to functions of the state;
the properties are lemmas about those functions, over all runs. `hide` statements in proofs only keep
definitions out of the solver's way.

## What does not hold

Some promises hold only under a condition. Each has a theorem that says exactly when it holds, and
one that shows an input or a run for which it does not:

- A cell whose only special character is a CR is written without quotes, and one row can come back
  as two (`BareCrIsLost`). A table survives exactly when no such CR stands beside something visible
  in its row (`RoundTrip`).
- The delimiter guess looks at the first row left only. A one-cell first row followed by wider rows
  is read with the wrong delimiter (`TitleMisleads`, `TitleMisleadsHere`; `DetectComma` gives the exact
  condition), and so is a semicolon-joined row of empty cells (`BlankRowMisleads`,
  `DetectSemicolon`).
- What was read from a text can be printed and read again unchanged exactly if no cell read has a CR
  that the writer leaves unquoted (`NormalForm`, `NoNormalForm`).
- The last visible column is to stay. After settings were loaded, some moves and toggles hide every
  column exactly if a known column was stored more than once in the order (`AllCanBeHidden`,
  `StoredTwiceHidesAll`).
- The notice speaks of no click for the whole timeout, but a throttled click does not restart the
  timer. Activity is a click heard or a render that sets the listening effect up again. The timer runs
  out the full timeout after the latest activity exactly if that was such a render, or a click at
  which no throttle was running, or only one started in the same millisecond; otherwise it runs out
  the timeout after the throttle was started, up to a second earlier (`CheckOutTiming`,
  `EarlyCheckOut`).
- Enter is not blocked while a new search is under way and then opens an item of an old one. The item
  is from the answer to the request that the query shown has made exactly if the dialog is not busy
  (`SubmitIsFresh`, `SubmitWhileBusyIsStale`).
- The import service drops rows beyond its cap without counting them as skipped. The board's chunks
  stay below the cap, and that is exactly what saves them (`NoRowLost`, `OneRequest`,
  `OneRequestLosesRows`).
- A date with a year below 1000 is normalised to a text that is not a date (`NormalizeTwice`,
  `ShortYearIsLost`).
- Padded codes read back in code order come in generation order exactly as long as they fit the width
  (`GenerationOrder`, `Overflow`).

## Model

| member | source | states |
|---|---|---|
| Csv.ParseCsvRows | apps/web/components/crm-operations-board.tsx:228-277 | The one-pass loop returns exactly the declarative reading: automaton tokens, split into records, trimmed, blank rows dropped |
| Csv.StepQuote | apps/web/components/crm-operations-board.tsx:237-245 | The loop's look-ahead for a doubled quote agrees with an automaton that has no look-ahead |
| Csv.StepNewline | apps/web/components/crm-operations-board.tsx:253-264 | Skipping the LF behind a CR loses nothing: alone it would close one more blank record |
| CsvPrinter.LexTable | apps/web/components/crm-operations-board.tsx:291-301 | Printed text reads, with either delimiter, as the cells' characters with separators, row ends and the ends of record that bare CRs cause, and nothing else |
| CsvPrinter.EscapeLeavesAlone | apps/web/components/crm-operations-board.tsx:291-296 | A cell is written as it is if and only if it has no quote, line feed, comma or semicolon |
| CsvPrinter.QuotesWhenNeeded | apps/web/components/crm-operations-board.tsx:291-296 | A cell without CR is quoted if and only if it would otherwise not read as its own characters with both delimiters |
| CsvRecords.SoftEolsInvisible | apps/web/components/crm-operations-board.tsx:253-264 | Reading CRs in the outer white space as ends of record instead of characters does not change the cleaned rows |
| CsvRoundTrip.RoundTrip | apps/web/components/crm-operations-board.tsx:228-301 | For every table and either delimiter: reading the printed table gives the trimmed table without blank rows if and only if no bare CR stands beside something visible |
| CsvRoundTrip.DownloadRoundTrip | apps/web/components/crm-operations-board.tsx:298-303 | The same for the downloaded file with its byte order mark |
| CsvRoundTrip.BomInvisible | apps/web/components/crm-operations-board.tsx:303 | A leading byte order mark changes the reading of no text |
| CsvRoundTrip.BareCrIsLost | apps/web/components/crm-operations-board.tsx:291-296 | The writer leaves a cell with only a CR unquoted, and its row is read as two |
| CsvDetect.DetectCsvRows | apps/web/components/crm-operations-board.tsx:279-289 | The guess: comma rows if the first one is wide, else semicolon rows if there are any; it brings back every export without harmful CRs, and every such semicolon-joined text of which something is left to read |
| CsvDetect.DetectPlain | apps/web/components/crm-operations-board.tsx:279-289 | For every quote-free text, by its characters: split at commas if the first line with something visible besides commas has one or no line has anything visible besides semicolons, else at semicolons |
| CsvDetect.DetectAny | apps/web/components/crm-operations-board.tsx:279-289 | For every text: the comma reading is taken if and only if its first visible record is wide or the semicolon reading shows nothing |
| CsvDetect.DetectNothing | apps/web/components/crm-operations-board.tsx:279-283 | A quote-free text without any such line has no rows |
| CsvDetect.DetectComma | apps/web/components/crm-operations-board.tsx:279-301 | On comma-joined text the guess is right if and only if the table is free of harmful CRs and is empty, starts wide, or has no row of several cells |
| CsvDetect.DetectExport | apps/web/components/crm-operations-board.tsx:279-303 | On every rectangular table, hence every export, the imported download equals the cleaned table if and only if it is free of harmful CRs, one-column exports included |
| CsvDetect.DetectSemicolon | apps/web/components/crm-operations-board.tsx:279-289 | On semicolon-joined text the guess is right if and only if there are no harmful CRs and something is left to read or nothing was joined |
| CsvDetect.TitleMisleads | apps/web/components/crm-operations-board.tsx:279-289 | A visible one-cell row above a wider one is always read with the wrong delimiter |
| CsvDetect.TitleMisleadsHere | apps/web/components/crm-operations-board.tsx:279-289 | The file `Title` over `a,b`, free of CRs, is one |
| CsvDetect.BlankRowMisleads | apps/web/components/crm-operations-board.tsx:279-289 | A semicolon-joined row of two empty cells is read as a row that shows the semicolon |
| CsvText.PlainText | apps/web/components/crm-operations-board.tsx:234-276 | A text without quotes reads as its lines (CR, LF or CRLF), split at the delimiter, trimmed, without blank rows |
| CsvText.LineEndsDoNotMatter | apps/web/components/crm-operations-board.tsx:253-256 | Replacing CRLF and CR by LF does not change what a quote-free text reads as |
| CsvText.QuotesDoNotShow | apps/web/components/crm-operations-board.tsx:237-245 | In any text, quotes around a part without delimiters, line ends and quotes do not change the reading, wherever in a cell they stand |
| CsvText.UnclosedQuote | apps/web/components/crm-operations-board.tsx:237-276 | A quote that is never closed reads as if closed at the end |
| JsString.TrimMeaning | apps/web/components/crm-operations-board.tsx:248-270 | Trimming takes off white space at both ends, and all of it |
| JsString.SpaceCodes | apps/web/components/crm-operations-board.tsx:248-270 | White space is these 25 code points |
| CsvText.NormalForm | apps/web/components/crm-operations-board.tsx:228-301 | Read, print, read equals read if and only if no cell read has a CR the writer leaves unquoted |
| CsvText.NoNormalForm | apps/web/components/crm-operations-board.tsx:228-301 | The quoted cell `a`, CR, `b` is read as one cell, printed without quotes and then read as two rows |
| CsvText.NormalFormWithoutCr | apps/web/components/crm-operations-board.tsx:228-301 | For every text without CR, read, print, read equals read |
| CsvText.QuotedCrSurvives | apps/web/components/crm-operations-board.tsx:228-301 | A table in which every cell with a CR also has a quote, LF, comma or semicolon comes back trimmed and without blank rows |
| CsvInverse.UnprintPrint | apps/web/components/crm-operations-board.tsx:291-301 | Every table can be recovered from its print, up to empty rows standing for one empty cell |
| CsvInverse.UnprintDownload | apps/web/components/crm-operations-board.tsx:298-303 | A download starts with U+FEFF, and behind it every table can be recovered |
| CsvInverse.PrintsAlike | apps/web/components/crm-operations-board.tsx:291-301 | For all tables: two print alike if and only if they are equal up to such rows |
| CsvInverse.PrintInjective | apps/web/components/crm-operations-board.tsx:291-301 | Different non-empty tables of non-empty rows print differently, whatever CRs and white space they contain |
| CsvInverse.PrintInjectiveOnClean | apps/web/components/crm-operations-board.tsx:291-301 | Different tables of trimmed, not blank rows print differently, the empty table included |
| Benchmark.Runner.Advance | apps/api/scripts/benchmark-workflows-inbox.ts:141-155 | One turn of a worker between two awaits changes cursor, samples, failures and workers as the turn function says |
| Benchmark.StepKeepsInv | apps/api/scripts/benchmark-workflows-inbox.ts:137-155 | Every turn keeps the claim protocol: settled, in-flight and lost requests are exactly the indices below the cursor, once each, and samples and failures are those of the settled ones, in order |
| Benchmark.ClaimProtocol | apps/api/scripts/benchmark-workflows-inbox.ts:137-158 | In every interleaving each index below the claim count is held exactly once, samples, in-flight and lost add up to it, and at most `concurrency` are in flight |
| Benchmark.CompleteRun | apps/api/scripts/benchmark-workflows-inbox.ts:141-158 | When all workers returned: one sample per request, cursor = total + concurrency, and the run took exactly that many turns |
| Benchmark.RunsAreShort | apps/api/scripts/benchmark-workflows-inbox.ts:141-158 | No run has more than total + concurrency turns |
| Benchmark.NeverStuck | apps/api/scripts/benchmark-workflows-inbox.ts:141-158 | A worker that has neither returned nor thrown can always take a turn |
| Benchmark.ScheduleIndependent | apps/api/scripts/benchmark-workflows-inbox.ts:141-202 | Any two complete runs over the same outcomes give the same sorted samples, the same failures up to order, and the same summary |
| Benchmark.Runner.Finish | apps/api/scripts/benchmark-workflows-inbox.ts:160-202 | Sorts in place, summarises, and throws if and only if `passed` is false, failures first |
| Benchmark.PassedMeaning | apps/api/scripts/benchmark-workflows-inbox.ts:163-189 | `passed` if and only if there is no failure and at least 95 percent of the samples, in any order, are strictly below the threshold |
| Benchmark.VerdictOfJob | apps/api/scripts/benchmark-workflows-inbox.ts:137-189 | Whatever the schedule, a complete run passes if and only if no request fails and at least 95 percent of the requests take less than the threshold |
| Benchmark.FailuresReported | apps/api/scripts/benchmark-workflows-inbox.ts:144-153 | In every run the failures are those that settled requests came back with, one for each such request |
| Benchmark.Drive | apps/api/scripts/benchmark-workflows-inbox.ts:137-158 | The workers, driven by any possible schedule, reach the state the schedule leads to |
| Benchmark.SummaryMeaning | apps/api/scripts/benchmark-workflows-inbox.ts:162-178 | Before rounding to two decimals, each percentile is below a value exactly when at least that percentage of the samples is; the mean times their number is their sum; minimum and maximum are samples and bound all; the counts are those of samples and failures |
| Benchmark.EmptySummary | apps/api/scripts/benchmark-workflows-inbox.ts:162-185 | Without samples every figure is zero |
| Benchmark.SummaryOrdered | apps/api/scripts/benchmark-workflows-inbox.ts:171-185 | min, p50, p95, p99, max are in this order and the mean lies between the extremes |
| Percentiles.PercentileMeaning | apps/api/scripts/benchmark-workflows-inbox.ts:30-37 | The nearest-rank percentile of the sorted samples for 0 < p <= 100 is below a threshold exactly when at least p percent of the samples are |
| Percentiles.PercentileOfAny | apps/api/scripts/benchmark-workflows-inbox.ts:30-37 | The same for every p, with the index kept inside the list |
| Percentiles.MeanMeaning | apps/api/scripts/benchmark-workflows-inbox.ts:174-179 | The mean of the sorted samples times their number is the sum of the samples |
| Percentiles.PercentileMonotone | apps/api/scripts/benchmark-workflows-inbox.ts:30-37 | A higher percentile is never lower |
| Percentiles.SortedUnique | apps/api/scripts/benchmark-workflows-inbox.ts:160 | There is only one sorted arrangement, so the result does not depend on the sort |
| Inactivity.Board.Dispatch | apps/web/components/hr-attendance-board.tsx:524-597 | Click, timer, render and answer handlers change refs, timers and flags as the step function says |
| Inactivity.Drive | apps/web/components/hr-attendance-board.tsx:524-597 | The board, driven through any possible trace, reaches the state the trace leads to |
| Inactivity.StepKeepsInv | apps/web/components/hr-attendance-board.tsx:524-597 | Every event keeps the bookkeeping of timers, the deadline bounds and the single handler |
| Inactivity.IdleBound | apps/web/components/hr-attendance-board.tsx:564-597 | In every trace, while checked in and not expired: exactly one inactivity timer is pending, clearable, for the employee shown, with its deadline within [a + T - 1000, a + T] for the latest activity a; otherwise none |
| Inactivity.AtMostOneHandler | apps/web/components/hr-attendance-board.tsx:531-562 | At most one automatic check-out is in flight, and the flag says whether |
| Inactivity.CheckOutWindow | apps/web/components/hr-attendance-board.tsx:531-572 | A timer runs out within that window, and then the employee shown is checked out unless a check-out is still under way |
| Inactivity.CheckOutTiming | apps/web/components/hr-attendance-board.tsx:552-597 | In every trace in which a timer runs out there is one latest activity, a click heard or a render that sets the effect up, and the timer runs out the full timeout after it if and only if it was such a render or a click with no throttle running or only one of the same millisecond; a running throttle moves it to the timeout after the throttle's start |
| Inactivity.CheckOutStages | apps/web/components/hr-attendance-board.tsx:531-562 | A handler that a timer started waits for the check-out, then the reload, then the log-out, whatever else happens; none starts meanwhile and the third answer ends it |
| Inactivity.NeverLate | apps/web/components/hr-attendance-board.tsx:564-572 | More than the timeout after the latest activity the timer has expired |
| Inactivity.ActiveStays | apps/web/components/hr-attendance-board.tsx:581-587 | Within the timeout less a second after any click no inactivity timer can fire |
| Inactivity.EarlyCheckOut | apps/web/components/hr-attendance-board.tsx:552-587 | For every timeout of at least a second some trace is checked out 999 ms too early: a throttled click is not counted |
| GlobalSearch.Command.Dispatch | apps/web/components/global-search-command.tsx:86-184 | Handlers, timers and replies change the dialog's states as the step function says |
| GlobalSearch.Drive | apps/web/components/global-search-command.tsx:86-184 | The dialog, driven through any possible trace, reaches the state the trace leads to |
| GlobalSearch.StepKeepsInv | apps/web/components/global-search-command.tsx:75-184 | Every event keeps one active request at most, matching the query, and what is shown consistent with it |
| GlobalSearch.Freshness | apps/web/components/global-search-command.tsx:123-167 | Over every interleaving: open, not busy, no error and a result means the result has the groups that the reply to the latest request brought, which was for the trimmed query shown |
| GlobalSearch.ReplyIsShown | apps/web/components/global-search-command.tsx:147-160 | What a reply brought, every group or the error, is shown from then on for as long as its request is the latest, with the first item active at the start |
| GlobalSearch.ListMeaning | apps/web/components/global-search-command.tsx:75-84 | The list is the items of every group, in the order of the groups |
| GlobalSearch.SearchStarts | apps/web/components/global-search-command.tsx:86-145 | Opening shows the trimmed seed, typing the text; a new text of two characters or more starts a search of its own, a shorter one clears what was shown, the same text changes nothing |
| GlobalSearch.Closes | apps/web/components/global-search-command.tsx:96-100 | Closing ends any search and keeps query, result and place in the list |
| GlobalSearch.ShowsNothing | apps/web/components/global-search-command.tsx:139-146 | The end of the delay sends the request and changes nothing shown |
| GlobalSearch.HoverSelects | apps/web/components/global-search-command.tsx:222-236 | Pointing at an item makes active the first item with its id |
| GlobalSearch.BusyMeansPending | apps/web/components/global-search-command.tsx:136-160 | The open dialog is busy exactly while an active request for its query is unanswered |
| GlobalSearch.StaleRepliesIgnored | apps/web/components/global-search-command.tsx:147-166 | A reply changes nothing shown if and only if it is not for the request of the latest effect run; replies for another query or to a closed dialog never are |
| GlobalSearch.OnlyCurrentQueryIsSent | apps/web/components/global-search-command.tsx:128-166 | Only the query shown, long enough, can be sent, and only by one timer |
| GlobalSearch.ActiveIndexValid | apps/web/components/global-search-command.tsx:222-236 | With a non-empty list the active index is an index of it |
| GlobalSearch.ArrowsCircle | apps/web/components/global-search-command.tsx:226-234 | The arrow keys step through the list in a circle and undo each other |
| GlobalSearch.ArrowsNeedItems | apps/web/components/global-search-command.tsx:222-236 | Without items they do nothing |
| GlobalSearch.SubmitIsFresh | apps/web/components/global-search-command.tsx:174-184 | Enter goes to the active item and closes the dialog as closing does; its list answers the request of the query shown if and only if the dialog is not busy |
| GlobalSearch.SubmitWhileBusyIsStale | apps/web/components/global-search-command.tsx:174-184 | For any query and any other text typed over it some trace lets Enter, while busy, go to an item found for the earlier query |
| ColumnSettings.Settings.OnMoveColumn | apps/web/components/crm-operations-board.tsx:1270-1285 | The two splices exchange neighbours, or nothing changes |
| ColumnSettings.Settings.OnToggleColumnVisibility | apps/web/components/crm-operations-board.tsx:1287-1298 | The column is shown if it was hidden, hidden if it was shown and not the last one; the others and the invariant are kept |
| ColumnSettings.RunKeepsValid | apps/web/components/crm-operations-board.tsx:1270-1298 | After any commands every column has one place, none is hidden twice and one is visible |
| ColumnSettings.VisibleCount | apps/web/components/crm-operations-board.tsx:602-605 | Order length less hidden length is the number of columns shown, and positive |
| ColumnSettings.HydrateValid | apps/web/components/crm-operations-board.tsx:752-773 | Loading gives a valid state if and only if the known stored columns are without repetition |
| ColumnSettings.HydrateOrder | apps/web/components/crm-operations-board.tsx:752-770 | With no known column stored the order stays; else every column has as many places as it was stored, or one, and for any two columns, which comes first is decided by the stored order if either was stored, else by the default order; stored ones precede the others |
| ColumnSettings.HydrateHidden | apps/web/components/crm-operations-board.tsx:755-769 | Exactly the columns stored as hidden are hidden, each once, whatever else is stored; if these are all columns nothing changes |
| ColumnSettings.DefaultView | apps/web/components/crm-operations-board.tsx:195-212 | On a first visit these seven columns are shown, in a valid state |
| ColumnSettings.AllCanBeHidden | apps/web/components/crm-operations-board.tsx:752-773 | From any valid state: after loading, some moves and toggles hide every column if and only if a known column is stored more than once in the order |
| ColumnSettings.SaveLoad | apps/web/components/crm-operations-board.tsx:752-786 | Saved settings load unchanged from any earlier state |
| ColumnSettings.StoredTwiceHidesAll | apps/web/components/crm-operations-board.tsx:752-773 | With one column stored twice and the others hidden, a single toggle hides the last visible column |
| ColumnSettings.EveryOrder | apps/web/components/crm-operations-board.tsx:1270-1285 | Moves up alone turn any order into any other |
| ColumnSettings.EveryLayout | apps/web/components/crm-operations-board.tsx:1270-1298 | From every valid layout a finite run of the two handlers reaches every other |
| ColumnSettings.UpDown | apps/web/components/crm-operations-board.tsx:1270-1285 | Up then down restores the order |
| VehicleImport.SplitImportRows | apps/web/components/crm-vehicles-board.tsx:255-264 | The loop produces the chunks of the recursive definition |
| VehicleImport.ChunksPartition | apps/web/components/crm-vehicles-board.tsx:255-264 | The chunks concatenate to the rows, are no longer than asked for, and all but the last exactly as long |
| VehicleImport.RequestSizes | apps/web/components/crm-vehicles-board.tsx:733 | The board sends 150 rows with each request but the last |
| VehicleImport.WorkOffMeaning | apps/api/src/modules/crm/crm-contracts.service.ts:663-690 | Each row is created in the database the rows before it left, and exactly the rows that fail there are reported, by position |
| VehicleImport.CapMeaning | apps/api/src/modules/crm/crm-contracts.service.ts:661-662 | A request of more than 1000 rows is answered as for its first 1000 |
| VehicleImport.SortMeaning | apps/web/components/crm-vehicles-board.tsx:764 | The sort is by row and stable |
| VehicleImport.ImportFile | apps/web/components/crm-vehicles-board.tsx:733-764 | The aggregation loop adds up the answers, shifts row numbers and sorts the errors |
| VehicleImport.ChunkedImport | apps/web/components/crm-vehicles-board.tsx:733-764 | Chunks within the service's cap leave database, counts and ordered errors as if all rows had been worked off in one go |
| VehicleImport.NoRowLost | apps/api/src/modules/crm/crm-contracts.service.ts:652-696 | Imported plus skipped equals the file's rows if and only if no request exceeds the cap |
| VehicleImport.OneRequestLosesRows | apps/api/src/modules/crm/crm-contracts.service.ts:652-696 | A file above the cap sent at once has only as many rows counted as the cap |
| VehicleImport.OneRequest | apps/web/components/crm-vehicles-board.tsx:733-764 | With the board's chunk size the result equals a single request's exactly for files within the cap |
| ExcelDate.NormalizeMeaning | apps/web/components/hr-attendance-board.tsx:141-176 | A text normalises to r if and only if, trimmed, it is a valid date in one of the formats and r prints that date |
| ExcelDate.ReadExactly | apps/web/components/hr-attendance-board.tsx:141-176 | For every text of three numerals with slash or hyphen between them and anything behind: exactly when it is read and as what date |
| ExcelDate.OtherSeparators | apps/web/components/hr-attendance-board.tsx:146-166 | With another character between the numerals nothing is read |
| ExcelDate.CalendarMeaning | apps/web/lib/form-validation.ts:13-36 | Valid dates are those of the Gregorian calendar in the years 1 to 9999 |
| ExcelDate.Unambiguous | apps/web/components/hr-attendance-board.tsx:146-174 | No text denotes two dates |
| ExcelDate.ShortYearIsLost | apps/web/components/hr-attendance-board.tsx:100-102 | `1/1/0500` normalises to `500-01-01`, which is not read |
| ExcelDate.FormatsAgree | apps/web/components/hr-attendance-board.tsx:146-164 | Day-first and year-first texts of a date, any separators, padded or not, normalise to the same text |
| ExcelDate.IsoAgrees | apps/web/components/hr-attendance-board.tsx:166-174 | The ISO form followed by a text normalises to the same if the text is empty or starts with T, t or white space, and is refused otherwise |
| ExcelDate.NormalizeTwice | apps/web/components/hr-attendance-board.tsx:141-176 | Normalising again is the identity if and only if the year is at least 1000 |
| SeedDemo.CodesSort | apps/api/scripts/seed-demo.ts:97-99 | Codes of numbers below 10^width are ordered like their numbers |
| SeedDemo.CodeReads | apps/api/scripts/seed-demo.ts:97-99 | A code is its prefix and then a numeral of the number with at least the width |
| SeedDemo.GenerationOrder | apps/api/scripts/seed-demo.ts:431-435 | Any list in code order of the codes 1 to n is the generated list if and only if n < 10^width |
| SeedDemo.CodesAscend | apps/api/scripts/seed-demo.ts:97-99 | Codes 1 to n are ascending if and only if n < 10^width |
| SeedDemo.Overflow | apps/api/scripts/seed-demo.ts:97-99 | The first code one place too long sorts before the one it follows |
| SeedDemo.AggregateOrders | apps/api/scripts/seed-demo.ts:1805-1825 | Each entry is the count, sum and latest date of exactly that customer's orders |
| SeedDemo.OrdersOfMeaning | apps/api/scripts/seed-demo.ts:1810-1812 | A customer's orders are all with that id, each as often as it occurs; the empty id is no customer |
| SeedDemo.SpentMeaning | apps/api/scripts/seed-demo.ts:1819 | An order adds its amount, or nothing if it has none |
| SeedDemo.AggregateIsComplete | apps/api/scripts/seed-demo.ts:1810-1846 | Totals over the map are the totals over all orders that have a customer |
| Paging.PagesPartition | apps/web/components/crm-operations-board.tsx:645-652 | The pages, one behind the other, are the list |
| Paging.RangeIsPage | apps/web/components/crm-operations-board.tsx:645-660 | After the clamp the rows shown are exactly those the range names, and not empty unless the list is; the page asked for is kept if it has rows |

## Left out

- JSX, styling, toasts, React scheduling beyond "an effect runs with the render that triggers it", and double effects of strict mode.
- UTF-16 code units: texts are sequences of Unicode characters; the reader and the date patterns only test characters below the surrogates.
- Header names of an import: exported headers are Vietnamese labels that the importer's aliases do not include, so round trips are about cell tables.
- Benchmark.SummaryMeaning: the figures are those before `toFixed(2)`.
- Benchmark.SummaryOrdered: exact arithmetic; floating-point rounding of the mean, of `(p / 100) * n` and of `toFixed` is not modelled, and the mean is of the sorted samples.
- Benchmark: starting order of the workers is left free, which allows more runs than the script has; the warm-up, `parseNumber`, and the text of messages are not modelled.
- Inactivity.CheckOutTiming: timers fire on time; lateness of the event loop is not modelled, and the timeout is a whole number of milliseconds.
- Inactivity: the outcome of the check-out, reload and log-out requests, all of which the handler survives, is not modelled.
- GlobalSearch.Freshness: a reply is labelled with the keyword of its request; that the server answers that keyword is not shown.
- VehicleImport: a request that fails in the middle of the chunks, the role check, and what creating one vehicle does are parameters or left out; the type of a row is arbitrary.
- ExcelDate.NormalizeMeaning: only cell texts; `Date` values and Excel serial numbers are not modelled.
- SeedDemo.GenerationOrder: code order is by character; the collation of the database is not modelled.
- SeedDemo.AggregateOrders: amounts and times are integers.
- Local storage and JSON: stored settings arrive as two lists of strings, known or unknown.
- Backend services other than the import loop, access policy, workflow and IAM: not part of this model.
