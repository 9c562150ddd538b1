# Verification of the incident platform's algorithmic cores

This project models the parts of the incident platform that carry real algorithms, state or
arithmetic, and proves properties of them for every input, every run or every reachable state.
Each part has a module of its own:

| module | models |
|---|---|
| `JsText`, `Csv`, `CsvTheorems` | the lenient CSV parser of the import pages, a deviation from section 2 of RFC 4180 |
| `ImportPreview`, `ImportPipeline` | row objects, the vehicle and driver previews with their issue lists, and the way from a file's text to its preview |
| `RateLimiter` | the Redis script of the sliding-window OTP rate limiter |
| `ExportRetries`, `ExportInterleaving`, `ExportProgress` | export rows, retry trees and the attempt numbers recorded for them, one request at a time and interleaved, and what each request leaves in the tables |
| `Statuses` | the case and export statuses the modules share |
| `CaseScoring`, `CaseTheorems`, `CaseMeaning` | completeness, blockers and readiness of a case, and their meaning in terms of its artifacts, events and exports |
| `Dashboard` | the case queue and the operations dashboard, grouped in one pass |
| `PriorityOrder` | the priority order of the command center |
| `VehicleQr`, `QrStatus`, `QrExposure` | vehicle QR tokens, deployment status and coverage statistics, which step a status goes back to, and whether the active token is one that was printed or scanned |
| `OtpChallenges`, `OtpAcceptance` | the challenge machine of the legacy driver login, and which codes it accepts |
| `CaseWorkflow` | the case workflow and its event log |

Operations that work step by step are methods (with loops, or of a class whose fields are the
tables they update). Each is proved equal to a specification function. The theorems are about those
functions and about runs of them, where a run is any sequence of operations with any arguments,
refused operations included; and what each function computes is proved once more in terms of its
input alone, by its effect on the tables, by its parts, or by an independent description. `dafny verify dfyconfig.toml` checks everything.

Some results are worth knowing when changing the code:

- The CSV parser composes over line ends exactly when the quotes of the front part balance, and a
  quote left open swallows everything to the end of the input.
- The attempt number of a retry is the size of its tree when it is counted. It is the position of
  the retry in the tree exactly when no member of the tree joined between its row and its count, and
  two retries of the same tree record the same number exactly when no member of the tree was
  inserted between the two counts (`CollidingRun` is such a run).
- `complete` and an empty list of missing items disagree exactly for a full timeline and export with
  some uncaptured artifacts that are at most one in two hundred; 199 captured artifacts and a pending
  one are an example.
- An artifact percentage can differ from exact arithmetic only at a tie, and then by one; readiness
  never depends on it.
- The OTP resend hint is rounded down, so a client that waits exactly that long is refused again
  unless the remaining time was a whole number of seconds or less than one (`ResendHintTooShort`).
- A bulk QR request is rejected by the partial unique index exactly when it names, twice, a
  registered vehicle that has no active token (`BulkRefusedExample`).
- An admin rotation leaves the deployment status alone, so a vehicle can stay `confirmed` although
  its active token was never printed or scanned (`ConfirmedButNeverShown`).
- The workflow validator's refusal for want of permission cannot be observed through the endpoint.

## Model

| member | source | states |
|---|---|---|
| JsText.TrimIsCore | frontend/lib/csvImport.ts:36-43 | `trim()` of a core padded with any white space on either side is the core |
| JsText.TrimSplits | frontend/lib/csvImport.ts:36-43 | every string is white space, its trimmed core, white space, and the core has no white space at its ends |
| JsText.AsciiWhite | frontend/lib/csvImport.ts:36-43 | among the ASCII characters exactly tab, LF, VT, FF, CR and space are white |
| Csv.ParseCsv | frontend/lib/csvImport.ts:15-65 | the character loop with its one-character lookahead and end-of-input step yields the rows of the recursive scanner: the first one as the headers, the others as the data, and empty lists when there is none |
| Csv.ParseOfPrint | frontend/lib/csvImport.ts:21-60 | round trip: any document, with any mixture of bare and quoted stretches and of LF, CR and CRLF line ends, parses back to its table with every cell trimmed and all-blank rows dropped |
| Csv.ScanCells | frontend/lib/csvImport.ts:25-39 | a printed line of cells leaves the scanner outside quotes with exactly those cells, trimmed |
| Csv.ScanLineEnd | frontend/lib/csvImport.ts:41-50 | LF, CR and CRLF all end the row, even when a CR is followed by a text that begins with LF |
| CsvTheorems.QuoteParity | frontend/lib/csvImport.ts:25-33 | the scanner is inside quotes exactly when the number of quote characters read is odd |
| CsvTheorems.ScanSplit | frontend/lib/csvImport.ts:21-53 | scanning may be interrupted anywhere except in front of a quote |
| CsvTheorems.Composition | frontend/lib/csvImport.ts:21-60 | if the quotes of `a` balance, the rows of `a`, line end, `b` are the rows of `a` followed by the rows of `b`, for all three line ends |
| CsvTheorems.UnbalancedDoesNotCompose | frontend/lib/csvImport.ts:25-33 | if they do not balance, a concrete continuation breaks composition |
| CsvTheorems.ComposesExactlyWhenBalanced | frontend/lib/csvImport.ts:21-60 | composition holds for every continuation if and only if the quotes balance |
| CsvTheorems.LineEndsInterchangeable | frontend/lib/csvImport.ts:41-50 | replacing an unquoted line end by another one never changes the rows |
| CsvTheorems.CloseAtEnd | frontend/lib/csvImport.ts:55-60 | a quote that is still open at the end of the input is read as if it were closed there |
| CsvTheorems.OutputIsClean | frontend/lib/csvImport.ts:36-60 | every output cell is trimmed and no output row is blank |
| CsvTheorems.QuotedRoundTrip | frontend/lib/csvImport.ts:15-65 | printing any table with every cell quoted, with any line end and with or without a final one, parses back to the table with trimmed cells and without blank rows |
| CsvTheorems.ReprintIsIdentity | frontend/lib/csvImport.ts:15-65 | print-then-parse is the identity on every parser output |
| CsvTheorems.Lex | frontend/lib/csvImport.ts:21-53 | every text with balanced quotes is the print of some document |
| CsvTheorems.ParserMeaning | frontend/lib/csvImport.ts:15-65 | on every text the parser returns the table of a document whose print is the text, its open quote closed at the end if there is one |
| ImportPreview.BuildRowObjects | frontend/lib/csvImport.ts:96-104 | one object per row, in order; its keys are the headers and each holds the cell of the last column so named, or the empty string for a short row |
| ImportPreview.RowObjectIsDetermined | frontend/lib/csvImport.ts:98-102 | that description determines the object |
| ImportPreview.FieldExactly | frontend/lib/csvImport.ts:91-94 | a field is the looked-up value without surrounding white space, and empty if the column is unmapped or the value is missing |
| ImportPreview.E164Exactly | frontend/lib/csvImport.ts:157 | the phone pattern accepts exactly an optional plus, one digit from 1 to 9 and 7 to 14 further digits |
| ImportPreview.StripPhoneAppend | frontend/lib/csvImport.ts:177 | stripping a phone works piece by piece |
| ImportPreview.StripPhoneChar | frontend/lib/csvImport.ts:177 | it drops white space, parentheses and dashes and keeps every other character |
| ImportPreview.PushRowIssues | frontend/lib/csvImport.ts:134-145 | the failed checks of one row are pushed in order |
| ImportPreview.BuildVehiclePreview | frontend/lib/csvImport.ts:121-155 | preview rows correspond one to one and in order to the input rows; the loop with its growing `seen` set reports the issues given by earlier rows with the same lowercased key |
| ImportPreview.VehicleIssuesExactly | frontend/lib/csvImport.ts:134-152 | an issue is reported if and only if its condition holds at its row (or the column is unmapped), and issues come in row order |
| ImportPreview.VehicleDuplicateExactly | frontend/lib/csvImport.ts:137-141 | a duplicate error is raised at a row exactly when an earlier row has the same lowercased, non-empty unit number |
| ImportPreview.VehicleErrorFreeExactly | frontend/lib/csvImport.ts:121-155 | no error exactly when the column is mapped and all unit numbers are present and pairwise distinct up to case |
| ImportPreview.BuildDriverPreview | frontend/lib/csvImport.ts:159-195 | the same for drivers, keyed by phone |
| ImportPreview.DriverIssuesExactly | frontend/lib/csvImport.ts:173-192 | an issue is reported if and only if its condition holds at its row, and issues come in row order |
| ImportPreview.DriverDuplicateExactly | frontend/lib/csvImport.ts:181-185 | a duplicate error is raised at a row exactly when an earlier row has the same lowercased, non-empty phone |
| ImportPreview.DriverErrorFreeExactly | frontend/lib/csvImport.ts:159-195 | no error exactly when phone is mapped, the three required fields are present in every row and the phones are pairwise distinct |
| ImportPipeline.FieldIsTableCell | frontend/lib/csvImport.ts:91-104 | on parsed rows, looking a field up in the row object and trimming it again reads the last column with the mapped header |
| ImportPipeline.MeaningIsUnique | frontend/lib/csvImport.ts:15-65 | all documents that print to a text, its open quote closed, have the same table, the one the parser returns |
| ImportPipeline.ReadCsv | frontend/lib/csvImport.ts:62-64 | for any text, the headers are the first row of its document and the data rows are the others, and there are none of either if it has no row |
| ImportPipeline.PreviewVehicleCsv | frontend/app/admin/vehicles/page.tsx:118-124 | end to end, for any text: the preview rows, exactly the issues and the absence of errors are those of the columns of the document the text stands for, with the mapping found for its first row; an empty `is_active` becomes `true` |
| ImportPipeline.PreviewDriverCsv | frontend/app/admin/vehicles/page.tsx:129-135 | the same for drivers |
| RateLimiter.Bucket.EvalScript | backend/app/api/routes_driver_auth.py:47-73 | one evaluation changes the set, the counter and the two expiry times, and replies, as the specification of the script says |
| RateLimiter.PrunedTracks | backend/app/api/routes_driver_auth.py:53-54 | after key expiry and pruning the set holds exactly the admissions of the current window, and the full log is kept by the abstraction |
| RateLimiter.AddAppends | backend/app/api/routes_driver_auth.py:67-68 | the generated member id never equals a live one, so the add inserts at the end instead of moving an entry |
| RateLimiter.StepRefines | backend/app/api/routes_driver_auth.py:53-72 | one call decides as the ideal limiter that counts the whole log in (now - window, now] |
| RateLimiter.ScriptRefinesIdeal | backend/app/api/routes_driver_auth.py:53-72 | on every call sequence with a nondecreasing clock all decisions equal those of the ideal limiter |
| RateLimiter.KeysExpireExactly | backend/app/api/routes_driver_auth.py:67-71 | an admission gives both keys the window, rounded up to whole seconds, to live, a denial renews neither; then both are gone and the counter starts again at one |
| RateLimiter.CountInExactly | backend/app/api/routes_driver_auth.py:54-55 | the ideal limiter's count is the number of log positions in the interval |
| RateLimiter.AtMostMaxCallsPerWindow | backend/app/api/routes_driver_auth.py:53-72 | every half-open interval of the window's length holds at most `max_calls` admissions |
| RateLimiter.FullAdmitsExactly | backend/app/api/routes_driver_auth.py:55-64 | after a denial a later call is admitted exactly when the oldest entry has left the window, and a denied call changes nothing |
| RateLimiter.RetryAfterIsExact | backend/app/api/routes_driver_auth.py:56-64 | after any run, a denied caller who returns s whole seconds later, with only denied calls in between, is admitted if and only if s is at least `retry_after`; the clamp to one never matters |
| ExportRetries.ClimbToRoot | backend/app/api/routes_exports.py:397-401 | the climbing loop terminates at the root of the retry tree |
| ExportRetries.SharesRoot | backend/app/api/routes_exports.py:405-408 | the inner loop terminates, and the comparison tells whether two exports are in one tree |
| ExportRetries.IndexById | backend/app/api/routes_exports.py:396 | the dictionary holds every listed export under its id |
| ExportRetries.GetRetryAttemptNumber | backend/app/api/routes_exports.py:394-410 | the attempt number is the size of the retry tree, whatever the order of the list |
| ExportRetries.ExportsOfLists | backend/app/db/repo/exports.py:18-20 | filtering the table by incident lists each of its exports once |
| ExportRetries.ExportDesk.CreateExport | backend/app/api/routes_exports.py:142-205 | the new row, its status, its events and the response, whether or not the job is enqueued |
| ExportRetries.ExportDesk.RetryExport | backend/app/api/routes_exports.py:208-310 | only a failed export is retried; then the new row, its status, its events with the attempt number, and the response |
| ExportRetries.ExportDesk.InsertRetry | backend/app/api/routes_exports.py:225-310 | the part behind the checks: the attempt number is counted after the row is inserted |
| ExportRetries.ExportDesk.Enqueue | backend/app/api/routes_exports.py:278-309 | a failed enqueue leaves the row requested and records no queued event |
| ExportRetries.StepKeepsSound | backend/app/api/routes_exports.py:142-310 | every step keeps unique ids and parents that are earlier exports of the same incident |
| ExportRetries.CountIsRankExactly | backend/app/api/routes_exports.py:403-410 | counting the tree gives an export's position in it if and only if no later export has joined the tree |
| ExportRetries.RunRecords | backend/app/api/routes_exports.py:142-310 | over every run each retry is logged once, in creation order, with its position in its tree, and every queued event repeats the position |
| ExportRetries.TreeIsNumberedOneToK | backend/app/api/routes_exports.py:248-276 | the numbers recorded for one retry tree, branches and failed enqueues included, are exactly 1, 2, ..., k in creation order |
| ExportRetries.TreesPartitionIncident | backend/app/api/routes_exports.py:403-410 | the per-root counts add up to the number of exports of the incident |
| ExportProgress.CreateEffect | backend/app/api/routes_exports.py:142-203 | a create adds one export without a parent, marked queued exactly when it was handed over, and records the request and the hand-over; a taken id changes nothing |
| ExportProgress.RetryEffect | backend/app/api/routes_exports.py:217-309 | a retry of a failed export adds one export of the same incident below it, marked queued exactly when it was handed over, with both events; any other retry changes nothing |
| ExportProgress.WorkEffect | backend/app/db/repo/exports.py:126-175 | a worker writes the status of one export and nothing else |
| ExportProgress.UntouchedStatusExactly | backend/app/api/routes_exports.py:170-203 | over every run an export no worker has touched is queued if and only if its hand-over is recorded, and requested otherwise |
| ExportRetries.InterleavedRetriesCollide | backend/app/api/routes_exports.py:225-248 | two retries of one export that are both inserted before they are counted both count 3 |
| ExportInterleaving.NextKeepsOk | backend/app/api/routes_exports.py:225-309 | with the committed insert and the count of a retry as separate steps, every step keeps the forest and the meaning of all recorded numbers |
| ExportInterleaving.RecordedExactly | backend/app/api/routes_exports.py:225-276 | over every interleaved run a recorded number is the number of tree members in the table at the count, and it is the position in the tree if and only if no member joined between the row and its count |
| ExportInterleaving.SameNumberExactly | backend/app/api/routes_exports.py:225-276 | two retries of one tree record the same number if and only if no member of the tree was inserted between the two counts |
| ExportInterleaving.UninterruptedRetry | backend/app/api/routes_exports.py:225-309 | an insert followed at once by its count is the retry step of the sequential model |
| ExportInterleaving.CollidingRun | backend/app/api/routes_exports.py:225-248 | a run in which two retries of one failed export both record 3 |
| CaseScoring.CollectMissing | backend/app/case_ops/completeness.py:94-96 | the loop concatenates the dimensions' missing items in order |
| CaseScoring.CalculateCompleteness | backend/app/case_ops/completeness.py:86-103 | percent, status, dimensions and missing items of a case, from weights 0.6, 0.25 and 0.15 |
| CaseScoring.DetectBlockers | backend/app/case_ops/blockers.py:50-147 | the six checks in order give the blockers, the severity counts and the codes that block readiness |
| CaseScoring.Check | backend/app/case_ops/blockers.py:57-69 | one check appends its blocker exactly when its condition holds |
| CaseScoring.BuildCaseSnapshot | backend/app/case_ops/service.py:19-34 | completeness, blockers and readiness of a case together |
| CaseTheorems.RoundIsNearest | backend/app/case_ops/completeness.py:22-25 | rounding gives a nearest integer, and the even one of two |
| CaseTheorems.FullPercentExactly | backend/app/case_ops/completeness.py:22-25 | a percentage is 100 exactly when the missing part is at most 1/200 of the whole |
| CaseTheorems.PercentUnderError | backend/app/case_ops/completeness.py:22-25 | a quotient computed with an error below half of 1/possible and rounded either way gives the exact percent, except at a tie between two percents, where it can be off by one |
| CaseTheorems.TieExample | backend/app/case_ops/completeness.py:22-25 | 23 captured of 40 is a tie, and exact arithmetic gives 58 |
| CaseTheorems.OverallUnderError | backend/app/case_ops/completeness.py:93 | an artifact percent that is off by one moves the overall percent by at most one |
| CaseTheorems.ReadinessIgnoresRounding | backend/app/case_ops/readiness.py:19-28 | the readiness state is the same whatever percent incompletely captured evidence is given |
| CaseTheorems.WeightedSumAvoidsHalves | backend/app/case_ops/completeness.py:88-93 | over all reachable dimension percents the weighted sum stays at least 0.05 away from a half |
| CaseTheorems.RoundingModeIrrelevant | backend/app/case_ops/completeness.py:93 | so every nearest-integer rounding gives the same overall percent |
| CaseTheorems.CompleteExactly | backend/app/case_ops/completeness.py:12-19 | status `complete` means that timeline and export are full and at most one artifact in 200 is uncaptured |
| CaseTheorems.NothingMissingExactly | backend/app/case_ops/completeness.py:31-56 | nothing is missing exactly when every artifact is captured and timeline and export are full |
| CaseTheorems.CompleteMeansNothingMissing | backend/app/case_ops/completeness.py:86-103 | with fewer than 200 artifacts `complete` and an empty missing list are the same |
| CaseTheorems.CompleteDisagreesExactly | backend/app/case_ops/completeness.py:86-103 | for any number of artifacts, the two disagree if and only if timeline and export are full and some, but at most one in 200, artifacts are uncaptured |
| CaseTheorems.CompleteWithSomethingMissing | backend/app/case_ops/completeness.py:86-103 | with 200 artifacts or more, one of them uncaptured, a full case is `complete` and still lists a missing item |
| CaseTheorems.CompleteWithSomethingMissingExample | backend/app/case_ops/completeness.py:86-103 | a concrete case: 199 captured artifacts and a pending one |
| CaseTheorems.BlockersListedExactly | backend/app/case_ops/blockers.py:57-134 | a blocker is listed if and only if its condition holds, with its own severity and flag |
| CaseTheorems.ReadinessCodesExactly | backend/app/case_ops/blockers.py:139 | a code is listed as blocking readiness exactly when its condition holds and it is not one of the two export codes |
| CaseTheorems.SeverityCounts | backend/app/case_ops/blockers.py:136-138 | the three severity counts in closed form, never more than two important ones, adding up to the total |
| CaseTheorems.ReadinessBlocked | backend/app/case_ops/blockers.py:139 | no code blocks readiness exactly when nothing is pending or unavailable and some event validates |
| CaseMeaning.EventClasses | backend/app/case_ops/completeness.py:38-41 | collection, validation and export events are those that mention `capture` or `incident_started`, `hash` or `validat`, and `export`, in upper or lower case |
| CaseMeaning.LowerExample | backend/app/case_ops/completeness.py:38 | a concrete event type and its lower-case form |
| CaseMeaning.BlockersSpelledOut | backend/app/case_ops/blockers.py:53-134 | the list of blockers in order, each with its condition on the case's own lists, its severity and its flag |
| CaseMeaning.BlockingCodesSpelledOut | backend/app/case_ops/blockers.py:139 | when each of the six codes blocks readiness, on the case's own lists |
| CaseMeaning.SummaryExactly | backend/app/case_ops/blockers.py:136-147 | the summary counts the listed blockers of each severity and lists the codes of those that block readiness |
| CaseMeaning.DimensionsSpelledOut | backend/app/case_ops/completeness.py:28-83 | names, points and percents of the three dimensions on the case's own lists |
| CaseMeaning.PercentSpelledOut | backend/app/case_ops/completeness.py:88-93 | the overall percent is a nearest whole number of 0.6, 0.25 and 0.15 of the dimension percents |
| CaseMeaning.StatusBands | backend/app/case_ops/completeness.py:12-19 | the bands 40, 75 and 100 of the status, overall and in every dimension |
| CaseMeaning.MissingExactly | backend/app/case_ops/completeness.py:31-56 | an item is missing if and only if its condition on the case's own lists holds |
| CaseMeaning.SettledExactly | backend/app/case_ops/readiness.py:19-22 | exactly closed cases are `closed` and exactly exported ones are `exported` |
| CaseTheorems.ReadyExactly | backend/app/case_ops/readiness.py:19-28 | `ready_for_export` exactly when the case is open, every artifact is captured, some event is a hash or validation event, some export is ready, and some event is a collection or export event |
| CaseTheorems.NotReadyExactly | backend/app/case_ops/readiness.py:23-24 | `not_ready` exactly when the case is open and an artifact is pending or there are artifacts but none is captured |
| CaseTheorems.SnapshotMonotone | backend/app/case_ops/service.py:19-34 | a case that is at least as far never has a lower percent or readiness |
| CaseTheorems.RunIsMonotone | backend/app/case_ops/readiness.py:19-28 | along every run of captures, unavailable marks, events, exports and ready exports, percent and readiness never decrease |
| CaseTheorems.ListViewNeverExceedsDetail | backend/app/api/routes_incidents.py:213-218 | the list view, which scores without events and exports, never reports more than the detail view |
| Dashboard.GroupByIncident | backend/app/case_ops/metrics.py:113-118 | the one-pass index gives for every incident what filtering the raw rows by its id gives |
| Dashboard.IndexTables | backend/app/api/routes_admin.py:797-806 | the same for the three tables of the dashboard |
| Dashboard.ScoreIncident | backend/app/case_ops/metrics.py:121-127 | a snapshot scored from the index is the snapshot of the incident's own rows |
| Dashboard.QueryIncidentQueue | backend/app/case_ops/metrics.py:109-132 | the queue is every incident scored from its own rows, filtered by blockers, in order |
| Dashboard.ItemsOfParts | backend/app/case_ops/metrics.py:113-118 | filtering rows by incident works piece by piece and keeps the order |
| Dashboard.ItemsOfOne | backend/app/case_ops/metrics.py:113-118 | a single row belongs to its own incident only |
| Dashboard.QueueOfParts | backend/app/case_ops/metrics.py:120-130 | the queue of two lists of incidents is one after the other |
| Dashboard.QueueOfOne | backend/app/case_ops/metrics.py:175-211 | one incident is shown exactly when its own blockers match the filter, with the fields of its own snapshot |
| Dashboard.ScoreAll | backend/app/case_ops/service.py:44-58 | the loop gives each incident's snapshot and the known creation times, in order |
| Dashboard.BuildDashboard | backend/app/case_ops/metrics.py:31-64 | the metrics are those of the incidents scored one by one |
| Dashboard.MetricsAdd | backend/app/case_ops/metrics.py:42-63 | every counter of the dashboard adds up over two groups of cases |
| Dashboard.MetricsOfOneCase | backend/app/case_ops/metrics.py:42-56 | what one case contributes to each state and blocker counter |
| Dashboard.MetricsOfOneAge | backend/app/case_ops/metrics.py:60-62 | what one creation time contributes to the age buckets of one, three and seven days |
| Dashboard.AgesExactly | backend/app/case_ops/metrics.py:37-40 | an age is the time since the creation, and zero for a creation in the future |
| Dashboard.AverageExactly | backend/app/case_ops/metrics.py:58 | the average age times the number of ages is their sum in days, and zero without ages |
| Dashboard.CreatedTimesParts | backend/app/case_ops/service.py:56-58 | creation times are collected piece by piece, in order |
| Dashboard.CreatedTimesOne | backend/app/case_ops/service.py:56-58 | an incident contributes its creation time if it has one |
| Dashboard.SortFacts | backend/app/case_ops/metrics.py:24 | sorting is ascending and keeps the values |
| Dashboard.P95Bounds | backend/app/case_ops/metrics.py:21-28 | the p95 value is in the list, at least 0.95 n - 0.45 values are not above it and at least 0.05 n + 0.45 are not below it |
| Dashboard.CountersAddUp | backend/app/case_ops/metrics.py:42-49 | the five state counters add up to the number of snapshots, and open is all but closed |
| Dashboard.DashboardIsConsistent | backend/app/case_ops/metrics.py:37-63 | for any tables and incidents the state counters add up to the incidents, open is all but closed, over_7d <= over_72h <= over_24h, and the p95 age is an age with the stated share of ages on either side |
| PriorityOrder.PriorityScore | frontend/lib/commandCenter.ts:58-68 | the accumulated score and the time of an item in whole milliseconds |
| PriorityOrder.ScoreOfCalm | frontend/lib/commandCenter.ts:59-65 | a case with nothing against it scores zero |
| PriorityOrder.ScoreAdds | frontend/lib/commandCenter.ts:59-65 | what each circumstance adds to the score, all else equal |
| PriorityOrder.UpdatedExactly | frontend/lib/commandCenter.ts:66 | the time is that of the last activity, else of the creation, in milliseconds passed, else zero |
| PriorityOrder.SortIsStable | frontend/lib/commandCenter.ts:70-77 | the result is a permutation in order of (score, updated) descending that keeps the order of equal items |
| PriorityOrder.SortedExactly | frontend/lib/commandCenter.ts:74-75 | an earlier item scores higher, or as high and was updated no earlier |
| PriorityOrder.StableSortIsUnique | frontend/lib/commandCenter.ts:71-76 | any other stable sort by this comparator gives the same list |
| PriorityOrder.ItemIsPlausible | backend/app/case_ops/metrics.py:193-211 | every queue item has at most two important blockers, a percent between 0 and 100, and a critical blocker if it is not ready |
| PriorityOrder.QueueIsPlausible | backend/app/case_ops/metrics.py:120-132 | the same for every item of every queue |
| PriorityOrder.ScoreSeparates | frontend/lib/commandCenter.ts:58-65 | an item that is neither critical nor escalated scores at most 1600, every other at least 10000 |
| PriorityOrder.UrgentCasesFormAPrefix | frontend/lib/commandCenter.ts:70-77 | for every queue the backend returns, the critical or escalated cases come first |
| VehicleQr.QrDesk.CommitTables | backend/app/db/models.py:2136-2144 | a transaction is written if the primary key and the partial unique index allow it, and changes nothing otherwise |
| VehicleQr.QrDesk.GenerateVehicleQr | backend/app/api/routes_qr_deployment.py:120-166 | tokens, deployment status, event and the exact response of a single generation |
| VehicleQr.QrDesk.BulkGenerateVehicleQr | backend/app/api/routes_qr_deployment.py:175-239 | the same for a bulk request whose queries do not see its own pending tokens, with the response and the generated and skipped vehicles in request order |
| VehicleQr.QrDesk.MarkRotated | backend/app/api/routes_qr_deployment.py:268-269 | the loop retires exactly the vehicle's active tokens |
| VehicleQr.QrDesk.RotateVehicleQr | backend/app/api/routes_qr_deployment.py:248-290 | rotation retires the active tokens, issues one that remembers the first of them, and resets the deployment status |
| VehicleQr.QrDesk.AdminRotateQr | backend/app/api/routes_admin.py:512-545 | the admin rotation does the same to the tokens, without looking the vehicle up or touching its status |
| VehicleQr.QrDesk.DownloadPrintable | backend/app/api/routes_qr_deployment.py:298-340 | printing needs a registered vehicle with an active token and marks it distributed |
| VehicleQr.QrDesk.ResolveQr | backend/app/api/routes_driver.py:338-380 | only an active token resolves, and confirms its vehicle if that is registered |
| VehicleQr.RotationExtendsChain | backend/app/api/routes_qr_deployment.py:259-278 | a rotation extends the vehicle's chain by one token and changes no other chain |
| VehicleQr.StepKeepsGood | backend/app/api/routes_qr_deployment.py:120-340 | every step keeps the run invariant of all vehicles |
| VehicleQr.RunKeepsGood | backend/app/api/routes_qr_deployment.py:120-340 | so does every run |
| VehicleQr.TokensFormOneChain | backend/app/api/routes_qr_deployment.py:131-150 | over every run a vehicle's tokens form one linear chain of previous tokens, with distinct ids, that ends in its only active token and is as long as the event log accounts for; a vehicle that has left `not_generated` has exactly one active token |
| VehicleQr.IssuedCountsRotations | backend/app/api/routes_qr_deployment.py:259-288 | that length is one plus the number of rotations after the first token |
| VehicleQr.RotationCommits | backend/app/api/routes_qr_deployment.py:268-289 | with a new token id a rotation is never rejected |
| VehicleQr.GenerationCommits | backend/app/api/routes_qr_deployment.py:131-161 | nor is a single generation |
| VehicleQr.BulkRefusedExactly | backend/app/api/routes_qr_deployment.py:185-233 | the unique index rejects a bulk request exactly when it names twice a registered vehicle without an active token |
| VehicleQr.BulkRefusedExample | backend/app/api/routes_qr_deployment.py:185-233 | a new vehicle named twice in one request is refused and nothing changes |
| VehicleQr.UniqueActiveMeans | backend/app/db/models.py:2136-2144 | the partial unique index says that no vehicle has more than one active token |
| VehicleQr.BulkNext | backend/app/api/routes_qr_deployment.py:185-232 | what one item of a bulk request adds to the tokens, statuses, events and answer lists |
| QrStatus.ImportEffect | backend/app/services/vehicle_import_service.py:192-213 | an import registers a vehicle as not generated, or keeps the status of a known one |
| QrStatus.GenerateEffect | backend/app/api/routes_qr_deployment.py:128-161 | tokens, status and event of a generation, and exactly when it changes nothing |
| QrStatus.RotateEffect | backend/app/api/routes_qr_deployment.py:256-289 | tokens, status and event of a desk rotation, token by token, and exactly when it changes nothing |
| QrStatus.AdminRotateEffect | backend/app/api/routes_admin.py:512-545 | the same for an admin rotation, which touches no vehicle |
| QrStatus.PrintEffect | backend/app/api/routes_qr_deployment.py:306-340 | a print marks a vehicle in service with an active token distributed, and changes nothing otherwise |
| QrStatus.ResolveEffect | backend/app/api/routes_driver.py:338-380 | resolving an active token confirms its registered vehicle; a rotated one changes nothing |
| QrStatus.BulkSets | backend/app/api/routes_qr_deployment.py:185-233 | a committed bulk request marks exactly the named vehicles in service generated |
| QrStatus.NamedExactly | backend/app/api/routes_qr_deployment.py:195-197 | a vehicle is reported generated or skipped according to whether it is in service |
| QrStatus.StepSets | backend/app/api/routes_qr_deployment.py:120-340 | what each step makes of each vehicle's status; no other vehicle changes |
| QrStatus.StatusExactly | backend/app/api/routes_qr_deployment.py:120-340 | over every run a vehicle is distributed, confirmed or generated if and only if the last step that set its status was an accepted print, a resolution of one of its active tokens, or a committed generation or desk rotation |
| QrStatus.StatsExactly | backend/app/api/routes_qr_deployment.py:85-111 | the four counts and two blockers in terms of the vehicles and tokens |
| VehicleQr.CoverageIsOrdered | backend/app/api/routes_qr_deployment.py:85-111 | in every reachable state confirmed <= distributed <= generated <= required; the first blocker is absent exactly when generated equals required, and whenever the second one is absent |
| QrExposure.ActivesAfterRotation | backend/app/api/routes_admin.py:512-538 | after a rotation the vehicle's only active token is the new one, and other vehicles keep theirs |
| QrExposure.NextKeepsSound | backend/app/api/routes_qr_deployment.py:120-340 | every step keeps the correspondence of status and shown tokens for all vehicles |
| QrExposure.DistributedMeansShownExactly | backend/app/api/routes_qr_deployment.py:98-99 | over every run, the active token of a vehicle counted as distributed or confirmed has been printed or resolved if and only if no admin rotation came after the last print or resolve |
| QrExposure.ConfirmedButNeverShown | backend/app/api/routes_admin.py:512-545 | a run after which a vehicle is confirmed and its active token was never printed or resolved |
| OtpChallenges.OtpDesk.RequestDriverOtp | backend/app/api/routes_driver.py:160-220 | a request within the cooldown changes nothing; any other retires what is pending for the phone and issues a challenge |
| OtpChallenges.OtpDesk.RetirePending | backend/app/api/routes_driver.py:205-207 | the loop expires exactly the phone's pending challenges |
| OtpChallenges.OtpDesk.VerifyDriverOtp | backend/app/api/routes_driver.py:223-288 | expiry, attempt counting, lock-out and verification of the newest pending challenge, and the response |
| OtpChallenges.LatestPending | backend/app/api/routes_driver.py:233-241 | the newest pending challenge of the phone, or none exactly when nothing is pending |
| OtpAcceptance.VerifyExactly | backend/app/api/routes_driver.py:248-288 | with a pending challenge: after ten minutes it expires; until then the right code verifies it and a wrong one costs an attempt, the fifth the challenge; nothing else changes |
| OtpAcceptance.VerifyRefused | backend/app/api/routes_driver.py:227-246 | blank input and a phone without a pending challenge are refused without a change |
| OtpAcceptance.RequestRefused | backend/app/api/routes_driver.py:187-203 | a request within the cooldown is refused without a change, with the remaining whole seconds, at least one, as the hint |
| OtpAcceptance.RequestSent | backend/app/api/routes_driver.py:205-217 | any other request retires the phone's pending challenges and issues one for ten minutes with the hash that was sent |
| OtpAcceptance.AcceptedExactly | backend/app/api/routes_driver.py:265-276 | over every run a comparing response answers a verification for the phone of the request that issued the challenge, and accepts if and only if the code is the one sent then |
| OtpAcceptance.RightCodeAccepted | backend/app/api/routes_driver.py:248-276 | over every run the code that was sent for a challenge still pending and at most ten minutes old is accepted |
| OtpChallenges.StepKeepsGood | backend/app/api/routes_driver.py:182-276 | every request or verification keeps the run invariant |
| OtpChallenges.RunKeepsGood | backend/app/api/routes_driver.py:182-276 | so does every sequential interleaving of them |
| OtpChallenges.AtMostOnePending | backend/app/api/routes_driver.py:182-217 | over every run a phone's earlier challenges are settled, and two challenges are issued less than the cooldown apart only if the first was verified or locked |
| OtpChallenges.PendingHasAttemptsLeft | backend/app/api/routes_driver.py:257-268 | over every run any pending challenge has fewer than five attempts |
| OtpChallenges.PreCheckNeverLocks | backend/app/api/routes_driver.py:257-263 | the lock-out branch in front of the comparison is unreachable |
| OtpChallenges.SettledForever | backend/app/api/routes_driver.py:182-276 | a challenge that is no longer pending never changes again |
| OtpChallenges.AtMostFiveComparisons | backend/app/api/routes_driver.py:265-276 | over every run each challenge is compared at most five times, accepted at most once, and verified exactly when it was accepted |
| OtpChallenges.ResendHintExactly | backend/app/api/routes_driver.py:193-203 | after waiting exactly the hinted time a request is sent if and only if the remaining time was a whole number of seconds or less than one second |
| OtpChallenges.ResendHintTooShort | backend/app/api/routes_driver.py:193-203 | a concrete caller who waits exactly the hinted time and is refused again |
| CaseWorkflow.CaseRow.PatchIncidentStatus | backend/app/api/routes_incidents.py:577-665 | the status, the recorded events and the response of a patch; a refused patch changes nothing |
| CaseWorkflow.CaseRow.SyncAfterExport | backend/app/tasks/export_tasks.py:368-396 | a finished export moves exactly a `ready_for_export` case to `exported` and records the change |
| CaseWorkflow.AcceptedExactly | backend/app/case_ops/workflow.py:11-31 | a patch is accepted if and only if the two statuses are connected and the user may close, escalate or reopen where that is needed |
| CaseWorkflow.ConflictExactly | backend/app/case_ops/workflow.py:85-105 | the validator's permission refusal never reaches the caller, and a conflict means unconnected statuses |
| CaseWorkflow.ValidateExactly | backend/app/case_ops/workflow.py:34-112 | what the validator allows, and which of its four refusals it gives, for known and unknown statuses |
| CaseWorkflow.RefusedExactly | backend/app/api/routes_incidents.py:577-593 | which role or capability refusal a patch gets |
| CaseWorkflow.PatchEffect | backend/app/api/routes_incidents.py:600-665 | an accepted patch sets the status and records the update, the change and what the change calls for; a refused one changes nothing |
| CaseWorkflow.ExportEffect | backend/app/tasks/export_tasks.py:368-396 | a finished export moves exactly a ready case to exported and records it |
| CaseWorkflow.LogReplays | backend/app/api/routes_incidents.py:606-665 | over every run replaying the status changes yields the stored status, and the case is closed if and only if the last closing or reopening event is a closing one |
| CaseWorkflow.ChangesChain | backend/app/api/routes_incidents.py:614-638 | consecutive status changes chain: each starts where the one before ended, the first one from `new`, and follows a connection |
| CaseWorkflow.ClosedBeforeReopened | backend/app/api/routes_incidents.py:648-665 | between two reopening events, and before the first, there is a closing event |
| CaseWorkflow.EveryChangeIsAnnounced | backend/app/api/routes_incidents.py:639-665 | over every run there are as many escalation, closing and reopening events as status changes that call for them |
| CaseWorkflow.StepKeepsGood | backend/app/api/routes_incidents.py:577-665 | every patch and every finished export keeps log and status consistent |
| CaseWorkflow.RunKeepsGood | backend/app/api/routes_incidents.py:577-665 | so does every run |
| CaseWorkflow.OrdinaryRun | backend/app/api/routes_incidents.py:74-83 | in runs where no user holds a special capability `exported` and `closed` are never left, `closed` and `escalated` are never entered, and no special event is recorded |

## Left out

- Web framework plumbing, schemas, sessions, authentication, audit events, message sending, PDF and storage clients, all user interface code, scripts and demo seeding: only the state changes they wrap are modelled, and enqueueing is a step that may fail.
- Header matching (`normalizeHeader`, `autoMapHeaders`): the column mapping of a preview is a parameter, in the pipeline an arbitrary function of the header row. Lowercasing is an arbitrary function parameter, so the preview results hold for every lowercasing.
- ImportPreview.BuildRowObjects: does not model a header named `__proto__`, which JavaScript treats specially on object literals.
- ImportPipeline.PreviewVehicleCsv: the page keeps its earlier preview while the text is blank; the model computes the (empty) preview of a blank text too.
- Csv.ParseCsv: its characters are code points rather than UTF-16 code units; the parser treats both halves of a surrogate pair alike.
- RateLimiter.Bucket.EvalScript: one clock serves the caller and Redis, keys disappear strictly after their time to live, and timestamps are not negative; reloading the script after a cache flush is not modelled.
- ExportRetries.ExportDesk.RetryExport: the method runs without interruption; `ExportInterleaving` has insert and count as separate steps, and lets the events after the count be recorded together with it. Ids are fresh because a taken one is refused by the primary key. Export type, profile, options and the progress stage are not kept.
- The idempotency key of export requests.
- Worker transitions of an export's status are arbitrary; they do not touch the immutable columns that the retry trees are made of.
- CaseScoring.CalculateCompleteness: uses exact rationals where the code uses floats. For the weighted sum this makes no difference (`WeightedSumAvoidsHalves`). An artifact percentage can differ at ties only: for 23 captured of 40 the exact percent is 58 (`TieExample`), while the float product is just below 57.5 and gives 57. `PercentUnderError`, `OverallUnderError` and `ReadinessIgnoresRounding` bound the effect: one percent, and none on readiness. Event types are lowercased in the ASCII range only.
- Messages, categories, hints and resolvers of blockers: codes, severities and flags are kept.
- Readiness overrides and the `is_ready_for_export` flag, which is a table lookup on the state.
- Paging, searching and sorting of the case queue in the database: the list of incidents is a parameter.
- PriorityOrder.SortIsStable: dates are valid, and the readiness value `blocked` is left out because no backend function returns it. The JavaScript sort is known only as a stable sort; `StableSortIsUnique` shows that this fixes its result.
- VehicleQr.TokensFormOneChain: one organisation and its administrators; unit numbers that differ only in case are one vehicle to the import and are not told apart here. Revoked tokens do not occur because no modelled endpoint revokes one.
- OtpChallenges.OtpDesk.RequestDriverOtp: phones and code hashes are numbers with one value for blank input; creating a missing driver and sending the code are not modelled. Verifications of one challenge run one at a time.
- CaseWorkflow.CaseRow.PatchIncidentStatus: which role has which capability is a parameter, and the lookup and view permissions in front of the patch are not modelled. The database column holds only known statuses; `ValidateTransition` also covers unknown ones.
- The QR and import endpoints duplicated in `routes_integrations.py`, entitlement maps, plan tables, publication toggles and settings validation.
