# jiralog — a Dafny model of its three worklog commands

jiralog is a set of PHP console commands that move worklogs between Tempo,
an internal Jira and a customer's Jira. This project models the sequential
logic of three of them and proves what that logic guarantees:

- `tempo:activity-report` (module `ActivityReport`, class
  `ActivityReport.ReportCommand`). It reads every Tempo account and
  work-attribute definition. It then pages through the Tempo worklogs of a
  period and de-duplicates their issue ids. It indexes the Jira issues of
  those ids, together with their parents, through a paginated search. Each
  issue gets its Tempo account attached. Finally every worklog becomes one
  report row: the issue and its parent come from a write-once issue cache,
  the author's name from a write-once user cache, and each work attribute
  is translated from its code to its label.
- `tempo:extract-logs` (module `ExtractWorklogs`). It reads one author's
  Tempo worklogs and formats each duration as `"1h 30m"`. It finds the
  issue's key on the customer's Jira, `key_adeo`, which is the first word of
  the issue summary when that word holds `BMITFOX-` or `BMITB2C`. After one
  confirmation for the whole export and one per keyed row, it re-creates
  each keyed worklog whose own prompt is confirmed on the customer's Jira.
- `jira:worklogs` (module `GetWorklogs`). For each issue key it reads the
  issue's worklogs, projects them to table rows, and sorts them with PHP 8's
  stable `usort`. It keeps one author's rows, or all of them for `all`. It
  prints one table per issue that still has a row, with the total time spent
  in the footer. It stops at the first failing API call.

Some PHP idioms are shared by the commands and are modelled once:

- `ArrayOps` covers the `array_reduce`/`in_array` de-duplication,
  `array_combine`, `array_map`, and the "store each element under its key"
  `foreach`.
- `Text` covers integer-to-string conversion, `explode`/`implode` on a
  space, and `str_contains`.
- `Wrappers` holds `Option` and `Result`.
- `Outcome` holds the two ways an API call fails and the two ways a command
  ends: a structured error answer, whose messages are printed before the
  command returns 1, and a transport failure, which ends the process through
  `die`.

Everything outside the process is a parameter:

- the HTTP APIs, the Jira search, the time conversions and the operator's
  answers to prompts are function-typed arguments;
- the issue and user lookups behind the caches are constants of
  `ReportCommand`;
- the network lookups are counted in `issueFetches` and `userFetches`.

The source is followed where it differs from a natural reading. `$this->issues`
is still the positional list of ids while the parents are checked, so that
check reads list positions. The model keeps this as written:
`EpicCheckReadsPositions` gives an input where it matters. Likewise,
`getIssue` returns a bare id there and the PHP code then throws a
`TypeError`, which the model returns as an error.

## Model

| member | source | states |
|---|---|---|
| ArrayOps.Dedup | src/Tempo/ActivityReportCommand.php:113-120 | the de-duplicated list holds exactly the values of the input, each of them once |
| ArrayOps.DedupKeepsFirstOccurrenceOrder | src/Tempo/ExtractWorklogsCommand.php:114-121 | the de-duplicated values appear in the order of their first occurrence in the input |
| ArrayOps.MapSeq | src/Tempo/ExtractWorklogsCommand.php:94-112 | `array_map` on a list keeps its length, and element i is the callback applied to input element i |
| ArrayOps.Combine | src/Tempo/ActivityReportCommand.php:82 | `array_combine` has exactly the given keys as its keys |
| ArrayOps.CombineLastWins | src/Tempo/ActivityReportCommand.php:82 | a key is bound to the value paired with its last occurrence |
| ArrayOps.IndexBy | src/Tempo/ActivityReportCommand.php:75-77 | after the keyed `foreach`, every element's key is present and every present key comes from some element |
| ArrayOps.IndexByLastWins | src/Tempo/ActivityReportCommand.php:75-77 | the value under a key is the one of the last element with that key |
| Text.NatToString | src/Tempo/ExtractWorklogsCommand.php:205-206 | PHP's decimal text of a natural number is a non-empty run of digits with no leading zero |
| Text.ParseNatToString | src/Tempo/ExtractWorklogsCommand.php:205-206 | that text reads back as the same number |
| Text.Explode | src/Tempo/ExtractWorklogsCommand.php:138 | `explode(' ', s)` yields at least one piece, and no piece contains a space |
| Text.ImplodeExplode | src/Tempo/ExtractWorklogsCommand.php:138 | joining the pieces of `explode` by single spaces gives back the string |
| Text.ExplodeImplode | src/Tempo/ExtractWorklogsCommand.php:208 | `explode` undoes `implode` on space-free pieces |
| Text.FirstPieceBeforeSpace | src/Tempo/ExtractWorklogsCommand.php:138 | the first piece is the text before the first space, or the whole string when there is none |
| Text.ContainsIffOccurs | src/Tempo/ExtractWorklogsCommand.php:139 | `str_contains` holds exactly when the needle occurs at some position |
| ExtractWorklogs.TruncMod | src/Tempo/ExtractWorklogsCommand.php:202 | PHP's `%` takes the sign of the dividend: on a non-negative dividend it is the mathematical remainder, on a negative one it is not positive; the dividend minus it is a multiple of the divisor, and its magnitude stays below the divisor, which fixes it uniquely |
| ExtractWorklogs.FormatTime | src/Tempo/ExtractWorklogsCommand.php:199-209 | for a non-negative duration the text is empty exactly when the duration is under a minute |
| ExtractWorklogs.FormatTimeLayout | src/Tempo/ExtractWorklogsCommand.php:201-208 | hours are `s div 3600` and minutes `(s mod 3600) div 60`, so minutes are below 60; "<h>h" appears iff hours > 0, "<m>m" iff minutes > 0, hours first, joined by one space |
| ExtractWorklogs.FormatTimeExamples | src/Tempo/ExtractWorklogsCommand.php:199-209 | 0 and 59 give "", 1800 gives "30m", 3600 gives "1h", 5400 gives "1h 30m" and 6300 gives "1h 45m" |
| ExtractWorklogs.FormatTimeRoundTrip | src/Tempo/ExtractWorklogsCommand.php:199-209 | reading the formatted text back as hours and minutes gives the duration less its seconds below a minute, so nothing else is lost |
| ExtractWorklogs.KeyAdeoIsLeadingWord | src/Tempo/ExtractWorklogsCommand.php:136-142 | a non-empty `key_adeo` is the summary's first space-free word and holds `BMITFOX-` or `BMITB2C`; an issue the search did not return has no key |
| ExtractWorklogs.KeyAdeoOfMarkedSummary | src/Tempo/ExtractWorklogsCommand.php:138-141 | a summary whose first word holds `BMITFOX-` or `BMITB2C` at any position gives that word as the key |
| ExtractWorklogs.KeyAdeoOfPlainSummary | src/Tempo/ExtractWorklogsCommand.php:138-141 | a summary whose first word holds neither marker gives the empty key |
| ExtractWorklogs.FillKeys | src/Tempo/ExtractWorklogsCommand.php:123 | `array_fill_keys` has exactly the ids as its keys, each bound to `null` |
| ExtractWorklogs.IndexSummaries | src/Tempo/ExtractWorklogsCommand.php:123-132 | the loop leaves every queried id mapped to `null`, overlaid with each returned issue under its own id |
| ExtractWorklogs.SummaryEntry | src/Tempo/ExtractWorklogsCommand.php:123-132 | every queried id keeps an entry: `null` when the search did not return it, otherwise the last issue returned under it |
| ExtractWorklogs.AttachKeys | src/Tempo/ExtractWorklogsCommand.php:134-147 | the second mapping keeps the number and order of the rows |
| ExtractWorklogs.AttachKeysKeepsRows | src/Tempo/ExtractWorklogsCommand.php:134-147 | each row keeps time, date, start time, formatted time and description; it only gains `key_adeo` and loses `issue_id`, and a missing issue gives an empty key |
| ExtractWorklogs.ReplicationIsSubsequence | src/Tempo/ExtractWorklogsCommand.php:167-194 | the create calls are taken only from rows with a key, in row order, at most one per row |
| ExtractWorklogs.ReplicationAllConfirmed | src/Tempo/ExtractWorklogsCommand.php:167-194 | when every prompt is confirmed, each keyed row is replicated exactly once |
| ExtractWorklogs.ReplicationBound | src/Tempo/ExtractWorklogsCommand.php:167-194 | the number of created worklogs is at most the number of keyed rows, which is at most the number of rows |
| ExtractWorklogs.ReplicationAllDeclined | src/Tempo/ExtractWorklogsCommand.php:174-180 | when every prompt is declined, nothing is replicated |
| ExtractWorklogs.ReplicationAppend | src/Tempo/ExtractWorklogsCommand.php:167-194 | replicating two runs of rows one after the other numbers the second run's prompts after the first run's keyed rows |
| ExtractWorklogs.ReplicationIsConfirmed | src/Tempo/ExtractWorklogsCommand.php:167-188 | row j is sent exactly when it has a key and its own prompt is answered yes, that prompt being the first one plus the number of keyed rows before j; the calls follow the row order |
| ExtractWorklogs.Replicate | src/Tempo/ExtractWorklogsCommand.php:167-194 | the loop makes exactly the create calls of the replication schedule and records each call's answer; it asks one prompt per keyed row and none for a row without a key |
| ExtractWorklogs.Execute | src/Tempo/ExtractWorklogsCommand.php:74-196 | a structured error prints its messages and returns 1; a transport error dies with its message; no results dies with "Nessun risultato trovato" before any search or table; otherwise the command searches once for the de-duplicated ids, builds the table from the projected rows and the indexed search result, and replicates only after the first prompt is confirmed |
| GetWorklogs.ProjectAll | src/Jira/GetWorklogsCommand.php:73-87 | the projection yields exactly one row per worklog, in order |
| GetWorklogs.ProjectionKeepsWorklogs | src/Jira/GetWorklogsCommand.php:73-87 | each row carries its worklog's id, author, e-mail, duration and seconds, and its start time in local time |
| GetWorklogs.StableSortSorted | src/Jira/GetWorklogsCommand.php:89 | the sorted rows are ordered by the comparator's key |
| GetWorklogs.StableSortPermutes | src/Jira/GetWorklogsCommand.php:89 | sorting yields a permutation of the rows |
| GetWorklogs.StableSortIsStable | src/Jira/GetWorklogsCommand.php:89 | rows with equal keys keep their relative order |
| GetWorklogs.InsertLast | src/Jira/GetWorklogsCommand.php:89 | one in-place insertion pass puts element i among the sorted prefix as the stable insertion does, and leaves the rest of the array untouched |
| GetWorklogs.SortByStarted | src/Jira/GetWorklogsCommand.php:89 | the in-place sort leaves the array equal to the stable sort of its old contents |
| GetWorklogs.FilterEmail | src/Jira/GetWorklogsCommand.php:91-93 | with `all`, no row is removed |
| GetWorklogs.OfAuthorExactly | src/Jira/GetWorklogsCommand.php:92 | for any other address, the kept rows are exactly those whose author e-mail equals it, each as many times as in the input, in their order |
| GetWorklogs.OfAuthorSorted | src/Jira/GetWorklogsCommand.php:89-92 | filtering sorted rows leaves them sorted |
| GetWorklogs.TotalFilterAppend | src/Jira/GetWorklogsCommand.php:91-94 | the total over the kept rows of two concatenated lists is the sum of their totals |
| GetWorklogs.TotalIgnoresSort | src/Jira/GetWorklogsCommand.php:89-94 | the total of the kept sorted rows equals the total of the kept rows in response order |
| GetWorklogs.TotalExamples | src/Jira/GetWorklogsCommand.php:94 | the total of no rows is 0, and 3600, 1800 and 900 seconds add to 6300 |
| GetWorklogs.TableFor | src/Jira/GetWorklogsCommand.php:89-106 | a printed table bears its issue key, has at least one row, and its footer total is the sum of its rows' seconds |
| GetWorklogs.TableContents | src/Jira/GetWorklogsCommand.php:73-98 | there is no table exactly when no row is kept; the total is the sum over the kept worklogs; with `all` the rows are sorted and a permutation of the projected rows; otherwise they are exactly the author's rows with their multiplicities, sorted, in the order of the sorted rows |
| GetWorklogs.RunStopsAtError | src/Jira/GetWorklogsCommand.php:56-71 | the first failing issue stops the command: a structured error with status 1 and its messages, a transport error dying with its message; the issues after it are not asked for |
| GetWorklogs.RunRunning | src/Jira/GetWorklogsCommand.php:56-112 | without a failing call the command keeps going and prints at most one table per issue |
| GetWorklogs.RunNext | src/Jira/GetWorklogsCommand.php:96-106 | an issue with kept rows appends its table after the tables printed so far; one without is skipped and the loop goes on |
| GetWorklogs.RunStopped | src/Jira/GetWorklogsCommand.php:68-70 | once stopped, the later issue keys change nothing |
| GetWorklogs.Execute | src/Jira/GetWorklogsCommand.php:46-115 | the loop ends with status 0, no error lines and the tables of the run when no call fails, and otherwise with the exit, error lines and tables of the stopping point |
| ActivityReport.FetchWorklogs | src/Tempo/ActivityReportCommand.php:96-111 | the first request has no offset; each later one asks for `offset + limit` of the page before, and only after a page with a `next` marker; the loop stops at the first page without one; the results are every fetched page's results concatenated in fetch order |
| ActivityReport.TempoRunUnique | src/Tempo/ActivityReportCommand.php:96-111 | the request sequence is determined by the API, so two runs gather the same worklogs |
| ActivityReport.TempoThreePages | src/Tempo/ActivityReportCommand.php:96-111 | three pages of two worklogs, the last without `next`, take the requests none, offset 2 and offset 4 and give six worklogs |
| ActivityReport.GetIssuesByKey | src/Tempo/ActivityReportCommand.php:163-178 | the first call starts at 0; each later call starts `maxResults` after the previous one and is made only while fewer issues than `total` are gathered and `total` exceeds the next start; the loop stops when that fails; the results are the pages' issues in order |
| ActivityReport.SearchSinglePage | src/Tempo/ActivityReportCommand.php:166-175 | a first page whose `total` does not exceed its `maxResults` means exactly one call |
| ActivityReport.SearchStopsWhenComplete | src/Tempo/ActivityReportCommand.php:175 | no call follows a page after which the gathered count reaches that page's `total` |
| ActivityReport.ListSlots | src/Tempo/ActivityReportCommand.php:113-120 | before indexing, entry i of `$this->issues` holds the i-th distinct id, and there are no other entries |
| ActivityReport.IssueIdsOfWorklogs | src/Tempo/ActivityReportCommand.php:113-120 | the id list holds every worklog's issue id, each exactly once, and no other id, in the order of their first occurrence |
| ActivityReport.DefTable | src/Tempo/ActivityReportCommand.php:82 | a definition's code-to-label table has exactly its codes as keys |
| ActivityReport.FirstUnpaired | src/Tempo/ActivityReportCommand.php:81-82 | it finds the first definition whose code and label lists differ in length, every definition before it being paired |
| ActivityReport.IndexDefinitions | src/Tempo/ActivityReportCommand.php:81-84 | the loop succeeds exactly when every definition is paired; it stores each definition's table under its key, up to the first unpaired one, and so all of them when it succeeds |
| ActivityReport.Translate | src/Tempo/ActivityReportCommand.php:232 | an attribute is shown by its label when the definitions know its code, and verbatim otherwise |
| ActivityReport.TranslateOfDefinitions | src/Tempo/ActivityReportCommand.php:81-84 | over the dictionary built from the definitions, a code is shown as the label at its last position in the last definition with that key |
| ActivityReport.TranslateUnknownCode | src/Tempo/ActivityReportCommand.php:232 | a code that the last definition with its key does not list is shown verbatim |
| ActivityReport.TranslateUnknownKey | src/Tempo/ActivityReportCommand.php:232 | a code whose key no definition has is shown verbatim |
| ActivityReport.ActivityOfAttributes | src/Tempo/ActivityReportCommand.php:231-233 | the Activity column is the translation of the worklog's last `_Activity_` attribute, and null when it has none |
| ActivityReport.AccountOf | src/Tempo/ActivityReportCommand.php:131-133 | an issue gets an account exactly when its link names a known account, and then it is that account |
| ActivityReport.AccountOfList | src/Tempo/ActivityReportCommand.php:75-77 | over the accounts stored from the account list, an issue gets the last listed account whose id its link names, and none when no listed account has that id |
| ActivityReport.EpicsOf | src/Tempo/ActivityReportCommand.php:125-130 | every collected parent id is the non-empty parent id of some returned issue; the empty-entry condition of line 127 is stated in both directions by `EpicsOfOnlyMissing` and `EpicsOfCollectsAt` |
| ActivityReport.EpicsOfSource | src/Tempo/ActivityReportCommand.php:125-130 | for a collected parent, the index of the issue that added it: that issue sets the parent, and the entry is empty once the issues before it are stored |
| ActivityReport.EpicsOfOnlyMissing | src/Tempo/ActivityReportCommand.php:125-130 | a parent is collected only at an issue that sets it while its entry is empty, the issues before that one being stored |
| ActivityReport.EpicsOfCollectsAt | src/Tempo/ActivityReportCommand.php:125-130 | a non-empty parent id whose entry is empty when its issue is stored is collected |
| ActivityReport.EpicsOfCollects | src/Tempo/ActivityReportCommand.php:125-130 | a parent missing from the id list that no earlier returned issue fills is collected, so it is searched for |
| ActivityReport.EpicCheckReadsPositions | src/Tempo/ActivityReportCommand.php:125-130 | with the ids [7, 9], a parent id 1 is not collected, because entry 1 still holds the id 9 |
| ActivityReport.IndexedEntry | src/Tempo/ActivityReportCommand.php:123-146 | an id the search returned holds its last document with that document's account attached; any other id keeps its entry |
| ActivityReport.IssueLookup | src/Tempo/ActivityReportCommand.php:180-199 | a non-empty entry is returned with no fetch and nothing changed; an empty one costs one fetch and stores the response's first issue, or null; the result is an issue exactly when the response held one; non-empty entries and the user cache are never changed |
| ActivityReport.IssueLookupTwice | src/Tempo/ActivityReportCommand.php:180-199 | after an issue was found, asking again returns the same issue with no further fetch |
| ActivityReport.UserLookup | src/Tempo/ActivityReportCommand.php:201-222 | a non-empty stored user is returned with no fetch; otherwise one fetch stores and returns the response; other users and the issue cache are untouched |
| ActivityReport.UserLookupTwice | src/Tempo/ActivityReportCommand.php:201-222 | a user is fetched once, and the second call returns the stored answer |
| ActivityReport.ShapeRow | src/Tempo/ActivityReportCommand.php:235-285 | the warning is printed exactly when the issue has no account, and it names the issue key; with no parent, Epic Link and Parent Key are "-"; the account columns are empty without an account; the row keeps the worklog's author, date and description and the issue's key |
| ActivityReport.MapStep | src/Tempo/ActivityReportCommand.php:224-288 | a produced row belongs to its worklog and to the issue `getIssue` returned, and carries a warning exactly when that issue has no account; filled cache entries are never overwritten |
| ActivityReport.MapAllRows | src/Tempo/ActivityReportCommand.php:148 | when every lookup succeeds, there is one row per worklog, in order, each carrying its own worklog's author, date, description and activity |
| ActivityReport.MapAllKeepsFilled | src/Tempo/ActivityReportCommand.php:148 | the lookups never overwrite a filled cache entry, so every row sees the issue stored while indexing |
| ActivityReport.MapAllStopped | src/Tempo/ActivityReportCommand.php:148 | after a failed lookup the later worklogs change nothing |
| ActivityReport.ReportCommand.IndexAccounts | src/Tempo/ActivityReportCommand.php:74-77 | every account is stored under its id, over the accounts already held; nothing else changes |
| ActivityReport.ReportCommand.IndexWorkAttributes | src/Tempo/ActivityReportCommand.php:80-84 | the indexing succeeds exactly when every definition is paired; the tables before the first unpaired definition are stored, all of them on success; nothing else changes |
| ActivityReport.ReportCommand.GetIssue | src/Tempo/ActivityReportCommand.php:180-199 | the result and the new caches are those of the write-once issue lookup |
| ActivityReport.ReportCommand.GetUser | src/Tempo/ActivityReportCommand.php:201-222 | the result and the new caches are those of the write-once user lookup |
| ActivityReport.ReportCommand.MapResult | src/Tempo/ActivityReportCommand.php:224-288 | the result and the new caches are those of one mapping step |
| ActivityReport.ReportCommand.MapAll | src/Tempo/ActivityReportCommand.php:148 | the rows and the new caches are those of mapping every worklog in order, stopping at the first failure |
| ActivityReport.ReportCommand.StoreIssuesAndParents | src/Tempo/ActivityReportCommand.php:123-137 | each returned issue is stored under its id with its account; the collected parents are those whose entry was empty at that moment |
| ActivityReport.ReportCommand.StoreIssues | src/Tempo/ActivityReportCommand.php:139-146 | each returned parent is stored under its id with its account |
| ActivityReport.ReportCommand.IndexIssues | src/Tempo/ActivityReportCommand.php:113-146 | the ids are searched, then the de-duplicated parents found missing; the issue dictionary is the id list overlaid with both results, each issue with its account; every list position keeps an entry; the user cache and the counters are untouched |
| ActivityReport.ReportCommand.Run | src/Tempo/ActivityReportCommand.php:86-161 | once the dictionaries are built: the worklogs are those of the Tempo run, the ids their de-duplicated issue ids, the issue dictionary that of the two search runs over the ids and the missing parents, and the report the rows of mapping every worklog over those caches, the first failed lookup, or the empty result (`Reported`); the indexing leaves the user cache and both fetch counters as they were; the accounts and definitions are untouched |
| ActivityReport.ReportCommand.Execute | src/Tempo/ActivityReportCommand.php:65-161 | accounts are indexed; an unpaired definition ends the command before any worklog request; otherwise the worklogs are those of the Tempo run, the ids their de-duplicated issue ids, the issue dictionary is that of the two search runs over the ids and the missing parents, stored with their accounts, and the report holds the rows of mapping every worklog in order over those caches, or ends on the first failed lookup, or on an empty result; the indexing leaves the user cache and both fetch counters as they were |

## Left out

- HTTP clients, Guzzle and Dotenv are not modelled. Every API is an oracle function: the Tempo worklog, worklog-for-user, account and work-attribute APIs, the Jira search, the user lookup, and the worklog creation. Their sources are not part of this model.
- Console output is not modelled: progress lines, table rendering, the "Worklog creato" lines, and the header row read from `array_keys($results[0])`. The interactive prompts are an answer oracle, `answer(q)` for the q-th prompt. The model returns what the tables hold, the error lines printed, the account warnings and the ids returned by the create calls.
- The writes to `report.csv`, `issues.json` and `users.json` are file output and are not modelled. The report's rows are returned instead.
- The float columns are not modelled: "Hours", "Billed Hours" and the two estimate divisions. Neither are the blank columns.
- The date columns are not modelled. This covers the Europe/Rome conversion of the created and updated dates and of the Jira start time, and the `d/m/Y` reformat of the work date, which is kept as given. In `jira:worklogs` the conversion is the `localTime` parameter and the comparator's `strtotime` is the `time` parameter. The sort is therefore proved stable with respect to that key, not chronological.
- In `tempo:extract-logs` the `endTime` column and the `H:i:s` to `H:i` reformat of the start time are not modelled. The start time is carried as given. The creation payload keeps the date, the start time, the comment and the formatted duration instead of PHP's ISO 8601 timestamp.
- `Utils::formatTime`, used in the `jira:worklogs` footer, is not part of this model: its file is missing. The table carries the total in seconds.
- `getAccount(44)` at `src/Tempo/ActivityReportCommand.php:94` is not modelled: its result is never used. The accounts are the one list the account API returns; the single request is for at most 1000.
- ActivityReport.FetchWorklogs: PHP loops for ever when no page lacks a `next` marker. The model requires a ghost bound at which the page of the request chain has none.
- ActivityReport.GetIssuesByKey: the source imposes no limit, but the model requires every page of the search to report a positive `maxResults` and a `total` under a ghost bound, so the loop terminates. The model therefore says nothing about a search reporting a page size of 0 or below. With a page size of 0, PHP repeats the same page: it stops once the repeated issues bring the count up to `total`, and loops for ever when those pages hold no issue.
- ActivityReport.ReportCommand.Execute: the `TypeError` that `getIssue` throws ends the PHP process with an uncaught error; the model returns `Crashed(LookupFailed(...))`. PHP fails on `$results[0]` when there is no worklog; the model returns `Crashed(EmptyReport)`.
- ActivityReport.ReportCommand.constructor: the typed properties start uninitialised in PHP and empty in the model. The two differ when the account API returns no account. Then `$this->accounts` is never assigned, and the first issue with a non-empty `customfield_10122` makes PHP throw an `Error` ("must not be accessed before initialization") at line 132 or 142, which ends the command. The model attaches no account and writes the row with the missing-account warning. Reads through `empty()` and `??` do not throw, so the user cache and the work-attribute lookup behave the same.
- GetWorklogs.OfAuthorExactly: PHP compares the e-mail with loose `==`, and the model uses exact string equality. The two differ only for numeric strings such as "1e1" and "10".
- ExtractWorklogs.FormatTime: PHP's `/` and `floor` work on floats, and the model uses exact integers. The results agree for durations below 2^53 seconds, about 2.5·10^12 hours. Above that the division can round and the hours can be off. With PHP's default `precision` of 14, hours from 10^14 upwards print in exponent form, which the model does not reproduce.
- The Jira search in `tempo:extract-logs` is one call returning a list of issues. Its own pagination belongs to the search client, which is not part of this model.
- Failures of the API calls made outside any `try` are not modelled. In `tempo:activity-report` that is every call: the accounts and work attributes (lines 74 and 80), `getAccount` (94), the worklog pages (100), the searches (171), the issue lookups (190) and the user lookups (213). In `tempo:extract-logs` it is the search (125) and the worklog creation (188). A `RequestException` from any of them ends the PHP process. The model's oracles `TempoApi`, `SearchApi`, `lookupIssue`, `lookupUser`, `search` and `create` always answer. In particular the model does not capture that a failing creation stops the replication, so later confirmed rows are never sent.
- The search over an empty parent list (`id in ()`) is still made. How Jira answers it is left to the search oracle.
