# A verified model of the translation-review backend

The backend keeps strings pulled from a localization platform's API in a
SQLite table, `smartling_translations`. Reviewers then triage them: they
complete rows, flag them, attach reasons, and page through a filtered listing.
The backend also stores the platform credentials, a small key-value
`settings` table and the (job, file) pairs of the platform's jobs. A
prototype module rewrites a `.env` file line by line.

This Dafny project models those pieces and proves what the handlers promise:

- `common.dfy`: Python's `None` and truthiness, `str.isspace()`, `strip()`,
  ASCII `lower()`, `startswith()` and substring search.
- `credentials.dfy`: the `smartling_keys` table.
  - The token expiry test and the expiry a refresh stores.
  - `set_smartling_keys` and the token write of a refresh, as the
    `CredentialStore` class.
- `retry.dfy`: the token check and refresh-and-retry loop that every
  protected handler repeats.
  - The platform is an oracle: a sequence of call outcomes and a sequence of
    refresh outcomes.
  - The loop returns its answer and a trace of the events.
- `translations.dfy`: the translation rows as values, and what the writers
  do to them as functions.
  - The upsert of a page of fetched items under the `hashcode UNIQUE`
    constraint.
  - The matching-string flagger.
  - The status and reason updates.
- `listing.dfy`: the filter, count and page of the listing endpoint.
  - The WHERE clause built by appending conditions.
  - `ORDER BY id LIMIT ? OFFSET ?`.
- `translation_store.dfy`: the table as a class whose methods perform those
  writes in place, each proved against the functions above.
  - The page upsert as one transaction.
  - The flagger loop.
  - The toggle-status, bulk-complete, update-reason and toggle-flag handlers.
  - The listing.
- `settings.dfy`: `get_setting`, `set_setting`, and the model-download flag
  stored as "true" or "false".
- `jobs.dfy`:
  - the job list's id and name fallbacks;
  - the job-file extraction, which skips cancelled jobs and jobs without an
    id;
  - the `smartling_job_files` table, which stores duplicates.
- `env_file.dfy`: `update_env_var` on the list of lines, and on the file's
  text through `readlines()` and `writelines()`.

I/O is passed in as parameters:

- the clock is `now` (or a refresh's `clock`);
- the platform's replies are oracles (`calls`, `refreshes`, the job list and
  a `files` function of the job's position in that list);
- a file's existence and contents are an `Option`.

## Model

| member | source | states |
|---|---|---|
| Common.StripSlice | backend/main.py:210 | `strip()` removes only whitespace, from both ends. The result is a slice of the input and neither starts nor ends with whitespace. |
| Common.StripIdempotent | backend/main.py:210 | Stripping an already stripped text changes nothing. |
| Credentials.Latest | backend/main.py:279-280 | `ORDER BY id DESC LIMIT 1` yields nothing exactly when the table is empty. Otherwise it yields the last row. |
| Credentials.LatestProjectId | backend/main.py:194-202 | The fallback project is present exactly when a row exists and its `project_id` is truthy. It is then that non-empty value. |
| Credentials.UsableToken | backend/main.py:652-653 | The stored token is used exactly when it is truthy, and no truthy expiry is stored or `now` is before it. Otherwise it counts as absent. |
| Credentials.ExpiredStaysExpired | backend/main.py:652-653 | A token that counts as absent at some time still counts as absent at every later time. |
| Credentials.RefreshedExpiry | backend/main.py:185 | A refresh stores `clock + expiresIn` when `expiresIn` is truthy. Otherwise it stores NULL. |
| Credentials.RefreshedTokenLifetime | backend/main.py:185 | A refreshed token is usable exactly until `clock + expiresIn`. Without a lifetime it is usable forever. |
| Credentials.GetOr | backend/main.py:270-275 | `data.get(key, default)` binds the default for a left-out key, NULL exactly for a JSON `null`, and the string otherwise. |
| Credentials.CredentialStore.SetKeys | backend/main.py:268-291 | A JSON `null` user id or secret raises the `NOT NULL` IntegrityError (user_id checked first) and leaves the table unchanged. Otherwise the latest row gets the identity, project, account, job and locale, with defaults "" and "ja-JP" and NULL for a `null`. Its tokens are kept. An empty table gets one row without tokens, and earlier rows are untouched. |
| Credentials.CredentialStore.StoreRefreshedTokens | backend/main.py:186-189 | The rows with the same identity and secret get the new token triple. No other row or column changes. |
| Retry.FetchWithRetry | backend/main.py:652-671 | The loop's answer and its trace of calls and refreshes are those of the reference definition `Run`. |
| Retry.RunConsistent | backend/main.py:652-671 | Each oracle is used in order, and every protected call carries a non-empty token. Every `except` refresh follows an "unauthorized"/"401" failure while the refresh token is truthy and nothing was refreshed. As written, no `except` refresh is made. The answer is a payload exactly when the last event is a call that returned it. |
| Retry.RunShape | backend/main.py:655-671 | The loop always answers, with at most two calls and three refreshes; as written, at most one of each. When a second call fails, the answer is a 500 carrying its message. When the first pass goes round again, any event of the second pass that raises (its `try` refresh or its call) makes the answer a 500 carrying that event's message. |
| Retry.SecondAttemptFailure | backend/main.py:656-671 | After a refresh has returned, a pass only appends events, and any of them that raises makes the answer a 500 with its message. |
| Retry.AttemptShape | backend/main.py:656-671 | One pass falls through only after a successful `except` refresh. As written, an escape is the refresher's TypeError after an unauthorized failure. Otherwise it is a failed `except` refresh. |
| Retry.TryBlockFailure | backend/main.py:656-662 | The exception the `try` block raises is the failure of the last event it recorded. |
| Retry.NoTokenNoRefresh | backend/main.py:657-661 | With no usable token and no refresh token the answer is 401, and nothing is called or refreshed. |
| Retry.EscapeCauses | backend/main.py:664-668 | As written, the handler raises exactly when the last event failed with "unauthorized"/"401", the refresh token is truthy and nothing was refreshed. The error is the missing-arguments TypeError. |
| Retry.UnauthorizedCallEscapes | backend/main.py:664-668 | As written, a stored token that the platform rejects with a 401 ends in the TypeError after one call. |
| Retry.UnauthorizedCallRetried | backend/main.py:664-668 | With the refresher given its arguments, the same rejection is followed by one refresh and one call with the new token. That call's outcome is the answer. |
| Translations.ItemTranslation | backend/main.py:629-630 | The stored translation is the first entry's `"translation"` when the list is non-empty and that entry has the key. Otherwise it is NULL. |
| Translations.UpsertExistingRow | backend/main.py:632-642 | A matching row gets the new parsed text and translation. Its status becomes pending exactly when the translation changed. Confidence, reason, flag, file and identity are kept, and no other row changes. |
| Translations.UpsertFound | backend/main.py:632-642 | With the unique hashcode, the SELECT finds exactly that row, which is refreshed in place. |
| Translations.UpsertInserted | backend/main.py:643-647 | Without a match, and with the hashcode free, the row is inserted at the next AUTOINCREMENT id. |
| Translations.UpsertNewRow | backend/main.py:643-648 | A new row is pending, with NULL confidence and reason and flag 0, under a fresh id. Nothing else changes. |
| Translations.UpsertConflict | backend/main.py:69 | An item with no match in its own project and locale, whose hashcode another row holds, makes the insert fail. |
| Translations.UpsertItemPreserves | backend/main.py:627-648 | One item keeps the constraint and never removes a row. It never changes review data. It adds at most one row. |
| Translations.UpsertAllKeepsReviewData | backend/main.py:627-648 | A whole page keeps the constraint. Every prior row keeps its review data, and its status is unchanged or pending. At most one row per item is added. |
| Translations.FlagMatches | backend/main.py:203-213 | The rows of the project and locale whose texts are both non-empty and equal under strip+lower get flag 1. All other rows are unchanged, and no row is added or removed. |
| Translations.FlagNeverClears | backend/main.py:209-211 | A flag that was set stays set. |
| Translations.FlagIdempotent | backend/main.py:203-213 | A second run gives the same table and the same set of matching rows, so the same count. |
| Translations.CompleteAll | backend/main.py:169-170 | Exactly the listed rows that exist become completed. |
| Translations.SetReasonAll | backend/main.py:736 | Exactly the listed rows that exist get the reason. |
| Translations.CompleteAllIdempotent | backend/main.py:163-172 | Completing the same ids twice gives the table of completing them once. |
| Translations.SetReasonOverwrites | backend/main.py:736 | Of two reasons written to the same ids, only the second survives. |
| Listing.BuildFilter | backend/main.py:686-700 | A row satisfies the appended clauses exactly when the query selects it. |
| Listing.SelectedIds | backend/main.py:686-702 | The counted ids are exactly those of the rows the filter selects. |
| Listing.SortedIds | backend/main.py:718 | `ORDER BY id` lists each selected id once, in strictly increasing order. |
| Listing.Start | backend/main.py:718-719 | OFFSET starts at the offset, at 0 when it is negative and at the end when it is too large. |
| Listing.Window | backend/main.py:718-719 | The page is the contiguous run from the offset, at most `limit` long. A negative limit takes all remaining rows. |
| Listing.PageOfPosition | backend/main.py:718-721 | The page is the run of the ordered selected ids that starts at `(page-1)*per_page`. It is `per_page` long or runs to the end, and takes all remaining ids for a negative `per_page`. |
| Listing.PageOfSelected | backend/main.py:703-724 | Every entry of the page is a stored row, under its own id, that the filter selects. |
| Listing.WindowIncreasing | backend/main.py:718-719 | A `LIMIT`/`OFFSET` window of a strictly increasing sequence is strictly increasing. |
| Listing.PageOfIncreasing | backend/main.py:718 | The page's ids are strictly increasing, so no row appears twice. |
| Listing.AdjacentWindows | backend/main.py:718-719 | Two consecutive windows of the same size make the window of twice the size. |
| Listing.PagesTile | backend/main.py:719 | Page `p + 1` starts where page `p` ends: no overlap and no gap. |
| TranslationStore.ChosenProject | backend/main.py:194-202 | The query's project when it is truthy, otherwise the latest credentials row's. It is absent only when neither exists. |
| TranslationStore.ReasonIds | backend/main.py:730-733 | A single id is wrapped into a one-element list, and a truthy `ids` is never empty. |
| TranslationStore.TranslationTable.UpsertBatch | backend/main.py:625-649 | When the page's upsert succeeds, the table becomes its result and the count is the number of items. On a constraint failure, the error is raised and the table is as before. |
| TranslationStore.TranslationTable.FlagMatchingStrings | backend/main.py:192-214 | Without a project: 400, and nothing changes. Otherwise the table is flagged, and the count is the number of matching rows. |
| TranslationStore.TranslationTable.FlagScope | backend/main.py:203-213 | The loop over the scope flags the matching rows and counts them. |
| TranslationStore.TranslationTable.ToggleStatus | backend/main.py:151-161 | A missing id, or a status other than pending or completed, gives 400 and changes nothing. Otherwise only that row's status changes. |
| TranslationStore.TranslationTable.BulkComplete | backend/main.py:163-172 | A falsy or non-list `ids` gives 400 and changes nothing. Otherwise the listed rows are completed, and `updated` is `len(ids)`. |
| TranslationStore.TranslationTable.UpdateReason | backend/main.py:726-738 | A falsy `ids` gives 400. Otherwise the listed rows get the reason, a scalar id counts as a list, and `updated` is the list's length. |
| TranslationStore.TranslationTable.ToggleFlag | backend/main.py:740-750 | A missing id or flag gives 400. Otherwise only that row's flag changes. |
| TranslationStore.TranslationTable.ListPage | backend/main.py:684-724 | `total` counts the selected rows, and the page is the reference page `PageOf` of the same filter. |
| TranslationStore.UpsertAllFailureSticks | backend/main.py:625-649 | Once an item of a page fails, the whole page fails. |
| TranslationStore.ScanStep | backend/main.py:205-211 | One row of the flagger's loop is flagged exactly when it matches, and the count grows by one exactly then. |
| Settings.FlagText | backend/main.py:806-809 | The stored text is "true" exactly when the flag is truthy, and "false" otherwise. |
| Settings.DownloadFlag | backend/main.py:811-814 | The flag reads true exactly when "download_model" is stored as "true". |
| Settings.LookupAfterStore | backend/main.py:106-117 | A written key reads back as written, whatever the default. |
| Settings.LookupOtherKey | backend/main.py:106-117 | Writing one key leaves every other key's answer unchanged. |
| Settings.LookupDefault | backend/main.py:106-111 | A key never written reads as the default. |
| Settings.DownloadFlagRoundTrip | backend/main.py:805-814 | Setting the flag and reading it back gives its truthiness. It reads false before any write. |
| Settings.SettingsStore.Get | backend/main.py:106-111 | The stored value, or the default when there is none. |
| Settings.SettingsStore.Set | backend/main.py:113-117 | `INSERT OR REPLACE` overwrites the key's one value. |
| Settings.SettingsStore.SetDownloadFlag | backend/main.py:805-809 | Stores the flag's text and echoes the flag, or `false` when it was absent. |
| Settings.SettingsStore.GetDownloadFlag | backend/main.py:811-814 | True exactly when the stored text is "true". |
| Jobs.JobIdOf | backend/main.py:544 | `translationJobUid or jobId or id`: the first truthy field, or `id` when none is truthy. |
| Jobs.JobNameOf | backend/main.py:404 | `jobName`, else `name`, else the id as text. |
| Jobs.SummariesAppend | backend/main.py:401-407 | The job list of two batches of jobs is the two lists joined. |
| Jobs.SummariesMembers | backend/main.py:401-407 | An entry is listed exactly when some job with a truthy id produced it, and every listed id is non-empty. |
| Jobs.ListJobs | backend/main.py:401-407 | The loop builds the reference job list. |
| Jobs.FileUriOf | backend/main.py:553 | `uri or fileUri`. |
| Jobs.JobPairs | backend/main.py:552-555 | Each pair carries the job's id and a non-empty uri, and there are no more pairs than file items. |
| Jobs.CollectedPairsFromKeptJobs | backend/main.py:543-555 | Every collected pair names a job that has an id and is not cancelled, together with a non-empty uri. |
| Jobs.JobPairsAppend | backend/main.py:552-555 | The pairs of two runs of file items are their pairs one after the other, so the pairs keep the items' order. |
| Jobs.JobPairsMembers | backend/main.py:552-555 | A pair is contributed exactly when some file item has a truthy `uri or fileUri`; that item yields (job id, uri). |
| Jobs.CollectIsConcatenation | backend/main.py:543-555 | The extraction succeeds exactly when every kept job's files request answers. Its pairs are then each job's pairs, concatenated in job order. |
| Jobs.CollectFailsOnKeptFailure | backend/main.py:548-550 | A failed files request of a job that is looked at makes the extraction fail. |
| Jobs.UnchangedAfterFailure | backend/main.py:548-550 | After the first failure the extraction's result stays that failure. |
| Jobs.CollectJobFiles | backend/main.py:542-555 | The nested loops compute the reference extraction. |
| Jobs.RowsFor | backend/main.py:556-559 | One row per pair, in order, under the project. |
| Jobs.ForProjectAppend | backend/main.py:512-517 | The project's rows of two tables joined are the two listings joined. |
| Jobs.ForProjectRowsFor | backend/main.py:512-517 | Reading back the rows inserted for a project gives the inserted pairs. |
| Jobs.JobFilesTable.FetchAndSave | backend/main.py:535-561 | The result is the extraction. On success, one row per pair is appended. On failure, nothing is written. |
| Jobs.JobFilesTable.GetJobFiles | backend/main.py:512-517 | The project's pairs, in rowid (insertion) order, the order the model fixes for a query without `ORDER BY`. |
| Jobs.SavingTwiceDuplicates | backend/main.py:556-559 | Saving the same extraction twice lists every pair twice: `INSERT OR IGNORE` ignores nothing, because only the id is unique. |
| EnvFile.EntryLine | pendosmart/backend/smartling_config.py:21 | The entry starts with `key=` and ends with a newline. |
| EnvFile.FirstKeyLine | pendosmart/backend/smartling_config.py:19-20 | The index of the first line starting with `key=`. None exactly when no line does. |
| EnvFile.UpdateEnvVar | pendosmart/backend/smartling_config.py:12-27 | The loop with `found` and `break` writes back the reference update of the lines read. A missing file reads as no lines. |
| EnvFile.UpdatedReplacesFirst | pendosmart/backend/smartling_config.py:19-23 | The first `key=` line becomes the entry, every other line stays, and the length is unchanged. |
| EnvFile.UpdatedAppends | pendosmart/backend/smartling_config.py:24-25 | With no `key=` line, the entry is appended after the lines, which keep their order. |
| EnvFile.MissingFileGivesEntry | pendosmart/backend/smartling_config.py:14-17 | A missing file becomes the single entry line. |
| EnvFile.UpdatedFirstKeyLine | pendosmart/backend/smartling_config.py:18-25 | Afterwards, the first `key=` line is exactly the entry. |
| EnvFile.UpdatedIdempotent | pendosmart/backend/smartling_config.py:18-25 | Applying the same key and value twice gives the lines of applying them once. |
| EnvFile.JoinReadLines | pendosmart/backend/smartling_config.py:17 | Writing back the lines `readlines()` returned reproduces the text, for text after newline translation (no "\r"). |
| EnvFile.ReadLinesShape | pendosmart/backend/smartling_config.py:17 | The lines `readlines()` returns are non-empty, and newlines only end them. Every line but the last ends with one. |
| EnvFile.ReadLinesJoin | pendosmart/backend/smartling_config.py:26-27 | Lines of that shape, written and read back, are the same lines. |
| EnvFile.GluedEntry | pendosmart/backend/smartling_config.py:24-27 | As written, for a file whose last line has no newline, the entry is glued onto that line. No `key=` line can be read back, and a second update changes the file again. |
| EnvFile.TerminatedShape | pendosmart/backend/smartling_config.py:24-25 | Ending the last line with a newline keeps the shape and adds no `key=` line. |
| EnvFile.OwnLineReadsBack | pendosmart/backend/smartling_config.py:24-27 | Corrected update: the written text reads back as the lines it meant to write, and its first `key=` line is the entry. |
| EnvFile.OwnLineIdempotent | pendosmart/backend/smartling_config.py:18-27 | Corrected update: applying it twice to the file's text gives the text of applying it once. |

## Left out

- I/O is parameters, not effects:
  - HTTP routing, CORS, request and response shaping;
  - the SQLite connection itself;
  - the platform's HTTP API;
  - `time.time()`;
  - the `.env` file's existence, reading and writing.
- Retry.FetchWithRetry: the oracles must supply at least two call outcomes
  and four refresh outcomes. This is a bound that keeps every oracle index
  in range: two per pass. The loop uses at most two calls and three
  refreshes (`RunShape`'s bound). It is a sizing of the model's input,
  not a demand of the handlers.
- The protected operations behind the retry loop are oracles, not modelled.
  This covers the paging `while True` over a file's translations, whose
  termination depends on the platform. One page of it is
  `TranslationTable.UpsertBatch`.
- `str.lower()` is modelled for ASCII letters only. Unicode case mapping is
  not part of this model. `strip()` covers every character Python's
  `isspace()` accepts.
- `LIKE '%x%'` is modelled as ASCII-case-insensitive substring search.
  A `%` or `_` inside the search text keeps its wildcard meaning in SQLite;
  the model matches them literally.
- Jobs.JobFilesTable.GetJobFiles: the query has no `ORDER BY`, so SQLite
  does not promise an order. The model fixes rowid order, which a full scan
  of the table gives.
- Credentials.CredentialStore.SetKeys: the payload's fields are strings,
  `null` or absent. A JSON number or boolean, which SQLite's TEXT affinity
  would store as text, is not modelled.
- Settings.FlagValue: a list or an object sent as the flag is represented
  by its length, which is all its truthiness and the stored text depend on;
  the echo therefore does not carry its elements.
- JSON ids and flags are modelled as integers, and job ids and file uris as
  strings. A float id, or a non-integer flag that SQLite would store as
  given, is not modelled.
- The row status is a string, so any value written is kept. Only
  `ToggleStatus` restricts it, as the handler does.
- Settings: the import-time `MODEL_DOWNLOAD_FLAG` (backend/main.py:120) is
  `DownloadFlag` of the settings at start-up. The model loading it guards is
  not part of this model.
- Not part of this model, because they depend on external libraries or are
  thin wrappers:
  - `evaluate_translation` and the model pipeline;
  - `get_smartling_strings` and its concurrent fetches;
  - the `/strings` CRUD and the `/evaluate` stub;
  - `init_db`;
  - `smartling_auth`;
  - the projects endpoint's result formatting;
  - the prototype's other endpoints (pendosmart/backend/main.py);
  - the front end's router.
- Jobs: a failed jobs-list request is not modelled; the job list is given.
  A failed files request is modelled, and nothing is written when it fails.
- Transactions: each upsert page is one transaction, and a hashcode conflict
  rolls back that page, including the AUTOINCREMENT counter. Pages committed
  earlier stay, since they are separate calls of `UpsertBatch`.
- Listing: the model assumes that the count and the page are read from the
  same table state. The program opens no transaction around its two
  SELECTs, so a write committed by another connection between them can make
  `total` and the page disagree. That interleaving is not modelled.
- EnvFile.ReadLines: takes the file's text after Python's newline
  translation. Text-mode reading turns "\r\n" and a lone "\r" into "\n",
  and the model does not. So `JoinReadLines` reproduces a file only when the
  file has no "\r". A lone "\r" also changes which line holds the key: the
  model then sees one line where Python sees two.
- Jobs.Collect: the files requests are an oracle indexed by the job's
  position in the list. The model does not relate the replies of two jobs
  with the same id.

## Findings

| source | as written | input that shows it | evidently intended | confidence | as-written member | corrected member |
|---|---|---|---|---|---|---|
| backend/main.py:664-668 | The `except` branch calls `refresh_smartling_token(refresh_token)` with one of its four required arguments. This raises a TypeError, which escapes the handler. The other handlers repeat it at lines 332-336, 420-424, 502-506 and 575-579. | A stored, unexpired access token, a stored refresh token, and a first call that fails with "unauthorized" | Refresh with the stored credentials, then retry the call once with the new token | high (not executed) | Retry.UnauthorizedCallEscapes | Retry.UnauthorizedCallRetried |
| pendosmart/backend/smartling_config.py:24-27 | The entry is appended as a new list element, and `writelines` adds no separator. If the file's last line has no newline, the entry is glued onto it. | A `.env` text `A=1` (no final newline), key `K`, value `v`: the file becomes `A=1K=v\n`. `K` has no line of its own, and a second call appends again. | The entry starts a line of its own, so the key reads back and a repeat call changes nothing | medium (not executed) | EnvFile.GluedEntry | EnvFile.OwnLineIdempotent |
