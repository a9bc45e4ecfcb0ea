# Cable-usage reconciliation engine, modelled in Dafny

The application is a small web tool. It keeps a results ledger of cable boxes, one row per
factory box number (厂家箱号), by reconciling two source ledgers:

- the PMS task list (任务清单): projects, tasks and their completion times;
- the SSCM material-requisition list (领用申请单): project codes, sites, materials, quantities, dates and box numbers.

This project models the engine behind the tool, all of it in `app.py`:

- `clean_name`, the name normaliser (module `Names`);
- cells, rows, column projection and the canonical ledger layout (`Tables`);
- column resolution by candidate names and keyword fallback (`Columns`);
- the initialisation join, from unfinished tasks and requisitions to new ledger rows, and its merge into an existing ledger (`Reconcile`);
- the three name lists, each derived from the same join or from the task list: pending projects, projects by year, and tasks of a project (`Queries`);
- the usage upsert of `save_usage` (`Usage`);
- the search, sort and paging of `get_project_data` (`Display`);
- the process-wide cache: a 300-second snapshot of the three ledgers, the two memo tables, and the two operations that write the ledger and refresh the cache (`Store`, class `Store.Cache`).

Tables are a column list plus rows mapping column names to cells. A cell is missing (`Null`), text, an integer or an already-parsed date. The files on disk are a field of the cache: each ledger file is present as the table it holds, or absent. The clock and the outcome of writing a file are parameters.

Where the written description of the system and the code disagree, the model follows the code:

- `clean_name` is not idempotent (`Names.NotIdempotent`).
- "Proj_A" and "proj-a" do not normalise to the same key (`Names.UnderscoreAndDashDiffer`).
- The `-` stop words are dead (`Names.DashStopWordsAreDead`).
- Re-initialising does not remove duplicate box numbers within the new batch (`Reconcile.BatchDuplicatesKept`).
- The memo tables are emptied only by `refresh_cache`, not when the snapshot expires and is reloaded. A memoised project or task list can therefore outlive a reload (`Store.Cache.ProjectList`, `Store.Cache.TaskList`).
- The cache keeps only unfinished tasks, so 完成年份 is missing on every row and a year-scoped project list is always empty (`Store.YearListAlwaysEmpty`).
- A task list in which a task without a name sits beside a named one fails, because sorting compares a missing value with a string (`Queries.TaskListUnsortable`).

## Model

| member | source | states |
|---|---|---|
| Names.LowerAll | app.py:102 | every character is lower-cased and the length is kept |
| Names.RemoveDisallowed | app.py:101 | the result is no longer than the input and holds only word, whitespace, CJK, `/`, `(` and `)` characters |
| Names.DeletionKeepsAllowed | app.py:101 | deletion keeps the allowed characters in their order and drops nothing else: the result is a subsequence of the input with every allowed character as often as in the input |
| Names.CollapseSpaces | app.py:107 | the result has no two adjacent whitespace characters, every whitespace character in it is a blank, and it is empty exactly when the input is |
| Names.CollapseAtWord | app.py:107 | collapsing works piecewise around a non-whitespace character, which is kept in place: non-whitespace text is never altered or moved |
| Names.CollapseRun | app.py:107 | a non-empty run of whitespace collapses to a single blank |
| Names.CleanName | app.py:96-107 | a missing value gives ""; every result has no leading, trailing or doubled whitespace and holds only kept, lower-case characters and never '-' |
| Names.MissingIsEmpty | app.py:97-98 | a missing or NaN name cleans to "" |
| Names.StripPrefixesIsSuffix | app.py:103-106 | stripping stop words leaves a suffix of the input, shorter by at most the stop words' total length |
| Names.NoDashAfterDeletion | app.py:101-102 | after deletion and lower-casing no '-' remains |
| Names.DashStopWordsAreDead | app.py:101-106 | the normalised name is the same as when only "临时_" and "新建_" are stop words |
| Names.DashPrefixKept | app.py:101-106 | "临时-x" cleans to "临时x": the dash prefix is never stripped |
| Names.StripsOnce | app.py:103-106 | each stop word is stripped at most once: "临时_临时_x" cleans to "临时_x" |
| Names.NotIdempotent | app.py:96-107 | cleaning "临时_临时_x" twice differs from cleaning it once |
| Names.CleanOfPlain | app.py:96-107 | a name of lower-case kept characters without whitespace cleans to itself minus one pass of stop-word stripping |
| Names.UnderscoreAndDashDiffer | app.py:101-107 | "Proj_A" and "proj-a" have different keys ("proj_a" and "proja") |
| Tables.SelectColumns | app.py:240-246 | the projection keeps the rows; it narrows to the requested columns only when the table is not empty and has them all, and otherwise returns the table whole; kept cells are unchanged |
| Tables.ReindexRoundTrip | app.py:209-213 | reading back a ledger written with the canonical columns gives the same ledger |
| Tables.LegacyLedgerHasEmptyCode | app.py:209-211 | a ledger file without 项目编码 reads with the code missing on every row |
| Tables.ReindexKeepsCells | app.py:211-212 | a ledger file with every canonical column keeps every canonical cell of every row |
| Ordering.SortNames | app.py:458 | `sorted`: the result is in code-point order and is a permutation of the input |
| Ordering.Unique | app.py:457 | `unique`: no repeats and the same members as the input |
| Ordering.SortedUnique | app.py:457-458 | sorting the unique names gives a strictly increasing list with exactly the input's members |
| Ordering.SortByDate | app.py:382-383 | `sort_values` by creation date, nulls last: ordered by date and a permutation of the input |
| Columns.FirstPresent | app.py:284-290 | the first candidate, in candidate order, that is a column; none exactly when no candidate is a column |
| Columns.FindColumn | app.py:286-290 | the candidate loop with `break` finds exactly the first present candidate |
| Columns.FirstMatching | app.py:355-360 | the first column, in column order, whose name contains the keywords; none exactly when no column does |
| Columns.Resolve | app.py:349-374 | the first present candidate wins; with no candidate present, the first column in column order whose name contains the keywords; none exactly when neither exists |
| Columns.ProjectVariantAccepted | app.py:284-289 | the candidate loop of the schema check accepts a project column named 工程; through the cache this never happens, because loading requires 项目名称 (`Store.CachedProjectColumn`) |
| Columns.QuantityFallback | app.py:370-371 | a column named 本次申领数量 serves as the quantity when 申领数量 is absent |
| Reconcile.Join | app.py:329-335 | the inner join's pairs are exactly the index pairs with equal keys, without repeats |
| Reconcile.Missing | app.py:282-283 | the required fields that are not columns, and only those |
| Reconcile.MissingFields | app.py:280-292 | every absent required field is reported, and only those, plus the project placeholder last when no project candidate is a column; empty exactly when nothing is missing |
| Reconcile.CheckSchemas | app.py:280-310 | success exactly when neither ledger misses a field; missing PMS fields are reported first, then exactly the missing SSCM fields; on success the chosen project columns are the first present candidates of each ledger |
| Reconcile.OpenRows | app.py:315 | the unfinished tasks, those whose completion time is not a date; empty exactly when every task is finished |
| Reconcile.AugmentPms | app.py:320-322 | a task row gains its cleaned project and task keys and keeps its original project name |
| Reconcile.AugmentSscm | app.py:324-326 | a requisition row gains its cleaned code and site keys and keeps its original code |
| Reconcile.AugmentKeepsCells | app.py:320-326 | adding the key columns changes no other cell of a task or requisition row |
| Reconcile.MatchPairs | app.py:329-335 | the merge pairs exactly the requisitions and unfinished tasks whose cleaned (code, site) equals the cleaned (project, task) |
| Reconcile.MergedName | app.py:329-335 | a merged column without an `_x`/`_y` suffix is the same column of exactly one side |
| Reconcile.ResolveLayout | app.py:347-379 | the project name comes from PMS and the code from SSCM; it fails with no task column exactly when the task field resolves to nothing; on success each of task, material, quantity, date and box is the column that field resolves to |
| Reconcile.TaskAlwaysResolves | app.py:324-360 | after the merge a column containing 站点 always exists (the cleaned-site key), so the task field always resolves and the no-task-column failure cannot happen |
| Reconcile.NewRows | app.py:363-383 | the new rows are the built rows reordered by date, each with 使用数量 missing and a parsed or missing date |
| Reconcile.Initialize | app.py:272-383 | missing PMS fields are reported before missing SSCM fields; a result is ordered by date and has 使用数量 missing |
| Reconcile.InitializeSound | app.py:315-379 | every new row comes from a requisition and an unfinished task with matching keys, with the task's project name and the requisition's code |
| Reconcile.InitializeComplete | app.py:315-379 | every matching pair of a requisition and an unfinished task yields a new row |
| Reconcile.InitializeCount | app.py:329-379 | there is exactly one new row per matched pair |
| Reconcile.InitializeExact | app.py:313-383 | when no data column is on both sides, the new rows are, up to order, exactly one row per matched pair holding the requisition's code, material, quantity, parsed date and box and the task's project name and task name, with 使用数量 missing |
| Reconcile.InitializeNeedsOpenTasks | app.py:315-317 | with every task finished, initialisation fails with that error |
| Reconcile.InitializeNoMatch | app.py:338-345 | an empty join fails, and the reported common keys are exactly the keys found on both sides |
| Reconcile.KnownBoxes | app.py:387 | the non-missing box numbers of the ledger |
| Reconcile.DropKnown | app.py:388 | the new rows whose box is not yet known, with their multiplicities |
| Reconcile.AppendKeepsLedger | app.py:386-390 | appending keeps the existing ledger as a prefix and adds exactly the new rows with unknown boxes, duplicates included |
| Reconcile.ForceReplaces | app.py:386-393 | with force, or an empty ledger, the ledger becomes the new rows and all of them count as added |
| Reconcile.BatchDuplicatesKept | app.py:386-390 | two new rows with the same unrecorded box are both appended |
| Reconcile.RecordedBoxSkipped | app.py:387-388 | a row for a recorded box is dropped, while a row without a box is appended |
| Queries.FirstAbsent | app.py:442-445 | the first needed column, in the order the code reads them, that the table lacks; none exactly when it has them all |
| Queries.PendingProjects | app.py:433-458 | the pending list is strictly increasing |
| Queries.PendingNeedsColumns | app.py:433-458 | the pending list fails exactly when a name, task or site column is absent |
| Queries.PendingSound | app.py:441-458 | every pending project is the name of a task that matches some requisition on cleaned project and task |
| Queries.PendingComplete | app.py:441-458 | the name of every task that matches a requisition is listed |
| Queries.ProjectList | app.py:464-484 | the project list is strictly increasing |
| Queries.ProjectListNeedsName | app.py:468-484 | the project list fails exactly when 项目名称 is absent |
| Queries.ProjectListSound | app.py:473-484 | a listed name is the name of a row in the requested year with no earlier in-year row of the same cleaned key |
| Queries.ProjectListDistinctKeys | app.py:483 | no two listed names share a cleaned key |
| Queries.ProjectListComplete | app.py:483 | every in-year row with a non-empty key has a listed name with that key |
| Queries.YearFilterEmpty | app.py:476-481 | with a year given and 完成年份 missing on every row, the list is empty |
| Queries.TaskList | app.py:490-522 | the task list is strictly increasing |
| Queries.TaskNeedsColumns | app.py:494-503 | the task list fails with a missing column exactly when a name, task or site column is absent |
| Queries.TaskListSound | app.py:500-522 | every listed task is the name of a task of the cleaned project that matches a requisition of that project |
| Queries.TaskListComplete | app.py:500-522 | the name of every such matching task is listed |
| Queries.TaskListUnsortable | app.py:514-522 | a matching task without a name beside a named one makes the list fail |
| Usage.SetUsed | app.py:541-543 | the row count is kept; every row keeps all its other cells; 使用数量 becomes the difference on exactly the rows holding the box; which boxes are recorded does not change |
| Usage.FirstWithBox | app.py:553-558 | the index of the first requisition holding the box; none exactly when no requisition does |
| Usage.FirstAbsentField | app.py:558-567 | a field of the new record the requisitions lack, every earlier field being present; none exactly when they have all |
| Usage.RecordUsage | app.py:536-579 | a non-positive difference is refused; a success says whether an existing row was updated |
| Usage.UpdateExisting | app.py:541-544 | for a recorded box, the row count stays, only 使用数量 changes, on exactly that box's rows, set to the difference |
| Usage.AppendNew | app.py:546-577 | for an unrecorded box, exactly one row is appended after the unchanged ledger, holding the caller's names and the first matching requisition's code, material, quantity and date |
| Usage.UnknownRefused | app.py:553-555 | a box in neither the ledger nor the requisitions is refused |
| Usage.RecordIdempotent | app.py:541-577 | recording the same reading twice gives the ledger of recording it once |
| Usage.LastReadingWins | app.py:536-543 | the quantity is set, not added: readings 10 to 35 and then 35 to 60 leave 25 |
| Usage.AppendThenUpdate | app.py:541-577 | after a box has been appended, a later reading updates that row and appends nothing |
| Display.Filter | app.py:609-615 | exactly the matching rows, each as often as in the ledger, as a subsequence of the ledger (ledger order kept) |
| Display.ProjectData | app.py:596-634 | the count is the number of matching rows; the page holds min(10, count) rows ordered by date |
| Display.PageRowsMatch | app.py:609-633 | every row on the page is a matching ledger row with its date parsed |
| Display.PageIsEarliest | app.py:626-633 | the page is the first rows of a date ordering of all matching rows |
| Display.EmptyQueryMatchesAll | app.py:609-617 | an empty query matches every row |
| Display.MissingNameMatchesNan | app.py:609 | a row without a name reads as "nan" and is found by the query "NaN" |
| Display.CodeFindsRow | app.py:611 | a row is found by its own project code |
| Store.CheckFiles | app.py:129-135 | the absent source ledgers are reported, task list first; nothing exactly when both are present |
| Store.PreparePms | app.py:166-176 | with a completion-time column, only unfinished tasks are kept, completion time and 完成年份 are missing, and every other cell is kept |
| Store.LoadSnapshot | app.py:147-213 | a load fails exactly when a source ledger is absent or lacks a column its category cast names; absent files are reported as such, a failed cast names an absent cast column; a success holds the prepared tasks and the requisitions, and an empty ledger when there is no results file |
| Store.AfterLoad | app.py:140-232 | a fresh or failed load leaves files, snapshot and time stamp unchanged; a successful one stores the loaded snapshot, stamped with the current time |
| Store.ServedWithinExpiry | app.py:140-145 | once loaded, any call within 300 seconds of the stamp serves the same snapshot without reading the files |
| Store.CachedProjectColumn | app.py:165-193 | every cached snapshot has 项目名称 on both sides (the casts require it), so the schema check picks it, and never reports 任务名称, 站点名称, 厂家箱号 or a missing project column |
| Store.SaveThenLoad | app.py:581-583 | with loadable source ledgers, a ledger written with the canonical columns is read back unchanged |
| Store.YearListAlwaysEmpty | app.py:166-176 | a year-scoped project list over the cached tasks is always empty |
| Store.InitOutcome | app.py:382-393 | the number of added rows never exceeds the ledger's length |
| Store.Cache.constructor | app.py:85-91 | nothing loaded, last updated at 0, empty memos |
| Store.Cache.Preload | app.py:140-232 | a fresh snapshot is returned with no change; otherwise the files are read, a success replaces the snapshot and stamps it, a failure changes nothing |
| Store.Cache.RefreshCache | app.py:252-257 | the snapshot is reloaded with force and both memo tables are emptied; a failed reload leaves last-updated at 0 |
| Store.Cache.ProjectList | app.py:260-263 | without a year, a memoised list is returned even after a reload; otherwise files, snapshot and stamp are those after a load, the result is the list of that snapshot, memoised when there is no year; with a year the memos are unchanged |
| Store.Cache.TaskList | app.py:266-268 | a memoised task list is returned as it is; otherwise files, snapshot and stamp are those after a load and the list of that snapshot is returned and memoised by project |
| Store.Cache.PendingProjects | app.py:433-437 | files, snapshot and stamp are those after a load; the pending list of that snapshot; memos unchanged |
| Store.Cache.ProjectData | app.py:596-600 | files, snapshot and stamp are those after a load; the page and count of that snapshot's ledger; memos unchanged |
| Store.Cache.InitializeResultsTable | app.py:272-406 | on success the files are those after a load with the results file replaced by exactly the merged ledger, the refreshed snapshot holds it and both memos are empty; a failure leaves the state after a load, writes no ledger and keeps the memos |
| Store.Cache.SaveUsage | app.py:528-591 | on success the files are those after a load with the results file replaced by exactly the recorded ledger in the canonical columns, the refreshed snapshot holds it and both memos are empty; a failure leaves the state after a load, writes no ledger and keeps the memos |
| Store.Cache.WriteAndRefresh | app.py:581-589 | after writing and refreshing, the snapshot holds the same sources and exactly the written ledger |

## Left out

- Flask routes, templates and flash messages, the configuration file, `get_paths` and directory creation: web and configuration plumbing.
- `convert_to_parquet`, and reading and writing Excel and Parquet: library I/O. A file is modelled as the table it holds or as absent. A write is a `saved` flag.
- `auto_initialize_on_startup`: a start-up call of `initialize_results_table` with force.
- `export_project_data`: its byte stream is library I/O, and its row filter is `Display.Matches`.
- `Store.CheckFiles`: reports the two ledger labels, not the file paths the messages also print.
- Error messages: they are datatype values, not the formatted strings.
- Exceptions raised by corrupt files or by library code: not modelled. The exception that `sorted` raises over a missing task name is the exception, modelled as `Queries.TaskListUnsortable`.
- The PMS spreadsheet fallback that reads only three columns: the model reads whatever columns the file holds.
- `astype('category')`: a missing cast column is modelled as the load failure `CastFailed`, whose message names only the column. The category dtype itself has no effect on the values the model compares. The results ledger's cast cannot fail, since reindexing supplies every canonical column.
- The PMS and SSCM spreadsheet reads with a fixed column list (`usecols`): their own failures on absent columns are not modelled separately; the cast check covers the columns the cache depends on.
- Tables.NameOf: a number or date cell is rendered as its integer digits, not as Python's `str` of a float ("123.0"). The numeric ordering `sorted` gives numbers, and the TypeError it raises on a mix of numbers and text, are not modelled: names are compared as text.
- Reconcile.InitializeExact: stated only when no data column is on both sides. With a shared name, pandas suffixes both copies and the keyword fallback takes the first matching one; `Reconcile.InitializeSound` still ties name and code in that case.
- `pd.to_datetime` parsing: dates are pre-parsed `Date` cells, and any other cell coerces to a missing date.
- Unicode semantics: `\w` is approximated by ASCII letters, digits, `_` and the CJK range U+4E00-U+9FA5, and `lower()` by ASCII lower-casing.
- `str.contains` in `get_project_data`: treated as plain substring search, not as a regular expression.
- Meter readings: integers rather than floats.
- `datetime.now()`: the `now` parameter.
- `lru_cache`: its size and eviction (128 entries) are not modelled, and the memo tables are unbounded maps.
- Concurrency: the code runs one request at a time and takes no locks.
- Ordering.SortByDate: a stable insertion sort. The order pandas gives rows with equal dates is not modelled.
- Queries.TaskList: a list whose only matching task has no name yields NaN in the source; the model yields the empty list.
- Cached frames: the source adds derived key columns to them in place. The model computes on copies, so later reads see the tables without those columns.
- `save_usage`: its second load is assumed to return the same snapshot as its first, since it happens at the same instant.
- Store.Cache.Preload: with a fresh clock and nothing loaded, the source returns no tables and no error. The model returns `NotLoaded`.
- Store.InitOutcome: states only that the added count fits the ledger. What the ledger holds is stated by `Reconcile.AppendKeepsLedger`, `Reconcile.ForceReplaces`, `Reconcile.InitializeSound` and `Reconcile.InitializeExact`.
- Source ledger files: fixed for the cache's lifetime. Only the results file is written.
