# Print-shop job tracker: a Dafny model

This project models the job stage tracker of a small print-shop web
application (`app.py`). The database it works on is the store: a map of job
rows keyed by id, the photos table, the append-only `stage_history` table
and the append-only `activity_log` table. Each POST handler of the tracker
becomes a pure function from a store to either a new store or an error:

- `add` creates a job;
- `edit` changes its general fields;
- `delete_job` removes it;
- `tracker_update` moves a job to a stage, rewrites its pre-press checklist
  and stamps the outsourcing events.

The session's user id and role, the clock reading `now` and "today" are
parameters. The posted form is a map from field names to strings. The
model also covers:

- the stage catalog (`TRACKER_STAGES`, `get_stage_label`);
- the activity-page filter;
- the stage-history view;
- the helpers `allowed_file`, `add_one_month` and `backup_status`.

Modules, one file each:

| module | file | what it holds |
|---|---|---|
| `Base` | base.dfy | `Option`, `Result`, ids, timestamps, errors |
| `Text` | text.dfy | Python's `str.strip()`, SQLite's text order and `substr`, ASCII lower-casing |
| `Stages` | stages.dfy | the stage catalog and label lookup |
| `Calendar` | calendar.dfy | `add_one_month`, `backup_status` and the day numbering behind them |
| `Uploads` | uploads.dfy | `allowed_file` |
| `Records` | records.dfy | rows, the store, its invariant `Wf`, `log_action`, a job's history |
| `Forms` | forms.dfy | reading the add, edit and stage forms |
| `Tracker` | tracker.dfy | `tracker_update` |
| `Jobs` | jobs.dfy | `add`, `edit`, `delete_job` |
| `Sorting` | sorting.dfy | `ORDER BY … ASC/DESC [LIMIT n]` on text keys |
| `Queries` | queries.dfy | the activity page and the stage-history view |
| `Runs` | runs.dfy | arbitrary sequences of requests |
| `RowIds` | rowids.dfy | how SQLite actually numbers new jobs (see Findings) |

Conventions:

- `None` stands for a NULL or empty timestamp column, because the code's
  `not x` treats both as unset.
- A job's `stage` is `""` when the column is NULL or empty.
- A role outside the allowed set gives the error `Forbidden`, checked first
  as in the source.
- A failed request leaves the store unchanged.
- New job ids come from the counter `nextJobId`. This is the corrected
  numbering described under Findings. Runs of requests (`Runs`) take the
  numbering as a parameter, so each property there says whether it holds
  for the counter, for SQLite's rowid as written, or for both.

`allowed_file` lower-cases with ASCII rules only. For the four allowed
extensions this gives the same answer as Python's full `str.lower()`: no
non-ASCII character lower-cases to one of the letters they use.

## Model

| member | source | states |
|---|---|---|
| Text.Strip | app.py:336-343 | `.strip()` returns the part of the input left after removing leading and trailing whitespace; the result has no whitespace at either end, and it is empty exactly when the input is all whitespace |
| Text.StripUnique | app.py:336-343 | whitespace, then a trimmed string, then whitespace strips to exactly that trimmed string |
| Text.StripIdempotent | app.py:336-343 | stripping a stripped field changes nothing |
| Text.StripAt | app.py:336-343 | strip keeps `s[a..b]` when everything outside it is whitespace and its ends are not |
| Text.StrLeReflexive | app.py:636-643 | SQLite's text `<=` holds between a string and itself, so a date is within the range from itself to itself |
| Text.StrLeAntisymmetric | app.py:636-643 | two dates each `<=` the other are equal |
| Text.StrLeTransitive | app.py:647 | the text order used by `ORDER BY created_at` is transitive |
| Text.StrLeTotal | app.py:647 | any two texts are comparable, so the ordering by `created_at` is defined for all rows |
| Text.Prefix | app.py:636 | `substr(x, 1, n)` has length min(n, \|x\|) and is a prefix of `x` |
| Text.AsciiLower | app.py:180 | lower-casing keeps the length, maps `A`–`Z` to `a`–`z` and leaves every other character alone |
| Stages.LookupLabel | app.py:31-35 | the scan returns a label exactly when some row has the code, and then it is the label of the first such row |
| Stages.StageLabel | app.py:31-35 | `get_stage_label` returns a label exactly for the nine catalog codes and None for any other string |
| Stages.LabelOrCode | app.py:840 | `get_stage_label(stage) or stage` is the label for a catalog code and the raw code otherwise |
| Stages.CatalogCodesDistinct | app.py:19-29 | no two catalog rows share a code |
| Stages.CatalogTitlesNonEmpty | app.py:19-29 | every catalog label is non-empty, so `or stage` only falls back for unknown codes |
| Stages.LookupFindsRow | app.py:31-35 | a lookup finds row `i` when no earlier row has the same code |
| Stages.StageLabelOfCatalog | app.py:19-35 | each catalog code looks up to its own row's label |
| Stages.DefaultIsFirstStage | app.py:20 | the default stage `PRE_DESIGN` is the first catalog row, labelled "Pre-Press: Designing" |
| Calendar.DaysInMonth | app.py:222 | `monthrange(y, m)[1]` is the gap between the days before month m and the days before month m+1 in the cumulative month table (for December, up to the end of the year), and lies between 28 and 31 |
| Calendar.OrdinalMonotonic | app.py:232 | the day numbering behind `(due - today).days` preserves calendar order |
| Calendar.OrdinalInjective | app.py:232 | distinct dates have distinct day numbers, so a zero difference means the same day |
| Calendar.AddOneMonth | app.py:214-223 | December rolls over to January of the next year, any other month goes to month+1 of the same year; the day is the original day clamped to the target month's length; None exactly for December 9999, where Python raises |
| Calendar.OneMonthSpan | app.py:214-223 | one month later is a strictly later day, 28 to 31 days on |
| Calendar.BackupStatus | app.py:225-237 | unknown exactly when the date did not parse; otherwise the days are the signed day difference, overdue exactly when the due date is before today, due soon exactly when it is today or later and the difference is at most the window, otherwise up to date; zero days exactly when due today |
| Calendar.FreshBackupIsUpToDate | app.py:888 | a backup recorded today, due one month on, shows as up to date with 28 to 31 days left under the window of 5 used at lines 322 and 870 |
| Uploads.AfterLastDot | app.py:180 | `rsplit('.', 1)[1]` exists exactly when the name has a dot, and is shorter than the name |
| Uploads.AllowedFile | app.py:179-180 | a name is accepted exactly when it has a last dot and the lower-cased text after it is png, jpg, jpeg or gif |
| Uploads.AfterLastDotIsLastDot | app.py:180 | the split text starts right after the only dot with no dot after it |
| Uploads.LastDotUnique | app.py:180 | a name has at most one last dot |
| Uploads.NoDotNoLastDot | app.py:180 | a name without a dot has no last dot |
| Uploads.AllowedFileOfName | app.py:179-180 | `base.ext`, with no dot in `ext`, is accepted exactly when `ext` is an allowed extension |
| Uploads.UpperCaseExtensionAllowed | app.py:180 | `X.JPG` is accepted, because the extension is lower-cased first |
| Uploads.LowerJpg | app.py:180 | `JPG` lower-cases to an allowed extension |
| Uploads.BareExtensionRefused | app.py:180 | `png` with no dot is refused |
| Records.EmptyStoreWf | app.py:47-60 | a freshly created database satisfies the store invariant |
| Records.HistoryBelowAppend | app.py:383-388 | appending a history row for an id already handed out keeps every history row below the id counter |
| Records.LogBelowAppend | app.py:203-211 | appending an audit row for an id already handed out keeps every audit row below the id counter |
| Records.LogAction | app.py:203-211 | `log_action` adds exactly one row with the given user, action, job id, job number, details and time, and keeps every earlier row in place |
| Records.HistoryOf | app.py:745-754 | `WHERE h.job_id = ?` keeps exactly the rows of that job, each as many times as it occurs in the table, and no more rows than the table has |
| Records.HistoryOfPrefix | app.py:745-754 | rows added to the table later never come before earlier rows: the history read from a prefix of the table is a prefix of the history read from the whole |
| Records.HistoryOfAppend | app.py:831-835 | a new history row joins its own job's history at the end and no other job's |
| Records.HistoryOfUnused | app.py:383-388 | an id no history row names has an empty history |
| Records.JobNoTakenIsClash | app.py:54 | the `job_no TEXT UNIQUE` constraint: writing a job under an id keeps job numbers unique exactly when no other job already holds its number; for an id not in use, leaving it out of the check changes nothing |
| Forms.Field | app.py:336-343 | `form.get(key, '').strip()`: empty for a missing key, otherwise the posted value stripped; always trimmed, and empty exactly when missing or blank |
| Forms.ParseJobInfo | app.py:336-343 | each of the seven general fields is read from its own form key (`job_no`, `name`, `date`, `paper`, `note`, `price`, `serial`) with missing read as empty and then stripped; `job_no` and name are empty exactly when missing or blank |
| Forms.ParseChecklist | app.py:345-347 | each pre-press flag is set exactly when its box was posted as "on" |
| Forms.ParseTicks | app.py:793-804 | an outsourcing event is ticked exactly when its box was posted as "on"; a missing box is not ticked |
| Forms.ParseStageRequest | app.py:778-781 | the stage is the `stage` key read as above, empty exactly when missing or blank; flags and ticks are read as above |
| Forms.ParseAddRequest | app.py:336-347 | the add form: the general fields and the stage are each read from their own key, stripped; flags as above |
| Tracker.EffectiveStage | app.py:778 | the stage stored is the posted stage if non-empty, else the job's current stage if non-empty, else `PRE_DESIGN`; never empty and not checked against the catalog |
| Tracker.Stamp | app.py:793-804 | one outsourcing column: a set value is kept, an unticked column is kept, an unset ticked column becomes `now` |
| Tracker.ApplyTicks | app.py:785-804 | for all six events: a set timestamp never changes, an unset ticked one becomes `now`, an unticked one is kept |
| Tracker.ApplyTicksIdempotent | app.py:785-804 | ticking the same boxes again later changes nothing: the first tick's time stays |
| Tracker.StampedExactlyWhenTicked | app.py:793-804 | after an update an event's column holds `now` exactly when its box was ticked and the column was unset, or it already held `now` |
| Tracker.PyBool | app.py:841 | `bool(flag)` prints as "True" exactly when the flag is set, otherwise "False" |
| Tracker.StageDetailNamesStage | app.py:840-841 | the UPDATE_STAGE text starts "Stage set to " followed by the catalog label, or by the raw code for unknown codes, and everything after that is exactly the checklist text `; Pre-press: Plate=…, Die=…, Paper=…` |
| Tracker.StageDetail | app.py:840-841 | the details text is "Stage set to ", then the label or code, then the checklist text, each in its own place with lengths adding up |
| Tracker.StageDetailRecordsFlags | app.py:841 | two updates to the same stage log the same details exactly when they posted the same three pre-press flags |
| Tracker.ChecklistTextInjective | app.py:841 | the checklist text `; Pre-press: Plate=…, Die=…, Paper=…` determines all three flags |
| Tracker.AdvanceJob | app.py:805-828 | the job row after an update: stage, stage updater and time, checklist and outsourcing columns rewritten; id, general fields, creation and edit stamps kept |
| Tracker.TrackerUpdate | app.py:763-842 | fails exactly for a role outside superadmin/admin/staff (Forbidden) or a missing job (NotFound), and a failure changes nothing; on success only that job changes, history gains exactly one row with the stage, actor, time and flags written, and the log gains exactly one UPDATE_STAGE row by the acting user at `now`, under the job's number, with the stage detail; photos and id counter stay |
| Tracker.TrackerUpdateAppendsOneHistoryRow | app.py:830-835 | the updated job's history grows by one row after all its earlier rows; every other job's history is unchanged |
| Tracker.HistoryRowMatchesJob | app.py:805-835 | the new history row and the job row agree on stage, actor, time and checklist |
| Tracker.TrackerUpdatePreservesWf | app.py:763-842 | a stage update keeps the store invariant |
| Jobs.NewJob | app.py:355-375 | the inserted row carries the posted fields and flags, creator and time, the posted stage or `PRE_DESIGN`, stage stamp equal to the creation stamp, no edit stamp and no outsourcing timestamp |
| Jobs.AddJobWithId | app.py:329-411 | fails exactly for a role outside superadmin/admin/staff, an empty job number or name, or a job number already in use, in that order of precedence, changing nothing; on success adds exactly the new job, one history row with its initial stage and one CREATE_JOB row, and keeps every other job and photo |
| Jobs.AddJob | app.py:383 | under counter numbering, a created job is stored under the counter's current value, and the counter moves one past it |
| Jobs.AddJobWithIdStartsTracking | app.py:343-388 | under any numbering, a job created under an id that no job and no history row uses starts at the posted stage or `PRE_DESIGN`, with all six timestamps unset, and its history is exactly one row recording that stage |
| Jobs.AddJobStartsTracking | app.py:343-388 | under counter numbering, a new job's stage is the posted one or `PRE_DESIGN`, all six timestamps are unset, and its history is exactly one row recording that stage |
| Jobs.AddJobRejectsDuplicate | app.py:356-381 | a job number that any job already holds is refused with DuplicateJobNo |
| Jobs.AddJobPreservesWf | app.py:329-411 | creating a job keeps the store invariant, including unique job numbers |
| Jobs.AddJobWithIdPreservesWf | app.py:329-411 | creating a job under any positive id not in use keeps the store invariant, whichever numbering chose the id |
| Jobs.EditJob | app.py:493-567 | fails exactly for a role outside superadmin/admin, a missing job, or a job number held by another job, changing nothing; on success only that job's general fields and edit stamp change, stage, flags and timestamps stay, history and photos stay, and one EDIT_JOB row is logged under the new number |
| Jobs.EditKeepingNumberSucceeds | app.py:526-545 | an admin edit that keeps the job's own number always succeeds |
| Jobs.EditJobPreservesWf | app.py:493-567 | editing keeps the store invariant, including unique job numbers |
| Jobs.PhotosWithout | app.py:474 | `DELETE FROM photos WHERE job_id = ?` keeps exactly the other jobs' photos, unchanged |
| Jobs.DeleteJob | app.py:458-486 | fails exactly for a role outside superadmin/admin or a missing job; on success that job and its photos are gone, every other job and photo is kept, history is kept in full, and one DELETE_JOB row is logged under the deleted number |
| Jobs.DeleteJobPreservesWf | app.py:458-486 | deleting keeps the store invariant: no photo points at the removed job |
| Jobs.DeleteKeepsHistory | app.py:474-476 | after a delete the job's history rows are all still there, and its id is gone from the jobs table and below the counter |
| Sorting.InsertDesc | app.py:647 | inserting into a list ordered newest first keeps it ordered and adds exactly that row |
| Sorting.SortDesc | app.py:647 | `ORDER BY … DESC` gives a permutation of the rows, largest key first |
| Sorting.Reverse | app.py:751 | reversing keeps the rows and flips their positions |
| Sorting.ReverseDescending | app.py:751 | a list in descending order, reversed, is in ascending order |
| Sorting.SortAsc | app.py:751 | `ORDER BY … ASC` gives a permutation of the rows, smallest key first |
| Sorting.DescendingPrefix | app.py:647 | the first n rows of a descending list are descending, come from it, and are no smaller than any row left out |
| Sorting.TopDesc | app.py:647 | `ORDER BY … DESC LIMIT n` returns min(n, count) rows, all of them when there are at most n, in descending order, and every row left out is no larger than any row kept |
| Queries.DatePart | app.py:636 | `substr(created_at, 1, 10)` is exactly the first 10 characters of the timestamp, or all of it when shorter |
| Queries.Select | app.py:625-643 | the WHERE clause keeps each matching row as often as it occurs and drops every other row |
| Queries.ActivityQuery | app.py:617-649 | the activity page lists at most 500 rows; when 500 or fewer match it lists all of them, otherwise 500; newest first; every row left out is no newer than any listed |
| Queries.ActivityRowsMatch | app.py:634-647 | every listed row is an audit row that passes the filter |
| Queries.MatchesIgnoresTime | app.py:634-645 | the filter looks only at the date part: two rows logged on the same day pass or fail every filter together |
| Queries.RangeExcludesOutside | app.py:638-645 | without an exact date, a row dated after `to_date` or before `from_date` is not listed, and with neither bound every row passes |
| Queries.SelectSameRows | app.py:634-643 | filters that agree on every row select the same rows |
| Queries.ExactDateSuppressesRange | app.py:634-643 | with an exact date the from/to bounds are ignored: the page equals the page for that date alone |
| Queries.NoFilterSelectsAll | app.py:625-630 | with no filter every row passes |
| Queries.ExactDateIsOneDayRange | app.py:634-643 | an exact date selects the same rows as the inclusive range from that date to itself |
| Queries.HistoryView | app.py:745-754 | the history page shows exactly the job's rows, each as often as stored, ordered by `updated_at` oldest first |
| Queries.HistoryViewAfterUpdate | app.py:745-754 | after a stage update the history page shows the rows it showed before plus the one just written |
| Runs.NewId | app.py:53 | the id `add` gives a new job is positive and not in use in a well-formed store, under either numbering; counter numbering also stays above every id handed out before |
| Runs.Step | app.py:329-842 | a request either fails and changes nothing or succeeds; the id counter never goes down, and history and log only grow at the end, under either numbering |
| Runs.StepPreservesWf | app.py:329-842 | every kind of request keeps the store invariant, under either numbering |
| Runs.RunPreservesWf | app.py:329-842 | any sequence of requests from a well-formed store keeps it well formed, under either numbering |
| Runs.RunAppendOnly | app.py:830-842 | no sequence of requests removes or changes an earlier history or audit row, under either numbering |
| Runs.StepKeepsStamp | app.py:785-804 | under either numbering, a live job's set outsourcing timestamp survives any request that leaves the job in place |
| Runs.RunKeepsStamp | app.py:785-804 | under either numbering, a job's set outsourcing timestamp keeps its value through any run in which the job is never deleted |
| Runs.StepWriteOnce | app.py:785-804 | under counter numbering a set outsourcing timestamp survives any one request, unless the job is deleted |
| Runs.RunWriteOnce | app.py:785-804 | under counter numbering, once set, an outsourcing timestamp keeps its value through any sequence of requests |
| Runs.RunNeverRevives | app.py:152 | under counter numbering a deleted job's id is never handed out again |
| Runs.RowIdLosesStamp | app.py:53 | under SQLite's rowid numbering a timestamp is lost per id, though never per job row: create J-100, tick plate sent, delete it, create J-200; the new row J-200 takes id 1, which had a plate-sent time, with none |
| RowIds.MaxExists | app.py:53 | a non-empty set of ids has a largest one |
| RowIds.SqliteRowId | app.py:53 | the rowid SQLite picks without AUTOINCREMENT is above every id in use, 1 for an empty table, and otherwise exactly one above the largest id |
| RowIds.AddJobSqlite | app.py:355-383 | `add` as written: on success the new job has SQLite's rowid, which no job currently uses |
| RowIds.NewestIdReused | app.py:53 | after the job with the largest id is deleted, the next rowid is at most that id |
| RowIds.RowIdReusedAfterDelete | app.py:53 | create J-100, delete it, create J-200: J-200 gets id 1 and its history shows two rows, the first being J-100's creation |
| RowIds.FreshIdAfterDelete | app.py:152 | the same three requests under counter numbering: J-200 gets id 2 and a history of one row, and J-100's row stays under id 1 |

## Left out

- Flask routing, templates, `flash`, `redirect` and the session. The actor id and role are parameters. The GET branches only render pages.
- `login_required` and `role_required`. A request without a logged-in user is redirected before any logic runs.
- SQLite itself: connections, the `init_db` migration (lines 41-177), transactions and commits. Tables are maps and sequences.
- Filesystem work: saving uploaded photos in `add` and `edit`, `secure_filename`, the folder rename in `edit`, `rmtree` in `delete_job`, `send_from_directory`.
- Jobs.AddJobWithId: uploaded photos are not added to the photos table, because file saving and the 30-per-request cap depend on the uploaded files.
- Jobs.EditJob: uploaded photos are not added either, for the same reason.
- `delete_photo`, users, login and password hashing: outside the tracker.
- `backups`, `backups_add` and `backups_edit` beyond their use of `add_one_month` and `backup_status`.
- The `LIKE` searches of the dashboard and the tracker list (lines 286-310, 725-728).
- Records.LogAction: the audit row's time is the operation's `now`. The source calls `datetime.now()` again inside `log_action`, so its row can be a little later than the job's own stamps.
- Calendar.AddOneMonth: takes and returns a date value. `strptime` parsing and `strftime` formatting are not modelled; a string that does not parse raises in the source.
- Calendar.BackupStatus: a due date that failed to parse arrives as None; the parsing itself is not modelled. Today is a parameter instead of a clock read.
- Sorting.SortDesc: rows with equal keys come out in one fixed order. SQL leaves that order open; the properties proved hold for any order SQL may choose.
- Queries.ActivityQuery: the `LEFT JOIN users` that adds the actor's full name is not modelled.
- Queries.HistoryView: the `LEFT JOIN users` is left out, as above.
- Concurrency: every request is modelled as one atomic step, and runs are sequential. In the source, `tracker_update` reads the job (line 770), writes it (line 807) and logs on a separate connection (line 842), so two concurrent updates of one job can overwrite each other's checklist and a second tick can race the first. Interleavings of requests are not modelled.
- Jobs.AddJob: stores the new job under the counter `nextJobId`, not under `cur.lastrowid` (line 383) as `add` does; `RowIds.AddJobSqlite` is `add` as written.
- Jobs.AddJobStartsTracking: holds under counter numbering only. Under rowid numbering a reused id already has history rows (`RowIds.RowIdReusedAfterDelete`); `Jobs.AddJobWithIdStartsTracking` states the property for any id new to the history table.
- Runs.StepWriteOnce: holds under counter numbering only; under rowid numbering it fails, as `Runs.RowIdLosesStamp` shows (see Findings).
- Runs.RunWriteOnce: holds under counter numbering only, for the same reason; the per-row form, `Runs.RunKeepsStamp`, holds under both numberings.
- Runs.RunNeverRevives: holds under counter numbering only; the rowid numbering does revive ids (see Findings).
- Job and photo ids are unbounded integers; SQLite's 64-bit rowid limit is not modelled.
- Dates and times stored as text (the job's `date`, the ISO timestamps) are opaque strings ordered as text, as SQLite compares them.

## Findings

| source | as written | input that shows it | evidently intended | confidence | as-written member | corrected member |
|---|---|---|---|---|---|---|
| app.py:53 | `jobs.id` is `INTEGER PRIMARY KEY` without AUTOINCREMENT, so SQLite gives a new job one more than the largest id in the table; `delete_job` keeps the job's stage_history rows (lines 474-476), so a job created after the newest one is deleted takes over its id and its history | create J-100 (id 1), delete it, create J-200: J-200 gets id 1 and its history page lists J-100's creation row before its own | each job gets an id never used before, as `backup_log` does with AUTOINCREMENT at line 152, so a job's history holds only its own rows | high, not executed | RowIds.RowIdReusedAfterDelete | Runs.RunNeverRevives |
| app.py:53 | a consequence of the previous row, not of the tick logic: the set-once rule of lines 785-804 keeps a live job row's timestamps under either numbering (`Runs.RunKeepsStamp`), but id reuse gives a fresh, never-ticked row the old id, so anything that follows a job by id sees its timestamps vanish | create J-100 (id 1), tick plate sent, delete it, create J-200: id 1 had a plate-sent time and now has none | an id keeps its set timestamps for as long as it names a job, as with a fresh id per job | high, not executed | Runs.RowIdLosesStamp | Runs.RunWriteOnce |
