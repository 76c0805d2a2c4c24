# Backup rotation: retention rule and cleanup passes

This project models the backup-rotation logic of a small backup script, which comes in two
variants. `script.py` zips a project folder, uploads the archive to a Google Drive folder and then
prunes old backups from both places with a calendar ("grandfather-father-son") rule. `one.py`
does the same with a plain age rule. The model covers the rules, the parsing they depend on and
the loops that apply them. Archiving, uploading, logging and the webhook are outside it.

- **Calendar** (`calendar.dfy`) holds Python's `date` arithmetic on proleptic Gregorian dates.
  - `toordinal`, `weekday` and `replace(day=1)` are modelled directly.
  - `date - timedelta(days=k)` is SubDays. It is proved to move the ordinal back by exactly `k`.
  - A naive `datetime` is an Instant, counted in microseconds since 0001-01-01T00:00:00.
- **Text** and **Strptime** (`text.dfy`, `strptime.dfy`) hold `str.split`, `strftime("%Y-%m-%d")` and the two
  `strptime` formats the scripts use. They follow CPython's `_strptime` regular expression: one- or
  two-digit fields, a space-padded day, one to six fractional digits, seconds 60 and 61 matched and
  then refused, and a case-insensitive `T`/`Z`.
- **Retention** (`retention.dfy`) is `should_delete` (script.py). It keeps a date through three tiers:
  - recency: at most RETENTION days old;
  - weekly: one of RETENTION Sundays before today;
  - monthly: one of RETENTION first-of-month anchors taken 30 days apart.
  It deletes everything else.
- **Rotation** (`rotation.dfy`) holds the meaning of one pass over a listing.
  - Every entry gets a verdict (Skip, Keep, Delete, Raise).
  - The entries marked Delete are removed in listing order.
  - An uncaught exception (Raise) ends the pass.
  - It is proved in closed form, with the exact set of deleted entries and idempotence.
- **Storage** and **Sweep** (`storage.dfy`, `sweep.dfy`) hold the two stores and the two loops.
  - The stores are the local `backups/` directory and the Drive folder. Each is a class whose
    set of names or ids shrinks with each deletion.
  - A loop walks a listing, asks each entry for its verdict and deletes from the store. It is
    proved to do exactly what Rotation.Run says.
  - The four `for` loops of the two scripts are these two loops, each given its pass's verdict
    function.
- **ScriptCleanup** (`script_cleanup.dfy`) holds `cleanup_old_local_backups`, `cleanup_old_gdrive_backups`,
  the order in which a run calls them, and the backup file name of script.py.
- **OneCleanup** (`one_cleanup.dfy`) holds `cleanup_old_backups` of one.py and its age rule.

`RETENTION` is an integer parameter `n`. It may be negative: `range(n)` is then empty, so there
are no anchors. `date.today()` and `datetime.now()` become parameters `today` and `now`.

Behaviour of the code that a reader might not expect, all of which the model follows:

- With today = 2024-03-15 and RETENTION = 7, the backup dated 2024-01-01 is kept.
  - 2024-03-01 minus 30 days is 2024-01-31, so 2024-01-01 is monthly anchor 1.
  - February has no anchor at all, so 2024-02-01 is deleted.
  - See Retention.WorkedExample.
- Monthly anchors can repeat. From 2023-03-01, both 60 and 90 days back fall in December 2022
  (2022-12-31 and 2022-12-01), so anchors 2 and 3 are both 2022-12-01.
- In the local pass of script.py, only the `split` is inside the `try`.
  - A file name without `_` is skipped.
  - A name with `_` whose second piece is not a valid date (month 13, February 30) makes
    `strptime` raise. That ends the pass, and with it the run.
  - A project name containing `_` breaks the file-name round trip. The date is then read from
    the piece of the project name after its first `_`. When that piece is not a date, as in
    `my_site`, the local pass raises at the project's own backups. When it is one, as in
    `db_2020-01-01`, every backup of the project is judged by that date.
- The Drive pass runs before the local pass. When the Drive pass raises, the run ends and the
  local pass never starts.
- No deletion error is caught anywhere, and the model does not invent a failure report.

## Model

| member | source | states |
|---|---|---|
| Calendar.ToOrdinal | script.py:106 | `date.toordinal()`; OrdinalReflectsOrder and OrdinalInjective show it numbers valid dates in Python's date order without repeats |
| Calendar.Weekday | script.py:110 | `date.weekday()` from the ordinal, Monday 0 to Sunday 6; PreviousSunday shows the weekly offset lands on Sunday |
| Calendar.FirstOfMonth | script.py:117 | `date.replace(day=1)`; MonthlyAnchor states where it lands |
| Calendar.Instant | one.py:69 | a naive `datetime` as microseconds since 0001-01-01T00:00:00; InstantNonNegative and MidnightAge state its range and day arithmetic |
| Calendar.SubDays | script.py:110 | `date - timedelta(days=k)` gives a valid date whose ordinal is exactly k less, for any k that stays at or after 0001-01-01 |
| Calendar.PreviousSunday | script.py:110 | `today - (weekday(today) + 1 + 7i)` days always falls on a Sunday |
| Calendar.OrdinalReflectsOrder | script.py:106 | ordinals order valid dates exactly as Python's date comparison does |
| Calendar.InstantNonNegative | one.py:69 | no valid date and time of day lies before 0001-01-01T00:00:00 |
| Text.Split | script.py:90 | `str.split` with one separator: at least one piece, exactly one when the separator is absent, and no piece contains the separator |
| Text.JoinSplit | script.py:90 | joining the pieces of a split with the separator gives back the string |
| Text.SplitFirstIsPrefix | script.py:71 | `s.split(sep)[0]` is a prefix of `s`, followed by the first `sep` when there is one |
| Text.PaddedValue | script.py:127 | a zero-padded decimal field reads back as the number it was written from |
| Strptime.ParseDate | script.py:103 | `strptime(s, "%Y-%m-%d")` accepts only valid Gregorian dates |
| Strptime.ParsePaddedDate | script.py:103 | text of the shape `YYYY-MM-DD` is read back as the date it spells exactly when that date is valid, and refused otherwise |
| Strptime.FormatDate | script.py:127 | `strftime("%Y-%m-%d")` of a valid date is ten characters: four digits, `-`, two digits, `-`, two digits; ParseFormatDate shows `strptime` reads it back as the same date |
| Strptime.FormatDateFields | script.py:127 | each field `strftime("%Y-%m-%d")` writes is accepted by the matching `strptime` field as the same value |
| Strptime.ParseFormatDate | script.py:127 | reading back what `strftime("%Y-%m-%d")` wrote gives the same date, and the text holds no `_`, `.`, `T`, `:` |
| Strptime.FractionField | one.py:69 | `%f` gives a microsecond count below 1 000 000 |
| Strptime.ParseClock | one.py:69 | an accepted `%H:%M:%S.%f` is a valid time of day; seconds 60 and 61 are refused |
| Strptime.ParseTimestamp | one.py:69 | an accepted `createdTime` is an instant at or after year 1 |
| Strptime.ParseFormatClock | one.py:69 | a two-digit clock with milliseconds reads back exactly when hour < 24, minute < 60 and second < 60 |
| Strptime.FractionRequired | one.py:69 | a `createdTime` clock without the `.fraction` part is refused |
| Strptime.ParseIgnoresLiteralCase | one.py:69 | the parse does not depend on the case of the literal `T` and `Z` |
| Strptime.ParseTimestampParts | one.py:69 | `date + "T" + clock + "Z"` parses exactly when both parts parse, to the instant they denote |
| Strptime.ParseFormatTimestamp | one.py:69 | a timestamp as the Drive API writes it reads back to its instant exactly when its time of day is valid |
| Retention.Rejects | script.py:106-123 | the three tiers applied to a parsed date; RejectsCharacterization gives it in closed form and the Example lemmas evaluate it |
| Retention.ShouldDelete | script.py:102-123 | `should_delete`: None where `strptime` raises, else whether no tier keeps the date; WorkedExample and the pass lemmas state its results |
| Retention.DaysBetween | script.py:106 | `(today - file_datetime).days`: zero for the same date; DaysBetweenSign, RecentIsKept and ZeroRetention characterise it |
| Retention.DaysBetweenSign | script.py:106 | between two valid dates the day count is positive exactly when the file date is earlier, and zero exactly when the dates are equal |
| Retention.WeeklyAnchor | script.py:110 | weekly anchor i is a valid Sunday between 7i+1 and 7i+7 days before today |
| Retention.WeeklyAnchors | script.py:109-112 | the `sundays` list has max(RETENTION, 0) entries, each a Sunday strictly before today, entry i lying 7i+1..7i+7 days back |
| Retention.MonthlyAnchor | script.py:117 | monthly anchor i is the first of the month holding the day 30i days before the first of today's month |
| Retention.MonthlyAnchors | script.py:116-119 | the `first_days` list has max(RETENTION, 0) entries, each a first of month, and entry 0 is the first of today's month |
| Retention.WeeklyAnchorMembership | script.py:109-114 | a date is in `sundays` exactly when it is a Sunday 1..7·RETENTION days before today |
| Retention.RejectsCharacterization | script.py:102-123 | `should_delete` is true exactly when the date is more than RETENTION days old, is not such a Sunday and is not a monthly anchor |
| Retention.RecentIsKept | script.py:106-107 | a date at most RETENTION days old is kept, and so is every date from today on when RETENTION is not negative |
| Retention.WeeklyAnchorsSpacing | script.py:109-112 | consecutive weekly anchors are exactly 7 days apart, newest first |
| Retention.MonthlyAnchorsNonIncreasing | script.py:116-119 | a later monthly anchor is never after an earlier one |
| Retention.MonthlyAnchorsRepeat | script.py:116-119 | from 2023-03-01 with RETENTION 4, anchors 2 and 3 are both 2022-12-01 |
| Retention.ZeroRetention | script.py:109-123 | with RETENTION 0 exactly the dates before today are deleted |
| Retention.ExampleRecent | script.py:106-107 | for today 2024-03-15 and RETENTION 7, 2024-03-10 is 5 days old and kept |
| Retention.ExampleWeekly | script.py:109-114 | in that example 2024-02-25 is a weekly anchor and kept |
| Retention.ExampleMonthly | script.py:116-121 | in that example 2024-01-01 is monthly anchor 1 and kept |
| Retention.ExampleSkippedMonth | script.py:102-123 | in that example 2024-02-01 matches no tier and is deleted |
| Retention.NoFebruaryAnchor | script.py:116-121 | in that example no monthly anchor falls on 2024-02-01: the first is 2024-03-01 and each later one lies at least 30 days before it |
| Retention.WorkedExample | script.py:102-123 | in that example `should_delete` on the four date texts gives False, False, False, True |
| Rotation.Run | script.py:86-98 | one pass over a judged listing; RunClosedForm, RunDeletesExactly and RunIdempotent state what it deletes and how it ends |
| Rotation.StopIndex | script.py:86-98 | a pass stops at the first entry that raises: nothing before it raises |
| Rotation.RunClosedForm | script.py:86-98 | a pass deletes exactly the Delete entries before the first raising entry, in listing order, and is aborted exactly when some entry raises |
| Rotation.RunDeletesExactly | script.py:86-98 | with distinct names an entry is deleted exactly when it comes before the first raising entry and its verdict is Delete |
| Rotation.RunIdempotent | script.py:86-98 | after a completed pass, a second pass over what is left deletes nothing |
| Storage.LocalDirectory.Remove | script.py:97 | `os.remove` takes exactly that name out of the directory |
| Storage.DriveFolder.Delete | script.py:74 | `files().delete` takes exactly that id out of the folder |
| Sweep.SweepDirectory | script.py:86-98 | the local loop reports what Rotation.Run says for the listing, and the directory afterwards lacks exactly the deleted names |
| Sweep.SweepFolder | script.py:70-75 | the Drive loop reports what Rotation.Run says for the listing, and the folder afterwards lacks exactly the deleted ids |
| ScriptCleanup.BackupName | script.py:129 | `f"{project_name}_{timestamp}.zip"`; ExtractDateRoundTrip and UnderscoreInProjectName state what the local pass reads back from it |
| ScriptCleanup.ExtractDate | script.py:90 | the date text is found exactly when the name holds `_`, and it holds neither `_` nor `.` |
| ScriptCleanup.CreatedDate | script.py:71 | the text before the first `T` of `createdTime`: a prefix without `T`, followed by the `T` when there is one, and the whole of `createdTime` when it holds no `T` |
| ScriptCleanup.LocalVerdict | script.py:89-96 | one iteration of the local loop: skipped exactly when the name has no `_` |
| ScriptCleanup.DriveVerdict | script.py:71-74 | one iteration of the Drive loop: never skipped, so every listed file is judged |
| ScriptCleanup.LocalEntries | script.py:86-98 | the local listing is judged entry by entry, names unchanged and in listing order |
| ScriptCleanup.DriveEntries | script.py:70-75 | the Drive listing is judged entry by entry, ids unchanged and in listing order |
| ScriptCleanup.CleanupOldGdriveBackups | script.py:66-75 | the Drive pass deletes exactly what the pass semantics prescribe for the listing, and the folder loses exactly those ids |
| ScriptCleanup.CleanupOldLocalBackups | script.py:79-98 | a missing directory deletes nothing; otherwise the pass deletes exactly what the pass semantics prescribe, and the directory loses exactly those names |
| ScriptCleanup.CleanupAfterUpload | script.py:146-147 | the Drive pass runs first; the local pass runs exactly when the Drive pass completed, and the directory is untouched otherwise |
| ScriptCleanup.ExtractDateRoundTrip | script.py:127-129 | for a project name without `_`, the date read back from `<project>_<timestamp>.zip` is the timestamp |
| ScriptCleanup.NewBackupKept | script.py:127-129 | the backup this run just wrote is kept by the local pass when RETENTION is not negative |
| ScriptCleanup.NameWithoutUnderscoreSkipped | script.py:89-94 | a name without `_` is skipped and never deleted |
| ScriptCleanup.InvalidDateRaises | script.py:89-96 | for any project name without `_`, a backup whose date text has the `YYYY-MM-DD` shape raises, instead of being skipped, exactly when that date is invalid |
| ScriptCleanup.ProjectNameSecondPieceRead | script.py:90 | for a project name `a_b` with no `_` or `.` in `b`, the date text read from any of its backups is `b` |
| ScriptCleanup.UnderscoreInProjectName | script.py:127-129 | such a backup raises when `b` is not a date and is otherwise kept or deleted by the date `b` spells, whatever its timestamp |
| ScriptCleanup.WordRefused | script.py:103 | `strptime` refuses `site` |
| ScriptCleanup.UnderscoreInProjectNameRaises | script.py:127-129 | every backup of the project `my_site` raises |
| ScriptCleanup.DatedProjectNameMisread | script.py:127-129 | every backup of a project named `<word>_<YYYY-MM-DD>` is judged by the date in the project name |
| ScriptCleanup.CreatedDateOfTimestamp | script.py:71 | the text before the `T` of a Drive `createdTime` is its date, and it parses to that date |
| ScriptCleanup.LocalPassDeletesExactly | script.py:86-98 | a listed name is deleted exactly when it comes before the first raising entry and `should_delete` is true on its extracted date |
| ScriptCleanup.DrivePassDeletesExactly | script.py:70-75 | a listed file is deleted exactly when it comes before the first raising entry and `should_delete` is true on its `createdTime` date |
| ScriptCleanup.LocalPassIdempotent | script.py:86-98 | with the same `today`, a second local pass over what a completed pass left deletes nothing |
| ScriptCleanup.DrivePassIdempotent | script.py:70-75 | with the same `today`, a second Drive pass over what a completed pass left deletes nothing |
| OneCleanup.Age | one.py:58 | `(now - creation_time).days`: the floor of the difference in whole days |
| OneCleanup.LocalVerdict | one.py:56-61 | one iteration of the local loop: never raises, and skips exactly the entries that are not regular files |
| OneCleanup.DriveVerdict | one.py:69-73 | one iteration of the Drive loop: never skips, and raises exactly when `createdTime` does not parse |
| OneCleanup.LocalEntries | one.py:53-61 | the local listing is judged entry by entry, names unchanged and in listing order |
| OneCleanup.DriveEntries | one.py:68-73 | the Drive listing is judged item by item, ids unchanged and in listing order |
| OneCleanup.CleanupOldBackups | one.py:49-73 | both loops, with one `now`, do what the pass semantics prescribe, and the directory and folder lose exactly what they deleted |
| OneCleanup.FutureInstantAge | one.py:57-58 | a creation instant at most a day after `now` has age -1 |
| OneCleanup.DeletionMonotone | one.py:58-60 | against one `now`, anything created before a deleted item is deleted too |
| OneCleanup.LocalPassCompletes | one.py:53-61 | the local loop never raises |
| OneCleanup.LocalRuleIff | one.py:53-61 | the local loop completes and deletes an entry exactly when it is a regular file older than RETENTION days |
| OneCleanup.DriveParsedCompletes | one.py:68-73 | when every `createdTime` parses, the Drive loop runs to the end |
| OneCleanup.DriveRuleIff | one.py:68-73 | when every `createdTime` parses, the Drive loop completes and deletes an item exactly when its age exceeds RETENTION |
| OneCleanup.DriveStopsAtMalformed | one.py:69 | the Drive loop stops at the first unparsable `createdTime` and deletes nothing from there on |
| OneCleanup.MidnightAge | one.py:69-70 | an item created at midnight of day d, judged during day `today`, reads back and has as its age the calendar days from d to today |

## Left out

- Loading the environment and exiting when variables are missing. RETENTION is the parameter `n`.
- Logging, the Google Drive client and credentials, and `upload_to_google_drive`.
  - `list_files` and the `files().list` queries are left out too. A listing is an input sequence
    holding what the query returned; only the first page is read, as in the code.
  - The `mimeType` filter of one.py is likewise part of the query and not modelled.
- `shutil.make_archive` and the webhook post. These are file-system and network I/O.
- `os.listdir`, `os.path.isfile` and `os.path.getctime` become inputs, and the listing order is
  taken as given.
  - The float-to-microsecond rounding of `datetime.fromtimestamp` is not modelled: a local entry
    carries its creation instant directly.
- `date.today()` and `datetime.now()` are parameters.
- ScriptCleanup.CleanupOldLocalBackups and ScriptCleanup.CleanupOldGdriveBackups use one `today`
  for the whole pass. The code reads the clock at every call of `should_delete`, so a pass that
  runs across midnight is not modelled.
- OneCleanup.CleanupOldBackups requires the backup directory to exist. It is created earlier in
  the run by `make_archive`, so the `FileNotFoundError` of `os.listdir` is not modelled.
- The time-zone difference between the local naive `now` and the UTC `createdTime` in one.py is
  not modelled. Both are read as the same naive clock.
- Python's `OverflowError` for anchors before 0001-01-01 is stated as the precondition
  Retention.AnchorsInRange rather than as an error path.
- Errors raised by `os.remove` or by the Drive delete call are not modelled. Each deletion succeeds.
- `\d` in `strptime` also matches non-ASCII digits. Only ASCII digits are modelled.
- Strptime.ParseFormatDate is stated for the four-digit year FormatDate writes. The C library's
  `%Y` may write fewer digits for years before 1000, and `strptime` then refuses them.
