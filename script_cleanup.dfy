/** The two cleanup passes of script.py and the backup file name they read dates from. Both apply
    `should_delete` to every listed backup in listing order and delete the rejected ones; a date
    that `strptime` refuses raises ValueError, which nothing catches, so the pass stops there. The
    Drive pass runs first: when it raises, the run ends and the local pass never starts. */
module ScriptCleanup {
  import opened Wrappers
  import opened Text
  import opened Calendar
  import opened Strptime
  import opened Retention
  import opened Rotation
  import opened Storage
  import opened Sweep

  /** `f"{project_name}_{timestamp}.zip"`. */
  function BackupName(projectName: string, timestamp: string): string {
    projectName + "_" + timestamp + ".zip"
  }

  /** `file_name.split("_")[1].split(".")[0]`; None where the index raises IndexError (no `_`). */
  function ExtractDate(fileName: string): (r: Option<string>)
    ensures r.None? <==> '_' !in fileName
    ensures r.Some? ==> '_' !in r.value && '.' !in r.value
  {
    var parts := Split(fileName, '_');
    if |parts| < 2 then None
    else
      SplitFirstIsPrefix(parts[1], '.');
      Some(Split(parts[1], '.')[0])
  }

  /** `file["createdTime"].split("T")[0]`. */
  function CreatedDate(createdTime: string): (r: string)
    ensures r <= createdTime && 'T' !in r
    ensures 'T' in createdTime ==> createdTime[|r|] == 'T'
    ensures 'T' !in createdTime ==> r == createdTime
  {
    var parts := Split(createdTime, 'T');
    SplitFirstIsPrefix(createdTime, 'T');
    if 'T' !in createdTime then SplitWithoutSeparator(createdTime, 'T'); parts[0] else
    parts[0]
  }

  /** One iteration of the local loop: skip names without `_`, then `should_delete`. */
  function LocalVerdict(fileName: string, today: Date, n: int): (v: Verdict)
    requires AnchorsInRange(today, n)
    ensures v == Skip <==> '_' !in fileName
  {
    match ExtractDate(fileName)
    case None => Skip
    case Some(text) =>
      match ShouldDelete(text, today, n)
      case None => Raise
      case Some(delete) => if delete then Delete else Keep
  }

  /** One iteration of the Drive loop. */
  function DriveVerdict(file: DriveFile, today: Date, n: int): (v: Verdict)
    requires AnchorsInRange(today, n)
    ensures v != Skip
  {
    match ShouldDelete(CreatedDate(file.createdTime), today, n)
    case None => Raise
    case Some(delete) => if delete then Delete else Keep
  }

  /** The listing with each name's verdict. */
  function LocalEntries(listing: seq<string>, today: Date, n: int): (es: seq<Entry>)
    requires AnchorsInRange(today, n)
    ensures |es| == |listing| && forall k :: 0 <= k < |es| ==> es[k].id == listing[k]
  {
    if listing == [] then []
    else [Entry(listing[0], LocalVerdict(listing[0], today, n))] + LocalEntries(listing[1..], today, n)
  }

  lemma {:induction false} LocalEntryAt(listing: seq<string>, today: Date, n: int, k: nat)
    requires AnchorsInRange(today, n) && k < |listing|
    ensures LocalEntries(listing, today, n)[k] == Entry(listing[k], LocalVerdict(listing[k], today, n))
  {
    if k > 0 {
      LocalEntryAt(listing[1..], today, n, k - 1);
    }
  }

  /** The Drive listing with each file's verdict. */
  function DriveEntries(files: seq<DriveFile>, today: Date, n: int): (es: seq<Entry>)
    requires AnchorsInRange(today, n)
    ensures |es| == |files| && forall k :: 0 <= k < |es| ==> es[k].id == files[k].id
  {
    if files == [] then []
    else [Entry(files[0].id, DriveVerdict(files[0], today, n))] + DriveEntries(files[1..], today, n)
  }

  lemma {:induction false} DriveEntryAt(files: seq<DriveFile>, today: Date, n: int, k: nat)
    requires AnchorsInRange(today, n) && k < |files|
    ensures DriveEntries(files, today, n)[k] == Entry(files[k].id, DriveVerdict(files[k], today, n))
  {
    if k > 0 {
      DriveEntryAt(files[1..], today, n, k - 1);
    }
  }

  /** `cleanup_old_gdrive_backups`: `files` is what `list_files` returned. */
  method CleanupOldGdriveBackups(folder: DriveFolder, files: seq<DriveFile>, today: Date, n: int)
    returns (report: Report)
    requires AnchorsInRange(today, n)
    requires DistinctFileIds(files) && forall i :: 0 <= i < |files| ==> files[i].id in folder.ids
    modifies folder
    ensures report == Run(DriveEntries(files, today, n))
    ensures folder.ids == old(folder.ids) - Removed(report.deleted)
  {
    ghost var es := DriveEntries(files, today, n);
    forall k | 0 <= k < |files| ensures es[k] == Entry(files[k].id, DriveVerdict(files[k], today, n)) {
      DriveEntryAt(files, today, n, k);
    }
    report := SweepFolder(folder, files, f requires AnchorsInRange(today, n) => DriveVerdict(f, today, n), es);
  }

  /** `cleanup_old_local_backups`: `listing` is what `os.listdir(BACKUP_DIR)` returned, which is
      only asked for when the directory exists. */
  method CleanupOldLocalBackups(dir: LocalDirectory, listing: seq<string>, today: Date, n: int)
    returns (report: Report)
    requires AnchorsInRange(today, n)
    requires dir.present ==> Distinct(listing) && forall i :: 0 <= i < |listing| ==> listing[i] in dir.names
    modifies dir
    ensures dir.present == old(dir.present)
    ensures !dir.present ==> report == Report([], Completed)
    ensures dir.present ==> report == Run(LocalEntries(listing, today, n))
    ensures dir.names == old(dir.names) - Removed(report.deleted)
  {
    if !dir.present {
      return Report([], Completed);
    }
    ghost var es := LocalEntries(listing, today, n);
    forall k | 0 <= k < |listing| ensures es[k] == Entry(listing[k], LocalVerdict(listing[k], today, n)) {
      LocalEntryAt(listing, today, n, k);
    }
    report := SweepDirectory(dir, listing, name => name,
                             name requires AnchorsInRange(today, n) => LocalVerdict(name, today, n), es);
  }

  /** The cleanup step of a run: the Drive pass, then the local pass. An exception in the Drive
      pass ends the run, so the local pass is reached (`local` is Some) only when the Drive pass
      completed; otherwise the local directory is left as it was. */
  method CleanupAfterUpload(folder: DriveFolder, dir: LocalDirectory, files: seq<DriveFile>,
                            listing: seq<string>, today: Date, n: int)
    returns (remote: Report, local: Option<Report>)
    requires AnchorsInRange(today, n)
    requires DistinctFileIds(files) && forall i :: 0 <= i < |files| ==> files[i].id in folder.ids
    requires dir.present ==> Distinct(listing) && forall i :: 0 <= i < |listing| ==> listing[i] in dir.names
    modifies folder, dir
    ensures remote == Run(DriveEntries(files, today, n))
    ensures folder.ids == old(folder.ids) - Removed(remote.deleted)
    ensures local.None? <==> remote.outcome.Aborted?
    ensures dir.present == old(dir.present)
    ensures local.None? ==> dir.names == old(dir.names)
    ensures local.Some? ==> dir.names == old(dir.names) - Removed(local.value.deleted)
    ensures local.Some? && !dir.present ==> local.value == Report([], Completed)
    ensures local.Some? && dir.present ==> local.value == Run(LocalEntries(listing, today, n))
  {
    remote := CleanupOldGdriveBackups(folder, files, today, n);
    if remote.outcome.Aborted? {
      return remote, None;
    }
    var report := CleanupOldLocalBackups(dir, listing, today, n);
    local := Some(report);
  }

  /** The file-name round trip: for a project name without `_`, the date read back from the backup
      name is the timestamp it was built from. */
  lemma ExtractDateRoundTrip(projectName: string, timestamp: string)
    requires '_' !in projectName && '_' !in timestamp && '.' !in timestamp
    ensures ExtractDate(BackupName(projectName, timestamp)) == Some(timestamp)
  {
    assert BackupName(projectName, timestamp) == projectName + ['_'] + (timestamp + ".zip");
    assert '_' !in timestamp + ".zip";
    SplitTwo(projectName, '_', timestamp + ".zip");
    assert timestamp + ".zip" == timestamp + ['.'] + "zip";
    SplitTwo(timestamp, '.', "zip");
  }

  /** A name without `_` raises IndexError inside the `try` and is skipped, so it is never deleted. */
  lemma NameWithoutUnderscoreSkipped(fileName: string, today: Date, n: int)
    requires AnchorsInRange(today, n) && '_' !in fileName
    ensures LocalVerdict(fileName, today, n) == Skip
  {
  }

  /** The backup this run has just written, `<project>_<today>.zip`, is kept by the local pass
      when RETENTION is not negative. */
  lemma NewBackupKept(projectName: string, today: Date, n: int)
    requires AnchorsInRange(today, n) && n >= 0 && '_' !in projectName
    ensures LocalVerdict(BackupName(projectName, FormatDate(today)), today, n) == Keep
  {
    ParseFormatDate(today);
    ExtractDateRoundTrip(projectName, FormatDate(today));
    RecentIsKept(today, today, n);
  }

  /** A name with `_` whose date text has the `YYYY-MM-DD` shape is not skipped: it raises exactly
      when the text is not a valid date (month 13, February 30), since `strptime` is called
      outside the `try`; otherwise the rule judges it. */
  lemma InvalidDateRaises(project: string, year: nat, month: nat, day: nat, today: Date, n: int)
    requires AnchorsInRange(today, n) && '_' !in project
    requires year < 10000 && month < 100 && day < 100
    ensures var text := Padded(year, 4) + "-" + Padded(month, 2) + "-" + Padded(day, 2);
            LocalVerdict(BackupName(project, text), today, n) == Raise <==> !ValidDate(Date(year, month, day))
  {
    var y, m, d := Padded(year, 4), Padded(month, 2), Padded(day, 2);
    DigitsHaveNoSeparator(y);
    DigitsHaveNoSeparator(m);
    DigitsHaveNoSeparator(d);
    var text := y + "-" + m + "-" + d;
    assert '_' !in text && '.' !in text;
    ExtractDateRoundTrip(project, text);
    ParsePaddedDate(year, month, day);
  }

  /** With a project name `a_b`, the date is read from `b`, whatever the timestamp. */
  lemma ProjectNameSecondPieceRead(a: string, b: string, timestamp: string)
    requires '_' !in a && '_' !in b && '.' !in b
    ensures ExtractDate(BackupName(a + "_" + b, timestamp)) == Some(b)
  {
    var rest := timestamp + ".zip";
    assert BackupName(a + "_" + b, timestamp) == a + ['_'] + (b + ['_'] + rest);
    SplitAround(a, '_', b + ['_'] + rest);
    SplitAround(b, '_', rest);
    SplitWithoutSeparator(a, '_');
    SplitWithoutSeparator(b, '_');
    SplitWithoutSeparator(b, '.');
  }

  /** A project name with `_` breaks the round trip. The local pass judges such a backup by the
      piece after the first `_`: it raises when that piece is not a date (`my_site`), and when it
      is one (`db_2020-01-01`) the backup is kept or deleted by that date, not by its timestamp. */
  lemma UnderscoreInProjectName(a: string, b: string, timestamp: string, today: Date, n: int)
    requires AnchorsInRange(today, n) && '_' !in a && '_' !in b && '.' !in b
    ensures ParseDate(b).None? ==> LocalVerdict(BackupName(a + "_" + b, timestamp), today, n) == Raise
    ensures ParseDate(b).Some? ==>
              LocalVerdict(BackupName(a + "_" + b, timestamp), today, n) ==
                if Rejects(ParseDate(b).value, today, n) then Delete else Keep
  {
    ProjectNameSecondPieceRead(a, b, timestamp);
  }

  lemma WordRefused()
    ensures ParseDate("site") == None
  {
    SplitWithoutSeparator("site", '-');
  }

  /** The project `my_site`: every one of its backups raises. */
  lemma UnderscoreInProjectNameRaises(timestamp: string, today: Date, n: int)
    requires AnchorsInRange(today, n)
    ensures LocalVerdict(BackupName("my_site", timestamp), today, n) == Raise
  {
    assert "my_site" == "my" + "_" + "site";
    WordRefused();
    UnderscoreInProjectName("my", "site", timestamp, today, n);
  }

  /** A project named like `db_2020-01-01`: every one of its backups is judged as dated by the
      project name. */
  lemma DatedProjectNameMisread(project: string, d: Date, timestamp: string, today: Date, n: int)
    requires AnchorsInRange(today, n) && ValidDate(d) && '_' !in project
    ensures LocalVerdict(BackupName(project + "_" + FormatDate(d), timestamp), today, n) ==
              if Rejects(d, today, n) then Delete else Keep
  {
    ParseFormatDate(d);
    UnderscoreInProjectName(project, FormatDate(d), timestamp, today, n);
  }

  /** A Drive timestamp as the API writes it yields, before its `T`, exactly the date it holds. */
  lemma CreatedDateOfTimestamp(d: Date, hour: nat, minute: nat, second: nat, milli: nat)
    requires ValidDate(d)
    ensures CreatedDate(FormatTimestamp(d, hour, minute, second, milli)) == FormatDate(d)
    ensures ParseDate(CreatedDate(FormatTimestamp(d, hour, minute, second, milli))) == Some(d)
  {
    ParseFormatDate(d);
    var rest := Padded(hour, 2) + ":" + Padded(minute, 2) + ":" + Padded(second, 2) + "." + Padded(milli, 3) + "Z";
    assert FormatTimestamp(d, hour, minute, second, milli) == FormatDate(d) + ['T'] + rest;
    SplitAround(FormatDate(d), 'T', rest);
    SplitWithoutSeparator(FormatDate(d), 'T');
  }

  /** Each pass deletes a listed backup exactly when it comes before the first unparsable date and
      the rule rejects its date. */
  lemma LocalPassDeletesExactly(listing: seq<string>, today: Date, n: int, j: nat)
    requires AnchorsInRange(today, n) && Distinct(listing) && j < |listing|
    ensures var es := LocalEntries(listing, today, n);
            listing[j] in Run(es).deleted <==>
              j < StopIndex(es, 0) && ExtractDate(listing[j]).Some?
              && ShouldDelete(ExtractDate(listing[j]).value, today, n) == Some(true)
  {
    LocalEntryAt(listing, today, n, j);
    RunDeletesExactly(LocalEntries(listing, today, n), j);
  }

  lemma DrivePassDeletesExactly(files: seq<DriveFile>, today: Date, n: int, j: nat)
    requires AnchorsInRange(today, n) && DistinctFileIds(files) && j < |files|
    ensures var es := DriveEntries(files, today, n);
            files[j].id in Run(es).deleted <==>
              j < StopIndex(es, 0) && ShouldDelete(CreatedDate(files[j].createdTime), today, n) == Some(true)
  {
    DriveEntryAt(files, today, n, j);
    RunDeletesExactly(DriveEntries(files, today, n), j);
  }

  /** Running the local pass again on what a completed pass left, in any order and with the same
      `today`, deletes nothing. */
  lemma LocalPassIdempotent(listing: seq<string>, remaining: seq<string>, today: Date, n: int)
    requires AnchorsInRange(today, n)
    requires Run(LocalEntries(listing, today, n)).outcome == Completed
    requires forall name :: name in remaining ==>
               name in listing && name !in Run(LocalEntries(listing, today, n)).deleted
    ensures Run(LocalEntries(remaining, today, n)) == Report([], Completed)
  {
    var es, again := LocalEntries(listing, today, n), LocalEntries(remaining, today, n);
    forall e | e in again ensures e in es && e.id !in Run(es).deleted {
      var j :| 0 <= j < |again| && again[j] == e;
      assert remaining[j] in remaining;
      var i :| 0 <= i < |listing| && listing[i] == remaining[j];
      LocalEntryAt(listing, today, n, i);
      LocalEntryAt(remaining, today, n, j);
    }
    RunIdempotent(es, again);
  }

  lemma DrivePassIdempotent(files: seq<DriveFile>, remaining: seq<DriveFile>, today: Date, n: int)
    requires AnchorsInRange(today, n)
    requires Run(DriveEntries(files, today, n)).outcome == Completed
    requires forall f :: f in remaining ==> f in files && f.id !in Run(DriveEntries(files, today, n)).deleted
    ensures Run(DriveEntries(remaining, today, n)) == Report([], Completed)
  {
    var es, again := DriveEntries(files, today, n), DriveEntries(remaining, today, n);
    forall e | e in again ensures e in es && e.id !in Run(es).deleted {
      var j :| 0 <= j < |again| && again[j] == e;
      assert remaining[j] in remaining;
      var i :| 0 <= i < |files| && files[i] == remaining[j];
      DriveEntryAt(files, today, n, i);
      DriveEntryAt(remaining, today, n, j);
    }
    RunIdempotent(es, again);
  }
}
