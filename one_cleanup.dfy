/** `cleanup_old_backups` of one.py: the age-based variant. A single `now` is taken once; the
    local loop deletes every regular file whose age exceeds RETENTION, then the Drive loop does
    the same for every listed item, reading its age from `createdTime`. Instants are microseconds
    (see Calendar.Instant) and an age is a whole number of days, as `timedelta.days` gives it. */
module OneCleanup {
  import opened Wrappers
  import opened Calendar
  import opened Strptime
  import opened Rotation
  import opened Storage
  import opened Sweep

  /** `(now - creation_time).days`: the floor of the difference in days. */
  function Age(now: int, created: int): (days: int)
    ensures days * DayMicros <= now - created < (days + 1) * DayMicros
  {
    (now - created) / DayMicros
  }

  /** An entry of `os.listdir(BACKUP_DIR)` with what `os.path.isfile` and `os.path.getctime`
      (through `fromtimestamp`) say about it. */
  datatype LocalEntry = LocalEntry(name: string, isFile: bool, ctime: int)

  predicate DistinctNames(listing: seq<LocalEntry>) {
    forall i, j :: 0 <= i < j < |listing| ==> listing[i].name != listing[j].name
  }

  /** One iteration of the local loop: only regular files are looked at. */
  function LocalVerdict(e: LocalEntry, now: int, n: int): (v: Verdict)
    ensures v != Raise
    ensures v == Skip <==> !e.isFile
  {
    if !e.isFile then Skip
    else if Age(now, e.ctime) > n then Delete
    else Keep
  }

  /** One iteration of the Drive loop; a `createdTime` that does not match the format raises. */
  function DriveVerdict(file: DriveFile, now: int, n: int): (v: Verdict)
    ensures v != Skip
    ensures v == Raise <==> ParseTimestamp(file.createdTime).None?
  {
    match ParseTimestamp(file.createdTime)
    case None => Raise
    case Some(created) => if Age(now, created) > n then Delete else Keep
  }

  /** The listing with each entry's verdict. */
  function LocalEntries(listing: seq<LocalEntry>, now: int, n: int): (es: seq<Entry>)
    ensures |es| == |listing| && forall k :: 0 <= k < |es| ==> es[k].id == listing[k].name
  {
    if listing == [] then []
    else [Entry(listing[0].name, LocalVerdict(listing[0], now, n))] + LocalEntries(listing[1..], now, n)
  }

  lemma {:induction false} LocalEntryAt(listing: seq<LocalEntry>, now: int, n: int, k: nat)
    requires k < |listing|
    ensures LocalEntries(listing, now, n)[k] == Entry(listing[k].name, LocalVerdict(listing[k], now, n))
  {
    if k > 0 {
      LocalEntryAt(listing[1..], now, n, k - 1);
    }
  }

  /** The Drive listing with each item's verdict. */
  function DriveEntries(files: seq<DriveFile>, now: int, n: int): (es: seq<Entry>)
    ensures |es| == |files| && forall k :: 0 <= k < |es| ==> es[k].id == files[k].id
  {
    if files == [] then []
    else [Entry(files[0].id, DriveVerdict(files[0], now, n))] + DriveEntries(files[1..], now, n)
  }

  lemma {:induction false} DriveEntryAt(files: seq<DriveFile>, now: int, n: int, k: nat)
    requires k < |files|
    ensures DriveEntries(files, now, n)[k] == Entry(files[k].id, DriveVerdict(files[k], now, n))
  {
    if k > 0 {
      DriveEntryAt(files[1..], now, n, k - 1);
    }
  }

  /** `cleanup_old_backups(service)`. `listing` is what `os.listdir` returned for the backup
      directory, which `make_archive` has created earlier in the run; `files` is what the Drive
      query returned. The local loop runs first, then the Drive loop, both with the same `now`. */
  method CleanupOldBackups(dir: LocalDirectory, folder: DriveFolder, listing: seq<LocalEntry>,
                           files: seq<DriveFile>, now: int, n: int)
    returns (local: Report, remote: Report)
    requires dir.present && DistinctNames(listing)
    requires forall i :: 0 <= i < |listing| ==> listing[i].name in dir.names
    requires DistinctFileIds(files) && forall i :: 0 <= i < |files| ==> files[i].id in folder.ids
    modifies dir, folder
    ensures local == Run(LocalEntries(listing, now, n))
    ensures remote == Run(DriveEntries(files, now, n))
    ensures dir.present && dir.names == old(dir.names) - Removed(local.deleted)
    ensures folder.ids == old(folder.ids) - Removed(remote.deleted)
  {
    ghost var es := LocalEntries(listing, now, n);
    forall k | 0 <= k < |listing| ensures es[k] == Entry(listing[k].name, LocalVerdict(listing[k], now, n)) {
      LocalEntryAt(listing, now, n, k);
    }
    local := SweepDirectory(dir, listing, (e: LocalEntry) => e.name, (e: LocalEntry) => LocalVerdict(e, now, n), es);
    ghost var ds := DriveEntries(files, now, n);
    forall k | 0 <= k < |files| ensures ds[k] == Entry(files[k].id, DriveVerdict(files[k], now, n)) {
      DriveEntryAt(files, now, n, k);
    }
    remote := SweepFolder(folder, files, f => DriveVerdict(f, now, n), ds);
  }

  /** A creation instant even slightly after `now` has age -1, so it is kept for any
      RETENTION of -1 or more. */
  lemma FutureInstantAge(now: int, created: int)
    requires now < created <= now + DayMicros
    ensures Age(now, created) == -1
  {
  }

  /** Against the same `now`, anything created earlier than a deleted item is deleted too. */
  lemma DeletionMonotone(now: int, earlier: int, later: int, n: int)
    requires earlier <= later && Age(now, later) > n
    ensures Age(now, earlier) > n
  {
  }

  /** The local loop never raises: nothing in it can fail once the listing is known. */
  lemma LocalPassCompletes(listing: seq<LocalEntry>, now: int, n: int)
    ensures StopIndex(LocalEntries(listing, now, n), 0) == |listing|
  {
    var es := LocalEntries(listing, now, n);
    forall j | 0 <= j < |listing| ensures es[j].verdict != Raise {
      LocalEntryAt(listing, now, n, j);
    }
    StopsAt(es, 0, |listing|);
  }

  /** A listed entry is deleted by the local loop exactly when it is a regular file older than
      RETENTION days, and the loop always runs to the end. */
  lemma LocalRuleIff(listing: seq<LocalEntry>, now: int, n: int, j: nat)
    requires DistinctNames(listing) && j < |listing|
    ensures Run(LocalEntries(listing, now, n)).outcome == Completed
    ensures listing[j].name in Run(LocalEntries(listing, now, n)).deleted <==>
              listing[j].isFile && Age(now, listing[j].ctime) > n
  {
    var es := LocalEntries(listing, now, n);
    LocalPassCompletes(listing, now, n);
    LocalEntryAt(listing, now, n, j);
    RunClosedForm(es);
    RunDeletesExactly(es, j);
  }

  /** When every `createdTime` matches the format, the Drive loop runs to the end and deletes an
      item exactly when it is older than RETENTION days. */
  lemma DriveRuleIff(files: seq<DriveFile>, now: int, n: int, j: nat)
    requires DistinctFileIds(files) && j < |files|
    requires forall k :: 0 <= k < |files| ==> ParseTimestamp(files[k].createdTime).Some?
    ensures Run(DriveEntries(files, now, n)).outcome == Completed
    ensures files[j].id in Run(DriveEntries(files, now, n)).deleted <==>
              Age(now, ParseTimestamp(files[j].createdTime).value) > n
  {
    var es := DriveEntries(files, now, n);
    DriveParsedCompletes(files, now, n);
    DriveEntryAt(files, now, n, j);
    RunClosedForm(es);
    RunDeletesExactly(es, j);
  }

  lemma DriveParsedCompletes(files: seq<DriveFile>, now: int, n: int)
    requires forall k :: 0 <= k < |files| ==> ParseTimestamp(files[k].createdTime).Some?
    ensures StopIndex(DriveEntries(files, now, n), 0) == |files|
  {
    var es := DriveEntries(files, now, n);
    forall j | 0 <= j < |files| ensures es[j].verdict != Raise {
      DriveEntryAt(files, now, n, j);
    }
    StopsAt(es, 0, |files|);
  }

  /** The Drive loop stops at the first item whose `createdTime` does not match the format, and
      deletes nothing listed from there on. */
  lemma DriveStopsAtMalformed(files: seq<DriveFile>, now: int, n: int, k: nat)
    requires DistinctFileIds(files) && k < |files|
    requires ParseTimestamp(files[k].createdTime).None?
    requires forall j :: 0 <= j < k ==> ParseTimestamp(files[j].createdTime).Some?
    ensures Run(DriveEntries(files, now, n)).outcome == Aborted(k)
    ensures forall j :: k <= j < |files| ==> files[j].id !in Run(DriveEntries(files, now, n)).deleted
  {
    var es := DriveEntries(files, now, n);
    forall j | 0 <= j < k ensures es[j].verdict != Raise {
      DriveEntryAt(files, now, n, j);
    }
    DriveEntryAt(files, now, n, k);
    StopsAt(es, 0, k);
    RunClosedForm(es);
    forall j | k <= j < |files| ensures files[j].id !in Run(es).deleted {
      RunDeletesExactly(es, j);
    }
  }

  /** A Drive item created at midnight of day `d`, judged at any `now` during day `today`, reads
      back to that midnight and has as its age the number of calendar days from `d` to `today`:
      the quantity the recency tier of script.py compares with RETENTION. */
  lemma MidnightAge(today: Date, d: Date, now: int)
    requires ValidDate(today) && ValidDate(d)
    requires Instant(today, 0, 0, 0, 0) <= now < Instant(today, 0, 0, 0, 0) + DayMicros
    ensures ParseTimestamp(FormatTimestamp(d, 0, 0, 0, 0)) == Some(Instant(d, 0, 0, 0, 0))
    ensures Age(now, Instant(d, 0, 0, 0, 0)) == ToOrdinal(today) - ToOrdinal(d)
  {
    ParseFormatTimestamp(d, 0, 0, 0, 0);
    var k := ToOrdinal(today) - ToOrdinal(d);
    assert now - Instant(d, 0, 0, 0, 0) == k * DayMicros + (now - Instant(today, 0, 0, 0, 0));
  }
}
