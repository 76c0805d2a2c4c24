/** The loop every cleanup pass runs over a listing: ask each entry for its verdict in listing
    order, delete the entry when the verdict says so, and stop at the first entry whose verdict
    raises. `decide` is the body of the pass's `for` loop and `es` the listing with the verdicts
    `decide` gives; the loop computes them one entry at a time. */
module Sweep {
  import opened Rotation
  import opened Storage

  /** A pass over the local backup directory; `name` is the entry's file name. */
  method SweepDirectory<T>(dir: LocalDirectory, items: seq<T>, name: T -> string, decide: T --> Verdict,
                           ghost es: seq<Entry>)
    returns (report: Report)
    requires forall x :: decide.requires(x)
    requires |es| == |items| && forall k :: 0 <= k < |items| ==> es[k] == Entry(name(items[k]), decide(items[k]))
    requires dir.present && DistinctIds(es) && forall k :: 0 <= k < |es| ==> es[k].id in dir.names
    modifies dir
    ensures report == Run(es)
    ensures dir.present && dir.names == old(dir.names) - Removed(report.deleted)
  {
    var deleted: seq<string> := [];
    var i := 0;
    while i < |items|
      invariant 0 <= i <= |items|
      invariant dir.present
      invariant Run(es) == Report(deleted + RunFrom(es, i).deleted, RunFrom(es, i).outcome)
      invariant dir.names == old(dir.names) - Removed(deleted)
      invariant forall k :: i <= k < |es| ==> es[k].id in dir.names
    {
      var verdict := decide(items[i]);
      if verdict == Raise {
        return Report(deleted, Aborted(i));
      }
      RunFromStep(es, i, deleted, Run(es));
      if verdict == Delete {
        dir.Remove(name(items[i]));
        RemovedAppend(deleted, name(items[i]));
        deleted := deleted + [name(items[i])];
      }
      i := i + 1;
    }
    report := Report(deleted, Completed);
  }

  /** A pass over the Drive folder's listing. */
  method SweepFolder(folder: DriveFolder, files: seq<DriveFile>, decide: DriveFile --> Verdict,
                     ghost es: seq<Entry>)
    returns (report: Report)
    requires forall f :: decide.requires(f)
    requires |es| == |files| && forall k :: 0 <= k < |files| ==> es[k] == Entry(files[k].id, decide(files[k]))
    requires DistinctIds(es) && forall k :: 0 <= k < |es| ==> es[k].id in folder.ids
    modifies folder
    ensures report == Run(es)
    ensures folder.ids == old(folder.ids) - Removed(report.deleted)
  {
    var deleted: seq<string> := [];
    var i := 0;
    while i < |files|
      invariant 0 <= i <= |files|
      invariant Run(es) == Report(deleted + RunFrom(es, i).deleted, RunFrom(es, i).outcome)
      invariant folder.ids == old(folder.ids) - Removed(deleted)
      invariant forall k :: i <= k < |es| ==> es[k].id in folder.ids
    {
      var verdict := decide(files[i]);
      if verdict == Raise {
        return Report(deleted, Aborted(i));
      }
      RunFromStep(es, i, deleted, Run(es));
      if verdict == Delete {
        folder.Delete(files[i].id);
        RemovedAppend(deleted, files[i].id);
        deleted := deleted + [files[i].id];
      }
      i := i + 1;
    }
    report := Report(deleted, Completed);
  }
}
