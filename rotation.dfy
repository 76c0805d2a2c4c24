/** What a cleanup pass does with a listing. Every entry gets a verdict from its own data alone;
    the pass walks the listing in order, deletes the entries marked Delete, and stops at the first
    entry whose verdict raises an exception (nothing after it is looked at). */
module Rotation {

  datatype Verdict =
    | Skip    // not a backup the pass recognises; left alone
    | Keep    // a backup the rule keeps
    | Delete  // a backup the rule rejects; removed
    | Raise   // examining the entry raises, which ends the pass

  datatype Outcome = Completed | Aborted(at: nat)

  /** What a pass removed, in the order it removed them, and how it ended. */
  datatype Report = Report(deleted: seq<string>, outcome: Outcome)

  datatype Entry = Entry(id: string, verdict: Verdict)

  predicate DistinctIds(es: seq<Entry>) {
    forall i, j :: 0 <= i < j < |es| ==> es[i].id != es[j].id
  }

  /** The pass from position `i` on. */
  function RunFrom(es: seq<Entry>, i: nat): Report
    requires i <= |es|
    decreases |es| - i
  {
    if i == |es| then Report([], Completed)
    else
      match es[i].verdict
      case Raise => Report([], Aborted(i))
      case Delete =>
        var rest := RunFrom(es, i + 1);
        Report([es[i].id] + rest.deleted, rest.outcome)
      case _ => RunFrom(es, i + 1)
  }

  function Run(es: seq<Entry>): Report {
    RunFrom(es, 0)
  }

  /** What has been deleted once entry `e` has been handled. */
  function Record(done: seq<string>, e: Entry): seq<string> {
    if e.verdict == Delete then done + [e.id] else done
  }

  /** A pass that has deleted `done` before position `i` and will end with `target` still ends with
      `target` once it has handled an entry that does not raise. */
  lemma RunFromStep(es: seq<Entry>, i: nat, done: seq<string>, target: Report)
    requires i < |es| && es[i].verdict != Raise
    requires target == Report(done + RunFrom(es, i).deleted, RunFrom(es, i).outcome)
    ensures target == Report(Record(done, es[i]) + RunFrom(es, i + 1).deleted, RunFrom(es, i + 1).outcome)
  {
    if es[i].verdict == Delete {
      assert done + ([es[i].id] + RunFrom(es, i + 1).deleted) == done + [es[i].id] + RunFrom(es, i + 1).deleted;
    }
  }

  /** The ids a pass has deleted so far, as a set. */
  function Removed(deleted: seq<string>): set<string> {
    set id | id in deleted
  }

  lemma RemovedAppend(deleted: seq<string>, id: string)
    ensures Removed(deleted + [id]) == Removed(deleted) + {id}
  {
  }

  /** The first position at or after `i` whose verdict raises, or the end of the listing. */
  function StopIndex(es: seq<Entry>, i: nat): (k: nat)
    requires i <= |es|
    ensures i <= k <= |es|
    ensures forall j :: i <= j < k ==> es[j].verdict != Raise
    ensures k < |es| ==> es[k].verdict == Raise
    decreases |es| - i
  {
    if i == |es| || es[i].verdict == Raise then i else StopIndex(es, i + 1)
  }

  /** The ids of the entries marked Delete, in listing order. */
  function DeleteIds(es: seq<Entry>): seq<string> {
    if es == [] then []
    else (if es[0].verdict == Delete then [es[0].id] else []) + DeleteIds(es[1..])
  }

  /** Only entries marked Delete are listed, and every one of them is. */
  lemma {:induction false} DeleteIdsMembership(es: seq<Entry>)
    ensures forall j :: 0 <= j < |es| && es[j].verdict == Delete ==> es[j].id in DeleteIds(es)
    ensures forall x :: x in DeleteIds(es) ==>
              exists j :: 0 <= j < |es| && es[j].id == x && es[j].verdict == Delete
  {
    if es != [] {
      DeleteIdsMembership(es[1..]);
      forall x | x in DeleteIds(es)
        ensures exists j :: 0 <= j < |es| && es[j].id == x && es[j].verdict == Delete
      {
        if !(es[0].verdict == Delete && x == es[0].id) {
          var j :| 0 <= j < |es[1..]| && es[1..][j].id == x && es[1..][j].verdict == Delete;
          assert es[j + 1].id == x;
        }
      }
      forall j | 0 <= j < |es| && es[j].verdict == Delete ensures es[j].id in DeleteIds(es) {
        if j > 0 {
          assert es[1..][j - 1] == es[j];
        }
      }
    }
  }

  /** A pass deletes exactly the Delete entries before the first raising one, in listing order,
      and is aborted exactly when some entry raises. */
  lemma {:induction false} RunFromClosedForm(es: seq<Entry>, i: nat)
    requires i <= |es|
    ensures RunFrom(es, i).deleted == DeleteIds(es[i..StopIndex(es, i)])
    ensures RunFrom(es, i).outcome ==
              if StopIndex(es, i) < |es| then Aborted(StopIndex(es, i)) else Completed
    decreases |es| - i
  {
    var k := StopIndex(es, i);
    if i < |es| && es[i].verdict != Raise {
      RunFromClosedForm(es, i + 1);
      assert es[i..k][1..] == es[i + 1..k];
    }
  }

  lemma RunClosedForm(es: seq<Entry>)
    ensures Run(es).deleted == DeleteIds(es[..StopIndex(es, 0)])
    ensures Run(es).outcome == if StopIndex(es, 0) < |es| then Aborted(StopIndex(es, 0)) else Completed
  {
    RunFromClosedForm(es, 0);
    assert es[0..StopIndex(es, 0)] == es[..StopIndex(es, 0)];
  }

  /** With distinct ids, an entry is deleted exactly when it comes before the first raising entry
      and is marked Delete. */
  lemma RunDeletesExactly(es: seq<Entry>, j: nat)
    requires DistinctIds(es) && j < |es|
    ensures es[j].id in Run(es).deleted <==> j < StopIndex(es, 0) && es[j].verdict == Delete
  {
    var k := StopIndex(es, 0);
    RunClosedForm(es);
    DeleteIdsMembership(es[..k]);
    if j < k && es[j].verdict == Delete {
      assert es[..k][j] == es[j];
    }
    if es[j].id in Run(es).deleted {
      var i :| 0 <= i < k && es[..k][i].id == es[j].id && es[..k][i].verdict == Delete;
      assert es[i].id == es[j].id;
    }
  }

  /** A pass that completed leaves nothing for a second pass with the same verdicts: whatever the
      remaining entries and their order, the second pass deletes nothing and completes. */
  lemma RunIdempotent(es: seq<Entry>, again: seq<Entry>)
    requires Run(es).outcome == Completed
    requires forall e :: e in again ==> e in es && e.id !in Run(es).deleted
    ensures Run(again) == Report([], Completed)
  {
    var k := StopIndex(es, 0);
    RunClosedForm(es);
    assert k == |es| && es[..k] == es;
    DeleteIdsMembership(es);
    forall j | 0 <= j < |again| ensures again[j].verdict == Skip || again[j].verdict == Keep {
      assert again[j] in again;
    }
    NothingToDo(again, 0);
  }

  /** The pass stops at `k` when `k` raises and nothing between `i` and `k` does. */
  lemma {:induction false} StopsAt(es: seq<Entry>, i: nat, k: nat)
    requires i <= k <= |es|
    requires forall j :: i <= j < k ==> es[j].verdict != Raise
    requires k < |es| ==> es[k].verdict == Raise
    ensures StopIndex(es, i) == k
    decreases k - i
  {
    if i < k {
      StopsAt(es, i + 1, k);
    }
  }

  lemma {:induction false} NothingToDo(es: seq<Entry>, i: nat)
    requires i <= |es|
    requires forall j :: 0 <= j < |es| ==> es[j].verdict == Skip || es[j].verdict == Keep
    ensures RunFrom(es, i) == Report([], Completed)
    decreases |es| - i
  {
    if i < |es| {
      NothingToDo(es, i + 1);
    }
  }
}
