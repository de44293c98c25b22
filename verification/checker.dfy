/**
 One run of the checker: load the stored baseline, scan the directory,
 compare, and save the scan as the new baseline only when the comparison
 found a change. Reading the configured directory and printing the report
 are not part of this model.
 */
module Checker {
  import opened Snapshots
  import opened Differ
  import opened Scanner

  /**
   What a run reports, whether it invoked the save, and what the store
   holds afterwards.
   */
  datatype RunResult = RunResult(report: Result<ChangeSet>, saved: bool, store: StoreFile)

  /**
   A run against the store `store`, whose scan's tasks completed with
   `outcomes`. The baseline is loaded before the scan, so an unreadable
   baseline is reported even when the scan would fail too. The save is
   invoked only for a successful run whose report is non-empty; every
   other run leaves the store as it was.
   */
  function Run(store: StoreFile, outcomes: seq<HashOutcome>): (r: RunResult)
    ensures r.report.Failure? ==> r.store == store
    ensures r.report.Failure? <==> Load(store).Failure? || Scan(outcomes).Failure?
    ensures Load(store).Failure? ==> r.report == Failure(CorruptSnapshot)
    ensures Load(store).Success? && Scan(outcomes).Failure? ==> r.report == Failure(Scan(outcomes).error)
    ensures r.saved <==> r.report.Success? && HasChanges(r.report.value)
    ensures r.saved ==> r.store == Save(Scan(outcomes).value)
    ensures !r.saved ==> r.store == store
    ensures r.report.Success? ==>
      Classifies(Load(store).value, Scan(outcomes).value, r.report.value)
    ensures r.report.Success? ==> Load(r.store) == Scan(outcomes)
    ensures r.report.Success? ==> (r.store == store <==> !HasChanges(r.report.value))
  {
    match Load(store)
    case Failure(e) => RunResult(Failure(e), false, store)
    case Success(oldHashes) =>
      match Scan(outcomes)
      case Failure(e) => RunResult(Failure(e), false, store)
      case Success(newHashes) =>
        var changes := Diff(oldHashes, newHashes);
        NoChangesIffEqual(oldHashes, newHashes, changes);
        if HasChanges(changes) then RunResult(Success(changes), true, Save(newHashes))
        else RunResult(Success(changes), false, store)
  }

  /**
   A second run over the same task outcomes reports nothing, does not
   save, and leaves the store as the first run left it. The store is a
   value apart from the outcomes, so this is the rerun of a directory that
   does not contain the store file.
   */
  lemma RerunReportsNothing(store: StoreFile, outcomes: seq<HashOutcome>)
    requires !store.Corrupt? && AllHashed(outcomes)
    ensures Run(Run(store, outcomes).store, outcomes).report.Success?
    ensures !Run(Run(store, outcomes).store, outcomes).saved
    ensures !HasChanges(Run(Run(store, outcomes).store, outcomes).report.value)
    ensures Run(Run(store, outcomes).store, outcomes).store == Run(store, outcomes).store
  {
  }

  /** The first run: nothing stored, and every scanned file is reported as added. */
  lemma FirstRunScenario()
    ensures Run(Absent, [Hashed("a.txt", "h1"), Hashed("b.txt", "h2")])
      == RunResult(Success(ChangeSet(map[], map["a.txt" := "h1", "b.txt" := "h2"], map[])),
                   true, Present(map["a.txt" := "h1", "b.txt" := "h2"]))
  {
    var outcomes := [Hashed("a.txt", "h1"), Hashed("b.txt", "h2")];
    var scanned := map["a.txt" := "h1", "b.txt" := "h2"];
    assert Scan(outcomes) == Success(scanned);
    FirstRun(scanned);
    assert HasChanges(Diff(map[], scanned)) by {
      assert "a.txt" in Diff(map[], scanned).added;
    }
  }

  /** An unchanged directory: the report is empty and nothing is saved. */
  lemma NoOpScenario()
    ensures Run(Present(map["a.txt" := "h1"]), [Hashed("a.txt", "h1")])
      == RunResult(Success(ChangeSet(map[], map[], map[])), false, Present(map["a.txt" := "h1"]))
  {
  }

  /** One file modified, one added, one unchanged. */
  lemma MixedScenario()
    ensures Diff(map["a.txt" := "h1", "b.txt" := "h2"],
                 map["a.txt" := "h1", "b.txt" := "h9", "c.txt" := "h3"])
      == ChangeSet(map["b.txt" := HashPair("h2", "h9")], map["c.txt" := "h3"], map[])
  {
  }

  /** The only file is gone: it is reported as deleted. */
  lemma DeletionScenario()
    ensures Diff(map["a.txt" := "h1"], map[]) == ChangeSet(map[], map[], map["a.txt" := "h1"])
  {
  }

  /** A scan in which one file cannot be read fails, and the store keeps the old baseline. */
  lemma FailureScenario(store: StoreFile)
    requires !store.Corrupt?
    ensures Run(store, [Hashed("a.txt", "h1"), ReadFailed("b.txt"), Hashed("c.txt", "h3")])
      == RunResult(Failure(FileReadError("b.txt")), false, store)
  {
  }
}
