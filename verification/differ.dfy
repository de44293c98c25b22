/**
 The differ: compares the stored snapshot with a fresh one and sorts every
 path whose presence or hash differs into exactly one of three categories.
 */
module Differ {
  import opened Snapshots

  /** The two hashes of a modified file. */
  datatype HashPair = HashPair(oldHash: Hash, newHash: Hash)

  /** The change report. */
  datatype ChangeSet = ChangeSet(
    modified: map<Path, HashPair>,
    added: map<Path, Hash>,
    deleted: map<Path, Hash>)

  /**
   The report is worth acting on: some category is a non-empty map. A
   report is non-empty exactly when some path is filed in it.
   */
  predicate HasChanges(c: ChangeSet)
    ensures HasChanges(c) <==> exists p :: p in c.modified || p in c.added || p in c.deleted
  {
    c.modified != map[] || c.added != map[] || c.deleted != map[]
  }

  /** `p` is in both snapshots, with different hashes. */
  ghost predicate IsModified(oldHashes: Snapshot, newHashes: Snapshot, p: Path) {
    p in oldHashes && p in newHashes && oldHashes[p] != newHashes[p]
  }

  /** `p` is only in the new snapshot. */
  ghost predicate IsAdded(oldHashes: Snapshot, newHashes: Snapshot, p: Path) {
    p !in oldHashes && p in newHashes
  }

  /** `p` is only in the old snapshot. */
  ghost predicate IsDeleted(oldHashes: Snapshot, newHashes: Snapshot, p: Path) {
    p in oldHashes && p !in newHashes
  }

  /** The paths whose presence or hash differs between the two snapshots. */
  ghost function ChangedPaths(oldHashes: Snapshot, newHashes: Snapshot): set<Path> {
    set p | p in oldHashes.Keys + newHashes.Keys
      && (p !in oldHashes || p !in newHashes || oldHashes[p] != newHashes[p])
  }

  /**
   `c` is a correct report of the change from `oldHashes` to `newHashes`:
   each category holds exactly the paths of its kind, each with the hashes
   the snapshots give it.
   */
  ghost predicate Classifies(oldHashes: Snapshot, newHashes: Snapshot, c: ChangeSet) {
    && (forall p :: p in c.modified ==>
          IsModified(oldHashes, newHashes, p) && c.modified[p] == HashPair(oldHashes[p], newHashes[p]))
    && (forall p :: IsModified(oldHashes, newHashes, p) ==> p in c.modified)
    && (forall p :: p in c.added ==> IsAdded(oldHashes, newHashes, p) && c.added[p] == newHashes[p])
    && (forall p :: IsAdded(oldHashes, newHashes, p) ==> p in c.added)
    && (forall p :: p in c.deleted ==> IsDeleted(oldHashes, newHashes, p) && c.deleted[p] == oldHashes[p])
    && (forall p :: IsDeleted(oldHashes, newHashes, p) ==> p in c.deleted)
  }

  /** The change report as one pure value, used by a run of the checker. */
  function Diff(oldHashes: Snapshot, newHashes: Snapshot): (c: ChangeSet)
    ensures Classifies(oldHashes, newHashes, c)
  {
    ChangeSet(
      map p | p in newHashes && p in oldHashes && oldHashes[p] != newHashes[p]
        :: HashPair(oldHashes[p], newHashes[p]),
      map p | p in newHashes && p !in oldHashes :: newHashes[p],
      map p | p in oldHashes && p !in newHashes :: oldHashes[p])
  }

  /**
   The differ as two passes: one over the new snapshot that files each
   path as modified (present before, with another hash) or added (absent
   before), then one over the old snapshot that files each path missing
   from the new one as deleted. A path with an unchanged hash is skipped.
   */
  method CompareHashes(oldHashes: Snapshot, newHashes: Snapshot) returns (c: ChangeSet)
    ensures Classifies(oldHashes, newHashes, c)
    ensures c == Diff(oldHashes, newHashes)
  {
    var modified: map<Path, HashPair> := map[];
    var added: map<Path, Hash> := map[];
    var deleted: map<Path, Hash> := map[];

    var todo := newHashes.Keys;
    while todo != {}
      invariant todo <= newHashes.Keys
      invariant forall p :: p in modified ==>
        p !in todo && IsModified(oldHashes, newHashes, p) && modified[p] == HashPair(oldHashes[p], newHashes[p])
      invariant forall p :: IsModified(oldHashes, newHashes, p) && p !in todo ==> p in modified
      invariant forall p :: p in added ==> p !in todo && IsAdded(oldHashes, newHashes, p) && added[p] == newHashes[p]
      invariant forall p :: IsAdded(oldHashes, newHashes, p) && p !in todo ==> p in added
      decreases todo
    {
      var p :| p in todo;
      if p in oldHashes {
        if oldHashes[p] != newHashes[p] {
          modified := modified[p := HashPair(oldHashes[p], newHashes[p])];
        }
      } else {
        added := added[p := newHashes[p]];
      }
      todo := todo - {p};
    }

    todo := oldHashes.Keys;
    while todo != {}
      invariant todo <= oldHashes.Keys
      invariant forall p :: p in deleted ==> p !in todo && IsDeleted(oldHashes, newHashes, p) && deleted[p] == oldHashes[p]
      invariant forall p :: IsDeleted(oldHashes, newHashes, p) && p !in todo ==> p in deleted
      decreases todo
    {
      var p :| p in todo;
      if p !in newHashes {
        deleted := deleted[p := oldHashes[p]];
      }
      todo := todo - {p};
    }

    c := ChangeSet(modified, added, deleted);
    ClassifiesUnique(oldHashes, newHashes, c, Diff(oldHashes, newHashes));
  }

  /** The report is determined by the two snapshots: there is only one correct report. */
  lemma ClassifiesUnique(oldHashes: Snapshot, newHashes: Snapshot, c: ChangeSet, d: ChangeSet)
    requires Classifies(oldHashes, newHashes, c)
    requires Classifies(oldHashes, newHashes, d)
    ensures c == d
  {
  }

  /** A path is filed under at most one category. */
  lemma CategoriesDisjoint(oldHashes: Snapshot, newHashes: Snapshot, c: ChangeSet)
    requires Classifies(oldHashes, newHashes, c)
    ensures c.modified.Keys !! c.added.Keys
    ensures c.modified.Keys !! c.deleted.Keys
    ensures c.added.Keys !! c.deleted.Keys
  {
  }

  /**
   The three categories together hold exactly the paths whose presence or
   hash differs; in particular a path with an unchanged hash is in none.
   */
  lemma CategoriesCoverChanges(oldHashes: Snapshot, newHashes: Snapshot, c: ChangeSet)
    requires Classifies(oldHashes, newHashes, c)
    ensures c.modified.Keys + c.added.Keys + c.deleted.Keys == ChangedPaths(oldHashes, newHashes)
    ensures forall p :: p in oldHashes && p in newHashes && oldHashes[p] == newHashes[p] ==>
      p !in c.modified && p !in c.added && p !in c.deleted
  {
  }

  /** The report is empty iff the two snapshots are equal. */
  lemma NoChangesIffEqual(oldHashes: Snapshot, newHashes: Snapshot, c: ChangeSet)
    requires Classifies(oldHashes, newHashes, c)
    ensures !HasChanges(c) <==> oldHashes == newHashes
  {
  }

  /** The first run: against an empty baseline every scanned file is added. */
  lemma FirstRun(newHashes: Snapshot)
    ensures Diff(map[], newHashes) == ChangeSet(map[], newHashes, map[])
  {
  }

  /** A vanished or emptied directory: every stored file is deleted. */
  lemma EverythingDeleted(oldHashes: Snapshot)
    ensures Diff(oldHashes, map[]) == ChangeSet(map[], map[], oldHashes)
  {
  }

  /** The new snapshot, rebuilt from the old one and the report. */
  function Patch(oldHashes: Snapshot, c: ChangeSet): Snapshot {
    map p | p in (oldHashes.Keys - c.deleted.Keys) + c.added.Keys + c.modified.Keys ::
      if p in c.modified then c.modified[p].newHash
      else if p in c.added then c.added[p]
      else oldHashes[p]
  }

  /** The old snapshot, rebuilt from the new one and the report. */
  function Revert(newHashes: Snapshot, c: ChangeSet): Snapshot {
    map p | p in (newHashes.Keys - c.added.Keys) + c.deleted.Keys + c.modified.Keys ::
      if p in c.modified then c.modified[p].oldHash
      else if p in c.deleted then c.deleted[p]
      else newHashes[p]
  }

  /** The report loses nothing: applying it to the old snapshot gives the new one. */
  lemma PatchGivesNew(oldHashes: Snapshot, newHashes: Snapshot, c: ChangeSet)
    requires Classifies(oldHashes, newHashes, c)
    ensures Patch(oldHashes, c) == newHashes
  {
  }

  /** The report loses nothing: undoing it on the new snapshot gives the old one. */
  lemma RevertGivesOld(oldHashes: Snapshot, newHashes: Snapshot, c: ChangeSet)
    requires Classifies(oldHashes, newHashes, c)
    ensures Revert(newHashes, c) == oldHashes
  {
  }
}
