/**
 Paths, hashes and snapshots: the values every component of the change
 checker passes around, the errors that abort a run, and the snapshot store.

 A path and a hash are opaque strings. The hash of a file is computed by a
 digest over its bytes, which is not part of this model: the scanner
 receives hashes as already computed values.
 */
module Snapshots {

  type Path = string
  type Hash = string

  /** A snapshot maps every regular file seen by one scan to its hash. */
  type Snapshot = map<Path, Hash>

  /** The errors that abort a run of the checker. */
  datatype Error =
    | FileReadError(path: Path)   // a file could not be read to the end while hashing it
    | CorruptSnapshot             // the stored snapshot exists but cannot be parsed

  /** The outcome of an operation that may fail with an `Error`. */
  datatype Result<+T> = Success(value: T) | Failure(error: Error)

  /** What the snapshot store holds on disk, as seen by the loader. */
  datatype StoreFile =
    | Absent                      // no snapshot has been saved yet
    | Present(snapshot: Snapshot) // a snapshot saved by an earlier run
    | Corrupt                     // a file exists but does not decode to a snapshot

  /** Loading the stored baseline: an absent store reads as the empty snapshot. */
  function Load(store: StoreFile): (r: Result<Snapshot>)
    ensures r.Failure? <==> store.Corrupt?
    ensures store.Absent? ==> r == Success(map[])
    ensures store.Present? ==> r == Success(store.snapshot)
  {
    match store
    case Absent => Success(map[])
    case Present(s) => Success(s)
    case Corrupt => Failure(CorruptSnapshot)
  }

  /** Saving replaces the stored baseline wholesale. */
  function Save(s: Snapshot): (store: StoreFile)
    ensures Load(store) == Success(s)
  {
    Present(s)
  }
}
