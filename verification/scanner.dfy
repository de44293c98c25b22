/**
 The scanner's collection step: hashing tasks finish in some order, and
 their results are inserted one by one into the snapshot. Walking the
 directory tree, scheduling the tasks on a thread pool and hashing the
 bytes happen outside this model; what arrives here is the sequence of
 task outcomes in the order `as_completed` yields them: first the tasks
 already finished when the loop starts, in no specified order, then the
 rest as they finish.
 */
module Scanner {
  import opened Snapshots

  /** The outcome of one hashing task. */
  datatype HashOutcome =
    | Hashed(path: Path, hash: Hash)
    | ReadFailed(path: Path)

  /** The set of paths named by a sequence of (path, hash) results. */
  function PathsOf(results: seq<(Path, Hash)>): set<Path> {
    set i | 0 <= i < |results| :: results[i].0
  }

  /** No path is named by two results. */
  ghost predicate DistinctPaths(results: seq<(Path, Hash)>) {
    forall i, j :: 0 <= i < j < |results| ==> results[i].0 != results[j].0
  }

  /**
   Inserting the results, in order, into `acc`, as dictionary assignments
   do: a later result for a path overwrites an earlier one (see
   `CollectLastWins`).
   */
  function Collect(acc: Snapshot, results: seq<(Path, Hash)>): (m: Snapshot)
    ensures m.Keys == acc.Keys + PathsOf(results)
    ensures forall p :: p in acc && p !in PathsOf(results) ==> m[p] == acc[p]
    decreases |results|
  {
    if |results| == 0 then acc
    else
      var m := Collect(acc[results[0].0 := results[0].1], results[1..]);
      assert PathsOf(results) == {results[0].0} + PathsOf(results[1..]) by {
        forall p | p in PathsOf(results) ensures p in {results[0].0} + PathsOf(results[1..]) {
          var i :| 0 <= i < |results| && results[i].0 == p;
          if i > 0 { assert results[1..][i - 1].0 == p; }
        }
      }
      m
  }

  /**
   Last write wins: a result that no later result overwrites, because no
   later result names its path, is the entry stored under its path.
   */
  lemma {:induction false} CollectLastWins(acc: Snapshot, results: seq<(Path, Hash)>, i: int)
    requires 0 <= i < |results|
    requires forall j :: i < j < |results| ==> results[j].0 != results[i].0
    ensures Collect(acc, results)[results[i].0] == results[i].1
    decreases |results|
  {
    var rest := results[1..];
    var acc' := acc[results[0].0 := results[0].1];
    if i == 0 {
      assert results[0].0 !in PathsOf(rest) by {
        forall k | 0 <= k < |rest| ensures rest[k].0 != results[0].0 {
          assert rest[k] == results[k + 1];
        }
      }
    } else {
      forall j | i - 1 < j < |rest| ensures rest[j].0 != rest[i - 1].0 {
        assert rest[j] == results[j + 1] && rest[i - 1] == results[i];
      }
      CollectLastWins(acc', rest, i - 1);
      assert rest[i - 1] == results[i];
    }
  }

  /** With distinct paths, each result's hash is the one stored under its path. */
  lemma CollectHasEntry(acc: Snapshot, results: seq<(Path, Hash)>, i: int)
    requires DistinctPaths(results)
    requires 0 <= i < |results|
    ensures Collect(acc, results)[results[i].0] == results[i].1
  {
    CollectLastWins(acc, results, i);
  }

  /** A path-distinct sequence holds each result at most once. */
  lemma {:induction false} DistinctCountAtMostOne(results: seq<(Path, Hash)>, x: (Path, Hash))
    requires DistinctPaths(results)
    ensures multiset(results)[x] <= 1
    decreases |results|
  {
    if |results| > 0 {
      var n := |results| - 1;
      var front := results[..n];
      assert results == front + [results[n]];
      assert DistinctPaths(front) by {
        forall a, b | 0 <= a < b < |front| ensures front[a].0 != front[b].0 {
          assert front[a] == results[a] && front[b] == results[b];
        }
      }
      DistinctCountAtMostOne(front, x);
      if results[n] == x {
        forall k | 0 <= k < |front| ensures front[k] != x {
          assert front[k] == results[k];
        }
        assert x !in multiset(front);
      }
    }
  }

  /** A result that occurs at two positions occurs at least twice. */
  lemma RepeatedCountsTwice(results: seq<(Path, Hash)>, i: int, j: int)
    requires 0 <= i < j < |results|
    requires results[i] == results[j]
    ensures multiset(results)[results[i]] >= 2
  {
    var x := results[i];
    assert results == results[..i] + [x] + results[i + 1..j] + [x] + results[j + 1..];
  }

  /** Reordering a path-distinct sequence keeps its paths distinct. */
  lemma PermutationKeepsDistinct(a: seq<(Path, Hash)>, b: seq<(Path, Hash)>)
    requires DistinctPaths(a)
    requires multiset(a) == multiset(b)
    ensures DistinctPaths(b)
  {
    forall i, j | 0 <= i < j < |b| ensures b[i].0 != b[j].0 {
      if b[i] == b[j] {
        RepeatedCountsTwice(b, i, j);
        DistinctCountAtMostOne(a, b[i]);
      } else {
        assert b[i] in multiset(a) && b[j] in multiset(a);
        var k :| 0 <= k < |a| && a[k] == b[i];
        var l :| 0 <= l < |a| && a[l] == b[j];
        if k < l {
          assert a[k].0 != a[l].0;
        } else {
          assert a[l].0 != a[k].0;
        }
      }
    }
  }

  /** Reordering results keeps the set of paths they name. */
  lemma PermutationKeepsPaths(a: seq<(Path, Hash)>, b: seq<(Path, Hash)>)
    requires multiset(a) == multiset(b)
    ensures PathsOf(a) == PathsOf(b)
  {
    forall p | p in PathsOf(a) ensures p in PathsOf(b) {
      var i :| 0 <= i < |a| && a[i].0 == p;
      assert a[i] in multiset(b);
    }
    forall p | p in PathsOf(b) ensures p in PathsOf(a) {
      var i :| 0 <= i < |b| && b[i].0 == p;
      assert b[i] in multiset(a);
    }
  }

  /** A result of `a` is also collected from any path-distinct reordering `b` of `a`. */
  lemma PermutedEntry(a: seq<(Path, Hash)>, b: seq<(Path, Hash)>, i: int)
    requires DistinctPaths(b)
    requires multiset(a) == multiset(b)
    requires 0 <= i < |a|
    ensures a[i].0 in Collect(map[], b) && Collect(map[], b)[a[i].0] == a[i].1
  {
    assert a[i] in multiset(b);
    var j :| 0 <= j < |b| && b[j] == a[i];
    CollectHasEntry(map[], b, j);
  }

  /**
   The collected snapshot does not depend on the order results arrive in: any
   reordering of results with distinct paths gives the same snapshot.
   */
  lemma CollectOrderIndependent(a: seq<(Path, Hash)>, b: seq<(Path, Hash)>)
    requires DistinctPaths(a)
    requires multiset(a) == multiset(b)
    ensures Collect(map[], a) == Collect(map[], b)
  {
    PermutationKeepsDistinct(a, b);
    PermutationKeepsPaths(a, b);
    var ma, mb := Collect(map[], a), Collect(map[], b);
    assert ma.Keys == mb.Keys;
    forall p | p in ma ensures ma[p] == mb[p] {
      var i :| 0 <= i < |a| && a[i].0 == p;
      CollectHasEntry(map[], a, i);
      PermutedEntry(a, b, i);
    }
  }

  /** Every task of the scan produced a hash. */
  predicate AllHashed(outcomes: seq<HashOutcome>) {
    forall i :: 0 <= i < |outcomes| ==> outcomes[i].Hashed?
  }

  /**
   The task that could not read `path` is the first failure in the order
   the outcomes are yielded: every task yielded before it produced a hash.
   */
  ghost predicate FailsFirstAt(outcomes: seq<HashOutcome>, path: Path) {
    exists i :: 0 <= i < |outcomes| && outcomes[i] == ReadFailed(path) && AllHashed(outcomes[..i])
  }

  /** The (path, hash) results of a scan in which every task succeeded. */
  function Results(outcomes: seq<HashOutcome>): (rs: seq<(Path, Hash)>)
    requires AllHashed(outcomes)
    ensures |rs| == |outcomes|
  {
    if |outcomes| == 0 then []
    else
      assert forall i :: 0 <= i < |outcomes| - 1 ==> outcomes[1..][i] == outcomes[i + 1];
      [(outcomes[0].path, outcomes[0].hash)] + Results(outcomes[1..])
  }

  /** The `i`th result is the path and hash of the `i`th task. */
  lemma {:induction false} ResultsAt(outcomes: seq<HashOutcome>, i: int)
    requires AllHashed(outcomes)
    requires 0 <= i < |outcomes|
    ensures Results(outcomes)[i] == (outcomes[i].path, outcomes[i].hash)
    decreases |outcomes|
  {
    if i > 0 {
      assert outcomes[1..][i - 1] == outcomes[i];
      ResultsAt(outcomes[1..], i - 1);
    }
  }

  /**
   Collecting outcomes, in the order they are yielded, into `acc`. The
   first failed task in that order aborts the whole scan: its error is the
   result, and no snapshot built from the other tasks escapes. This covers
   failures of hashing tasks only; a directory the walk cannot list yields
   no tasks at all and is not a failure here.
   */
  function ScanFrom(acc: Snapshot, outcomes: seq<HashOutcome>): (r: Result<Snapshot>)
    ensures r.Success? <==> AllHashed(outcomes)
    ensures r.Success? ==> r.value == Collect(acc, Results(outcomes))
    ensures r.Failure? ==> r.error.FileReadError? && FailsFirstAt(outcomes, r.error.path)
    decreases |outcomes|
  {
    if |outcomes| == 0 then Success(acc)
    else match outcomes[0]
      case ReadFailed(p) =>
        assert outcomes[..0] == [];
        Failure(FileReadError(p))
      case Hashed(p, h) =>
        var r := ScanFrom(acc[p := h], outcomes[1..]);
        assert AllHashed(outcomes) <==> AllHashed(outcomes[1..]) by {
          if AllHashed(outcomes[1..]) {
            forall i | 0 <= i < |outcomes| ensures outcomes[i].Hashed? {
              if i > 0 { assert outcomes[1..][i - 1] == outcomes[i]; }
            }
          }
        }
        if r.Success? then
          r
        else
          assert FailsFirstAt(outcomes, r.error.path) by {
            var i :| 0 <= i < |outcomes[1..]| && outcomes[1..][i] == ReadFailed(r.error.path)
              && AllHashed(outcomes[1..][..i]);
            assert outcomes[..i + 1] == [outcomes[0]] + outcomes[1..][..i];
            assert outcomes[i + 1] == ReadFailed(r.error.path);
          }
          r
  }

  /**
   The snapshot a scan builds from its task outcomes, or the error of the
   first task, in the order the outcomes are yielded, that could not read
   its file.
   */
  function Scan(outcomes: seq<HashOutcome>): (r: Result<Snapshot>)
    ensures r.Success? <==> AllHashed(outcomes)
    ensures r.Success? ==> r.value == Collect(map[], Results(outcomes))
    ensures r.Success? ==> r.value.Keys == set i | 0 <= i < |outcomes| :: outcomes[i].path
    ensures r.Failure? ==> r.error.FileReadError? && FailsFirstAt(outcomes, r.error.path)
  {
    var r := ScanFrom(map[], outcomes);
    if r.Success? then
      assert PathsOf(Results(outcomes)) == set i | 0 <= i < |outcomes| :: outcomes[i].path by {
        forall i | 0 <= i < |outcomes| ensures Results(outcomes)[i].0 == outcomes[i].path {
          ResultsAt(outcomes, i);
        }
      }
      r
    else r
  }

  /** Each task of the scan hashes a different file. */
  ghost predicate DistinctFiles(outcomes: seq<HashOutcome>) {
    forall i, j :: 0 <= i < j < |outcomes| ==> outcomes[i].path != outcomes[j].path
  }

  /** The results of two consecutive stretches of a successful scan. */
  lemma {:induction false} ResultsAppend(x: seq<HashOutcome>, y: seq<HashOutcome>)
    requires AllHashed(x + y)
    ensures AllHashed(x) && AllHashed(y)
    ensures Results(x + y) == Results(x) + Results(y)
    decreases |x|
  {
    forall i | 0 <= i < |x| ensures x[i].Hashed? {
      assert x[i] == (x + y)[i];
    }
    forall i | 0 <= i < |y| ensures y[i].Hashed? {
      assert y[i] == (x + y)[|x| + i];
    }
    if |x| > 0 {
      var head := [(x[0].path, x[0].hash)];
      assert (x + y)[0] == x[0];
      assert (x + y)[1..] == x[1..] + y;
      ResultsAppend(x[1..], y);
      assert Results(x + y) == head + Results(x[1..] + y);
      assert Results(x) == head + Results(x[1..]);
      assert head + (Results(x[1..]) + Results(y)) == (head + Results(x[1..])) + Results(y);
    } else {
      assert x + y == y;
    }
  }

  /** Taking one element out of each of two permuted sequences leaves permutations. */
  lemma RemoveMatching(a: seq<HashOutcome>, b: seq<HashOutcome>, k: int)
    requires |a| > 0 && 0 <= k < |b| && b[k] == a[0]
    requires multiset(a) == multiset(b)
    ensures multiset(a[1..]) == multiset(b[..k] + b[k + 1..])
  {
    var x, rest, front, back := a[0], a[1..], b[..k], b[k + 1..];
    assert a == [x] + rest;
    assert b == front + [x] + back;
    var ma, mb := multiset(rest), multiset(front + back);
    assert multiset(a) == ma + multiset{x};
    assert multiset(b) == mb + multiset{x};
    assert ma == mb by {
      forall y ensures ma[y] == mb[y] {
        assert (ma + multiset{x})[y] == (mb + multiset{x})[y];
      }
    }
  }

  /** Reordering the outcomes of a scan in which every task succeeded keeps it so. */
  lemma PermutationKeepsAllHashed(a: seq<HashOutcome>, b: seq<HashOutcome>)
    requires AllHashed(a)
    requires multiset(a) == multiset(b)
    ensures AllHashed(b)
  {
    forall i | 0 <= i < |b| ensures b[i].Hashed? {
      assert b[i] in multiset(a);
    }
  }

  /** Taking one task out of a successful scan takes its result out of the results. */
  lemma ResultsWithout(front: seq<HashOutcome>, x: HashOutcome, back: seq<HashOutcome>)
    requires x.Hashed?
    requires AllHashed(front + [x] + back)
    ensures AllHashed(front + back)
      && multiset(Results(front + [x] + back))
         == multiset(Results([x])) + multiset(Results(front + back))
  {
    ResultsAppend(front + [x], back);
    ResultsAppend(front, [x]);
    forall i | 0 <= i < |front + back| ensures (front + back)[i].Hashed? {
      if i < |front| {
        assert (front + back)[i] == front[i];
      } else {
        assert (front + back)[i] == back[i - |front|];
      }
    }
    ResultsAppend(front, back);
    var rf, rx, rb := Results(front), Results([x]), Results(back);
    assert Results(front + [x] + back) == rf + rx + rb;
    assert Results(front + back) == rf + rb;
  }

  /** Reordering the outcomes of a successful scan reorders its results the same way. */
  lemma {:induction false} ResultsPermute(a: seq<HashOutcome>, b: seq<HashOutcome>)
    requires AllHashed(a)
    requires multiset(a) == multiset(b)
    ensures AllHashed(b)
    ensures multiset(Results(a)) == multiset(Results(b))
    decreases |a|
  {
    PermutationKeepsAllHashed(a, b);
    if |a| > 0 {
      var x := a[0];
      assert x in multiset(b);
      var k :| 0 <= k < |b| && b[k] == x;
      var a', front, back := a[1..], b[..k], b[k + 1..];
      RemoveMatching(a, b, k);
      assert a == [x] + a';
      ResultsAppend([x], a');
      assert b == front + [x] + back;
      ResultsWithout(front, x, back);
      ResultsPermute(a', front + back);
    }
  }

  /**
   A scan's verdict does not depend on the order in which its tasks
   complete: it fails for every order or for none, and when it succeeds it
   builds the same snapshot.
   */
  lemma ScanOrderIndependent(a: seq<HashOutcome>, b: seq<HashOutcome>)
    requires DistinctFiles(a)
    requires multiset(a) == multiset(b)
    ensures Scan(a).Success? <==> Scan(b).Success?
    ensures Scan(a).Success? ==> Scan(a) == Scan(b)
  {
    if AllHashed(a) {
      ResultsPermute(a, b);
      var ra := Results(a);
      assert DistinctPaths(ra) by {
        forall i, j | 0 <= i < j < |ra| ensures ra[i].0 != ra[j].0 {
          ResultsAt(a, i);
          ResultsAt(a, j);
        }
      }
      CollectOrderIndependent(ra, Results(b));
    } else if AllHashed(b) {
      ResultsPermute(b, a);
    }
  }
}
