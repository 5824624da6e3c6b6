/** What one run of installer.rs leaves when a planned removal lies above a package that stays, which
    nothing rules out for places given by the plugin. */
module InstallLoss {
  import opened Common
  import opened InstallTransaction
  import opened InstallRuns
  import InstallConvergence

  /** Nothing goes without what is below it. */
  lemma {:induction false} AboveStays(disk: Disk, dirs: seq<Path>, unpruned: set<nat>, d: Path, y: Path)
    requires Proper(dirs) && d <= y && (y in disk ==> d in disk)
    ensures y in RemoveAll(disk, dirs, unpruned) ==> d in RemoveAll(disk, dirs, unpruned)
    decreases |dirs|
  {
    if dirs != [] {
      var n := |dirs| - 1;
      AboveStays(disk, dirs[..n], unpruned, d, y);
      var before := RemoveAll(disk, dirs[..n], unpruned);
      AboveAbove(dirs[n], d, y);
      if y in Without(before, dirs[n]) && d != y { assert HasChild(Without(before, dirs[n]), d); }
    }
  }

  /** Placing one package leaves the roots of the others alone. */
  lemma PutStays(job: Job, j: nat, k: nat, disk: Disk, x: Path)
    requires PackagesReady(job) && IsSolid(job, j) && IsSolid(job, k) && j != k && job.wanted[k].root <= x
    ensures Get(Put(job, j, disk), x) == Get(disk, x)
  {
    var root, dest := job.wanted[j].root, job.wanted[j].dest;
    assert PackageReady(job, j) && !Nested(root, job.wanted[k].root);
    GetWithout(disk, root, x);
    GetClone(Without(disk, root), dest, job.trees[j], x);
    AboveAbove(root, dest, x);
    BothAbove(root, job.wanted[k].root, x);
    AboveAbove(job.wanted[k].root, x, dest);
    BothAbove(root, job.wanted[k].root, dest);
  }

  lemma PutGives(job: Job, k: nat, disk: Disk, x: Path)
    requires PackagesReady(job) && IsSolid(job, k) && job.wanted[k].root <= x
    ensures Get(Put(job, k, disk), x) == Inside(job, k, x)
  {
    GetWithout(disk, job.wanted[k].root, x);
    GetClone(Without(disk, job.wanted[k].root), job.wanted[k].dest, job.trees[k], x);
  }

  lemma {:induction false} PutAllGives(job: Job, todo: set<nat>, n: nat, disk: Disk, k: nat, x: Path)
    requires PackagesReady(job) && n <= |job.wanted| == |job.trees| && (forall j :: j in todo ==> IsSolid(job, j))
    requires IsSolid(job, k) && job.wanted[k].root <= x
    ensures Get(PutAll(job, todo, n, disk), x) == if k in todo && k < n then Inside(job, k, x) else Get(disk, x)
  {
    hide *;
    PutAllStep(job, todo, n, disk);
    if n > 0 {
      var before := PutAll(job, todo, n - 1, disk);
      PutAllGives(job, todo, n - 1, disk, k, x);
      if n - 1 in todo {
        if n - 1 == k { PutGives(job, k, before, x); } else { PutStays(job, n - 1, k, before, x); }
      }
    }
  }

  /** In the root of a package one run leaves its store entry when it is to be laid out, wherever the
      removals lie. When it was unchanged, it leaves what the removals leave. */
  lemma RunLeaves(job: Job, start: Disk, k: nat, x: Path)
    requires PackagesReady(job) && Proper(Removals(job, start)) && IsSolid(job, k) && job.wanted[k].root <= x
    ensures Get(EndOf(job, start, Unchanged(job, start), {}), x) ==
            if k in Unchanged(job, start) then Get(RemoveAll(start, Removals(job, start), {}), x) else Inside(job, k, x)
  {
    assert PackageReady(job, k) && k in Solid(job);
    var cleared, todo := RemoveAll(start, Removals(job, start), {}), Solid(job) - Unchanged(job, start);
    var put := PutAll(job, todo, |job.wanted|, cleared);
    hide PackagesReady, PutAll, RemoveAll, Removals, Unchanged, Entries, WriteState, Inside;
    PutAllGives(job, todo, |job.wanted|, cleared, k, x);
    GetWritten(put, Entries(job.wanted, Unchanged(job, start), Records(start)), x);
    AboveAbove(job.wanted[k].root, x, STATE);
  }

  /** An unchanged package loses its directory in a run that removes one above it, and is recorded all
      the same, so that the next run lays it out again. */
  lemma LostInARemoval(job: Job, start: Disk, k: nat, i: nat)
    requires PackagesReady(job) && Proper(Removals(job, start)) && k in Unchanged(job, start)
    requires i < |Removals(job, start)| && Removals(job, start)[i] in start && Removals(job, start)[i] <= job.wanted[k].dest
    ensures var finished := EndOf(job, start, Unchanged(job, start), {});
            && job.wanted[k].dest !in finished && Recorded(finished, job.wanted[k])
            && k in InstallConvergence.Revived(job, finished)
  {
    var dest, dirs, kept := job.wanted[k].dest, Removals(job, start), Unchanged(job, start);
    var finished := EndOf(job, start, kept, {});
    assert IsSolid(job, k) && PackageReady(job, k);
    AboveStays(start, dirs, {}, dirs[i], dest);
    RemoveAllClears(start, dirs, {}, i);
    RunLeaves(job, start, k, dest);
    var put := PutAll(job, Solid(job) - kept, |job.wanted|, RemoveAll(start, dirs, {}));
    GetWritten(put, Entries(job.wanted, kept, Records(start)), STATE);
    InstallConvergence.EntriesAt(job.wanted, kept, Records(start), k);
  }
}
