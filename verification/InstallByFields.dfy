/** What an install does to each path, told by the fields of installed.json and of the lock alone: after
    one run, and after any history of stopped and repeated runs. */
module InstallByFields {
  import opened Common
  import opened InstallTransaction
  import opened InstallRuns
  import opened InstallConvergence
  import InstallLoss
  import opened InstallPruning
  import opened InstallReach
  import opened InstallResults

  // ----- in the root of a package -----------------------------------------------------------------------

  /** One run leaves a package alone exactly when installed.json names its version and its reference and
      its directory is there. Any other it lays out: the store entry at the destination, the directories
      down to it, and nothing else. */
  lemma OneRunInRoot(job: Job, start: Disk, k: nat, x: Path)
    requires Ready(job) && k < |job.wanted| && !job.wanted[k].meta && job.wanted[k].root <= x
    ensures var p := job.wanted[k];
            Get(Outcome(job, start, Unchanged(job, start), {}), x) ==
            if && STATE in start && start[STATE].State? && p.name in start[STATE].records
               && start[STATE].records[p.name].identity.version == p.identity.version
               && start[STATE].records[p.name].identity.reference == p.identity.reference
               && Get(start, p.dest) == Some(Dir)
            then Get(start, x)
            else if p.dest <= x then Get(job.trees[k], x[|p.dest|..])
            else if x < p.dest then Some(Dir) else None
  {
    hide Ready, Outcome;
    OutcomeInside(job, start, Unchanged(job, start), {}, k, x);
  }

  /** So do all histories that finish. Only of a package recorded so without its directory a stop may
      have left part. */
  lemma FinishedInRoot(job: Job, sparing: bool, start: Disk, last: Machine, k: nat, x: Path)
    requires Ready(job) && k < |job.wanted| && !job.wanted[k].meta && job.wanted[k].root <= x
    requires Leads(job, sparing, Machine(start, Idle), last) && last.run.Finished?
    ensures var p := job.wanted[k];
            var laidOut := if p.dest <= x then Get(job.trees[k], x[|p.dest|..]) else if x < p.dest then Some(Dir) else None;
            if && STATE in start && start[STATE].State? && p.name in start[STATE].records
               && start[STATE].records[p.name].identity.version == p.identity.version
               && start[STATE].records[p.name].identity.reference == p.identity.reference
            then
              if Get(start, p.dest) == Some(Dir) then Get(last.disk, x) == Get(start, x)
              else Get(last.disk, x) == laidOut || (!sparing && PartOf(Get(last.disk, x), laidOut))
            else Get(last.disk, x) == laidOut
  {
    assert IsSolid(job, k) && |job.trees| == |job.wanted|;
    assert k in Unchanged(job, start) <==> IsUnchanged(start, job.wanted[k]);
    assert k in Revived(job, start) <==> Recorded(start, job.wanted[k]) && k !in Unchanged(job, start);
    hide Ready, Outcome, Leads, EndsLike, Unchanged, Revived;
    var kept, unpruned, spoiled := FinishedEndsLike(job, sparing, start, last);
    assert spoiled <= Revived(job, start) by { SpoiledWereLost(job, start, kept, unpruned, spoiled, last.disk); }
    OutcomeInside(job, start, kept, unpruned, k, x);
    if k in spoiled {
      SpoiledIsPart(job, start, kept, unpruned, spoiled, last.disk, k, x);
    } else {
      EndsLikeAt(job, start, kept, unpruned, spoiled, last.disk, k);
    }
  }

  lemma SpoiledWereLost(job: Job, start: Disk, kept: set<nat>, unpruned: set<nat>, spoiled: set<nat>, disk: Disk)
    requires Ready(job) && EndsLike(job, start, kept, unpruned, spoiled, disk)
    ensures spoiled <= Revived(job, start)
  {
  }

  lemma SpoiledIsPart(job: Job, start: Disk, kept: set<nat>, unpruned: set<nat>, spoiled: set<nat>, disk: Disk, k: nat, x: Path)
    requires Ready(job) && EndsLike(job, start, kept, unpruned, spoiled, disk)
    requires k in spoiled && k < |job.wanted| && job.wanted[k].root <= x
    ensures PartOf(Get(disk, x), Inside(job, k, x))
  {
    assert PartlyAt(job, k, disk, x);
  }

  /** What is recorded so and stands is not touched at any moment of any history. */
  lemma AtAnyMoment(job: Job, start: Disk, actions: seq<Action>, states: seq<Machine>, n: nat, k: nat, x: Path)
    requires Ready(job) && History(job, start, actions, states) && n < |states|
    requires k < |job.wanted| && !job.wanted[k].meta && job.wanted[k].root <= x
    requires var p := job.wanted[k];
             && STATE in start && start[STATE].State? && p.name in start[STATE].records
             && start[STATE].records[p.name].identity.version == p.identity.version
             && start[STATE].records[p.name].identity.reference == p.identity.reference
             && Get(start, p.dest) == Some(Dir)
    ensures Get(states[n].disk, x) == Get(start, x)
  {
    assert IsUnchanged(start, job.wanted[k]);
    hide Ready, History;
    UnchangedIsNeverTouched(job, start, actions, states, n, k, x);
  }

  // ----- in installed.json --------------------------------------------------------------------------------

  lemma WrittenAt(job: Job, start: Disk, kept: set<nat>, unpruned: set<nat>, k: nat)
    requires Ready(job) && k < |job.wanted|
    ensures var p, finished := job.wanted[k], Outcome(job, start, kept, unpruned);
            && STATE in finished && finished[STATE].State? && p.name in finished[STATE].records
            && finished[STATE].records[p.name].identity == p.identity
            && finished[STATE].records[p.name].raw ==
                 if k in kept && p.name in Records(start) then Records(start)[p.name].raw else p.raw
  {
    assert forall i: nat, j: nat :: i < j < |job.wanted| ==> job.wanted[i].name != job.wanted[j].name;
    hide Ready, Outcome, Entries;
    OutcomeState(job, start, kept, unpruned);
    EntriesAt(job.wanted, kept, Records(start), k);
  }

  /** After one run installed.json has an entry for every wanted package, with the version and the
      reference of the lock, and with the metadata of the lock but for packages left alone, which keep
      theirs. */
  lemma OneRunWrites(job: Job, start: Disk, k: nat)
    requires Ready(job) && k < |job.wanted|
    ensures var p, finished := job.wanted[k], Outcome(job, start, Unchanged(job, start), {});
            && STATE in finished && finished[STATE].State? && p.name in finished[STATE].records
            && finished[STATE].records[p.name].identity.version == p.identity.version
            && finished[STATE].records[p.name].identity.reference == p.identity.reference
            && finished[STATE].records[p.name].raw ==
                 if && !p.meta && STATE in start && start[STATE].State? && p.name in start[STATE].records
                    && start[STATE].records[p.name].identity.version == p.identity.version
                    && start[STATE].records[p.name].identity.reference == p.identity.reference
                    && Get(start, p.dest) == Some(Dir)
                 then start[STATE].records[p.name].raw else p.raw
  {
    hide Ready, Outcome;
    WrittenAt(job, start, Unchanged(job, start), {}, k);
  }

  /** So it has after every history that finishes; of packages recorded so without their directory the
      metadata may be the old one. */
  lemma FinishedWrites(job: Job, sparing: bool, start: Disk, last: Machine, k: nat)
    requires Ready(job) && Leads(job, sparing, Machine(start, Idle), last) && last.run.Finished? && k < |job.wanted|
    ensures var p := job.wanted[k];
            && STATE in last.disk && last.disk[STATE].State? && p.name in last.disk[STATE].records
            && last.disk[STATE].records[p.name].identity.version == p.identity.version
            && last.disk[STATE].records[p.name].identity.reference == p.identity.reference
            && if && !p.meta && STATE in start && start[STATE].State? && p.name in start[STATE].records
                  && start[STATE].records[p.name].identity.version == p.identity.version
                  && start[STATE].records[p.name].identity.reference == p.identity.reference
               then
                 || last.disk[STATE].records[p.name].raw == start[STATE].records[p.name].raw
                 || (Get(start, p.dest) != Some(Dir) && last.disk[STATE].records[p.name].raw == p.raw)
               else last.disk[STATE].records[p.name].raw == p.raw
  {
    assert k in Unchanged(job, start) <==> IsUnchanged(start, job.wanted[k]);
    assert k in Revived(job, start) ==> !job.wanted[k].meta && Recorded(start, job.wanted[k]);
    hide Ready, Outcome, Leads, EndsLike, Unchanged, Revived;
    var kept, unpruned, spoiled := FinishedEndsLike(job, sparing, start, last);
    EndsSettled(job, start, kept, unpruned, spoiled, last.disk);
    WrittenAt(job, start, kept, unpruned, k);
  }

  /** And it has no other entries. */
  lemma FinishedNames(job: Job, sparing: bool, start: Disk, last: Machine, name: string)
    requires Ready(job) && Leads(job, sparing, Machine(start, Idle), last) && last.run.Finished?
    ensures STATE in last.disk && last.disk[STATE].State?
    ensures name in last.disk[STATE].records <==> exists k: nat :: k < |job.wanted| && job.wanted[k].name == name
  {
    hide Ready, Outcome, Leads, EndsLike, Entries;
    var kept, unpruned, spoiled := FinishedEndsLike(job, sparing, start, last);
    EndsSettled(job, start, kept, unpruned, spoiled, last.disk);
    OutcomeState(job, start, kept, unpruned);
    EntriesNames(job.wanted, kept, Records(start), name);
  }

  // ----- everywhere else -------------------------------------------------------------------------------------

  lemma {:induction false} PlannedHas(removals: seq<(string, Path)>, records: map<string, Record>, i: nat)
    requires i < |removals| && removals[i].0 in records
    ensures exists j: nat :: j < |Planned(removals, records)| && Planned(removals, records)[j] == removals[i].1
  {
    var plan, rest := Planned(removals, records), Planned(removals[1..], records);
    if i == 0 {
      assert plan[0] == removals[0].1;
    } else {
      PlannedHas(removals[1..], records, i - 1);
      var j: nat :| j < |rest| && rest[j] == removals[i].1;
      assert plan[j + |plan| - |rest|] == rest[j];
    }
  }

  /** A planned directory whose package installed.json names is gone after every history that finishes,
      with all that was in it. */
  lemma FinishedRemoves(job: Job, sparing: bool, start: Disk, last: Machine, i: nat, x: Path)
    requires Ready(job) && Leads(job, sparing, Machine(start, Idle), last) && last.run.Finished?
    requires i < |job.removals| && STATE in start && start[STATE].State? && job.removals[i].0 in start[STATE].records
    requires job.removals[i].1 <= x && (x in start ==> job.removals[i].1 in start)
    ensures x !in last.disk
  {
    var dir := job.removals[i].1;
    PlannedHas(job.removals, Records(start), i);
    var j: nat :| j < |Removals(job, start)| && Removals(job, start)[j] == dir;
    RemovalsProper(job, start);
    assert Apart(job, dir) by { assert dir in Removals(job, start); }
    ApartHolds(job, start, dir, x);
    var kept, unpruned, spoiled := FinishedEndsLike(job, sparing, start, last);
    assert Removals(job, start)[..|Removals(job, start)|] == Removals(job, start);
    AboveGone(start, Removals(job, start), unpruned, j, x);
    hide Ready, Outcome, Leads, EndsLike, Removals, Apart;
    OutcomeOutside(job, start, kept, unpruned, x);
    UnownedEndsLike(job, start, kept, unpruned, spoiled, last.disk, x);
  }

  lemma ApartHolds(job: Job, start: Disk, dir: Path, x: Path)
    requires Ready(job) && Apart(job, dir) && dir <= x
    ensures Unowned(job, x) && x != STATE && !MadeAgain(job, start, x)
  {
    forall k: nat | IsSolid(job, k) ensures !(job.wanted[k].root <= x) { BothAbove(dir, job.wanted[k].root, x); }
    if MadeAgain(job, start, x) { MadeAgainIsBeside(job, start, dir, x); }
  }

  lemma UnownedEndsLike(job: Job, start: Disk, kept: set<nat>, unpruned: set<nat>, spoiled: set<nat>, disk: Disk, x: Path)
    requires Ready(job) && EndsLike(job, start, kept, unpruned, spoiled, disk) && Unowned(job, x)
    ensures Get(disk, x) == Get(Outcome(job, start, kept, unpruned), x)
  {
    hide Outcome;
    assert !Below(job, spoiled, x);
  }

  /** What lies in a removed directory is gone with it. */
  lemma {:induction false} AboveGone(disk: Disk, dirs: seq<Path>, unpruned: set<nat>, j: nat, x: Path)
    requires Proper(dirs) && j < |dirs| && dirs[j] <= x && (x in disk ==> dirs[j] in disk)
    ensures x !in RemoveAll(disk, dirs, unpruned)
    decreases |dirs|
  {
    var n := |dirs| - 1;
    var before := RemoveAll(disk, dirs[..n], unpruned);
    RemoveAllAddsNothing(disk, dirs[..n], unpruned, x);
    if j < n {
      AboveGone(disk, dirs[..n], unpruned, j, x);
      RemoveAllAddsNothing(before, dirs[n..], {}, x);
    } else {
      InstallLoss.AboveStays(disk, dirs[..n], unpruned, dirs[n], x);
    }
  }

  lemma {:induction false} KeptElsewhere(disk: Disk, dirs: seq<Path>, unpruned: set<nat>, x: Path)
    requires Proper(dirs) && forall d :: d in dirs ==> !(d <= x) && !(x < d && |d| == |x| + 1)
    ensures Get(RemoveAll(disk, dirs, unpruned), x) == Get(disk, x)
    decreases |dirs|
  {
    if dirs != [] {
      var n := |dirs| - 1;
      KeptElsewhere(disk, dirs[..n], unpruned, x);
      assert dirs[n] in dirs && Parent(dirs[n]) < dirs[n];
    }
  }

  /** What lies neither in or above a package or installed.json, nor in a planned directory of a package
      that installed.json names, nor just above one, is as it was. */
  lemma FinishedKeeps(job: Job, sparing: bool, start: Disk, last: Machine, x: Path)
    requires Ready(job) && Leads(job, sparing, Machine(start, Idle), last) && last.run.Finished?
    requires !(x <= STATE) && forall k: nat :: k < |job.wanted| && !job.wanted[k].meta ==> !Nested(job.wanted[k].root, x)
    requires STATE in start && start[STATE].State? ==>
               forall i: nat :: i < |job.removals| && job.removals[i].0 in start[STATE].records ==>
                 var dir := job.removals[i].1; !(dir <= x) && !(x < dir && |dir| == |x| + 1)
    ensures Get(last.disk, x) == Get(start, x)
  {
    var dirs := Removals(job, start);
    assert dirs[..|dirs|] == dirs;
    RemovalsProper(job, start);
    forall d | d in dirs ensures !(d <= x) && !(x < d && |d| == |x| + 1) {
      PlannedReady(job.removals, Records(start));
      var i :| 0 <= i < |job.removals| && job.removals[i].0 in Records(start) && job.removals[i].1 == d;
    }
    var kept, unpruned, spoiled := FinishedEndsLike(job, sparing, start, last);
    KeptElsewhere(start, dirs, unpruned, x);
    assert Unowned(job, x) && !MadeAgain(job, start, x);
    hide Ready, Outcome, Leads, EndsLike, Removals;
    OutcomeOutside(job, start, kept, unpruned, x);
    UnownedEndsLike(job, start, kept, unpruned, spoiled, last.disk, x);
  }
}
