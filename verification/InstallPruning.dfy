/** What a run leaves behind, path by path, and the stops between the deletion of a directory and the
    pruning of its parent: exactly when the next run makes them good. */
module InstallPruning {
  import opened Common
  import opened InstallTransaction
  import opened InstallRuns
  import opened InstallConvergence

  // ----- the finished disk, path by path -----------------------------------------------------------------

  /** A directory a run makes again when it is missing: above a package to lay out, or above
      installed.json. */
  ghost predicate MadeAgain(job: Job, start: Disk, x: Path) {
    OnTheWay(job, Todo(job, start), x) || x < STATE
  }

  /** Beside the packages and the state file a run leaves what the removals leave, and the directories
      it needs. */
  lemma OutcomeOutside(job: Job, start: Disk, kept: set<nat>, unpruned: set<nat>, x: Path)
    requires Ready(job) && Unowned(job, x) && x != STATE
    ensures Get(Outcome(job, start, kept, unpruned), x) ==
            if x in Base(job, start, unpruned) then Some(Base(job, start, unpruned)[x])
            else if MadeAgain(job, start, x) then Some(Dir) else None
  {
    var put := AllPut(job, start, unpruned);
    OutcomeIs(job, start, kept, unpruned);
    GetWritten(put, Entries(job.wanted, kept, Records(start)), x);
    var above := AllPutWorks(job, start, unpruned);
    assert Get(put, x) == Outside(Base(job, start, unpruned), above, x);
    assert x in above <==> OnTheWay(job, Todo(job, start), x) by {
      if OnTheWay(job, Todo(job, start), x) {
        var k: nat :| k in Todo(job, start) && k < |job.wanted| && x < job.wanted[k].root;
        assert AllDone(job, start)[k] == Cloned;
      }
    }
  }

  /** In a package's root a run leaves its store entry, or what was there when it was unchanged. */
  lemma OutcomeInside(job: Job, start: Disk, kept: set<nat>, unpruned: set<nat>, k: nat, x: Path)
    requires Ready(job) && IsSolid(job, k) && job.wanted[k].root <= x
    ensures Get(Outcome(job, start, kept, unpruned), x) ==
            if k in Unchanged(job, start) then Get(start, x) else Inside(job, k, x)
  {
    var above := AllPutWorks(job, start, unpruned);
    var base, status, put := Base(job, start, unpruned), AllDone(job, start), AllPut(job, start, unpruned);
    SolidOutOfReach(job, k, x);
    ClearedKeeps(job, start, |Removals(job, start)|, unpruned, x);
    hide Outcome, AllPut, Base, Parents, Ready, Removals, Unchanged;
    OutcomeBelowRoot(job, start, kept, unpruned, k, x);
    assert LooksInside(job, base, k, status[k], put);
    assert HasAt(job, base, k, status[k], put, x);
  }

  /** Only directories that are made again may differ for two outcomes to be one. */
  ghost predicate Leaves(job: Job, start: Disk, disk: Disk, disk': Disk, x: Path) {
    Get(disk', x) == Get(disk, x) || (x !in disk && Get(disk', x) == Some(Dir) && MadeAgain(job, start, x))
  }

  lemma SameOutcome(job: Job, start: Disk, kept: set<nat>, unpruned: set<nat>)
    requires Ready(job)
    requires forall x :: Leaves(job, start, Base(job, start, {}), Base(job, start, unpruned), x)
    ensures Outcome(job, start, kept, unpruned) == Outcome(job, start, kept, {})
  {
    var one, other := Outcome(job, start, kept, unpruned), Outcome(job, start, kept, {});
    hide Ready, Outcome, Base, MadeAgain, Unchanged;
    forall x ensures Get(one, x) == Get(other, x) {
      if x == STATE {
        OutcomeState(job, start, kept, unpruned);
        OutcomeState(job, start, kept, {});
      } else if Unowned(job, x) {
        OutcomeOutside(job, start, kept, unpruned, x);
        OutcomeOutside(job, start, kept, {}, x);
        assert Leaves(job, start, Base(job, start, {}), Base(job, start, unpruned), x);
      } else {
        var k: nat :| IsSolid(job, k) && job.wanted[k].root <= x;
        OutcomeInside(job, start, kept, unpruned, k, x);
        OutcomeInside(job, start, kept, {}, k, x);
      }
    }
    SameDisk(one, other);
  }

  lemma OutcomeState(job: Job, start: Disk, kept: set<nat>, unpruned: set<nat>)
    requires Ready(job)
    ensures Get(Outcome(job, start, kept, unpruned), STATE) == Some(State(Entries(job.wanted, kept, Records(start))))
  {
    OutcomeIs(job, start, kept, unpruned);
    GetWritten(AllPut(job, start, unpruned), Entries(job.wanted, kept, Records(start)), STATE);
  }

  // ----- which prunings matter -------------------------------------------------------------------------------

  /** Removal `i` of an uninterrupted run prunes the parent. */
  ghost predicate Prunes(job: Job, start: Disk, i: nat)
    requires Ready(job)
  {
    i < |Removals(job, start)| &&
    var before, dir := Cleared(job, start, i, {}), Removals(job, start)[i];
    dir != [] && dir in before && LeftEmpty(Without(before, dir), dir)
  }

  ghost function PrunedParent(job: Job, start: Disk, i: nat): Path
    requires Ready(job) && Prunes(job, start, i)
  {
    Parent(Removals(job, start)[i])
  }

  /** An uninterrupted run prunes only directories it makes again. */
  ghost predicate Tidy(job: Job, start: Disk)
    requires Ready(job)
  {
    forall i :: Prunes(job, start, i) ==> MadeAgain(job, start, PrunedParent(job, start, i))
  }

  /** No later removal deletes what an earlier one prunes. */
  ghost predicate PrunedOnce(job: Job, start: Disk)
    requires Ready(job)
  {
    forall i: nat, j: nat :: Prunes(job, start, i) && i < j < |Removals(job, start)| ==>
      !(Removals(job, start)[j] <= PrunedParent(job, start, i))
  }

  /** So it is when no planned directory lies in another. */
  lemma ApartIsPrunedOnce(job: Job, start: Disk)
    requires Ready(job)
    requires forall i, j :: 0 <= i < j < |Removals(job, start)| ==> !Nested(Removals(job, start)[i], Removals(job, start)[j])
    ensures PrunedOnce(job, start)
  {
    forall i: nat, j: nat | Prunes(job, start, i) && i < j < |Removals(job, start)|
      ensures !(Removals(job, start)[j] <= PrunedParent(job, start, i))
    {
      assert PrunedParent(job, start, i) <= Removals(job, start)[i];
      AboveAbove(Removals(job, start)[j], PrunedParent(job, start, i), Removals(job, start)[i]);
    }
  }

  /** Planned directories do not hold what is made again. */
  lemma MadeAgainIsBeside(job: Job, start: Disk, dir: Path, x: Path)
    requires Ready(job) && Apart(job, dir) && MadeAgain(job, start, x)
    ensures !(dir <= x)
  {
    AboveAbove(dir, x, STATE);
    if !(x < STATE) {
      var k: nat :| k in Todo(job, start) && k < |job.wanted| && x < job.wanted[k].root;
      AboveAbove(dir, x, job.wanted[k].root);
    }
  }

  /** One removal keeps the difference to directories that are made again. */
  lemma RemoveLeaves(job: Job, start: Disk, disk: Disk, disk': Disk, dir: Path, after': Disk)
    requires Ready(job) && Apart(job, dir) && forall x :: Leaves(job, start, disk, disk', x)
    requires dir in disk && LeftEmpty(Without(disk, dir), dir) ==> MadeAgain(job, start, Parent(dir))
    requires after' == Remove(disk', dir) || after' == Delete(disk', dir)
    ensures forall x :: Leaves(job, start, Remove(disk, dir), after', x)
  {
    assert dir in disk <==> dir in disk' by {
      assert Leaves(job, start, disk, disk', dir);
      if MadeAgain(job, start, dir) { MadeAgainIsBeside(job, start, dir, dir); }
    }
    forall x ensures Leaves(job, start, Delete(disk, dir), Delete(disk', dir), x) {
      assert Leaves(job, start, disk, disk', x);
      if MadeAgain(job, start, x) { MadeAgainIsBeside(job, start, dir, x); }
    }
    if dir in disk {
      assert Delete(disk, dir) == Without(disk, dir) && Delete(disk', dir) == Without(disk', dir);
      assert dir != [];
      hide Apart, Ready, MadeAgain, Without;
      PruneLeaves(job, start, Without(disk, dir), Without(disk', dir), dir, after');
    }
  }

  lemma PruneLeaves(job: Job, start: Disk, disk: Disk, disk': Disk, dir: Path, after': Disk)
    requires dir != [] && forall x :: Leaves(job, start, disk, disk', x)
    requires LeftEmpty(disk, dir) ==> MadeAgain(job, start, Parent(dir))
    requires after' == Prune(disk', dir) || after' == disk'
    ensures forall x :: Leaves(job, start, Prune(disk, dir), after', x)
  {
    hide MadeAgain;
    assert Leaves(job, start, disk, disk', Parent(dir));
    if HasChild(disk, Parent(dir)) {
      var y :| y in disk && Parent(dir) < y;
      assert Leaves(job, start, disk, disk', y);
      assert HasChild(disk', Parent(dir));
    }
    forall x ensures Leaves(job, start, Prune(disk, dir), after', x) {
      assert Leaves(job, start, disk, disk', x);
    }
  }

  /** In a tidy project the removals left without their pruning leave only directories that are made
      again. */
  lemma {:induction false} TidyLeaves(job: Job, start: Disk, unpruned: set<nat>, n: nat)
    requires Ready(job) && Tidy(job, start) && n <= |Removals(job, start)|
    ensures forall x :: Leaves(job, start, Cleared(job, start, n, {}), Cleared(job, start, n, unpruned), x)
  {
    RemovalsProper(job, start);
    if n == 0 {
      assert Removals(job, start)[..0] == [];
    } else {
      var i, dir := n - 1, Removals(job, start)[n - 1];
      var before, before' := Cleared(job, start, i, {}), Cleared(job, start, i, unpruned);
      assert dir in Removals(job, start) && Apart(job, dir);
      assert dir in before && LeftEmpty(Without(before, dir), dir) ==> MadeAgain(job, start, Parent(dir)) by {
        assert Prunes(job, start, i) ==> MadeAgain(job, start, PrunedParent(job, start, i));
      }
      ClearedNext(job, start, i, {});
      ClearedNext(job, start, i, unpruned);
      hide Ready, Tidy, Leaves, Cleared, Removals, Apart, MadeAgain;
      TidyLeaves(job, start, unpruned, i);
      RemoveLeaves(job, start, before, before', dir, Cleared(job, start, n, unpruned));
    }
  }

  /** Once a path is gone, it stays away. */
  lemma {:induction false} ClearedShrinks(job: Job, start: Disk, unpruned: set<nat>, n: nat, m: nat, x: Path)
    requires Ready(job) && n <= m <= |Removals(job, start)| && x !in Cleared(job, start, n, unpruned)
    ensures x !in Cleared(job, start, m, unpruned)
    decreases m
  {
    if n < m {
      ClearedShrinks(job, start, unpruned, n, m - 1, x);
      ClearedNext(job, start, m - 1, unpruned);
    }
  }

  /** A parent left empty is never pruned later: there is nothing in it to remove. */
  lemma {:induction false} LeftEmptyStays(job: Job, start: Disk, i: nat, m: nat)
    requires Ready(job) && PrunedOnce(job, start) && Prunes(job, start, i) && i < m <= |Removals(job, start)|
    ensures var disk := Cleared(job, start, m, {i});
            Get(disk, PrunedParent(job, start, i)) == Some(Dir) && !HasChild(disk, PrunedParent(job, start, i))
    decreases m
  {
    var parent := PrunedParent(job, start, i);
    ClearedNext(job, start, m - 1, {i});
    var dir := Removals(job, start)[m - 1];
    var before := Cleared(job, start, m - 1, {i});
    if m == i + 1 {
      RemovalsProper(job, start);
      RemoveAllLocal(start, Removals(job, start)[..i], {}, {i});
      assert parent < dir;
    } else {
      LeftEmptyStays(job, start, i, m - 1);
      assert !(dir <= parent);
      hide Ready, Cleared, Prunes, PrunedOnce, Removals, PrunedParent;
      assert parent == Parent(dir) ==> parent < dir;
    }
  }

  /** A pruning that one stop left out shows in the end unless the directory is made again. */
  lemma UnprunedShows(job: Job, start: Disk, kept: set<nat>, i: nat)
    requires Ready(job) && PrunedOnce(job, start) && Prunes(job, start, i)
    ensures var parent := PrunedParent(job, start, i);
            && Get(Outcome(job, start, kept, {i}), parent) == Some(Dir)
            && Get(Outcome(job, start, kept, {}), parent) == if MadeAgain(job, start, parent) then Some(Dir) else None
  {
    var dirs, parent := Removals(job, start), PrunedParent(job, start, i);
    LeftEmptyStays(job, start, i, |dirs|);
    ClearedNext(job, start, i, {});
    ClearedShrinks(job, start, {}, i + 1, |dirs|, parent);
    RemovalsProper(job, start);
    assert dirs[i] in dirs && Apart(job, dirs[i]) && parent < dirs[i];
    assert Unowned(job, parent) && parent != STATE by {
      forall k: nat | IsSolid(job, k) ensures !(job.wanted[k].root <= parent) {
        AboveAbove(job.wanted[k].root, parent, dirs[i]);
      }
    }
    hide Ready, Outcome, Base, MadeAgain, Removals;
    OutcomeOutside(job, start, kept, {i}, parent);
    OutcomeOutside(job, start, kept, {}, parent);
  }

  /** Stops between deletion and pruning never show in the end. */
  ghost predicate PruningsDoNotShow(job: Job, start: Disk, kept: set<nat>)
    requires Ready(job)
  {
    forall unpruned :: InPlan(job, start, unpruned) ==> Outcome(job, start, kept, unpruned) == Outcome(job, start, kept, {})
  }

  /** The next run makes good any stops between deletion and pruning, if and (when no removal deletes
      what an earlier one prunes) only if all that an uninterrupted run prunes lies above a package
      still to be laid out or above installed.json. */
  lemma TidyIff(job: Job, start: Disk, kept: set<nat>)
    requires Ready(job)
    ensures Tidy(job, start) ==> PruningsDoNotShow(job, start, kept)
    ensures PrunedOnce(job, start) ==> (PruningsDoNotShow(job, start, kept) <==> Tidy(job, start))
  {
    if Tidy(job, start) {
      forall unpruned ensures Outcome(job, start, kept, unpruned) == Outcome(job, start, kept, {}) {
        TidyLeaves(job, start, unpruned, |Removals(job, start)|);
        SameOutcome(job, start, kept, unpruned);
      }
    } else if PrunedOnce(job, start) {
      var i :| Prunes(job, start, i) && !MadeAgain(job, start, PrunedParent(job, start, i));
      hide Ready, Outcome, MadeAgain;
      UnprunedShows(job, start, kept, i);
      assert InPlan(job, start, {i});
    }
  }
}
