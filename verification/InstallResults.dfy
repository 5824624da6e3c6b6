/** What convergence gives a user of installer.rs, and exactly what it needs. */
module InstallResults {
  import opened Common
  import opened InstallTransaction
  import opened InstallRuns
  import opened InstallConvergence
  import opened InstallPruning
  import opened InstallReach

  // ----- one final disk ---------------------------------------------------------------------------------

  /** Packages recorded in their wanted version, but without their directory, have the metadata of
      the lock. */
  predicate Settled(job: Job, start: Disk) {
    forall k :: k in Revived(job, start) && k < |job.wanted| && job.wanted[k].name in Records(start) ==>
      Records(start)[job.wanted[k].name].raw == job.wanted[k].raw
  }

  /** Every finished history ends like one run without interruption. With `sparing` only histories
      count in which no stop leaves a package half done that is recorded in its wanted version: where a
      tree is cloned in one step. */
  ghost predicate AlwaysConverges(job: Job, sparing: bool, start: Disk)
    requires Ready(job)
  {
    forall actions: seq<Action>, states: seq<Machine> ::
      (History(job, start, actions, states) && (sparing ==> WholeClones(job, actions, states)) && states[|actions|].run.Finished?)
      ==> states[|actions|].disk == Outcome(job, start, Unchanged(job, start), {})
  }

  /** A package without any file: its clone is done when its directory is made. */
  predicate IsBare(tree: Disk) { tree == map[[] := Dir] }

  /** Packages recorded in their wanted version, but without their directory, have no content. */
  ghost predicate LostAreBare(job: Job, start: Disk)
    requires Ready(job)
  {
    forall k :: k in Revived(job, start) && k < |job.wanted| ==> IsBare(job.trees[k])
  }

  lemma SettledKeepsEntries(job: Job, start: Disk, kept: set<nat>, unpruned: set<nat>)
    requires Ready(job) && Settled(job, start) && Between(job, start, kept)
    ensures Outcome(job, start, kept, unpruned) == Outcome(job, start, Unchanged(job, start), unpruned)
  {
    OutcomeIs(job, start, kept, unpruned);
    OutcomeIs(job, start, Unchanged(job, start), unpruned);
    var e := Records(start);
    forall k: nat | k < |job.wanted|
      ensures Entry(job.wanted[k], k in kept, e) == Entry(job.wanted[k], k in Unchanged(job, start), e)
    {
      if k in kept && k !in Unchanged(job, start) { assert k in Revived(job, start); }
    }
    SameEntries(job, kept, e, Unchanged(job, start), e);
  }

  /** Whose metadata is kept shows in installed.json. */
  lemma KeptShows(job: Job, start: Disk, kept: set<nat>, k: nat)
    requires Ready(job) && k < |job.wanted| && k in Revived(job, start) && k in kept
    requires Records(start)[job.wanted[k].name].raw != job.wanted[k].raw
    ensures Outcome(job, start, kept, {}) != Outcome(job, start, Unchanged(job, start), {})
  {
    var e := Records(start);
    OutcomeRecords(job, start, kept, {});
    OutcomeRecords(job, start, Unchanged(job, start), {});
    EntriesAt(job.wanted, kept, e, k);
    EntriesAt(job.wanted, Unchanged(job, start), e, k);
  }

  /** A state that can be reached ends a history. */
  lemma LeadsIsHistory(job: Job, sparing: bool, start: Disk, last: Machine)
    requires Ready(job) && Leads(job, sparing, Machine(start, Idle), last)
    ensures exists actions: seq<Action>, states: seq<Machine> ::
              History(job, start, actions, states) && |states| == |actions| + 1 && (sparing ==> WholeClones(job, actions, states)) &&
              states[|actions|] == last
  {
    hide Ready, Step, WholeClones;
    var actions, states :|
      Runs(job, Machine(start, Idle), actions, states) && (sparing ==> WholeClones(job, actions, states)) && states[|actions|] == last;
    assert History(job, start, actions, states);
  }

  lemma ConvergesHere(job: Job, sparing: bool, start: Disk, last: Machine)
    requires Ready(job) && AlwaysConverges(job, sparing, start)
    requires Leads(job, sparing, Machine(start, Idle), last) && last.run.Finished?
    ensures last.disk == Outcome(job, start, Unchanged(job, start), {})
  {
    hide Ready, Outcome, History, WholeClones;
    LeadsIsHistory(job, sparing, start, last);
  }

  /** What a finished history ends like. */
  lemma FinishedEndsLike(job: Job, sparing: bool, start: Disk, last: Machine) returns (kept: set<nat>, unpruned: set<nat>, spoiled: set<nat>)
    requires Ready(job) && Leads(job, sparing, Machine(start, Idle), last) && last.run.Finished?
    ensures Between(job, start, kept) && InPlan(job, start, unpruned)
    ensures EndsLike(job, start, kept, unpruned, spoiled, last.disk) && (sparing ==> spoiled == {})
  {
    hide Ready, Outcome, History, WholeClones, EndsLike, Between, InPlan;
    LeadsIsHistory(job, sparing, start, last);
    var actions: seq<Action>, states: seq<Machine> :|
      History(job, start, actions, states) && |states| == |actions| + 1 && (sparing ==> WholeClones(job, actions, states)) &&
      states[|actions|] == last;
    Converges(job, start, actions, states);
    kept, unpruned, spoiled :| Between(job, start, kept) && InPlan(job, start, unpruned) &&
      EndsLike(job, start, kept, unpruned, spoiled, states[|actions|].disk) && (WholeClones(job, actions, states) ==> spoiled == {});
  }

  /** Part of the clone of a package without files is all of it. */
  lemma BareEndsLike(job: Job, start: Disk, kept: set<nat>, unpruned: set<nat>, spoiled: set<nat>, disk: Disk)
    requires Ready(job) && LostAreBare(job, start) && EndsLike(job, start, kept, unpruned, spoiled, disk)
    ensures disk == Outcome(job, start, kept, unpruned)
  {
    var outcome := Outcome(job, start, kept, unpruned);
    forall x ensures Get(disk, x) == Get(outcome, x) {
      if Below(job, spoiled, x) {
        var k: nat :| k in spoiled && k < |job.wanted| && job.wanted[k].root <= x;
        assert IsSolid(job, k) && k !in Unchanged(job, start) && IsBare(job.trees[k]);
        assert PartlyAt(job, k, disk, x);
        hide Outcome, EndsLike, Ready;
        OutcomeInside(job, start, kept, unpruned, k, x);
        if x <= job.wanted[k].dest { InsideAbove(job, k, x); } else { BareInside(job, k, x); }
      }
    }
    SameDisk(disk, outcome);
  }

  lemma BareInside(job: Job, k: nat, x: Path)
    requires k < |job.wanted| == |job.trees| && IsBare(job.trees[k]) && !(x <= job.wanted[k].dest)
    ensures Inside(job, k, x) == None
  {
    assert job.wanted[k].dest <= x ==> |x| > |job.wanted[k].dest|;
  }

  /** Interrupted in any way, any number of times, and placed in any order, an install ends like one
      run without interruption, if and only if the entries of lost packages are those of the lock,
      lost packages have no content, and no stop before a pruning shows in the end. Where trees are
      cloned in one step the content of lost packages does not matter. */
  lemma ConvergesIff(job: Job, sparing: bool, start: Disk)
    requires Ready(job)
    ensures AlwaysConverges(job, sparing, start) <==>
            Settled(job, start) && (sparing || LostAreBare(job, start)) && PruningsDoNotShow(job, start, Unchanged(job, start))
  {
    if Settled(job, start) && (sparing || LostAreBare(job, start)) && PruningsDoNotShow(job, start, Unchanged(job, start)) {
      hide Ready, Outcome, Settled, History, InPlan, WholeClones, LostAreBare, EndsLike;
      forall actions: seq<Action>, states: seq<Machine> |
        History(job, start, actions, states) && |states| == |actions| + 1 && (sparing ==> WholeClones(job, actions, states)) &&
        states[|actions|].run.Finished?
        ensures states[|actions|].disk == Outcome(job, start, Unchanged(job, start), {})
      {
        Converges(job, start, actions, states);
        var kept, unpruned, spoiled :| Between(job, start, kept) && InPlan(job, start, unpruned) &&
          EndsLike(job, start, kept, unpruned, spoiled, states[|actions|].disk) && (WholeClones(job, actions, states) ==> spoiled == {});
        if sparing {
          NoneSpoiled(job, start, kept, unpruned, states[|actions|].disk);
        } else {
          BareEndsLike(job, start, kept, unpruned, spoiled, states[|actions|].disk);
        }
        SettledKeepsEntries(job, start, kept, unpruned);
      }
      HistoryLengths(job, start);
    }
    if AlwaysConverges(job, sparing, start) {
      SettledIsNeeded(job, sparing, start);
      PruningIsNeeded(job, sparing, start);
      if !sparing { BareIsNeeded(job, start); }
    }
  }

  lemma HistoryLengths(job: Job, start: Disk)
    requires Ready(job)
    ensures forall actions, states :: History(job, start, actions, states) ==> |states| == |actions| + 1
  {
  }

  /** What sparing histories lead to, any histories lead to. */
  lemma LeadsWithout(job: Job, sparing: bool, s: Machine, t: Machine)
    requires Ready(job) && Leads(job, true, s, t)
    ensures Leads(job, sparing, s, t)
  {
    if !sparing { LeadsAnyway(job, s, t); }
  }

  lemma SettledIsNeeded(job: Job, sparing: bool, start: Disk)
    requires Ready(job) && AlwaysConverges(job, sparing, start)
    ensures Settled(job, start)
  {
    hide Ready, Leads, AlwaysConverges, Outcome;
    forall k | k in Revived(job, start) && k < |job.wanted| && job.wanted[k].name in Records(start)
      ensures Records(start)[job.wanted[k].name].raw == job.wanted[k].raw
    {
      var last, kept := CanRevive(job, start, k);
      LeadsWithout(job, sparing, Machine(start, Idle), last);
      ConvergesHere(job, sparing, start, last);
      if Records(start)[job.wanted[k].name].raw != job.wanted[k].raw { KeptShows(job, start, kept, k); }
    }
  }

  lemma PruningIsNeeded(job: Job, sparing: bool, start: Disk)
    requires Ready(job) && AlwaysConverges(job, sparing, start)
    ensures PruningsDoNotShow(job, start, Unchanged(job, start))
  {
    hide Ready, Outcome, AlwaysConverges, InPlan, Leads;
    forall unpruned | InPlan(job, start, unpruned)
      ensures Outcome(job, start, Unchanged(job, start), unpruned) == Outcome(job, start, Unchanged(job, start), {})
    {
      var last := CanFinishUnpruned(job, start, unpruned);
      LeadsWithout(job, sparing, Machine(start, Idle), last);
      ConvergesHere(job, sparing, start, last);
    }
  }

  lemma BareIsNeeded(job: Job, start: Disk)
    requires Ready(job) && AlwaysConverges(job, false, start)
    ensures LostAreBare(job, start)
  {
    forall k | k in Revived(job, start) && k < |job.wanted| ensures IsBare(job.trees[k]) {
      assert IsSolid(job, k) && k !in Unchanged(job, start);
      if !IsBare(job.trees[k]) {
        var r := NotBare(job, k);
        HalfCloneShows(job, start, k, r);
      }
    }
  }

  lemma HalfCloneShows(job: Job, start: Disk, k: nat, r: Path)
    requires Ready(job) && k in Revived(job, start) && IsSolid(job, k) && k !in Unchanged(job, start)
    requires r != [] && r in job.trees[k]
    ensures !AlwaysConverges(job, false, start)
  {
    var x := job.wanted[k].dest + r;
    InTree(job, k, r);
    hide Ready, Leads, AlwaysConverges, Outcome, Unchanged, Inside;
    var last := HalfCloneStays(job, start, k, r);
    OutcomeInside(job, start, Unchanged(job, start), {}, k, x);
    if AlwaysConverges(job, false, start) { ConvergesHere(job, false, start, last); }
  }

  lemma InTree(job: Job, k: nat, r: Path)
    requires Ready(job) && IsSolid(job, k) && r in job.trees[k]
    ensures job.wanted[k].root <= job.wanted[k].dest + r && Inside(job, k, job.wanted[k].dest + r) == Some(job.trees[k][r])
  {
    assert PackageReady(job, k) && (job.wanted[k].dest + r)[|job.wanted[k].dest|..] == r;
    AboveAbove(job.wanted[k].root, job.wanted[k].dest, job.wanted[k].dest + r);
  }

  /** Stopped behind its first directory and run again, a lost package stays without the rest. */
  lemma HalfCloneStays(job: Job, start: Disk, k: nat, r: Path) returns (last: Machine)
    requires Ready(job) && k in Revived(job, start) && IsSolid(job, k) && r != [] && r in job.trees[k]
    ensures Leads(job, false, Machine(start, Idle), last) && last.run.Finished?
    ensures Get(last.disk, job.wanted[k].dest + r) == None
  {
    var x := job.wanted[k].dest + r;
    InTree(job, k, r);
    assert job.wanted[k].dest < x;
    var stopped := BegunThenStopped(job, start, k);
    var g := StartFits(job, stopped);
    hide Ready, Fits, Leads, Outcome, Unchanged, Inside, Revived;
    last := CanFinish(job, stopped, g, stopped);
    LeadsAnyway(job, Machine(stopped, Idle), last);
    LeadsOn(job, false, Machine(start, Idle), Machine(stopped, Idle), last);
    OutcomeInside(job, stopped, Unchanged(job, stopped), g.unpruned, k, x);
  }

  /** The same by what can be checked before the install: no package that lost its directory is
      recorded with other metadata than the lock has, none of them has content (where trees are not
      cloned in one step), and an uninterrupted run prunes only directories it makes again. That is
      always enough. The first two are always needed, and the last is, unless one of the planned
      removals deletes a directory that an earlier one prunes. */
  lemma ConvergesIffSettled(job: Job, sparing: bool, start: Disk)
    requires Ready(job)
    ensures Settled(job, start) && (sparing || LostAreBare(job, start)) && Tidy(job, start) ==> AlwaysConverges(job, sparing, start)
    ensures AlwaysConverges(job, sparing, start) ==> Settled(job, start) && (sparing || LostAreBare(job, start))
    ensures PrunedOnce(job, start) ==>
              (AlwaysConverges(job, sparing, start) <==>
               Settled(job, start) && (sparing || LostAreBare(job, start)) && Tidy(job, start))
  {
    hide *;
    ConvergesIff(job, sparing, start);
    TidyIff(job, start, Unchanged(job, start));
  }

  ghost predicate HasContent(job: Job)
    requires Ready(job)
  {
    forall k :: k in Solid(job) && k < |job.wanted| ==> !IsBare(job.trees[k])
  }

  /** So, when every package has content, what is needed is that none was lost: that no package is
      recorded in its wanted version without its directory. */
  lemma ConvergesIffNoneLost(job: Job, start: Disk)
    requires Ready(job) && HasContent(job)
    ensures AlwaysConverges(job, false, start) <==>
            Revived(job, start) == {} && PruningsDoNotShow(job, start, Unchanged(job, start))
    ensures PrunedOnce(job, start) ==> (AlwaysConverges(job, false, start) <==> Revived(job, start) == {} && Tidy(job, start))
  {
    assert Settled(job, start) && LostAreBare(job, start) <==> Revived(job, start) == {} by {
      if k :| k in Revived(job, start) { assert k in Solid(job) && k < |job.wanted|; }
    }
    hide *;
    ConvergesIff(job, false, start);
    TidyIff(job, start, Unchanged(job, start));
  }

  /** A run on a finished disk changes nothing. */
  lemma RunAgainChangesNothing(job: Job, start: Disk, kept: set<nat>, unpruned: set<nat>, unpruned': set<nat>)
    requires Ready(job) && kept <= Solid(job)
    ensures var disk := Outcome(job, start, kept, unpruned);
            Outcome(job, disk, Unchanged(job, disk), unpruned') == disk
  {
    var disk := Outcome(job, start, kept, unpruned);
    OutcomeIsSettled(job, start, kept, unpruned);
    OutcomeRewritten(job, start, kept, unpruned);
    NothingToPut(job, |job.wanted|, disk);
    assert Solid(job) - Unchanged(job, disk) == {};
  }

  lemma {:induction false} NothingToPut(job: Job, n: nat, disk: Disk)
    requires n <= |job.wanted| == |job.trees|
    ensures PutAll(job, {}, n, disk) == disk
  {
    if n > 0 { NothingToPut(job, n - 1, disk); }
  }

  // ----- what ends up in the directories ----------------------------------------------------------------------

  /** Below its root the package is exactly its store entry. */
  ghost predicate Holds(job: Job, k: nat, disk: Disk)
    requires k < |job.wanted| == |job.trees|
  {
    forall x :: job.wanted[k].root <= x ==> Get(disk, x) == Inside(job, k, x)
  }

  /** However a history of stopped runs ended, installed.json names every wanted package, and a
      package has exactly its own content if and only if it was not taken to be unchanged, or had
      that content before. */
  lemma InstallsWhatIsWanted(job: Job, start: Disk, kept: set<nat>, unpruned: set<nat>, k: nat)
    requires Ready(job) && IsSolid(job, k)
    ensures Recorded(Outcome(job, start, kept, unpruned), job.wanted[k])
    ensures Holds(job, k, Outcome(job, start, kept, unpruned)) <==> k !in Unchanged(job, start) || Holds(job, k, start)
  {
    OutcomeRecords(job, start, kept, unpruned);
    EntriesAt(job.wanted, kept, Records(start), k);
    hide Outcome, Ready, Unchanged, Inside;
    forall x | job.wanted[k].root <= x
      ensures Get(Outcome(job, start, kept, unpruned), x) == if k in Unchanged(job, start) then Get(start, x) else Inside(job, k, x)
    {
      OutcomeInside(job, start, kept, unpruned, k, x);
    }
  }

  /** The same of all finished histories. Only of a package that was lost a stop may have left part,
      and never anything else; where trees are cloned in one step not even that. */
  lemma FinishedHolds(job: Job, sparing: bool, start: Disk, last: Machine, k: nat)
    requires Ready(job) && IsSolid(job, k) && Leads(job, sparing, Machine(start, Idle), last) && last.run.Finished?
    ensures Recorded(last.disk, job.wanted[k])
    ensures sparing || k !in Revived(job, start) ==>
              (Holds(job, k, last.disk) <==> k !in Unchanged(job, start) || Holds(job, k, start))
    ensures k in Revived(job, start) ==>
              Holds(job, k, last.disk) || forall x :: job.wanted[k].root <= x ==> PartlyAt(job, k, last.disk, x)
  {
    assert k in Revived(job, start) ==> k !in Unchanged(job, start);
    hide Ready, Outcome, Leads, Revived, Unchanged, Records, Inside;
    var kept, unpruned, spoiled := FinishedEndsLike(job, sparing, start, last);
    EndsSettled(job, start, kept, unpruned, spoiled, last.disk);
    InstallsWhatIsWanted(job, start, kept, unpruned, k);
    SameRecords(Outcome(job, start, kept, unpruned), last.disk, job.wanted[k]);
    if k !in spoiled {
      EndsLikeAt(job, start, kept, unpruned, spoiled, last.disk, k);
      SameHolds(job, k, Outcome(job, start, kept, unpruned), last.disk);
    }
  }

  /** So a package is sure of its own content, however often its installs are stopped, if and only if it
      is unchanged and has it, or is laid out and was not lost, or has no content to lose. */
  lemma ContentIff(job: Job, sparing: bool, start: Disk, k: nat)
    requires Ready(job) && IsSolid(job, k)
    ensures (forall last :: Leads(job, sparing, Machine(start, Idle), last) && last.run.Finished? ==> Holds(job, k, last.disk)) <==>
            if k in Unchanged(job, start) then Holds(job, k, start)
            else sparing || k !in Revived(job, start) || IsBare(job.trees[k])
  {
    assert |job.trees| == |job.wanted|;
    assert k in Revived(job, start) ==> k !in Unchanged(job, start);
    assert PackageReady(job, k);
    hide Ready, Leads, Revived, Unchanged, Inside, Holds, PartlyAt;
    forall last | Leads(job, sparing, Machine(start, Idle), last) && last.run.Finished?
      ensures k in Unchanged(job, start) ==> (Holds(job, k, last.disk) <==> Holds(job, k, start))
      ensures k !in Unchanged(job, start) && (sparing || k !in Revived(job, start) || IsBare(job.trees[k])) ==> Holds(job, k, last.disk)
    {
      FinishedHolds(job, sparing, start, last, k);
      if IsBare(job.trees[k]) && (forall x :: job.wanted[k].root <= x ==> PartlyAt(job, k, last.disk, x)) {
        BareHolds(job, k, last.disk);
      }
    }
    if k in Unchanged(job, start) {
      var last := AnyFinished(job, sparing, start);
    } else if !sparing && k in Revived(job, start) && !IsBare(job.trees[k]) {
      var r := NotBare(job, k);
      var last := HalfCloneStays(job, start, k, r);
      InTree(job, k, r);
      assert Get(last.disk, job.wanted[k].dest + r) != Inside(job, k, job.wanted[k].dest + r);
      NotHeld(job, k, last.disk, job.wanted[k].dest + r);
    }
  }

  lemma AnyFinished(job: Job, sparing: bool, start: Disk) returns (last: Machine)
    requires Ready(job)
    ensures Leads(job, sparing, Machine(start, Idle), last) && last.run.Finished?
  {
    hide Ready, Leads;
    var g := StartFits(job, start);
    last := CanFinish(job, start, g, start);
    LeadsWithout(job, sparing, Machine(start, Idle), last);
  }

  lemma NotHeld(job: Job, k: nat, disk: Disk, x: Path)
    requires k < |job.wanted| == |job.trees| && job.wanted[k].root <= x && Get(disk, x) != Inside(job, k, x)
    ensures !Holds(job, k, disk)
  {
  }

  lemma NotBare(job: Job, k: nat) returns (r: Path)
    requires Ready(job) && IsSolid(job, k) && !IsBare(job.trees[k])
    ensures r != [] && r in job.trees[k]
  {
    assert PackageReady(job, k);
    OnlyItsRoot(job.trees[k]);
    r :| r in job.trees[k] && r != [];
  }

  lemma OnlyItsRoot(tree: Disk)
    requires Get(tree, []) == Some(Dir)
    ensures (forall r :: r in tree ==> r == []) ==> IsBare(tree)
  {
    if forall r :: r in tree ==> r == [] { assert tree.Keys == {[]}; }
  }

  /** Part of what has no content, with its destination, is all of it. */
  lemma BareHolds(job: Job, k: nat, disk: Disk)
    requires Ready(job) && IsSolid(job, k) && IsBare(job.trees[k])
    requires forall x :: job.wanted[k].root <= x ==> PartlyAt(job, k, disk, x)
    ensures Holds(job, k, disk)
  {
    assert |job.trees| == |job.wanted|;
    hide Ready;
    forall x | job.wanted[k].root <= x ensures Get(disk, x) == Inside(job, k, x) {
      assert PartlyAt(job, k, disk, x);
      if x <= job.wanted[k].dest { InsideAbove(job, k, x); } else { BareInside(job, k, x); }
    }
  }

  lemma EndsLikeAt(job: Job, start: Disk, kept: set<nat>, unpruned: set<nat>, spoiled: set<nat>, disk: Disk, k: nat)
    requires Ready(job) && IsSolid(job, k) && EndsLike(job, start, kept, unpruned, spoiled, disk) && k !in spoiled
    ensures forall x :: job.wanted[k].root <= x ==> Get(disk, x) == Get(Outcome(job, start, kept, unpruned), x)
  {
    forall x | job.wanted[k].root <= x ensures Get(disk, x) == Get(Outcome(job, start, kept, unpruned), x) {
      BesideSpoiled(job, start, spoiled, x);
    }
  }

  lemma SameHolds(job: Job, k: nat, disk: Disk, disk': Disk)
    requires k < |job.wanted| == |job.trees|
    requires forall x :: job.wanted[k].root <= x ==> Get(disk', x) == Get(disk, x)
    ensures Holds(job, k, disk') <==> Holds(job, k, disk)
  {
    hide Inside;
  }

  lemma SameRecords(start: Disk, disk: Disk, p: Package)
    requires Records(disk) == Records(start)
    ensures Recorded(disk, p) <==> Recorded(start, p)
  {
  }

  /** At no moment of any history is anything touched below the root of a package that was found
      unchanged at the start. */
  lemma UnchangedIsNeverTouched(job: Job, start: Disk, actions: seq<Action>, states: seq<Machine>, n: nat, k: nat, x: Path)
    requires Ready(job) && History(job, start, actions, states) && n < |states|
    requires k in Unchanged(job, start) && IsSolid(job, k) && job.wanted[k].root <= x
    ensures Get(states[n].disk, x) == Get(start, x)
  {
    var g := EveryHistoryFits(job, start, actions, states, n);
    SolidOutOfReach(job, k, x);
    assert k !in Revived(job, start);
    hide Ready, Clears, Outcome, Base, AllPut, Parents, History, Unspoiled;
    match g
    case Clearing(i, unpruned, lost) => ClearsKeeps(job, start, i, unpruned, lost, states[n].disk, x);
    case Working(unpruned, status, above) => UntouchedAt(job, start, unpruned, status, above, states[n].disk, k, x);
    case Complete(kept, unpruned, spoiled) =>
      EndsLikeAt(job, start, kept, unpruned, spoiled, states[n].disk, k);
      OutcomeInside(job, start, kept, unpruned, k, x);
  }

  lemma UntouchedAt(job: Job, start: Disk, unpruned: set<nat>, status: seq<Status>, above: set<Path>, disk: Disk, k: nat, x: Path)
    requires Ready(job) && Works(job, start, unpruned, status, above, disk)
    requires k in Unchanged(job, start) && IsSolid(job, k) && job.wanted[k].root <= x
    ensures Get(disk, x) == Get(start, x)
  {
    SolidOutOfReach(job, k, x);
    ClearedKeeps(job, start, |Removals(job, start)|, unpruned, x);
    assert LooksInside(job, Base(job, start, unpruned), k, status[k], disk);
    assert HasAt(job, Base(job, start, unpruned), k, status[k], disk, x);
  }

  // ----- a run under another lock --------------------------------------------------------------------------------

  /** A stopped run has given package `k` its content, while installed.json is still the old one. */
  lemma StoppedHolds(job: Job, start: Disk, g: Progress, disk: Disk, k: nat)
    requires Ready(job) && Fits(job, start, g, Machine(disk, Idle)) && IsSolid(job, k)
    requires g.Working? && k < |g.status| && g.status[k] == Cloned
    ensures Holds(job, k, disk) && Records(disk) == Records(start) && Get(disk, job.wanted[k].dest) == Some(Dir)
  {
    WorksKeepsState(job, start, g.unpruned, g.status, g.above, disk);
    WorksDest(job, start, g.unpruned, g.status, g.above, disk, k);
    assert LooksInside(job, Base(job, start, g.unpruned), k, g.status[k], disk);
    forall x | job.wanted[k].root <= x ensures Get(disk, x) == Inside(job, k, x) {
      assert HasAt(job, Base(job, start, g.unpruned), k, g.status[k], disk, x);
    }
  }

  /** Contents of one place agree exactly when the store entries do. */
  lemma SameTree(first: Job, second: Job, k: nat, j: nat)
    requires Ready(first) && Ready(second) && IsSolid(first, k) && IsSolid(second, j)
    requires first.wanted[k].root == second.wanted[j].root && first.wanted[k].dest == second.wanted[j].dest
    ensures (forall x :: first.wanted[k].root <= x ==> Inside(first, k, x) == Inside(second, j, x)) <==>
            first.trees[k] == second.trees[j]
  {
    var root, dest := first.wanted[k].root, first.wanted[k].dest;
    assert PackageReady(first, k);
    if forall x :: root <= x ==> Inside(first, k, x) == Inside(second, j, x) {
      forall r ensures Get(first.trees[k], r) == Get(second.trees[j], r) {
        assert (dest + r)[|dest|..] == r;
        AboveAbove(root, dest, dest + r);
        assert Inside(first, k, dest + r) == Inside(second, j, dest + r);
      }
      SameDisk(first.trees[k], second.trees[j]);
    }
  }

  lemma RecordedByFields(disk: Disk, p: Package)
    ensures Recorded(disk, p) <==>
            && STATE in disk && disk[STATE].State? && p.name in disk[STATE].records
            && disk[STATE].records[p.name].identity.version == p.identity.version
            && disk[STATE].records[p.name].identity.reference == p.identity.reference
  {
  }

  /** Two locks. A run under the first can stop right after it placed package `k`. Whenever the second
      lock's runs finish then, however often stopped themselves, its package of that place is recorded,
      and has its own content if and only if installed.json did not already record it before the first
      run with that version and reference, or the two store entries are the same. */
  lemma AnotherLockIsNotNoticed(first: Job, second: Job, start: Disk, k: nat, j: nat) returns (stopped: Disk)
    requires Ready(first) && Ready(second) && k in Todo(first, start) && IsSolid(first, k) && IsSolid(second, j)
    requires first.wanted[k].root == second.wanted[j].root && first.wanted[k].dest == second.wanted[j].dest
    ensures Leads(first, true, Machine(start, Idle), Machine(stopped, Idle))
    ensures forall last :: Leads(second, false, Machine(stopped, Idle), last) && last.run.Finished? ==>
              var q := second.wanted[j];
              && STATE in last.disk && last.disk[STATE].State? && q.name in last.disk[STATE].records
              && last.disk[STATE].records[q.name].identity.version == q.identity.version
              && last.disk[STATE].records[q.name].identity.reference == q.identity.reference
              && (Holds(second, j, last.disk) <==>
                  || !(STATE in start && start[STATE].State?) || q.name !in start[STATE].records
                  || start[STATE].records[q.name].identity.version != q.identity.version
                  || start[STATE].records[q.name].identity.reference != q.identity.reference
                  || first.trees[k] == second.trees[j])
  {
    RecordedByFields(start, second.wanted[j]);
    forall last: Machine { RecordedByFields(last.disk, second.wanted[j]); }
    var g;
    stopped, g := PlacedThenStopped(first, start, k);
    StoppedHolds(first, start, g, stopped, k);
    SameTree(first, second, k, j);
    assert j !in Revived(second, stopped);
    hide Ready, Outcome, Inside, Fits, Leads, Todo, Records, Revived;
    assert j in Unchanged(second, stopped) <==> Recorded(start, second.wanted[j]) by { SameRecords(start, stopped, second.wanted[j]); }
    HoldsIff(first, second, stopped, k, j);
    forall last | Leads(second, false, Machine(stopped, Idle), last) && last.run.Finished?
      ensures Recorded(last.disk, second.wanted[j])
      ensures Holds(second, j, last.disk) <==> j !in Unchanged(second, stopped) || Holds(second, j, stopped)
    {
      FinishedHolds(second, false, stopped, last, j);
    }
  }

  lemma HoldsIff(first: Job, second: Job, disk: Disk, k: nat, j: nat)
    requires Ready(first) && Ready(second) && IsSolid(first, k) && IsSolid(second, j)
    requires first.wanted[k].root == second.wanted[j].root && Holds(first, k, disk)
    ensures Holds(second, j, disk) <==> forall x :: first.wanted[k].root <= x ==> Inside(first, k, x) == Inside(second, j, x)
  {
    assert |first.trees| == |first.wanted|;
    hide Ready, Inside;
    var root := first.wanted[k].root;
    forall x | root <= x ensures Get(disk, x) == Inside(first, k, x) {}
  }

  // ----- the directory of the binaries ----------------------------------------------------------------------------

  /** installer.rs makes `vendor/bin` in a run that replaces a package that still stands, or removes
      one. What counts as standing is decided when the run begins. */
  ghost predicate Touches(job: Job, disk: Disk) {
    || (exists k: nat :: k in Todo(job, disk) && TouchesAt(job, disk, k))
    || (exists i: nat :: i < |Removals(job, disk)| && Removals(job, disk)[i] in disk)
  }

  /** A package that is recorded, in whatever version, and still stands. */
  predicate TouchesAt(job: Job, disk: Disk, k: nat) {
    k < |job.wanted| && job.wanted[k].name in Records(disk) && job.wanted[k].dest in disk
  }

  /** From every start a first run can be stopped where the next one does not make `vendor/bin`: with
      all packages wiped, and none cloned. */
  lemma TouchesCanBeLost(job: Job, start: Disk) returns (stopped: Disk)
    requires Ready(job)
    ensures Leads(job, true, Machine(start, Idle), Machine(stopped, Idle)) && !Touches(job, stopped)
  {
    var g;
    stopped, g := WipedThenStopped(job, start);
    var Working(unpruned, status, above) := g;
    WorksKeepsState(job, start, unpruned, status, above, stopped);
    WorksUnchanged(job, start, unpruned, status, above, stopped);
    assert Removals(job, stopped) == Removals(job, start);
    hide Ready, Leads, Works, Unchanged, Removals, Records, Fits;
    forall k: nat | k in Todo(job, stopped) && k < |job.wanted| ensures job.wanted[k].dest !in stopped {
      WorksDest(job, start, unpruned, status, above, stopped, k);
    }
    forall i: nat | i < |Removals(job, stopped)| ensures Removals(job, stopped)[i] !in stopped {
      WorksCleared(job, start, unpruned, status, above, stopped, i);
    }
  }

  /** It can be won, too: right behind the clone of a package recorded in another version. */
  lemma TouchesCanBeWon(job: Job, start: Disk, k: nat) returns (stopped: Disk)
    requires Ready(job) && k in Todo(job, start) && k < |job.wanted|
    requires job.wanted[k].name in Records(start) && !Recorded(start, job.wanted[k])
    ensures Leads(job, true, Machine(start, Idle), Machine(stopped, Idle)) && Touches(job, stopped)
  {
    assert IsSolid(job, k);
    var g;
    stopped, g := PlacedThenStopped(job, start, k);
    StoppedHolds(job, start, g, stopped, k);
    hide Leads, Fits, Records, Holds;
    SameRecords(start, stopped, job.wanted[k]);
    assert k in Todo(job, stopped) && TouchesAt(job, stopped, k);
  }

  /** Every wanted package that is to be laid out and recorded is recorded in its wanted version. */
  predicate NoOtherVersions(job: Job, start: Disk) {
    forall k :: k in Todo(job, start) && k < |job.wanted| && job.wanted[k].name in Records(start) ==> Recorded(start, job.wanted[k])
  }

  /** However runs were stopped, the next one decides about `vendor/bin` as the first one did, if and
      only if there is nothing standing to replace or remove, and no package to be laid out is
      recorded in another version. */
  lemma TouchesIff(job: Job, sparing: bool, start: Disk)
    requires Ready(job)
    ensures (forall stopped :: Leads(job, sparing, Machine(start, Idle), Machine(stopped, Idle)) ==>
               (Touches(job, stopped) <==> Touches(job, start))) <==>
            !Touches(job, start) && NoOtherVersions(job, start)
  {
    hide Ready, Leads, Touches;
    if !Touches(job, start) && NoOtherVersions(job, start) {
      forall stopped | Leads(job, sparing, Machine(start, Idle), Machine(stopped, Idle)) ensures !Touches(job, stopped) {
        StaysUntouched(job, sparing, start, stopped);
      }
    }
    var stopped := TouchesCanBeLost(job, start);
    LeadsWithout(job, sparing, Machine(start, Idle), Machine(stopped, Idle));
    if !NoOtherVersions(job, start) {
      var k :| k in Todo(job, start) && k < |job.wanted| && job.wanted[k].name in Records(start) && !Recorded(start, job.wanted[k]);
      var won := TouchesCanBeWon(job, start, k);
      LeadsWithout(job, sparing, Machine(start, Idle), Machine(won, Idle));
    }
  }

  lemma StaysUntouched(job: Job, sparing: bool, start: Disk, stopped: Disk)
    requires Ready(job) && Leads(job, sparing, Machine(start, Idle), Machine(stopped, Idle))
    requires !Touches(job, start) && NoOtherVersions(job, start)
    ensures !Touches(job, stopped)
  {
    hide Ready, Touches, NoOtherVersions, WholeClones;
    LeadsIsHistory(job, sparing, start, Machine(stopped, Idle));
    var actions: seq<Action>, states: seq<Machine> :|
      History(job, start, actions, states) && |states| == |actions| + 1 && (sparing ==> WholeClones(job, actions, states)) &&
      states[|actions|] == Machine(stopped, Idle);
    var g := EveryHistoryFits(job, start, actions, states, |actions|);
    hide History, Works, Clears, EndsLike, Unspoiled;
    match g
    case Clearing(n, unpruned, lost) => ClearingTouches(job, start, n, unpruned, lost, stopped);
    case Working(unpruned, status, above) => WorkingTouches(job, start, unpruned, status, above, stopped);
    case Complete(kept, unpruned, spoiled) => CompleteTouches(job, start, kept, unpruned, spoiled, stopped);
  }

  lemma ClearingTouches(job: Job, start: Disk, n: nat, unpruned: set<nat>, lost: set<Path>, stopped: Disk)
    requires Ready(job) && Clears(job, start, n, unpruned, lost, stopped) && !Touches(job, start)
    ensures !Touches(job, stopped)
  {
    ClearsUnchanged(job, start, n, unpruned, lost, stopped);
    assert Removals(job, stopped) == Removals(job, start);
    forall k: nat | k in Todo(job, stopped) ensures !TouchesAt(job, stopped, k) {
      assert k in Todo(job, start) && IsSolid(job, k) && PackageReady(job, k) && !TouchesAt(job, start, k);
      SolidOutOfReach(job, k, job.wanted[k].dest);
      ClearsKeeps(job, start, n, unpruned, lost, stopped, job.wanted[k].dest);
    }
    forall i: nat | i < |Removals(job, stopped)| ensures Removals(job, stopped)[i] !in stopped {
      RemovalsProper(job, start);
      RemoveAllAddsNothing(start, Removals(job, start)[..n], unpruned, Removals(job, start)[i]);
      assert Removals(job, start)[i] !in start;
    }
  }

  lemma WorkingTouches(job: Job, start: Disk, unpruned: set<nat>, status: seq<Status>, above: set<Path>, stopped: Disk)
    requires Ready(job) && Works(job, start, unpruned, status, above, stopped) && !Touches(job, start) && NoOtherVersions(job, start)
    ensures !Touches(job, stopped)
  {
    WorksKeepsState(job, start, unpruned, status, above, stopped);
    WorksUnchanged(job, start, unpruned, status, above, stopped);
    assert Removals(job, stopped) == Removals(job, start) && StatusFits(job, start, status);
    forall k: nat | k in Todo(job, stopped) ensures !TouchesAt(job, stopped, k) {
      if TouchesAt(job, stopped, k) {
        assert k in Revived(job, start) && !TouchesAt(job, start, k);
        hide Works, Ready;
        WorksDest(job, start, unpruned, status, above, stopped, k);
        assert false;
      }
    }
    forall i: nat | i < |Removals(job, stopped)| ensures Removals(job, stopped)[i] !in stopped {
      hide Works, Ready;
      WorksCleared(job, start, unpruned, status, above, stopped, i);
    }
  }

  lemma CompleteTouches(job: Job, start: Disk, kept: set<nat>, unpruned: set<nat>, spoiled: set<nat>, stopped: Disk)
    requires Ready(job) && EndsLike(job, start, kept, unpruned, spoiled, stopped)
    ensures !Touches(job, stopped)
  {
    hide Ready, EndsLike;
    EndsSettled(job, start, kept, unpruned, spoiled, stopped);
  }

  // ----- what is never completed ----------------------------------------------------------------------------------

  /** A clone that stops half way in a directory recorded in the wanted version is never completed:
      once its directory exists, the next run leaves whatever is in it. */
  lemma HalfAcloneIsKept(job: Job, disk: Disk, kept: set<nat>, unpruned: set<nat>, k: nat, x: Path)
    requires Ready(job) && IsSolid(job, k) && Get(disk, job.wanted[k].dest) == Some(Dir) && job.wanted[k].root <= x
    requires var p := job.wanted[k];
             && STATE in disk && disk[STATE].State? && p.name in disk[STATE].records
             && disk[STATE].records[p.name].identity.version == p.identity.version
             && disk[STATE].records[p.name].identity.reference == p.identity.reference
    ensures Get(Outcome(job, disk, kept, unpruned), x) == Get(disk, x)
  {
    assert k in Unchanged(job, disk);
    OutcomeInside(job, disk, kept, unpruned, k, x);
  }
}
