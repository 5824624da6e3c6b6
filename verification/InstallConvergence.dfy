/** However an install is interrupted and repeated, it ends in one disk: the invariant of all
    histories, convergence, and the inputs on which convergence fails. */
module InstallConvergence {
  import opened Common
  import opened InstallTransaction
  import opened InstallRuns

  /** Packages to lay out, seen from the start. */
  function Todo(job: Job, start: Disk): set<nat> { Solid(job) - Unchanged(job, start) }

  /** Packages recorded in their wanted version whose directory is gone. */
  function Revived(job: Job, start: Disk): set<nat> {
    set k | k in Todo(job, start) && k < |job.wanted| && Recorded(start, job.wanted[k])
  }

  ghost function Base(job: Job, start: Disk, unpruned: set<nat>): Disk
    requires Ready(job)
  {
    Cleared(job, start, |Removals(job, start)|, unpruned)
  }

  // ----- a disk in the middle of placing ------------------------------------------------------------------

  ghost predicate Works(job: Job, start: Disk, unpruned: set<nat>, status: seq<Status>, above: set<Path>, disk: Disk)
    requires Ready(job)
  {
    Looks(job, Base(job, start, unpruned), status, above, disk) && Parents(job, Todo(job, start), status, above) &&
    StatusFits(job, start, status)
  }

  predicate StatusFits(job: Job, start: Disk, status: seq<Status>) {
    |status| == |job.wanted| &&
    forall k :: 0 <= k < |status| ==>
      (status[k] != Untouched ==> k in Todo(job, start)) && (status[k] == Dirty ==> k !in Revived(job, start)) &&
      (status[k] == Gone || status[k] == Spoiled ==> k in Revived(job, start))
  }

  lemma SolidOutOfReach(job: Job, k: nat, y: Path)
    requires Ready(job) && IsSolid(job, k) && job.wanted[k].root <= y
    ensures OutOfReach(job, y)
  {
  }

  lemma StateIsUnowned(job: Job, todo: set<nat>)
    requires Ready(job) && todo <= Solid(job)
    ensures Unowned(job, STATE) && !OnTheWay(job, todo, STATE)
  {
    forall k: nat | IsSolid(job, k) ensures !Nested(job.wanted[k].root, STATE) { assert PackageReady(job, k); }
  }

  /** The state file is as it was. */
  lemma WorksKeepsState(job: Job, start: Disk, unpruned: set<nat>, status: seq<Status>, above: set<Path>, disk: Disk)
    requires Ready(job) && Works(job, start, unpruned, status, above, disk)
    ensures Get(disk, STATE) == Get(start, STATE) && Records(disk) == Records(start)
  {
    StateIsUnowned(job, Todo(job, start));
    ClearedKeeps(job, start, |Removals(job, start)|, unpruned, STATE);
    assert Get(disk, STATE) == Outside(Base(job, start, unpruned), above, STATE);
    assert Get(Base(job, start, unpruned), STATE) == Get(start, STATE);
  }

  lemma WorksDest(job: Job, start: Disk, unpruned: set<nat>, status: seq<Status>, above: set<Path>, disk: Disk, k: nat)
    requires Ready(job) && Works(job, start, unpruned, status, above, disk) && IsSolid(job, k)
    ensures status[k] == Untouched ==> Get(disk, job.wanted[k].dest) == Get(start, job.wanted[k].dest)
    ensures status[k] == Wiped ==> Get(disk, job.wanted[k].dest) == None
    ensures status[k].Stands() ==> Get(disk, job.wanted[k].dest) == Some(Dir)
    ensures status[k] == Gone ==>
              Get(disk, job.wanted[k].dest) == None || Get(disk, job.wanted[k].dest) == Get(start, job.wanted[k].dest)
  {
    var dest := job.wanted[k].dest;
    assert PackageReady(job, k);
    SolidOutOfReach(job, k, dest);
    ClearedKeeps(job, start, |Removals(job, start)|, unpruned, dest);
    assert LooksInside(job, Base(job, start, unpruned), k, status[k], disk);
    assert HasAt(job, Base(job, start, unpruned), k, status[k], disk, dest);
    assert dest[|dest|..] == [];
  }

  function Standing(status: seq<Status>): set<nat> { set k: nat | k < |status| && status[k].Stands() }

  /** What a run started here would find unchanged: a package it had lost counts once its destination
      stands, whatever is in it. */
  lemma WorksUnchanged(job: Job, start: Disk, unpruned: set<nat>, status: seq<Status>, above: set<Path>, disk: Disk)
    requires Ready(job) && Works(job, start, unpruned, status, above, disk)
    ensures Unchanged(job, disk) == Unchanged(job, start) + (Revived(job, start) * Standing(status))
  {
    WorksKeepsState(job, start, unpruned, status, above, disk);
    forall k: nat | k < |job.wanted|
      ensures k in Unchanged(job, disk) <==> k in Unchanged(job, start) || (k in Revived(job, start) && status[k].Stands())
    {
      if IsSolid(job, k) { WorksDest(job, start, unpruned, status, above, disk, k); }
      assert Recorded(disk, job.wanted[k]) == Recorded(start, job.wanted[k]);
    }
  }

  /** The removed directories stay away. */
  lemma WorksCleared(job: Job, start: Disk, unpruned: set<nat>, status: seq<Status>, above: set<Path>, disk: Disk, i: nat)
    requires Ready(job) && Works(job, start, unpruned, status, above, disk) && i < |Removals(job, start)|
    ensures Removals(job, start)[i] != [] && Removals(job, start)[i] !in disk
  {
    var dir := Removals(job, start)[i];
    RemovalsProper(job, start);
    assert dir in Removals(job, start);
    AlreadyGone(job, start, |Removals(job, start)|, unpruned, i);
    assert Apart(job, dir);
    assert Unowned(job, dir);
    assert !OnTheWay(job, Todo(job, start), dir);
    assert Get(disk, dir) == Outside(Base(job, start, unpruned), above, dir);
  }

  // ----- how far a history has come ---------------------------------------------------------------------------

  datatype Progress =
    | Clearing(n: nat, unpruned: set<nat>, lost: set<Path>)
    | Working(unpruned: set<nat>, status: seq<Status>, above: set<Path>)
    | Complete(kept: set<nat>, unpruned: set<nat>, spoiled: set<nat>)

  /** No package that was lost is spoiled. */
  predicate Unspoiled(g: Progress) {
    match g
    case Clearing(_, _, _) => true
    case Working(_, status, _) => SpoiledOnes(status) == {}
    case Complete(_, _, spoiled) => spoiled == {}
  }

  lemma StaysUnspoiled(status: seq<Status>, k: nat, to: Status)
    requires k < |status| && to != Spoiled && SpoiledOnes(status) == {}
    ensures SpoiledOnes(status[k := to]) == {}
  {
    var status' := status[k := to];
    forall i: nat | i < |status'| ensures status'[i] != Spoiled { assert i !in SpoiledOnes(status); }
  }

  ghost predicate DiskFits(job: Job, start: Disk, g: Progress, disk: Disk)
    requires Ready(job)
  {
    match g
    case Clearing(n, unpruned, lost) => Clears(job, start, n, unpruned, lost, disk)
    case Working(unpruned, status, above) => InPlan(job, start, unpruned) && Works(job, start, unpruned, status, above, disk)
    case Complete(kept, unpruned, spoiled) =>
      Between(job, start, kept) && InPlan(job, start, unpruned) && EndsLike(job, start, kept, unpruned, spoiled, disk)
  }

  /** The outcome, but for packages that were lost, and of which a stop left part of a clone. */
  ghost predicate EndsLike(job: Job, start: Disk, kept: set<nat>, unpruned: set<nat>, spoiled: set<nat>, disk: Disk)
    requires Ready(job)
  {
    spoiled <= kept * Revived(job, start) &&
    (forall x :: !Below(job, spoiled, x) ==> Get(disk, x) == Get(Outcome(job, start, kept, unpruned), x)) &&
    forall k, x :: k in spoiled && k < |job.wanted| && job.wanted[k].root <= x ==> PartlyAt(job, k, disk, x)
  }

  lemma NoneSpoiled(job: Job, start: Disk, kept: set<nat>, unpruned: set<nat>, disk: Disk)
    requires Ready(job) && EndsLike(job, start, kept, unpruned, {}, disk)
    ensures disk == Outcome(job, start, kept, unpruned)
  {
    forall x ensures Get(disk, x) == Get(Outcome(job, start, kept, unpruned), x) { assert !Below(job, {}, x); }
    SameDisk(disk, Outcome(job, start, kept, unpruned));
  }

  /** Removals of the plan. */
  predicate InPlan(job: Job, start: Disk, unpruned: set<nat>) {
    forall i :: i in unpruned ==> i < |Removals(job, start)|
  }

  /** Sets of packages whose recorded metadata may survive. */
  predicate Between(job: Job, start: Disk, kept: set<nat>) {
    Unchanged(job, start) <= kept <= Unchanged(job, start) + Revived(job, start)
  }

  predicate RunFits(job: Job, start: Disk, g: Progress, run: Run) {
    match g
    case Clearing(n, _, _) =>
      (match run
       case Idle => true
       case Removing(same, dirs, next) => same == Unchanged(job, start) && dirs == Removals(job, start) && next <= n && next <= |dirs|
       case _ => false)
    case Working(_, status, _) =>
      (match run
       case Idle => true
       case Removing(same, dirs, next) =>
         same == Unchanged(job, start) + (Revived(job, start) * Standing(status)) &&
         dirs == Removals(job, start) && next <= |dirs|
       case Placing(same, pending, wiped) => PlacingFits(job, start, status, same, pending, wiped)
       case Finished => false)
    case Complete(_, _, _) =>
      (match run
       case Removing(same, dirs, next) => same == Solid(job) && dirs == [] && next == 0
       case Placing(same, pending, wiped) => same == Solid(job) && pending == {} && wiped == {}
       case _ => true)
  }

  predicate PlacingFits(job: Job, start: Disk, status: seq<Status>, same: set<nat>, pending: set<nat>, wiped: set<nat>) {
    Between(job, start, same) && pending <= Todo(job, start) && wiped <= Todo(job, start) &&
    same * (pending + wiped) == {} && pending * wiped == {} &&
    forall k :: k in Todo(job, start) && k < |status| ==>
      (k in wiped ==> status[k] == Wiped) && (k !in pending && k !in wiped ==> status[k] == Cloned || (k in same && status[k] == Spoiled)) &&
      (k in pending && k in Revived(job, start) ==> !status[k].Stands())
  }

  ghost predicate Fits(job: Job, start: Disk, g: Progress, s: Machine)
    requires Ready(job)
  {
    DiskFits(job, start, g, s.disk) && RunFits(job, start, g, s.run)
  }

  // ----- the finished disk --------------------------------------------------------------------------------------

  lemma {:induction false} EntriesAt(wanted: seq<Package>, kept: set<nat>, earlier: map<string, Record>, k: nat)
    requires forall i: nat, j: nat :: i < j < |wanted| ==> wanted[i].name != wanted[j].name
    requires k < |wanted|
    ensures wanted[k].name in Entries(wanted, kept, earlier)
    ensures Entries(wanted, kept, earlier)[wanted[k].name] == Entry(wanted[k], k in kept, earlier)
    decreases |wanted|
  {
    var n := |wanted| - 1;
    if k < n { EntriesAt(wanted[..n], kept, earlier, k); }
  }

  lemma {:induction false} EntriesNames(wanted: seq<Package>, kept: set<nat>, earlier: map<string, Record>, name: string)
    ensures name in Entries(wanted, kept, earlier) <==> exists k :: 0 <= k < |wanted| && wanted[k].name == name
    decreases |wanted|
  {
    if wanted != [] {
      var n := |wanted| - 1;
      EntriesNames(wanted[..n], kept, earlier, name);
      if exists k :: 0 <= k < |wanted| && wanted[k].name == name {
        var k :| 0 <= k < |wanted| && wanted[k].name == name;
        assert k < n ==> wanted[..n][k].name == name;
      }
      if k :| 0 <= k < n && wanted[..n][k].name == name {
        assert wanted[k].name == name;
      }
    }
  }

  /** Entries agree when each package's entry does. */
  lemma SameEntries(job: Job, kept: set<nat>, earlier: map<string, Record>, kept': set<nat>, earlier': map<string, Record>)
    requires Ready(job)
    requires forall k: nat :: k < |job.wanted| ==>
               Entry(job.wanted[k], k in kept, earlier) == Entry(job.wanted[k], k in kept', earlier')
    ensures Entries(job.wanted, kept, earlier) == Entries(job.wanted, kept', earlier')
  {
    hide Entries, Entry;
    var e, e' := Entries(job.wanted, kept, earlier), Entries(job.wanted, kept', earlier');
    forall name ensures (name in e <==> name in e') && (name in e ==> e[name] == e'[name]) {
      EntriesNames(job.wanted, kept, earlier, name);
      EntriesNames(job.wanted, kept', earlier', name);
      if name in e {
        var k: nat :| k < |job.wanted| && job.wanted[k].name == name;
        EntriesAt(job.wanted, kept, earlier, k);
        EntriesAt(job.wanted, kept', earlier', k);
      }
    }
    assert e.Keys == e'.Keys;
  }

  ghost function AllPut(job: Job, start: Disk, unpruned: set<nat>): Disk
    requires Ready(job)
  {
    PutAll(job, Todo(job, start), |job.wanted|, Base(job, start, unpruned))
  }

  function AllDone(job: Job, start: Disk): seq<Status> { Done(|job.wanted|, Todo(job, start), |job.wanted|) }

  lemma OutcomeIs(job: Job, start: Disk, kept: set<nat>, unpruned: set<nat>)
    requires Ready(job)
    ensures Outcome(job, start, kept, unpruned) == WriteState(AllPut(job, start, unpruned), Entries(job.wanted, kept, Records(start)))
  {
    RemovalsProper(job, start);
    var dirs := Removals(job, start);
    assert dirs[..|dirs|] == dirs;
  }

  lemma AllPutWorks(job: Job, start: Disk, unpruned: set<nat>) returns (above: set<Path>)
    requires Ready(job)
    ensures Works(job, start, unpruned, AllDone(job, start), above, AllPut(job, start, unpruned))
  {
    assert forall k :: k in Todo(job, start) ==> IsSolid(job, k);
    hide Looks, Parents, Ready;
    above := PutAllLooks(job, Todo(job, start), |job.wanted|, Base(job, start, unpruned));
  }

  lemma OutcomeRecords(job: Job, start: Disk, kept: set<nat>, unpruned: set<nat>)
    requires Ready(job)
    ensures Records(Outcome(job, start, kept, unpruned)) == Entries(job.wanted, kept, Records(start))
  {
    OutcomeIs(job, start, kept, unpruned);
    GetWritten(AllPut(job, start, unpruned), Entries(job.wanted, kept, Records(start)), STATE);
  }

  /** Writing the state file does not reach into a package. */
  lemma OutcomeBelowRoot(job: Job, start: Disk, kept: set<nat>, unpruned: set<nat>, k: nat, y: Path)
    requires Ready(job) && IsSolid(job, k) && job.wanted[k].root <= y
    ensures Get(Outcome(job, start, kept, unpruned), y) == Get(AllPut(job, start, unpruned), y)
  {
    OutcomeIs(job, start, kept, unpruned);
    assert PackageReady(job, k);
    GetWritten(AllPut(job, start, unpruned), Entries(job.wanted, kept, Records(start)), y);
    AboveAbove(job.wanted[k].root, y, STATE);
  }

  lemma OutcomeDest(job: Job, start: Disk, kept: set<nat>, unpruned: set<nat>, k: nat)
    requires Ready(job) && IsSolid(job, k)
    ensures Get(Outcome(job, start, kept, unpruned), job.wanted[k].dest) == Some(Dir)
  {
    hide Looks, Parents, Outcome, AllPut;
    var above := AllPutWorks(job, start, unpruned);
    WorksDest(job, start, unpruned, AllDone(job, start), above, AllPut(job, start, unpruned), k);
    assert PackageReady(job, k);
    OutcomeBelowRoot(job, start, kept, unpruned, k, job.wanted[k].dest);
  }

  /** On a finished disk everything wanted is unchanged and nothing is left to remove. */
  lemma OutcomeIsSettled(job: Job, start: Disk, kept: set<nat>, unpruned: set<nat>)
    requires Ready(job)
    ensures Unchanged(job, Outcome(job, start, kept, unpruned)) == Solid(job)
    ensures Removals(job, Outcome(job, start, kept, unpruned)) == []
  {
    var disk := Outcome(job, start, kept, unpruned);
    OutcomeRecords(job, start, kept, unpruned);
    forall k: nat | k < |job.wanted| ensures Recorded(disk, job.wanted[k]) {
      EntriesAt(job.wanted, kept, Records(start), k);
    }
    forall k: nat | IsSolid(job, k) ensures Get(disk, job.wanted[k].dest) == Some(Dir) { OutcomeDest(job, start, kept, unpruned, k); }
    forall i | 0 <= i < |job.removals| ensures job.removals[i].0 !in Records(disk) {
      assert RemovalReady(job, job.removals[i]);
      EntriesNames(job.wanted, kept, Records(start), job.removals[i].0);
    }
    PlannedReady(job.removals, Records(disk));
    SomeElement(Removals(job, disk));
  }

  lemma SomeElement(dirs: seq<Path>)
    ensures dirs == [] || exists d :: d in dirs
  {
    if dirs != [] { assert dirs[0] in dirs; }
  }

  /** Writing the state of a finished disk again leaves it as it is. */
  lemma OutcomeRewritten(job: Job, start: Disk, kept: set<nat>, unpruned: set<nat>)
    requires Ready(job) && kept <= Solid(job)
    ensures var disk := Outcome(job, start, kept, unpruned);
            WriteState(disk, Entries(job.wanted, Solid(job), Records(disk))) == disk
  {
    var disk := Outcome(job, start, kept, unpruned);
    var e := Entries(job.wanted, kept, Records(start));
    OutcomeRecords(job, start, kept, unpruned);
    forall k: nat | k < |job.wanted|
      ensures Entry(job.wanted[k], k in Solid(job), e) == Entry(job.wanted[k], k in kept, Records(start))
    {
      EntriesAt(job.wanted, kept, Records(start), k);
    }
    SameEntries(job, Solid(job), e, kept, Records(start));
    OutcomeIs(job, start, kept, unpruned);
    forall x ensures Get(WriteState(disk, e), x) == Get(disk, x) {
      GetWritten(disk, e, x);
      GetWritten(AllPut(job, start, unpruned), e, x);
    }
    SameDisk(WriteState(disk, e), disk);
  }

  // ----- a disk that ends like it ---------------------------------------------------------------------------

  lemma BesideSpoiled(job: Job, start: Disk, spoiled: set<nat>, x: Path)
    requires Ready(job) && spoiled <= Revived(job, start)
    ensures x <= STATE ==> !Below(job, spoiled, x)
    ensures forall k: nat :: IsSolid(job, k) && job.wanted[k].root <= x && k !in spoiled ==> !Below(job, spoiled, x)
  {
    forall j | j in spoiled ensures IsSolid(job, j) && !Nested(job.wanted[j].root, STATE) { assert PackageReady(job, j); }
    if x <= STATE && Below(job, spoiled, x) {
      var j :| j in spoiled && j < |job.wanted| && job.wanted[j].root <= x;
      AboveAbove(job.wanted[j].root, x, STATE);
    }
    forall k: nat | IsSolid(job, k) && job.wanted[k].root <= x && k !in spoiled ensures !Below(job, spoiled, x) {
      forall j | j in spoiled ensures !(job.wanted[j].root <= x) { OtherRoot(job, j, k, x); }
    }
  }

  lemma EndsSettled(job: Job, start: Disk, kept: set<nat>, unpruned: set<nat>, spoiled: set<nat>, disk: Disk)
    requires Ready(job) && EndsLike(job, start, kept, unpruned, spoiled, disk)
    ensures Get(disk, STATE) == Get(Outcome(job, start, kept, unpruned), STATE)
    ensures Records(disk) == Records(Outcome(job, start, kept, unpruned))
    ensures Unchanged(job, disk) == Solid(job) && Removals(job, disk) == []
  {
    var outcome := Outcome(job, start, kept, unpruned);
    OutcomeIsSettled(job, start, kept, unpruned);
    BesideSpoiled(job, start, spoiled, STATE);
    assert Get(disk, STATE) == Get(outcome, STATE);
    forall k: nat | IsSolid(job, k) ensures IsUnchanged(disk, job.wanted[k]) {
      var dest := job.wanted[k].dest;
      assert k in Unchanged(job, outcome) && PackageReady(job, k);
      if k in spoiled {
        assert PartlyAt(job, k, disk, dest);
      } else {
        BesideSpoiled(job, start, spoiled, dest);
        assert Get(disk, dest) == Get(outcome, dest);
      }
    }
  }

  /** Writing its state again leaves it as it is. */
  lemma EndsRewritten(job: Job, start: Disk, kept: set<nat>, unpruned: set<nat>, spoiled: set<nat>, disk: Disk)
    requires Ready(job) && kept <= Solid(job) && EndsLike(job, start, kept, unpruned, spoiled, disk)
    ensures WriteState(disk, Entries(job.wanted, Solid(job), Records(disk))) == disk
  {
    var outcome := Outcome(job, start, kept, unpruned);
    EndsSettled(job, start, kept, unpruned, spoiled, disk);
    OutcomeRewritten(job, start, kept, unpruned);
    hide Ready, Outcome, Entries, Records, WriteState;
    var e := Entries(job.wanted, Solid(job), Records(disk));
    forall x ensures Get(WriteState(disk, e), x) == Get(disk, x) {
      GetWritten(disk, e, x);
      GetWritten(outcome, e, x);
      if x <= STATE {
        BesideSpoiled(job, start, spoiled, x);
        assert Get(disk, x) == Get(outcome, x);
      }
    }
    SameDisk(WriteState(disk, e), disk);
  }

  // ----- every step keeps the invariant -------------------------------------------------------------------

  lemma ClearsUnchanged(job: Job, start: Disk, n: nat, unpruned: set<nat>, lost: set<Path>, disk: Disk)
    requires Ready(job) && Clears(job, start, n, unpruned, lost, disk)
    ensures Records(disk) == Records(start) && Unchanged(job, disk) == Unchanged(job, start)
  {
    ClearsKeeps(job, start, n, unpruned, lost, disk, STATE);
    forall k: nat | k < |job.wanted| ensures IsUnchanged(disk, job.wanted[k]) == IsUnchanged(start, job.wanted[k]) {
      assert Recorded(disk, job.wanted[k]) == Recorded(start, job.wanted[k]);
      if IsSolid(job, k) {
        assert PackageReady(job, k);
        SolidOutOfReach(job, k, job.wanted[k].dest);
        ClearsKeeps(job, start, n, unpruned, lost, disk, job.wanted[k].dest);
      }
    }
  }

  lemma BeginFits(job: Job, start: Disk, g: Progress, s: Machine, s': Machine)
    requires Ready(job) && Fits(job, start, g, s) && Step(job, Begin, s, s')
    ensures Fits(job, start, g, s')
  {
    hide Ready, Clears, Works;
    match g
    case Clearing(n, unpruned, lost) => ClearsUnchanged(job, start, n, unpruned, lost, s.disk);
    case Working(unpruned, status, above) =>
      WorksUnchanged(job, start, unpruned, status, above, s.disk);
      WorksKeepsState(job, start, unpruned, status, above, s.disk);
    case Complete(kept, unpruned, spoiled) => EndsSettled(job, start, kept, unpruned, spoiled, s.disk);
  }

  lemma RemoveFits(job: Job, start: Disk, g: Progress, s: Machine, s': Machine) returns (g': Progress)
    requires Ready(job) && Fits(job, start, g, s) && Step(job, RemoveNext, s, s')
    ensures Fits(job, start, g', s') && (g'.Complete? <==> g.Complete?) && g'.unpruned == g.unpruned
    ensures Unspoiled(g) ==> Unspoiled(g')
  {
    hide Ready, Clears, Works, Removals;
    g' := g;
    match g
    case Clearing(n, unpruned, lost) =>
      var n', lost' := ClearsStep(job, start, n, unpruned, lost, s.disk, s.run.next);
      g' := Clearing(n', unpruned, lost');
    case Working(unpruned, status, above) => WorksCleared(job, start, unpruned, status, above, s.disk, s.run.next);
    case Complete(_, _, _) =>
  }

  /** Packages that stand are not laid out again. */
  lemma StandingIsPlaced(job: Job, start: Disk, status: seq<Status>, same: set<nat>)
    requires StatusFits(job, start, status) && same == Unchanged(job, start) + (Revived(job, start) * Standing(status))
    ensures PlacingFits(job, start, status, same, Solid(job) - same, {})
  {
    forall k | k in Todo(job, start) && k < |status|
      ensures k !in Solid(job) - same ==> status[k] == Cloned || (k in same && status[k] == Spoiled)
      ensures k in Solid(job) - same && k in Revived(job, start) ==> !status[k].Stands()
    {
    }
  }

  lemma BeginPlacingFits(job: Job, start: Disk, g: Progress, s: Machine, s': Machine) returns (g': Progress)
    requires Ready(job) && Fits(job, start, g, s) && Step(job, BeginPlacing, s, s')
    ensures Fits(job, start, g', s') && (!g.Complete? ==> g'.Working?) && g'.unpruned == g.unpruned
    ensures Unspoiled(g) ==> Unspoiled(g')
  {
    g' := g;
    match g
    case Clearing(n, unpruned, lost) =>
      assert s.disk == Base(job, start, unpruned) - {} == Base(job, start, unpruned);
      var status := seq(|job.wanted|, _ => Untouched);
      LooksFresh(job, Base(job, start, unpruned));
      ParentsFresh(job, Todo(job, start), status);
      g' := Working(unpruned, status, {});
    case Working(unpruned, status, above) =>
      StandingIsPlaced(job, start, status, s.run.same);
    case Complete(_, _, _) =>
  }

  lemma ParentsAfterWipe(job: Job, todo: set<nat>, status: seq<Status>, above: set<Path>, k: nat, to: Status)
    requires |status| == |job.wanted| && k < |status| && Parents(job, todo, status, above) && !to.Stands()
    ensures Parents(job, todo, status[k := to], above)
  {
  }

  /** The package whose turn it is, wiped or cloned. */
  lemma PlacingGoesOn(job: Job, start: Disk, status: seq<Status>, same: set<nat>, pending: set<nat>, wiped: set<nat>, k: nat)
    requires StatusFits(job, start, status) && PlacingFits(job, start, status, same, pending, wiped)
    requires k < |job.wanted|
    ensures k in pending ==>
              StatusFits(job, start, status[k := Wiped]) && PlacingFits(job, start, status[k := Wiped], same, pending - {k}, wiped + {k})
    ensures k in wiped ==>
              StatusFits(job, start, status[k := Cloned]) && PlacingFits(job, start, status[k := Cloned], same, pending, wiped - {k})
    ensures k in pending || k in wiped ==> k in Todo(job, start) && IsSolid(job, k)
    ensures k in wiped ==> status[k] == Wiped
  {
  }

  lemma WipeFits(job: Job, start: Disk, g: Progress, s: Machine, s': Machine, k: nat) returns (g': Progress)
    requires Ready(job) && Fits(job, start, g, s) && Step(job, Wipe(k), s, s') && g.Working?
    ensures Fits(job, start, g', s') && g'.Working? && g'.unpruned == g.unpruned && (Unspoiled(g) ==> Unspoiled(g'))
  {
    hide Ready, Looks, Parents, PlacingFits, StatusFits, Todo, IsSolid;
    var Working(unpruned, status, above) := g;
    PlacingGoesOn(job, start, status, s.run.same, s.run.pending, s.run.wiped, k);
    LooksAfterWipe(job, Base(job, start, unpruned), status, above, s.disk, k);
    assert |status| == |job.wanted| by { StatusLength(job, start, status); }
    ParentsAfterWipe(job, Todo(job, start), status, above, k, Wiped);
    g' := Working(unpruned, status[k := Wiped], above);
    if Unspoiled(g) { StaysUnspoiled(status, k, Wiped); }
  }

  lemma StatusLength(job: Job, start: Disk, status: seq<Status>)
    requires StatusFits(job, start, status)
    ensures |status| == |job.wanted|
  {
  }

  lemma CloneFits(job: Job, start: Disk, g: Progress, s: Machine, s': Machine, k: nat) returns (g': Progress)
    requires Ready(job) && Fits(job, start, g, s) && Step(job, CloneTree(k), s, s') && g.Working?
    ensures Fits(job, start, g', s') && g'.Working? && g'.unpruned == g.unpruned && k < |g'.status| && g'.status[k] == Cloned
    ensures Unspoiled(g) ==> Unspoiled(g')
  {
    assert k < |job.trees|;
    hide Ready, Looks, Parents, PlacingFits, StatusFits, Todo, IsSolid;
    var Working(unpruned, status, above) := g;
    PlacingGoesOn(job, start, status, s.run.same, s.run.pending, s.run.wiped, k);
    LooksAfterClone(job, Base(job, start, unpruned), status, above, s.disk, k);
    assert |status| == |job.wanted| by { StatusLength(job, start, status); }
    ParentsAfterClone(job, Todo(job, start), status, above, k);
    g' := Working(unpruned, status[k := Cloned], above + Prefixes(job.wanted[k].root));
    if Unspoiled(g) { StaysUnspoiled(status, k, Cloned); }
  }

  /** Only while packages are placed is one wiped or cloned. */
  lemma PlacingMeansWorking(job: Job, start: Disk, g: Progress, s: Machine, k: nat)
    requires Ready(job) && Fits(job, start, g, s) && s.run.Placing? && (k in s.run.pending || k in s.run.wiped)
    ensures g.Working?
  {
  }

  /** All that were to be laid out stand. */
  lemma AllStand(job: Job, start: Disk, status: seq<Status>, same: set<nat>)
    requires Ready(job) && StatusFits(job, start, status) && PlacingFits(job, start, status, same, {}, {})
    ensures |status| == |AllDone(job, start)| && SpoiledOnes(status) <= same * Revived(job, start)
    ensures forall k: nat :: k < |status| ==>
              status[k] == AllDone(job, start)[k] || (AllDone(job, start)[k] == Cloned && status[k] == Spoiled)
    ensures forall k: nat :: k < |status| ==> status[k] != Dirty && status[k] != Gone
    ensures forall k :: k in Todo(job, start) ==> k < |status| && status[k].Stands()
  {
    forall k: nat | k < |status|
      ensures status[k] == AllDone(job, start)[k] || (AllDone(job, start)[k] == Cloned && status[k] == Spoiled)
    {
      if k in Todo(job, start) { assert status[k] == Cloned || status[k] == Spoiled; }
    }
  }

  lemma WriteFits(job: Job, start: Disk, g: Progress, s: Machine, s': Machine) returns (g': Progress)
    requires Ready(job) && Fits(job, start, g, s) && Step(job, WriteStateFile, s, s')
    ensures Fits(job, start, g', s') && g'.Complete?
    ensures g.Working? ==> g' == Complete(s.run.same, g.unpruned, SpoiledOnes(g.status))
    ensures g.Complete? ==> g' == g
    ensures Unspoiled(g) ==> Unspoiled(g')
  {
    hide Works, Ready, Outcome, Entries, WriteState, Records, Removals, Unchanged, PlacingFits, EndsLike, SpoiledOnes;
    if g.Working? {
      assert s.run.pending == {} && s.run.wiped == {};
      WrittenEndsLike(job, start, g.unpruned, g.status, g.above, s.disk, s.run.same);
      g' := Complete(s.run.same, g.unpruned, SpoiledOnes(g.status));
    } else {
      BetweenIsSolid(job, start, g.kept);
      EndsRewritten(job, start, g.kept, g.unpruned, g.spoiled, s.disk);
      g' := g;
    }
  }

  lemma BetweenIsSolid(job: Job, start: Disk, kept: set<nat>)
    requires Between(job, start, kept)
    ensures kept <= Solid(job)
  {
  }

  lemma WrittenEndsLike(job: Job, start: Disk, unpruned: set<nat>, status: seq<Status>, above: set<Path>, disk: Disk, same: set<nat>)
    requires Ready(job) && Works(job, start, unpruned, status, above, disk) && PlacingFits(job, start, status, same, {}, {})
    ensures Between(job, start, same)
    ensures EndsLike(job, start, same, unpruned, SpoiledOnes(status), WriteState(disk, Entries(job.wanted, same, Records(disk))))
  {
    assert |job.trees| == |job.wanted|;
    AllStand(job, start, status, same);
    WorksKeepsState(job, start, unpruned, status, above, disk);
    OutcomeIs(job, start, same, unpruned);
    assert Between(job, start, same);
    hide Ready, Outcome, AllPut, Records, Entries, WriteState, Base, PlacingFits, Parents, StatusFits, Between, Below;
    AllPlaced(job, start, unpruned, status, above, disk, same);
    var spoiled, e := SpoiledOnes(status), Entries(job.wanted, same, Records(start));
    var written := WriteState(disk, e);
    forall x | !Below(job, spoiled, x) ensures Get(written, x) == Get(Outcome(job, start, same, unpruned), x) {
      GetWritten(disk, e, x);
      GetWritten(AllPut(job, start, unpruned), e, x);
      assert Get(disk, x) == Get(AllPut(job, start, unpruned), x);
    }
    forall k, x | k in spoiled && k < |job.wanted| && job.wanted[k].root <= x ensures PartlyAt(job, k, written, x) {
      PartlyWritten(job, start, unpruned, status, above, disk, e, k, x);
    }
  }

  lemma PartlyWritten(job: Job, start: Disk, unpruned: set<nat>, status: seq<Status>, above: set<Path>, disk: Disk,
                      e: map<string, Record>, k: nat, x: Path)
    requires Ready(job) && Works(job, start, unpruned, status, above, disk) && k in SpoiledOnes(status)
    requires k < |job.wanted| && job.wanted[k].root <= x
    ensures PartlyAt(job, k, WriteState(disk, e), x)
  {
    assert IsSolid(job, k) && PackageReady(job, k);
    assert LooksInside(job, Base(job, start, unpruned), k, Spoiled, disk);
    assert HasAt(job, Base(job, start, unpruned), k, Spoiled, disk, x);
    GetWritten(disk, e, x);
    AboveAbove(job.wanted[k].root, x, STATE);
  }

  /** When every package stands, the disk is the one placing in lock order gives, but for what is in
      spoiled packages. */
  lemma AllPlaced(job: Job, start: Disk, unpruned: set<nat>, status: seq<Status>, above: set<Path>, disk: Disk, same: set<nat>)
    requires Ready(job) && Works(job, start, unpruned, status, above, disk) && PlacingFits(job, start, status, same, {}, {})
    ensures forall x :: !Below(job, SpoiledOnes(status), x) ==> Get(disk, x) == Get(AllPut(job, start, unpruned), x)
    ensures Records(disk) == Records(start)
  {
    WorksKeepsState(job, start, unpruned, status, above, disk);
    AllStand(job, start, status, same);
    hide Looks, Ready, AllPut, PlacingFits, Records, Base, SpoiledOnes, AllDone, Below, Parents;
    var above' := AllPutWorks(job, start, unpruned);
    ParentsMaySpoil(job, Todo(job, start), AllDone(job, start), status, above');
    ClonedMaySpoil(job, Base(job, start, unpruned), AllDone(job, start), status, above', AllPut(job, start, unpruned));
    LooksTheSame(job, Base(job, start, unpruned), Todo(job, start), status, above, disk, above', AllPut(job, start, unpruned));
  }

  lemma ParentsMaySpoil(job: Job, todo: set<nat>, status: seq<Status>, status': seq<Status>, above: set<Path>)
    requires |status| == |status'| == |job.wanted| && Parents(job, todo, status, above)
    requires forall k: nat :: k < |status| ==> status'[k] == status[k] || (status[k] == Cloned && status'[k] == Spoiled)
    ensures Parents(job, todo, status', above)
  {
  }

  lemma CrashRemovingFits(job: Job, start: Disk, g: Progress, s: Machine, s': Machine, lost: set<Path>) returns (g': Progress)
    requires Ready(job) && Fits(job, start, g, s) && Step(job, CrashRemoving(lost), s, s')
    ensures Fits(job, start, g', s')
    ensures Unspoiled(g) ==> Unspoiled(g')
  {
    hide Ready, Works, Removals, Clears;
    g' := g;
    match g
    case Clearing(n, unpruned, before) =>
      ClearsLose(job, start, n, unpruned, before, s.disk, s.run.next, lost);
      g' := Clearing(n, unpruned, before + lost);
    case Working(unpruned, status, above) =>
      WorksCleared(job, start, unpruned, status, above, s.disk, s.run.next);
      assert false;
  }

  lemma StopUnprunedFits(job: Job, start: Disk, g: Progress, s: Machine, s': Machine) returns (g': Progress)
    requires Ready(job) && Fits(job, start, g, s) && Step(job, StopUnpruned, s, s')
    ensures Fits(job, start, g', s') && g'.Clearing? && g'.unpruned == g.unpruned + {s.run.next}
  {
    hide Ready, Works, Removals, Clears;
    match g
    case Clearing(n, unpruned, lost) =>
      ClearsTurn(job, start, n, unpruned, lost, s.disk, s.run.next);
      ClearsUnpruned(job, start, n, unpruned, lost, s.disk, s.run.next);
      g' := Clearing(n + 1, unpruned + {n}, {});
    case Working(unpruned, status, above) =>
      WorksCleared(job, start, unpruned, status, above, s.disk, s.run.next);
      assert false;
  }

  // ----- stops while packages are placed ------------------------------------------------------------------

  /** What a stop makes of a package that was half done. */
  function AfterStop(job: Job, start: Disk, k: nat, disk: Disk): Status
    requires k < |job.wanted|
  {
    if k !in Revived(job, start) then Dirty
    else if Get(disk, job.wanted[k].dest) == Some(Dir) then Spoiled
    else Gone
  }

  function Crashed(job: Job, start: Disk, status: seq<Status>, midway: set<nat>, disk: Disk): seq<Status>
    requires |status| == |job.wanted|
  {
    seq(|status|, k requires 0 <= k < |status| => if k in midway then AfterStop(job, start, k, disk) else status[k])
  }

  /** The parents of the destinations a stop left standing. */
  function SpoiledParents(job: Job, start: Disk, midway: set<nat>, disk: Disk): set<Path> {
    set k, x | k in midway && k < |job.wanted| && AfterStop(job, start, k, disk) == Spoiled && x in Prefixes(job.wanted[k].root) :: x
  }

  lemma SpoiledParentsAre(job: Job, start: Disk, midway: set<nat>, disk: Disk, x: Path)
    ensures x in SpoiledParents(job, start, midway, disk) <==>
            exists k :: k in midway && k < |job.wanted| && AfterStop(job, start, k, disk) == Spoiled && x < job.wanted[k].root
  {
    if x in SpoiledParents(job, start, midway, disk) {
      var k :| k in midway && k < |job.wanted| && AfterStop(job, start, k, disk) == Spoiled && x in Prefixes(job.wanted[k].root);
      PrefixesAre(job.wanted[k].root, x);
    }
    if k :| k in midway && k < |job.wanted| && AfterStop(job, start, k, disk) == Spoiled && x < job.wanted[k].root {
      PrefixesAre(job.wanted[k].root, x);
    }
  }

  /** What a stop needs to be: half done packages were to be placed, and one that is recorded in its
      wanted version did not stand. */
  ghost predicate MayStop(job: Job, start: Disk, base: Disk, status: seq<Status>, midway: set<nat>, disk: Disk, disk': Disk)
    requires |job.trees| == |job.wanted| == |status|
  {
    HalfDone(job, midway, disk, disk') && Records(disk) == Records(start) &&
    forall k :: k in midway ==> StopsAt(job, start, base, status, k)
  }

  predicate StopsAt(job: Job, start: Disk, base: Disk, status: seq<Status>, k: nat)
    requires |job.wanted| == |status|
  {
    k in Todo(job, start) && IsSolid(job, k) && Get(base, job.wanted[k].dest) == Get(start, job.wanted[k].dest) &&
    (k in Revived(job, start) ==> status[k] == Untouched || status[k] == Wiped || status[k] == Gone)
  }

  lemma PartOfAClone(job: Job, k: nat, disk: Disk)
    requires Ready(job) && IsSolid(job, k) && HalfCloned(job, k, disk) && job.wanted[k].dest in disk
    ensures forall x :: job.wanted[k].root <= x ==> PartlyAt(job, k, disk, x)
  {
    forall x | job.wanted[k].root <= x ensures PartlyAt(job, k, disk, x) {
      if x <= job.wanted[k].dest {
        InsideAbove(job, k, x);
        assert x == job.wanted[k].dest || x < job.wanted[k].dest;
        assert x in disk;
      }
    }
  }

  /** A lost package that a stop left half done: its destination is no directory, or there is part of
      a clone. */
  lemma RevivedAfterStop(job: Job, start: Disk, base: Disk, status: seq<Status>, midway: set<nat>, disk: Disk, disk': Disk, k: nat)
    requires Ready(job) && |status| == |job.wanted| && MayStop(job, start, base, status, midway, disk, disk')
    requires k in midway && k in Revived(job, start) && LooksInside(job, base, k, status[k], disk)
    ensures LooksInside(job, base, k, AfterStop(job, start, k, disk'), disk')
    ensures AfterStop(job, start, k, disk') == Spoiled ==> forall x :: x < job.wanted[k].dest ==> x in disk'
  {
    assert |job.trees| == |job.wanted| && PackageReady(job, k);
    var dest := job.wanted[k].dest;
    assert Recorded(disk, job.wanted[k]) && Get(start, dest) != Some(Dir);
    assert HasAt(job, base, k, status[k], disk, dest);
    assert Inside(job, k, dest) == Some(Dir) by { InsideAbove(job, k, dest); }
    assert Get(disk, dest) == None || Get(disk, dest) == Get(base, dest);
    if Get(disk', dest) == Some(Dir) {
      assert HalfCloned(job, k, disk');
      PartOfAClone(job, k, disk');
      forall x | job.wanted[k].root <= x ensures HasAt(job, base, k, Spoiled, disk', x) {}
    } else {
      forall x | job.wanted[k].root <= x ensures HasAt(job, base, k, Gone, disk', x) {}
    }
  }

  /** Everywhere else the disk still looks as it should. */
  lemma LooksAfterCrash(job: Job, start: Disk, base: Disk, status: seq<Status>, above: set<Path>, disk: Disk, midway: set<nat>, disk': Disk)
      returns (above': set<Path>)
    requires Ready(job) && Looks(job, base, status, above, disk) && MayStop(job, start, base, status, midway, disk, disk')
    ensures Looks(job, base, Crashed(job, start, status, midway, disk'), above', disk') && above <= above'
    ensures SpoiledParents(job, start, midway, disk') <= above'
    ensures forall x :: x in above' && x !in above ==> OnTheWay(job, midway, x)
  {
    assert |job.trees| == |job.wanted|;
    var fresh' := set x | x in disk' && x !in disk && OnTheWay(job, midway, x);
    above' := above + fresh' + SpoiledParents(job, start, midway, disk');
    forall j: nat | IsSolid(job, j) ensures LooksInside(job, base, j, Crashed(job, start, status, midway, disk')[j], disk') {
      InsideAfterCrash(job, start, base, j, status, disk, midway, disk');
    }
    forall x | x in above' && x !in above ensures OnTheWay(job, midway, x) { SpoiledParentsAre(job, start, midway, disk', x); }
    hide Ready, AfterStop, SpoiledParents, Crashed, LooksInside, Todo, Revived;
    forall x | Unowned(job, x) ensures Get(disk', x) == Outside(base, above', x) {
      OutsideAfterCrash(job, start, base, status, above, disk, midway, disk', x);
    }
  }

  lemma OutsideAfterCrash(job: Job, start: Disk, base: Disk, status: seq<Status>, above: set<Path>, disk: Disk, midway: set<nat>,
                          disk': Disk, x: Path)
    requires Ready(job) && Looks(job, base, status, above, disk) && MayStop(job, start, base, status, midway, disk, disk')
    requires Unowned(job, x)
    ensures var above' := above + (set y | y in disk' && y !in disk && OnTheWay(job, midway, y)) + SpoiledParents(job, start, midway, disk');
            Get(disk', x) == Outside(base, above', x)
  {
    UnownedIsNotBelow(job, midway, x);
    assert Get(disk, x) == Outside(base, above, x);
    SpoiledParentsAre(job, start, midway, disk', x);
    if k :| k in midway && k < |job.wanted| && AfterStop(job, start, k, disk') == Spoiled && x < job.wanted[k].root {
      assert LooksInside(job, base, k, status[k], disk) && PackageReady(job, k);
      RevivedAfterStop(job, start, base, status, midway, disk, disk', k);
      assert x < job.wanted[k].dest && x in disk';
    }
  }

  lemma UnownedIsNotBelow(job: Job, midway: set<nat>, x: Path)
    requires Unowned(job, x) && forall k :: k in midway ==> IsSolid(job, k)
    ensures !Below(job, midway, x)
  {
  }

  lemma InsideAfterCrash(job: Job, start: Disk, base: Disk, j: nat, status: seq<Status>, disk: Disk, midway: set<nat>, disk': Disk)
    requires Ready(job) && IsSolid(job, j) && |status| == |job.wanted| && MayStop(job, start, base, status, midway, disk, disk')
    requires LooksInside(job, base, j, status[j], disk)
    ensures LooksInside(job, base, j, if j in midway then AfterStop(job, start, j, disk') else status[j], disk')
  {
    assert |job.trees| == |job.wanted|;
    if j in midway && j in Revived(job, start) {
      RevivedAfterStop(job, start, base, status, midway, disk, disk', j);
    } else if j !in midway {
      hide Ready, Below, OnTheWay;
      forall x | job.wanted[j].root <= x ensures HasAt(job, base, j, status[j], disk', x) {
        OtherRoots(job, midway, j, x);
        assert HasAt(job, base, j, status[j], disk, x);
      }
    }
  }

  lemma OtherRoots(job: Job, midway: set<nat>, j: nat, x: Path)
    requires Ready(job) && IsSolid(job, j) && j !in midway && job.wanted[j].root <= x
    requires forall k :: k in midway ==> IsSolid(job, k)
    ensures !Below(job, midway, x) && !OnTheWay(job, midway, x)
  {
    forall k | k in midway ensures !(job.wanted[k].root <= x) && !(x <= job.wanted[k].root) { OtherRoot(job, k, j, x); }
  }

  lemma ParentsAfterCrash(job: Job, start: Disk, todo: set<nat>, status: seq<Status>, above: set<Path>, midway: set<nat>,
                          disk': Disk, above': set<Path>)
    requires |status| == |job.wanted| && Parents(job, todo, status, above) && midway <= todo && above <= above'
    requires SpoiledParents(job, start, midway, disk') <= above'
    requires forall x :: x in above' && x !in above ==> OnTheWay(job, midway, x)
    ensures Parents(job, todo, Crashed(job, start, status, midway, disk'), above')
  {
    forall x | x in above' ensures OnTheWay(job, todo, x) {
      if x !in above {
        var k :| k in midway && k < |job.wanted| && x < job.wanted[k].root;
        assert k in todo;
      }
    }
    var status' := Crashed(job, start, status, midway, disk');
    forall k: nat, x | k in todo && k < |status'| && status'[k].Stands() && x < job.wanted[k].root ensures x in above' {
      if k in midway { SpoiledParentsAre(job, start, midway, disk', x); }
    }
  }

  lemma NothingMidway(job: Job, disk: Disk, disk': Disk)
    requires |job.trees| == |job.wanted| && HalfDone(job, {}, disk, disk')
    ensures disk' == disk
  {
    forall x ensures Get(disk', x) == Get(disk, x) { assert !Below(job, {}, x); }
    SameDisk(disk', disk);
  }

  /** A stop spares recorded packages when it leaves none of them half done. */
  ghost predicate Spares(job: Job, a: Action, disk: Disk) {
    a.Crash? ==> forall k :: k in a.midway && k < |job.wanted| ==> !Recorded(disk, job.wanted[k])
  }

  lemma CrashedFits(job: Job, start: Disk, base: Disk, status: seq<Status>, midway: set<nat>, disk: Disk, disk': Disk)
    requires Ready(job) && StatusFits(job, start, status) && MayStop(job, start, base, status, midway, disk, disk')
    ensures StatusFits(job, start, Crashed(job, start, status, midway, disk'))
    ensures SpoiledOnes(status) == {} && (forall k :: k in midway ==> k !in Revived(job, start)) ==>
              SpoiledOnes(Crashed(job, start, status, midway, disk')) == {}
  {
    assert |job.trees| == |job.wanted|;
    hide Ready, HalfDone, Revived, Todo;
    forall k: nat | k < |status| && k !in SpoiledOnes(status) ensures status[k] != Spoiled {}
  }

  lemma WorksHasLength(job: Job, start: Disk, unpruned: set<nat>, status: seq<Status>, above: set<Path>, disk: Disk)
    requires Ready(job) && Works(job, start, unpruned, status, above, disk)
    ensures |status| == |job.wanted| == |job.trees|
  {
  }

  lemma WorksAfterCrash(job: Job, start: Disk, unpruned: set<nat>, status: seq<Status>, above: set<Path>, disk: Disk, midway: set<nat>,
                        disk': Disk) returns (above': set<Path>)
    requires Ready(job) && Works(job, start, unpruned, status, above, disk) && midway <= Todo(job, start)
    requires |status| == |job.wanted| == |job.trees|
    requires MayStop(job, start, Base(job, start, unpruned), status, midway, disk, disk')
    ensures Works(job, start, unpruned, Crashed(job, start, status, midway, disk'), above', disk')
    ensures SpoiledOnes(status) == {} && (forall k :: k in midway ==> k !in Revived(job, start)) ==>
              SpoiledOnes(Crashed(job, start, status, midway, disk')) == {}
  {
    hide Ready, Looks, Parents, MayStop, Crashed, StatusFits;
    above' := LooksAfterCrash(job, start, Base(job, start, unpruned), status, above, disk, midway, disk');
    ParentsAfterCrash(job, start, Todo(job, start), status, above, midway, disk', above');
    CrashedFits(job, start, Base(job, start, unpruned), status, midway, disk, disk');
  }

  /** Only a run that works leaves a package half done. */
  lemma NotPlacing(job: Job, start: Disk, g: Progress, s: Machine, s': Machine, midway: set<nat>)
    requires Ready(job) && Fits(job, start, g, s) && Step(job, Crash(midway), s, s') && midway != {}
    ensures g.Working?
  {
    var k :| k in midway;
    PlacingMeansWorking(job, start, g, s, k);
  }

  lemma StopNowhere(job: Job, start: Disk, g: Progress, s: Machine, s': Machine)
    requires Ready(job) && Fits(job, start, g, s) && Step(job, Crash({}), s, s')
    ensures Fits(job, start, g, s')
  {
    assert |job.trees| == |job.wanted|;
    hide Ready, Works, Clears, HalfDone, EndsLike;
    NothingMidway(job, s.disk, s'.disk);
  }

  lemma StopMidway(job: Job, start: Disk, g: Progress, s: Machine, s': Machine, midway: set<nat>) returns (g': Progress)
    requires Ready(job) && Fits(job, start, g, s) && Step(job, Crash(midway), s, s') && midway != {} && g.Working?
    ensures Fits(job, start, g', s')
    ensures Unspoiled(g) && Spares(job, Crash(midway), s.disk) ==> Unspoiled(g')
  {
    hide Ready, Works, Clears, HalfDone, EndsLike, MayStop, Crashed, PlacingFits, Spares, Todo, Revived, SpoiledOnes, Records, Between, InPlan;
    var Working(unpruned, status, above) := g;
    WorksHasLength(job, start, unpruned, status, above, s.disk);
    WorksKeepsState(job, start, unpruned, status, above, s.disk);
    StopIsInTurn(job, start, g, s, s', midway);
    var above' := WorksAfterCrash(job, start, unpruned, status, above, s.disk, midway, s'.disk);
    g' := Working(unpruned, Crashed(job, start, status, midway, s'.disk), above');
  }

  lemma CrashFits(job: Job, start: Disk, g: Progress, s: Machine, s': Machine, midway: set<nat>) returns (g': Progress)
    requires Ready(job) && Fits(job, start, g, s) && Step(job, Crash(midway), s, s')
    ensures Fits(job, start, g', s') && (midway == {} ==> g' == g)
    ensures Unspoiled(g) && Spares(job, Crash(midway), s.disk) ==> Unspoiled(g')
  {
    hide *;
    g' := g;
    if midway == {} {
      StopNowhere(job, start, g, s, s');
    } else {
      NotPlacing(job, start, g, s, s', midway);
      g' := StopMidway(job, start, g, s, s', midway);
    }
  }

  lemma StopIsInTurn(job: Job, start: Disk, g: Progress, s: Machine, s': Machine, midway: set<nat>)
    requires Ready(job) && Fits(job, start, g, s) && Step(job, Crash(midway), s, s') && midway != {} && g.Working?
    requires Records(s.disk) == Records(start) && |g.status| == |job.wanted|
    ensures MayStop(job, start, Base(job, start, g.unpruned), g.status, midway, s.disk, s'.disk) && midway <= Todo(job, start)
    ensures Spares(job, Crash(midway), s.disk) ==> forall k :: k in midway ==> k !in Revived(job, start)
  {
    hide Looks, Parents, HalfDone, Ready;
    forall k | k in midway
      ensures StopsAt(job, start, Base(job, start, g.unpruned), g.status, k)
    {
      assert k in s.run.pending || k in s.run.wiped;
      SolidBase(job, start, g.unpruned, k);
    }
  }

  lemma SolidBase(job: Job, start: Disk, unpruned: set<nat>, k: nat)
    requires Ready(job) && IsSolid(job, k)
    ensures Get(Base(job, start, unpruned), job.wanted[k].dest) == Get(start, job.wanted[k].dest)
  {
    assert PackageReady(job, k);
    SolidOutOfReach(job, k, job.wanted[k].dest);
    ClearedKeeps(job, start, |Removals(job, start)|, unpruned, job.wanted[k].dest);
  }

  lemma TakesItsTurn(job: Job, start: Disk, g: Progress, a: Action, s: Machine, s': Machine, k: nat)
    requires Ready(job) && Fits(job, start, g, s) && Step(job, a, s, s') && (a == Wipe(k) || a == CloneTree(k))
    ensures g.Working?
  {
    PlacingMeansWorking(job, start, g, s, k);
  }

  lemma StepFits(job: Job, start: Disk, g: Progress, a: Action, s: Machine, s': Machine) returns (g': Progress)
    requires Ready(job) && Fits(job, start, g, s) && Step(job, a, s, s')
    ensures Fits(job, start, g', s')
    ensures Unspoiled(g) && Spares(job, a, s.disk) ==> Unspoiled(g')
  {
    hide Ready, Fits, Step;
    match a
    case Begin => BeginFits(job, start, g, s, s'); g' := g;
    case RemoveNext => g' := RemoveFits(job, start, g, s, s');
    case BeginPlacing => g' := BeginPlacingFits(job, start, g, s, s');
    case Wipe(k) =>
      TakesItsTurn(job, start, g, a, s, s', k);
      g' := WipeFits(job, start, g, s, s', k);
    case CloneTree(k) =>
      TakesItsTurn(job, start, g, a, s, s', k);
      g' := CloneFits(job, start, g, s, s', k);
    case WriteStateFile => g' := WriteFits(job, start, g, s, s');
    case CrashRemoving(lost) => g' := CrashRemovingFits(job, start, g, s, s', lost);
    case StopUnpruned => g' := StopUnprunedFits(job, start, g, s, s');
    case Crash(midway) => g' := CrashFits(job, start, g, s, s', midway);
  }

  // ----- convergence --------------------------------------------------------------------------------------------

  /** Clones of packages recorded in their wanted version are one step: no stop leaves one half done. */
  ghost predicate WholeClones(job: Job, actions: seq<Action>, states: seq<Machine>)
    requires |states| > |actions|
  {
    forall i :: 0 <= i < |actions| ==> Spares(job, actions[i], states[i].disk)
  }

  /** Every state of every history is on the way to an end like the outcome. */
  lemma {:induction false} EveryHistoryFits(job: Job, start: Disk, actions: seq<Action>, states: seq<Machine>, n: nat)
      returns (g: Progress)
    requires Ready(job) && History(job, start, actions, states) && n < |states|
    ensures Fits(job, start, g, states[n])
    ensures WholeClones(job, actions, states) ==> Unspoiled(g)
  {
    if n == 0 {
      g := Clearing(0, {}, {});
      assert Removals(job, start)[..0] == [];
      RemovalsProper(job, start);
      assert Cleared(job, start, 0, {}) - {} == start;
    } else {
      var before := EveryHistoryFits(job, start, actions, states, n - 1);
      assert Step(job, actions[n - 1], states[n - 1], states[n]);
      hide Ready, Fits, Unspoiled;
      g := StepFits(job, start, before, actions[n - 1], states[n - 1], states[n]);
    }
  }

  /** However often the install was stopped and run again, in whatever order packages were placed:
      once it finishes, the disk is the outcome, up to whose metadata installed.json keeps, which
      emptied parents were left, and what is in packages that were lost and half cloned. */
  lemma Converges(job: Job, start: Disk, actions: seq<Action>, states: seq<Machine>)
    requires Ready(job) && History(job, start, actions, states) && states[|actions|].run.Finished?
    ensures exists kept, unpruned, spoiled :: Between(job, start, kept) && InPlan(job, start, unpruned) &&
              EndsLike(job, start, kept, unpruned, spoiled, states[|actions|].disk) &&
              (WholeClones(job, actions, states) ==> spoiled == {})
  {
    hide Ready, Works, Clears, Outcome, EndsLike;
    var g := EveryHistoryFits(job, start, actions, states, |actions|);
    var Complete(kept, unpruned, spoiled) := g;
    assert Between(job, start, kept) && InPlan(job, start, unpruned) && EndsLike(job, start, kept, unpruned, spoiled, states[|actions|].disk);
  }
}
