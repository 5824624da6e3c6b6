/** Histories that exist: how a stopped run can be carried through, and stops that can happen. */
module InstallReach {
  import opened Common
  import opened InstallTransaction
  import opened InstallRuns
  import opened InstallConvergence

  // ----- states that can be reached -------------------------------------------------------------------------

  /** Some course of actions leads from `s` to `t`; a sparing one never stops in the middle of a package
      that is recorded in its wanted version. */
  ghost predicate Leads(job: Job, sparing: bool, s: Machine, t: Machine)
    requires Ready(job)
  {
    exists actions, states ::
      Runs(job, s, actions, states) && (sparing ==> WholeClones(job, actions, states)) && states[|actions|] == t
  }

  lemma LeadsNowhere(job: Job, s: Machine)
    requires Ready(job)
    ensures Leads(job, true, s, s)
  {
    assert Runs(job, s, [], [s]) && WholeClones(job, [], [s]);
  }

  lemma LeadsByStep(job: Job, sparing: bool, a: Action, s: Machine, t: Machine)
    requires Ready(job) && Step(job, a, s, t) && (sparing ==> Spares(job, a, s.disk))
    ensures Leads(job, sparing, s, t)
  {
    assert Runs(job, s, [a], [s, t]) && (sparing ==> WholeClones(job, [a], [s, t]));
  }

  lemma LeadsOn(job: Job, sparing: bool, s: Machine, t: Machine, u: Machine)
    requires Ready(job) && Leads(job, sparing, s, t) && Leads(job, sparing, t, u)
    ensures Leads(job, sparing, s, u)
  {
    hide Ready, Step, Spares;
    var actions, states :| Runs(job, s, actions, states) && (sparing ==> WholeClones(job, actions, states)) && states[|actions|] == t;
    var more, further :| Runs(job, t, more, further) && (sparing ==> WholeClones(job, more, further)) && further[|more|] == u;
    var acts, all := actions + more, states + further[1..];
    forall i | 0 <= i < |acts|
      ensures Step(job, acts[i], all[i], all[i + 1]) && (sparing ==> Spares(job, acts[i], all[i].disk))
    {
      if i < |actions| {
        assert Step(job, actions[i], states[i], states[i + 1]);
      } else {
        assert Step(job, more[i - |actions|], further[i - |actions|], further[i - |actions| + 1]);
      }
    }
    assert Runs(job, s, acts, all) && (sparing ==> WholeClones(job, acts, all)) && all[|acts|] == u;
  }

  lemma LeadsAnyway(job: Job, s: Machine, t: Machine)
    requires Ready(job) && Leads(job, true, s, t)
    ensures Leads(job, false, s, t)
  {
  }

  /** One action first, then the rest. */
  lemma LeadsFirst(job: Job, a: Action, s: Machine, t: Machine, u: Machine)
    requires Ready(job) && Step(job, a, s, t) && Spares(job, a, s.disk) && Leads(job, true, t, u)
    ensures Leads(job, true, s, u)
  {
    hide Ready, Step, Leads;
    LeadsByStep(job, true, a, s, t);
    LeadsOn(job, true, s, t, u);
  }

  // ----- runs that can be continued ------------------------------------------------------------------------

  /** The removals of a run can always be gone through. */
  lemma {:induction false} CanRemove(job: Job, start: Disk, g: Progress, s: Machine) returns (t: Machine, g': Progress)
    requires Ready(job) && Fits(job, start, g, s) && s.run.Removing?
    ensures Leads(job, true, s, t) && Fits(job, start, g', t)
    ensures t.run == Placing(s.run.same, Solid(job) - s.run.same, {})
    ensures (!g.Complete? ==> g'.Working?) && g'.unpruned == g.unpruned && (Unspoiled(g) ==> Unspoiled(g'))
    decreases |s.run.dirs| - s.run.next
  {
    hide Ready, Clears, Works, Outcome, Leads;
    if s.run.next < |s.run.dirs| {
      DirIsProper(job, start, g, s);
      var s' := Machine(Remove(s.disk, s.run.dirs[s.run.next]), s.run.(next := s.run.next + 1));
      assert Step(job, RemoveNext, s, s');
      var g1 := RemoveFits(job, start, g, s, s');
      t, g' := CanRemove(job, start, g1, s');
      LeadsFirst(job, RemoveNext, s, s', t);
    } else {
      NextInRange(job, start, g, s);
      t := Machine(s.disk, Placing(s.run.same, Solid(job) - s.run.same, {}));
      assert Step(job, BeginPlacing, s, t);
      g' := BeginPlacingFits(job, start, g, s, t);
      LeadsByStep(job, true, BeginPlacing, s, t);
    }
  }

  lemma NextInRange(job: Job, start: Disk, g: Progress, s: Machine)
    requires Ready(job) && Fits(job, start, g, s) && s.run.Removing?
    ensures s.run.next <= |s.run.dirs|
  {
  }

  lemma DirIsProper(job: Job, start: Disk, g: Progress, s: Machine)
    requires Ready(job) && Fits(job, start, g, s) && s.run.Removing? && s.run.next < |s.run.dirs|
    ensures s.run.dirs[s.run.next] != []
  {
    RemovalsProper(job, start);
  }

  function Left(run: Run): nat {
    if run.Placing? then |run.pending| + |run.pending| + |run.wiped| else 0
  }

  lemma CloneNext(job: Job, start: Disk, g: Progress, s: Machine, k: nat) returns (s': Machine, g': Progress)
    requires Ready(job) && Fits(job, start, g, s) && s.run.Placing? && g.Working? && k in s.run.wiped
    ensures Step(job, CloneTree(k), s, s') && Fits(job, start, g', s') && g'.Working? && g'.unpruned == g.unpruned && (Unspoiled(g) ==> Unspoiled(g')) && k < |g'.status| && g'.status[k] == Cloned
    ensures s'.run == s.run.(wiped := s.run.wiped - {k})
  {
    assert |job.trees| == |job.wanted|;
    PlacingInRange(job, start, g, s);
    hide Ready, Works, PlacingFits;
    s' := Machine(Clone(s.disk, job.wanted[k].dest, job.trees[k]), s.run.(wiped := s.run.wiped - {k}));
    g' := CloneFits(job, start, g, s, s', k);
  }

  lemma WipeNext(job: Job, start: Disk, g: Progress, s: Machine, k: nat) returns (s': Machine, g': Progress)
    requires Ready(job) && Fits(job, start, g, s) && s.run.Placing? && g.Working? && k in s.run.pending
    ensures Step(job, Wipe(k), s, s') && Fits(job, start, g', s') && g'.Working? && g'.unpruned == g.unpruned && (Unspoiled(g) ==> Unspoiled(g'))
    ensures s'.run == s.run.(pending := s.run.pending - {k}, wiped := s.run.wiped + {k})
  {
    PlacingInRange(job, start, g, s);
    hide Ready, Works, PlacingFits;
    s' := Machine(Without(s.disk, job.wanted[k].root), s.run.(pending := s.run.pending - {k}, wiped := s.run.wiped + {k}));
    g' := WipeFits(job, start, g, s, s', k);
  }

  /** Some package is next. */
  lemma PlaceNext(job: Job, start: Disk, g: Progress, s: Machine) returns (a: Action, s': Machine, g': Progress)
    requires Ready(job) && Fits(job, start, g, s) && s.run.Placing? && g.Working? && s.run.pending + s.run.wiped != {}
    ensures Step(job, a, s, s') && Fits(job, start, g', s') && g'.Working? && g'.unpruned == g.unpruned && (Unspoiled(g) ==> Unspoiled(g'))
    ensures s'.run.Placing? && s'.run.same == s.run.same && Left(s'.run) < Left(s.run) && !a.Crash?
  {
    hide Ready, Fits, Step;
    if k :| k in s.run.wiped {
      s', g' := CloneNext(job, start, g, s, k);
      a := CloneTree(k);
    } else {
      var k :| k in s.run.pending;
      s', g' := WipeNext(job, start, g, s, k);
      a := Wipe(k);
    }
  }

  lemma WriteNext(job: Job, start: Disk, g: Progress, s: Machine) returns (s': Machine)
    requires Ready(job) && Fits(job, start, g, s) && g.Working? && Unspoiled(g)
    requires s.run.Placing? && s.run.pending + s.run.wiped == {}
    ensures Step(job, WriteStateFile, s, s') && s'.run.Finished? && s'.disk == Outcome(job, start, s.run.same, g.unpruned)
  {
    hide Ready, Works, PlacingFits, Outcome, Entries;
    s' := Machine(WriteState(s.disk, Entries(job.wanted, s.run.same, Records(s.disk))), Finished);
    assert forall k :: k !in s.run.pending + s.run.wiped;
    assert s.run.pending == {} && s.run.wiped == {};
    var g' := WriteFits(job, start, g, s, s');
    hide EndsLike, SpoiledOnes;
    NoneSpoiled(job, start, s.run.same, g.unpruned, s'.disk);
  }

  /** Placing can always be brought to its end, and the state file written. */
  lemma {:induction false} CanPlace(job: Job, start: Disk, g: Progress, s: Machine) returns (t: Machine)
    requires Ready(job) && Fits(job, start, g, s) && s.run.Placing? && g.Working? && Unspoiled(g)
    ensures Leads(job, true, s, t) && t.run.Finished? && t.disk == Outcome(job, start, s.run.same, g.unpruned)
    decreases Left(s.run)
  {
    hide Ready, Fits, Outcome, Step, Left, Leads;
    if s.run.pending + s.run.wiped != {} {
      var a, s', g' := PlaceNext(job, start, g, s);
      t := CanPlace(job, start, g', s');
      LeadsFirst(job, a, s, s', t);
    } else {
      t := WriteNext(job, start, g, s);
      LeadsByStep(job, true, WriteStateFile, s, t);
    }
  }

  lemma PlacingInRange(job: Job, start: Disk, g: Progress, s: Machine)
    requires Ready(job) && Fits(job, start, g, s) && s.run.Placing? && g.Working?
    ensures forall k :: k in s.run.pending || k in s.run.wiped ==> k < |job.wanted|
  {
  }

  /** A new run, up to where the first package is placed. */
  lemma UpToPlacing(job: Job, start: Disk, g: Progress, disk: Disk) returns (t: Machine, g': Progress)
    requires Ready(job) && Fits(job, start, g, Machine(disk, Idle)) && !g.Complete?
    ensures Leads(job, true, Machine(disk, Idle), t) && Fits(job, start, g', t) && g'.Working? && g'.unpruned == g.unpruned && (Unspoiled(g) ==> Unspoiled(g'))
    ensures t.run == Placing(Unchanged(job, disk), Solid(job) - Unchanged(job, disk), {})
  {
    hide Ready, Fits, Leads, Unchanged, Removals;
    var s, s' := Machine(disk, Idle), Machine(disk, Removing(Unchanged(job, disk), Removals(job, disk), 0));
    assert Step(job, Begin, s, s');
    hide Step;
    BeginFits(job, start, g, s, s');
    t, g' := CanRemove(job, start, g, s');
    LeadsFirst(job, Begin, s, s', t);
  }

  /** A run can be carried through from any stop. */
  lemma CanFinish(job: Job, start: Disk, g: Progress, disk: Disk) returns (t: Machine)
    requires Ready(job) && Fits(job, start, g, Machine(disk, Idle)) && !g.Complete? && Unspoiled(g)
    ensures Leads(job, true, Machine(disk, Idle), t) && t.run.Finished?
    ensures t.disk == Outcome(job, start, Unchanged(job, disk), g.unpruned)
  {
    hide Ready, Fits, Outcome, Leads, Unchanged;
    var s, g' := UpToPlacing(job, start, g, disk);
    t := CanPlace(job, start, g', s);
    LeadsOn(job, true, Machine(disk, Idle), s, t);
  }

  lemma StartFits(job: Job, start: Disk) returns (g: Progress)
    requires Ready(job)
    ensures Fits(job, start, g, Machine(start, Idle)) && g == Clearing(0, {}, {})
  {
    g := Clearing(0, {}, {});
    assert Removals(job, start)[..0] == [];
    RemovalsProper(job, start);
    assert Cleared(job, start, 0, {}) - {} == start;
  }

  // ----- stops that can happen -----------------------------------------------------------------------------

  lemma StopHere(job: Job, start: Disk, g: Progress, s: Machine)
    requires Ready(job) && Fits(job, start, g, s) && !g.Complete?
    ensures Step(job, Crash({}), s, Machine(s.disk, Idle)) && Fits(job, start, g, Machine(s.disk, Idle))
  {
    assert HalfDone(job, {}, s.disk, s.disk);
  }

  /** One package wiped and cloned. */
  lemma PlaceOne(job: Job, start: Disk, g: Progress, s: Machine, k: nat) returns (s': Machine, s'': Machine, g'': Progress)
    requires Ready(job) && Fits(job, start, g, s) && g.Working? && s.run.Placing? && k in s.run.pending
    ensures Step(job, Wipe(k), s, s') && Step(job, CloneTree(k), s', s'')
    ensures Fits(job, start, g'', s'') && g''.Working? && g''.unpruned == g.unpruned && (Unspoiled(g) ==> Unspoiled(g'')) && k < |g''.status| && g''.status[k] == Cloned
  {
    hide Ready, Fits, Step;
    var g';
    s', g' := WipeNext(job, start, g, s, k);
    s'', g'' := CloneNext(job, start, g', s', k);
  }

  /** A first run can stop right after package `k` was wiped and cloned. */
  lemma PlacedThenStopped(job: Job, start: Disk, k: nat) returns (disk: Disk, g: Progress)
    requires Ready(job) && k in Todo(job, start)
    ensures Leads(job, true, Machine(start, Idle), Machine(disk, Idle)) && Fits(job, start, g, Machine(disk, Idle))
    ensures g.Working? && g.unpruned == {} && Unspoiled(g) && k < |g.status| && g.status[k] == Cloned
  {
    hide Ready, Fits, Step, Leads, Unchanged;
    var g0 := StartFits(job, start);
    var s, g1 := UpToPlacing(job, start, g0, start);
    var s', s'', g2 := PlaceOne(job, start, g1, s, k);
    g, disk := g2, s''.disk;
    StopHere(job, start, g, s'');
    LeadsByStep(job, true, Crash({}), s'', Machine(disk, Idle));
    LeadsFirst(job, CloneTree(k), s', s'', Machine(disk, Idle));
    LeadsFirst(job, Wipe(k), s, s', Machine(disk, Idle));
    LeadsOn(job, true, Machine(start, Idle), s, Machine(disk, Idle));
  }

  /** Stopped right after package `k` was cloned, and then run again: its recorded metadata stays. */
  lemma CanRevive(job: Job, start: Disk, k: nat) returns (last: Machine, kept: set<nat>)
    requires Ready(job) && k in Revived(job, start)
    ensures Leads(job, true, Machine(start, Idle), last) && last.run.Finished?
    ensures k in kept && last.disk == Outcome(job, start, kept, {})
  {
    var disk, g := PlacedThenStopped(job, start, k);
    WorksUnchanged(job, start, g.unpruned, g.status, g.above, disk);
    hide Ready, Fits, Leads, Outcome, Unchanged, Revived;
    kept := Unchanged(job, disk);
    last := CanFinish(job, start, g, disk);
    LeadsOn(job, true, Machine(start, Idle), Machine(disk, Idle), last);
  }

  /** A disk on which a clone got no further than its destination. */
  function Begun(job: Job, k: nat, disk: Disk): Disk
    requires k < |job.wanted|
  {
    Clone(Without(disk, job.wanted[k].root), job.wanted[k].dest, map[[] := Dir])
  }

  lemma GetBegun(job: Job, k: nat, disk: Disk, x: Path)
    requires Ready(job) && IsSolid(job, k)
    ensures Get(Begun(job, k, disk), x) ==
            if job.wanted[k].root <= x then if x <= job.wanted[k].dest then Some(Dir) else None
            else if x in disk then Some(disk[x]) else if x < job.wanted[k].root then Some(Dir) else None
  {
    var root, dest := job.wanted[k].root, job.wanted[k].dest;
    assert PackageReady(job, k);
    GetWithout(disk, root, x);
    GetClone(Without(disk, root), dest, map[[] := Dir], x);
    AboveAbove(root, dest, x);
    AboveAbove(x, root, dest);
    BothAbove(x, root, dest);
    if dest <= x && x[|dest|..] == [] { assert x == dest + x[|dest|..]; }
    if x == dest { assert x[|dest|..] == []; }
  }

  lemma BegunIsHalfDone(job: Job, k: nat, disk: Disk)
    requires Ready(job) && IsSolid(job, k)
    ensures HalfDone(job, {k}, disk, Begun(job, k, disk))
  {
    var disk' := Begun(job, k, disk);
    forall x ensures x in disk' <==> Get(disk', x) != None {}
    forall x | job.wanted[k].root <= x ensures PartOf(Get(disk', x), Inside(job, k, x)) {
      GetBegun(job, k, disk, x);
      if x <= job.wanted[k].dest { InsideAbove(job, k, x); }
    }
    forall x | x < job.wanted[k].dest ensures x in disk' {
      GetBegun(job, k, disk, x);
      BothAbove(x, job.wanted[k].root, job.wanted[k].dest);
      assert PackageReady(job, k);
    }
    forall x | !Below(job, {k}, x)
      ensures Get(disk', x) == Get(disk, x) || (x !in disk && OnTheWay(job, {k}, x) && Get(disk', x) == Some(Dir))
    {
      GetBegun(job, k, disk, x);
      assert k in {k} && !(job.wanted[k].root <= x);
    }
  }

  /** A first run can stop when it has made no more than the destination of a lost package. */
  lemma BegunThenStopped(job: Job, start: Disk, k: nat) returns (disk: Disk)
    requires Ready(job) && k in Revived(job, start)
    ensures Leads(job, false, Machine(start, Idle), Machine(disk, Idle))
    ensures k in Unchanged(job, disk) && forall x :: job.wanted[k].dest < x ==> Get(disk, x) == None
  {
    assert IsSolid(job, k) && PackageReady(job, k) && k in Solid(job) - Unchanged(job, start);
    var g0 := StartFits(job, start);
    var s, g := UpToPlacing(job, start, g0, start);
    WorksKeepsState(job, start, g.unpruned, g.status, g.above, s.disk);
    disk := Begun(job, k, s.disk);
    BegunIsHalfDone(job, k, s.disk);
    GetBegun(job, k, s.disk, STATE);
    GetBegun(job, k, s.disk, job.wanted[k].dest);
    forall x | job.wanted[k].dest < x ensures Get(disk, x) == None {
      GetBegun(job, k, s.disk, x);
      AboveAbove(job.wanted[k].root, job.wanted[k].dest, x);
    }
    assert Get(disk, STATE) == Get(s.disk, STATE);
    hide Ready, Fits, HalfDone, Leads;
    LeadsByStep(job, false, Crash({k}), s, Machine(disk, Idle));
    LeadsAnyway(job, Machine(start, Idle), s);
    LeadsOn(job, false, Machine(start, Idle), s, Machine(disk, Idle));
  }

  /** The packages still to be laid out can all be wiped before the first is cloned. */
  lemma {:induction false} CanWipe(job: Job, start: Disk, g: Progress, s: Machine) returns (t: Machine, g': Progress)
    requires Ready(job) && Fits(job, start, g, s) && s.run.Placing? && g.Working?
    ensures Leads(job, true, s, t) && Fits(job, start, g', t) && g'.Working?
    ensures t.run == s.run.(pending := {}, wiped := s.run.wiped + s.run.pending)
    decreases |s.run.pending|
  {
    hide Ready, Fits, Step;
    if s.run.pending == {} {
      LeadsNowhere(job, s);
      assert s.run.wiped + {} == s.run.wiped;
      t, g' := s, g;
    } else {
      hide Leads;
      var k :| k in s.run.pending;
      var s', g1 := WipeNext(job, start, g, s, k);
      t, g' := CanWipe(job, start, g1, s');
      assert s.run.wiped + {k} + (s.run.pending - {k}) == s.run.wiped + s.run.pending;
      LeadsFirst(job, Wipe(k), s, s', t);
    }
  }

  /** A first run can stop when all packages to be laid out are wiped, and none is cloned. */
  lemma WipedThenStopped(job: Job, start: Disk) returns (disk: Disk, g: Progress)
    requires Ready(job)
    ensures Leads(job, true, Machine(start, Idle), Machine(disk, Idle)) && Fits(job, start, g, Machine(disk, Idle)) && g.Working?
    ensures forall k :: k in Todo(job, start) && k < |g.status| ==> g.status[k] == Wiped
  {
    var g0 := StartFits(job, start);
    hide Ready, Leads, Step, Works;
    var s, g1 := UpToPlacing(job, start, g0, start);
    var t, g2 := CanWipe(job, start, g1, s);
    g, disk := g2, t.disk;
    assert t.run.wiped == Todo(job, start);
    hide Fits;
    StopHere(job, start, g, t);
    LeadsByStep(job, true, Crash({}), t, Machine(disk, Idle));
    LeadsOn(job, true, s, t, Machine(disk, Idle));
    LeadsOn(job, true, Machine(start, Idle), s, Machine(disk, Idle));
  }

  // ----- every removal can be stopped before its pruning ---------------------------------------------------

  function Before(unpruned: set<nat>, n: nat): set<nat> { set i | i in unpruned && i < n }

  lemma BeforeFits(job: Job, start: Disk, unpruned: set<nat>, n: nat)
    requires Ready(job) && n <= |Removals(job, start)|
    ensures Clears(job, start, n, Before(unpruned, n), {}, Cleared(job, start, n, unpruned))
  {
    RemovalsProper(job, start);
    RemoveAllLocal(start, Removals(job, start)[..n], unpruned, Before(unpruned, n));
    var disk := Cleared(job, start, n, unpruned);
    assert disk - {} == disk;
  }

  /** A later run finds the first removals done. */
  lemma {:induction false} SkipGone(job: Job, start: Disk, unpruned: set<nat>, n: nat, next: nat)
    requires Ready(job) && next <= n <= |Removals(job, start)|
    ensures var disk, same, dirs := Cleared(job, start, n, unpruned), Unchanged(job, start), Removals(job, start);
            Leads(job, true, Machine(disk, Removing(same, dirs, next)), Machine(disk, Removing(same, dirs, n)))
    decreases n - next
  {
    var disk, same, dirs := Cleared(job, start, n, unpruned), Unchanged(job, start), Removals(job, start);
    var s, t := Machine(disk, Removing(same, dirs, next)), Machine(disk, Removing(same, dirs, n));
    if next == n {
      LeadsNowhere(job, s);
    } else {
      AlreadyGone(job, start, n, unpruned, next);
      RemovalsProper(job, start);
      hide Ready, Leads, Removals, Unchanged, Cleared;
      var s' := Machine(disk, Removing(same, dirs, next + 1));
      assert Step(job, RemoveNext, s, s');
      SkipGone(job, start, unpruned, n, next + 1);
      LeadsFirst(job, RemoveNext, s, s', t);
    }
  }

  lemma SamePlan(job: Job, start: Disk, disk: Disk)
    requires Records(disk) == Records(start)
    ensures Removals(job, disk) == Removals(job, start)
  {
  }

  /** One removal, and a stop before or after its pruning. */
  lemma LeaveOne(job: Job, t: Machine, after: Disk, unpruned: bool)
    requires Ready(job) && t.run.Removing? && t.run.next < |t.run.dirs| && t.run.dirs[t.run.next] != []
    requires var dir := t.run.dirs[t.run.next]; after == if unpruned then Delete(t.disk, dir) else Remove(t.disk, dir)
    ensures Leads(job, true, t, Machine(after, Idle))
  {
    var dir := t.run.dirs[t.run.next];
    if unpruned && dir in t.disk {
      LeadsByStep(job, true, StopUnpruned, t, Machine(after, Idle));
    } else {
      var t' := Machine(after, t.run.(next := t.run.next + 1));
      assert Step(job, RemoveNext, t, t');
      assert HalfDone(job, {}, after, after);
      LeadsByStep(job, true, Crash({}), t', Machine(after, Idle));
      LeadsFirst(job, RemoveNext, t, t', Machine(after, Idle));
    }
  }

  /** The next run gets to where the last one was stopped. */
  lemma BackToWhere(job: Job, start: Disk, unpruned: set<nat>, n: nat)
    requires Ready(job) && n <= |Removals(job, start)|
    ensures var disk := Cleared(job, start, n, unpruned);
            Leads(job, true, Machine(disk, Idle), Machine(disk, Removing(Unchanged(job, start), Removals(job, start), n)))
  {
    var disk := Cleared(job, start, n, unpruned);
    BeforeFits(job, start, unpruned, n);
    ClearsUnchanged(job, start, n, Before(unpruned, n), {}, disk);
    SamePlan(job, start, disk);
    hide Ready, Leads, Removals, Unchanged, Cleared, Clears, Records;
    var idle, s, t := Machine(disk, Idle), Machine(disk, Removing(Unchanged(job, start), Removals(job, start), 0)),
      Machine(disk, Removing(Unchanged(job, start), Removals(job, start), n));
    assert Step(job, Begin, idle, s);
    SkipGone(job, start, unpruned, n, 0);
    LeadsFirst(job, Begin, idle, s, t);
  }

  lemma NothingCleared(job: Job, start: Disk, unpruned: set<nat>)
    requires Ready(job)
    ensures Cleared(job, start, 0, unpruned) == start
  {
    RemovalsProper(job, start);
    assert Removals(job, start)[..0] == [];
  }

  /** Run by run, any choice of removals can be left without their pruning. */
  lemma {:induction false} CanLeave(job: Job, start: Disk, unpruned: set<nat>, n: nat)
    requires Ready(job) && n <= |Removals(job, start)|
    ensures Leads(job, true, Machine(start, Idle), Machine(Cleared(job, start, n, unpruned), Idle))
  {
    hide *;
    var s := Machine(start, Idle);
    if n == 0 {
      NothingCleared(job, start, unpruned);
      LeadsNowhere(job, s);
    } else {
      var before, after := Cleared(job, start, n - 1, unpruned), Cleared(job, start, n, unpruned);
      ClearedNext(job, start, n - 1, unpruned);
      CanLeave(job, start, unpruned, n - 1);
      var idle, t := Machine(before, Idle), Machine(before, Removing(Unchanged(job, start), Removals(job, start), n - 1));
      BackToWhere(job, start, unpruned, n - 1);
      LeaveOne(job, t, after, n - 1 in unpruned);
      LeadsOn(job, true, s, idle, t);
      LeadsOn(job, true, s, t, Machine(after, Idle));
    }
  }

  /** So every choice shows in the disk some history finishes with. */
  lemma CanFinishUnpruned(job: Job, start: Disk, unpruned: set<nat>) returns (last: Machine)
    requires Ready(job) && InPlan(job, start, unpruned)
    ensures Leads(job, true, Machine(start, Idle), last) && last.run.Finished?
    ensures last.disk == Outcome(job, start, Unchanged(job, start), unpruned)
  {
    var n := |Removals(job, start)|;
    var disk := Cleared(job, start, n, unpruned);
    BeforeFits(job, start, unpruned, n);
    assert Before(unpruned, n) == unpruned;
    ClearsUnchanged(job, start, n, unpruned, {}, disk);
    CanLeave(job, start, unpruned, n);
    last := CanFinish(job, start, Clearing(n, unpruned, {}), disk);
    LeadsOn(job, true, Machine(start, Idle), Machine(disk, Idle), last);
  }
}
