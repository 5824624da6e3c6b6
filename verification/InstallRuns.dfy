/** Interrupted and repeated installs: a state machine over the steps of installer.rs, in which the
    packages are placed in any order and interleaving and a run can stop anywhere. */
module InstallRuns {
  import opened Common
  import opened InstallTransaction

  // ----- the machine ------------------------------------------------------------------------------------

  /** `same` are the packages the run found unchanged. */
  datatype Run =
    | Idle
    | Removing(same: set<nat>, dirs: seq<Path>, next: nat)
    | Placing(same: set<nat>, pending: set<nat>, wiped: set<nat>)
    | Finished

  datatype Machine = Machine(disk: Disk, run: Run)

  datatype Action =
    | Begin
    | RemoveNext
    | BeginPlacing
    | Wipe(k: nat)
    | CloneTree(k: nat)
    | WriteStateFile
    | CrashRemoving(lost: set<Path>)     // in the middle of deleting a directory
    | StopUnpruned                       // with a directory deleted and its parent not yet pruned
    | Crash(midway: set<nat>)            // with these packages half wiped or half cloned

  ghost predicate Step(job: Job, a: Action, s: Machine, s': Machine)
    requires Ready(job)
  {
    match a
    case Begin =>
      (s.run.Idle? || s.run.Finished?) &&
      s' == Machine(s.disk, Removing(Unchanged(job, s.disk), Removals(job, s.disk), 0))
    case RemoveNext =>
      s.run.Removing? && s.run.next < |s.run.dirs| && s.run.dirs[s.run.next] != [] &&
      s' == Machine(Remove(s.disk, s.run.dirs[s.run.next]), s.run.(next := s.run.next + 1))
    case BeginPlacing =>
      s.run.Removing? && s.run.next == |s.run.dirs| &&
      s' == Machine(s.disk, Placing(s.run.same, Solid(job) - s.run.same, {}))
    case Wipe(k) =>
      s.run.Placing? && k in s.run.pending && k < |job.wanted| &&
      s' == Machine(Without(s.disk, job.wanted[k].root), s.run.(pending := s.run.pending - {k}, wiped := s.run.wiped + {k}))
    case CloneTree(k) =>
      s.run.Placing? && k in s.run.wiped && k < |job.wanted| &&
      s' == Machine(Clone(s.disk, job.wanted[k].dest, job.trees[k]), s.run.(wiped := s.run.wiped - {k}))
    case WriteStateFile =>
      s.run.Placing? && s.run.pending == {} && s.run.wiped == {} &&
      s' == Machine(WriteState(s.disk, Entries(job.wanted, s.run.same, Records(s.disk))), Finished)
    case CrashRemoving(lost) =>
      s.run.Removing? && s.run.next < |s.run.dirs| && s.run.dirs[s.run.next] in s.disk &&
      (forall x :: x in lost ==> s.run.dirs[s.run.next] < x) &&
      s' == Machine(s.disk - lost, Idle)
    case StopUnpruned =>
      s.run.Removing? && s.run.next < |s.run.dirs| && s.run.dirs[s.run.next] in s.disk &&
      s' == Machine(Without(s.disk, s.run.dirs[s.run.next]), Idle)
    case Crash(midway) =>
      (midway != {} ==> s.run.Placing? && midway <= s.run.pending + s.run.wiped) &&
      HalfDone(job, midway, s.disk, s'.disk) && s'.run == Idle
  }

  /** What a freshly cloned package holds at `x`, a path below its root. */
  function Inside(job: Job, k: nat, x: Path): Option<Node>
    requires k < |job.wanted| == |job.trees|
  {
    var dest := job.wanted[k].dest;
    if dest <= x then Get(job.trees[k], x[|dest|..]) else if x < dest then Some(Dir) else None
  }

  /** Nothing changes but below the roots of these packages, and the parents they need. A package that
      is recorded in its wanted version is only partly wiped or only partly cloned; of others anything
      may be left. */
  ghost predicate HalfDone(job: Job, midway: set<nat>, disk: Disk, disk': Disk)
    requires |job.trees| == |job.wanted|
  {
    (forall k :: k in midway ==>
      k < |job.wanted| && (Recorded(disk, job.wanted[k]) ==> HalfWiped(job, k, disk, disk') || HalfCloned(job, k, disk'))) &&
    (forall x :: !Below(job, midway, x) ==>
      Get(disk', x) == Get(disk, x) || (x !in disk && OnTheWay(job, midway, x) && Get(disk', x) == Some(Dir)))
  }

  /** Below the root some of what was there is left. */
  ghost predicate HalfWiped(job: Job, k: nat, disk: Disk, disk': Disk)
    requires k < |job.wanted|
  {
    forall x :: job.wanted[k].root <= x ==> Get(disk', x) == None || Get(disk', x) == Get(disk, x)
  }

  /** Below the root there is some of what a clone puts there, perhaps with unfinished files. The
      destination is made after the directories above it. */
  ghost predicate HalfCloned(job: Job, k: nat, disk': Disk)
    requires k < |job.wanted| == |job.trees|
  {
    (forall x :: job.wanted[k].root <= x ==> PartOf(Get(disk', x), Inside(job, k, x))) &&
    (job.wanted[k].dest in disk' ==> forall x :: x < job.wanted[k].dest ==> x in disk')
  }

  predicate PartOf(node: Option<Node>, whole: Option<Node>) {
    node == None || node == whole || (node.Some? && whole.Some? && node.value.File? && whole.value.File?)
  }

  ghost predicate Below(job: Job, ks: set<nat>, x: Path) {
    exists k :: k in ks && k < |job.wanted| && job.wanted[k].root <= x
  }

  ghost predicate OnTheWay(job: Job, ks: set<nat>, x: Path) {
    exists k :: k in ks && k < |job.wanted| && x < job.wanted[k].root
  }

  /** A course of actions from one state on. */
  ghost predicate Runs(job: Job, s: Machine, actions: seq<Action>, states: seq<Machine>)
    requires Ready(job)
  {
    |states| == |actions| + 1 && states[0] == s &&
    forall i :: 0 <= i < |actions| ==> Step(job, actions[i], states[i], states[i + 1])
  }

  ghost predicate History(job: Job, start: Disk, actions: seq<Action>, states: seq<Machine>)
    requires Ready(job)
  {
    Runs(job, Machine(start, Idle), actions, states)
  }

  // ----- what a disk looks like while packages are placed ---------------------------------------------

  /** Dirty: in no known state. Gone: of a package recorded in its wanted version, and its destination
      is no directory. Spoiled: of such a package, and its destination stands, with part of the rest. */
  datatype Status = Untouched | Wiped | Cloned | Dirty | Gone | Spoiled {
    predicate Stands() { this == Cloned || this == Spoiled }
  }

  predicate IsSolid(job: Job, k: nat) { k < |job.wanted| && !job.wanted[k].meta }

  ghost predicate LooksInside(job: Job, base: Disk, k: nat, status: Status, disk: Disk)
    requires k < |job.wanted| == |job.trees|
  {
    forall x :: job.wanted[k].root <= x ==> HasAt(job, base, k, status, disk, x)
  }

  predicate HasAt(job: Job, base: Disk, k: nat, status: Status, disk: Disk, x: Path)
    requires k < |job.wanted| == |job.trees|
  {
    match status
    case Untouched => Get(disk, x) == Get(base, x)
    case Wiped => Get(disk, x) == None
    case Cloned => Get(disk, x) == Inside(job, k, x)
    case Dirty => true
    case Gone => x == job.wanted[k].dest ==> Get(disk, x) == None || Get(disk, x) == Get(base, x)
    case Spoiled => PartlyAt(job, k, disk, x)
  }

  /** The destination stands, and below the root there is nothing a clone would not put there. */
  predicate PartlyAt(job: Job, k: nat, disk: Disk, x: Path)
    requires k < |job.wanted| == |job.trees|
  {
    PartOf(Get(disk, x), Inside(job, k, x)) && (x <= job.wanted[k].dest ==> Get(disk, x) == Some(Dir))
  }

  ghost predicate Unowned(job: Job, x: Path) {
    forall k: nat :: IsSolid(job, k) ==> !(job.wanted[k].root <= x)
  }

  ghost predicate LooksOutside(job: Job, base: Disk, above: set<Path>, disk: Disk) {
    forall x :: Unowned(job, x) ==> Get(disk, x) == Outside(base, above, x)
  }

  function Outside(base: Disk, above: set<Path>, x: Path): Option<Node> {
    if x in base then Some(base[x]) else if x in above then Some(Dir) else None
  }

  ghost predicate Looks(job: Job, base: Disk, status: seq<Status>, above: set<Path>, disk: Disk)
    requires |job.wanted| == |job.trees|
  {
    |status| == |job.wanted| &&
    (forall k: nat :: IsSolid(job, k) ==> LooksInside(job, base, k, status[k], disk)) &&
    LooksOutside(job, base, above, disk)
  }

  /** Only parents of packages to lay out are made, and all of them once a package stands. */
  ghost predicate Parents(job: Job, todo: set<nat>, status: seq<Status>, above: set<Path>)
    requires |status| == |job.wanted|
  {
    (forall x :: x in above ==> OnTheWay(job, todo, x)) &&
    (forall k: nat, x :: k in todo && k < |status| && status[k].Stands() && x < job.wanted[k].root ==> x in above)
  }

  lemma OtherRoot(job: Job, k: nat, j: nat, x: Path)
    requires Ready(job) && IsSolid(job, k) && IsSolid(job, j) && k != j && job.wanted[j].root <= x
    ensures !(job.wanted[k].root <= x) && !(x <= job.wanted[k].root)
  {
    var a, b := job.wanted[k].root, job.wanted[j].root;
    assert !Nested(a, b);
    BothAbove(a, b, x);
    AboveAbove(b, x, a);
  }

  lemma LooksAfterWipe(job: Job, base: Disk, status: seq<Status>, above: set<Path>, disk: Disk, k: nat)
    requires Ready(job) && IsSolid(job, k) && Looks(job, base, status, above, disk)
    ensures Looks(job, base, status[k := Wiped], above, Without(disk, job.wanted[k].root))
  {
    assert |job.trees| == |job.wanted|;
    hide Ready, Inside;
    var disk' := Without(disk, job.wanted[k].root);
    var status' := status[k := Wiped];
    forall j: nat | IsSolid(job, j) ensures LooksInside(job, base, j, status'[j], disk') {
      forall x | job.wanted[j].root <= x ensures HasAt(job, base, j, status'[j], disk', x) {
        GetWithout(disk, job.wanted[k].root, x);
        if j != k {
          OtherRoot(job, k, j, x);
          assert LooksInside(job, base, j, status[j], disk) && HasAt(job, base, j, status[j], disk, x);
        }
      }
    }
    forall x | Unowned(job, x) ensures Get(disk', x) == Outside(base, above, x) {
      GetWithout(disk, job.wanted[k].root, x);
    }
  }

  /** The directories above a path. */
  function Prefixes(x: Path): set<Path> { set n | 0 <= n < |x| :: x[..n] }

  lemma PrefixesAre(x: Path, y: Path)
    ensures y in Prefixes(x) <==> y < x
  {
    if y < x { assert y == x[..|y|]; }
  }

  lemma CloneInside(job: Job, k: nat, disk: Disk, x: Path)
    requires Ready(job) && IsSolid(job, k) && job.wanted[k].root <= x && Get(disk, x) == None
    ensures Get(Clone(disk, job.wanted[k].dest, job.trees[k]), x) == Inside(job, k, x)
  {
    GetClone(disk, job.wanted[k].dest, job.trees[k], x);
  }

  lemma CloneElsewhere(job: Job, k: nat, disk: Disk, x: Path)
    requires Ready(job) && IsSolid(job, k) && !(job.wanted[k].root <= x)
    ensures Get(Clone(disk, job.wanted[k].dest, job.trees[k]), x) ==
            if x in disk then Some(disk[x]) else if x < job.wanted[k].root then Some(Dir) else None
  {
    var root, dest := job.wanted[k].root, job.wanted[k].dest;
    assert PackageReady(job, k);
    GetClone(disk, dest, job.trees[k], x);
    AboveAbove(root, dest, x);
    AboveAbove(x, root, dest);
    BothAbove(x, root, dest);
  }

  lemma LooksAfterClone(job: Job, base: Disk, status: seq<Status>, above: set<Path>, disk: Disk, k: nat)
    requires Ready(job) && IsSolid(job, k) && Looks(job, base, status, above, disk) && status[k] == Wiped
    ensures Looks(job, base, status[k := Cloned], above + Prefixes(job.wanted[k].root),
                  Clone(disk, job.wanted[k].dest, job.trees[k]))
  {
    assert |job.trees| == |job.wanted|;
    hide Ready, Clone, LooksInside, LooksOutside, IsSolid;
    var disk' := Clone(disk, job.wanted[k].dest, job.trees[k]);
    var status' := status[k := Cloned];
    forall j: nat | IsSolid(job, j) ensures LooksInside(job, base, j, status'[j], disk') {
      if j == k { FilledByClone(job, base, disk, k); } else { KeptByClone(job, base, status[j], disk, k, j); }
    }
    CloneOutside(job, base, above, disk, k);
  }

  lemma FilledByClone(job: Job, base: Disk, disk: Disk, k: nat)
    requires Ready(job) && IsSolid(job, k) && LooksInside(job, base, k, Wiped, disk)
    ensures LooksInside(job, base, k, Cloned, Clone(disk, job.wanted[k].dest, job.trees[k]))
  {
    assert |job.trees| == |job.wanted|;
    hide Ready, Clone, Inside;
    forall x | job.wanted[k].root <= x
      ensures HasAt(job, base, k, Cloned, Clone(disk, job.wanted[k].dest, job.trees[k]), x)
    {
      assert HasAt(job, base, k, Wiped, disk, x);
      CloneInside(job, k, disk, x);
    }
  }

  lemma KeptByClone(job: Job, base: Disk, status: Status, disk: Disk, k: nat, j: nat)
    requires Ready(job) && IsSolid(job, k) && IsSolid(job, j) && j != k && LooksInside(job, base, j, status, disk)
    ensures LooksInside(job, base, j, status, Clone(disk, job.wanted[k].dest, job.trees[k]))
  {
    assert |job.trees| == |job.wanted|;
    hide Ready, Clone, Inside, PartlyAt;
    forall x | job.wanted[j].root <= x
      ensures HasAt(job, base, j, status, Clone(disk, job.wanted[k].dest, job.trees[k]), x)
    {
      assert HasAt(job, base, j, status, disk, x);
      OtherRoot(job, k, j, x);
      CloneElsewhere(job, k, disk, x);
      SameHas(job, base, j, status, disk, Clone(disk, job.wanted[k].dest, job.trees[k]), x);
    }
  }

  lemma SameHas(job: Job, base: Disk, j: nat, status: Status, disk: Disk, disk': Disk, x: Path)
    requires j < |job.wanted| == |job.trees| && Get(disk, x) == Get(disk', x) && HasAt(job, base, j, status, disk, x)
    ensures HasAt(job, base, j, status, disk', x)
  {
  }

  lemma CloneOutside(job: Job, base: Disk, above: set<Path>, disk: Disk, k: nat)
    requires Ready(job) && IsSolid(job, k) && LooksOutside(job, base, above, disk)
    ensures LooksOutside(job, base, above + Prefixes(job.wanted[k].root), Clone(disk, job.wanted[k].dest, job.trees[k]))
  {
    assert |job.trees| == |job.wanted|;
    hide Ready, Clone;
    var root := job.wanted[k].root;
    var disk' := Clone(disk, job.wanted[k].dest, job.trees[k]);
    forall x | Unowned(job, x) ensures Get(disk', x) == Outside(base, above + Prefixes(root), x) {
      PrefixesAre(root, x);
      CloneElsewhere(job, k, disk, x);
      assert Get(disk, x) == Outside(base, above, x);
    }
  }

  lemma ParentsAfterClone(job: Job, todo: set<nat>, status: seq<Status>, above: set<Path>, k: nat)
    requires |status| == |job.wanted| && k < |status| && k in todo && Parents(job, todo, status, above)
    ensures Parents(job, todo, status[k := Cloned], above + Prefixes(job.wanted[k].root))
  {
    var above' := above + Prefixes(job.wanted[k].root);
    forall x ensures x in Prefixes(job.wanted[k].root) <==> x < job.wanted[k].root { PrefixesAre(job.wanted[k].root, x); }
    forall x | x in above' ensures OnTheWay(job, todo, x) {}
  }

  /** A disk on which nothing has been placed yet. */
  lemma LooksFresh(job: Job, base: Disk)
    requires |job.wanted| == |job.trees|
    ensures Looks(job, base, seq(|job.wanted|, _ => Untouched), {}, base)
  {
  }

  function SpoiledOnes(status: seq<Status>): set<nat> { set k: nat | k < |status| && status[k] == Spoiled }

  /** Two disks with everything placed are the same disk, but for what is in spoiled packages. */
  lemma LooksTheSame(job: Job, base: Disk, todo: set<nat>, status: seq<Status>, above: set<Path>, disk: Disk,
                     above': set<Path>, disk': Disk)
    requires Ready(job) && Looks(job, base, status, above, disk) && Looks(job, base, status, above', disk')
    requires Parents(job, todo, status, above) && Parents(job, todo, status, above')
    requires forall k: nat :: k in todo ==> k < |status| && status[k].Stands()
    requires forall k: nat :: IsSolid(job, k) ==> status[k] != Dirty && status[k] != Gone
    ensures forall x :: !Below(job, SpoiledOnes(status), x) ==> Get(disk, x) == Get(disk', x)
    ensures SpoiledOnes(status) == {} ==> disk == disk'
  {
    assert |job.trees| == |job.wanted|;
    hide Ready, SpoiledOnes;
    forall x ensures x in above <==> x in above' {
      SameParents(job, todo, status, above, above', x);
      SameParents(job, todo, status, above', above, x);
    }
    forall x | !Below(job, SpoiledOnes(status), x) ensures Get(disk, x) == Get(disk', x) {
      SameAt(job, base, status, above, disk, above', disk', x);
    }
    if SpoiledOnes(status) == {} {
      forall x ensures Get(disk, x) == Get(disk', x) { assert !Below(job, {}, x); }
      SameDisk(disk, disk');
    }
  }

  lemma SameParents(job: Job, todo: set<nat>, status: seq<Status>, above: set<Path>, above': set<Path>, x: Path)
    requires |status| == |job.wanted| && Parents(job, todo, status, above) && Parents(job, todo, status, above')
    requires forall k: nat :: k in todo ==> k < |status| && status[k].Stands()
    ensures x in above ==> x in above'
  {
    if x in above {
      var k :| k in todo && k < |job.wanted| && x < job.wanted[k].root;
      assert status[k].Stands();
    }
  }

  lemma SameAt(job: Job, base: Disk, status: seq<Status>, above: set<Path>, disk: Disk, above': set<Path>, disk': Disk, x: Path)
    requires |job.trees| == |job.wanted|
    requires Looks(job, base, status, above, disk) && Looks(job, base, status, above', disk')
    requires forall k: nat :: IsSolid(job, k) ==> status[k] != Dirty && status[k] != Gone
    requires x in above <==> x in above'
    requires !Below(job, SpoiledOnes(status), x)
    ensures Get(disk, x) == Get(disk', x)
  {
    if !Unowned(job, x) {
      var k: nat :| IsSolid(job, k) && job.wanted[k].root <= x;
      assert k !in SpoiledOnes(status);
      assert LooksInside(job, base, k, status[k], disk) && HasAt(job, base, k, status[k], disk, x);
      assert LooksInside(job, base, k, status[k], disk') && HasAt(job, base, k, status[k], disk', x);
    } else {
      assert Get(disk, x) == Outside(base, above, x) && Get(disk', x) == Outside(base, above', x);
    }
  }

  /** A whole clone may stand for a spoiled one. */
  lemma ClonedMaySpoil(job: Job, base: Disk, status: seq<Status>, status': seq<Status>, above: set<Path>, disk: Disk)
    requires Ready(job) && Looks(job, base, status, above, disk) && |status'| == |status|
    requires forall k: nat :: IsSolid(job, k) ==> status'[k] == status[k] || (status[k] == Cloned && status'[k] == Spoiled)
    ensures Looks(job, base, status', above, disk)
  {
    assert |job.trees| == |job.wanted|;
    forall k: nat | IsSolid(job, k) ensures LooksInside(job, base, k, status'[k], disk) {
      assert LooksInside(job, base, k, status[k], disk) && PackageReady(job, k);
      forall x | job.wanted[k].root <= x ensures HasAt(job, base, k, status'[k], disk, x) {
        assert HasAt(job, base, k, status[k], disk, x);
        if x <= job.wanted[k].dest { InsideAbove(job, k, x); }
      }
    }
  }

  lemma InsideAbove(job: Job, k: nat, x: Path)
    requires Ready(job) && IsSolid(job, k) && x <= job.wanted[k].dest
    ensures Inside(job, k, x) == Some(Dir)
  {
    assert PackageReady(job, k);
    if x == job.wanted[k].dest { assert x[|x|..] == []; }
  }

  // ----- placing in lock order --------------------------------------------------------------------------

  /** The statuses after placing the packages of `todo` below index `n`. */
  function Done(count: nat, todo: set<nat>, n: nat): (r: seq<Status>)
    ensures |r| == count
  {
    seq(count, k => if k < n && k in todo then Cloned else Untouched)
  }

  lemma NoneDone(count: nat, todo: set<nat>)
    ensures Done(count, todo, 0) == seq(count, _ => Untouched)
  {
  }

  lemma DoneNext(count: nat, todo: set<nat>, n: nat)
    requires n < count
    ensures n in todo ==> Done(count, todo, n)[n := Wiped][n := Cloned] == Done(count, todo, n)[n := Cloned] == Done(count, todo, n + 1)
    ensures n !in todo ==> Done(count, todo, n + 1) == Done(count, todo, n)
  {
  }

  lemma PutAllStep(job: Job, todo: set<nat>, n: nat, disk: Disk)
    requires n <= |job.wanted| == |job.trees|
    ensures n == 0 ==> PutAll(job, todo, n, disk) == disk
    ensures n > 0 ==>
              var before := PutAll(job, todo, n - 1, disk);
              PutAll(job, todo, n, disk) == if n - 1 in todo then Put(job, n - 1, before) else before
  {
    hide Put;
  }

  lemma LengthsAgree(job: Job)
    requires Ready(job)
    ensures |job.trees| == |job.wanted|
  {
  }

  lemma PutIs(job: Job, k: nat, disk: Disk)
    requires k < |job.wanted| == |job.trees|
    ensures Put(job, k, disk) == Clone(Without(disk, job.wanted[k].root), job.wanted[k].dest, job.trees[k])
  {
  }

  lemma {:induction false} PutAllLooks(job: Job, todo: set<nat>, n: nat, base: Disk) returns (above: set<Path>)
    requires Ready(job) && n <= |job.wanted| && (forall k :: k in todo ==> IsSolid(job, k))
    ensures Looks(job, base, Done(|job.wanted|, todo, n), above, PutAll(job, todo, n, base))
    ensures Parents(job, todo, Done(|job.wanted|, todo, n), above)
  {
    hide *;
    LengthsAgree(job);
    PutAllStep(job, todo, n, base);
    if n == 0 {
      above := {};
      LooksFresh(job, base);
      NoneDone(|job.wanted|, todo);
      ParentsFresh(job, todo, Done(|job.wanted|, todo, 0));
    } else {
      above := PutAllLooks(job, todo, n - 1, base);
      DoneNext(|job.wanted|, todo, n - 1);
      if n - 1 in todo {
        var before, disk := Done(|job.wanted|, todo, n - 1), PutAll(job, todo, n - 1, base);
        PutIs(job, n - 1, disk);
        LooksAfterWipe(job, base, before, above, disk, n - 1);
        LooksAfterClone(job, base, before[n - 1 := Wiped], above, Without(disk, job.wanted[n - 1].root), n - 1);
        ParentsAfterClone(job, todo, before, above, n - 1);
        above := above + Prefixes(job.wanted[n - 1].root);
      }
    }
  }

  lemma ParentsFresh(job: Job, todo: set<nat>, status: seq<Status>)
    requires |status| == |job.wanted| && forall k: nat :: k < |status| ==> status[k] == Untouched
    ensures Parents(job, todo, status, {})
  {
  }

  // ----- removals -----------------------------------------------------------------------------------------

  predicate Beside(dir: Path, y: Path) { !(dir <= y) && !(y < dir) }

  lemma RemoveKeeps(disk: Disk, dir: Path, y: Path)
    requires dir != [] && Beside(dir, y)
    ensures Get(Remove(disk, dir), y) == Get(disk, y)
  {
    assert Parent(dir) < dir;
  }

  lemma RemoveAddsNothing(disk: Disk, dir: Path, y: Path)
    requires dir != []
    ensures y !in disk || y == dir ==> y !in Remove(disk, dir)
  {
  }

  lemma {:induction false} RemoveAllKeeps(disk: Disk, dirs: seq<Path>, unpruned: set<nat>, y: Path)
    requires Proper(dirs) && forall d :: d in dirs ==> Beside(d, y)
    ensures Get(RemoveAll(disk, dirs, unpruned), y) == Get(disk, y)
    decreases |dirs|
  {
    if dirs != [] {
      var n := |dirs| - 1;
      RemoveAllKeeps(disk, dirs[..n], unpruned, y);
      RemoveKeeps(RemoveAll(disk, dirs[..n], unpruned), dirs[n], y);
    }
  }

  lemma {:induction false} RemoveAllAddsNothing(disk: Disk, dirs: seq<Path>, unpruned: set<nat>, y: Path)
    requires Proper(dirs)
    ensures Get(RemoveAll(disk, dirs, unpruned), y) == None || Get(RemoveAll(disk, dirs, unpruned), y) == Get(disk, y)
    decreases |dirs|
  {
    if dirs != [] {
      RemoveAllAddsNothing(disk, dirs[..|dirs| - 1], unpruned, y);
    }
  }

  lemma {:induction false} RemoveAllClears(disk: Disk, dirs: seq<Path>, unpruned: set<nat>, i: nat)
    requires Proper(dirs) && i < |dirs|
    ensures dirs[i] !in RemoveAll(disk, dirs, unpruned)
    decreases |dirs|
  {
    var n := |dirs| - 1;
    if i < n { RemoveAllClears(disk, dirs[..n], unpruned, i); }
    RemoveAddsNothing(RemoveAll(disk, dirs[..n], unpruned), dirs[n], dirs[i]);
  }

  /** The removals seen so far decide. */
  lemma {:induction false} RemoveAllLocal(disk: Disk, dirs: seq<Path>, unpruned: set<nat>, unpruned': set<nat>)
    requires Proper(dirs) && forall i: nat :: i < |dirs| ==> (i in unpruned <==> i in unpruned')
    ensures RemoveAll(disk, dirs, unpruned) == RemoveAll(disk, dirs, unpruned')
    decreases |dirs|
  {
    if dirs != [] {
      var n: nat := |dirs| - 1;
      RemoveAllLocal(disk, dirs[..n], unpruned, unpruned');
    }
  }

  /** The disk after the first `n` removals. */
  ghost function Cleared(job: Job, start: Disk, n: nat, unpruned: set<nat>): Disk
    requires Ready(job) && n <= |Removals(job, start)|
  {
    RemovalsProper(job, start);
    RemoveAll(start, Removals(job, start)[..n], unpruned)
  }

  /** A place that removals cannot reach: below a package root, or the state file. */
  ghost predicate OutOfReach(job: Job, y: Path) {
    y == STATE || exists k: nat :: IsSolid(job, k) && job.wanted[k].root <= y
  }

  lemma ApartIsBeside(job: Job, dir: Path, y: Path)
    requires Apart(job, dir) && OutOfReach(job, y)
    ensures Beside(dir, y)
  {
    if y != STATE {
      var k: nat :| IsSolid(job, k) && job.wanted[k].root <= y;
      BothAbove(dir, job.wanted[k].root, y);
      AboveAbove(job.wanted[k].root, y, dir);
    }
  }

  lemma ClearedKeeps(job: Job, start: Disk, n: nat, unpruned: set<nat>, y: Path)
    requires Ready(job) && n <= |Removals(job, start)| && OutOfReach(job, y)
    ensures Get(Cleared(job, start, n, unpruned), y) == Get(start, y)
  {
    hide Ready;
    RemovalsProper(job, start);
    var dirs := Removals(job, start);
    forall d | d in dirs[..n] ensures Beside(d, y) {
      assert d in dirs;
      ApartIsBeside(job, d, y);
    }
    RemoveAllKeeps(start, dirs[..n], unpruned, y);
  }

  /** `n` removals are done, those in `unpruned` without their pruning, and the next directory has
      lost some of its content. */
  ghost predicate Clears(job: Job, start: Disk, n: nat, unpruned: set<nat>, lost: set<Path>, disk: Disk)
    requires Ready(job)
  {
    var dirs := Removals(job, start);
    n <= |dirs| && (forall i :: i in unpruned ==> i < n) && disk == Cleared(job, start, n, unpruned) - lost &&
    (lost != {} ==> n < |dirs| && dirs[n] in Cleared(job, start, n, unpruned) && forall x :: x in lost ==> dirs[n] < x)
  }

  lemma ClearsKeeps(job: Job, start: Disk, n: nat, unpruned: set<nat>, lost: set<Path>, disk: Disk, y: Path)
    requires Ready(job) && Clears(job, start, n, unpruned, lost, disk) && OutOfReach(job, y)
    ensures Get(disk, y) == Get(start, y)
  {
    ClearedKeeps(job, start, n, unpruned, y);
    if y in lost {
      RemovalsProper(job, start);
      assert Removals(job, start)[n] in Removals(job, start);
      ApartIsBeside(job, Removals(job, start)[n], y);
      assert false;
    }
  }

  lemma AlreadyGone(job: Job, start: Disk, n: nat, unpruned: set<nat>, i: nat)
    requires Ready(job) && i < n <= |Removals(job, start)|
    ensures Removals(job, start)[i] !in Cleared(job, start, n, unpruned)
  {
    RemovalsProper(job, start);
    RemoveAllClears(start, Removals(job, start)[..n], unpruned, i);
  }

  lemma ClearedNext(job: Job, start: Disk, n: nat, unpruned: set<nat>)
    requires Ready(job) && n < |Removals(job, start)|
    ensures Removals(job, start)[n] != []
    ensures var before, dir := Cleared(job, start, n, unpruned), Removals(job, start)[n];
            Cleared(job, start, n + 1, unpruned) == if n in unpruned then Delete(before, dir) else Remove(before, dir)
  {
    RemovalsProper(job, start);
    var dirs := Removals(job, start);
    assert dirs[..n + 1][..n] == dirs[..n];
  }

  /** A removal stopped before its pruning adds to those without. */
  lemma ClearedUnpruned(job: Job, start: Disk, n: nat, unpruned: set<nat>)
    requires Ready(job) && n < |Removals(job, start)|
    ensures Cleared(job, start, n + 1, unpruned + {n}) == Delete(Cleared(job, start, n, unpruned), Removals(job, start)[n])
  {
    RemovalsProper(job, start);
    ClearedNext(job, start, n, unpruned + {n});
    RemoveAllLocal(start, Removals(job, start)[..n], unpruned, unpruned + {n});
  }

  /** Removing what is partly gone ends like removing it whole. */
  lemma RemoveTheRest(disk: Disk, dir: Path, lost: set<Path>)
    requires dir != [] && dir in disk && forall x :: x in lost ==> dir < x
    ensures Remove(disk - lost, dir) == Remove(disk, dir)
    ensures Without(disk - lost, dir) == Without(disk, dir)
  {
    assert Without(disk - lost, dir) == Without(disk, dir);
  }

  lemma ClearsStep(job: Job, start: Disk, n: nat, unpruned: set<nat>, lost: set<Path>, disk: Disk, next: nat)
      returns (n': nat, lost': set<Path>)
    requires Ready(job) && Clears(job, start, n, unpruned, lost, disk) && next <= n && next < |Removals(job, start)|
    ensures next < n' && Removals(job, start)[next] != []
    ensures Clears(job, start, n', unpruned, lost', Remove(disk, Removals(job, start)[next]))
  {
    RemovalsProper(job, start);
    if next < n {
      AlreadyGone(job, start, n, unpruned, next);
      n', lost' := n, lost;
    } else {
      ClearedNext(job, start, n, unpruned);
      n', lost' := n + 1, {};
      if lost != {} { RemoveTheRest(Cleared(job, start, n, unpruned), Removals(job, start)[n], lost); }
      assert Cleared(job, start, n, unpruned) - {} == Cleared(job, start, n, unpruned);
      assert Cleared(job, start, n + 1, unpruned) - {} == Cleared(job, start, n + 1, unpruned);
    }
  }

  /** Only the removal whose turn it is finds something to delete. */
  lemma ClearsTurn(job: Job, start: Disk, n: nat, unpruned: set<nat>, lost: set<Path>, disk: Disk, next: nat)
    requires Ready(job) && Clears(job, start, n, unpruned, lost, disk) && next <= n && next < |Removals(job, start)|
    requires Removals(job, start)[next] in disk
    ensures next == n
  {
    if next < n { AlreadyGone(job, start, n, unpruned, next); }
  }

  lemma ClearsUnpruned(job: Job, start: Disk, n: nat, unpruned: set<nat>, lost: set<Path>, disk: Disk, next: nat)
    requires Ready(job) && Clears(job, start, n, unpruned, lost, disk) && next <= n && next < |Removals(job, start)|
    requires Removals(job, start)[next] in disk
    ensures Clears(job, start, n + 1, unpruned + {n}, {}, Without(disk, Removals(job, start)[next]))
  {
    RemovalsProper(job, start);
    ClearsTurn(job, start, n, unpruned, lost, disk, next);
    var before := Cleared(job, start, n, unpruned);
    ClearedUnpruned(job, start, n, unpruned);
    if lost != {} { RemoveTheRest(before, Removals(job, start)[n], lost); }
    assert before - {} == before;
    assert Cleared(job, start, n + 1, unpruned + {n}) - {} == Cleared(job, start, n + 1, unpruned + {n});
  }

  lemma ClearsLose(job: Job, start: Disk, n: nat, unpruned: set<nat>, lost: set<Path>, disk: Disk, next: nat, more: set<Path>)
    requires Ready(job) && Clears(job, start, n, unpruned, lost, disk) && next <= n && next < |Removals(job, start)|
    requires Removals(job, start)[next] in disk && forall x :: x in more ==> Removals(job, start)[next] < x
    ensures Clears(job, start, n, unpruned, lost + more, disk - more)
  {
    ClearsTurn(job, start, n, unpruned, lost, disk, next);
    assert Cleared(job, start, n, unpruned) - lost - more == Cleared(job, start, n, unpruned) - (lost + more);
  }
}
