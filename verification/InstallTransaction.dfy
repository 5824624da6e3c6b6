/** The install transaction (crates/vivacity-core/src/installer.rs) on a model of the disk: the diff
    against installed.json, removals with their pruning, wiping and cloning of package roots, and the
    state file written last. */
module InstallTransaction {
  import opened Common

  type Path = seq<string>

  datatype Identity = Identity(version: string, reference: string)

  /** An entry of installed.json: who is installed, and the metadata as it was written. */
  datatype Record = Record(identity: Identity, raw: string)

  datatype Node = Dir | File(content: string) | State(records: map<string, Record>)

  type Disk = map<Path, Node>

  /** A locked package with its place: `dest` is `root`, or below it when there is a target-dir. */
  datatype Package = Package(name: string, identity: Identity, raw: string, meta: bool, root: Path, dest: Path)

  /** The lock with its layout; `trees` are the store entries, `removals` the directories planned for
      names that are no longer wanted, in name order. */
  datatype Job = Job(wanted: seq<Package>, trees: seq<Disk>, removals: seq<(string, Path)>)

  const STATE: Path := ["vendor", "composer", "installed.json"]

  function Get(disk: Disk, x: Path): Option<Node> { if x in disk then Some(disk[x]) else None }

  lemma SameDisk(disk: Disk, disk': Disk)
    requires forall x :: Get(disk, x) == Get(disk', x)
    ensures disk == disk'
  {
    forall x ensures x in disk <==> x in disk' { assert Get(disk, x) == Get(disk', x); }
    forall x | x in disk ensures disk[x] == disk'[x] { assert Get(disk, x) == Get(disk', x); }
    assert disk.Keys == disk'.Keys;
  }

  lemma BothAbove(a: Path, b: Path, x: Path)
    ensures a <= x && b <= x ==> Nested(a, b)
  {
    if a <= x && b <= x {
      assert a == x[..|a|] && b == x[..|b|];
    }
  }

  lemma AboveAbove(a: Path, b: Path, x: Path)
    ensures a <= b && b <= x ==> a <= x
  {
  }

  // ----- the single steps on the disk ---------------------------------------------------------------

  function Without(disk: Disk, dir: Path): Disk {
    map x | x in disk && !(dir <= x) :: disk[x]
  }

  function Parent(dir: Path): Path
    requires dir != []
  {
    dir[..|dir| - 1]
  }

  predicate HasChild(disk: Disk, dir: Path) { exists x :: x in disk && dir < x }

  /** A directory above `dir` other than the project, with nothing in it. */
  predicate LeftEmpty(disk: Disk, dir: Path)
    requires dir != []
  {
    Parent(dir) != [] && Get(disk, Parent(dir)) == Some(Dir) && !HasChild(disk, Parent(dir))
  }

  /** `prune_empty_parent`. */
  function Prune(disk: Disk, dir: Path): Disk
    requires dir != []
  {
    if LeftEmpty(disk, dir) then disk - {Parent(dir)} else disk
  }

  /** Pruning takes away one directory: the parent, when it holds nothing. */
  lemma GetPrune(disk: Disk, dir: Path, x: Path)
    requires dir != []
    ensures Get(Prune(disk, dir), x) ==
            if x == dir[..|dir| - 1] && x != [] && Get(disk, x) == Some(Dir) && (forall y :: x < y ==> Get(disk, y) == None)
            then None else Get(disk, x)
  {
    if y :| y in disk && Parent(dir) < y { assert Get(disk, y) != None; }
    forall y | Parent(dir) < y && !HasChild(disk, Parent(dir)) ensures Get(disk, y) == None {}
  }

  /** A directory that is no longer wanted. */
  function Delete(disk: Disk, dir: Path): Disk { if dir in disk then Without(disk, dir) else disk }

  /** The same, together with its emptied parent. */
  function Remove(disk: Disk, dir: Path): Disk
    requires dir != []
  {
    if dir in disk then Prune(Without(disk, dir), dir) else disk
  }

  /** The directories above `dest`, where they are missing. */
  function Made(disk: Disk, dest: Path): Disk {
    map x | x in (set k | 0 <= k < |dest| :: dest[..k]) && x !in disk :: Dir
  }

  function Moved(tree: Disk, dest: Path): Disk {
    map x | x in (set r | r in tree :: dest + r) :: Grafted(tree, dest, x)
  }

  function Grafted(tree: Disk, dest: Path, x: Path): Node {
    if dest <= x && x[|dest|..] in tree then tree[x[|dest|..]] else Dir
  }

  /** `clone_tree`: parents first, then the tree itself. */
  function Clone(disk: Disk, dest: Path, tree: Disk): Disk {
    disk + Made(disk, dest) + Moved(tree, dest)
  }

  lemma GetClone(disk: Disk, dest: Path, tree: Disk, x: Path)
    ensures Get(Clone(disk, dest, tree), x) ==
            if dest <= x && x[|dest|..] in tree then Some(tree[x[|dest|..]])
            else if x in disk then Some(disk[x])
            else if x < dest then Some(Dir) else None
  {
    if dest <= x {
      assert x == dest + x[|dest|..];
    }
    if x in Moved(tree, dest) {
      var r :| r in tree && x == dest + r;
      assert x[|dest|..] == r;
    }
    if x < dest { assert x == dest[..|x|]; }
  }

  lemma GetWithout(disk: Disk, dir: Path, x: Path)
    ensures Get(Without(disk, dir), x) == if dir <= x then None else Get(disk, x)
  {
  }

  function WriteState(disk: Disk, records: map<string, Record>): Disk {
    Clone(disk, STATE, map[[] := State(records)])
  }

  lemma GetWritten(disk: Disk, records: map<string, Record>, x: Path)
    ensures Get(WriteState(disk, records), x) ==
            if x == STATE then Some(State(records)) else if x in disk then Some(disk[x]) else if x < STATE then Some(Dir) else None
  {
    GetClone(disk, STATE, map[[] := State(records)], x);
    if STATE <= x && x[|STATE|..] == [] { assert x == STATE + x[|STATE|..]; }
  }

  // ----- the plan of one run --------------------------------------------------------------------------

  function Records(disk: Disk): map<string, Record> {
    if STATE in disk && disk[STATE].State? then disk[STATE].records else map[]
  }

  /** `installed.json` names this very version of the package. */
  predicate Recorded(disk: Disk, p: Package) {
    p.name in Records(disk) && Records(disk)[p.name].identity == p.identity
  }

  /** The recorded version stands in its directory. A metapackage has none, so it never does. */
  predicate IsUnchanged(disk: Disk, p: Package) {
    !p.meta && Recorded(disk, p) && Get(disk, p.dest) == Some(Dir)
  }

  function Unchanged(job: Job, disk: Disk): set<nat> {
    set k: nat | k < |job.wanted| && IsUnchanged(disk, job.wanted[k])
  }

  /** Packages that have a directory. */
  function Solid(job: Job): set<nat> {
    set k: nat | k < |job.wanted| && !job.wanted[k].meta
  }

  function Planned(removals: seq<(string, Path)>, records: map<string, Record>): seq<Path> {
    if removals == [] then []
    else (if removals[0].0 in records then [removals[0].1] else []) + Planned(removals[1..], records)
  }

  function Removals(job: Job, disk: Disk): seq<Path> { Planned(job.removals, Records(disk)) }

  /** The entry written for a package: an unchanged one keeps its old metadata. */
  function Entry(p: Package, keeps: bool, earlier: map<string, Record>): Record {
    if keeps && p.name in earlier then Record(p.identity, earlier[p.name].raw) else Record(p.identity, p.raw)
  }

  function Entries(wanted: seq<Package>, kept: set<nat>, earlier: map<string, Record>): map<string, Record>
    decreases |wanted|
  {
    if wanted == [] then map[]
    else
      var k := |wanted| - 1;
      Entries(wanted[..k], kept, earlier)[wanted[k].name := Entry(wanted[k], k in kept, earlier)]
  }

  /** What an accepted layout guarantees of the packages, and that none takes the place of
      installed.json. */
  ghost predicate PackagesReady(job: Job) {
    |job.trees| == |job.wanted| &&
    (forall k: nat :: k < |job.wanted| && !job.wanted[k].meta ==> PackageReady(job, k)) &&
    (forall k: nat, j: nat :: k < |job.wanted| && j < |job.wanted| && k != j && !job.wanted[k].meta && !job.wanted[j].meta ==>
      !Nested(job.wanted[k].root, job.wanted[j].root)) &&
    (forall k: nat, j: nat :: k < j < |job.wanted| ==> job.wanted[k].name != job.wanted[j].name)
  }

  ghost predicate Ready(job: Job) {
    PackagesReady(job) && forall i: nat :: i < |job.removals| ==> RemovalReady(job, job.removals[i])
  }

  ghost predicate PackageReady(job: Job, k: nat)
    requires k < |job.wanted| == |job.trees|
  {
    var p := job.wanted[k];
    p.root != [] && p.root <= p.dest && !Nested(p.root, STATE) && Get(job.trees[k], []) == Some(Dir)
  }

  ghost predicate RemovalReady(job: Job, r: (string, Path)) {
    r.1 != [] && !Nested(r.1, STATE) &&
    (forall k: nat :: k < |job.wanted| ==> job.wanted[k].name != r.0 && (!job.wanted[k].meta ==> !Nested(job.wanted[k].root, r.1)))
  }

  // ----- one run without interruption -------------------------------------------------------------------

  predicate Proper(dirs: seq<Path>) { forall i :: 0 <= i < |dirs| ==> dirs[i] != [] }

  /** `unpruned` are the removals that were stopped between deleting and pruning. */
  function RemoveAll(disk: Disk, dirs: seq<Path>, unpruned: set<nat>): Disk
    requires Proper(dirs)
    decreases |dirs|
  {
    if dirs == [] then disk
    else
      var i := |dirs| - 1;
      var before := RemoveAll(disk, dirs[..i], unpruned);
      if i in unpruned then Delete(before, dirs[i]) else Remove(before, dirs[i])
  }

  /** Wipe the root, then clone: one package. */
  function Put(job: Job, k: nat, disk: Disk): Disk
    requires k < |job.wanted| == |job.trees|
  {
    var p := job.wanted[k];
    Clone(Without(disk, p.root), p.dest, job.trees[k])
  }

  /** The packages below index `n` that are to be laid out, in lock order. */
  function PutAll(job: Job, todo: set<nat>, n: nat, disk: Disk): Disk
    requires n <= |job.wanted| == |job.trees|
  {
    if n == 0 then disk
    else
      var before := PutAll(job, todo, n - 1, disk);
      if n - 1 in todo then Put(job, n - 1, before) else before
  }

  lemma {:induction false} PlannedReady(removals: seq<(string, Path)>, records: map<string, Record>)
    ensures forall d :: d in Planned(removals, records) ==> exists i :: 0 <= i < |removals| && removals[i].0 in records && removals[i].1 == d
  {
    if removals != [] {
      PlannedReady(removals[1..], records);
      forall d | d in Planned(removals, records)
        ensures exists i :: 0 <= i < |removals| && removals[i].0 in records && removals[i].1 == d
      {
        if d in Planned(removals[1..], records) {
          var i :| 0 <= i < |removals[1..]| && removals[1..][i].0 in records && removals[1..][i].1 == d;
          assert removals[i + 1] == removals[1..][i];
        } else {
          assert removals[0].1 == d;
        }
      }
    }
  }

  lemma RemovalsProper(job: Job, disk: Disk)
    requires Ready(job)
    ensures Proper(Removals(job, disk))
    ensures forall d :: d in Removals(job, disk) ==> Apart(job, d)
  {
    PlannedReady(job.removals, Records(disk));
    forall d | d in Removals(job, disk) ensures Apart(job, d) && d != [] {
      var i :| 0 <= i < |job.removals| && job.removals[i].0 in Records(disk) && job.removals[i].1 == d;
      assert RemovalReady(job, job.removals[i]);
    }
    forall i | 0 <= i < |Removals(job, disk)| ensures Removals(job, disk)[i] != [] {
      assert Apart(job, Removals(job, disk)[i]);
    }
  }

  /** A directory beside installed.json and all package roots. */
  ghost predicate Apart(job: Job, dir: Path) {
    dir != [] && !Nested(dir, STATE) &&
    forall k: nat :: k < |job.wanted| && !job.wanted[k].meta ==> !Nested(job.wanted[k].root, dir)
  }

  /** The disk a run leads to, when the entries of the packages in `kept` stay and the parents of
      the removals in `unpruned` were not pruned. */
  function EndOf(job: Job, disk: Disk, kept: set<nat>, unpruned: set<nat>): Disk
    requires |job.trees| == |job.wanted| && Proper(Removals(job, disk))
  {
    WriteState(
      PutAll(job, Solid(job) - Unchanged(job, disk), |job.wanted|, RemoveAll(disk, Removals(job, disk), unpruned)),
      Entries(job.wanted, kept, Records(disk)))
  }

  ghost function Outcome(job: Job, disk: Disk, kept: set<nat>, unpruned: set<nat>): Disk
    requires Ready(job)
  {
    RemovalsProper(job, disk);
    EndOf(job, disk, kept, unpruned)
  }

  // ----- the same run, step by step in place ----------------------------------------------------------

  class Project {
    var disk: Disk

    method RemoveTree(dir: Path)
      modifies this
      ensures disk == Without(old(disk), dir)
    {
      disk := Without(disk, dir);
    }

    method PruneEmptyParent(dir: Path)
      requires dir != []
      modifies this
      ensures disk == Prune(old(disk), dir)
      ensures forall x :: Get(disk, x) ==
                if x == dir[..|dir| - 1] && x != [] && Get(old(disk), x) == Some(Dir) && (forall y :: x < y ==> Get(old(disk), y) == None)
                then None else Get(old(disk), x)
    {
      forall x { GetPrune(disk, dir, x); }
      var parent := Parent(dir);
      if parent == [] { return; }
      if Get(disk, parent) == Some(Dir) && !HasChild(disk, parent) { disk := disk - {parent}; }
    }

    method RemovePlanned(dirs: seq<Path>)
      requires Proper(dirs)
      modifies this
      ensures disk == RemoveAll(old(disk), dirs, {})
    {
      for i := 0 to |dirs|
        invariant disk == RemoveAll(old(disk), dirs[..i], {})
      {
        assert dirs[..i + 1][..i] == dirs[..i];
        if dirs[i] in disk {
          RemoveTree(dirs[i]);
          PruneEmptyParent(dirs[i]);
        }
      }
      assert dirs[..|dirs|] == dirs;
    }

    method CloneTree(tree: Disk, dest: Path)
      modifies this
      ensures disk == Clone(old(disk), dest, tree)
    {
      disk := disk + Made(disk, dest);
      disk := disk + Moved(tree, dest);
    }

    method PlacePackage(job: Job, k: nat)
      requires k < |job.wanted| == |job.trees|
      modifies this
      ensures disk == Put(job, k, old(disk))
    {
      RemoveTree(job.wanted[k].root);
      CloneTree(job.trees[k], job.wanted[k].dest);
    }

    method PlaceAll(job: Job, same: set<nat>)
      requires |job.wanted| == |job.trees|
      modifies this
      ensures disk == PutAll(job, Solid(job) - same, |job.wanted|, old(disk))
    {
      hide Put;
      for k := 0 to |job.wanted|
        invariant disk == PutAll(job, Solid(job) - same, k, old(disk))
      {
        if !job.wanted[k].meta && k !in same { PlacePackage(job, k); }
      }
    }

    /** `install`: diff, removals, placement in lock order, state file last. */
    method Install(job: Job)
      requires |job.trees| == |job.wanted| && Proper(Removals(job, disk))
      modifies this
      ensures disk == EndOf(job, old(disk), Unchanged(job, old(disk)), {})
      ensures Ready(job) ==> disk == Outcome(job, old(disk), Unchanged(job, old(disk)), {})
    {
      var previous := Records(disk);
      var dirs := Removals(job, disk);
      var same := Unchanged(job, disk);
      RemovePlanned(dirs);
      PlaceAll(job, same);
      disk := WriteState(disk, Entries(job.wanted, same, previous));
    }
  }
}
