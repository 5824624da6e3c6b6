/** The scan jobs of a dump (classmap.rs `scan_only`, generator.rs job loop): each directory is
    read, or served from the cache when its slot holds something readable. */
module ClassMapScan {
  import opened Common
  import Cache = ClassMapCache
  import opened ClassMapMerge

  /** A file found by the directory walk: its path below the base, its canonical path, and the
      classes detection finds in it. */
  datatype WalkFile = WalkFile(rel: Bytes, canonical: Bytes, classes: seq<Bytes>)

  /** A directory to scan. `key` is its cache slot, if it lies in a store entry. */
  datatype Job = Job(base: Bytes, baseCanonical: Bytes, files: seq<WalkFile>, sawSymlink: bool,
                     key: Option<Bytes>, excludes: Bytes -> bool, rule: Rule, ns: Bytes)

  function JoinPath(base: Bytes, rel: Bytes): Bytes {
    if rel == [] then base else base + [SLASH] + rel
  }

  /** Without symlinks on the way, canonical paths are below the canonical base. */
  ghost predicate WellWalked(job: Job) {
    !job.sawSymlink ==>
      forall f :: f in job.files ==> f.canonical == JoinPath(job.baseCanonical, f.rel)
  }

  datatype Found = Found(path: Bytes, canonical: Bytes, classes: seq<Bytes>)

  /** What reading the files gives. */
  function Direct(job: Job): (r: seq<Found>)
    ensures |r| == |job.files|
  {
    seq(|job.files|, i requires 0 <= i < |job.files| =>
      Found(JoinPath(job.base, job.files[i].rel), job.files[i].canonical, job.files[i].classes))
  }

  /** What the cache keeps of them. */
  function EntriesOf(job: Job): seq<Cache.Entry> {
    seq(|job.files|, i requires 0 <= i < |job.files| => Cache.Entry(job.files[i].rel, job.files[i].classes))
  }

  function FromEntries(job: Job, entries: seq<Cache.Entry>): seq<Found> {
    seq(|entries|, i requires 0 <= i < |entries| =>
      Found(JoinPath(job.base, entries[i].rel), JoinPath(job.baseCanonical, entries[i].rel), entries[i].classes))
  }

  type Slots = map<Bytes, Bytes>

  /** A slot that reads as anything reads as the files of its directory: store entries never
      change, and directories reached through symlinks are not cached. */
  ghost predicate Faithful(slots: Slots, job: Job) {
    job.key.Some? && job.key.value in slots && Cache.Decode(slots[job.key.value]).Some? ==>
      !job.sawSymlink && Cache.Decode(slots[job.key.value]).value == EntriesOf(job)
  }

  /** Two jobs with one slot scan the same directory of the same store entry. */
  ghost predicate SlotsAgree(jobs: seq<Job>) {
    forall a, b :: a in jobs && b in jobs && a.key.Some? && a.key == b.key ==>
      EntriesOf(a) == EntriesOf(b) && a.sawSymlink == b.sawSymlink
  }

  ghost predicate Sound(slots: Slots, jobs: seq<Job>) {
    forall job :: job in jobs ==> Faithful(slots, job)
  }

  /** What the slot of a job serves, when it holds something readable. */
  function Served(job: Job, slots: Slots): Option<seq<Found>> {
    if job.key.Some? && job.key.value in slots then
      match Cache.Decode(slots[job.key.value])
      case Some(entries) => Some(FromEntries(job, entries))
      case None => None
    else None
  }

  function Scanned(job: Job, slots: Slots): seq<Found> {
    match Served(job, slots) case Some(found) => found case None => Direct(job)
  }

  predicate IsStraight(job: Job) {
    forall i :: 0 <= i < |job.files| ==> job.files[i].canonical == JoinPath(job.baseCanonical, job.files[i].rel)
  }

  lemma SameJoin(base: Bytes, a: Bytes, b: Bytes)
    ensures JoinPath(base, a) == JoinPath(base, b) <==> a == b
  {
    assert a != [] ==> JoinPath(base, a)[|base| + 1..] == a;
    assert b != [] ==> JoinPath(base, b)[|base| + 1..] == b;
  }

  /** A readable slot serves what reading the files gives exactly when it holds the entries of the
      directory and no canonical path leads elsewhere. */
  lemma ServesDirect(job: Job, entries: seq<Cache.Entry>)
    ensures FromEntries(job, entries) == Direct(job) <==> entries == EntriesOf(job) && IsStraight(job)
  {
    if FromEntries(job, entries) == Direct(job) {
      forall i | 0 <= i < |entries|
        ensures entries[i] == EntriesOf(job)[i] && job.files[i].canonical == JoinPath(job.baseCanonical, job.files[i].rel)
      {
        assert FromEntries(job, entries)[i] == Direct(job)[i];
        SameJoin(job.base, entries[i].rel, job.files[i].rel);
      }
    }
  }

  /** So a scan is right, whatever its slot holds, if and only if that is not readable, or is what
      was stored for this directory. */
  lemma ScannedIffFaithful(job: Job, slots: Slots)
    requires WellWalked(job)
    ensures Faithful(slots, job) ==> Scanned(job, slots) == Direct(job)
    ensures !job.sawSymlink ==> (Scanned(job, slots) == Direct(job) <==> Faithful(slots, job))
  {
    if job.key.Some? && job.key.value in slots && Cache.Decode(slots[job.key.value]).Some? {
      ServesDirect(job, Cache.Decode(slots[job.key.value]).value);
    }
  }

  function Kept(job: Job, slots: Slots): Slots {
    if job.key.Some? && !job.sawSymlink then slots[job.key.value := Cache.Encode(EntriesOf(job))] else slots
  }

  /** The first half of `scan_only`: the slot, or else the files. */
  method Read(job: Job, slots: Slots) returns (found: seq<Found>, hit: bool)
    ensures found == Scanned(job, slots) && hit == Served(job, slots).Some?
  {
    if job.key.Some? && job.key.value in slots {
      var cached := Cache.Load(slots[job.key.value]);
      if cached.Some? { return FromEntries(job, cached.value), true; }
    }
    found, hit := Direct(job), false;
  }

  /** The second half, when the files were read. */
  method Keep(job: Job, slots: Slots) returns (after: Slots)
    ensures after == Kept(job, slots)
  {
    after := slots;
    if job.key.Some? && !job.sawSymlink {
      var buf := Cache.Store(EntriesOf(job));
      after := slots[job.key.value := buf];
    }
  }

  /** `scan_only`: a readable slot is believed, anything else is read from the files and stored. From
      a faithful slot and from the files the answer is the same. */
  method ScanOnly(job: Job, slots: Slots) returns (found: seq<Found>, after: Slots)
    ensures found == Scanned(job, slots)
    ensures after == if Served(job, slots).Some? then slots else Kept(job, slots)
    ensures WellWalked(job) && Faithful(slots, job) ==> found == Direct(job)
  {
    var hit;
    found, hit := Read(job, slots);
    after := slots;
    if !hit { after := Keep(job, slots); }
    if WellWalked(job) { ScannedIffFaithful(job, slots); }
  }

  lemma StoredIsFaithful(jobs: seq<Job>, job: Job, slots: Slots)
    requires job in jobs && SlotsAgree(jobs) && Sound(slots, jobs)
    requires job.key.Some? && !job.sawSymlink && Cache.Storable(EntriesOf(job))
    ensures Sound(slots[job.key.value := Cache.Encode(EntriesOf(job))], jobs)
  {
    Cache.Canonical(EntriesOf(job), Cache.Encode(EntriesOf(job)));
    var after := slots[job.key.value := Cache.Encode(EntriesOf(job))];
    forall other | other in jobs
      ensures Faithful(after, other)
    {
      assert Faithful(slots, other);
      if other.key == job.key { assert EntriesOf(other) == EntriesOf(job); }
    }
  }

  /** The files of a scan as the merge sees them. */
  function Items(job: Job, found: seq<Found>): seq<Item> {
    seq(|found|, i requires 0 <= i < |found| =>
      Item(found[i].path, found[i].canonical, found[i].classes,
           job.excludes(found[i].canonical) || job.excludes(found[i].path), job.rule, job.ns, job.base))
  }

  /** All files in job order. */
  function AllItems(jobs: seq<Job>): seq<Item> {
    if jobs == [] then []
    else
      var last := jobs[|jobs| - 1];
      AllItems(jobs[..|jobs| - 1]) + Items(last, Direct(last))
  }

  /** In job order, what scans from these slots give. */
  function AllScanned(jobs: seq<Job>, slots: Slots): seq<Item> {
    if jobs == [] then []
    else
      var last := jobs[|jobs| - 1];
      AllScanned(jobs[..|jobs| - 1], slots) + Items(last, Scanned(last, slots))
  }

  /** From slots that hold nothing readable but what was stored for these directories, those are all
      files. */
  lemma {:induction false} SoundScansAll(jobs: seq<Job>, slots: Slots)
    requires Sound(slots, jobs) && forall job :: job in jobs ==> WellWalked(job)
    ensures AllScanned(jobs, slots) == AllItems(jobs)
    decreases |jobs|
  {
    hide Items, Scanned, Direct, WellWalked, Faithful;
    if jobs != [] {
      var last := jobs[|jobs| - 1];
      assert last in jobs && WellWalked(last) && Faithful(slots, last);
      SoundScansAll(jobs[..|jobs| - 1], slots);
      ScannedIffFaithful(last, slots);
    }
  }

  /** What the scans do when they run at once: one job's first half, or its second. */
  datatype Event = Reads(i: nat) | Keeps(i: nat)

  /** Every job is scanned at some time. */
  predicate Complete(jobs: seq<Job>, schedule: seq<Event>) {
    forall i: nat :: i < |jobs| ==> Reads(i) in schedule
  }

  /** A slot that was readable stays as it is; one that was not may hold what stands for the files. */
  ghost predicate SameScan(job: Job, slots: Slots, after: Slots) {
    && Scanned(job, after) == Scanned(job, slots)
    && (Served(job, slots).Some? ==> Served(job, after) == Served(job, slots))
  }

  /** Storing for one job, whose slot was not readable, changes no scan. */
  lemma KeptScansSame(jobs: seq<Job>, job: Job, slots: Slots, after: Slots, other: Job)
    requires job in jobs && other in jobs && SlotsAgree(jobs) && SameScan(other, slots, after) && Served(job, slots).None?
    requires WellWalked(other) && Cache.Storable(EntriesOf(job))
    ensures SameScan(other, slots, Kept(job, after))
  {
    if job.key.Some? && !job.sawSymlink && other.key == job.key {
      Cache.Canonical(EntriesOf(job), Cache.Encode(EntriesOf(job)));
      assert EntriesOf(other) == EntriesOf(job);
      ServesDirect(other, EntriesOf(job));
      assert Served(other, Kept(job, after)) == Some(Direct(other));
    } else {
      assert Served(other, Kept(job, after)) == Served(other, after);
    }
  }

  /** The scans of a dump, in any order and interleaving, also if a job is scanned more than once:
      each gives what it would have given alone, from the slots as they were, and would give that
      again; from sound slots it is what the files of its own job give. */
  method ScanAll(jobs: seq<Job>, slots: Slots, schedule: seq<Event>) returns (scans: map<nat, seq<Found>>, after: Slots)
    requires SlotsAgree(jobs) && Complete(jobs, schedule)
    requires forall job :: job in jobs ==> WellWalked(job) && Cache.Storable(EntriesOf(job))
    ensures forall i: nat :: i < |jobs| ==> i in scans && scans[i] == Scanned(jobs[i], slots) == Scanned(jobs[i], after)
    ensures Sound(slots, jobs) ==> forall i: nat :: i < |jobs| ==> scans[i] == Direct(jobs[i])
    ensures Sound(slots, jobs) ==> Sound(after, jobs)
  {
    scans, after := map[], slots;
    var missed: set<nat> := {};
    for t := 0 to |schedule|
      invariant forall i: nat :: i < |jobs| && Reads(i) in schedule[..t] ==> i in scans
      invariant forall i: nat :: i < |jobs| && i in scans ==> scans[i] == Scanned(jobs[i], slots)
      invariant forall job :: job in jobs ==> SameScan(job, slots, after)
      invariant forall i: nat :: i in missed && i < |jobs| ==> Served(jobs[i], slots).None?
      invariant Sound(slots, jobs) ==> Sound(after, jobs)
    {
      hide Scanned, Served, Kept, SlotsAgree, WellWalked, Sound;
      assert schedule[..t + 1] == schedule[..t] + [schedule[t]];
      match schedule[t]
      case Reads(i) =>
        if i < |jobs| {
          assert jobs[i] in jobs && SameScan(jobs[i], slots, after);
          var found, hit := Read(jobs[i], after);
          scans := scans[i := found];
          if !hit { missed := missed + {i}; }
        }
      case Keeps(i) =>
        if i < |jobs| && i in missed {
          assert jobs[i] in jobs;
          KeptIsSound(jobs, jobs[i], slots, after);
          var before := after;
          after := Keep(jobs[i], after);
          forall job | job in jobs ensures SameScan(job, slots, after) { KeptScansSame(jobs, jobs[i], slots, before, job); }
        }
    }
    assert schedule[..|schedule|] == schedule;
    forall i: nat | i < |jobs| ensures Sound(slots, jobs) ==> Scanned(jobs[i], slots) == Direct(jobs[i]) {
      assert jobs[i] in jobs;
      ScannedIffFaithful(jobs[i], slots);
    }
    assert forall i: nat :: i < |jobs| ==> jobs[i] in jobs;
  }

  lemma KeptIsSound(jobs: seq<Job>, job: Job, slots: Slots, after: Slots)
    requires job in jobs && SlotsAgree(jobs) && Cache.Storable(EntriesOf(job)) && (Sound(slots, jobs) ==> Sound(after, jobs))
    ensures Sound(slots, jobs) ==> Sound(Kept(job, after), jobs)
  {
    if Sound(slots, jobs) && job.key.Some? && !job.sawSymlink { StoredIsFaithful(jobs, job, after); }
  }

  /** The whole phase: the scans, then the merges one after the other in job order. However the scans
      were interleaved, the class map is that of what each scan gives alone, in job order: from sound
      slots, that of all files. */
  method ScanAndMerge(jobs: seq<Job>, slots: Slots, schedule: seq<Event>) returns (scanner: Scanner, after: Slots)
    requires SlotsAgree(jobs) && Complete(jobs, schedule)
    requires forall job :: job in jobs ==> WellWalked(job) && Cache.Storable(EntriesOf(job))
    ensures fresh(scanner) && scanner.Merged(AllScanned(jobs, slots))
    ensures Sound(slots, jobs) ==> scanner.Merged(AllItems(jobs)) && Sound(after, jobs)
  {
    var scans;
    scans, after := ScanAll(jobs, slots, schedule);
    scanner := new Scanner();
    for i := 0 to |jobs|
      invariant fresh(scanner) && scanner.Merged(AllScanned(jobs[..i], slots))
    {
      assert jobs[..i + 1][..i] == jobs[..i];
      scanner.MergeScanned(Items(jobs[i], scans[i]), AllScanned(jobs[..i], slots));
    }
    assert jobs[..|jobs|] == jobs;
    if Sound(slots, jobs) { SoundScansAll(jobs, slots); }
  }

  /** Two runs over the same jobs end in the same class map, whatever their caches held. */
  lemma RunsAgree(a: Scanner, b: Scanner, items: seq<Item>)
    requires a.Merged(items) && b.Merged(items)
    ensures a.scanned == b.scanned && a.classes == b.classes
    ensures a.ambiguous == b.ambiguous && a.violations == b.violations
  {
    DescriptionIsUnique(Occurrences(items), a.classes, a.ambiguous, b.classes, b.ambiguous);
  }

  // ----- which files are merged -----------------------------------------------------------------------------

  /** A file of a job, as it is merged: its path is that of the directory, a slash and its path below; it is
      left out when its canonical path or its path is excluded. */
  lemma ItemIs(job: Job, i: nat)
    requires i < |job.files|
    ensures var (f, item) := (job.files[i], Items(job, Direct(job))[i]);
            && item.path == (if f.rel == [] then job.base else job.base + [47] + f.rel)
            && item.canonical == f.canonical && item.classes == f.classes
            && (item.excluded <==> job.excludes(f.canonical) || job.excludes(item.path))
            && item.rule == job.rule && item.ns == job.ns && item.base == job.base
    ensures |Items(job, Direct(job))| == |job.files|
  {
  }

  lemma ItemsOfLast(jobs: seq<Job>, job: Job)
    ensures AllItems(jobs + [job]) == AllItems(jobs) + Items(job, Direct(job))
    ensures AllItems([]) == []
  {
    assert (jobs + [job])[..|jobs|] == jobs;
    hide Items, Direct;
  }

  /** The files of one job behind those of the jobs before it. */
  lemma {:induction false} JobAfterJob(a: seq<Job>, b: seq<Job>, job: Job)
    ensures AllItems(a + b) == AllItems(a) + AllItems(b)
    ensures AllItems([job]) == Items(job, Direct(job))
    decreases |b|
  {
    hide *;
    ItemsOfLast([], job);
    assert [] + [job] == [job];
    if b == [] {
      assert a + b == a;
    } else {
      var n := |b| - 1;
      JobAfterJob(a, b[..n], job);
      assert b[..n] + [b[n]] == b && a + b[..n] + [b[n]] == a + b;
      ItemsOfLast(b[..n], b[n]);
      ItemsOfLast(a + b[..n], b[n]);
    }
  }

  // ----- what is taken for granted ------------------------------------------------------------------------------

  /** The same files with the same classes, both with or both without symlinks. */
  predicate SameDirectory(a: Job, b: Job) {
    && |a.files| == |b.files| && a.sawSymlink == b.sawSymlink
    && forall k :: 0 <= k < |a.files| ==> a.files[k].rel == b.files[k].rel && a.files[k].classes == b.files[k].classes
  }

  lemma SameEntries(a: Job, b: Job)
    ensures SameDirectory(a, b) <==> EntriesOf(a) == EntriesOf(b) && a.sawSymlink == b.sawSymlink
  {
    if EntriesOf(a) == EntriesOf(b) {
      assert |EntriesOf(a)| == |a.files| && |EntriesOf(b)| == |b.files|;
      forall k | 0 <= k < |a.files| ensures a.files[k].rel == b.files[k].rel && a.files[k].classes == b.files[k].classes {
        assert EntriesOf(a)[k] == EntriesOf(b)[k];
      }
    }
  }

  /** Slots agree when jobs with one slot have the same directory, and whenever no two jobs have one slot. */
  lemma SlotsAgreeIff(jobs: seq<Job>)
    ensures SlotsAgree(jobs) <==>
            forall i, j :: 0 <= i < |jobs| && 0 <= j < |jobs| && jobs[i].key.Some? && jobs[i].key == jobs[j].key ==>
              SameDirectory(jobs[i], jobs[j])
    ensures (forall i, j :: 0 <= i < j < |jobs| ==> jobs[i].key.None? || jobs[i].key != jobs[j].key) ==> SlotsAgree(jobs)
  {
    forall a, b ensures SameDirectory(a, b) <==> EntriesOf(a) == EntriesOf(b) && a.sawSymlink == b.sawSymlink { SameEntries(a, b); }
    hide SameDirectory, EntriesOf;
    if SlotsAgree(jobs) {
      forall i, j | 0 <= i < |jobs| && 0 <= j < |jobs| && jobs[i].key.Some? && jobs[i].key == jobs[j].key
        ensures SameDirectory(jobs[i], jobs[j])
      {
        assert jobs[i] in jobs && jobs[j] in jobs;
      }
    }
  }

  /** A directory is well walked when it was reached over symlinks, or every file's canonical path is that of
      the directory, a slash and its path below. Empty slots are sound, and reading every job is complete. */
  lemma FirstDump(jobs: seq<Job>, job: Job)
    ensures WellWalked(job) <==>
            job.sawSymlink || forall k :: 0 <= k < |job.files| ==>
              job.files[k].canonical == if job.files[k].rel == [] then job.baseCanonical else job.baseCanonical + [47] + job.files[k].rel
    ensures Sound(map[], jobs) && Complete(jobs, seq(|jobs|, i requires 0 <= i < |jobs| => Reads(i)))
  {
    var schedule := seq(|jobs|, i requires 0 <= i < |jobs| => Reads(i));
    forall i: nat | i < |jobs| ensures Reads(i) in schedule { assert schedule[i] == Reads(i); }
    if WellWalked(job) && !job.sawSymlink {
      forall k | 0 <= k < |job.files|
        ensures job.files[k].canonical == if job.files[k].rel == [] then job.baseCanonical else job.baseCanonical + [47] + job.files[k].rel
      {
        assert job.files[k] in job.files;
      }
    }
  }
}
