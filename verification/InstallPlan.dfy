/** From the layout to the transaction: an accepted layout gives the disjoint package roots that
    installer.rs relies on when it places packages in any order. */
module InstallPlan {
  import opened Common
  import opened Text
  import Paths
  import Layout
  import opened InstallTransaction
  import InstallPruning
  import InstallResults
  import InstallConvergence
  import InstallPath

  /** Package `k` goes where the layout puts it. */
  predicate LaidOut(plugin: bool, wanted: seq<Layout.Package>, job: Job, k: nat)
    requires k < |wanted| && k < |job.wanted|
  {
    var p, q := wanted[k], job.wanted[k];
    q.name == p.name && q.meta == p.meta &&
    (!p.meta ==>
      p.name in Layout.PathsOf(plugin, wanted) &&
      q.root == Layout.RootParts(p.name, Layout.PathsOf(plugin, wanted)[p.name]) &&
      q.dest == Paths.Chunks(Layout.PathsOf(plugin, wanted)[p.name]))
  }

  /** The directories of the plan, each once. */
  ghost predicate Lists(removals: seq<(string, Path)>, plan: map<string, string>) {
    (forall i :: 0 <= i < |removals| ==> removals[i].0 in plan && removals[i].1 == Paths.Chunks(plan[removals[i].0])) &&
    (forall i, j :: 0 <= i < j < |removals| ==> removals[i].0 != removals[j].0) &&
    (forall n :: n in plan ==> exists i :: 0 <= i < |removals| && removals[i].0 == n)
  }

  ghost predicate FromLayout(root: string, plugin: bool, wanted: seq<Layout.Package>, previous: seq<Layout.Installed>, job: Job) {
    |job.wanted| == |wanted| == |job.trees| && (forall k: nat :: k < |wanted| ==> LaidOut(plugin, wanted, job, k)) &&
    Lists(job.removals, Layout.RemovalsOf(root, plugin, Layout.NamesOf(wanted), previous))
  }

  lemma SplitPrefix(a: string, b: string)
    ensures Paths.Chunks(a) <= Paths.Chunks(a + "/" + b)
  {
    SplitAt(a, b, '/');
  }

  /** A package is laid out in its root or, with a target-dir, below it. */
  lemma RootHoldsDest(plugin: bool, p: Layout.Package)
    requires Layout.PlaceOf(plugin, p).Ok?
    ensures var rel := Layout.PlaceOf(plugin, p).value;
            Layout.RootParts(p.name, rel) <= Paths.Chunks(rel) && Layout.RootParts(p.name, rel) != []
  {
    var rel := Layout.PlaceOf(plugin, p).value;
    if Layout.InVendor(rel) && rel != "vendor/" + p.name {
      assert rel == Layout.VendorRel(p.name, p.targetDir);
      SplitPrefix("vendor/" + p.name, p.targetDir.value);
    }
  }

  /** No package root meets the state file, but that of a package called composer/installed.json. */
  lemma RootBesideState(plugin: bool, p: Layout.Package)
    requires Layout.PlaceOf(plugin, p).Ok? && Layout.TwoComponents(p.name) && p.name != "composer/installed.json"
    ensures !Nested(Layout.RootParts(p.name, Layout.PlaceOf(plugin, p).value), STATE)
  {
    Layout.KindOfPlace(plugin, p);
    hide Layout.PlaceOf, Layout.RootParts, Layout.PackageRoot;
    var rel := Layout.PlaceOf(plugin, p).value;
    if Layout.InVendor(rel) {
      BesideState(Paths.Chunks(p.name));
      if Paths.Chunks(p.name) == STATE_NAME { NameOfState(p.name); }
    } else {
      assert Layout.RootParts(p.name, rel)[0] != "vendor";
    }
  }

  const STATE_NAME := ["composer", "installed.json"]

  lemma BesideState(chunks: seq<string>)
    requires |chunks| == 2
    ensures chunks != STATE_NAME ==> !Nested(["vendor"] + chunks, STATE)
  {
    assert STATE == ["vendor"] + STATE_NAME;
    assert (["vendor"] + chunks)[1..] == chunks && STATE[1..] == STATE_NAME;
  }

  lemma NameOfState(name: string)
    requires Paths.Chunks(name) == STATE_NAME
    ensures name == "composer/installed.json"
  {
    JoinSplit(name, '/');
    assert Join(STATE_NAME, '/') == "composer" + "/" + "installed.json";
  }

  // ----- removals beside what is wanted --------------------------------------------------------------------

  /** Roots of packages with different names of two components lie beside each other, unless both
      places were given by the plugin. */
  lemma RootsBeside(plugin: bool, p: Layout.Package, q: Layout.Package)
    requires Layout.PlaceOf(plugin, p).Ok? && Layout.PlaceOf(plugin, q).Ok? && p.name != q.name
    requires Layout.TwoComponents(p.name) && Layout.TwoComponents(q.name)
    requires Layout.InVendor(Layout.PlaceOf(plugin, p).value) || Layout.InVendor(Layout.PlaceOf(plugin, q).value)
    ensures !Nested(Layout.RootParts(p.name, Layout.PlaceOf(plugin, p).value),
                    Layout.RootParts(q.name, Layout.PlaceOf(plugin, q).value))
  {
    Layout.KindOfPlace(plugin, p);
    Layout.KindOfPlace(plugin, q);
    hide Layout.PlaceOf, Layout.RootParts, Layout.PackageRoot;
    Layout.BelowSameDir("vendor", Paths.Chunks(p.name), Paths.Chunks(q.name));
    JoinSplit(p.name, '/');
    JoinSplit(q.name, '/');
  }

  ghost predicate Ordinary(name: string) { Layout.TwoComponents(name) && name != "composer/installed.json" }

  /** What nothing checks: directories of removals that the plugin placed lie beside each other and
      beside the packages it places now. */
  ghost predicate PluginPlacesApart(plan: Layout.Plan) {
    (forall n, m ::
      (n in plan.removals && m in plan.removals && n != m && !Layout.InVendor(plan.removals[n]) && !Layout.InVendor(plan.removals[m]))
      ==> !Nested(Paths.Chunks(plan.removals[n]), Paths.Chunks(plan.removals[m]))) &&
    (forall n, m ::
      (n in plan.removals && m in plan.paths && !Layout.InVendor(plan.removals[n]) && !Layout.InVendor(plan.paths[m]))
      ==> !Nested(Layout.RootParts(m, plan.paths[m]), Paths.Chunks(plan.removals[n])))
  }

  ghost function PlanOf(root: string, plugin: bool, wanted: seq<Layout.Package>, previous: seq<Layout.Installed>): Layout.Plan {
    Layout.Plan(Layout.PathsOf(plugin, wanted), Layout.RemovalsOf(root, plugin, Layout.NamesOf(wanted), previous))
  }

  /** The directory of a planned removal is a package root of the layout. */
  lemma RemovalIsRoot(root: string, plugin: bool, wanted: set<string>, previous: seq<Layout.Installed>, name: string)
      returns (p: Layout.Package)
    requires name in Layout.RemovalsOf(root, plugin, wanted, previous)
    ensures p.name == name && name !in wanted && Layout.PlaceOf(plugin, p).Ok?
    ensures var rel, dir := Layout.PlaceOf(plugin, p).value, Layout.RemovalsOf(root, plugin, wanted, previous)[name];
            Paths.Chunks(dir) == Layout.RootParts(name, rel) && (Layout.InVendor(dir) <==> Layout.InVendor(rel))
  {
    var prev := Layout.RemovesOnlyItsOwn(root, plugin, wanted, previous, name);
    p := prev.package;
    Layout.StaysInVendor(name);
  }

  /** A planned removal lies beside installed.json and every package root. */
  lemma RemovalIsReady(root: string, plugin: bool, wanted: seq<Layout.Package>, previous: seq<Layout.Installed>, job: Job, i: nat)
    requires FromLayout(root, plugin, wanted, previous, job) && i < |job.removals|
    requires PluginPlacesApart(PlanOf(root, plugin, wanted, previous))
    requires forall n :: n in Layout.PathsOf(plugin, wanted) ==> Ordinary(n)
    requires Ordinary(job.removals[i].0)
    ensures RemovalReady(job, job.removals[i])
  {
    var (name, dir) := job.removals[i];
    var plan := PlanOf(root, plugin, wanted, previous);
    var p := RemovalIsRoot(root, plugin, Layout.NamesOf(wanted), previous, name);
    RootHoldsDest(plugin, p);
    RootBesideState(plugin, p);
    hide Layout.PathsOf, Layout.PlaceOf, Layout.RootParts, Layout.RemovalsOf, Paths.Chunks;
    forall k: nat | k < |job.wanted|
      ensures job.wanted[k].name != name && (!job.wanted[k].meta ==> !Nested(job.wanted[k].root, dir))
    {
      assert LaidOut(plugin, wanted, job, k);
      assert wanted[k].name in Layout.NamesOf(wanted);
      if !job.wanted[k].meta {
        var q := Layout.PathHasPackage(plugin, wanted, wanted[k].name);
        if Layout.InVendor(plan.removals[name]) || Layout.InVendor(plan.paths[q.name]) {
          RootsBeside(plugin, p, q);
        }
      }
    }
  }

  /** The directories a run removes, in the order of the plan. */
  lemma {:induction false} PlannedAt(removals: seq<(string, Path)>, records: map<string, Record>, i: nat, j: nat)
      returns (i': nat, j': nat)
    requires i < j < |Planned(removals, records)|
    ensures i' < j' < |removals| && removals[i'].1 == Planned(removals, records)[i] && removals[j'].1 == Planned(removals, records)[j]
  {
    var skip := if removals[0].0 in records then 1 else 0;
    if i < skip {
      PlannedReady(removals[1..], records);
      var d := Planned(removals, records)[j];
      assert d == Planned(removals[1..], records)[j - 1] && d in Planned(removals[1..], records);
      var k :| 0 <= k < |removals[1..]| && removals[1..][k].0 in records && removals[1..][k].1 == d;
      i', j' := 0, k + 1;
    } else {
      i', j' := PlannedAt(removals[1..], records, i - skip, j - skip);
      i', j' := i' + 1, j' + 1;
    }
  }

  /** No planned directory lies in another, so that what one removal prunes no other deletes. */
  lemma LayoutPrunesOnce(root: string, plugin: bool, wanted: seq<Layout.Package>, previous: seq<Layout.Installed>, job: Job, start: Disk)
    requires FromLayout(root, plugin, wanted, previous, job) && Ready(job)
    requires PluginPlacesApart(PlanOf(root, plugin, wanted, previous))
    requires forall i :: 0 <= i < |job.removals| ==> Ordinary(job.removals[i].0)
    ensures InstallPruning.PrunedOnce(job, start)
  {
    var dirs, plan := Removals(job, start), PlanOf(root, plugin, wanted, previous);
    forall i, j | 0 <= i < j < |dirs| ensures !Nested(dirs[i], dirs[j]) {
      var i', j' := PlannedAt(job.removals, Records(start), i, j);
      var n, m := job.removals[i'].0, job.removals[j'].0;
      var p := RemovalIsRoot(root, plugin, Layout.NamesOf(wanted), previous, n);
      var q := RemovalIsRoot(root, plugin, Layout.NamesOf(wanted), previous, m);
      if Layout.InVendor(plan.removals[n]) || Layout.InVendor(plan.removals[m]) {
        RootsBeside(plugin, p, q);
      }
    }
    InstallPruning.ApartIsPrunedOnce(job, start);
  }

  // ----- an accepted layout --------------------------------------------------------------------------------

  lemma Apart(paths: map<string, string>, n: string, m: string)
    requires Layout.RootsApart(paths) && n in paths && m in paths && n != m
    ensures !Nested(Layout.RootParts(n, paths[n]), Layout.RootParts(m, paths[m]))
  {
    assert !Nested(Layout.RootParts(n, paths[n]), Layout.RootParts(m, paths[m]));
  }

  lemma PackageIsReady(plugin: bool, wanted: seq<Layout.Package>, job: Job, k: nat)
    requires k < |wanted| == |job.wanted| == |job.trees| && LaidOut(plugin, wanted, job, k) && !job.wanted[k].meta
    requires forall i: nat, j: nat :: i < j < |wanted| ==> wanted[i].name != wanted[j].name
    requires Ordinary(wanted[k].name) && Get(job.trees[k], []) == Some(Dir)
    ensures PackageReady(job, k)
  {
    hide Layout.PathsOf, Layout.PlaceOf, Layout.RootParts, Paths.Chunks;
    var p := Layout.PathHasPackage(plugin, wanted, wanted[k].name);
    assert p == wanted[k];
    RootHoldsDest(plugin, p);
    RootBesideState(plugin, p);
  }

  lemma RootsAreApart(plugin: bool, wanted: seq<Layout.Package>, job: Job)
    requires |wanted| == |job.wanted| && forall k: nat :: k < |wanted| ==> LaidOut(plugin, wanted, job, k)
    requires forall i: nat, j: nat :: i < j < |wanted| ==> wanted[i].name != wanted[j].name
    requires plugin ==> Layout.NoConflict(Layout.PathsOf(plugin, wanted))
    requires forall n :: n in Layout.PathsOf(plugin, wanted) ==> Ordinary(n)
    ensures forall k: nat, j: nat :: k < |job.wanted| && j < |job.wanted| && k != j && !job.wanted[k].meta && !job.wanted[j].meta ==>
              !Nested(job.wanted[k].root, job.wanted[j].root)
  {
    hide Layout.PathsOf, Layout.NoConflict, Layout.RootParts, Layout.RootsApart;
    var paths := Layout.PathsOf(plugin, wanted);
    assert forall n :: n in paths ==> Layout.TwoComponents(n);
    Layout.TwoComponentRootsApart(plugin, wanted);
    forall k: nat, j: nat | k < |job.wanted| && j < |job.wanted| && k != j && !job.wanted[k].meta && !job.wanted[j].meta
      ensures !Nested(job.wanted[k].root, job.wanted[j].root)
    {
      assert LaidOut(plugin, wanted, job, k) && LaidOut(plugin, wanted, job, j);
      Apart(paths, wanted[k].name, wanted[j].name);
    }
  }

  lemma AllIsReady(job: Job)
    requires |job.trees| == |job.wanted|
    requires forall k: nat :: k < |job.wanted| && !job.wanted[k].meta ==> PackageReady(job, k)
    requires forall k: nat, j: nat :: k < |job.wanted| && j < |job.wanted| && k != j && !job.wanted[k].meta && !job.wanted[j].meta ==>
               !Nested(job.wanted[k].root, job.wanted[j].root)
    requires forall k: nat, j: nat :: k < j < |job.wanted| ==> job.wanted[k].name != job.wanted[j].name
    requires forall i: nat :: i < |job.removals| ==> RemovalReady(job, job.removals[i])
    ensures Ready(job)
  {
    hide PackageReady, RemovalReady;
  }

  /** With names of two components an accepted layout is all the transaction asks for; only for
      removals of packages the plugin had placed it takes more. */
  lemma LayoutIsReady(root: string, plugin: bool, wanted: seq<Layout.Package>, previous: seq<Layout.Installed>, job: Job)
    requires FromLayout(root, plugin, wanted, previous, job)
    requires Layout.Placeable(plugin, wanted) && (plugin ==> Layout.NoConflict(Layout.PathsOf(plugin, wanted)))
    requires forall k: nat, j: nat :: k < j < |wanted| ==> wanted[k].name != wanted[j].name
    requires forall n :: n in Layout.PathsOf(plugin, wanted) ==> Ordinary(n)
    requires forall i :: 0 <= i < |job.removals| ==> Ordinary(job.removals[i].0)
    requires PluginPlacesApart(PlanOf(root, plugin, wanted, previous))
    requires forall k: nat :: k < |job.trees| ==> Get(job.trees[k], []) == Some(Dir)
    ensures Ready(job)
  {
    assert |job.wanted| == |wanted| == |job.trees| && forall k: nat :: k < |wanted| ==> LaidOut(plugin, wanted, job, k);
    assert forall k: nat :: k < |wanted| && LaidOut(plugin, wanted, job, k) ==>
        job.wanted[k].name == wanted[k].name && (!job.wanted[k].meta ==> wanted[k].name in Layout.PathsOf(plugin, wanted));
    hide *;
    forall i: nat | i < |job.removals| ensures RemovalReady(job, job.removals[i]) {
      RemovalIsReady(root, plugin, wanted, previous, job, i);
    }
    forall k: nat | k < |job.wanted| && !job.wanted[k].meta ensures PackageReady(job, k) {
      assert LaidOut(plugin, wanted, job, k);
      PackageIsReady(plugin, wanted, job, k);
    }
    RootsAreApart(plugin, wanted, job);
    AllIsReady(job);
  }

  /** So for an accepted layout, stopped and repeated installs end in one disk if and only if the
      project is settled and tidy, and (where trees are not cloned in one step) lost packages have no
      content. */
  lemma LayoutConvergesIff(root: string, plugin: bool, wanted: seq<Layout.Package>, previous: seq<Layout.Installed>, job: Job,
                           sparing: bool, start: Disk)
    requires FromLayout(root, plugin, wanted, previous, job)
    requires Layout.Placeable(plugin, wanted) && (plugin ==> Layout.NoConflict(Layout.PathsOf(plugin, wanted)))
    requires forall k: nat, j: nat :: k < j < |wanted| ==> wanted[k].name != wanted[j].name
    requires forall n :: n in Layout.PathsOf(plugin, wanted) ==> Ordinary(n)
    requires forall i :: 0 <= i < |job.removals| ==> Ordinary(job.removals[i].0)
    requires PluginPlacesApart(PlanOf(root, plugin, wanted, previous))
    requires forall k: nat :: k < |job.trees| ==> Get(job.trees[k], []) == Some(Dir)
    ensures Ready(job)
    ensures InstallResults.AlwaysConverges(job, sparing, start) <==>
            InstallResults.Settled(job, start) && (sparing || InstallResults.LostAreBare(job, start)) && InstallPruning.Tidy(job, start)
    ensures InstallResults.HasContent(job) ==>
              (InstallResults.AlwaysConverges(job, false, start) <==>
               InstallConvergence.Revived(job, start) == {} && InstallPruning.Tidy(job, start))
  {
    hide *;
    LayoutIsReady(root, plugin, wanted, previous, job);
    LayoutPrunesOnce(root, plugin, wanted, previous, job, start);
    InstallResults.ConvergesIffSettled(job, sparing, start);
    if InstallResults.HasContent(job) { InstallResults.ConvergesIffNoneLost(job, start); }
  }

  // ----- removals at places of the plugin -------------------------------------------------------------------

  lemma TwoPlaces(upper: seq<string>, lower: seq<string>)
    requires Paths.Names(upper) && upper != [] && upper[0] != "vendor" && upper < lower && Paths.Names(lower)
    ensures Paths.Chunks(Paths.JoinPath(upper)) == upper && Paths.Chunks(Paths.JoinPath(lower)) == lower
    ensures forall name :: Layout.PackageRoot(name, Paths.JoinPath(upper)) == Paths.JoinPath(upper)
  {
    forall k | 0 <= k < |upper| ensures '/' !in upper[k] { assert Paths.IsName(upper[k]); }
    forall k | 0 <= k < |lower| ensures '/' !in lower[k] { assert Paths.IsName(lower[k]); }
    SplitJoin(upper, '/');
    SplitJoin(lower, '/');
    if Layout.InVendor(Paths.JoinPath(upper)) { Layout.VendorFirst(Paths.JoinPath(upper)); }
  }

  lemma BesideVendor(parts: seq<string>)
    requires parts != [] && parts[0] != "vendor"
    ensures !InstallPath.BelowDummy(parts) && !InstallPath.LooksLikeDrive(parts)
  {
  }

  lemma OnePlaced(p: Layout.Package, rel: string)
    requires !p.meta && Layout.PlaceOf(true, p) == Ok(rel)
    ensures Layout.PathsOf(true, [p]) == map[p.name := rel] && Layout.NamesOf([p]) == {p.name}
    ensures Layout.Placeable(true, [p]) && Layout.NoConflict(map[p.name := rel])
  {
    hide Layout.PlaceOf;
    assert [p][..0] == [];
  }

  lemma OneRemoved(root: string, prev: Layout.Installed, wanted: set<string>, dir: string)
    requires Layout.RemovalOf(root, true, prev) == Ok(Some(dir)) && prev.package.name !in wanted
    ensures Layout.RemovalsOf(root, true, wanted, [prev]) == map[prev.package.name := dir]
    ensures Layout.Removable(root, true, wanted, [prev])
  {
    hide Layout.RemovalOf;
    assert [prev][..0] == [];
  }

  /** Nothing compares the directory of a removal with those of the packages that stay: of two places
      given by the plugin, one above the other, the upper one is planned for removal while a package is
      laid out in the lower one. */
  lemma RemovalsAreNotCompared(root: string, old': Layout.Package, new': Layout.Package, upper: seq<string>, lower: seq<string>)
    requires Paths.Root(Paths.Slashes(root)) != "" && InstallPath.Anchored(root) && old'.name != "" && old'.name != new'.name && !new'.meta
    requires Paths.Names(upper) && upper != [] && upper[0] != "vendor" && upper < lower && Paths.Names(lower)
    requires Layout.PlaceOf(true, old') == Ok(Paths.JoinPath(upper)) && Layout.PlaceOf(true, new') == Ok(Paths.JoinPath(lower))
    ensures var prev := Layout.Installed(old', Some(InstallPath.InstallPathOf(root, Paths.JoinPath(upper))));
            var wanted := [new'];
            && Layout.Placeable(true, wanted) && Layout.NoConflict(Layout.PathsOf(true, wanted))
            && Layout.Removable(root, true, Layout.NamesOf(wanted), [prev])
            && Layout.RemovalsOf(root, true, Layout.NamesOf(wanted), [prev]) == map[old'.name := Paths.JoinPath(upper)]
            && Layout.PathsOf(true, wanted) == map[new'.name := Paths.JoinPath(lower)]
            && Paths.Chunks(Paths.JoinPath(upper)) < Paths.Chunks(Paths.JoinPath(lower))
  {
    var rel := Paths.JoinPath(upper);
    var prev := Layout.Installed(old', Some(InstallPath.InstallPathOf(root, rel)));
    hide *;
    TwoPlaces(upper, lower);
    OnePlaced(new', Paths.JoinPath(lower));
    BesideVendor(upper);
    Layout.RemovesWhatWasLaidOut(root, true, prev, upper);
    OneRemoved(root, prev, {new'.name}, rel);
  }
}
