/** Where packages go (crates/vivacity-core/src/layout.rs): the placement rules, the conflict check,
    the removal plan, and why package roots never lie inside one another. */
module Layout {
  import opened Common
  import opened Text
  import opened Paths
  import opened ShortestPath
  import opened InstallPath

  /** Verdict of the composer/installers table for one package. */
  datatype Placement = Vendor | Custom(path: string) | Unplaceable

  datatype Package = Package(name: string, meta: bool, targetDir: Option<string>, placement: Placement)

  /** An entry of installed.json: metapackages have no install path. */
  datatype Installed = Installed(package: Package, installPath: Option<string>)

  datatype Issue =
    | NoPlacement(name: string)
    | AtAbsolutePath(name: string)
    | AtProjectRoot(name: string)
    | OutsideProject(name: string)
    | InsideVendor(name: string)
    | SamePlace(name: string, other: string)
    | Contains(name: string, other: string)
    | LivesOutside(name: string)
    | Moved(name: string)

  function VendorRel(name: string, targetDir: Option<string>): string {
    match targetDir
    case Some(t) => "vendor/" + name + "/" + t
    case None => "vendor/" + name
  }

  /** `place`; `plugin` says whether composer/installers is emulated. */
  function PlaceOf(plugin: bool, p: Package): Result<string, Issue> {
    if !plugin then Ok(VendorRel(p.name, p.targetDir))
    else
      match p.placement
      case Vendor => Ok(VendorRel(p.name, p.targetDir))
      case Unplaceable => Err(NoPlacement(p.name))
      case Custom(path) =>
        if IsAbsolutePath(path) then Err(AtAbsolutePath(p.name))
        else
          var rel := Normalized(path);
          if rel == "" || rel == "." then Err(AtProjectRoot(p.name))
          else if "../" <= rel || rel == ".." then Err(OutsideProject(p.name))
          else if rel == "vendor" || InVendor(rel) then Err(InsideVendor(p.name))
          else Ok(rel)
  }

  predicate InVendor(rel: string) { "vendor/" <= rel }

  /** The directory emptied before the package is laid out, below the project root. */
  function PackageRoot(name: string, rel: string): string {
    if InVendor(rel) then "vendor/" + name else rel
  }

  // ----- resolving a layout ------------------------------------------------------------------------

  /** Project-relative paths by name; the last entry of a name stands. */
  function PathsOf(plugin: bool, wanted: seq<Package>): map<string, string>
    decreases |wanted|
  {
    if wanted == [] then map[]
    else
      var p := wanted[|wanted| - 1];
      var before := PathsOf(plugin, wanted[..|wanted| - 1]);
      if p.meta || PlaceOf(plugin, p).Err? then before else before[p.name := PlaceOf(plugin, p).value]
  }

  predicate Placeable(plugin: bool, wanted: seq<Package>) {
    forall p :: p in wanted && !p.meta ==> PlaceOf(plugin, p).Ok?
  }

  /** No two packages in one place, and no package under one that lives outside vendor. */
  predicate NoConflict(paths: map<string, string>) {
    forall n, m :: n in paths && m in paths && n != m ==>
      paths[n] != paths[m] && (!InVendor(paths[n]) ==> !(paths[n] + "/" <= paths[m]))
  }

  /** What the plan removes for one entry that is no longer wanted: only the directory the current
      layout would give it, and only when that is where it was recorded. */
  function RemovalOf(root: string, plugin: bool, prev: Installed): Result<Option<string>, Issue> {
    if prev.package.name == "" || prev.installPath.None? then Ok(None)
    else
      match ReadBack(root, prev.installPath.value)
      case None => Err(LivesOutside(prev.package.name))
      case Some(oldRel) =>
        match PlaceOf(plugin, prev.package)
        case Err(e) => Err(e)
        case Ok(rel) => if rel == oldRel then Ok(Some(PackageRoot(prev.package.name, rel))) else Err(Moved(prev.package.name))
  }

  function NamesOf(wanted: seq<Package>): set<string> { set p | p in wanted :: p.name }

  function RemovalsOf(root: string, plugin: bool, wanted: set<string>, previous: seq<Installed>): map<string, string>
    decreases |previous|
  {
    if previous == [] then map[]
    else
      var prev := previous[|previous| - 1];
      var before := RemovalsOf(root, plugin, wanted, previous[..|previous| - 1]);
      var r := RemovalOf(root, plugin, prev);
      if prev.package.name !in wanted && r.Ok? && r.value.Some? then before[prev.package.name := r.value.value] else before
  }

  predicate Removable(root: string, plugin: bool, wanted: set<string>, previous: seq<Installed>) {
    forall prev :: prev in previous && prev.package.name !in wanted ==> RemovalOf(root, plugin, prev).Ok?
  }

  datatype Plan = Plan(paths: map<string, string>, removals: map<string, string>)

  method PlacePackages(plugin: bool, wanted: seq<Package>) returns (paths: map<string, string>, issues: seq<Issue>)
    ensures paths == PathsOf(plugin, wanted)
    ensures issues == [] <==> Placeable(plugin, wanted)
  {
    paths, issues := map[], [];
    for i := 0 to |wanted|
      invariant paths == PathsOf(plugin, wanted[..i])
      invariant issues == [] <==> Placeable(plugin, wanted[..i])
    {
      var p := wanted[i];
      assert wanted[..i + 1] == wanted[..i] + [p];
      assert wanted[..i + 1][..i] == wanted[..i];
      if p.meta { continue; }
      match PlaceOf(plugin, p) {
        case Ok(rel) => paths := paths[p.name := rel];
        case Err(e) => issues := issues + [e];
      }
    }
    assert wanted[..|wanted|] == wanted;
  }

  predicate AllApart(paths: map<string, string>, names: set<string>) {
    forall n, m :: n in paths && m in paths && n != m && n in names && m in names ==> paths[n] != paths[m]
  }

  /** Packages that would share a directory. */
  method FindSamePlace(paths: map<string, string>) returns (issues: seq<Issue>)
    ensures issues == [] <==> AllApart(paths, paths.Keys)
  {
    issues := [];
    var byPath: map<string, string> := map[];
    var todo := paths.Keys;
    while todo != {}
      invariant todo <= paths.Keys
      invariant forall n :: n in paths.Keys - todo ==> paths[n] in byPath
      invariant forall rel :: rel in byPath ==> byPath[rel] in paths.Keys - todo && paths[byPath[rel]] == rel
      invariant issues == [] <==> AllApart(paths, paths.Keys - todo)
    {
      var name :| name in todo;
      var rel := paths[name];
      if rel in byPath {
        issues := issues + [SamePlace(name, byPath[rel])];
      }
      ghost var done := paths.Keys - todo;
      todo := todo - {name};
      assert paths.Keys - todo == done + {name};
      byPath := byPath[rel := name];
    }
    assert paths.Keys - {} == paths.Keys;
  }

  predicate NothingUnder(paths: map<string, string>, name: string, others: set<string>)
    requires name in paths
  {
    forall m :: m in paths && m in others && m != name ==> !(paths[name] + "/" <= paths[m])
  }

  /** Packages below `name`. */
  method FindUnder(paths: map<string, string>, name: string) returns (issues: seq<Issue>)
    requires name in paths
    ensures issues == [] <==> NothingUnder(paths, name, paths.Keys)
  {
    issues := [];
    var todo := paths.Keys;
    while todo != {}
      invariant todo <= paths.Keys
      invariant issues == [] <==> NothingUnder(paths, name, paths.Keys - todo)
    {
      var other :| other in todo;
      if other != name && paths[name] + "/" <= paths[other] {
        issues := issues + [Contains(name, other)];
      }
      ghost var done := paths.Keys - todo;
      todo := todo - {other};
      assert paths.Keys - todo == done + {other};
    }
    assert paths.Keys - {} == paths.Keys;
  }

  predicate CustomsClear(paths: map<string, string>, names: set<string>) {
    forall n :: n in paths && n in names && !InVendor(paths[n]) ==> NothingUnder(paths, n, paths.Keys)
  }

  method FindContained(paths: map<string, string>) returns (issues: seq<Issue>)
    ensures issues == [] <==> CustomsClear(paths, paths.Keys)
  {
    issues := [];
    var todo := paths.Keys;
    while todo != {}
      invariant todo <= paths.Keys
      invariant issues == [] <==> CustomsClear(paths, paths.Keys - todo)
    {
      var name :| name in todo;
      if !InVendor(paths[name]) {
        var more := FindUnder(paths, name);
        issues := issues + more;
      }
      ghost var done := paths.Keys - todo;
      todo := todo - {name};
      assert paths.Keys - todo == done + {name};
    }
    assert paths.Keys - {} == paths.Keys;
  }

  method FindConflicts(paths: map<string, string>) returns (issues: seq<Issue>)
    ensures issues == [] <==> NoConflict(paths)
  {
    var same := FindSamePlace(paths);
    var under := FindContained(paths);
    issues := same + under;
    assert NoConflict(paths) <==> AllApart(paths, paths.Keys) && CustomsClear(paths, paths.Keys) by {
      if NoConflict(paths) {
        forall n | n in paths && !InVendor(paths[n]) ensures NothingUnder(paths, n, paths.Keys) {}
      }
      if CustomsClear(paths, paths.Keys) {
        forall n | n in paths && !InVendor(paths[n]) ensures NothingUnder(paths, n, paths.Keys) {}
      }
    }
  }

  method PlanRemovals(root: string, plugin: bool, wanted: set<string>, previous: seq<Installed>)
      returns (removals: map<string, string>, issues: seq<Issue>)
    ensures removals == RemovalsOf(root, plugin, wanted, previous)
    ensures issues == [] <==> Removable(root, plugin, wanted, previous)
  {
    hide RemovalOf, PlaceOf;
    removals, issues := map[], [];
    for i := 0 to |previous|
      invariant removals == RemovalsOf(root, plugin, wanted, previous[..i])
      invariant issues == [] <==> Removable(root, plugin, wanted, previous[..i])
    {
      var prev := previous[i];
      assert previous[..i + 1] == previous[..i] + [prev];
      assert previous[..i + 1][..i] == previous[..i];
      if prev.package.name in wanted { continue; }
      match RemovalOf(root, plugin, prev) {
        case Ok(dir) => if dir.Some? { removals := removals[prev.package.name := dir.value]; }
        case Err(e) => issues := issues + [e];
      }
    }
    assert previous[..|previous|] == previous;
  }

  /** The pass before anything is touched on disk: all or nothing. */
  method ResolveLayout(root: string, plugin: bool, wanted: seq<Package>, previous: seq<Installed>)
      returns (plan: Result<Plan, seq<Issue>>)
    ensures plan.Ok? <==>
            Placeable(plugin, wanted) && (plugin ==> NoConflict(PathsOf(plugin, wanted))) &&
            Removable(root, plugin, NamesOf(wanted), previous)
    ensures plan.Ok? ==>
              plan.value == Plan(PathsOf(plugin, wanted), RemovalsOf(root, plugin, NamesOf(wanted), previous))
  {
    var paths, issues := PlacePackages(plugin, wanted);
    if plugin {
      var conflicts := FindConflicts(paths);
      issues := issues + conflicts;
    }
    var removals, refused := PlanRemovals(root, plugin, NamesOf(wanted), previous);
    issues := issues + refused;
    plan := if issues == [] then Ok(Plan(paths, removals)) else Err(issues);
  }

  // ----- directories inside one another -------------------------------------------------------------

  function RootParts(name: string, rel: string): seq<string> { Chunks(PackageRoot(name, rel)) }

  ghost predicate RootsApart(paths: map<string, string>) {
    forall n, m :: n in paths && m in paths && n != m ==> !Nested(RootParts(n, paths[n]), RootParts(m, paths[m]))
  }

  /** Package names, read as paths, of the packages that stay in vendor. */
  predicate VendorNamesApart(paths: map<string, string>) {
    forall n, m :: n in paths && m in paths && n != m && InVendor(paths[n]) && InVendor(paths[m]) ==>
      !Nested(Chunks(n), Chunks(m))
  }

  /** A text prefix ending in a slash is a prefix of components. */
  lemma PrefixIsAbove(a: string, b: string)
    ensures a + "/" <= b <==> Chunks(a) < Chunks(b)
  {
    JoinSplit(a, '/');
    JoinSplit(b, '/');
    if a + "/" <= b {
      var rest := b[|a| + 1..];
      assert b == a + "/" + rest;
      SplitAt(a, rest, '/');
    }
    if Chunks(a) < Chunks(b) {
      var tail := Chunks(b)[|Chunks(a)|..];
      assert Chunks(b) == Chunks(a) + tail;
      JoinConcat(Chunks(a), tail);
      assert b == a + "/" + JoinPath(tail);
    }
  }

  lemma VendorChunks(name: string)
    ensures Chunks("vendor/" + name) == ["vendor"] + Chunks(name)
  {
    assert "vendor/" + name == "vendor" + "/" + name;
    SplitAt("vendor", name, '/');
    SplitWhole("vendor", '/');
  }

  lemma VendorFirst(rel: string)
    requires InVendor(rel)
    ensures Chunks(rel)[0] == "vendor"
  {
    assert rel == "vendor/" + rel[7..];
    VendorChunks(rel[7..]);
  }

  /** A path given by the plugin is a chain of names below the project, and not below vendor. */
  lemma CustomParts(p: Package) returns (parts: seq<string>)
    requires p.placement.Custom? && PlaceOf(true, p).Ok?
    ensures Names(parts) && parts != [] && PlaceOf(true, p).value == JoinPath(parts) && parts[0] != "vendor"
    ensures Chunks(PlaceOf(true, p).value) == parts
  {
    var path := p.placement.path;
    assert Root(Slashes(path)) == "" by { assert path != "" ==> Slashes(path)[0] != '/'; }
    var ups, found := RelativeParts(path);
    parts := found;
    var rel := JoinPath(parts);
    StartsWithFirst(parts);
    assert "vendor" + "/" == "vendor/" && ".." + "/" == "../";
    if ups > 0 { assert false; }
    assert parts[0..] == parts;
    forall k | 0 <= k < |parts| ensures '/' !in parts[k] { assert IsName(parts[k]); }
    SplitJoin(parts, '/');
    if parts[0] == "vendor" { assert false; }
  }

  lemma StartsWithFirst(parts: seq<string>)
    requires parts != []
    ensures JoinPath(parts) == parts[0] || parts[0] + "/" <= JoinPath(parts)
  {
  }

  /** Every path of a layout is where one of its packages is placed. */
  lemma {:induction false} PathHasPackage(plugin: bool, wanted: seq<Package>, name: string) returns (p: Package)
    requires name in PathsOf(plugin, wanted)
    ensures p in wanted && p.name == name && PlaceOf(plugin, p) == Ok(PathsOf(plugin, wanted)[name])
    decreases |wanted|
  {
    var last := wanted[|wanted| - 1];
    if !last.meta && PlaceOf(plugin, last).Ok? && last.name == name {
      p := last;
    } else {
      p := PathHasPackage(plugin, wanted[..|wanted| - 1], name);
    }
  }

  lemma OnlyCustomLeaves(plugin: bool, p: Package)
    requires PlaceOf(plugin, p).Ok? && !InVendor(PlaceOf(plugin, p).value)
    ensures plugin && p.placement.Custom?
  {
    assert VendorRel(p.name, p.targetDir)[..7] == "vendor/";
  }

  /** Two kinds of roots: `vendor/<name>`, or a place that does not begin with vendor. */
  lemma KindOfPlace(plugin: bool, p: Package)
    requires PlaceOf(plugin, p).Ok?
    ensures var rel := PlaceOf(plugin, p).value;
            if InVendor(rel) then RootParts(p.name, rel) == ["vendor"] + Chunks(p.name)
            else RootParts(p.name, rel) == Chunks(rel) && Chunks(rel)[0] != "vendor"
  {
    hide PlaceOf;
    VendorChunks(p.name);
    if !InVendor(PlaceOf(plugin, p).value) {
      OnlyCustomLeaves(plugin, p);
      var parts := CustomParts(p);
    }
  }

  lemma KindOfRoot(plugin: bool, wanted: seq<Package>, name: string)
    requires name in PathsOf(plugin, wanted)
    ensures var rel := PathsOf(plugin, wanted)[name];
            if InVendor(rel) then RootParts(name, rel) == ["vendor"] + Chunks(name)
            else RootParts(name, rel) == Chunks(rel) && Chunks(rel)[0] != "vendor"
  {
    var p := PathHasPackage(plugin, wanted, name);
    KindOfPlace(plugin, p);
  }

  /** Without conflicts, only packages that stay in vendor can lie inside one another, and they do
      exactly when their names do. */
  lemma RootsNestLikeNames(plugin: bool, wanted: seq<Package>)
    requires plugin ==> NoConflict(PathsOf(plugin, wanted))
    ensures RootsApart(PathsOf(plugin, wanted)) <==> VendorNamesApart(PathsOf(plugin, wanted))
  {
    hide PathsOf, NoConflict, Chunks, PlaceOf, RootParts, Nested;
    var paths := PathsOf(plugin, wanted);
    forall n, m | n in paths && m in paths && n != m
      ensures Nested(RootParts(n, paths[n]), RootParts(m, paths[m])) <==>
              InVendor(paths[n]) && InVendor(paths[m]) && Nested(Chunks(n), Chunks(m))
    {
      TwoRoots(plugin, wanted, n, m);
    }
  }

  lemma TwoRoots(plugin: bool, wanted: seq<Package>, n: string, m: string)
    requires plugin ==> NoConflict(PathsOf(plugin, wanted))
    requires n in PathsOf(plugin, wanted) && m in PathsOf(plugin, wanted) && n != m
    ensures var paths := PathsOf(plugin, wanted);
            Nested(RootParts(n, paths[n]), RootParts(m, paths[m])) <==>
            InVendor(paths[n]) && InVendor(paths[m]) && Nested(Chunks(n), Chunks(m))
  {
    var paths := PathsOf(plugin, wanted);
    KindOfRoot(plugin, wanted, n);
    KindOfRoot(plugin, wanted, m);
    if InVendor(paths[n]) && InVendor(paths[m]) {
      BelowSameDir("vendor", Chunks(n), Chunks(m));
    } else if !InVendor(paths[n]) && !InVendor(paths[m]) {
      var p := PathHasPackage(plugin, wanted, n);
      OnlyCustomLeaves(plugin, p);
      CustomsApart(paths, n, m);
    }
  }

  lemma BelowSameDir(dir: string, a: seq<string>, b: seq<string>)
    ensures Nested([dir] + a, [dir] + b) <==> Nested(a, b)
  {
    assert ([dir] + a)[1..] == a && ([dir] + b)[1..] == b;
    if [dir] + a <= [dir] + b { assert a == ([dir] + b)[1..1 + |a|]; }
    if [dir] + b <= [dir] + a { assert b == ([dir] + a)[1..1 + |b|]; }
  }

  lemma CustomsApart(paths: map<string, string>, n: string, m: string)
    requires NoConflict(paths) && n in paths && m in paths && n != m && !InVendor(paths[n]) && !InVendor(paths[m])
    ensures !Nested(Chunks(paths[n]), Chunks(paths[m]))
  {
    var a, b := paths[n], paths[m];
    PrefixIsAbove(a, b);
    PrefixIsAbove(b, a);
    JoinSplit(a, '/');
    JoinSplit(b, '/');
    assert Chunks(a) <= Chunks(b) ==> Chunks(a) < Chunks(b) || Chunks(a) == Chunks(b);
    assert Chunks(b) <= Chunks(a) ==> Chunks(b) < Chunks(a) || Chunks(a) == Chunks(b);
  }

  /** Package names as Composer accepts them: `vendor/name`. */
  predicate TwoComponents(name: string) { |Chunks(name)| == 2 }

  /** Package roots of an accepted layout never lie inside one another. */
  lemma TwoComponentRootsApart(plugin: bool, wanted: seq<Package>)
    requires plugin ==> NoConflict(PathsOf(plugin, wanted))
    requires forall n :: n in PathsOf(plugin, wanted) ==> TwoComponents(n)
    ensures RootsApart(PathsOf(plugin, wanted))
  {
    var paths := PathsOf(plugin, wanted);
    RootsNestLikeNames(plugin, wanted);
    forall n, m | n in paths && m in paths && n != m ensures !Nested(Chunks(n), Chunks(m)) {
      assert TwoComponents(n) && TwoComponents(m);
      JoinSplit(n, '/');
      JoinSplit(m, '/');
    }
  }

  /** The check does not look at packages that stay in vendor: one whose name lies above another
      name is accepted, and its root holds the other. */
  lemma NestedNamesAreNotCaught(n: string, m: string)
    requires Chunks(n) < Chunks(m)
    ensures var wanted := [Package(n, false, None, Vendor), Package(m, false, None, Vendor)];
            Placeable(true, wanted) && NoConflict(PathsOf(true, wanted)) && !RootsApart(PathsOf(true, wanted))
  {
    hide Chunks;
    var first, second := Package(n, false, None, Vendor), Package(m, false, None, Vendor);
    var wanted := [first, second];
    var paths := PathsOf(true, wanted);
    assert wanted[..1] == [first] && [first][..0] == [];
    assert PathsOf(true, [first]) == map[n := "vendor/" + n];
    assert paths == map[n := "vendor/" + n, m := "vendor/" + m];
    StaysInVendor(n);
    StaysInVendor(m);
    assert ("vendor/" + n)[7..] == n && ("vendor/" + m)[7..] == m;
    VendorChunks(n);
    VendorChunks(m);
    BelowSameDir("vendor", Chunks(n), Chunks(m));
    assert Nested(RootParts(n, paths[n]), RootParts(m, paths[m]));
  }

  lemma StaysInVendor(name: string)
    ensures InVendor("vendor/" + name)
  {
    assert ("vendor/" + name)[..7] == "vendor/";
  }

  // ----- removals ---------------------------------------------------------------------------------------

  /** A package laid out by this very layout is removed from its package root exactly when its
      recorded path can be read back; otherwise the whole plan is refused. */
  lemma RemovesWhatWasLaidOut(root: string, plugin: bool, prev: Installed, parts: seq<string>)
    requires Root(Slashes(root)) != "" && prev.package.name != ""
    requires Names(parts) && parts != [] && PlaceOf(plugin, prev.package) == Ok(JoinPath(parts))
    requires prev.installPath == Some(InstallPathOf(root, JoinPath(parts)))
    ensures RemovalOf(root, plugin, prev) == Ok(Some(PackageRoot(prev.package.name, JoinPath(parts)))) <==>
            Anchored(root) && !BelowDummy(parts) && !LooksLikeDrive(parts)
    ensures RemovalOf(root, plugin, prev).Ok? <==> Anchored(root) && !BelowDummy(parts) && !LooksLikeDrive(parts)
  {
    hide PlaceOf, InstallPathOf, ReadBack;
    InstallPathRoundTrip(root, parts);
  }

  /** Whatever installed.json claims, every directory in the plan belongs to an entry that is no
      longer wanted, is the root the current layout gives that package, and the entry records the
      directory that layout gives it. */
  lemma {:induction false} RemovesOnlyItsOwn(root: string, plugin: bool, wanted: set<string>, previous: seq<Installed>, name: string)
      returns (prev: Installed)
    requires name in RemovalsOf(root, plugin, wanted, previous)
    ensures prev in previous && prev.package.name == name && name !in wanted
    ensures PlaceOf(plugin, prev.package).Ok? && prev.installPath.Some?
    ensures var rel := PlaceOf(plugin, prev.package).value;
            && RemovalsOf(root, plugin, wanted, previous)[name] == PackageRoot(name, rel)
            && RecordedPlace(root, prev.installPath.value) == Normalized(root) + "/" + rel
    decreases |previous|
  {
    hide PlaceOf, RecordedPlace, Normalized;
    var last := previous[|previous| - 1];
    var r := RemovalOf(root, plugin, last);
    if last.package.name == name && name !in wanted && r.Ok? && r.value.Some? {
      prev := last;
      var place := RecordedPlace(root, prev.installPath.value);
      var base := Normalized(root) + "/";
      assert place == base + place[|base|..];
    } else {
      prev := RemovesOnlyItsOwn(root, plugin, wanted, previous[..|previous| - 1], name);
    }
  }
}
