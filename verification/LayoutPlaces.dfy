/** Which places a layout accepts and which removals it plans (crates/vivacity-core/src/layout.rs), and
    what is recorded of a place, told by characters, chunks and fields. */
module LayoutPlaces {
  import opened Common
  import opened Text
  import opened Paths
  import opened ShortestPath
  import opened InstallPath
  import opened Layout

  // ----- which paths are absolute ---------------------------------------------------------------------------

  predicate Letter(c: char) { 65 <= c as int <= 90 || 97 <= c as int <= 122 }

  /** A path is absolute when it begins with a slash of either kind, has a scheme in it, or begins with a
      drive. */
  lemma AbsoluteIff(path: string)
    ensures IsAbsolutePath(path) <==>
            || (exists rest :: path == "/" + rest) || (exists rest :: path == "\\" + rest)
            || (exists before, rest :: path == before + "://" + rest)
            || (exists c, rest :: Letter(c) && (path == [c] + (":/" + rest) || path == [c] + (":\\" + rest)))
  {
    if path != "" { assert path == [path[0]] + path[1..]; }
    SchemeIff(path);
    DrivePathIff(path);
  }

  lemma SchemeIff(path: string)
    ensures (exists i :: 0 <= i < |path| - 2 && path[i] == ':' && path[i + 1] == '/' && path[i + 2] == '/') <==>
            exists before, rest :: path == before + "://" + rest
  {
    if i :| 0 <= i < |path| - 2 && path[i] == ':' && path[i + 1] == '/' && path[i + 2] == '/' {
      assert path == path[..i] + "://" + path[i + 3..];
    }
    if before, rest :| path == before + "://" + rest {
      var i := |before|;
      assert path[i] == ':' && path[i + 1] == '/' && path[i + 2] == '/';
    }
  }

  lemma DrivePathIff(path: string)
    ensures HasDrive(path) <==> exists c, rest :: Letter(c) && (path == [c] + (":/" + rest) || path == [c] + (":\\" + rest))
  {
    if HasDrive(path) {
      assert path == [path[0]] + ([path[1], path[2]] + path[3..]) && Letter(path[0]);
      assert [path[1], path[2]] == ":/" || [path[1], path[2]] == ":\\";
    }
  }

  lemma DriveIff(name: string)
    ensures IsDriveName(name) <==> exists c :: Letter(c) && name == [c] + ":"
  {
    if IsDriveName(name) { assert name == [name[0]] + ":" && Letter(name[0]); }
  }

  // ----- places -------------------------------------------------------------------------------------------------

  /** Without the plugin, or when it leaves the package in vendor, the place is made of the name and the
      target directory. */
  lemma VendorPlace(plugin: bool, p: Package)
    requires !plugin || p.placement.Vendor?
    ensures p.targetDir.None? ==> PlaceOf(plugin, p) == Ok("vendor" + "/" + p.name)
    ensures p.targetDir.Some? ==> PlaceOf(plugin, p) == Ok("vendor" + "/" + p.name + "/" + p.targetDir.value)
  {
    assert "vendor/" + p.name == "vendor" + "/" + p.name;
  }

  /** The path leads, from every directory, to the same chain of names below it. */
  ghost predicate LeadsDown(path: string, parts: seq<string>) {
    forall dir :: Walk(dir, Chunks(Slashes(path))) == dir + parts
  }

  /** A path given by the plugin is accepted exactly when it is not absolute and leads down to a chain of
      names that does not begin with vendor; and then the place is that chain. */
  lemma CustomPlaceIff(p: Package, path: string, rel: string)
    requires p.placement == Custom(path)
    ensures PlaceOf(true, p) == Ok(rel) <==>
            !IsAbsolutePath(path) &&
            exists parts :: Names(parts) && parts != [] && parts[0] != "vendor" && rel == Join(parts, '/') && LeadsDown(path, parts)
  {
    if PlaceOf(true, p) == Ok(rel) {
      var parts := CustomParts(p);
      Relative(path);
      var ups, found := RelativeParts(path);
      SameChain(found, ups, parts);
      forall dir { WalkNames(dir, parts); }
    }
    if !IsAbsolutePath(path) {
      if parts :| Names(parts) && parts != [] && parts[0] != "vendor" && rel == Join(parts, '/') && LeadsDown(path, parts) {
        DownIsAccepted(p, path, parts);
      }
    }
  }

  lemma Relative(path: string)
    requires !IsAbsolutePath(path)
    ensures Root(Slashes(path)) == ""
  {
    assert path != "" ==> Slashes(path)[0] != '/';
  }

  /** The chain the accepted text is made of is what the path leads to. */
  lemma SameChain(found: seq<string>, ups: nat, parts: seq<string>)
    requires Shape(found, ups) && Names(parts) && parts != [] && JoinPath(found) == JoinPath(parts)
    ensures found == parts
  {
    ShapeIsChunks(found, ups);
    forall k | 0 <= k < |parts| ensures '/' !in parts[k] { assert IsName(parts[k]); }
    forall k | 0 <= k < |found| ensures '/' !in found[k] { assert IsChunk(found[k]); }
    SplitJoin(parts, '/');
    assert IsName(parts[0]) && JoinPath(parts) != "";
    if found != [] { SplitJoin(found, '/'); }
  }

  lemma DownIsAccepted(p: Package, path: string, parts: seq<string>)
    requires p.placement == Custom(path) && !IsAbsolutePath(path)
    requires Names(parts) && parts != [] && parts[0] != "vendor" && LeadsDown(path, parts)
    ensures PlaceOf(true, p) == Ok(JoinPath(parts))
  {
    Relative(path);
    var ups, found := RelativeParts(path);
    var dir := Deep(ups);
    assert Walk(dir, Chunks(Slashes(path))) == dir + parts;
    forall dir' ensures Walk(dir', parts) == dir' + parts { WalkNames(dir', parts); }
    assert Shape(parts, 0) by { assert parts[0..] == parts; }
    SameWalkSameParts(found, ups, parts, 0, Deep(ups + 0));
    forall k | 0 <= k < |parts| ensures '/' !in parts[k] && parts[k] != "" { assert IsName(parts[k]); }
    FirstPiece(parts);
  }

  lemma FirstPiece(parts: seq<string>)
    requires Names(parts) && parts != []
    ensures var rel := JoinPath(parts);
            && rel != "" && rel != "." && rel != ".." && !("../" <= rel)
            && (parts[0] != "vendor" ==> rel != "vendor" && !("vendor/" <= rel))
  {
    var rel := JoinPath(parts);
    assert IsName(parts[0]);
    forall k | 0 <= k < |parts| ensures '/' !in parts[k] { assert IsName(parts[k]); }
    SplitJoin(parts, '/');
    if "../" <= rel {
      assert rel == ".." + "/" + rel[3..];
      SplitAt("..", rel[3..], '/');
      SplitWhole("..", '/');
    }
    if "vendor/" <= rel { VendorFirst(rel); }
    SplitWhole("vendor", '/');
    SplitWhole("..", '/');
    SplitWhole(".", '/');
  }

  predicate PlacedAs(plugin: bool, p: Package, name: string) { p.name == name && !p.meta && PlaceOf(plugin, p).Ok? }

  /** A name has a place when a package of that name has one. */
  lemma {:induction false} HasPathIff(plugin: bool, wanted: seq<Package>, name: string)
    ensures name in PathsOf(plugin, wanted) <==> exists p :: p in wanted && PlacedAs(plugin, p, name)
    decreases |wanted|
  {
    if wanted != [] {
      var n := |wanted| - 1;
      PathsStep(plugin, wanted, name);
      hide PathsOf, PlacedAs;
      HasPathIff(plugin, wanted[..n], name);
      assert wanted == wanted[..n] + [wanted[n]];
    }
  }

  /** Of several packages of one name, the last that can be placed gives it. */
  lemma {:induction false} LastPlaceStands(plugin: bool, wanted: seq<Package>, i: nat)
    requires i < |wanted| && PlacedAs(plugin, wanted[i], wanted[i].name)
    requires forall j :: i < j < |wanted| ==> !PlacedAs(plugin, wanted[j], wanted[i].name)
    ensures wanted[i].name in PathsOf(plugin, wanted) && PlaceOf(plugin, wanted[i]) == Ok(PathsOf(plugin, wanted)[wanted[i].name])
    decreases |wanted|
  {
    PathsStep(plugin, wanted, wanted[i].name);
    hide PlaceOf, PathsOf, PlacedAs;
    if i < |wanted| - 1 { LastPlaceStands(plugin, wanted[..|wanted| - 1], i); }
  }

  lemma PathsStep(plugin: bool, wanted: seq<Package>, name: string)
    requires wanted != []
    ensures var before, after, p := PathsOf(plugin, wanted[..|wanted| - 1]), PathsOf(plugin, wanted), wanted[|wanted| - 1];
            && (PlacedAs(plugin, p, name) ==> name in after && PlaceOf(plugin, p) == Ok(after[name]))
            && (!PlacedAs(plugin, p, name) ==> (name in after <==> name in before) && (name in before ==> after[name] == before[name]))
  {
    hide PlaceOf;
  }

  /** Composer's package names. */
  lemma TwoComponentsIff(name: string)
    ensures TwoComponents(name) <==> exists a, b :: name == a + "/" + b && '/' !in a && '/' !in b
  {
    var pieces := Chunks(name);
    JoinSplit(name, '/');
    if |pieces| == 2 {
      assert pieces == [pieces[0], pieces[1]] && pieces[1..] == [pieces[1]];
      assert name == pieces[0] + "/" + pieces[1];
    }
    if a, b :| name == a + "/" + b && '/' !in a && '/' !in b {
      SplitAt(a, b, '/');
      SplitWhole(a, '/');
      SplitWhole(b, '/');
    }
  }

  // ----- what is recorded ------------------------------------------------------------------------------------

  /** The text recorded for a place below a project with a name: relative to vendor/composer. */
  lemma InstallPathText(root: string, rest: seq<string>)
    requires Root(Slashes(root)) != "" && Place(root) != [] && Names(rest) && rest != []
    ensures |rest| == 1 ==> InstallPathOf(root, "vendor/composer/" + Join(rest, '/')) == "./" + rest[0]
    ensures |rest| > 1 && rest[0] != "dummy_file" ==>
              InstallPathOf(root, "vendor/composer/" + Join(rest, '/')) == Join(rest, '/')
    ensures rest[0] != "composer" ==> InstallPathOf(root, "vendor/" + Join(rest, '/')) == "../" + Join(rest, '/')
    ensures rest[0] != "vendor" ==> InstallPathOf(root, Join(rest, '/')) == "../../" + Join(rest, '/')
  {
    hide *;
    TextInComposer(root, rest);
    TextInVendor(root, rest);
    TextElsewhere(root, rest);
  }

  lemma TextInComposer(root: string, rest: seq<string>)
    requires Root(Slashes(root)) != "" && Place(root) != [] && Names(rest) && rest != []
    ensures |rest| == 1 ==> InstallPathOf(root, "vendor/composer/" + Join(rest, '/')) == "./" + rest[0]
    ensures |rest| > 1 && rest[0] != "dummy_file" ==>
              InstallPathOf(root, "vendor/composer/" + Join(rest, '/')) == Join(rest, '/')
  {
    hide *;
    ComposerText(rest);
    DummyParts();
    if |rest| == 1 {
      EntryText(root, rest);
    } else if rest[0] != "dummy_file" {
      RecordedText(root, 2, rest, "vendor/composer/" + Join(rest, '/'));
      NothingBefore(Join(rest, '/'));
    }
  }

  lemma TextInVendor(root: string, rest: seq<string>)
    requires Root(Slashes(root)) != "" && Place(root) != [] && Names(rest) && rest != []
    ensures rest[0] != "composer" ==> InstallPathOf(root, "vendor/" + Join(rest, '/')) == "../" + Join(rest, '/')
  {
    hide *;
    VendorText(rest);
    DummyParts();
    UpsTexts();
    if rest[0] != "composer" { RecordedText(root, 1, rest, "vendor/" + Join(rest, '/')); }
  }

  lemma TextElsewhere(root: string, rest: seq<string>)
    requires Root(Slashes(root)) != "" && Place(root) != [] && Names(rest) && rest != []
    ensures rest[0] != "vendor" ==> InstallPathOf(root, Join(rest, '/')) == "../../" + Join(rest, '/')
  {
    hide *;
    PlainText(rest);
    DummyParts();
    UpsTexts();
    if rest[0] != "vendor" { RecordedText(root, 0, rest, Join(rest, '/')); }
  }

  lemma DummyParts()
    ensures DUMMY[0] == "vendor" && DUMMY[1] == "composer" && DUMMY[2] == "dummy_file"
  {
  }

  lemma NothingBefore(text: string)
    ensures Ups(0) + text == text
  {
  }

  lemma PlainText(rest: seq<string>)
    ensures JoinPath(VENDOR_COMPOSER[..0] + rest) == Join(rest, '/')
  {
    assert VENDOR_COMPOSER[..0] + rest == rest;
  }

  lemma UpsTexts()
    ensures Ups(1) == "../" && Ups(2) == "../../"
  {
    assert Ups(0) == "" && "../" + "" == "../" && "../" + "../" == "../../";
  }

  lemma ComposerText(rest: seq<string>)
    requires rest != []
    ensures JoinPath(VENDOR_COMPOSER + rest) == "vendor/composer/" + Join(rest, '/')
    ensures JoinPath(VENDOR_COMPOSER[..2] + rest) == "vendor/composer/" + Join(rest, '/')
  {
    assert VENDOR_COMPOSER[..2] == VENDOR_COMPOSER && VENDOR_COMPOSER != [];
    ComposerJoined();
    hide Join;
    JoinBoth(VENDOR_COMPOSER, rest, '/');
  }

  lemma ComposerJoined()
    ensures Join(VENDOR_COMPOSER, '/') + "/" == "vendor/composer/"
  {
    assert VENDOR_COMPOSER[1..] == ["composer"];
    assert Join(VENDOR_COMPOSER, '/') == "vendor" + "/" + "composer";
  }

  lemma VendorText(rest: seq<string>)
    requires rest != []
    ensures JoinPath(VENDOR_COMPOSER[..1] + rest) == "vendor/" + Join(rest, '/')
  {
    assert VENDOR_COMPOSER[..1] == ["vendor"];
    assert Join(["vendor"], '/') == "vendor" && "vendor" + "/" == "vendor/";
    hide Join;
    JoinBoth(["vendor"], rest, '/');
  }

  lemma NamesBelow(n: nat, rest: seq<string>)
    requires n <= 2 && Names(rest)
    ensures Names(VENDOR_COMPOSER[..n] + rest)
  {
  }

  lemma EntryText(root: string, rest: seq<string>)
    requires Root(Slashes(root)) != "" && Place(root) != [] && Names(rest) && |rest| == 1
    ensures InstallPathOf(root, JoinPath(VENDOR_COMPOSER + rest)) == "./" + rest[0]
  {
    NamesBelow(2, rest);
    assert VENDOR_COMPOSER[..2] == VENDOR_COMPOSER && (VENDOR_COMPOSER + rest)[..2] == VENDOR_COMPOSER;
    WrittenForm(root, VENDOR_COMPOSER + rest);
  }

  /** A place that leaves vendor/composer/dummy_file after `n` names. */
  lemma RecordedText(root: string, n: nat, rest: seq<string>, text: string)
    requires Root(Slashes(root)) != "" && Place(root) != [] && Names(rest) && rest != []
    requires n <= 2 && rest[0] != DUMMY[n] && (n == 2 ==> |rest| > 1) && text == JoinPath(VENDOR_COMPOSER[..n] + rest)
    ensures InstallPathOf(root, text) == Ups(2 - n) + Join(rest, '/')
  {
    var parts := VENDOR_COMPOSER[..n] + rest;
    hide *;
    SharesSome(n, rest);
    NotEmptyText(2 - n, rest);
    NoEntry(n, rest);
    NamesBelow(n, rest);
    WrittenForm(root, parts);
    FormBeside(Below(root), Place(root), parts);
  }

  lemma NoEntry(n: nat, rest: seq<string>)
    requires rest != [] && n <= 2 && rest[0] != DUMMY[n] && (n == 2 ==> |rest| > 1)
    ensures !IsEntry(VENDOR_COMPOSER[..n] + rest) && (VENDOR_COMPOSER[..n] + rest)[n..] == rest
    ensures VENDOR_COMPOSER[..n] + rest != []
  {
    var parts := VENDOR_COMPOSER[..n] + rest;
    assert parts[n] == rest[0] && (n < 2 ==> DUMMY[n] == VENDOR_COMPOSER[n]);
    if n < 2 && |parts| == 3 { assert parts[..2][n] == rest[0]; }
  }

  lemma NotEmptyText(n: nat, rest: seq<string>)
    requires Names(rest) && rest != []
    ensures OrHere(Ups(n) + JoinPath(rest)) == Ups(n) + Join(rest, '/')
  {
    assert IsName(rest[0]) && JoinPath(rest) != "";
  }

  lemma SharesSome(n: nat, rest: seq<string>)
    requires n <= 2 && rest != [] && rest[0] != DUMMY[n]
    ensures Shared(DUMMY, VENDOR_COMPOSER[..n] + rest) == n
  {
    var parts := VENDOR_COMPOSER[..n] + rest;
    assert forall k :: 0 <= k < n ==> parts[k] == DUMMY[k];
    assert parts[n] != DUMMY[n];
    FirstDifference(DUMMY, parts, n);
  }

  lemma {:induction false} FirstDifference(xs: seq<string>, ys: seq<string>, n: nat)
    requires n < |xs| && n < |ys| && xs[n] != ys[n] && forall k :: 0 <= k < n ==> xs[k] == ys[k]
    ensures Shared(xs, ys) == n
  {
    if n > 0 { FirstDifference(xs[1..], ys[1..], n - 1); }
  }

  lemma SameSlashes(a: string, b: string)
    requires Slashes(a) == Slashes(b)
    ensures Normalized(a) == Normalized(b)
  {
  }

  /** The directory an install-path is taken for: an absolute one as it stands, any other from
      vendor/composer. */
  lemma RecordedPlaceIs(root: string, ip: string)
    requires Root(Slashes(root)) != ""
    ensures Root(Slashes(ip)) != "" ==> RecordedPlace(root, ip) == Root(Slashes(ip)) + Join(Walk([], Chunks(Slashes(ip))), '/')
    ensures !IsAbsolutePath(ip) ==>
              RecordedPlace(root, ip) == Below(root) + Join(Walk(Place(root) + ["vendor", "composer"], Chunks(Slashes(ip))), '/')
  {
    if Root(Slashes(ip)) != "" {
      assert Slashes(ip)[0] == '/';
      AbsoluteForm(ip);
    }
    if !IsAbsolutePath(ip) { FromVendorComposer(root, ip); }
  }

  lemma FromVendorComposer(root: string, ip: string)
    requires Root(Slashes(root)) != "" && !IsAbsolutePath(ip)
    ensures RecordedPlace(root, ip) == Below(root) + Join(Walk(Place(root) + VENDOR_COMPOSER, Chunks(Slashes(ip))), '/')
  {
    hide *;
    var dir := Place(root) + VENDOR_COMPOSER;
    var base := PathText(Below(root), dir);
    ComposerDir(root);
    SlashesBelow(base, ip);
    SameSlashes(base + "/" + ip, base + "/" + Slashes(ip));
    UnderBase(Below(root), dir, Slashes(ip));
    RecordedRelative(root, ip);
    TextIs(Below(root), Walk(dir, Chunks(Slashes(ip))));
  }

  lemma TextIs(root: string, parts: seq<string>)
    ensures PathText(root, parts) == root + Join(parts, '/')
  {
  }

  lemma RecordedRelative(root: string, ip: string)
    requires !IsAbsolutePath(ip)
    ensures RecordedPlace(root, ip) == Normalized(Normalized(root + "/" + "vendor/composer") + "/" + ip)
  {
  }

  lemma ComposerDir(root: string)
    requires Root(Slashes(root)) != ""
    ensures var dir := Place(root) + VENDOR_COMPOSER;
            && IsRoot(Below(root)) && Names(dir) && dir != [] && Normalized(root + "/" + "vendor/composer") == PathText(Below(root), dir)
            && Slashes(PathText(Below(root), dir)) == PathText(Below(root), dir)
  {
    PlaceGivesNames(root);
    assert Names(VENDOR_COMPOSER);
    StartsAtDummy(root);
    hide Normalized, Walk, Chunks, JoinPath, Place, Root, Slashes;
    AbsoluteForm(root + "/" + "vendor/composer");
    AbsoluteText(Below(root), Place(root) + VENDOR_COMPOSER);
  }

  lemma SlashesBelow(base: string, ip: string)
    requires Slashes(base) == base
    ensures Slashes(base + "/" + ip) == base + "/" + Slashes(ip) == Slashes(base + "/" + Slashes(ip))
    ensures Slashes(Slashes(ip)) == Slashes(ip)
  {
    assert Slashes(Slashes(ip)) == Slashes(ip);
    assert Slashes("/") == "/";
    SlashesConcat(base + "/", ip);
    SlashesConcat(base, "/");
    SlashesConcat(base + "/", Slashes(ip));
  }

  /** What is planned for an entry that is no longer wanted: the root of the place the layout gives it,
      exactly when the entry records that place; nothing for an entry without a name or a path. */
  lemma RemovalIs(root: string, plugin: bool, prev: Installed, dir: string)
    ensures RemovalOf(root, plugin, prev) == Ok(Some(dir)) <==>
            && prev.package.name != "" && prev.installPath.Some? && PlaceOf(plugin, prev.package).Ok?
            && var rel := PlaceOf(plugin, prev.package).value;
               && rel != "" && RecordedPlace(root, prev.installPath.value) == Normalized(root) + "/" + rel
               && dir == if "vendor/" <= rel then "vendor" + "/" + prev.package.name else rel
    ensures RemovalOf(root, plugin, prev) == Ok(None) <==> prev.package.name == "" || prev.installPath.None?
  {
    hide PlaceOf, RecordedPlace, Normalized;
    assert "vendor/" + prev.package.name == "vendor" + "/" + prev.package.name;
    if prev.installPath.Some? && PlaceOf(plugin, prev.package).Ok? {
      var base, place, rel := Normalized(root) + "/", RecordedPlace(root, prev.installPath.value), PlaceOf(plugin, prev.package).value;
      if base <= place { assert place == base + place[|base|..]; }
      if place == base + rel { assert place[|base|..] == rel; }
    }
  }

  // ----- roots and conflicts ----------------------------------------------------------------------------------

  /** What is emptied for a package: in vendor the directory of its name, whatever its target directory;
      anywhere else the place itself. */
  lemma RootIs(name: string, rest: string, rel: string)
    ensures PackageRoot(name, "vendor" + "/" + rest) == "vendor" + "/" + name
    ensures !("vendor" + "/" <= rel) ==> PackageRoot(name, rel) == rel
  {
    assert "vendor/" + rest == "vendor" + "/" + rest && "vendor/" + name == "vendor" + "/" + name;
    assert "vendor/" <= "vendor/" + rest;
    assert "vendor" + "/" == "vendor/";
  }

  /** One place is another one, or is below one that is not in vendor. */
  ghost predicate Clash(upper: string, lower: string) {
    upper == lower || (!("vendor" + "/" <= upper) && exists rest :: lower == upper + "/" + rest)
  }

  lemma NoConflictIff(paths: map<string, string>)
    ensures NoConflict(paths) <==> forall n, m :: n in paths && m in paths && n != m ==> !Clash(paths[n], paths[m])
  {
    forall upper: string, lower: string
      ensures Clash(upper, lower) <==> upper == lower || (!InVendor(upper) && upper + "/" <= lower)
    {
      assert "vendor" + "/" == "vendor/";
      if upper + "/" <= lower { assert lower == upper + "/" + lower[|upper| + 1..]; }
    }
    hide Clash, InVendor;
  }
}
