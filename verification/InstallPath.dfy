/** The `install-path` written to installed.json and its way back (crates/vivacity-core/src/layout.rs):
    exactly when the removal planner recovers the directory the package was laid out in. */
module InstallPath {
  import opened Common
  import opened Paths
  import opened ShortestPath

  const VENDOR_COMPOSER := ["vendor", "composer"]

  /** `Layout::install_path`. */
  function InstallPathOf(root: string, rel: string): string {
    Shortest(root + "/" + "vendor/composer", root + "/" + rel, true, false)
  }

  predicate IsLetter(c: char) { 'a' <= c <= 'z' || 'A' <= c <= 'Z' }

  predicate HasDrive(path: string) {
    |path| >= 3 && IsLetter(path[0]) && path[1] == ':' && (path[2] == '/' || path[2] == '\\')
  }

  /** `is_absolute_path`. */
  predicate IsAbsolutePath(path: string) {
    (path != "" && (path[0] == '/' || path[0] == '\\')) ||
    (exists i :: 0 <= i < |path| - 2 && path[i] == ':' && path[i + 1] == '/' && path[i + 2] == '/') ||
    HasDrive(path)
  }

  /** The directory the removal planner takes an `install-path` for. */
  function RecordedPlace(root: string, installPath: string): string {
    if IsAbsolutePath(installPath) then Normalized(installPath)
    else Normalized(Normalized(root + "/" + "vendor/composer") + "/" + installPath)
  }

  /** That directory relative to the project; nothing when it lies outside. */
  function ReadBack(root: string, installPath: string): Option<string> {
    var base := Normalized(root) + "/";
    var place := RecordedPlace(root, installPath);
    if base <= place && place != base then Some(place[|base|..]) else None
  }

  // ----- the project root -----------------------------------------------------------------------

  /** The root under which a path below the project is normalised. */
  function Below(root: string): string {
    if "//" <= Slashes(root) || Slashes(root) == "/" then "//" else "/"
  }

  /** The project root is a directory with a name, or is spelled `/` or `//`. */
  predicate Anchored(root: string) { Place(root) != [] || Slashes(root) == "/" || Slashes(root) == "//" }

  lemma SlashesConcat(a: string, b: string)
    ensures Slashes(a + b) == Slashes(a) + Slashes(b)
  {
  }

  lemma CleanText(parts: seq<string>)
    requires Names(parts)
    ensures Slashes(JoinPath(parts)) == JoinPath(parts) && '\\' !in JoinPath(parts)
  {
    forall k | 0 <= k < |parts| ensures '\\' !in parts[k] { assert IsName(parts[k]); }
    JoinedHasNo(parts, '\\');
    SlashesAgain(JoinPath(parts));
  }

  /** A path below the project root. */
  lemma BelowRoot(root: string, rest: string)
    requires Root(Slashes(root)) != "" && Slashes(rest) == rest && rest != "" && rest[0] != '/'
    ensures Root(Slashes(root + "/" + rest)) == Below(root)
    ensures Place(root + "/" + rest) == Walk(Place(root), Chunks(rest))
  {
    var p := Slashes(root);
    SlashesConcat(root, "/" + rest);
    SlashesConcat("/", rest);
    assert Slashes("/") == "/";
    var s := Slashes(root + "/" + rest);
    assert s == p + "/" + rest;
    WalkSlash([], p, rest);
    assert p[0] == '/' && s[0] == '/';
    if |p| > 1 {
      assert s[1] == p[1];
    } else {
      assert s[1] == '/';
    }
  }

  lemma BelowRootParts(root: string, parts: seq<string>)
    requires Root(Slashes(root)) != "" && Names(parts) && parts != []
    ensures Root(Slashes(root + "/" + JoinPath(parts))) == Below(root)
    ensures Place(root + "/" + JoinPath(parts)) == Place(root) + parts
  {
    CleanText(parts);
    FirstIsNotSlash(parts);
    BelowRoot(root, JoinPath(parts));
    WalkJoined(Place(root), parts);
  }

  lemma BelowKeepsRoot(root: string)
    requires Root(Slashes(root)) != ""
    ensures Anchored(root) && Place(root) != [] ==> Below(root) == Root(Slashes(root))
    ensures Anchored(root) && Place(root) == [] ==> Below(root) == "//" && Root(Slashes(root)) == "/"
    ensures !Anchored(root) ==> Below(root) == Root(Slashes(root))
  {
    var p := Slashes(root);
    if p == "/" || p == "//" {
      WalkText([], p, []);
      assert PathText(p, []) == p;
    }
    if "//" <= p && |p| == 2 {
      assert p == "//";
    }
  }

  /** What the planner strips, put back. */
  lemma BaseText(root: string, parts: seq<string>, place: seq<string>)
    requires Root(Slashes(root)) != "" && Names(parts) && parts != [] && Names(place)
    ensures Normalized(root) + "/" + JoinPath(parts) == PathText(Below(root), place) <==>
            Anchored(root) && place == Place(root) + parts
  {
    AbsoluteForm(root);
    PlaceGivesNames(root);
    BelowKeepsRoot(root);
    var r, above := Root(Slashes(root)), Place(root);
    FirstIsNotSlash(parts);
    if above != [] {
      JoinConcat(above, parts);
      assert Normalized(root) + "/" + JoinPath(parts) == PathText(r, above + parts);
      if place == [] {
        LastCharacter(above + parts);
        assert |PathText(r, above + parts)| > |PathText(r, place)|;
      } else {
        SameText(r, above + parts, r, place);
      }
    } else {
      assert above + parts == parts;
      BaseAtTop(root, parts, place);
    }
  }

  lemma BaseAtTop(root: string, parts: seq<string>, place: seq<string>)
    requires Root(Slashes(root)) != "" && Names(parts) && parts != [] && Names(place) && Place(root) == []
    ensures Normalized(root) + "/" + JoinPath(parts) == PathText(Below(root), place) <==> Anchored(root) && place == parts
  {
    AbsoluteForm(root);
    BelowKeepsRoot(root);
    var r := Root(Slashes(root));
    var s := Normalized(root) + "/" + JoinPath(parts);
    FirstIsNotSlash(parts);
    assert s == r + "/" + JoinPath(parts);
    if Anchored(root) {
      assert s == PathText("//", parts);
      if place == [] {
        LastCharacter(parts);
      } else {
        SameText("//", parts, "//", place);
      }
    } else {
      assert s[|r|] == '/';
      if place != [] {
        FirstIsNotSlash(place);
        assert PathText(r, place)[|r|] == JoinPath(place)[0];
      }
    }
  }

  // ----- which recorded paths look absolute -------------------------------------------------------

  predicate NoDoubleSlash(s: string) { forall i :: 0 <= i < |s| - 1 ==> !(s[i] == '/' && s[i + 1] == '/') }

  lemma {:induction false} JoinHasNoDoubleSlash(parts: seq<string>)
    requires Names(parts)
    ensures NoDoubleSlash(JoinPath(parts))
  {
    if parts != [] {
      assert IsName(parts[0]);
      if |parts| > 1 {
        JoinHasNoDoubleSlash(parts[1..]);
        FirstIsNotSlash(parts[1..]);
        GlueNoDoubleSlash(parts[0], JoinPath(parts[1..]));
      }
    }
  }

  lemma GlueNoDoubleSlash(a: string, b: string)
    requires '/' !in a && a != "" && NoDoubleSlash(b) && (b != "" ==> b[0] != '/')
    ensures NoDoubleSlash(a + "/" + b)
  {
    var s := a + "/" + b;
    forall i | 0 <= i < |s| - 1 ensures !(s[i] == '/' && s[i + 1] == '/') {
      if i < |a| {
        assert s[i] == a[i];
      } else if i == |a| {
        assert s[i + 1] == b[0];
      } else {
        assert s[i] == b[i - |a| - 1] && s[i + 1] == b[i - |a|];
      }
    }
  }

  lemma {:induction false} UpsNoDoubleSlash(n: nat, rest: string)
    requires NoDoubleSlash(rest) && (rest != "" ==> rest[0] != '/')
    ensures NoDoubleSlash(Ups(n) + rest)
  {
    hide *;
    UpsStep(n, rest);
    if n > 0 {
      UpsNoDoubleSlash(n - 1, rest);
      UpsFirst(n - 1, rest);
      GlueNoDoubleSlash("..", Ups(n - 1) + rest);
    }
  }

  lemma UpsStep(n: nat, rest: string)
    ensures Ups(n) + rest == if n == 0 then rest else ".." + "/" + (Ups(n - 1) + rest)
  {
    if n > 0 { assert Ups(n) == ".." + "/" + Ups(n - 1); }
  }

  /** A relative path without backslashes or doubled slashes looks absolute only by its drive. */
  lemma OnlyDrives(path: string)
    requires NoDoubleSlash(path) && !("/" <= path) && '\\' !in path
    ensures IsAbsolutePath(path) <==> HasDrive(path)
  {
    assert path != "" ==> path[..1] == [path[0]];
  }

  // ----- what is written ----------------------------------------------------------------------------

  const DUMMY := ["vendor", "composer", "dummy_file"]

  /** Below the entry that stands in for the directory the path starts from. */
  predicate BelowDummy(parts: seq<string>) { DUMMY < parts }

  predicate IsDriveName(name: string) { |name| == 2 && IsLetter(name[0]) && name[1] == ':' }

  /** `vendor/composer/c:/...`: the recorded path begins with a drive letter. */
  predicate LooksLikeDrive(parts: seq<string>) {
    |parts| >= 4 && parts[..2] == VENDOR_COMPOSER && IsDriveName(parts[2])
  }

  lemma {:induction false} SharedBelow(dir: seq<string>, xs: seq<string>, ys: seq<string>)
    ensures Shared(dir + xs, dir + ys) == |dir| + Shared(xs, ys)
  {
    if dir == [] {
      assert dir + xs == xs && dir + ys == ys;
    } else {
      assert (dir + xs)[1..] == dir[1..] + xs && (dir + ys)[1..] == dir[1..] + ys;
      SharedBelow(dir[1..], xs, ys);
    }
  }

  /** How much of `vendor/composer/dummy_file` a path shares. */
  lemma SharedWithDummy(parts: seq<string>)
    ensures Shared(DUMMY, parts) <= 3 && Shared(DUMMY, parts) <= |parts|
    ensures Shared(DUMMY, parts) >= 2 <==> VENDOR_COMPOSER <= parts
    ensures Shared(DUMMY, parts) == 3 <==> DUMMY <= parts
  {
    SharedIsLongest(DUMMY, parts, 0);
    SharedPart(DUMMY, parts);
    var n := Shared(DUMMY, parts);
    assert DUMMY[..2] == VENDOR_COMPOSER && DUMMY[..3] == DUMMY;
    if VENDOR_COMPOSER <= parts { SharedIsLongest(DUMMY, parts, 2); assert parts[..2] == VENDOR_COMPOSER; }
    if DUMMY <= parts { SharedIsLongest(DUMMY, parts, 3); assert parts[..3] == DUMMY; }
    if n >= 2 { assert parts[..n][..2] == parts[..2] && DUMMY[..n][..2] == DUMMY[..2]; }
  }

  /** An entry of vendor/composer itself. */
  predicate IsEntry(parts: seq<string>) { |parts| == 3 && parts[..2] == VENDOR_COMPOSER }

  /** Root, start and target of the search, in components. */
  lemma WrittenForm(root: string, parts: seq<string>)
    requires Root(Slashes(root)) != "" && Names(parts) && parts != []
    ensures Names(Place(root) + DUMMY) && Names(Place(root) + parts) && IsRoot(Below(root))
    ensures InstallPathOf(root, JoinPath(parts)) ==
            if IsEntry(parts) then "./" + Last(parts)
            else Form(Below(root), Place(root) + DUMMY, Below(root), Place(root) + parts, false)
  {
    hide Slashes, Walk, Shortest, Normalized, Shared, Root;
    StartsAtDummy(root);
    BelowRootParts(root, parts);
    PlaceGivesNames(root);
    ShortestIsForm(root + "/" + "vendor/composer", root + "/" + JoinPath(parts), true, false);
    EntryIsSibling(Place(root), parts);
    assert Last(Place(root) + parts) == Last(parts);
  }

  lemma StartsAtDummy(root: string)
    requires Root(Slashes(root)) != ""
    ensures Root(Slashes(root + "/" + "vendor/composer")) == Below(root)
    ensures Place(root + "/" + "vendor/composer") == Place(root) + VENDOR_COMPOSER
    ensures StartParts(root + "/" + "vendor/composer", true) == Place(root) + DUMMY
    ensures StartRoot(root + "/" + "vendor/composer", true) == Below(root)
  {
    assert Names(VENDOR_COMPOSER);
    assert JoinPath(VENDOR_COMPOSER) == "vendor/composer";
    BelowRootParts(root, VENDOR_COMPOSER);
    assert VENDOR_COMPOSER + ["dummy_file"] == DUMMY;
    assert Place(root) + VENDOR_COMPOSER + ["dummy_file"] == Place(root) + DUMMY;
  }

  lemma EntryIsSibling(dir: seq<string>, parts: seq<string>)
    requires parts != []
    ensures SameParent("/", dir + DUMMY, "/", dir + parts) <==> IsEntry(parts)
    ensures SameParent("//", dir + DUMMY, "//", dir + parts) <==> IsEntry(parts)
  {
    assert DropLast(dir + DUMMY) == dir + VENDOR_COMPOSER;
    assert DropLast(dir + parts) == dir + DropLast(parts);
    if dir + DropLast(parts) == dir + VENDOR_COMPOSER {
      assert DropLast(parts) == (dir + DropLast(parts))[|dir|..];
      assert VENDOR_COMPOSER == (dir + VENDOR_COMPOSER)[|dir|..];
    }
    assert |parts| == 3 ==> DropLast(parts) == parts[..2];
  }

  /** A relative path in normal form, up to leading `..`. */
  predicate Plain(path: string) { NoDoubleSlash(path) && !("/" <= path) && '\\' !in path }

  /** The recorded path is the absolute target, or a relative path that looks absolute only below a
      directory named like a drive. */
  predicate Recorded(root: string, dir: seq<string>, parts: seq<string>, ip: string) {
    (ip == PathText(root, dir + parts) && !BelowDummy(parts) && !LooksLikeDrive(parts)) ||
    (Plain(ip) && (!BelowDummy(parts) ==> (HasDrive(ip) <==> LooksLikeDrive(parts))))
  }

  lemma WhatIsWritten(root: string, parts: seq<string>)
    requires Root(Slashes(root)) != "" && Names(parts) && parts != []
    ensures Recorded(Below(root), Place(root), parts, InstallPathOf(root, JoinPath(parts)))
  {
    WrittenForm(root, parts);
    PlaceGivesNames(root);
    if IsEntry(parts) {
      assert IsName(Last(parts));
      HereText(Last(parts));
    } else {
      WrittenBelow(Below(root), Place(root), parts);
    }
  }

  lemma HereText(name: string)
    requires '/' !in name && '\\' !in name
    ensures Plain("./" + name) && !HasDrive("./" + name)
  {
    var ip := "./" + name;
    assert ip[0] == '.' && ip[1] == '/';
    assert forall i :: 2 <= i < |ip| ==> ip[i] == name[i - 2];
  }

  /** The form of what is recorded: how far the package shares its directory with the dummy file. */
  lemma FormBeside(root: string, dir: seq<string>, parts: seq<string>)
    requires IsRoot(root) && Names(dir + DUMMY) && Names(dir + parts)
    ensures var m := Shared(DUMMY, parts);
            && m <= 3 && m <= |parts| && Names(parts[m..])
            && Form(root, dir + DUMMY, root, dir + parts, false) ==
               if |dir| + m == 0 then PathText(root, dir + parts)
               else OrHere(Ups(if m < 3 then 2 - m else 0) + JoinPath(parts[m..]))
  {
    hide *;
    SharedBelow(dir, DUMMY, parts);
    SharedWithDummy(parts);
    var m := Shared(DUMMY, parts);
    TailOfBoth(dir, parts, m);
    DepthBeside(root, dir, m);
    FormUnderOneRoot(root, dir + DUMMY, dir + parts);
  }

  lemma FormUnderOneRoot(root: string, from: seq<string>, to: seq<string>)
    requires IsRoot(root) && Names(from) && Names(to)
    ensures Shared(from, to) <= |to|
    ensures Shared(from, to) == 0 && Depth(root, from, 0) > 1 ==> Form(root, from, root, to, false) == PathText(root, to)
    ensures var n := Shared(from, to);
            n > 0 ==> Form(root, from, root, to, false) == OrHere(Ups(Depth(root, from, n)) + JoinPath(to[n..]))
  {
    hide Shared, Ups, OrHere, PathText, JoinPath, Depth, Names;
    SharedIsLongest(from, to, 0);
  }

  lemma TailOfBoth(dir: seq<string>, parts: seq<string>, m: nat)
    requires m <= |parts|
    ensures (dir + parts)[|dir| + m..] == parts[m..]
    ensures Names(dir + parts) ==> Names(parts[m..])
  {
    hide IsName;
    if Names(dir + parts) {
      forall k | 0 <= k < |parts[m..]| ensures IsName(parts[m..][k]) {
        assert (dir + parts)[|dir| + m + k] == parts[m..][k];
      }
    }
  }

  lemma DepthBeside(root: string, dir: seq<string>, m: nat)
    requires IsRoot(root) && m <= 3
    ensures Depth(root, dir + DUMMY, |dir| + m) == if |dir| + m == 0 then |root| + 1 else if m < 3 then 2 - m else 0
    ensures |root| > 0
  {
    assert |dir + DUMMY| == |dir| + 3;
  }

  lemma WrittenBelow(root: string, dir: seq<string>, parts: seq<string>)
    requires IsRoot(root) && Names(dir) && Names(parts) && parts != [] && !IsEntry(parts)
    requires Names(dir + DUMMY) && Names(dir + parts)
    ensures Recorded(root, dir, parts, Form(root, dir + DUMMY, root, dir + parts, false))
  {
    hide Shared, Names, JoinPath, Ups, OrHere, PathText, Form, Plain, HasDrive;
    FormBeside(root, dir, parts);
    SharedWithDummy(parts);
    var m := Shared(DUMMY, parts);
    assert LooksLikeDrive(parts) ==> VENDOR_COMPOSER <= parts;
    if |dir| + m > 0 {
      RelativeText(if m < 3 then 2 - m else 0, parts[m..]);
      if m == 2 { DriveText(parts); }
    }
  }

  lemma RelativeText(depth: nat, parts: seq<string>)
    requires Names(parts)
    ensures var ip := OrHere(Ups(depth) + JoinPath(parts)); Plain(ip) && (depth > 0 ==> !HasDrive(ip))
  {
    var rest := JoinPath(parts);
    JoinHasNoDoubleSlash(parts);
    CleanText(parts);
    if parts != [] { FirstIsNotSlash(parts); }
    UpsNoDoubleSlash(depth, rest);
    UpsFirst(depth, rest);
    UpsClean(depth, rest);
    HereText("");
    assert "./" + "" == "./";
    assert Ups(depth) + rest != "" ==> (Ups(depth) + rest)[0] != '/';
  }

  lemma {:induction false} UpsClean(n: nat, rest: string)
    requires '\\' !in rest
    ensures '\\' !in Ups(n) + rest
  {
    if n > 0 {
      UpsClean(n - 1, rest);
      assert Ups(n) + rest == "../" + (Ups(n - 1) + rest);
    } else {
      assert Ups(0) + rest == rest;
    }
  }

  lemma DriveText(parts: seq<string>)
    requires Names(parts) && VENDOR_COMPOSER <= parts && !IsEntry(parts)
    ensures HasDrive(OrHere(Ups(0) + JoinPath(parts[2..]))) <==> LooksLikeDrive(parts)
  {
    var ip := JoinPath(parts[2..]);
    assert Ups(0) + ip == ip;
    assert parts[..2] == VENDOR_COMPOSER;
    if |parts| >= 4 {
      var name := parts[2..][0];
      assert IsName(name);
      assert ip == name + "/" + JoinPath(parts[2..][1..]);
      assert forall k :: 0 <= k < |name| ==> ip[k] == name[k];
      assert ip[|name|] == '/';
    } else {
      assert parts[2..] == [];
    }
  }

  // ----- the way back -----------------------------------------------------------------------------------

  lemma WalkStaysNamed(dir: seq<string>, path: string)
    requires Names(dir) && '\\' !in path
    ensures Names(Walk(dir, Chunks(path)))
  {
    SplitChunks(path);
    WalkGivesNames(dir, Chunks(path));
  }

  /** Where a relative recorded path is taken to lie. */
  lemma RelativeRecord(root: string, ip: string)
    requires Root(Slashes(root)) != "" && !IsAbsolutePath(ip) && '\\' !in ip && !("/" <= ip)
    ensures Names(Resolve(Place(root) + VENDOR_COMPOSER, ip))
    ensures RecordedPlace(root, ip) == PathText(Below(root), Resolve(Place(root) + VENDOR_COMPOSER, ip))
  {
    StartsAtDummy(root);
    PlaceGivesNames(root);
    var dir := Place(root) + VENDOR_COMPOSER;
    hide Normalized, Walk, Chunks, JoinPath;
    AbsoluteForm(root + "/" + "vendor/composer");
    var base := PathText(Below(root), dir);
    AbsoluteText(Below(root), dir);
    WalkStaysNamed(dir, ip);
    AbsoluteForm(base + "/" + ip);
    SlashesAgain(ip);
    UnderBase(Below(root), dir, ip);
  }

  lemma UnderBase(root: string, dir: seq<string>, ip: string)
    requires IsRoot(root) && Names(dir) && dir != [] && Slashes(ip) == ip
    ensures var s := PathText(root, dir) + "/" + ip;
            Root(Slashes(s)) == root && Place(s) == Walk(dir, Chunks(ip)) && Normalized(s) == PathText(root, Walk(dir, Chunks(ip)))
  {
    var base := PathText(root, dir);
    var s := base + "/" + ip;
    AbsoluteText(root, dir);
    SlashesConcat(base, "/" + ip);
    SlashesConcat("/", ip);
    assert Slashes("/") == "/";
    assert base + ("/" + ip) == s;
    assert Slashes(s) == s;
    FirstIsNotSlash(dir);
    assert s[|root|] == JoinPath(dir)[0];
    assert Root(s) == root;
    WalkSlash([], base, ip);
    AbsoluteForm(s);
  }

  lemma DriveIsOutside(root: string, ip: string, rel: string)
    requires Root(Slashes(root)) != "" && HasDrive(ip) && '\\' !in ip
    ensures RecordedPlace(root, ip) != Normalized(root) + "/" + rel
  {
    SlashesAgain(ip);
    NormalizedMeansTheSame(ip, []);
    AbsoluteForm(root);
    assert (Normalized(root) + "/" + rel)[0] == '/';
    assert RecordedPlace(root, ip) != "" ==> RecordedPlace(root, ip)[..1] == [RecordedPlace(root, ip)[0]];
  }

  lemma ReadBackIff(root: string, ip: string, rel: string)
    requires rel != ""
    ensures ReadBack(root, ip) == Some(rel) <==> RecordedPlace(root, ip) == Normalized(root) + "/" + rel
  {
    var base := Normalized(root) + "/";
    assert (base + rel)[..|base|] == base && (base + rel)[|base|..] == rel;
    if ReadBack(root, ip) == Some(rel) {
      assert RecordedPlace(root, ip) == base + RecordedPlace(root, ip)[|base|..];
    }
  }

  /** A recorded place below the project root, stripped of it. */
  lemma StrippedIff(root: string, ip: string, parts: seq<string>, place: seq<string>)
    requires Root(Slashes(root)) != "" && Names(parts) && parts != [] && Names(place)
    requires RecordedPlace(root, ip) == PathText(Below(root), place)
    ensures ReadBack(root, ip) == Some(JoinPath(parts)) <==> Anchored(root) && place == Place(root) + parts
  {
    FirstIsNotSlash(parts);
    ReadBackIff(root, ip, JoinPath(parts));
    BaseText(root, parts, place);
  }

  /** The removal planner recovers a package's directory from its recorded `install-path` exactly
      when the project root has a name (or is spelled `/` or `//`), the package does not live below
      vendor/composer/dummy_file, and not below a directory of vendor/composer named like a drive. */
  lemma InstallPathRoundTrip(root: string, parts: seq<string>)
    requires Root(Slashes(root)) != "" && Names(parts) && parts != []
    ensures ReadBack(root, InstallPathOf(root, JoinPath(parts))) == Some(JoinPath(parts)) <==>
            Anchored(root) && !BelowDummy(parts) && !LooksLikeDrive(parts)
  {
    var ip := InstallPathOf(root, JoinPath(parts));
    WhatIsWritten(root, parts);
    if Plain(ip) {
      RelativeRoundTrip(root, parts, ip);
    } else {
      AbsoluteRoundTrip(root, parts, ip);
    }
  }

  lemma AbsoluteRoundTrip(root: string, parts: seq<string>, ip: string)
    requires Root(Slashes(root)) != "" && Names(parts) && parts != []
    requires ip == PathText(Below(root), Place(root) + parts)
    ensures ReadBack(root, ip) == Some(JoinPath(parts)) <==> Anchored(root)
  {
    var target := Place(root) + parts;
    PlaceGivesNames(root);
    AbsoluteText(Below(root), target);
    assert ip[0] == '/';
    StrippedIff(root, ip, parts, target);
  }

  lemma RelativeRoundTrip(root: string, parts: seq<string>, ip: string)
    requires Root(Slashes(root)) != "" && Names(parts) && parts != []
    requires ip == InstallPathOf(root, JoinPath(parts)) && Plain(ip) && Recorded(Below(root), Place(root), parts, ip)
    ensures ReadBack(root, ip) == Some(JoinPath(parts)) <==>
            Anchored(root) && !BelowDummy(parts) && !LooksLikeDrive(parts)
  {
    OnlyDrives(ip);
    PlainIsNoText(ip, Below(root), Place(root) + parts);
    if HasDrive(ip) {
      FirstIsNotSlash(parts);
      ReadBackIff(root, ip, JoinPath(parts));
      DriveIsOutside(root, ip, JoinPath(parts));
    } else {
      RelativeRecord(root, ip);
      RelativeLeads(root, parts);
      StrippedIff(root, ip, parts, Resolve(Place(root) + VENDOR_COMPOSER, ip));
    }
  }

  lemma PlainIsNoText(ip: string, root: string, parts: seq<string>)
    requires Plain(ip) && IsRoot(root)
    ensures ip != PathText(root, parts)
  {
    assert PathText(root, parts)[0] == '/';
  }

  lemma RelativeLeads(root: string, parts: seq<string>)
    requires Root(Slashes(root)) != "" && Names(parts) && parts != []
    ensures Resolve(Place(root) + VENDOR_COMPOSER, InstallPathOf(root, JoinPath(parts))) == Place(root) + parts
            <==> !BelowDummy(parts)
  {
    StartsAtDummy(root);
    BelowRootParts(root, parts);
    LeadsToTarget(root + "/" + "vendor/composer", root + "/" + JoinPath(parts), true, false);
    assert DropLast(Place(root) + DUMMY) == Place(root) + VENDOR_COMPOSER;
    var dir := Place(root);
    assert DUMMY < parts <==> dir + DUMMY < dir + parts by {
      if dir + DUMMY < dir + parts {
        assert DUMMY == (dir + DUMMY)[|dir|..] && parts[..3] == (dir + parts)[|dir|..|dir| + 3];
      }
    }
  }

  /** A package laid out below vendor/composer/dummy_file is looked for beside that directory. */
  lemma BelowDummyIsMisread(root: string, parts: seq<string>)
    requires Root(Slashes(root)) != "" && Anchored(root) && Names(parts) && BelowDummy(parts) && !IsDriveName(parts[3])
    ensures ReadBack(root, InstallPathOf(root, JoinPath(parts))) == Some(JoinPath(VENDOR_COMPOSER + parts[3..]))
  {
    BelowDummyText(root, parts);
    assert IsName(parts[3..][0]);
    InVendorComposer(root, parts[3..]);
  }

  lemma InVendorComposer(root: string, rest: seq<string>)
    requires Root(Slashes(root)) != "" && Anchored(root) && Names(rest) && rest != [] && !IsDriveName(rest[0])
    ensures ReadBack(root, JoinPath(rest)) == Some(JoinPath(VENDOR_COMPOSER + rest))
  {
    hide Normalized, Slashes, Walk, Root, RecordedPlace, ReadBack;
    var dir := Place(root) + VENDOR_COMPOSER;
    JoinLooksRelative(rest);
    RelativeRecord(root, JoinPath(rest));
    assert Resolve(dir, JoinPath(rest)) == dir + rest by { WalkJoined(dir, rest); }
    assert dir + rest == Place(root) + (VENDOR_COMPOSER + rest);
    assert Names(VENDOR_COMPOSER);
    NamesConcat(VENDOR_COMPOSER, rest);
    StrippedIff(root, JoinPath(rest), VENDOR_COMPOSER + rest, dir + rest);
  }

  lemma NamesConcat(xs: seq<string>, ys: seq<string>)
    requires Names(xs) && Names(ys)
    ensures Names(xs + ys)
  {
  }

  lemma JoinLooksRelative(rest: seq<string>)
    requires Names(rest) && rest != [] && !IsDriveName(rest[0])
    ensures var ip := JoinPath(rest); !IsAbsolutePath(ip) && '\\' !in ip && !("/" <= ip)
  {
    FirstIsNotSlash(rest);
    NotADrive(rest);
    JoinHasNoDoubleSlash(rest);
    CleanText(rest);
    assert JoinPath(rest)[0] != '/';
    OnlyDrives(JoinPath(rest));
  }

  lemma BelowDummyText(root: string, parts: seq<string>)
    requires Root(Slashes(root)) != "" && Names(parts) && BelowDummy(parts)
    ensures InstallPathOf(root, JoinPath(parts)) == JoinPath(parts[3..])
  {
    WrittenForm(root, parts);
    DummyForm(Below(root), Place(root), parts);
  }

  lemma DummyForm(root: string, dir: seq<string>, parts: seq<string>)
    requires IsRoot(root) && Names(dir + DUMMY) && Names(dir + parts) && Names(parts) && BelowDummy(parts)
    ensures Form(root, dir + DUMMY, root, dir + parts, false) == JoinPath(parts[3..])
  {
    SharedBelow(dir, DUMMY, parts);
    SharedWithDummy(parts);
    SharedIsLongest(dir + DUMMY, dir + parts, 0);
    var n := |dir| + 3;
    assert (dir + parts)[n..] == parts[3..];
    assert Depth(root, dir + DUMMY, n) == 0;
    FirstIsNotSlash(parts[3..]);
    UpsFirst(0, JoinPath(parts[3..]));
  }

  lemma NotADrive(parts: seq<string>)
    requires Names(parts) && parts != [] && !IsDriveName(parts[0])
    ensures !HasDrive(JoinPath(parts))
  {
    var ip, name := JoinPath(parts), parts[0];
    assert IsName(name);
    if |parts| > 1 {
      assert ip == name + "/" + JoinPath(parts[1..]);
      assert ip[|name|] == '/';
    }
    assert forall k :: 0 <= k < |name| ==> ip[k] == name[k];
  }
}
