/** Where the runtime autoloader (assets/ClassLoader.php) looks for a class, spelled out in the pieces of
    its name. */
module LoaderFiles {
  import opened Common
  import opened Text
  import opened ClassLoader

  // ----- the files, in order --------------------------------------------------------------------------------

  /** The file below each directory. */
  function Each(dirs: seq<string>, file: string): seq<string> {
    seq(|dirs|, i requires 0 <= i < |dirs| => dirs[i] + "/" + file)
  }

  /** The namespace made of the first `n` pieces. */
  function Namespace(parts: seq<string>, n: nat): string
    requires n <= |parts|
  {
    Join(parts[..n], '\\') + "\\"
  }

  /** PSR-4: what is left of the name behind its first `n` pieces, below the directories of these. */
  function BelowOne(dirs: map<string, seq<string>>, parts: seq<string>, ext: string, n: nat): seq<string>
    requires n <= |parts|
  {
    if Namespace(parts, n) in dirs then Each(dirs[Namespace(parts, n)], Join(parts[n..], '/') + ext) else []
  }

  /** PSR-4: below a namespace of at most `n` pieces, the longest first. */
  function BelowNamespaces(dirs: map<string, seq<string>>, parts: seq<string>, ext: string, n: nat): seq<string>
    requires n <= |parts|
  {
    if n == 0 then [] else BelowOne(dirs, parts, ext, n) + BelowNamespaces(dirs, parts, ext, n - 1)
  }

  /** PSR-0: the pieces of the name are directories, and so are those of its last piece at underscores. */
  function Psr0File(parts: seq<string>, ext: string): string
    requires parts != []
  {
    var last := |parts| - 1;
    Join(parts[..last] + Split(parts[last], '_'), '/') + ext
  }

  /** PSR-0: the prefixes the name begins with, in the order of the array. */
  function BelowPrefixes(entries: seq<(string, seq<string>)>, name: string, file: string): seq<string>
    decreases |entries|
  {
    if entries == [] then []
    else
      var last := |entries| - 1;
      BelowPrefixes(entries[..last], name, file) +
      if |entries[last].0| <= |name| && entries[last].0 == name[..|entries[last].0|] then Each(entries[last].1, file) else []
  }

  /** All files for a class, in the order they are tried. */
  function Tried(st: State, parts: seq<string>, ext: string): seq<string>
    requires parts != [] && Join(parts, '\\') != ""
  {
    var name := Join(parts, '\\');
    BelowNamespaces(st.dirs, parts, ext, |parts| - 1) + Each(st.fallback, Join(parts, '/') + ext) +
    (if name[..1] in st.prefixes0 then BelowPrefixes(st.prefixes0[name[..1]], name, Psr0File(parts, ext)) else []) +
    Each(st.fallback0, Psr0File(parts, ext))
  }

  // ----- pieces of a name --------------------------------------------------------------------------------------

  predicate NoneHolds(parts: seq<string>, c: char) { forall k :: 0 <= k < |parts| ==> c !in parts[k] }

  /** Replacing the separator is joining with the other one. */
  lemma {:induction false} JoinReplaced(parts: seq<string>, from: char, to: char)
    requires NoneHolds(parts, from)
    ensures Replaced(Join(parts, from), from, to) == Join(parts, to)
  {
    if parts != [] {
      assert from !in parts[0];
      if |parts| > 1 { JoinReplaced(parts[1..], from, to); }
    }
  }

  lemma {:induction false} LastSeparator(s: string, t: string, c: char)
    requires c !in t
    ensures LastIndex(s + [c] + t, c) == Some(|s|)
    ensures LastIndex(t, c) == None
    decreases |t|
  {
    var all := s + [c] + t;
    if t == "" {
      assert all[|all| - 1] == c;
    } else {
      assert all[..|all| - 1] == s + [c] + t[..|t| - 1];
      assert all[|all| - 1] == t[|t| - 1];
      LastSeparator(s, t[..|t| - 1], c);
    }
  }

  /** The name up to its `n`-th separator, and behind it. */
  lemma CutName(parts: seq<string>, n: nat, c: char)
    requires 0 < n < |parts|
    ensures Join(parts, c) == Join(parts[..n], c) + [c] + Join(parts[n..], c)
    ensures |Join(parts[..n], c)| < |Join(parts, c)|
    ensures Join(parts, c)[..|Join(parts[..n], c)|] == Join(parts[..n], c)
    ensures Join(parts, c)[|Join(parts[..n], c)| + 1..] == Join(parts[n..], c)
  {
    assert parts == parts[..n] + parts[n..];
    JoinBoth(parts[..n], parts[n..], c);
  }

  lemma {:induction false} SameLengths(parts: seq<string>, c: char, d: char)
    ensures |Join(parts, c)| == |Join(parts, d)|
  {
    if |parts| > 1 { SameLengths(parts[1..], c, d); }
  }

  /** What is left of the path below a namespace. */
  lemma TailIs(parts: seq<string>, ext: string, n: nat)
    requires NoneHolds(parts, '\\') && n < |parts|
    ensures var k := if n == 0 then 0 else |Join(parts[..n], '\\')| + 1;
            k <= |Join(parts, '\\')| && Tail(Join(parts, '\\'), ext, k) == Join(parts[n..], '/') + ext
  {
    var name := Join(parts, '\\');
    JoinReplaced(parts, '\\', '/');
    if n == 0 {
      assert parts[0..] == parts;
    } else {
      CutName(parts, n, '\\');
      CutName(parts, n, '/');
      SameLengths(parts[..n], '\\', '/');
      var k := |Join(parts[..n], '/')| + 1;
      assert (Join(parts, '/') + ext)[k..] == Join(parts, '/')[k..] + ext;
    }
  }

  lemma {:induction false} EachIs(dirs: seq<string>, file: string)
    ensures InDirs(dirs, file) == Each(dirs, file)
  {
    if dirs != [] {
      EachIs(dirs[1..], file);
      assert dirs[0] + ("/" + file) == dirs[0] + "/" + file;
      assert Each(dirs, file) == [dirs[0] + "/" + file] + Each(dirs[1..], file);
    }
  }

  // ----- the loader tries exactly these --------------------------------------------------------------------------

  /** The prefix that ends at the `n`-th separator. */
  lemma FilesOfNamespace(st: State, parts: seq<string>, ext: string, n: nat)
    requires NoneHolds(parts, '\\') && 0 < n < |parts|
    ensures FilesOf(st, Join(parts, '\\'), ext, Namespace(parts, n)) == BelowOne(st.dirs, parts, ext, n)
  {
    hide *;
    BelowOneIs(st.dirs, parts, ext, n);
    var name, ns := Join(parts, '\\'), Namespace(parts, n);
    CutName(parts, n, '\\');
    NamespaceIs(parts, n);
    TailIs(parts, ext, n);
    FilesOfIs(st, name, ext, ns);
    if ns in st.dirs { EachIs(st.dirs[ns], Tail(name, ext, |ns|)); }
  }

  lemma BelowOneIs(dirs: map<string, seq<string>>, parts: seq<string>, ext: string, n: nat)
    requires n <= |parts|
    ensures BelowOne(dirs, parts, ext, n) ==
            if Namespace(parts, n) in dirs then Each(dirs[Namespace(parts, n)], Join(parts[n..], '/') + ext) else []
  {
  }

  lemma NamespaceIs(parts: seq<string>, n: nat)
    requires n <= |parts|
    ensures Namespace(parts, n) == Join(parts[..n], '\\') + "\\"
  {
  }

  lemma FilesOfIs(st: State, name: string, ext: string, ns: string)
    requires ns <= name
    ensures FilesOf(st, name, ext, ns) == if ns in st.dirs then InDirs(st.dirs[ns], Tail(name, ext, |ns|)) else []
  {
  }

  lemma {:induction false} ChoppedAre(st: State, parts: seq<string>, ext: string, n: nat)
    requires NoneHolds(parts, '\\') && 0 < n <= |parts|
    ensures |Join(parts[..n], '\\')| <= |Join(parts, '\\')|
    ensures ChoppedFiles(st, Join(parts, '\\'), ext, |Join(parts[..n], '\\')|) == BelowNamespaces(st.dirs, parts, ext, n - 1)
  {
    hide *;
    var name, upto := Join(parts, '\\'), Join(parts[..n], '\\');
    UpTo(parts, n);
    ChoppedStep(st, name, ext, |upto|);
    NamespacesStep(st.dirs, parts, ext, n - 1);
    if n > 1 {
      UpTo(parts, n - 1);
      ChoppedAre(st, parts, ext, n - 1);
      FilesOfNamespace(st, parts, ext, n - 1);
    }
  }

  /** The first pieces of a name, and where their last separator is. */
  lemma UpTo(parts: seq<string>, n: nat)
    requires NoneHolds(parts, '\\') && 0 < n <= |parts|
    ensures var name, upto := Join(parts, '\\'), Join(parts[..n], '\\');
            && |upto| <= |name| && name[..|upto|] == upto
            && (n < |parts| ==> |upto| < |name| && name[..|upto| + 1] == Namespace(parts, n))
            && LastIndex(upto, '\\') == if n == 1 then None else Some(|Join(parts[..n - 1], '\\')|)
  {
    hide Join;
    if n < |parts| { CutName(parts, n, '\\'); } else { assert parts[..n] == parts; }
    LastPiece(parts[..n]);
    if n > 1 { assert parts[..n][..n - 1] == parts[..n - 1]; }
  }

  lemma ChoppedStep(st: State, name: string, ext: string, n: nat)
    requires n <= |name|
    ensures ChoppedFiles(st, name, ext, n) ==
            match LastIndex(name[..n], '\\')
            case None => []
            case Some(pos) => FilesOf(st, name, ext, name[..pos + 1]) + ChoppedFiles(st, name, ext, pos)
  {
  }

  lemma NamespacesStep(dirs: map<string, seq<string>>, parts: seq<string>, ext: string, n: nat)
    requires n <= |parts|
    ensures BelowNamespaces(dirs, parts, ext, n) ==
            if n == 0 then [] else BelowOne(dirs, parts, ext, n) + BelowNamespaces(dirs, parts, ext, n - 1)
  {
  }

  lemma LastPiece(parts: seq<string>)
    requires parts != [] && NoneHolds(parts, '\\')
    ensures LastIndex(Join(parts, '\\'), '\\') == if |parts| == 1 then None else Some(|Join(parts[..|parts| - 1], '\\')|)
  {
    var last := parts[|parts| - 1];
    if |parts| == 1 {
      LastSeparator("", last, '\\');
    } else {
      CutName(parts, |parts| - 1, '\\');
      assert parts[|parts| - 1..] == [last];
      LastSeparator(Join(parts[..|parts| - 1], '\\'), last, '\\');
    }
  }

  /** Underscores are directories only behind the last backslash. */
  lemma Psr0PathIs(parts: seq<string>, ext: string)
    requires parts != [] && NoneHolds(parts, '\\') && '_' !in ext && '\\' !in ext
    ensures Psr0Path(Join(parts, '\\'), ext) == Psr0File(parts, ext)
  {
    var name, n := Join(parts, '\\'), |parts| - 1;
    var pieces := Split(parts[n], '_');
    hide Replaced, Join, Split, LastIndex;
    LastPiece(parts);
    LastPathPiece(parts[n], ext);
    if n == 0 {
      assert parts[..0] + pieces == pieces;
      JustOne(parts, '\\');
      assert Replaced(parts[0], '_', '/') == Join(pieces, '/');
    } else {
      LogicalParts(parts, ext);
      JoinBoth(parts[..n], pieces, '/');
      Glue(Join(parts[..n], '/') + "/", Join(pieces, '/'), ext);
    }
  }

  lemma JustOne(parts: seq<string>, c: char)
    ensures |parts| == 1 ==> Join(parts, c) == parts[0]
  {
  }

  lemma LastPathPiece(piece: string, ext: string)
    requires '_' !in ext
    ensures Replaced(piece, '_', '/') == Join(Split(piece, '_'), '/')
    ensures Replaced(piece + ext, '_', '/') == Join(Split(piece, '_'), '/') + ext
  {
    JoinSplit(piece, '_');
    JoinReplaced(Split(piece, '_'), '_', '/');
    assert Replaced(piece + ext, '_', '/') == Replaced(piece, '_', '/') + ext;
  }

  /** The path up to its last separator, and behind it. */
  lemma LogicalParts(parts: seq<string>, ext: string)
    requires |parts| > 1 && NoneHolds(parts, '\\')
    ensures var logical, pos := Replaced(Join(parts, '\\'), '\\', '/') + ext, |Join(parts[..|parts| - 1], '\\')|;
            && pos < |logical| && logical[..pos + 1] == Join(parts[..|parts| - 1], '/') + "/"
            && logical[pos + 1..] == parts[|parts| - 1] + ext
  {
    var n := |parts| - 1;
    hide Replaced, Join;
    JoinReplaced(parts, '\\', '/');
    CutName(parts, n, '/');
    SameLengths(parts[..n], '\\', '/');
    assert parts[n..] == [parts[n]];
    JustOne(parts[n..], '/');
    Glue(Join(parts[..n], '/'), "/", parts[n]);
  }

  lemma {:induction false} PrefixesBoth(a: seq<(string, seq<string>)>, b: seq<(string, seq<string>)>, name: string, file: string)
    ensures MatchingFiles(a + b, name, file) == MatchingFiles(a, name, file) + MatchingFiles(b, name, file)
  {
    if a == [] {
      assert a + b == b;
    } else {
      assert (a + b)[1..] == a[1..] + b;
      PrefixesBoth(a[1..], b, name, file);
    }
  }

  lemma {:induction false} MatchingAre(entries: seq<(string, seq<string>)>, name: string, file: string)
    ensures MatchingFiles(entries, name, file) == BelowPrefixes(entries, name, file)
    decreases |entries|
  {
    if entries != [] {
      var last := |entries| - 1;
      MatchingAre(entries[..last], name, file);
      PrefixesBoth(entries[..last], [entries[last]], name, file);
      assert entries == entries[..last] + [entries[last]];
      EachIs(entries[last].1, file);
      assert [entries[last]][1..] == [];
      assert entries[last].0 <= name <==> |entries[last].0| <= |name| && entries[last].0 == name[..|entries[last].0|];
      hide InDirs, Each;
    }
  }

  /** For every class and every loader. */
  lemma CandidatesAre(st: State, parts: seq<string>, ext: string)
    requires Agree(st.lengths, st.dirs.Keys) && '_' !in ext && '\\' !in ext
    requires parts != [] && NoneHolds(parts, '\\') && Join(parts, '\\') != ""
    ensures Candidates(st, Join(parts, '\\'), ext) == Tried(st, parts, ext)
  {
    var name := Join(parts, '\\');
    assert parts[..|parts|] == parts && parts[0..] == parts && Letter(name) == name[..1];
    hide *;
    ChoppedAre(st, parts, ext, |parts|);
    ChoppingLosesNothing(st, name, ext, |name|);
    GuardedIsEveryPrefix(st, name, ext);
    TailIs(parts, ext, 0);
    EachIs(st.fallback, Join(parts, '/') + ext);
    Psr0PathIs(parts, ext);
    EachIs(st.fallback0, Psr0File(parts, ext));
    Psr0FilesAre(st, parts, ext);
    CandidatesStep(st, name, ext);
    TriedStep(st, parts, ext);
  }

  lemma Psr0FilesAre(st: State, parts: seq<string>, ext: string)
    requires parts != [] && Join(parts, '\\') != "" && Psr0Path(Join(parts, '\\'), ext) == Psr0File(parts, ext)
    ensures var name := Join(parts, '\\');
            Psr0Files(st, name, ext) ==
            if name[..1] in st.prefixes0 then BelowPrefixes(st.prefixes0[name[..1]], name, Psr0File(parts, ext)) else []
  {
    var name := Join(parts, '\\');
    assert Letter(name) == name[..1];
    hide BelowPrefixes, Psr0File, Psr0Path;
    MatchingAre(Under(st.prefixes0, name[..1]), name, Psr0File(parts, ext));
  }

  lemma CandidatesStep(st: State, name: string, ext: string)
    ensures Candidates(st, name, ext) ==
            GuardedFiles(st, name, ext) + InDirs(st.fallback, Tail(name, ext, 0)) +
            Psr0Files(st, name, ext) + InDirs(st.fallback0, Psr0Path(name, ext))
  {
  }

  lemma TriedStep(st: State, parts: seq<string>, ext: string)
    requires parts != [] && Join(parts, '\\') != ""
    ensures var name := Join(parts, '\\');
            var found0 := if name[..1] in st.prefixes0 then BelowPrefixes(st.prefixes0[name[..1]], name, Psr0File(parts, ext)) else [];
            var a, b, d := BelowNamespaces(st.dirs, parts, ext, |parts| - 1), Each(st.fallback, Join(parts, '/') + ext), Each(st.fallback0, Psr0File(parts, ext));
            Tried(st, parts, ext) == a + b + found0 + d == a + (b + (found0 + d))
  {
    hide BelowNamespaces, BelowPrefixes, Each, Psr0File, Join;
  }

  // ----- answers ---------------------------------------------------------------------------------------------------

  predicate IsFirst(files: seq<string>, k: nat, isFile: string -> bool) {
    k < |files| && isFile(files[k]) && forall j :: 0 <= j < k ==> !isFile(files[j])
  }

  lemma {:induction false} FirstExistingIs(files: seq<string>, isFile: string -> bool)
    ensures forall k: nat :: IsFirst(files, k, isFile) ==> FirstExisting(files, isFile) == Some(files[k])
    ensures (forall j :: 0 <= j < |files| ==> !isFile(files[j])) ==> FirstExisting(files, isFile) == None
  {
    if files != [] {
      FirstExistingIs(files[1..], isFile);
      forall k: nat | IsFirst(files, k, isFile) ensures FirstExisting(files, isFile) == Some(files[k]) {
        if k > 0 {
          assert !isFile(files[0]);
          assert IsFirst(files[1..], k - 1, isFile);
        }
      }
    }
  }

  /** What a loader that remembers nothing answers: the class map; nothing when that is all it may use;
      else the first file there is, with the extension `.php`, then from the include path, then on HHVM
      the same with `.hh`. */
  lemma AnswerIs(st: State, parts: seq<string>, world: World)
    requires Agree(st.lengths, st.dirs.Keys) && parts != [] && NoneHolds(parts, '\\') && Join(parts, '\\') != ""
    ensures var name, answer := Join(parts, '\\'), Answer(st, Join(parts, '\\'), world);
            var php, hh := Tried(st, parts, ".php"), Tried(st, parts, ".hh");
            && (name in st.classMap ==> answer == Some(st.classMap[name]))
            && (name !in st.classMap && st.authoritative ==> answer == None)
            && (name !in st.classMap && !st.authoritative ==>
                && (forall k: nat :: IsFirst(php, k, world.isFile) ==> answer == Some(php[k]))
                && ((forall j :: 0 <= j < |php| ==> !world.isFile(php[j])) ==>
                    var included := if st.useIncludePath then world.includePath(Psr0File(parts, ".php")) else None;
                    && (included.Some? || !world.hhvm ==> answer == included)
                    && (included.None? && world.hhvm ==>
                        && (forall k: nat :: IsFirst(hh, k, world.isFile) ==> answer == Some(hh[k]))
                        && ((forall j :: 0 <= j < |hh| ==> !world.isFile(hh[j])) ==>
                            answer == if st.useIncludePath then world.includePath(Psr0File(parts, ".hh")) else None))))
  {
    hide Agree, Tried, Candidates, Psr0File, Psr0Path, NoneHolds, FirstExisting;
    CandidatesAre(st, parts, ".php");
    CandidatesAre(st, parts, ".hh");
    Psr0PathIs(parts, ".php");
    Psr0PathIs(parts, ".hh");
    FirstExistingIs(Tried(st, parts, ".php"), world.isFile);
    FirstExistingIs(Tried(st, parts, ".hh"), world.isFile);
  }

  /** No file of the class is found below a longer namespace than that of its first `n` pieces. */
  ghost predicate NothingBelow(dirs: map<string, seq<string>>, parts: seq<string>, n: nat, isFile: string -> bool) {
    forall m :: n < m < |parts| && Namespace(parts, m) in dirs ==>
      forall d :: d in dirs[Namespace(parts, m)] ==> !isFile(d + "/" + Join(parts[m..], '/') + ".php")
  }

  lemma FileText(d: string, file: string)
    ensures d + "/" + (file + ".php") == d + "/" + file + ".php"
  {
  }

  lemma {:induction false} NoneBelow(dirs: map<string, seq<string>>, parts: seq<string>, n: nat, m: nat, isFile: string -> bool)
    requires n <= m < |parts| && NothingBelow(dirs, parts, n, isFile)
    ensures FirstExisting(BelowNamespaces(dirs, parts, ".php", m), isFile) ==
            FirstExisting(BelowNamespaces(dirs, parts, ".php", n), isFile)
  {
    if n < m {
      hide *;
      var here := BelowOne(dirs, parts, ".php", m);
      NoneHere(dirs, parts, n, m, isFile);
      NoneBelow(dirs, parts, n, m - 1, isFile);
      NamespacesStep(dirs, parts, ".php", m);
      FirstExistingIs(here, isFile);
      FirstOfBoth(here, BelowNamespaces(dirs, parts, ".php", m - 1), isFile);
    }
  }

  lemma NoneHere(dirs: map<string, seq<string>>, parts: seq<string>, n: nat, m: nat, isFile: string -> bool)
    requires n < m < |parts| && NothingBelow(dirs, parts, n, isFile)
    ensures var here := BelowOne(dirs, parts, ".php", m); forall j :: 0 <= j < |here| ==> !isFile(here[j])
  {
    hide Namespace, Join;
    var ns, file := Namespace(parts, m), Join(parts[m..], '/');
    if ns in dirs {
      forall j | 0 <= j < |dirs[ns]| ensures !isFile(Each(dirs[ns], file + ".php")[j]) {
        assert dirs[ns][j] in dirs[ns];
        FileText(dirs[ns][j], file);
      }
    }
  }

  /** A class is found below a namespace it belongs to, in the first directory that has its file, when
      none of the longer namespaces has it. */
  lemma FoundBelowNamespace(st: State, parts: seq<string>, n: nat, k: nat, world: World)
    requires Agree(st.lengths, st.dirs.Keys) && 0 < n < |parts| && NoneHolds(parts, '\\')
    requires Join(parts, '\\') !in st.classMap && !st.authoritative
    requires Namespace(parts, n) in st.dirs && k < |st.dirs[Namespace(parts, n)]|
    requires var dirs, file := st.dirs[Namespace(parts, n)], Join(parts[n..], '/');
             && world.isFile(dirs[k] + "/" + file + ".php")
             && forall j :: 0 <= j < k ==> !world.isFile(dirs[j] + "/" + file + ".php")
    requires NothingBelow(st.dirs, parts, n, world.isFile)
    ensures Answer(st, Join(parts, '\\'), world) ==
            Some(st.dirs[Namespace(parts, n)][k] + "/" + Join(parts[n..], '/') + ".php")
  {
    hide *;
    var ns, file := Namespace(parts, n), Join(parts[n..], '/');
    var here := Each(st.dirs[ns], file + ".php");
    HereIs(st.dirs[ns], file, k, world.isFile);
    BelowOneIs(st.dirs, parts, ".php", n);
    FirstExistingIs(here, world.isFile);
    FirstOfBoth(here, BelowNamespaces(st.dirs, parts, ".php", n - 1), world.isFile);
    NamespacesStep(st.dirs, parts, ".php", n);
    NoneBelow(st.dirs, parts, n, |parts| - 1, world.isFile);
    CutName(parts, n, '\\');
    FoundFirst(st, parts, world);
  }

  lemma HereIs(dirs: seq<string>, file: string, k: nat, isFile: string -> bool)
    requires k < |dirs| && isFile(dirs[k] + "/" + file + ".php")
    requires forall j :: 0 <= j < k ==> !isFile(dirs[j] + "/" + file + ".php")
    ensures IsFirst(Each(dirs, file + ".php"), k, isFile) && Each(dirs, file + ".php")[k] == dirs[k] + "/" + file + ".php"
  {
    var here := Each(dirs, file + ".php");
    forall j | 0 <= j < |here| ensures here[j] == dirs[j] + "/" + file + ".php" { FileText(dirs[j], file); }
  }

  /** Files below namespaces come before all others. */
  lemma FoundFirst(st: State, parts: seq<string>, world: World)
    requires Agree(st.lengths, st.dirs.Keys) && parts != [] && NoneHolds(parts, '\\') && Join(parts, '\\') != ""
    requires Join(parts, '\\') !in st.classMap && !st.authoritative
    ensures var found := FirstExisting(BelowNamespaces(st.dirs, parts, ".php", |parts| - 1), world.isFile);
            found.Some? ==> Answer(st, Join(parts, '\\'), world) == found
  {
    hide *;
    CandidatesAre(st, parts, ".php");
    var rest := TriedBegins(st, parts);
    FirstOfBoth(BelowNamespaces(st.dirs, parts, ".php", |parts| - 1), rest, world.isFile);
    SearchFinds(st, Join(parts, '\\'), world);
  }

  lemma TriedBegins(st: State, parts: seq<string>) returns (rest: seq<string>)
    requires parts != [] && Join(parts, '\\') != ""
    ensures Tried(st, parts, ".php") == BelowNamespaces(st.dirs, parts, ".php", |parts| - 1) + rest
  {
    hide BelowNamespaces, BelowPrefixes, Each, Psr0File, Join;
    rest := Tried(st, parts, ".php")[|BelowNamespaces(st.dirs, parts, ".php", |parts| - 1)|..];
  }

  lemma SearchFinds(st: State, name: string, world: World)
    requires name !in st.classMap && !st.authoritative
    ensures var found := FirstExisting(Candidates(st, name, ".php"), world.isFile); found.Some? ==> Answer(st, name, world) == found
  {
    hide Candidates, FirstExisting;
  }

  /** Registered alone, a namespace has its classes below its directory. */
  lemma RegisteredNamespace(ns: string, dir: string, parts: seq<string>, world: World)
    requires IsNamespace(ns) && parts != [] && NoneHolds(parts, '\\') && world.isFile(dir + "/" + Join(parts, '/') + ".php")
    ensures Psr4Set(EMPTY, ns, [dir]).Some?
    ensures Answer(Psr4Set(EMPTY, ns, [dir]).value, ns + Join(parts, '\\'), world) == Some(dir + "/" + Join(parts, '/') + ".php")
  {
    var above := Split(ns[..|ns| - 1], '\\');
    var all, n := above + parts, |above|;
    var st := Psr4Set(EMPTY, ns, [dir]).value;
    assert st.dirs == map[ns := [dir]] && st.classMap == map[] && !st.authoritative;
    hide *;
    EmptyAgree();
    SetPsr4Agrees(EMPTY, ns, [dir]);
    NamespacePieces(ns, parts);
    FoundBelowNamespace(st, all, n, 0, world);
  }

  /** The pieces of a class below a namespace. */
  lemma NamespacePieces(ns: string, parts: seq<string>)
    requires IsNamespace(ns) && parts != [] && NoneHolds(parts, '\\')
    ensures var above := Split(ns[..|ns| - 1], '\\');
            var all := above + parts;
            && 0 < |above| < |all| && NoneHolds(all, '\\') && all[|above|..] == parts && Namespace(all, |above|) == ns
            && Join(all, '\\') == ns + Join(parts, '\\')
            && forall m :: |above| < m < |all| ==> Namespace(all, m) != ns
  {
    var above := Split(ns[..|ns| - 1], '\\');
    var all, n := above + parts, |above|;
    JoinSplit(ns[..|ns| - 1], '\\');
    hide Split, Join;
    JoinBoth(above, parts, '\\');
    assert all[..n] == above && all[n..] == parts && Namespace(all, n) == ns;
    assert Join(all, '\\') == ns + Join(parts, '\\');
    forall m | n < m < |all| ensures Namespace(all, m) != ns {
      assert all[..m][..n] == above;
      CutName(all[..m], n, '\\');
      assert |Namespace(all, m)| > |ns|;
    }
  }

  lemma EmptyAgree()
    ensures Agree(EMPTY.lengths, EMPTY.dirs.Keys)
  {
  }

  /** With one file to try, a class is there or nowhere. */
  lemma OnlyFile(st: State, parts: seq<string>, file: string, world: World)
    requires Agree(st.lengths, st.dirs.Keys) && parts != [] && NoneHolds(parts, '\\') && Join(parts, '\\') != ""
    requires st.classMap == map[] && !st.authoritative && Tried(st, parts, ".php") == [file] && world.isFile(file)
    ensures Answer(st, Join(parts, '\\'), world) == Some(file)
  {
    hide Agree, Tried, Answer, NoneHolds, Join;
    AnswerIs(st, parts, world);
    assert IsFirst([file], 0, world.isFile);
  }

  /** Registered for the empty namespace, a directory has every class below it. */
  lemma RegisteredFallback(dir: string, parts: seq<string>, world: World)
    requires parts != [] && NoneHolds(parts, '\\') && Join(parts, '\\') != "" && world.isFile(dir + "/" + Join(parts, '/') + ".php")
    ensures Psr4Set(EMPTY, "", [dir]).Some?
    ensures Answer(Psr4Set(EMPTY, "", [dir]).value, Join(parts, '\\'), world) == Some(dir + "/" + Join(parts, '/') + ".php")
  {
    var st := Psr4Set(EMPTY, "", [dir]).value;
    FileText(dir, Join(parts, '/'));
    hide Join, NoneHolds;
    NothingRegistered(parts, ".php", |parts| - 1);
    assert Tried(st, parts, ".php") == [dir + "/" + Join(parts, '/') + ".php"];
    EmptyAgree();
    OnlyFile(st, parts, dir + "/" + Join(parts, '/') + ".php", world);
  }

  lemma {:induction false} NothingRegistered(parts: seq<string>, ext: string, n: nat)
    requires n <= |parts|
    ensures BelowNamespaces(map[], parts, ext, n) == []
  {
    if n > 0 { NothingRegistered(parts, ext, n - 1); }
  }

  /** Registered for a PSR-0 prefix, a directory has the classes that begin with it: the whole name is
      below it, with directories at the backslashes and at the underscores of the last piece. */
  lemma RegisteredPrefix(prefix: string, dir: string, parts: seq<string>, world: World)
    requires parts != [] && NoneHolds(parts, '\\') && prefix != "" && prefix != "0" && prefix <= Join(parts, '\\')
    requires var last := |parts| - 1;
             world.isFile(dir + "/" + Join(parts[..last] + Split(parts[last], '_'), '/') + ".php")
    ensures Answer(Psr0Set(EMPTY, prefix, [dir]), Join(parts, '\\'), world) ==
            Some(dir + "/" + Join(parts[..|parts| - 1] + Split(parts[|parts| - 1], '_'), '/') + ".php")
  {
    hide *;
    Psr0Text(dir, parts);
    OnePsr0Set(prefix, dir);
    FoundBelowPrefix(prefix, dir, parts, world);
  }

  lemma Psr0Text(dir: string, parts: seq<string>)
    requires parts != []
    ensures dir + "/" + Psr0File(parts, ".php") ==
            dir + "/" + Join(parts[..|parts| - 1] + Split(parts[|parts| - 1], '_'), '/') + ".php"
  {
    hide Join, Split;
    FileText(dir, Join(parts[..|parts| - 1] + Split(parts[|parts| - 1], '_'), '/'));
  }

  lemma OnePsr0Set(prefix: string, dir: string)
    requires prefix != "" && prefix != "0"
    ensures Psr0Set(EMPTY, prefix, [dir]) == EMPTY.(prefixes0 := map[prefix[..1] := [(prefix, [dir])]])
  {
    assert Letter(prefix) == prefix[..1];
  }

  lemma FoundBelowPrefix(prefix: string, dir: string, parts: seq<string>, world: World)
    requires parts != [] && NoneHolds(parts, '\\') && prefix != "" && prefix <= Join(parts, '\\')
    requires world.isFile(dir + "/" + Psr0File(parts, ".php"))
    ensures Answer(EMPTY.(prefixes0 := map[prefix[..1] := [(prefix, [dir])]]), Join(parts, '\\'), world) ==
            Some(dir + "/" + Psr0File(parts, ".php"))
  {
    EmptyAgree();
    hide Join, Psr0File, Answer, Agree, NoneHolds, Tried;
    OnePrefixTried(prefix, dir, parts);
    OnlyFile(EMPTY.(prefixes0 := map[prefix[..1] := [(prefix, [dir])]]), parts, dir + "/" + Psr0File(parts, ".php"), world);
  }

  lemma OnePrefixTried(prefix: string, dir: string, parts: seq<string>)
    requires parts != [] && prefix != "" && prefix <= Join(parts, '\\')
    ensures Tried(EMPTY.(prefixes0 := map[prefix[..1] := [(prefix, [dir])]]), parts, ".php") == [dir + "/" + Psr0File(parts, ".php")]
  {
    hide Join, Psr0File;
    NothingRegistered(parts, ".php", |parts| - 1);
    var entries, name := [(prefix, [dir])], Join(parts, '\\');
    assert entries[..0] == [] && prefix == name[..|prefix|] && prefix[..1] == name[..1];
    assert BelowPrefixes(entries, name, Psr0File(parts, ".php")) == [dir + "/" + Psr0File(parts, ".php")];
  }

  // ----- in which order directories come -----------------------------------------------------------------------------

  /** A directory prepended to a namespace is tried before those registered earlier, one appended behind
      them, and the others stay. */
  lemma AddedDirectory(st: State, ns: string, dir: string, prepend: bool)
    requires IsNamespace(ns)
    ensures Psr4Added(st, ns, [dir], prepend).Some?
    ensures var dirs, dirs' := st.dirs, Psr4Added(st, ns, [dir], prepend).value.dirs;
            && dirs'.Keys == dirs.Keys + {ns} && (forall p :: p in dirs && p != ns ==> dirs'[p] == dirs[p])
            && (ns !in dirs ==> dirs'[ns] == [dir])
            && (ns in dirs && prepend ==> dirs'[ns][0] == dir && dirs'[ns][1..] == dirs[ns])
            && (ns in dirs && !prepend ==> dirs'[ns][|dirs[ns]|] == dir && dirs'[ns][..|dirs[ns]|] == dirs[ns])
  {
    assert ns != "0";
  }

  /** Setting replaces. */
  lemma SetDirectories(st: State, ns: string, paths: seq<string>)
    requires IsNamespace(ns)
    ensures Psr4Set(st, ns, paths).Some?
    ensures var dirs, dirs' := st.dirs, Psr4Set(st, ns, paths).value.dirs;
            dirs'.Keys == dirs.Keys + {ns} && dirs'[ns] == paths && forall p :: p in dirs && p != ns ==> dirs'[p] == dirs[p]
  {
    assert ns != "0";
  }

  /** In an ordered array a key keeps its place. */
  lemma {:induction false} AssignedAt(entries: seq<(string, seq<string>)>, key: string, dirs: seq<string>, i: nat)
    requires i < |entries| && entries[i].0 == key && forall j :: 0 <= j < i ==> entries[j].0 != key
    ensures Assigned(entries, key, dirs) == entries[i := (key, dirs)] && EntryOf(entries, key) == Some(entries[i].1)
  {
    if i > 0 {
      assert entries[0].0 != key && entries == [entries[0]] + entries[1..];
      AssignedAt(entries[1..], key, dirs, i - 1);
    }
  }

  /** So directories are added to a PSR-0 prefix where it stands, before or behind its earlier ones. */
  lemma AddedToPrefix(st: State, prefix: string, dir: string, prepend: bool, i: nat)
    requires prefix != "" && prefix != "0" && prefix[..1] in st.prefixes0
    requires var entries := st.prefixes0[prefix[..1]];
             i < |entries| && entries[i].0 == prefix && forall j :: 0 <= j < i ==> entries[j].0 != prefix
    ensures var entries, st' := st.prefixes0[prefix[..1]], Psr0Added(st, prefix, [dir], prepend);
            st'.prefixes0 == st.prefixes0[prefix[..1] := entries[i := (prefix, if prepend then [dir] + entries[i].1 else entries[i].1 + [dir])]]
  {
    var entries := st.prefixes0[prefix[..1]];
    assert Letter(prefix) == prefix[..1];
    AssignedAt(entries, prefix, if prepend then [dir] + entries[i].1 else entries[i].1 + [dir], i);
    hide Assigned, EntryOf;
  }

  // ----- any number of registrations -------------------------------------------------------------------------

  /** The namespace a registration makes known. */
  predicate MakesKnown(r: Registration, ns: string) {
    r.Psr4? && r.prefix == ns && ns != "" && ns[|ns| - 1] == '\\'
  }

  lemma OneRegistered(st: State, r: Registration, ns: string)
    ensures ns in Registered(st, r).dirs <==> ns in st.dirs || MakesKnown(r, ns)
  {
    match r
    case Psr4(prefix, paths, replace, prepend) =>
      OneSet(st, prefix, paths, ns);
      OneAdded(st, prefix, paths, prepend, ns);
      hide Psr4Set, Psr4Added;
    case Psr0(prefix, paths, _, prepend) =>
      Psr0SetLeavesPsr4(st, prefix, paths);
      Psr0LeavesPsr4(st, prefix, paths, prepend);
      hide Psr0Set, Psr0Added;
    case Classes(_) =>
  }

  lemma OneSet(st: State, prefix: string, paths: seq<string>, ns: string)
    ensures (match Psr4Set(st, prefix, paths) case Some(next) => ns in next.dirs case None => ns in st.dirs) <==>
            ns in st.dirs || (prefix == ns && ns != "" && ns[|ns| - 1] == '\\')
  {
    hide Indexed;
  }

  lemma OneAdded(st: State, prefix: string, paths: seq<string>, prepend: bool, ns: string)
    ensures (match Psr4Added(st, prefix, paths, prepend) case Some(next) => ns in next.dirs case None => ns in st.dirs) <==>
            ns in st.dirs || (prefix == ns && ns != "" && ns[|ns| - 1] == '\\')
  {
    OneSet(st, prefix, paths, ns);
    hide Psr4Set, Merged;
  }

  ghost predicate SomeMakesKnown(rs: seq<Registration>, ns: string) {
    exists i :: 0 <= i < |rs| && MakesKnown(rs[i], ns)
  }

  lemma SomeStep(rs: seq<Registration>, ns: string)
    requires rs != []
    ensures SomeMakesKnown(rs, ns) <==> SomeMakesKnown(rs[..|rs| - 1], ns) || MakesKnown(rs[|rs| - 1], ns)
  {
    hide MakesKnown;
    var n := |rs| - 1;
    if i :| 0 <= i < n && MakesKnown(rs[..n][i], ns) { assert MakesKnown(rs[i], ns); }
    if i :| 0 <= i < |rs| && MakesKnown(rs[i], ns) { assert i < n ==> MakesKnown(rs[..n][i], ns); }
  }

  lemma {:induction false} KnownIff(rs: seq<Registration>, ns: string)
    ensures ns in AllRegistered(EMPTY, rs).dirs <==> SomeMakesKnown(rs, ns)
    decreases |rs|
  {
    if rs == [] {
      assert AllRegistered(EMPTY, rs) == EMPTY;
    } else {
      hide *;
      var n := |rs| - 1;
      KnownIff(rs[..n], ns);
      OneRegistered(AllRegistered(EMPTY, rs[..n]), rs[n], ns);
      assert rs[..n] + [rs[n]] == rs;
      RegisteredLast(rs[..n], rs[n]);
      SomeStep(rs, ns);
    }
  }

  /** A loader knows the namespaces that were registered, which end in a backslash; its other index has them
      under their first byte, with their lengths, and holds nothing else. */
  lemma KnownAre(rs: seq<Registration>, ns: string)
    ensures var st := AllRegistered(EMPTY, rs);
            && (ns in st.dirs <==> SomeMakesKnown(rs, ns))
            && (ns in st.dirs ==> ns != "" && ns[..1] in st.lengths && ns in st.lengths[ns[..1]] && st.lengths[ns[..1]][ns] == |ns|)
            && forall letter :: letter in st.lengths && ns in st.lengths[letter] ==> ns in st.dirs && letter == ns[..1]
  {
    IndexesAgree(rs);
    KnownIff(rs, ns);
    hide AllRegistered, SomeMakesKnown;
  }

  /** The last registration counts on top of the others, as the call it stands for: set or add, and nothing
      when it throws. */
  lemma LastCall(rs: seq<Registration>, key: string, paths: seq<string>, prepend: bool, classMap: map<string, string>)
    ensures var st := AllRegistered(EMPTY, rs);
            && AllRegistered(EMPTY, rs + [Psr4(key, paths, true, prepend)]) ==
               (match Psr4Set(st, key, paths) case Some(next) => next case None => st)
            && AllRegistered(EMPTY, rs + [Psr4(key, paths, false, prepend)]) ==
               (match Psr4Added(st, key, paths, prepend) case Some(next) => next case None => st)
            && AllRegistered(EMPTY, rs + [Psr0(key, paths, true, prepend)]) == Psr0Set(st, key, paths)
            && AllRegistered(EMPTY, rs + [Psr0(key, paths, false, prepend)]) == Psr0Added(st, key, paths, prepend)
            && AllRegistered(EMPTY, rs + [Classes(classMap)]) == st.(classMap := st.classMap + classMap)
  {
    RegisteredLast(rs, Psr4(key, paths, true, prepend));
    RegisteredLast(rs, Psr4(key, paths, false, prepend));
    RegisteredLast(rs, Psr0(key, paths, true, prepend));
    RegisteredLast(rs, Psr0(key, paths, false, prepend));
    RegisteredLast(rs, Classes(classMap));
    hide AllRegistered, Psr4Set, Psr4Added, Psr0Set, Psr0Added;
  }

  lemma RegisteredLast(rs: seq<Registration>, r: Registration)
    ensures AllRegistered(EMPTY, rs + [r]) == Registered(AllRegistered(EMPTY, rs), r)
  {
    assert (rs + [r])[..|rs|] == rs;
    hide Registered;
  }
}
