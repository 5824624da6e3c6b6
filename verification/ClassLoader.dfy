/** Composer's runtime autoloader (assets/ClassLoader.php): registration, the two PSR-4 indexes, and
    lookup with its negative cache. A `char` stands for a byte. APCu is not modelled. */
module ClassLoader {
  import opened Common
  import opened Text

  /** What has been registered. `lengths` is keyed by first letter; the PSR-0 arrays keep their order. */
  datatype State = State(
    lengths: map<string, map<string, nat>>,
    dirs: map<string, seq<string>>,
    fallback: seq<string>,
    prefixes0: map<string, seq<(string, seq<string>)>>,
    fallback0: seq<string>,
    classMap: map<string, string>,
    authoritative: bool,
    useIncludePath: bool)

  const EMPTY := State(map[], map[], [], map[], [], map[], false, false)

  /** The world a lookup asks. */
  datatype World = World(isFile: string -> bool, includePath: string -> Option<string>, hhvm: bool)

  // ----- registration ---------------------------------------------------------------------------------

  /** PHP's `!$prefix`. */
  predicate IsFalsy(prefix: string) { prefix == "" || prefix == "0" }

  predicate IsNamespace(prefix: string) { prefix != "" && prefix[|prefix| - 1] == '\\' }

  function Letter(prefix: string): string
    requires prefix != ""
  {
    [prefix[0]]
  }

  /** `$array[$letter][$prefix] = ...` on the length index. */
  function Indexed(lengths: map<string, map<string, nat>>, prefix: string): map<string, map<string, nat>>
    requires prefix != ""
  {
    var letter := Letter(prefix);
    lengths[letter := (if letter in lengths then lengths[letter] else map[])[prefix := |prefix|]]
  }

  /** Assignment in an ordered array: in place when the key is there, else at the end. */
  function Assigned(entries: seq<(string, seq<string>)>, key: string, dirs: seq<string>): seq<(string, seq<string>)> {
    if entries == [] then [(key, dirs)]
    else if entries[0].0 == key then [(key, dirs)] + entries[1..]
    else [entries[0]] + Assigned(entries[1..], key, dirs)
  }

  lemma {:induction false} AssignedNew(entries: seq<(string, seq<string>)>, key: string, dirs: seq<string>)
    requires forall i :: 0 <= i < |entries| ==> entries[i].0 != key
    ensures Assigned(entries, key, dirs) == entries + [(key, dirs)]
  {
    if entries != [] {
      assert forall i :: 0 <= i < |entries[1..]| ==> entries[1..][i].0 == entries[i + 1].0;
      AssignedNew(entries[1..], key, dirs);
      assert entries == [entries[0]] + entries[1..];
    }
  }

  function EntryOf(entries: seq<(string, seq<string>)>, key: string): Option<seq<string>> {
    if entries == [] then None
    else if entries[0].0 == key then Some(entries[0].1)
    else EntryOf(entries[1..], key)
  }

  function Under(prefixes: map<string, seq<(string, seq<string>)>>, letter: string): seq<(string, seq<string>)> {
    if letter in prefixes then prefixes[letter] else []
  }

  function Merged(paths: seq<string>, earlier: seq<string>, prepend: bool): seq<string> {
    if prepend then paths + earlier else earlier + paths
  }

  /** `setPsr4`: nothing when it throws. */
  function Psr4Set(st: State, prefix: string, paths: seq<string>): Option<State> {
    if IsFalsy(prefix) then Some(st.(fallback := paths))
    else if !IsNamespace(prefix) then None
    else Some(st.(lengths := Indexed(st.lengths, prefix), dirs := st.dirs[prefix := paths]))
  }

  function Psr4Added(st: State, prefix: string, paths: seq<string>, prepend: bool): Option<State> {
    if IsFalsy(prefix) then Some(st.(fallback := Merged(paths, st.fallback, prepend)))
    else if prefix !in st.dirs then Psr4Set(st, prefix, paths)
    else Some(st.(dirs := st.dirs[prefix := Merged(paths, st.dirs[prefix], prepend)]))
  }

  function Psr0Set(st: State, prefix: string, paths: seq<string>): State {
    if IsFalsy(prefix) then st.(fallback0 := paths)
    else
      var letter := Letter(prefix);
      st.(prefixes0 := st.prefixes0[letter := Assigned(Under(st.prefixes0, letter), prefix, paths)])
  }

  function Psr0Added(st: State, prefix: string, paths: seq<string>, prepend: bool): State {
    if IsFalsy(prefix) then st.(fallback0 := Merged(paths, st.fallback0, prepend))
    else
      match EntryOf(Under(st.prefixes0, Letter(prefix)), prefix)
      case None => Psr0Set(st, prefix, paths)
      case Some(earlier) => Psr0Set(st, prefix, Merged(paths, earlier, prepend))
  }

  function ClassesAdded(st: State, classMap: map<string, string>): State {
    st.(classMap := st.classMap + classMap)
  }

  // ----- the two PSR-4 indexes ----------------------------------------------------------------------------

  /** The length index and the directory map know the same prefixes, all of them namespaces. */
  ghost predicate Agree(lengths: map<string, map<string, nat>>, prefixes: set<string>) {
    (forall prefix :: prefix in prefixes ==>
      IsNamespace(prefix) && prefix[..1] in lengths && prefix in lengths[prefix[..1]]) &&
    (forall letter, prefix :: letter in lengths && prefix in lengths[letter] ==>
      prefix in prefixes && letter == prefix[..1] && lengths[letter][prefix] == |prefix|)
  }

  datatype Registration =
    | Psr4(prefix: string, paths: seq<string>, replace: bool, prepend: bool)
    | Psr0(prefix: string, paths: seq<string>, replace: bool, prepend: bool)
    | Classes(classMap: map<string, string>)

  /** A registration that throws leaves the loader as it was. */
  function Registered(st: State, r: Registration): State {
    match r
    case Psr4(prefix, paths, replace, prepend) =>
      var next := if replace then Psr4Set(st, prefix, paths) else Psr4Added(st, prefix, paths, prepend);
      (match next case Some(st') => st' case None => st)
    case Psr0(prefix, paths, replace, prepend) =>
      if replace then Psr0Set(st, prefix, paths) else Psr0Added(st, prefix, paths, prepend)
    case Classes(classMap) => ClassesAdded(st, classMap)
  }

  function AllRegistered(st: State, rs: seq<Registration>): State
    decreases |rs|
  {
    if rs == [] then st else Registered(AllRegistered(st, rs[..|rs| - 1]), rs[|rs| - 1])
  }

  lemma IndexedAgrees(lengths: map<string, map<string, nat>>, prefixes: set<string>, prefix: string)
    requires Agree(lengths, prefixes) && IsNamespace(prefix)
    ensures Agree(Indexed(lengths, prefix), prefixes + {prefix})
  {
    assert prefix[..1] == Letter(prefix);
  }

  lemma SetPsr4Agrees(st: State, prefix: string, paths: seq<string>)
    requires Agree(st.lengths, st.dirs.Keys)
    ensures Psr4Set(st, prefix, paths).Some? ==>
              var st' := Psr4Set(st, prefix, paths).value; Agree(st'.lengths, st'.dirs.Keys)
  {
    hide Agree, Indexed;
    if !IsFalsy(prefix) && IsNamespace(prefix) {
      IndexedAgrees(st.lengths, st.dirs.Keys, prefix);
      assert st.dirs[prefix := paths].Keys == st.dirs.Keys + {prefix};
    }
  }

  lemma AddPsr4Agrees(st: State, prefix: string, paths: seq<string>, prepend: bool)
    requires Agree(st.lengths, st.dirs.Keys)
    ensures Psr4Added(st, prefix, paths, prepend).Some? ==>
              var st' := Psr4Added(st, prefix, paths, prepend).value; Agree(st'.lengths, st'.dirs.Keys)
  {
    SetPsr4Agrees(st, prefix, paths);
    hide Agree, Psr4Set;
    if prefix in st.dirs {
      assert st.dirs[prefix := Merged(paths, st.dirs[prefix], prepend)].Keys == st.dirs.Keys;
    }
  }

  lemma RegisteredAgrees(st: State, r: Registration)
    requires Agree(st.lengths, st.dirs.Keys)
    ensures Agree(Registered(st, r).lengths, Registered(st, r).dirs.Keys)
  {
    hide Agree, Psr4Set, Psr4Added, Psr0Set, Psr0Added;
    match r
    case Psr4(prefix, paths, replace, prepend) =>
      SetPsr4Agrees(st, prefix, paths);
      AddPsr4Agrees(st, prefix, paths, prepend);
    case Psr0(prefix, paths, _, prepend) =>
      Psr0SetLeavesPsr4(st, prefix, paths);
      Psr0LeavesPsr4(st, prefix, paths, prepend);
    case Classes(_) =>
  }

  lemma Psr0SetLeavesPsr4(st: State, prefix: string, paths: seq<string>)
    ensures Psr0Set(st, prefix, paths).lengths == st.lengths && Psr0Set(st, prefix, paths).dirs == st.dirs
  {
    hide Assigned, Under;
  }

  lemma Psr0LeavesPsr4(st: State, prefix: string, paths: seq<string>, prepend: bool)
    ensures Psr0Added(st, prefix, paths, prepend).lengths == st.lengths && Psr0Added(st, prefix, paths, prepend).dirs == st.dirs
  {
    hide Psr0Set, EntryOf, Under, Merged;
    if !IsFalsy(prefix) {
      Psr0SetLeavesPsr4(st, prefix, paths);
      if earlier :| EntryOf(Under(st.prefixes0, Letter(prefix)), prefix) == Some(earlier) {
        Psr0SetLeavesPsr4(st, prefix, Merged(paths, earlier, prepend));
      }
    }
  }

  /** After any registrations both indexes know the same prefixes. */
  lemma {:induction false} IndexesAgree(rs: seq<Registration>)
    ensures Agree(AllRegistered(EMPTY, rs).lengths, AllRegistered(EMPTY, rs).dirs.Keys)
    decreases |rs|
  {
    if rs != [] {
      IndexesAgree(rs[..|rs| - 1]);
      RegisteredAgrees(AllRegistered(EMPTY, rs[..|rs| - 1]), rs[|rs| - 1]);
    }
  }

  // ----- lookup, as a list of files to try ------------------------------------------------------------------

  function Replaced(s: string, from: char, to: char): string {
    seq(|s|, i requires 0 <= i < |s| => if s[i] == from then to else s[i])
  }

  /** The file below each directory. */
  function InDirs(dirs: seq<string>, tail: string): seq<string> {
    if dirs == [] then [] else [dirs[0] + ("/" + tail)] + InDirs(dirs[1..], tail)
  }

  /** PSR-4: what the class is called below a prefix of length `n`. */
  function Tail(name: string, ext: string, n: nat): string
    requires n <= |name|
  {
    (Replaced(name, '\\', '/') + ext)[n..]
  }

  /** The files of one registered prefix of the name. */
  function FilesOf(st: State, name: string, ext: string, prefix: string): seq<string> {
    if prefix in st.dirs && prefix <= name then InDirs(st.dirs[prefix], Tail(name, ext, |prefix|)) else []
  }

  /** PSR-4 as the loader goes about it: the prefixes at the backslashes of the name, the last one
      first ... */
  function ChoppedFiles(st: State, name: string, ext: string, n: nat): seq<string>
    requires n <= |name|
    decreases n
  {
    match LastIndex(name[..n], '\\')
    case None => []
    case Some(pos) => FilesOf(st, name, ext, name[..pos + 1]) + ChoppedFiles(st, name, ext, pos)
  }

  /** ... and those only for a name whose first letter has an index. */
  function GuardedFiles(st: State, name: string, ext: string): seq<string> {
    if name == "" || Letter(name) !in st.lengths then [] else ChoppedFiles(st, name, ext, |name|)
  }

  /** Section 2 of PSR-4: every registered prefix of the name, from the longest that has at most `n`
      characters. */
  function PrefixFiles(st: State, name: string, ext: string, n: nat): seq<string>
    requires n <= |name|
  {
    if n == 0 then [] else FilesOf(st, name, ext, name[..n]) + PrefixFiles(st, name, ext, n - 1)
  }

  /** PSR-0: underscores in the class name proper are directories too. */
  function Psr0Path(name: string, ext: string): string {
    var logical := Replaced(name, '\\', '/') + ext;
    match LastIndex(name, '\\')
    case Some(pos) => logical[..pos + 1] + Replaced(logical[pos + 1..], '_', '/')
    case None => Replaced(name, '_', '/') + ext
  }

  function MatchingFiles(entries: seq<(string, seq<string>)>, name: string, path: string): seq<string> {
    if entries == [] then []
    else (if entries[0].0 <= name then InDirs(entries[0].1, path) else []) + MatchingFiles(entries[1..], name, path)
  }

  function Psr0Files(st: State, name: string, ext: string): seq<string> {
    if name == "" then [] else MatchingFiles(Under(st.prefixes0, Letter(name)), name, Psr0Path(name, ext))
  }

  function Candidates(st: State, name: string, ext: string): seq<string> {
    GuardedFiles(st, name, ext) + InDirs(st.fallback, Tail(name, ext, 0)) +
    Psr0Files(st, name, ext) + InDirs(st.fallback0, Psr0Path(name, ext))
  }

  function FirstExisting(files: seq<string>, isFile: string -> bool): Option<string> {
    if files == [] then None
    else if isFile(files[0]) then Some(files[0])
    else FirstExisting(files[1..], isFile)
  }

  function Find(st: State, name: string, ext: string, world: World): Option<string> {
    match FirstExisting(Candidates(st, name, ext), world.isFile)
    case Some(file) => Some(file)
    case None => if st.useIncludePath then world.includePath(Psr0Path(name, ext)) else None
  }

  /** A search that asks the disk. */
  function Search(st: State, name: string, world: World): Option<string> {
    match Find(st, name, ".php", world)
    case Some(file) => Some(file)
    case None => if world.hhvm then Find(st, name, ".hh", world) else None
  }

  /** The answer of a loader that remembers these names as missing. */
  function CachedAnswer(st: State, missing: set<string>, name: string, world: World): Option<string> {
    if name in st.classMap then Some(st.classMap[name])
    else if st.authoritative || name in missing then None
    else Search(st, name, world)
  }

  /** The answer of a loader that remembers nothing. */
  function Answer(st: State, name: string, world: World): Option<string> { CachedAnswer(st, {}, name, world) }

  /** What it remembers then. */
  function CacheAfter(st: State, missing: set<string>, name: string, world: World): set<string> {
    if name in st.classMap || st.authoritative || Search(st, name, world).Some? then missing else missing + {name}
  }

  lemma {:induction false} FirstOfBoth(a: seq<string>, b: seq<string>, isFile: string -> bool)
    ensures FirstExisting(a + b, isFile) ==
            if FirstExisting(a, isFile).Some? then FirstExisting(a, isFile) else FirstExisting(b, isFile)
  {
    if a == [] {
      assert a + b == b;
    } else {
      assert (a + b)[1..] == a[1..] + b;
      FirstOfBoth(a[1..], b, isFile);
    }
  }

  // ----- which prefixes are tried -------------------------------------------------------------------------

  /** The registered prefixes of a name up to `n` characters, longest first. */
  function PrefixesOf(st: State, name: string, n: nat): seq<string>
    requires n <= |name|
  {
    if n == 0 then [] else (if name[..n] in st.dirs then [name[..n]] else []) + PrefixesOf(st, name, n - 1)
  }

  /** The longer of two comes first. */
  predicate Shrinking(list: seq<string>) {
    forall i, j :: 0 <= i < j < |list| ==> |list[j]| < |list[i]|
  }

  lemma LongestFirst(first: string, rest: seq<string>)
    requires (forall p :: p in rest ==> |p| < |first|) && Shrinking(rest)
    ensures Shrinking([first] + rest)
  {
    var all := [first] + rest;
    forall i, j | 0 <= i < j < |all| ensures |all[j]| < |all[i]| {
      assert all[j] == rest[j - 1] && all[j] in rest;
      if i > 0 { assert all[i] == rest[i - 1]; }
    }
  }

  /** They are exactly the registered prefixes, each tried before every shorter one. */
  lemma {:induction false} PrefixesAreAll(st: State, name: string, n: nat)
    requires n <= |name|
    ensures forall p :: p in PrefixesOf(st, name, n) <==> p in st.dirs && p <= name && 0 < |p| <= n
    ensures Shrinking(PrefixesOf(st, name, n))
  {
    if n > 0 {
      PrefixesAreAll(st, name, n - 1);
      var rest, all := PrefixesOf(st, name, n - 1), PrefixesOf(st, name, n);
      assert all == if name[..n] in st.dirs then [name[..n]] + rest else rest;
      hide PrefixesOf, Shrinking;
      LongestFirst(name[..n], rest);
      forall p ensures p in all <==> p in st.dirs && p <= name && 0 < |p| <= n {
        if p <= name && |p| == n { assert p == name[..n]; }
      }
    }
  }

  function AllFilesOf(st: State, name: string, ext: string, prefixes: seq<string>): seq<string> {
    if prefixes == [] then [] else FilesOf(st, name, ext, prefixes[0]) + AllFilesOf(st, name, ext, prefixes[1..])
  }

  /** So PSR-4 tries the directories of every registered prefix, the longest first. */
  lemma {:induction false} TriesEveryPrefix(st: State, name: string, ext: string, n: nat)
    requires n <= |name|
    ensures PrefixFiles(st, name, ext, n) == AllFilesOf(st, name, ext, PrefixesOf(st, name, n))
  {
    hide FilesOf;
    if n > 0 {
      TriesEveryPrefix(st, name, ext, n - 1);
      if name[..n] in st.dirs {
        assert PrefixesOf(st, name, n)[1..] == PrefixesOf(st, name, n - 1);
      } else {
        assert PrefixesOf(st, name, n) == PrefixesOf(st, name, n - 1);
        NoFiles(st, name, ext, name[..n]);
      }
    }
  }

  lemma NoFiles(st: State, name: string, ext: string, prefix: string)
    requires prefix !in st.dirs
    ensures FilesOf(st, name, ext, prefix) == []
  {
  }

  // ----- the loader itself --------------------------------------------------------------------------------

  /** Characters the chopping loop passes over end no registered prefix. */
  lemma {:induction false} NothingBetween(st: State, name: string, ext: string, n: nat, m: nat)
    requires Agree(st.lengths, st.dirs.Keys) && m <= n <= |name|
    requires forall i :: m <= i < n ==> name[i] != '\\'
    ensures PrefixFiles(st, name, ext, n) == PrefixFiles(st, name, ext, m)
  {
    hide FilesOf;
    if m < n {
      assert name[..n][n - 1] == name[n - 1];
      assert !IsNamespace(name[..n]);
      NoFiles(st, name, ext, name[..n]);
      NothingBetween(st, name, ext, n - 1, m);
    }
  }

  lemma {:induction false} NoneAfterLast(s: string, c: char)
    ensures LastIndex(s, c).None? ==> c !in s
    ensures LastIndex(s, c).Some? ==> forall i :: LastIndex(s, c).value < i < |s| ==> s[i] != c
  {
    if s != "" && s[|s| - 1] != c {
      NoneAfterLast(s[..|s| - 1], c);
      assert forall i :: 0 <= i < |s| - 1 ==> s[i] == s[..|s| - 1][i];
    }
  }

  /** A letter without an index has no registered prefix. */
  lemma {:induction false} LetterUnknown(st: State, name: string, ext: string, n: nat)
    requires Agree(st.lengths, st.dirs.Keys) && n <= |name| && (name != "" ==> Letter(name) !in st.lengths)
    ensures PrefixFiles(st, name, ext, n) == []
  {
    if n > 0 {
      assert name[..n][..1] == Letter(name);
      LetterUnknown(st, name, ext, n - 1);
    }
  }

  lemma {:induction false} ChoppingLosesNothing(st: State, name: string, ext: string, n: nat)
    requires Agree(st.lengths, st.dirs.Keys) && n <= |name|
    ensures ChoppedFiles(st, name, ext, n) == PrefixFiles(st, name, ext, n)
  {
    hide FilesOf, Agree;
    NoneAfterLast(name[..n], '\\');
    match LastIndex(name[..n], '\\')
    case None =>
      forall i | 0 <= i < n ensures name[i] != '\\' { assert name[i] == name[..n][i]; }
      NothingBetween(st, name, ext, n, 0);
    case Some(pos) =>
      forall i | pos < i < n ensures name[i] != '\\' { assert name[i] == name[..n][i]; }
      NothingBetween(st, name, ext, n, pos + 1);
      ChoppingLosesNothing(st, name, ext, pos);
  }

  /** While the two indexes agree, chopping behind the guard finds what trying every registered
      prefix finds, in the same order. */
  lemma GuardedIsEveryPrefix(st: State, name: string, ext: string)
    requires Agree(st.lengths, st.dirs.Keys)
    ensures GuardedFiles(st, name, ext) == PrefixFiles(st, name, ext, |name|)
  {
    hide FilesOf, Agree;
    if name == "" || Letter(name) !in st.lengths {
      LetterUnknown(st, name, ext, |name|);
    } else {
      ChoppingLosesNothing(st, name, ext, |name|);
    }
  }

  /** One turn of the chopping loop. */
  lemma ChoppedAt(st: State, name: string, ext: string, n: nat, isFile: string -> bool)
    requires n <= |name|
    ensures FirstExisting(ChoppedFiles(st, name, ext, n), isFile) ==
            match LastIndex(name[..n], '\\')
            case None => None
            case Some(pos) =>
              var here := FirstExisting(FilesOf(st, name, ext, name[..pos + 1]), isFile);
              if here.Some? then here else FirstExisting(ChoppedFiles(st, name, ext, pos), isFile)
  {
    hide FilesOf;
    if pos :| LastIndex(name[..n], '\\') == Some(pos) {
      hide FirstExisting;
      FirstOfBoth(FilesOf(st, name, ext, name[..pos + 1]), ChoppedFiles(st, name, ext, pos), isFile);
    }
  }

  /** One `foreach` over directories. */
  method FirstIn(dirs: seq<string>, tail: string, isFile: string -> bool) returns (file: Option<string>)
    ensures file == FirstExisting(InDirs(dirs, tail), isFile)
  {
    for i := 0 to |dirs|
      invariant FirstExisting(InDirs(dirs, tail), isFile) == FirstExisting(InDirs(dirs[i..], tail), isFile)
    {
      var candidate := dirs[i] + ("/" + tail);
      assert dirs[i..][1..] == dirs[i + 1..];
      assert InDirs(dirs[i..], tail)[1..] == InDirs(dirs[i + 1..], tail);
      if isFile(candidate) { return Some(candidate); }
    }
    assert dirs[|dirs|..] == [];
    file := None;
  }

  class Loader {
    var prefixLengthsPsr4: map<string, map<string, nat>>
    var prefixDirsPsr4: map<string, seq<string>>
    var fallbackDirsPsr4: seq<string>
    var prefixesPsr0: map<string, seq<(string, seq<string>)>>
    var fallbackDirsPsr0: seq<string>
    var classMap: map<string, string>
    var classMapAuthoritative: bool
    var useIncludePath: bool
    var missingClasses: set<string>

    function Contents(): State
      reads this
    {
      State(prefixLengthsPsr4, prefixDirsPsr4, fallbackDirsPsr4, prefixesPsr0, fallbackDirsPsr0, classMap,
            classMapAuthoritative, useIncludePath)
    }

    ghost predicate Valid()
      reads this
    {
      Agree(prefixLengthsPsr4, prefixDirsPsr4.Keys)
    }

    constructor ()
      ensures Valid() && Contents() == EMPTY && missingClasses == {}
    {
      prefixLengthsPsr4, prefixDirsPsr4, fallbackDirsPsr4 := map[], map[], [];
      prefixesPsr0, fallbackDirsPsr0 := map[], [];
      classMap, classMapAuthoritative, useIncludePath := map[], false, false;
      missingClasses := {};
    }

    method Set(prefix: string, paths: seq<string>)
      requires Valid()
      modifies `prefixesPsr0, `fallbackDirsPsr0
      ensures Valid() && Contents() == Psr0Set(old(Contents()), prefix, paths)
    {
      if IsFalsy(prefix) {
        fallbackDirsPsr0 := paths;
      } else {
        prefixesPsr0 := prefixesPsr0[Letter(prefix) := Assigned(Under(prefixesPsr0, Letter(prefix)), prefix, paths)];
      }
    }

    method Add(prefix: string, paths: seq<string>, prepend: bool)
      requires Valid()
      modifies `prefixesPsr0, `fallbackDirsPsr0
      ensures Valid() && Contents() == Psr0Added(old(Contents()), prefix, paths, prepend)
    {
      if IsFalsy(prefix) {
        fallbackDirsPsr0 := if prepend then paths + fallbackDirsPsr0 else fallbackDirsPsr0 + paths;
        return;
      }
      var earlier := EntryOf(Under(prefixesPsr0, Letter(prefix)), prefix);
      if earlier.None? {
        Set(prefix, paths);
      } else if prepend {
        Set(prefix, paths + earlier.value);
      } else {
        Set(prefix, earlier.value + paths);
      }
    }

    method SetPsr4(prefix: string, paths: seq<string>) returns (ok: bool)
      requires Valid()
      modifies `prefixLengthsPsr4, `prefixDirsPsr4, `fallbackDirsPsr4
      ensures Valid() && ok == Psr4Set(old(Contents()), prefix, paths).Some?
      ensures Contents() == if ok then Psr4Set(old(Contents()), prefix, paths).value else old(Contents())
    {
      SetPsr4Agrees(Contents(), prefix, paths);
      if IsFalsy(prefix) {
        fallbackDirsPsr4 := paths;
        return true;
      }
      if prefix[|prefix| - 1] != '\\' { return false; }
      prefixLengthsPsr4 := Indexed(prefixLengthsPsr4, prefix);
      prefixDirsPsr4 := prefixDirsPsr4[prefix := paths];
      ok := true;
    }

    method AddPsr4(prefix: string, paths: seq<string>, prepend: bool) returns (ok: bool)
      requires Valid()
      modifies `prefixLengthsPsr4, `prefixDirsPsr4, `fallbackDirsPsr4
      ensures Valid() && ok == Psr4Added(old(Contents()), prefix, paths, prepend).Some?
      ensures Contents() == if ok then Psr4Added(old(Contents()), prefix, paths, prepend).value else old(Contents())
    {
      hide Agree, Indexed;
      AddPsr4Agrees(Contents(), prefix, paths, prepend);
      ok := true;
      if IsFalsy(prefix) {
        fallbackDirsPsr4 := if prepend then paths + fallbackDirsPsr4 else fallbackDirsPsr4 + paths;
      } else if prefix !in prefixDirsPsr4 {
        ok := SetPsr4(prefix, paths);
      } else if prepend {
        prefixDirsPsr4 := prefixDirsPsr4[prefix := paths + prefixDirsPsr4[prefix]];
      } else {
        prefixDirsPsr4 := prefixDirsPsr4[prefix := prefixDirsPsr4[prefix] + paths];
      }
    }

    /** PSR-4 lookup, behind its guard. */
    method FindByPrefix(name: string, ext: string, isFile: string -> bool) returns (file: Option<string>)
      ensures file == FirstExisting(GuardedFiles(Contents(), name, ext), isFile)
      ensures Valid() ==> file == FirstExisting(PrefixFiles(Contents(), name, ext, |name|), isFile)
    {
      if Valid() { GuardedIsEveryPrefix(Contents(), name, ext); }
      hide Agree, FilesOf, PrefixFiles, ChoppedFiles, LastIndex;
      if name == "" || Letter(name) !in prefixLengthsPsr4 { return None; }
      file := FindByChopping(name, ext, isFile);
    }

    /** The loop that chops the name at its backslashes. */
    method FindByChopping(name: string, ext: string, isFile: string -> bool) returns (file: Option<string>)
      ensures file == FirstExisting(ChoppedFiles(Contents(), name, ext, |name|), isFile)
    {
      hide FilesOf, FirstExisting, ChoppedFiles, LastIndex;
      ghost var st := Contents();
      var n := |name|;
      var lastPos := LastIndex(name[..n], '\\');
      while lastPos.Some?
        invariant n <= |name| && lastPos == LastIndex(name[..n], '\\')
        invariant FirstExisting(ChoppedFiles(st, name, ext, |name|), isFile) == FirstExisting(ChoppedFiles(st, name, ext, n), isFile)
        decreases n
      {
        ChoppedAt(st, name, ext, n, isFile);
        file := FindUnderPrefix(name, ext, lastPos.value, isFile);
        if file.Some? { return; }
        n := lastPos.value;
        lastPos := LastIndex(name[..n], '\\');
      }
      ChoppedAt(st, name, ext, n, isFile);
      file := None;
    }

    /** The prefix that ends at a backslash. */
    method FindUnderPrefix(name: string, ext: string, pos: nat, isFile: string -> bool) returns (file: Option<string>)
      requires pos < |name|
      ensures file == FirstExisting(FilesOf(Contents(), name, ext, name[..pos + 1]), isFile)
    {
      hide InDirs, Tail;
      var search := name[..pos + 1];
      assert search <= name;
      if search in prefixDirsPsr4 {
        file := FirstIn(prefixDirsPsr4[search], Tail(name, ext, pos + 1), isFile);
      } else {
        file := None;
      }
    }

    method FindByPsr0(name: string, ext: string, isFile: string -> bool) returns (file: Option<string>)
      ensures file == FirstExisting(Psr0Files(Contents(), name, ext), isFile)
    {
      if name == "" { return None; }
      var entries := Under(prefixesPsr0, Letter(name));
      var path := Psr0Path(name, ext);
      for i := 0 to |entries|
        invariant FirstExisting(MatchingFiles(entries, name, path), isFile) ==
                  FirstExisting(MatchingFiles(entries[i..], name, path), isFile)
      {
        assert entries[i..][1..] == entries[i + 1..];
        FirstOfBoth(if entries[i].0 <= name then InDirs(entries[i].1, path) else [], MatchingFiles(entries[i + 1..], name, path), isFile);
        if entries[i].0 <= name {
          file := FirstIn(entries[i].1, path, isFile);
          if file.Some? { return; }
        }
      }
      assert entries[|entries|..] == [];
      file := None;
    }

    method FindFileWithExtension(name: string, ext: string, world: World) returns (file: Option<string>)
      ensures file == Find(Contents(), name, ext, world)
    {
      ghost var st := Contents();
      ghost var a, b := GuardedFiles(st, name, ext), InDirs(st.fallback, Tail(name, ext, 0));
      ghost var c, d := Psr0Files(st, name, ext), InDirs(st.fallback0, Psr0Path(name, ext));
      FirstOfBoth(a + b + c, d, world.isFile);
      FirstOfBoth(a + b, c, world.isFile);
      FirstOfBoth(a, b, world.isFile);
      file := FindByPrefix(name, ext, world.isFile);
      if file.Some? { return; }
      file := FirstIn(fallbackDirsPsr4, Tail(name, ext, 0), world.isFile);
      if file.Some? { return; }
      file := FindByPsr0(name, ext, world.isFile);
      if file.Some? { return; }
      file := FirstIn(fallbackDirsPsr0, Psr0Path(name, ext), world.isFile);
      if file.Some? { return; }
      if useIncludePath { file := world.includePath(Psr0Path(name, ext)); }
    }

    /** No name in the negative cache could be found. */
    ghost predicate Remembers(world: World)
      reads this
    {
      forall name :: name in missingClasses ==> name in classMap || Search(Contents(), name, world).None?
    }

    method AddClassMap(added: map<string, string>)
      requires Valid()
      modifies `classMap
      ensures Valid() && Contents() == ClassesAdded(old(Contents()), added)
      ensures forall world :: old(Remembers(world)) ==> Remembers(world)
    {
      classMap := classMap + added;
      assert forall name, world :: Search(Contents(), name, world) == Search(old(Contents()), name, world) by {
        forall name, world ensures Search(Contents(), name, world) == Search(old(Contents()), name, world) {
          SearchIgnoresClassMap(old(Contents()), Contents(), name, world);
        }
      }
    }

    /** Whatever is in the negative cache: the class map, then the cache, then the search, whose
        failure is remembered. With nothing changed since names were found missing, the answer is
        that of a loader without such a cache, and the cache stays right. */
    method FindFile(name: string, world: World) returns (file: Option<string>)
      modifies `missingClasses
      ensures Contents() == old(Contents())
      ensures file == CachedAnswer(Contents(), old(missingClasses), name, world)
      ensures missingClasses == CacheAfter(Contents(), old(missingClasses), name, world)
      ensures old(Remembers(world)) ==> file == Answer(Contents(), name, world) && Remembers(world)
    {
      if name in classMap { return Some(classMap[name]); }
      if classMapAuthoritative || name in missingClasses { return None; }
      file := FindFileWithExtension(name, ".php", world);
      if file.None? && world.hhvm { file := FindFileWithExtension(name, ".hh", world); }
      if file.None? { missingClasses := missingClasses + {name}; }
    }
  }

  /** The negative cache is right exactly when a loader without one answers with nothing for each of its names
      that the class map does not have; so an empty one is. */
  lemma RemembersIff(loader: Loader, world: World)
    requires !loader.classMapAuthoritative
    ensures loader.Remembers(world) <==>
            forall name :: name in loader.missingClasses && name !in loader.classMap ==> Answer(loader.Contents(), name, world).None?
    ensures loader.missingClasses == {} ==> loader.Remembers(world)
  {
    hide Search;
  }

  lemma SearchIgnoresClassMap(st: State, st': State, name: string, world: World)
    requires st' == st.(classMap := st'.classMap)
    ensures Search(st', name, world) == Search(st, name, world)
  {
    SameCandidates(st, st', name, ".php");
    SameCandidates(st, st', name, ".hh");
  }

  lemma SameCandidates(st: State, st': State, name: string, ext: string)
    requires st' == st.(classMap := st'.classMap)
    ensures Candidates(st', name, ext) == Candidates(st, name, ext)
  {
    SameChoppedFiles(st, st', name, ext, |name|);
  }

  lemma {:induction false} SameChoppedFiles(st: State, st': State, name: string, ext: string, n: nat)
    requires st' == st.(classMap := st'.classMap) && n <= |name|
    ensures ChoppedFiles(st', name, ext, n) == ChoppedFiles(st, name, ext, n)
  {
    if LastIndex(name[..n], '\\').Some? { SameChoppedFiles(st, st', name, ext, LastIndex(name[..n], '\\').value); }
  }

  /** A lookup that fails makes every later one fail, whatever is registered in between: the answer
      is the right one if and only if the name came into the class map, or still is not found. */
  lemma StaysMissing(st: State, missing: set<string>, st': State, name: string, world: World, world': World)
    requires CachedAnswer(st, missing, name, world).None? && !st.authoritative
    ensures name in CacheAfter(st, missing, name, world)
    ensures var answer := CachedAnswer(st', CacheAfter(st, missing, name, world), name, world');
            && (name !in st'.classMap ==> answer.None?)
            && (answer == Answer(st', name, world') <==>
                name in st'.classMap || st'.authoritative || Search(st', name, world').None?)
  {
    hide Search;
  }

  /** A registration after a failed lookup is not seen: the name stays in the negative cache although
      a loader without one would now find the file. */
  lemma RegistrationComesTooLate(name: string, dir: string, world: World)
    requires name != "" && world.isFile(dir + ("/" + Tail(name, ".php", 0)))
    ensures Psr4Added(EMPTY, "", [dir], false).Some?
    ensures var registered := Psr4Added(EMPTY, "", [dir], false).value;
            && CachedAnswer(EMPTY, {}, name, world).None?
            && CachedAnswer(registered, CacheAfter(EMPTY, {}, name, world), name, world).None?
            && Answer(registered, name, world) == Some(dir + ("/" + Tail(name, ".php", 0)))
  {
    hide Candidates, Tail;
    OnlyFallback(EMPTY, name, ".php");
    OnlyFallback(EMPTY, name, ".hh");
    assert [] + [dir] == [dir];
    OnlyFallback(EMPTY.(fallback := [dir]), name, ".php");
    assert [dir][1..] == [];
  }

  lemma OnlyFallback(st: State, name: string, ext: string)
    requires name != "" && st == EMPTY.(fallback := st.fallback)
    ensures Candidates(st, name, ext) == InDirs(st.fallback, Tail(name, ext, 0))
  {
    hide Tail, Psr0Path, InDirs;
    assert GuardedFiles(st, name, ext) == [];
    var files := InDirs(st.fallback, Tail(name, ext, 0));
    assert InDirs([], Psr0Path(name, ext)) == [] by { NoDirs(Psr0Path(name, ext)); }
    assert Psr0Files(st, name, ext) == [];
    assert [] + files + [] + [] == files;
  }

  lemma NoDirs(tail: string)
    ensures InDirs([], tail) == []
  {
  }
}
