/** Which prefixes the optimised autoloader compiles so that no lookup can tell, in maps of any size:
    the answers of StaticCompiler's two loaders, whatever directories are declared. */
module StaticAnswers {
  import opened Common
  import opened ClassLoader
  import opened StaticCompiler
  import Text

  /** The same prefixes in the same order, each with some directory. */
  predicate SamePrefixes(entries: TypeMap, like: TypeMap) {
    |entries| == |like| && forall i :: 0 <= i < |like| ==> entries[i].0 == like[i].0 && entries[i].1 != []
  }

  /** Whatever directories these prefixes are given. */
  ghost predicate SameForAllDirectories(psr4: TypeMap, psr0: TypeMap)
    requires AllText(psr4) && AllText(psr0)
  {
    forall psr4', psr0' | SamePrefixes(psr4', psr4) && SamePrefixes(psr0', psr0) :: SameEverywhere(psr4', psr0')
  }

  /** Good, or a `0` behind which the empty namespace comes: `setPsr4` takes `0` for the empty one, whose
      directories then replace those of `0`. */
  predicate Harmless4(psr4: TypeMap, i: nat)
    requires i < |psr4|
  {
    Good4(psr4[i].0) || (psr4[i].0 == "0" && exists j :: i < j < |psr4| && psr4[j].0 == "")
  }

  predicate AllHarmless4(psr4: TypeMap) { forall i: nat :: i < |psr4| ==> Harmless4(psr4, i) }

  function CompiledOf(psr4: TypeMap, psr0: TypeMap): State
    requires AllText(psr4) && AllText(psr0)
  {
    Denoted(Compiled0(psr0, Compiled4(psr4, NOTHING)), map[])
  }

  // ----- what the PSR-4 entries give -------------------------------------------------------------------------

  /** Both loaders know the same namespaces, with the same directories. */
  lemma {:induction false} SameDirs(psr4: TypeMap, p: string)
    requires AllText(psr4) && IsNamespace(p) && Replay4(psr4, EMPTY).Some?
    ensures var dirs, dirs' := PairsOf(Compiled4(psr4, NOTHING).dirs), Replay4(psr4, EMPTY).value.dirs;
            (p in dirs <==> p in dirs') && (p in dirs ==> dirs[p] == dirs'[p])
    decreases |psr4|
  {
    hide Compiled4, Replay4, AllText, PairsOf;
    if psr4 == [] {
      NoDirs();
    } else {
      DirsStep(psr4);
      SameDirs(psr4[..|psr4| - 1], p);
    }
  }

  lemma NoDirs()
    ensures PairsOf(Compiled4([], NOTHING).dirs) == map[] && Replay4([], EMPTY) == Some(EMPTY)
  {
  }

  lemma DirsStep(psr4: TypeMap)
    requires AllText(psr4) && psr4 != []
    ensures AllText(psr4[..|psr4| - 1])
    ensures var (ns, paths) := psr4[|psr4| - 1];
            var dirs := PairsOf(Compiled4(psr4[..|psr4| - 1], NOTHING).dirs);
            PairsOf(Compiled4(psr4, NOTHING).dirs) == if ns == "" then dirs else dirs[ns := paths]
    ensures Replay4(psr4, EMPTY).Some? ==>
              var (ns, paths) := psr4[|psr4| - 1];
              && Replay4(psr4[..|psr4| - 1], EMPTY).Some? && (IsFalsy(ns) || IsNamespace(ns))
              && var dirs := Replay4(psr4[..|psr4| - 1], EMPTY).value.dirs;
                 Replay4(psr4, EMPTY).value.dirs == if IsFalsy(ns) then dirs else dirs[ns := paths]
  {
    hide PairsOf, PushUnder, Indexed;
    PairsPushed(Compiled4(psr4[..|psr4| - 1], NOTHING).dirs, psr4[|psr4| - 1].0, psr4[|psr4| - 1].1);
  }

  lemma {:induction false} DirsAreKeys(psr4: TypeMap, p: string)
    requires AllText(psr4) && p in PairsOf(Compiled4(psr4, NOTHING).dirs)
    ensures exists i: nat :: i < |psr4| && psr4[i].0 == p
    decreases |psr4|
  {
    if psr4 != [] {
      var n: nat := |psr4| - 1;
      hide Compiled4, Replay4, PairsOf;
      DirsStep(psr4);
      if p in PairsOf(Compiled4(psr4[..n], NOTHING).dirs) {
        DirsAreKeys(psr4[..n], p);
        var i: nat :| i < n && psr4[..n][i].0 == p;
        assert psr4[i].0 == p;
      }
    }
  }

  /** The last namespace that is empty or `0` gives the directories to fall back to. */
  lemma {:induction false} ReplayedFallback(psr4: TypeMap, j: nat)
    requires Replay4(psr4, EMPTY).Some? && j < |psr4| && IsFalsy(psr4[j].0)
    requires forall k :: j < k < |psr4| ==> !IsFalsy(psr4[k].0)
    ensures Replay4(psr4, EMPTY).value.fallback == psr4[j].1
    decreases |psr4|
  {
    if j < |psr4| - 1 { ReplayedFallback(psr4[..|psr4| - 1], j); }
  }

  lemma {:induction false} NoReplayedFallback(psr4: TypeMap)
    requires Replay4(psr4, EMPTY).Some? && forall k :: 0 <= k < |psr4| ==> !IsFalsy(psr4[k].0)
    ensures Replay4(psr4, EMPTY).value.fallback == []
    decreases |psr4|
  {
    if psr4 != [] { NoReplayedFallback(psr4[..|psr4| - 1]); }
  }

  lemma {:induction false} CompiledFallback(psr4: TypeMap, j: nat)
    requires AllText(psr4) && Distinct(psr4) && j < |psr4| && psr4[j].0 == ""
    ensures Compiled4(psr4, NOTHING).fallback == psr4[j].1
    decreases |psr4|
  {
    var before := psr4[..|psr4| - 1];
    if j < |psr4| - 1 { CompiledFallback(before, j); } else { NoFallbackYet(before); }
  }

  lemma SameFallback(psr4: TypeMap)
    requires AllText(psr4) && Distinct(psr4) && AllHarmless4(psr4) && Replay4(psr4, EMPTY).Some?
    ensures Compiled4(psr4, NOTHING).fallback == Replay4(psr4, EMPTY).value.fallback
  {
    forall i: nat | i < |psr4| && psr4[i].0 == "0" ensures exists j :: i < j < |psr4| && psr4[j].0 == "" {
      assert Harmless4(psr4, i);
    }
    hide Compiled4, Replay4, Harmless4;
    if j: nat :| j < |psr4| && psr4[j].0 == "" {
      CompiledFallback(psr4, j);
      ReplayedFallback(psr4, j);
    } else {
      NoFallbackYet(psr4);
      NoReplayedFallback(psr4);
    }
  }

  lemma {:induction false} HarmlessIsAccepted(psr4: TypeMap)
    requires forall i: nat :: i < |psr4| ==> IsFalsy(psr4[i].0) || IsNamespace(psr4[i].0)
    ensures Replay4(psr4, EMPTY).Some?
    decreases |psr4|
  {
    if psr4 != [] { HarmlessIsAccepted(psr4[..|psr4| - 1]); }
  }

  // ----- chopping -----------------------------------------------------------------------------------------------

  lemma {:induction false} SameChopped(a: State, b: State, name: string, ext: string, n: nat)
    requires n <= |name| && forall p :: IsNamespace(p) ==> FilesOf(a, name, ext, p) == FilesOf(b, name, ext, p)
    ensures ChoppedFiles(a, name, ext, n) == ChoppedFiles(b, name, ext, n)
    decreases n
  {
    hide FilesOf;
    if pos :| Text.LastIndex(name[..n], '\\') == Some(pos) {
      assert IsNamespace(name[..pos + 1]);
      SameChopped(a, b, name, ext, pos);
    }
  }

  lemma {:induction false} NothingChopped(st: State, name: string, ext: string, n: nat)
    requires n <= |name| && forall p :: IsNamespace(p) ==> FilesOf(st, name, ext, p) == []
    ensures ChoppedFiles(st, name, ext, n) == []
    decreases n
  {
    hide FilesOf;
    if pos :| Text.LastIndex(name[..n], '\\') == Some(pos) {
      assert IsNamespace(name[..pos + 1]);
      NothingChopped(st, name, ext, pos);
    }
  }

  /** A compiled namespace stands under its letter. */
  lemma LetterIsThere(psr4: TypeMap, p: string)
    requires AllText(psr4) && AllHarmless4(psr4) && IsNamespace(p) && p in PairsOf(Compiled4(psr4, NOTHING).dirs)
    ensures Letter(p) in LengthsOf(Compiled4(psr4, NOTHING).lengths)
  {
    hide Compiled4, LengthsOf;
    DirsAreKeys(psr4, p);
    var i: nat :| i < |psr4| && psr4[i].0 == p;
    assert Harmless4(psr4, i);
    CompiledEntry4(psr4, i);
    assert FirstChar(p) == Letter(p);
  }

  /** Behind a letter the compiled index does not have there is no namespace either. */
  lemma UnguardedIsUnknown(psr4: TypeMap, psr0: TypeMap, name: string, ext: string, p: string)
    requires AllText(psr4) && AllText(psr0) && AllHarmless4(psr4) && IsNamespace(p)
    requires name == "" || Letter(name) !in CompiledOf(psr4, psr0).lengths
    ensures FilesOf(CompiledOf(psr4, psr0), name, ext, p) == []
  {
    DirsKept(psr4, psr0);
    hide CompiledOf, Compiled4, LengthsOf, PairsOf;
    if p in CompiledOf(psr4, psr0).dirs { LetterIsThere(psr4, p); }
  }

  /** The PSR-0 loop leaves the PSR-4 arrays alone. */
  lemma DirsKept(psr4: TypeMap, psr0: TypeMap)
    requires AllText(psr4) && AllText(psr0)
    ensures var s, st := Compiled4(psr4, NOTHING), CompiledOf(psr4, psr0);
            && st.dirs == PairsOf(s.dirs) && st.lengths == LengthsOf(s.lengths) && st.fallback == s.fallback
            && st.classMap == map[] && !st.authoritative && !st.useIncludePath
  {
    hide LengthsOf, PairsOf, PrefixesOf0, Compiled4;
    OnlyPsr0(psr0, Compiled4(psr4, NOTHING));
  }

  lemma {:induction false} OnlyPsr0(psr0: TypeMap, s: Statics)
    requires AllText(psr0)
    ensures var t := Compiled0(psr0, s); t.lengths == s.lengths && t.dirs == s.dirs && t.fallback == s.fallback
    decreases |psr0|
  {
    if psr0 != [] { OnlyPsr0(psr0[..|psr0| - 1], s); }
  }

  /** The replayed loader, but for its class map. */
  lemma {:induction false} OnlyPsr0Replayed(psr0: TypeMap, st: State)
    ensures var t := Replay0(psr0, st);
            && t.lengths == st.lengths && t.dirs == st.dirs && t.fallback == st.fallback && t.classMap == st.classMap
            && t.authoritative == st.authoritative && t.useIncludePath == st.useIncludePath
    decreases |psr0|
  {
    hide Assigned, Under;
    if psr0 != [] { OnlyPsr0Replayed(psr0[..|psr0| - 1], st); }
  }

  // ----- harmless prefixes do not show -----------------------------------------------------------------------------

  lemma HarmlessIsAcceptable(psr4: TypeMap)
    requires AllHarmless4(psr4)
    ensures Replay4(psr4, EMPTY).Some?
  {
    forall i: nat | i < |psr4| ensures IsFalsy(psr4[i].0) || IsNamespace(psr4[i].0) { assert Harmless4(psr4, i); }
    HarmlessIsAccepted(psr4);
  }

  /** What registration leaves. */
  lemma ReplayedIs(psr4: TypeMap, psr0: TypeMap)
    requires Replay4(psr4, EMPTY).Some?
    ensures Replayed(psr4, psr0, map[]).Some?
    ensures var st, t := Replay4(psr4, EMPTY).value, Replayed(psr4, psr0, map[]).value;
            && t.lengths == st.lengths && t.dirs == st.dirs && t.fallback == st.fallback
            && t.prefixes0 == Replay0(psr0, st).prefixes0 && t.fallback0 == Replay0(psr0, st).fallback0
            && t.classMap == map[] && !t.authoritative && !t.useIncludePath
            && Agree(t.lengths, t.dirs.Keys) && st.prefixes0 == map[] && st.fallback0 == []
  {
    var st := Replay4(psr4, EMPTY).value;
    ReplayAgrees(psr4);
    ReplayedFlags(psr4);
    hide Replay4, Replay0, Agree;
    OnlyPsr0Replayed(psr0, st);
    var none: map<string, string> := map[];
    assert none + none == none;
  }

  lemma {:induction false} ReplayedFlags(psr4: TypeMap)
    requires Replay4(psr4, EMPTY).Some?
    ensures var st := Replay4(psr4, EMPTY).value;
            st.classMap == map[] && !st.authoritative && !st.useIncludePath && st.fallback0 == []
    decreases |psr4|
  {
    hide Indexed;
    if psr4 != [] { ReplayedFlags(psr4[..|psr4| - 1]); }
  }

  lemma SameGuarded(psr4: TypeMap, psr0: TypeMap, name: string, ext: string)
    requires AllText(psr4) && AllText(psr0) && AllHarmless4(psr4) && Replay4(psr4, EMPTY).Some?
    ensures Replayed(psr4, psr0, map[]).Some?
    ensures GuardedFiles(CompiledOf(psr4, psr0), name, ext) == GuardedFiles(Replayed(psr4, psr0, map[]).value, name, ext)
  {
    ReplayedIs(psr4, psr0);
    DirsKept(psr4, psr0);
    var c, r := CompiledOf(psr4, psr0), Replayed(psr4, psr0, map[]).value;
    hide CompiledOf, Replayed, Replay4, Compiled4, LengthsOf, PairsOf, Agree, AllHarmless4, ChoppedFiles;
    forall p | IsNamespace(p) ensures FilesOf(c, name, ext, p) == FilesOf(r, name, ext, p) { SameDirs(psr4, p); }
    SameChopped(c, r, name, ext, |name|);
    ChoppingLosesNothing(r, name, ext, |name|);
    GuardedIsEveryPrefix(r, name, ext);
    if name == "" || Letter(name) !in c.lengths {
      forall p | IsNamespace(p) ensures FilesOf(c, name, ext, p) == [] { UnguardedIsUnknown(psr4, psr0, name, ext, p); }
      NothingChopped(c, name, ext, |name|);
    }
  }

  lemma SameRest(psr4: TypeMap, psr0: TypeMap)
    requires AllText(psr4) && AllText(psr0) && Distinct(psr4) && Distinct(psr0) && AllHarmless4(psr4) && AllGood0(psr0)
    requires Replay4(psr4, EMPTY).Some?
    ensures Replayed(psr4, psr0, map[]).Some?
    ensures var c, r := CompiledOf(psr4, psr0), Replayed(psr4, psr0, map[]).value;
            && c.fallback == r.fallback && c.prefixes0 == r.prefixes0 && c.fallback0 == r.fallback0 && c.classMap == r.classMap
            && c.authoritative == r.authoritative && c.useIncludePath == r.useIncludePath
  {
    ReplayedIs(psr4, psr0);
    DirsKept(psr4, psr0);
    SameFallback(psr4);
    var s, st := Compiled4(psr4, NOTHING), Replay4(psr4, EMPTY).value;
    NoPrefixes0(psr4);
    NoFallback0(psr4);
    hide Replayed, Replay0, Replay4, Compiled4, Compiled0, PrefixesOf0, LengthsOf, PairsOf, AllGood0, AllHarmless4;
    Compiled0IsReplayed(psr0, s, st);
  }

  lemma {:induction false} NoFallback0(psr4: TypeMap)
    requires AllText(psr4)
    ensures Compiled4(psr4, NOTHING).fallback0 == []
    decreases |psr4|
  {
    if psr4 != [] { NoFallback0(psr4[..|psr4| - 1]); }
  }

  /** The same files to try give the same answer. */
  lemma SameSearch(a: State, b: State, name: string, world: World)
    requires a.classMap == b.classMap && a.authoritative == b.authoritative && a.useIncludePath == b.useIncludePath
    requires Candidates(a, name, ".php") == Candidates(b, name, ".php") && Candidates(a, name, ".hh") == Candidates(b, name, ".hh")
    ensures Answer(a, name, world) == Answer(b, name, world)
  {
    hide Candidates;
  }

  lemma HarmlessIsSame(psr4: TypeMap, psr0: TypeMap)
    requires AllText(psr4) && AllText(psr0) && Distinct(psr4) && Distinct(psr0) && AllHarmless4(psr4) && AllGood0(psr0)
    ensures SameEverywhere(psr4, psr0)
  {
    HarmlessIsAcceptable(psr4);
    ReplayedIs(psr4, psr0);
    SameRest(psr4, psr0);
    var c, r := CompiledOf(psr4, psr0), Replayed(psr4, psr0, map[]).value;
    assert c == Denoted(Compiled0(psr0, Compiled4(psr4, NOTHING)), map[]);
    hide CompiledOf, Denoted, Compiled0, Compiled4, Replayed, Replay4, AllHarmless4, AllGood0, GuardedFiles, Psr0Files, Answer;
    forall name, world ensures Answer(c, name, world) == Answer(r, name, world) {
      SameGuarded(psr4, psr0, name, ".php");
      SameGuarded(psr4, psr0, name, ".hh");
      assert Psr0Files(c, name, ".php") == Psr0Files(r, name, ".php") && Psr0Files(c, name, ".hh") == Psr0Files(r, name, ".hh") by {
        SamePsr0Files(c, r, name, ".php");
        SamePsr0Files(c, r, name, ".hh");
      }
      SameSearch(c, r, name, world);
    }
  }

  lemma SamePsr0Files(a: State, b: State, name: string, ext: string)
    requires a.prefixes0 == b.prefixes0
    ensures Psr0Files(a, name, ext) == Psr0Files(b, name, ext)
  {
  }

  // ----- all others do ------------------------------------------------------------------------------------------------

  /** Prefix `i` alone has its classes in `x`. */
  function Marked(entries: TypeMap, i: nat): TypeMap {
    seq(|entries|, j requires 0 <= j < |entries| => (entries[j].0, [if j == i then "x" else "y"]))
  }

  lemma MarkedIsLike(entries: TypeMap, i: nat)
    requires AllText(entries) && Distinct(entries)
    ensures SamePrefixes(Marked(entries, i), entries) && AllText(Marked(entries, i)) && Distinct(Marked(entries, i))
  {
  }

  /** A world with the files in `x`, and no others. */
  const MARKED := World(file => file != "" && file[0] == 'x', _ => None, false)

  predicate Hits(files: seq<string>) { exists file :: file in files && file != "" && file[0] == 'x' }

  lemma {:induction false} FirstHit(files: seq<string>)
    ensures FirstExisting(files, MARKED.isFile).Some? <==> Hits(files)
  {
    if files != [] {
      FirstHit(files[1..]);
      assert forall file :: file in files <==> file == files[0] || file in files[1..];
    }
  }

  lemma {:induction false} DirsHit(dirs: seq<string>, tail: string)
    requires forall d :: d in dirs ==> d == "x" || d == "y"
    ensures Hits(InDirs(dirs, tail)) <==> "x" in dirs
  {
    if dirs != [] {
      var first, rest := dirs[0] + ("/" + tail), InDirs(dirs[1..], tail);
      assert dirs[0] in dirs && forall d :: d in dirs <==> d == dirs[0] || d in dirs[1..];
      DirsHit(dirs[1..], tail);
      assert InDirs(dirs, tail) == [first] + rest;
      assert first[0] == 'x' <==> dirs[0] == "x";
      assert forall file :: file in [first] + rest <==> file == first || file in rest;
    }
  }

  lemma AnyHit(a: seq<string>, b: seq<string>)
    ensures Hits(a + b) <==> Hits(a) || Hits(b)
  {
  }

  lemma AnswerHits(st: State, name: string)
    requires st.classMap == map[] && !st.authoritative && !st.useIncludePath
    ensures Answer(st, name, MARKED).Some? <==>
            || Hits(GuardedFiles(st, name, ".php")) || Hits(InDirs(st.fallback, Tail(name, ".php", 0)))
            || Hits(Psr0Files(st, name, ".php")) || Hits(InDirs(st.fallback0, Psr0Path(name, ".php")))
  {
    FirstHit(Candidates(st, name, ".php"));
    var a, b := GuardedFiles(st, name, ".php"), InDirs(st.fallback, Tail(name, ".php", 0));
    var c, d := Psr0Files(st, name, ".php"), InDirs(st.fallback0, Psr0Path(name, ".php"));
    assert Candidates(st, name, ".php") == a + b + c + d;
    hide GuardedFiles, InDirs, Psr0Files, Hits, Candidates, Psr0Path, Tail;
    AnyHit(a, b);
    AnyHit(a + b, c);
    AnyHit(a + b + c, d);
  }

  predicate Plain(entries: TypeMap) { forall e :: e in entries ==> e.1 == ["x"] || e.1 == ["y"] }

  lemma {:induction false} MatchesHit(entries: TypeMap, name: string, path: string)
    requires Plain(entries)
    ensures Hits(MatchingFiles(entries, name, path)) <==> exists e :: e in entries && e.0 <= name && e.1 == ["x"]
  {
    if entries != [] {
      var e, rest := entries[0], entries[1..];
      assert e in entries && forall f :: f in entries <==> f == e || f in rest;
      MatchesHit(rest, name, path);
      DirsHit(e.1, path);
      AnyHit(if e.0 <= name then InDirs(e.1, path) else [], MatchingFiles(rest, name, path));
      hide InDirs;
    }
  }

  // ----- the marked loaders ----------------------------------------------------------------------------------------------

  /** Compiled PSR-0 entries stand under their first character. */
  lemma {:induction false} CompiledUnder(psr0: TypeMap, s: Statics, letter: string, e: (string, seq<string>))
    requires AllText(psr0) && s.prefixes0 == []
    ensures e in ListUnder(Compiled0(psr0, s).prefixes0, letter) <==> e in psr0 && e.0 != "" && FirstCharIs(e.0, letter)
    decreases |psr0|
  {
    if psr0 != [] {
      var before := psr0[..|psr0| - 1];
      var (ns, paths) := psr0[|psr0| - 1];
      CompiledUnder(before, s, letter, e);
      assert psr0 == before + [(ns, paths)];
      assert IsText(ns);
      hide FirstChar, AllText;
      if ns != "" { LookUpPushed(Compiled0(before, s).prefixes0, FirstChar(ns), (ns, paths), letter); }
    }
  }

  predicate FirstCharIs(ns: string, letter: string) { ns != "" && IsText(ns) && FirstChar(ns) == letter }

  /** Replayed ones are those PHP takes for prefixes, under their first byte. */
  lemma {:induction false} ReplayedUnder(psr0: TypeMap, st: State, letter: string, e: (string, seq<string>))
    requires st.prefixes0 == map[] && Distinct(psr0)
    ensures e in Under(Replay0(psr0, st).prefixes0, letter) <==> e in psr0 && !IsFalsy(e.0) && Letter(e.0) == letter
    decreases |psr0|
  {
    if psr0 != [] {
      var before := psr0[..|psr0| - 1];
      var (ns, paths) := psr0[|psr0| - 1];
      ReplayedUnder(before, st, letter, e);
      assert psr0 == before + [(ns, paths)];
      var list := Under(Replay0(before, st).prefixes0, letter);
      if !IsFalsy(ns) && Letter(ns) == letter {
        forall i | 0 <= i < |list| ensures list[i].0 != ns {
          ReplayedUnder(before, st, letter, list[i]);
          assert list[i] in before;
        }
        AssignedNew(list, ns, paths);
      }
      hide Assigned;
    }
  }

  /** The PSR-0 directories to fall back to. */
  lemma {:induction false} ReplayedFallback0(psr0: TypeMap, st: State, j: nat)
    requires j < |psr0| && IsFalsy(psr0[j].0) && forall k :: j < k < |psr0| ==> !IsFalsy(psr0[k].0)
    ensures Replay0(psr0, st).fallback0 == psr0[j].1
    decreases |psr0|
  {
    hide Assigned;
    if j < |psr0| - 1 { ReplayedFallback0(psr0[..|psr0| - 1], st, j); }
  }

  predicate InY(dirs: seq<string>) { forall d :: d in dirs ==> d == "y" }

  /** What the entries PHP takes for empty have in `y` only, the fallback has in `y` only. */
  lemma {:induction false} FallbacksInY(psr4: TypeMap)
    requires AllText(psr4)
    ensures (forall k :: 0 <= k < |psr4| && psr4[k].0 == "" ==> InY(psr4[k].1)) ==> InY(Compiled4(psr4, NOTHING).fallback)
    ensures (forall k :: 0 <= k < |psr4| && IsFalsy(psr4[k].0) ==> InY(psr4[k].1)) && Replay4(psr4, EMPTY).Some? ==>
              InY(Replay4(psr4, EMPTY).value.fallback)
    decreases |psr4|
  {
    if psr4 != [] {
      FallbacksInY(psr4[..|psr4| - 1]);
      hide Indexed, PushUnder;
    }
  }

  lemma {:induction false} Fallbacks0InY(psr0: TypeMap, s: Statics, st: State)
    requires AllText(psr0) && s.fallback0 == [] && st.fallback0 == []
    ensures (forall k :: 0 <= k < |psr0| && psr0[k].0 == "" ==> InY(psr0[k].1)) ==> InY(Compiled0(psr0, s).fallback0)
    ensures (forall k :: 0 <= k < |psr0| && IsFalsy(psr0[k].0) ==> InY(psr0[k].1)) ==> InY(Replay0(psr0, st).fallback0)
    decreases |psr0|
  {
    if psr0 != [] {
      Fallbacks0InY(psr0[..|psr0| - 1], s, st);
      hide Assigned, PushUnder;
    }
  }

  lemma {:induction false} LettersAreFirst(psr4: TypeMap, letter: string)
    requires AllText(psr4) && letter in LengthsOf(Compiled4(psr4, NOTHING).lengths)
    ensures exists i: nat :: i < |psr4| && FirstCharIs(psr4[i].0, letter)
    decreases |psr4|
  {
    if psr4 != [] {
      var before := psr4[..|psr4| - 1];
      var ns := psr4[|psr4| - 1].0;
      hide LengthsOf, PushUnder, FirstChar;
      if ns != "" { LengthsPushed(Compiled4(before, NOTHING).lengths, ns); }
      if letter in LengthsOf(Compiled4(before, NOTHING).lengths) {
        LettersAreFirst(before, letter);
        var i: nat :| i < |before| && FirstCharIs(before[i].0, letter);
        assert FirstCharIs(psr4[i].0, letter);
      } else {
        assert FirstCharIs(psr4[|psr4| - 1].0, letter);
      }
    }
  }

  /** The first byte of a longer character is no first character. */
  lemma NoSuchLetter(ns: string, key: string)
    requires ns != "" && !IsAscii(ns)
    ensures !FirstCharIs(key, Letter(ns))
  {
    if key != "" && IsText(key) { assert FirstChar(key)[0] == key[0]; }
  }

  lemma NoneGuarded(psr4: TypeMap, psr0: TypeMap, name: string)
    requires AllText(psr4) && AllText(psr0)
    requires name == "A" || name == "0" || (name != "" && !IsAscii(name))
    ensures GuardedFiles(CompiledOf(psr4, psr0), name, ".php") == []
  {
    DirsKept(psr4, psr0);
    hide CompiledOf, Compiled4, LengthsOf, PairsOf;
    if name == "A" || name == "0" {
      NoBackslash(CompiledOf(psr4, psr0), name);
    } else if Letter(name) in CompiledOf(psr4, psr0).lengths {
      LettersAreFirst(psr4, Letter(name));
      var i: nat :| i < |psr4| && FirstCharIs(psr4[i].0, Letter(name));
      NoSuchLetter(name, psr4[i].0);
    }
  }

  lemma NoBackslash(st: State, name: string)
    requires name == "A" || name == "0"
    ensures GuardedFiles(st, name, ".php") == []
  {
    assert name[..|name|] == name && name[..0] == "";
    assert Text.LastIndex(name, '\\') == None;
  }

  lemma YIsMissed(dirs: seq<string>, tail: string)
    requires InY(dirs)
    ensures !Hits(InDirs(dirs, tail))
  {
    DirsHit(dirs, tail);
  }

  predicate EmptyInY(entries: TypeMap) { forall k :: 0 <= k < |entries| && entries[k].0 == "" ==> InY(entries[k].1) }

  predicate FalsyInY(entries: TypeMap) { forall k :: 0 <= k < |entries| && IsFalsy(entries[k].0) ==> InY(entries[k].1) }

  lemma CompiledMisses(psr4: TypeMap, psr0: TypeMap, name: string)
    requires AllText(psr4) && AllText(psr0) && Plain(psr0) && EmptyInY(psr4) && EmptyInY(psr0)
    requires name == "A" || name == "0" || (name != "" && !IsAscii(name))
    requires forall e :: e in psr0 && FirstCharIs(e.0, Letter(name)) ==> e.1 == ["y"]
    ensures Answer(CompiledOf(psr4, psr0), name, MARKED).None?
  {
    var c, s := CompiledOf(psr4, psr0), Compiled4(psr4, NOTHING);
    NoneGuarded(psr4, psr0, name);
    DirsKept(psr4, psr0);
    FallbacksInY(psr4);
    NoPrefixes0(psr4);
    NoFallback0(psr4);
    Fallbacks0InY(psr0, s, EMPTY);
    CompiledMatches(psr4, psr0, name);
    assert c.fallback0 == Compiled0(psr0, s).fallback0;
    hide CompiledOf, Compiled0, Compiled4, Replay0, Replay4, GuardedFiles, Psr0Files, InDirs, Hits, Answer, InY, Tail, Psr0Path;
    YIsMissed(c.fallback, Tail(name, ".php", 0));
    YIsMissed(c.fallback0, Psr0Path(name, ".php"));
    AnswerHits(c, name);
    assert !Hits([]) by { NoHits(); }
  }

  lemma NoHits()
    ensures !Hits([])
  {
  }

  /** PSR-0 hits where an entry under the letter is marked. */
  lemma CompiledMatches(psr4: TypeMap, psr0: TypeMap, name: string)
    requires AllText(psr4) && AllText(psr0) && Plain(psr0) && name != ""
    ensures Hits(Psr0Files(CompiledOf(psr4, psr0), name, ".php")) <==>
            exists e :: e in psr0 && FirstCharIs(e.0, Letter(name)) && e.0 <= name && e.1 == ["x"]
  {
    NoPrefixes0(psr4);
    var s := Compiled4(psr4, NOTHING);
    var nested := Compiled0(psr0, s).prefixes0;
    var list := ListUnder(nested, Letter(name));
    KeysAreFound(nested, Letter(name));
    assert Under(CompiledOf(psr4, psr0).prefixes0, Letter(name)) == list;
    hide CompiledOf, Compiled0, Compiled4, MatchingFiles, Hits, ListUnder, Psr0Path;
    forall e ensures e in list <==> e in psr0 && FirstCharIs(e.0, Letter(name)) { CompiledUnder(psr0, s, Letter(name), e); }
    MatchesHit(list, name, Psr0Path(name, ".php"));
  }

  lemma ReplayedMatches(psr4: TypeMap, psr0: TypeMap, name: string)
    requires Replay4(psr4, EMPTY).Some? && Distinct(psr0) && Plain(psr0) && name != ""
    ensures Replayed(psr4, psr0, map[]).Some?
    ensures Hits(Psr0Files(Replayed(psr4, psr0, map[]).value, name, ".php")) <==>
            exists e :: e in psr0 && !IsFalsy(e.0) && Letter(e.0) == Letter(name) && e.0 <= name && e.1 == ["x"]
  {
    ReplayedIs(psr4, psr0);
    var st := Replay4(psr4, EMPTY).value;
    var list := Under(Replay0(psr0, st).prefixes0, Letter(name));
    hide Replayed, Replay0, Replay4, MatchingFiles, Hits, Psr0Path, Agree;
    forall e ensures e in list <==> e in psr0 && !IsFalsy(e.0) && Letter(e.0) == Letter(name) { ReplayedUnder(psr0, st, Letter(name), e); }
    MatchesHit(list, name, Psr0Path(name, ".php"));
  }

  // ----- one input for each bad prefix ------------------------------------------------------------------------------------

  lemma Differs(psr4: TypeMap, psr0: TypeMap, name: string)
    requires AllText(psr4) && AllText(psr0) && Replayed(psr4, psr0, map[]).Some?
    requires Answer(CompiledOf(psr4, psr0), name, MARKED).Some? <==> Answer(Replayed(psr4, psr0, map[]).value, name, MARKED).None?
    ensures !SameEverywhere(psr4, psr0)
  {
    hide Answer;
  }

  lemma MarkedIsPlain(entries: TypeMap, i: nat)
    ensures Plain(Marked(entries, i))
    ensures forall e :: e in Marked(entries, i) && (i < |entries| ==> e.0 != entries[i].0) ==> e.1 == ["y"]
    ensures i < |entries| ==> (entries[i].0, ["x"]) in Marked(entries, i)
    ensures i >= |entries| || entries[i].0 != "" ==> EmptyInY(Marked(entries, i))
    ensures i >= |entries| ==> FalsyInY(Marked(entries, i))
  {
    if i < |entries| { assert Marked(entries, i)[i] == (entries[i].0, ["x"]); }
  }

  /** A namespace whose first character is longer than a byte: its classes are found when registered. */
  lemma LongLetterShows(psr4: TypeMap, psr0: TypeMap, i: nat)
    requires AllText(psr4) && AllText(psr0) && Distinct(psr4) && Distinct(psr0)
    requires i < |psr4| && IsNamespace(psr4[i].0) && !IsAscii(psr4[i].0)
    ensures AllText(Marked(psr4, i)) && AllText(Marked(psr0, |psr0|))
    ensures !SameEverywhere(Marked(psr4, i), Marked(psr0, |psr0|))
  {
    var a, b := Marked(psr4, i), Marked(psr0, |psr0|);
    var ns := psr4[i].0;
    var name := ns + "A";
    assert Letter(name) == Letter(ns) && a[i] == (ns, ["x"]);
    MarkedIsLike(psr4, i);
    MarkedIsLike(psr0, |psr0|);
    MarkedIsPlain(psr4, i);
    MarkedIsPlain(psr0, |psr0|);
    hide Marked, Replay4, Replayed, Answer, SameEverywhere, Plain, EmptyInY, FalsyInY;
    if Replay4(a, EMPTY).Some? {
      CompiledMisses(a, b, name);
      ReplayedIs(a, b);
      var r := Replayed(a, b, map[]).value;
      ReplayedDir(a, i);
      NamespaceHits(r, ns);
      AnswerHits(r, name);
      Differs(a, b, name);
    } else {
      NotAccepted(a, b);
    }
  }

  lemma NotAccepted(psr4: TypeMap, psr0: TypeMap)
    requires AllText(psr4) && AllText(psr0) && Replay4(psr4, EMPTY).None?
    ensures !SameEverywhere(psr4, psr0)
  {
  }

  lemma {:induction false} ReplayedDir(psr4: TypeMap, i: nat)
    requires AllText(psr4) && Distinct(psr4) && Replay4(psr4, EMPTY).Some? && i < |psr4| && IsNamespace(psr4[i].0)
    ensures var dirs := Replay4(psr4, EMPTY).value.dirs; psr4[i].0 in dirs && dirs[psr4[i].0] == psr4[i].1
    decreases |psr4|
  {
    hide Replay4, Compiled4, PairsOf;
    DirsStep(psr4);
    if i < |psr4| - 1 { ReplayedDir(psr4[..|psr4| - 1], i); }
  }

  lemma NamespaceHits(st: State, ns: string)
    requires IsNamespace(ns) && Agree(st.lengths, st.dirs.Keys) && ns in st.dirs && st.dirs[ns] == ["x"]
    ensures Hits(GuardedFiles(st, ns + "A", ".php"))
  {
    var name := ns + "A";
    assert Letter(ns) == ns[..1] && Letter(name) == ns[..1] && name[..|name|] == name && name[..|ns|] == ns;
    LastBackslash(ns);
    DirsHit(["x"], Tail(name, ".php", |ns|));
    AnyHit(FilesOf(st, name, ".php", ns), ChoppedFiles(st, name, ".php", |ns| - 1));
    hide InDirs, Hits, Tail;
  }

  /** A namespace `0` that no empty one follows: registered, its directories are those to fall back to. */
  lemma ZeroShows(psr4: TypeMap, psr0: TypeMap, i: nat)
    requires AllText(psr4) && AllText(psr0) && Distinct(psr4) && Distinct(psr0)
    requires i < |psr4| && psr4[i].0 == "0" && !Harmless4(psr4, i)
    ensures AllText(Marked(psr4, i)) && AllText(Marked(psr0, |psr0|))
    ensures !SameEverywhere(Marked(psr4, i), Marked(psr0, |psr0|))
  {
    var a, b := Marked(psr4, i), Marked(psr0, |psr0|);
    assert a[i] == ("0", ["x"]) && forall k :: i < k < |a| ==> !IsFalsy(a[k].0);
    MarkedIsLike(psr4, i);
    MarkedIsLike(psr0, |psr0|);
    MarkedIsPlain(psr4, i);
    MarkedIsPlain(psr0, |psr0|);
    hide Marked, Replay4, Replayed, Answer, SameEverywhere, Plain, EmptyInY, FalsyInY, Hits, InDirs;
    if Replay4(a, EMPTY).Some? {
      CompiledMisses(a, b, "A");
      ReplayedIs(a, b);
      var r := Replayed(a, b, map[]).value;
      ReplayedFallback(a, i);
      DirsHit(["x"], Tail("A", ".php", 0));
      AnswerHits(r, "A");
      Differs(a, b, "A");
    } else {
      NotAccepted(a, b);
    }
  }

  /** A PSR-0 prefix whose first character is longer than a byte. */
  lemma LongLetterShows0(psr4: TypeMap, psr0: TypeMap, i: nat)
    requires AllText(psr4) && AllText(psr0) && Distinct(psr4) && Distinct(psr0)
    requires i < |psr0| && psr0[i].0 != "" && !IsAscii(psr0[i].0)
    ensures AllText(Marked(psr4, |psr4|)) && AllText(Marked(psr0, i))
    ensures !SameEverywhere(Marked(psr4, |psr4|), Marked(psr0, i))
  {
    var a, b := Marked(psr4, |psr4|), Marked(psr0, i);
    var ns := psr0[i].0;
    MarkedIsLike(psr4, |psr4|);
    MarkedIsLike(psr0, i);
    MarkedIsPlain(psr4, |psr4|);
    MarkedIsPlain(psr0, i);
    hide Marked, Replay4, Replayed, Answer, SameEverywhere, Plain, EmptyInY, FalsyInY, Hits;
    if Replay4(a, EMPTY).Some? {
      forall key ensures !FirstCharIs(key, Letter(ns)) { NoSuchLetter(ns, key); }
      CompiledMisses(a, b, ns);
      ReplayedIs(a, b);
      var r := Replayed(a, b, map[]).value;
      var e := (ns, ["x"]);
      assert e in b && !IsFalsy(e.0) && Letter(e.0) == Letter(ns) && e.0 <= ns;
      ReplayedMatches(a, b, ns);
      AnswerHits(r, ns);
      Differs(a, b, ns);
    } else {
      NotAccepted(a, b);
    }
  }

  /** A PSR-0 prefix `0`: compiled it is tried for names that begin so, registered it is not, but falls
      back unless the empty one follows. */
  lemma ZeroShows0(psr4: TypeMap, psr0: TypeMap, i: nat)
    requires AllText(psr4) && AllText(psr0) && Distinct(psr4) && Distinct(psr0)
    requires i < |psr0| && psr0[i].0 == "0"
    ensures AllText(Marked(psr4, |psr4|)) && AllText(Marked(psr0, i))
    ensures !SameEverywhere(Marked(psr4, |psr4|), Marked(psr0, i))
  {
    var a, b := Marked(psr4, |psr4|), Marked(psr0, i);
    assert b[i] == ("0", ["x"]);
    MarkedIsLike(psr4, |psr4|);
    MarkedIsLike(psr0, i);
    MarkedIsPlain(psr4, |psr4|);
    MarkedIsPlain(psr0, i);
    if Replay4(a, EMPTY).None? {
      NotAccepted(a, b);
    } else if j: nat :| i < j < |psr0| && psr0[j].0 == "" {
      assert b[j] == ("", ["y"]) && forall k :: j < k < |b| ==> !IsFalsy(b[k].0);
      hide Marked;
      ZeroIsTried(a, b, i, j);
    } else {
      assert forall k :: i < k < |b| ==> !IsFalsy(b[k].0);
      hide Marked;
      ZeroFallsBack(a, b, i);
    }
  }

  lemma ZeroIsTried(psr4: TypeMap, psr0: TypeMap, i: nat, j: nat)
    requires AllText(psr4) && AllText(psr0) && Distinct(psr0) && Replay4(psr4, EMPTY).Some? && Plain(psr0) && FalsyInY(psr4)
    requires i < j < |psr0| && psr0[i] == ("0", ["x"]) && psr0[j] == ("", ["y"])
    requires forall k :: j < k < |psr0| ==> !IsFalsy(psr0[k].0)
    requires forall e :: e in psr0 && e.0 != "0" ==> e.1 == ["y"]
    ensures !SameEverywhere(psr4, psr0)
  {
    ReplayedIs(psr4, psr0);
    DirsKept(psr4, psr0);
    ZeroIsMissed(psr4, psr0, j);
    hide CompiledOf, Compiled4, Replay4, Replay0, Replayed, Answer, SameEverywhere, Plain, FalsyInY, Hits, Agree;
    assert psr0[i] in psr0 && FirstCharIs("0", Letter("0"));
    CompiledMatches(psr4, psr0, "0");
    AnswerHits(CompiledOf(psr4, psr0), "0");
    Differs(psr4, psr0, "0");
  }

  lemma ZeroIsMissed(psr4: TypeMap, psr0: TypeMap, j: nat)
    requires AllText(psr4) && Distinct(psr0) && Replay4(psr4, EMPTY).Some? && Plain(psr0) && FalsyInY(psr4)
    requires j < |psr0| && psr0[j] == ("", ["y"]) && forall k :: j < k < |psr0| ==> !IsFalsy(psr0[k].0)
    requires forall e :: e in psr0 && e.0 != "0" ==> e.1 == ["y"]
    ensures Replayed(psr4, psr0, map[]).Some? && Answer(Replayed(psr4, psr0, map[]).value, "0", MARKED).None?
  {
    ReplayedIs(psr4, psr0);
    var st, r := Replay4(psr4, EMPTY).value, Replayed(psr4, psr0, map[]).value;
    FallbacksInY(psr4);
    ReplayedFallback0(psr0, st, j);
    hide Replay4, Replay0, Replayed, Answer, Plain, FalsyInY, Hits, InDirs, Agree, Psr0Path, Tail;
    ReplayedMatches(psr4, psr0, "0");
    NoBackslash(r, "0");
    NoHits();
    YIsMissed(r.fallback, Tail("0", ".php", 0));
    YIsMissed(r.fallback0, Psr0Path("0", ".php"));
    AnswerHits(r, "0");
  }

  lemma ZeroFallsBack(psr4: TypeMap, psr0: TypeMap, i: nat)
    requires AllText(psr4) && AllText(psr0) && Distinct(psr0) && Replay4(psr4, EMPTY).Some? && Plain(psr0)
    requires EmptyInY(psr4) && EmptyInY(psr0)
    requires i < |psr0| && psr0[i] == ("0", ["x"]) && forall k :: i < k < |psr0| ==> !IsFalsy(psr0[k].0)
    requires forall e :: e in psr0 && e.0 != "0" ==> e.1 == ["y"]
    ensures !SameEverywhere(psr4, psr0)
  {
    ReplayedIs(psr4, psr0);
    var st, r := Replay4(psr4, EMPTY).value, Replayed(psr4, psr0, map[]).value;
    ReplayedFallback0(psr0, st, i);
    hide CompiledOf, Replay4, Replay0, Replayed, Answer, SameEverywhere, Plain, EmptyInY, Hits, InDirs, Agree, Psr0Path;
    CompiledMisses(psr4, psr0, "A");
    DirsHit(["x"], Psr0Path("A", ".php"));
    AnswerHits(r, "A");
    Differs(psr4, psr0, "A");
  }

  lemma Shown(psr4: TypeMap, psr0: TypeMap, psr4': TypeMap, psr0': TypeMap)
    requires AllText(psr4) && AllText(psr0) && SamePrefixes(psr4', psr4) && SamePrefixes(psr0', psr0)
    requires AllText(psr4') && AllText(psr0') && !SameEverywhere(psr4', psr0')
    ensures !SameForAllDirectories(psr4, psr0)
  {
    hide SameEverywhere;
  }

  lemma HarmfulShows4(psr4: TypeMap, psr0: TypeMap, i: nat)
    requires AllText(psr4) && AllText(psr0) && Distinct(psr4) && Distinct(psr0) && i < |psr4| && !Harmless4(psr4, i)
    ensures !SameForAllDirectories(psr4, psr0)
  {
    MarkedIsLike(psr4, i);
    MarkedIsLike(psr0, |psr0|);
    hide SameForAllDirectories, SameEverywhere, Marked;
    if psr4[i].0 == "0" {
      ZeroShows(psr4, psr0, i);
    } else if IsNamespace(psr4[i].0) {
      LongLetterShows(psr4, psr0, i);
    } else {
      assert Marked(psr4, i)[i].0 == psr4[i].0;
      ReplayThrows(Marked(psr4, i), i);
      NotAccepted(Marked(psr4, i), Marked(psr0, |psr0|));
    }
    Shown(psr4, psr0, Marked(psr4, i), Marked(psr0, |psr0|));
  }

  lemma BadShows0(psr4: TypeMap, psr0: TypeMap, i: nat)
    requires AllText(psr4) && AllText(psr0) && Distinct(psr4) && Distinct(psr0) && i < |psr0| && !Good0(psr0[i].0)
    ensures !SameForAllDirectories(psr4, psr0)
  {
    MarkedIsLike(psr4, |psr4|);
    MarkedIsLike(psr0, i);
    hide SameForAllDirectories, SameEverywhere, Marked;
    if psr0[i].0 == "0" { ZeroShows0(psr4, psr0, i); } else { LongLetterShows0(psr4, psr0, i); }
    Shown(psr4, psr0, Marked(psr4, |psr4|), Marked(psr0, i));
  }

  /** Whatever directories are declared, every class is found in the same file in every world, if and
      only if every PSR-4 namespace ends in a backslash and begins with a one-byte character, or is `0`
      before an empty one, and every PSR-0 prefix begins with a one-byte character and is not `0`. */
  lemma SameForAllDirectoriesIff(psr4: TypeMap, psr0: TypeMap)
    requires AllText(psr4) && AllText(psr0) && Distinct(psr4) && Distinct(psr0)
    ensures SameForAllDirectories(psr4, psr0) <==> AllHarmless4(psr4) && AllGood0(psr0)
  {
    hide SameEverywhere, Harmless4, Good0;
    if i: nat :| i < |psr4| && !Harmless4(psr4, i) {
      HarmfulShows4(psr4, psr0, i);
    } else if i: nat :| i < |psr0| && !Good0(psr0[i].0) {
      BadShows0(psr4, psr0, i);
    } else {
      forall psr4', psr0' | SamePrefixes(psr4', psr4) && SamePrefixes(psr0', psr0) ensures SameEverywhere(psr4', psr0') {
        LikeHarmless(psr4', psr4);
        HarmlessIsSame(psr4', psr0');
      }
    }
  }

  /** As the generator sorts its maps, an empty namespace always comes behind. */
  lemma HarmlessWhenSorted(psr4: TypeMap)
    requires Descending(psr4)
    ensures AllHarmless4(psr4) <==> forall i :: 0 <= i < |psr4| ==> Good4(psr4[i].0) || (psr4[i].0 == "0" && HasKey(psr4, ""))
  {
    hide Good4;
    assert !Above("", "0");
    forall i: nat | i < |psr4| && psr4[i].0 == "0"
      ensures HasKey(psr4, "") <==> exists j :: i < j < |psr4| && psr4[j].0 == ""
    {
    }
    if AllHarmless4(psr4) {
      forall i: nat | i < |psr4| ensures Good4(psr4[i].0) || (psr4[i].0 == "0" && HasKey(psr4, "")) { assert Harmless4(psr4, i); }
    }
  }

  lemma LikeHarmless(entries: TypeMap, like: TypeMap)
    requires SamePrefixes(entries, like) && AllHarmless4(like)
    ensures AllHarmless4(entries)
  {
    forall i: nat | i < |entries| ensures Harmless4(entries, i) {
      assert Harmless4(like, i);
      if j :| i < j < |like| && like[j].0 == "" { assert entries[j].0 == ""; }
    }
  }
}
