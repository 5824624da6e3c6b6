/** Path normalisation (crates/vivacity-core/src/pathutil.rs): what `normalize_path` keeps of a
    path, and when it is idempotent. */
module Paths {
  import opened Text

  function Slashes(path: string): string {
    seq(|path|, i requires 0 <= i < |path| => if path[i] == '\\' then '/' else path[i])
  }

  function Chunks(path: string): seq<string> { Split(path, '/') }

  function JoinPath(parts: seq<string>): string { Join(parts, '/') }

  function DropLast<T>(s: seq<T>): seq<T> { if s == [] then [] else s[..|s| - 1] }

  // ----- what a path means ------------------------------------------------------------------

  /** Walking a tree from `dir`, a stack of directory names: `..` at the top stays at the top. */
  function Walk(dir: seq<string>, chunks: seq<string>): seq<string>
    decreases |chunks|
  {
    if chunks == [] then dir
    else
      var c := chunks[0];
      Walk(if c == "" || c == "." then dir else if c == ".." then DropLast(dir) else dir + [c], chunks[1..])
  }

  /** The directory an absolute path names, as the stack of its components. */
  function Place(path: string): seq<string> { Walk([], Chunks(Slashes(path))) }

  lemma {:induction false} WalkConcat(dir: seq<string>, xs: seq<string>, ys: seq<string>)
    ensures Walk(dir, xs + ys) == Walk(Walk(dir, xs), ys)
    decreases |xs|
  {
    if xs == [] {
      assert xs + ys == ys;
    } else {
      assert (xs + ys)[1..] == xs[1..] + ys;
      var c := xs[0];
      WalkConcat(if c == "" || c == "." then dir else if c == ".." then DropLast(dir) else dir + [c], xs[1..], ys);
    }
  }

  lemma WalkSlash(dir: seq<string>, a: string, b: string)
    ensures Walk(dir, Chunks(a + "/" + b)) == Walk(Walk(dir, Chunks(a)), Chunks(b))
  {
    SplitAt(a, b, '/');
    WalkConcat(dir, Chunks(a), Chunks(b));
  }

  /** A directory name as it stands in a normalised path. */
  predicate IsName(c: string) { c != "" && c != "." && c != ".." && '/' !in c && '\\' !in c }

  predicate Names(parts: seq<string>) { forall k :: 0 <= k < |parts| ==> IsName(parts[k]) }

  lemma {:induction false} WalkNames(dir: seq<string>, parts: seq<string>)
    requires Names(parts)
    ensures Walk(dir, parts) == dir + parts
    decreases |parts|
  {
    if parts != [] {
      assert IsName(parts[0]);
      WalkNames(dir + [parts[0]], parts[1..]);
      assert dir + [parts[0]] + parts[1..] == dir + parts;
    }
  }

  predicate IsChunk(c: string) { '/' !in c && '\\' !in c }

  predicate AllChunks(chunks: seq<string>) { forall k :: 0 <= k < |chunks| ==> IsChunk(chunks[k]) }

  lemma {:induction false} WalkGivesNames(dir: seq<string>, chunks: seq<string>)
    requires Names(dir) && AllChunks(chunks)
    ensures Names(Walk(dir, chunks))
    decreases |chunks|
  {
    if chunks != [] {
      var c := chunks[0];
      assert IsChunk(c);
      WalkGivesNames(if c == "" || c == "." then dir else if c == ".." then DropLast(dir) else dir + [c], chunks[1..]);
    }
  }

  lemma {:induction false} SplitChunks(s: string)
    requires '\\' !in s
    ensures AllChunks(Chunks(s))
  {
    if s != "" {
      SplitChunks(s[1..]);
      var rest := Chunks(s[1..]);
      assert IsChunk(rest[0]);
    }
  }

  lemma PlaceGivesNames(path: string)
    ensures Names(Place(path))
  {
    SplitChunks(Slashes(path));
    WalkGivesNames([], Chunks(Slashes(path)));
  }

  // ----- normalize_path -----------------------------------------------------------------------

  /** `//` is kept apart from `/` when something follows it. */
  function Root(p: string): string {
    if "//" <= p && |p| > 2 then "//" else if "/" <= p then "/" else ""
  }

  lemma RootIsPrefix(p: string)
    ensures Root(p) <= p
  {
  }

  /** Components left when `.`, `..` and empty chunks are worked off; a relative path keeps the
      `..` that lead out of it. */
  function Reduce(absolute: bool, parts: seq<string>, chunks: seq<string>): seq<string>
    decreases |chunks|
  {
    if chunks == [] then parts
    else
      var c := chunks[0];
      Reduce(absolute,
             if c == "" || c == "." then parts
             else if c == ".." && (absolute || CanGoUp(parts)) then DropLast(parts)
             else parts + [c], chunks[1..])
  }

  predicate CanGoUp(parts: seq<string>) { parts != [] && parts[|parts| - 1] != ".." }

  function Normalized(path: string): string {
    var p := Slashes(path);
    var root := Root(p);
    RootIsPrefix(p);
    root + JoinPath(Reduce(root != "", [], Chunks(p[|root|..])))
  }

  /** The loop, with its `up` flag. */
  method NormalizePath(path: string) returns (r: string)
    ensures r == Normalized(path)
  {
    var p := Slashes(path);
    var absolute := Root(p);
    RootIsPrefix(p);
    var chunks := Chunks(p[|absolute|..]);
    var parts: seq<string> := [];
    var up := false;
    for i := 0 to |chunks|
      invariant up ==> CanGoUp(parts)
      invariant absolute == "" && CanGoUp(parts) ==> up
      invariant Reduce(absolute != "", parts, chunks[i..]) == Reduce(absolute != "", [], chunks)
    {
      var chunk := chunks[i];
      assert chunks[i..][1..] == chunks[i + 1..];
      if chunk == ".." && (absolute != "" || up) {
        parts := DropLast(parts);
        up := CanGoUp(parts);
      } else if chunk != "." && chunk != "" {
        parts := parts + [chunk];
        up := chunk != "..";
      }
    }
    assert chunks[|chunks|..] == [];
    r := absolute + JoinPath(parts);
  }

  lemma {:induction false} ReduceIsWalk(dir: seq<string>, chunks: seq<string>)
    ensures Reduce(true, dir, chunks) == Walk(dir, chunks)
    decreases |chunks|
  {
    if chunks != [] {
      var c := chunks[0];
      ReduceIsWalk(if c == "" || c == "." then dir else if c == ".." then DropLast(dir) else dir + [c], chunks[1..]);
    }
  }

  lemma WalkRoot(dir: seq<string>, p: string)
    ensures Root(p) <= p
    ensures Walk(dir, Chunks(p)) == Walk(dir, Chunks(p[|Root(p)|..]))
  {
    if Root(p) == "/" {
      assert p == "" + "/" + p[1..];
      WalkSlash(dir, "", p[1..]);
    } else if Root(p) == "//" {
      assert p == "/" + "/" + p[2..];
      WalkSlash(dir, "/", p[2..]);
      assert Chunks("/") == [""] + Chunks("");
    }
  }

  /** An absolute path is normalised to its root and the directory it names. */
  lemma AbsoluteForm(path: string)
    requires Root(Slashes(path)) != ""
    ensures Normalized(path) == Root(Slashes(path)) + JoinPath(Place(path))
  {
    var p := Slashes(path);
    WalkRoot([], p);
    ReduceIsWalk([], Chunks(p[|Root(p)|..]));
  }

  // ----- meaning kept -----------------------------------------------------------------------------

  /** The shape of a normalised relative path: some `..`, then names. */
  predicate Shape(parts: seq<string>, ups: nat) {
    ups <= |parts| && (forall k :: 0 <= k < ups ==> parts[k] == "..") && Names(parts[ups..])
  }

  lemma {:induction false} ReduceShape(parts: seq<string>, ups: nat, chunks: seq<string>) returns (n: nat)
    requires Shape(parts, ups) && AllChunks(chunks)
    ensures Shape(Reduce(false, parts, chunks), n)
    decreases |chunks|
  {
    if chunks == [] { return ups; }
    var c := chunks[0];
    assert IsChunk(c);
    if c == "" || c == "." {
      n := ReduceShape(parts, ups, chunks[1..]);
    } else if c == ".." && CanGoUp(parts) {
      assert DropLast(parts)[ups..] == DropLast(parts[ups..]);
      n := ReduceShape(DropLast(parts), ups, chunks[1..]);
    } else {
      n := Pushed(parts, ups, c);
      n := ReduceShape(parts + [c], n, chunks[1..]);
    }
  }

  /** Leaving `dir` some times and entering names. */
  lemma {:induction false} WalkShape(dir: seq<string>, parts: seq<string>, ups: nat)
    requires Shape(parts, ups)
    ensures Walk(dir, parts) == (if ups <= |dir| then dir[..|dir| - ups] else []) + parts[ups..]
    decreases ups
  {
    if ups == 0 {
      WalkNames(dir, parts);
    } else {
      assert parts[1..][ups - 1..] == parts[ups..];
      WalkShape(DropLast(dir), parts[1..], ups - 1);
      if dir == [] { assert DropLast(dir) == []; }
    }
  }

  /** Working off chunks never changes where they lead, from any directory. */
  lemma {:induction false} ReduceKeepsMeaning(dir: seq<string>, parts: seq<string>, ups: nat, chunks: seq<string>)
    requires Shape(parts, ups) && AllChunks(chunks)
    ensures Walk(dir, Reduce(false, parts, chunks)) == Walk(Walk(dir, parts), chunks)
    decreases |chunks|
  {
    if chunks == [] { return; }
    var c := chunks[0];
    assert IsChunk(c);
    if c == "" || c == "." {
      ReduceKeepsMeaning(dir, parts, ups, chunks[1..]);
    } else if c == ".." && CanGoUp(parts) {
      LastNameDropped(dir, parts, ups);
      ReduceKeepsMeaning(dir, DropLast(parts), ups, chunks[1..]);
    } else {
      var n := Pushed(parts, ups, c);
      ReduceKeepsMeaning(dir, parts + [c], n, chunks[1..]);
      WalkConcat(dir, parts, [c]);
      WalkOne(Walk(dir, parts), c, chunks[1..]);
      assert chunks == [c] + chunks[1..];
    }
  }

  lemma LastNameDropped(dir: seq<string>, parts: seq<string>, ups: nat)
    requires Shape(parts, ups) && CanGoUp(parts)
    ensures Shape(DropLast(parts), ups)
    ensures DropLast(Walk(dir, parts)) == Walk(dir, DropLast(parts))
  {
    assert DropLast(parts)[ups..] == DropLast(parts[ups..]);
    WalkShape(dir, parts, ups);
    WalkShape(dir, DropLast(parts), ups);
  }

  lemma Pushed(parts: seq<string>, ups: nat, c: string) returns (n: nat)
    requires Shape(parts, ups) && IsChunk(c) && c != "" && c != "."
    requires c == ".." ==> !CanGoUp(parts)
    ensures Shape(parts + [c], n)
  {
    if c == ".." {
      assert |parts| > ups ==> IsName(parts[ups..][|parts| - ups - 1]);
      n := |parts| + 1;
    } else {
      assert (parts + [c])[ups..] == parts[ups..] + [c];
      n := ups;
    }
  }

  lemma WalkOne(dir: seq<string>, c: string, rest: seq<string>)
    ensures Walk(dir, [c] + rest) == Walk(Walk(dir, [c]), rest)
  {
    WalkConcat(dir, [c], rest);
  }

  lemma SlashesAgain(s: string)
    requires '\\' !in s
    ensures Slashes(s) == s
  {
  }

  lemma {:induction false} JoinedHasNo(parts: seq<string>, c: char)
    requires c != '/' && forall k :: 0 <= k < |parts| ==> c !in parts[k]
    ensures c !in JoinPath(parts)
  {
    if |parts| > 1 { JoinedHasNo(parts[1..], c); }
  }

  lemma {:induction false} ShapeIsChunks(parts: seq<string>, ups: nat)
    requires Shape(parts, ups)
    ensures AllChunks(parts) && forall k :: 0 <= k < |parts| ==> parts[k] != ""
  {
    forall k | 0 <= k < |parts| ensures IsChunk(parts[k]) && parts[k] != "" {
      if k >= ups { assert parts[k] == parts[ups..][k - ups]; }
    }
  }

  /** A normalised relative path cut into chunks again. */
  lemma ChunksOfShape(parts: seq<string>, ups: nat, dir: seq<string>)
    requires Shape(parts, ups)
    ensures Slashes(JoinPath(parts)) == JoinPath(parts) && Root(JoinPath(parts)) == ""
    ensures Walk(dir, Chunks(JoinPath(parts))) == Walk(dir, parts)
  {
    ShapeIsChunks(parts, ups);
    forall k | 0 <= k < |parts| ensures '\\' !in parts[k] && '/' !in parts[k] { assert IsChunk(parts[k]); }
    JoinedHasNo(parts, '\\');
    SlashesAgain(JoinPath(parts));
    if parts != [] {
      SplitJoin(parts, '/');
      assert JoinPath(parts)[0] == parts[0][0] && parts[0][0] in parts[0];
    }
  }

  /** Normalising a relative path leads to the same place from every directory. */
  lemma NormalizedMeansTheSame(path: string, dir: seq<string>)
    requires Root(Slashes(path)) == ""
    ensures Walk(dir, Chunks(Normalized(path))) == Walk(dir, Chunks(Slashes(path)))
    ensures Slashes(Normalized(path)) == Normalized(path) && Root(Normalized(path)) == ""
  {
    var p := Slashes(path);
    assert p[0..] == p;
    SplitChunks(p);
    var n := ReduceShape([], 0, Chunks(p));
    var parts := Reduce(false, [], Chunks(p));
    assert Normalized(path) == JoinPath(parts);
    ReduceKeepsMeaning(dir, [], 0, Chunks(p));
    ChunksOfShape(parts, n, dir);
  }

  ghost predicate SamePlaceFromAnywhere(path: string, path': string) {
    forall dir :: Walk(dir, Chunks(Slashes(path))) == Walk(dir, Chunks(Slashes(path')))
  }

  /** Two relative paths are normalised to the same text exactly when they always lead to the same
      place. */
  lemma NormalFormIsMeaning(path: string, path': string)
    requires Root(Slashes(path)) == "" && Root(Slashes(path')) == ""
    ensures Normalized(path) == Normalized(path') <==> SamePlaceFromAnywhere(path, path')
  {
    var n, parts := RelativeParts(path);
    var n', parts' := RelativeParts(path');
    if Normalized(path) == Normalized(path') {
      forall dir ensures Walk(dir, Chunks(Slashes(path))) == Walk(dir, Chunks(Slashes(path'))) {
        NormalizedMeansTheSame(path, dir);
        NormalizedMeansTheSame(path', dir);
      }
    }
    if SamePlaceFromAnywhere(path, path') {
      var dir := Deep(n + n');
      assert Walk(dir, Chunks(Slashes(path))) == Walk(dir, Chunks(Slashes(path')));
      SameWalkSameParts(parts, n, parts', n', dir);
    }
  }

  lemma RelativeParts(path: string) returns (ups: nat, parts: seq<string>)
    requires Root(Slashes(path)) == ""
    ensures Shape(parts, ups) && Normalized(path) == JoinPath(parts)
    ensures forall dir :: Walk(dir, Chunks(Slashes(path))) == Walk(dir, parts)
  {
    var p := Slashes(path);
    assert p[0..] == p;
    SplitChunks(p);
    ups := ReduceShape([], 0, Chunks(p));
    parts := Reduce(false, [], Chunks(p));
    forall dir ensures Walk(dir, Chunks(p)) == Walk(dir, parts) {
      ReduceKeepsMeaning(dir, [], 0, Chunks(p));
    }
  }

  /** A directory deep enough, none of whose components is a name. */
  function Deep(n: nat): (dir: seq<string>)
    ensures |dir| == n && forall k :: 0 <= k < n ==> dir[k] == ""
  {
    seq(n, _ => "")
  }

  lemma WalkDeep(parts: seq<string>, ups: nat, n: nat)
    requires Shape(parts, ups)
    ensures ups <= |parts| && Walk(Deep(ups + n), parts) == Deep(n) + parts[ups..] && Names(parts[ups..])
  {
    hide *;
    WalkShape(Deep(ups + n), parts, ups);
    ShapeHasNames(parts, ups);
    assert Deep(ups + n)[..n] == Deep(n);
  }

  lemma ShapeHasNames(parts: seq<string>, ups: nat)
    requires Shape(parts, ups)
    ensures ups <= |parts| && Names(parts[ups..])
  {
  }

  lemma SameWalkSameParts(parts: seq<string>, ups: nat, parts': seq<string>, ups': nat, dir: seq<string>)
    requires Shape(parts, ups) && Shape(parts', ups') && dir == Deep(ups + ups')
    requires Walk(dir, parts) == Walk(dir, parts')
    ensures parts == parts'
  {
    hide *;
    WalkDeep(parts, ups, ups');
    WalkDeep(parts', ups', ups);
    SameDepth(ups', parts[ups..], ups, parts'[ups'..]);
    SameUps(parts, parts', ups);
  }

  lemma SameUps(parts: seq<string>, parts': seq<string>, ups: nat)
    requires Shape(parts, ups) && Shape(parts', ups) && parts[ups..] == parts'[ups..]
    ensures parts == parts'
  {
    assert parts == parts[..ups] + parts[ups..] && parts' == parts'[..ups] + parts'[ups..];
    assert parts[..ups] == parts'[..ups];
  }

  lemma {:induction false} SameDepth(n: nat, names: seq<string>, n': nat, names': seq<string>)
    requires Names(names) && Names(names') && Deep(n) + names == Deep(n') + names'
    ensures n == n' && names == names'
  {
    assert n > 0 ==> (Deep(n) + names)[0] == "";
    assert n' > 0 ==> (Deep(n') + names')[0] == "";
    if n > 0 && n' > 0 {
      assert (Deep(n) + names)[1..] == Deep(n - 1) + names && (Deep(n') + names')[1..] == Deep(n' - 1) + names';
      SameDepth(n - 1, names, n' - 1, names');
    } else {
      assert n == 0 ==> Deep(n) + names == names;
      assert n' == 0 ==> Deep(n') + names' == names';
    }
  }

  // ----- normalising twice ----------------------------------------------------------------------

  /** An absolute path in normal form, taken apart again. */
  lemma AbsoluteText(root: string, parts: seq<string>)
    requires (root == "/" || (root == "//" && parts != [])) && Names(parts)
    ensures var s := root + JoinPath(parts);
            Slashes(s) == s && Root(s) == root && Place(s) == parts && Normalized(s) == s
  {
    var s := root + JoinPath(parts);
    assert Shape(parts, 0) by { assert parts[0..] == parts; }
    ChunksOfShape(parts, 0, []);
    assert forall k :: 0 <= k < |s| ==> s[k] == if k < |root| then '/' else JoinPath(parts)[k - |root|];
    assert forall k :: 0 <= k < |s| ==> Slashes(s)[k] == s[k];
    assert Slashes(s) == s;
    if parts != [] {
      assert IsName(parts[0]) && JoinPath(parts) != "" && JoinPath(parts)[0] == parts[0][0];
      assert s[|root|] != '/';
    }
    assert Root(s) == root;
    assert s[|root|..] == JoinPath(parts);
    WalkRoot([], s);
    WalkNames([], parts);
    assert [] + parts == parts;
    AbsoluteForm(s);
  }

  /** Normalising twice is normalising once, except that `//` with nothing left under it decays
      to `/` the second time. */
  lemma NormalizeTwice(path: string)
    ensures Normalized(Normalized(path)) == Normalized(path) <==>
            !(Root(Slashes(path)) == "//" && Place(path) == [])
  {
    var root := Root(Slashes(path));
    if root == "" {
      var n := Normalized(path);
      forall dir ensures Walk(dir, Chunks(Slashes(n))) == Walk(dir, Chunks(Slashes(path))) {
        NormalizedMeansTheSame(path, dir);
      }
      NormalizedMeansTheSame(path, []);
      NormalFormIsMeaning(n, path);
    } else {
      AbsoluteForm(path);
      PlaceGivesNames(path);
      if root == "//" && Place(path) == [] {
        assert Normalized(path) == "//" && Slashes("//") == "//";
        assert Root("//") == "/";
        AbsoluteForm("//");
      } else {
        AbsoluteText(root, Place(path));
      }
    }
  }
}
