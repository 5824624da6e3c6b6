/** Written paths (crates/vivacity-core/src/pathutil.rs): what normalising does to a text, rule by rule, and
    the relative path between two directories. */
module PathTexts {
  import opened Common
  import opened Text
  import opened Paths
  import opened ShortestPath

  // ----- normalising ------------------------------------------------------------------------------------------

  /** A slash and a backslash are the same. */
  lemma EitherSlash(a: string, b: string)
    ensures Normalized(a + ['\\'] + b) == Normalized(a + ['/'] + b)
  {
    assert Slashes(a + ['\\'] + b) == Slashes(a + ['/'] + b);
  }

  /** Something between two separators. */
  predicate IsPiece(c: string) { forall k :: 0 <= k < |c| ==> c[k] as int != 47 && c[k] as int != 92 }

  predicate Pieces(cs: seq<string>) { forall k :: 0 <= k < |cs| ==> IsPiece(cs[k]) }

  /** Pieces with slashes between them, below a root; the first one must not be empty. */
  predicate Written(root: string, cs: seq<string>) {
    (root == "" || root == "/" || root == "//") && cs != [] && cs[0] != "" && Pieces(cs)
  }

  function PathOf(root: string, cs: seq<string>): string { root + Join(cs, '/') }

  lemma {:induction false} JoinedPieces(cs: seq<string>)
    requires Pieces(cs)
    ensures '\\' !in Join(cs, '/')
    ensures cs != [] && cs[0] != "" ==> Join(cs, '/') != "" && Join(cs, '/')[0] == cs[0][0]
  {
    if |cs| == 1 {
      assert forall k :: 0 <= k < |cs[0]| ==> cs[0][k] != '\\';
    } else if cs != [] {
      JoinedPieces(cs[1..]);
      assert forall k :: 0 <= k < |cs[0]| ==> cs[0][k] != '\\';
    }
  }

  /** What is left of written pieces. */
  lemma NormalizedOf(root: string, cs: seq<string>)
    requires Written(root, cs)
    ensures Normalized(PathOf(root, cs)) == root + JoinPath(Reduce(root != "", [], cs))
  {
    var s, body := PathOf(root, cs), Join(cs, '/');
    JoinedPieces(cs);
    SplitPieces(cs);
    RootOf(root, body);
    hide Join, Reduce;
    assert s[|root|..] == body;
  }

  lemma RootOf(root: string, body: string)
    requires (root == "" || root == "/" || root == "//") && body != "" && '\\' !in body && body[0] != '/'
    ensures Slashes(root + body) == root + body && Root(root + body) == root
  {
    var s := root + body;
    assert forall k :: 0 <= k < |s| ==> s[k] == if k < |root| then root[k] else body[k - |root|];
    forall k | 0 <= k < |s| ensures Slashes(s)[k] == s[k] {}
    assert s[|root|] == body[0];
  }

  lemma SplitPieces(cs: seq<string>)
    requires Pieces(cs) && cs != []
    ensures Chunks(Join(cs, '/')) == cs && (cs[0] != "" ==> cs[0][0] != '/')
  {
    forall k | 0 <= k < |cs| ensures '/' !in cs[k] {
      assert forall i :: 0 <= i < |cs[k]| ==> cs[k][i] != '/';
    }
    SplitJoin(cs, '/');
  }

  lemma {:induction false} ReduceBoth(absolute: bool, parts: seq<string>, a: seq<string>, b: seq<string>)
    ensures Reduce(absolute, parts, a + b) == Reduce(absolute, Reduce(absolute, parts, a), b)
    decreases |a|
  {
    if a == [] {
      assert a + b == b;
    } else {
      assert (a + b)[1..] == a[1..] + b;
      var c := a[0];
      ReduceBoth(absolute,
                 if c == "" || c == "." then parts
                 else if c == ".." && (absolute || CanGoUp(parts)) then DropLast(parts)
                 else parts + [c], a[1..], b);
    }
  }

  lemma ReduceOne(absolute: bool, parts: seq<string>, c: string)
    ensures Reduce(absolute, parts, [c]) ==
            if c == "" || c == "." then parts
            else if c == ".." && (absolute || CanGoUp(parts)) then DropLast(parts)
            else parts + [c]
  {
    assert [c][1..] == [];
  }

  /** A piece that changes nothing. */
  lemma Idle(root: string, a: seq<string>, c: seq<string>, b: seq<string>)
    requires Written(root, a + c + b) && Written(root, a + b)
    requires Reduce(root != "", Reduce(root != "", [], a), c) == Reduce(root != "", [], a)
    ensures Normalized(PathOf(root, a + c + b)) == Normalized(PathOf(root, a + b))
  {
    hide *;
    NormalizedOf(root, a + c + b);
    NormalizedOf(root, a + b);
    ReduceBoth(root != "", [], a + c, b);
    ReduceBoth(root != "", [], a, c);
    ReduceBoth(root != "", [], a, b);
  }

  /** A dot, or nothing, between two separators is dropped. */
  lemma DotDrops(root: string, a: seq<string>, c: string, b: seq<string>)
    requires (c == "." || c == "") && Written(root, a + [c] + b) && Written(root, a + b)
    ensures Normalized(PathOf(root, a + [c] + b)) == Normalized(PathOf(root, a + b))
  {
    ReduceOne(root != "", Reduce(root != "", [], a), c);
    Idle(root, a, [c], b);
  }

  /** A name and two dots behind it are dropped together. */
  lemma BackDrops(root: string, a: seq<string>, name: string, b: seq<string>)
    requires name != "" && name != "." && name != ".."
    requires Written(root, a + [name, ".."] + b) && Written(root, a + b)
    ensures Normalized(PathOf(root, a + [name, ".."] + b)) == Normalized(PathOf(root, a + b))
  {
    var parts := Reduce(root != "", [], a);
    ReduceOne(root != "", parts, name);
    ReduceOne(root != "", parts + [name], "..");
    assert [name, ".."] == [name] + [".."];
    ReduceBoth(root != "", parts, [name], [".."]);
    assert DropLast(parts + [name]) == parts;
    Idle(root, a, [name, ".."], b);
  }

  /** Two dots right below the root are dropped. */
  lemma TopDrops(root: string, b: seq<string>)
    requires root != "" && Written(root, [".."] + b) && Written(root, b)
    ensures Normalized(PathOf(root, [".."] + b)) == Normalized(PathOf(root, b))
  {
    ReduceOne(true, [], "..");
    assert DropLast<string>([]) == [] && [] + [".."] + b == [".."] + b && [] + b == b;
    assert Reduce(true, [], []) == [];
    Idle(root, [], [".."], b);
  }

  predicate IsPlain(c: string) { IsPiece(c) && c != "" && c != "." && c != ".." }

  predicate AllPlain(cs: seq<string>) { forall k :: 0 <= k < |cs| ==> IsPlain(cs[k]) }

  /** Names stay, and so do the dots a relative path begins with. */
  lemma {:induction false} StaysAsIs(root: string, ups: nat, names: seq<string>)
    requires (root == "" || root == "/" || root == "//") && AllPlain(names) && ups + |names| > 0 && (root != "" ==> ups == 0)
    ensures var cs := seq(ups, i => "..") + names; Normalized(PathOf(root, cs)) == PathOf(root, cs)
  {
    var dots := seq(ups, i => "..");
    var cs := dots + names;
    assert Written(root, cs);
    NormalizedOf(root, cs);
    ReduceBoth(root != "", [], dots, names);
    if root == "" { UpsStay(ups); } else { assert dots == []; }
    NamesStay(root != "", dots, names);
  }

  lemma {:induction false} UpsStay(ups: nat)
    ensures Reduce(false, [], seq(ups, i => "..")) == seq(ups, i => "..")
  {
    var dots := seq(ups, i => "..");
    if ups > 0 {
      UpsStay(ups - 1);
      var fewer := seq(ups - 1, i => "..");
      assert dots == fewer + [".."];
      ReduceBoth(false, [], fewer, [".."]);
      ReduceOne(false, fewer, "..");
    }
  }

  lemma {:induction false} NamesStay(absolute: bool, parts: seq<string>, names: seq<string>)
    requires AllPlain(names)
    ensures Reduce(absolute, parts, names) == parts + names
    decreases |names|
  {
    if names == [] {
      assert parts + names == parts;
    } else {
      assert IsPlain(names[0]);
      NamesStay(absolute, parts + [names[0]], names[1..]);
      assert parts + [names[0]] + names[1..] == parts + names;
    }
  }

  /** What is nothing but dots is the root, or the empty path. */
  lemma NothingLeft(root: string)
    requires root == "" || root == "/" || root == "//"
    ensures Normalized(PathOf(root, ["."])) == root
    ensures Normalized("") == "" && Normalized("/") == "/"
  {
    NormalizedOf(root, ["."]);
    ReduceOne(root != "", [], ".");
    assert Slashes("") == "" && Slashes("/") == "/";
    assert Chunks("") == [""];
    ReduceOne(false, [], "");
    ReduceOne(true, [], "");
    assert "/"[1..] == "" && ""[0..] == "";
  }

  // ----- relative paths ----------------------------------------------------------------------------------------

  function Dots(n: nat): string {
    if n == 0 then "" else Dots(n - 1) + "../"
  }

  lemma {:induction false} DotsAreUps(n: nat)
    ensures Ups(n) == Dots(n) && "../" + Dots(n) == Dots(n) + "../"
  {
    if n > 0 {
      DotsAreUps(n - 1);
      Glue("../", Dots(n - 1), "../");
    }
  }

  lemma PlainAreNames(cs: seq<string>)
    requires AllPlain(cs)
    ensures Names(cs)
  {
    forall k | 0 <= k < |cs| ensures IsName(cs[k]) {
      assert IsPlain(cs[k]);
      assert forall i :: 0 <= i < |cs[k]| ==> cs[k][i] != '/' && cs[k][i] != '\\';
    }
  }

  lemma {:induction false} SharedAt(top: seq<string>, xs: seq<string>, ys: seq<string>)
    requires xs == [] || ys == [] || xs[0] != ys[0]
    ensures Shared(top + xs, top + ys) == |top|
  {
    if top == [] {
      assert top + xs == xs && top + ys == ys;
    } else {
      assert (top + xs)[1..] == top[1..] + xs && (top + ys)[1..] == top[1..] + ys;
      SharedAt(top[1..], xs, ys);
    }
  }

  lemma PlaceIs(cs: seq<string>)
    requires AllPlain(cs)
    ensures var s := "/" + Join(cs, '/'); Place(s) == cs && Root(Slashes(s)) == "/"
  {
    PlainAreNames(cs);
    AbsoluteText("/", cs);
  }

  lemma {:induction false} JoinedIsEmpty(cs: seq<string>)
    requires AllPlain(cs)
    ensures Join(cs, '/') == "" <==> cs == []
  {
    if |cs| == 1 { assert IsPlain(cs[0]); }
  }

  /** From one directory to another: up out of what they do not share, and down again; in full when they share
      nothing and it would have to go up twice, unless relative paths are preferred. */
  lemma ShortestIs(shared: seq<string>, ups: seq<string>, rest: seq<string>, preferRelative: bool)
    requires AllPlain(shared + ups) && AllPlain(shared + rest) && (ups == [] || rest == [] || ups[0] != rest[0])
    requires ups == [] && rest != [] ==> rest[0] != "dummy_file"
    ensures Shortest("/" + Join(shared + ups, '/'), "/" + Join(shared + rest, '/'), true, preferRelative) ==
            if ups == [] && rest == [] then "./"
            else if ups == [] && |rest| == 1 then "./" + rest[0]
            else if shared == [] && |ups| > 1 && !preferRelative then "/" + Join(rest, '/')
            else Dots(|ups|) + Join(rest, '/')
  {
    hide *;
    var from, to := "/" + Join(shared + ups, '/'), "/" + Join(shared + rest, '/');
    PlaceIs(shared + ups);
    PlaceIs(shared + rest);
    StartIs(from, shared + ups);
    ShortestIsForm(from, to, true, preferRelative);
    ParentIff(shared, ups, rest);
    if SameParent("/", shared + ups + ["dummy_file"], "/", shared + rest) {
      SiblingText(shared, rest);
    } else {
      RestIsPlain(shared, rest);
      Divided(shared, ups, rest, preferRelative);
    }
  }

  lemma SiblingText(shared: seq<string>, rest: seq<string>)
    requires |rest| == 1 || (shared == [] && rest == [])
    ensures var target := shared + rest;
            "./" + (if target == [] then "" else Last(target)) == if rest == [] then "./" else "./" + rest[0]
  {
    assert "./" + "" == "./";
  }

  lemma Divided(shared: seq<string>, ups: seq<string>, rest: seq<string>, preferRelative: bool)
    requires Names(shared + ups + ["dummy_file"]) && Names(shared + rest) && IsRoot("/") && AllPlain(rest)
    requires (ups == [] || rest == [] || ups[0] != rest[0]) && (ups == [] && rest != [] ==> rest[0] != "dummy_file")
    ensures Form("/", shared + ups + ["dummy_file"], "/", shared + rest, preferRelative) ==
            if shared == [] && |ups| > 1 && !preferRelative then "/" + Join(rest, '/')
            else if ups == [] && rest == [] then "./"
            else Dots(|ups|) + Join(rest, '/')
  {
    hide *;
    var start, target := shared + ups + ["dummy_file"], shared + rest;
    assert start == shared + (ups + ["dummy_file"]) && target[|shared|..] == rest;
    SharedAt(shared, ups + ["dummy_file"], rest);
    FormIs(start, target, |shared|, preferRelative);
    DotsAreUps(|ups|);
    JoinedIsEmpty(rest);
    Chosen(Dots(|ups|), Join(rest, '/'), |ups|);
    if shared == [] { assert target == rest; }
  }

  lemma RestIsPlain(shared: seq<string>, rest: seq<string>)
    requires AllPlain(shared + rest)
    ensures AllPlain(rest)
  {
    forall k | 0 <= k < |rest| ensures IsPlain(rest[k]) { assert (shared + rest)[|shared| + k] == rest[k]; }
  }

  lemma StartIs(from: string, cs: seq<string>)
    requires Place(from) == cs && Root(Slashes(from)) == "/"
    ensures StartParts(from, true) == cs + ["dummy_file"] && StartRoot(from, true) == "/"
  {
    hide Place, Root, Slashes;
  }

  lemma ParentIff(shared: seq<string>, ups: seq<string>, rest: seq<string>)
    requires ups == [] || rest == [] || ups[0] != rest[0]
    ensures SameParent("/", shared + ups + ["dummy_file"], "/", shared + rest) <==>
            ups == [] && (|rest| == 1 || (shared == [] && rest == []))
  {
    var start, target := shared + ups + ["dummy_file"], shared + rest;
    assert DropLast(start) == shared + ups;
    if rest != [] {
      assert DropLast(target) == shared + DropLast(rest);
      Cancelled(shared, ups, DropLast(rest));
      assert |rest| > 1 ==> DropLast(rest)[0] == rest[0];
    }
  }

  lemma Cancelled(s: seq<string>, a: seq<string>, b: seq<string>)
    ensures s + a == s + b <==> a == b
  {
    assert (s + a)[|s|..] == a && (s + b)[|s|..] == b;
  }

  lemma FormIs(start: seq<string>, target: seq<string>, n: nat, preferRelative: bool)
    requires Names(start) && Names(target) && IsRoot("/") && n == Shared(start, target) && n <= |target| && start != []
    ensures Form("/", start, "/", target, preferRelative) ==
            var depth := if |start| > n then |start| - n - 1 else 0;
            if !preferRelative && n == 0 && depth > 1 then "/" + Join(target, '/')
            else OrHere(Ups(depth) + Join(target[n..], '/'))
  {
    hide Shared, Join;
    assert "/"[1..] == "";
    assert target[0..] == target;
    assert "" + Join(target, '/') == Join(target, '/');
  }

  lemma Chosen(dots: string, rest: string, n: nat)
    requires dots == Dots(n)
    ensures OrHere(dots + rest) == if n == 0 && rest == "" then "./" else dots + rest
  {
  }
}
