/** `find_shortest_path` (crates/vivacity-core/src/pathutil.rs): the relative path it finds leads
    back to the target, and the one family of inputs for which it does not. */
module ShortestPath {
  import opened Common
  import opened Text
  import opened Paths

  // ----- the string functions it is made of ---------------------------------------------------

  /** `php_dirname`. */
  function Dirname(p: string): string {
    match LastIndex(p, '/')
    case None => "."
    case Some(i) => if i == 0 then "/" else p[..i]
  }

  /** `php_basename`. */
  function Basename(p: string): string {
    match LastIndex(p, '/')
    case None => p
    case Some(i) => p[i + 1..]
  }

  function TrimSlashes(p: string): string {
    if p != "" && p[|p| - 1] == '/' then TrimSlashes(p[..|p| - 1]) else p
  }

  function CountSlashes(s: string): nat {
    if s == "" then 0 else (if s[0] == '/' then 1 else 0) + CountSlashes(s[1..])
  }

  function Ups(n: nat): string {
    if n == 0 then "" else "../" + Ups(n - 1)
  }

  function Measure(common: string): nat { if common == "/" || common == "." then 0 else |common| + 1 }

  predicate Reached(from: string, common: string) {
    common + "/" <= from + "/" || common == "/" || common == "."
  }

  /** Walks `common` up to the first prefix of `from`. */
  function CommonPath(from: string, common: string): string
    decreases Measure(common)
  {
    if Reached(from, common) then common else CommonPath(from, Dirname(common))
  }

  function After(s: string, n: nat): string { if n <= |s| then s[n..] else "" }

  function Start(from: string, directories: bool): string {
    if directories then TrimSlashes(Normalized(from)) + "/dummy_file" else Normalized(from)
  }

  function Shortest(from: string, to: string, directories: bool, preferRelative: bool): string {
    var start, target := Start(from, directories), Normalized(to);
    if Dirname(start) == Dirname(target) then "./" + Basename(target) else Between(start, target, preferRelative)
  }

  /** The path from `start` to `target` over the directory they share. */
  function Between(start: string, target: string, preferRelative: bool): string {
    var common := CommonPath(start, target);
    if !(common <= start) || common == "." then target else Over(TrimSlashes(common) + "/", start, target, preferRelative)
  }

  function Over(shared: string, start: string, target: string, preferRelative: bool): string {
    var depth := CountSlashes(After(start, |shared|));
    if !preferRelative && shared == "/" && depth > 1 then target else OrHere(Ups(depth) + After(target, |shared|))
  }

  function OrHere(result: string): string { if result == "" then "./" else result }

  method FindCommonPath(from: string, to: string) returns (common: string)
    ensures common == CommonPath(from, to)
  {
    common := to;
    while !Reached(from, common)
      invariant CommonPath(from, common) == CommonPath(from, to)
      decreases Measure(common)
    {
      common := Dirname(common);
    }
  }

  method FindShortestPath(from: string, to: string, directories: bool, preferRelative: bool) returns (r: string)
    ensures r == Shortest(from, to, directories, preferRelative)
  {
    var start := NormalizePath(from);
    var target := NormalizePath(to);
    if directories { start := TrimSlashes(start) + "/dummy_file"; }
    if Dirname(start) == Dirname(target) { return "./" + Basename(target); }
    r := FindBetween(start, target, preferRelative);
  }

  method FindBetween(start: string, target: string, preferRelative: bool) returns (r: string)
    ensures r == Between(start, target, preferRelative)
  {
    var common := FindCommonPath(start, target);
    if !(common <= start) || common == "." { return target; }
    common := TrimSlashes(common) + "/";
    var depth := CountSlashes(After(start, |common|));
    if !preferRelative && common == "/" && depth > 1 { return target; }
    r := Ups(depth) + After(target, |common|);
    if r == "" { r := "./"; }
  }

  // ----- absolute paths as component lists -------------------------------------------------------

  predicate IsRoot(root: string) { root == "/" || root == "//" }

  function PathText(root: string, parts: seq<string>): string { root + JoinPath(parts) }

  lemma {:induction false} LastSlashAt(x: string, y: string)
    requires '/' !in y
    ensures LastIndex(x + "/" + y, '/') == Some(|x|)
    decreases |y|
  {
    var s := x + "/" + y;
    if y != "" {
      assert s[..|s| - 1] == x + "/" + y[..|y| - 1];
      LastSlashAt(x, y[..|y| - 1]);
    }
  }

  lemma JoinConcat(xs: seq<string>, ys: seq<string>)
    requires xs != [] && ys != []
    ensures JoinPath(xs + ys) == JoinPath(xs) + "/" + JoinPath(ys)
  {
    JoinBoth(xs, ys, '/');
  }

  function Last(parts: seq<string>): string
    requires parts != []
  {
    parts[|parts| - 1]
  }

  lemma LastPart(root: string, parts: seq<string>)
    requires IsRoot(root) && Names(parts)
    ensures Dirname(PathText(root, parts)) == if |parts| <= 1 then "/" else PathText(root, DropLast(parts))
    ensures Basename(PathText(root, parts)) == if parts == [] then "" else Last(parts)
  {
    hide Dirname, Basename;
    var y := if parts == [] then "" else Last(parts);
    assert parts != [] ==> IsName(Last(parts));
    assert '/' !in y;
    if |parts| <= 1 {
      assert PathText(root, parts) == root[1..] + "/" + y;
      hide *;
      CutLast(PathText(root, parts), root[1..], y);
    } else {
      assert parts == DropLast(parts) + [y];
      JoinConcat(DropLast(parts), [y]);
      assert PathText(root, parts) == PathText(root, DropLast(parts)) + "/" + y;
      assert PathText(root, DropLast(parts)) != "";
      hide *;
      CutLast(PathText(root, parts), PathText(root, DropLast(parts)), y);
    }
  }

  lemma CutLast(s: string, x: string, y: string)
    requires s == x + "/" + y && '/' !in y
    ensures Dirname(s) == (if x == "" then "/" else x) && Basename(s) == y
  {
    LastSlashAt(x, y);
  }

  /** Every component with the slash behind it. */
  function Slashed(parts: seq<string>): string {
    if parts == [] then "" else parts[0] + ("/" + Slashed(parts[1..]))
  }

  lemma {:induction false} SlashedIsJoin(parts: seq<string>)
    requires parts != []
    ensures Slashed(parts) == JoinPath(parts) + "/"
  {
    if |parts| > 1 { SlashedIsJoin(parts[1..]); }
  }

  /** Where the first component ends is where the first slash is. */
  lemma FirstComponent(x: string, r: string, y: string, r': string)
    requires '/' !in x && '/' !in y && x + ("/" + r) <= y + ("/" + r')
    ensures x == y && r <= r'
  {
    var s, t := x + ("/" + r), y + ("/" + r');
    assert forall k :: 0 <= k < |x| ==> s[k] == x[k];
    assert forall k :: 0 <= k < |y| ==> t[k] == y[k];
    assert s[|x|] == '/' && t[|y|] == '/';
    assert |x| == |y|;
    assert x == s[..|x|] && y == t[..|y|];
    assert r == s[|x| + 1..] && r' == t[|y| + 1..];
  }

  lemma {:induction false} PrefixOfSlashed(xs: seq<string>, ys: seq<string>)
    requires Names(xs) && Names(ys)
    ensures Slashed(xs) <= Slashed(ys) <==> xs <= ys
    decreases |xs|
  {
    if xs != [] && ys != [] {
      assert IsName(xs[0]) && IsName(ys[0]);
      PrefixOfSlashed(xs[1..], ys[1..]);
      assert xs == [xs[0]] + xs[1..] && ys == [ys[0]] + ys[1..];
      if Slashed(xs) <= Slashed(ys) {
        FirstComponent(xs[0], Slashed(xs[1..]), ys[0], Slashed(ys[1..]));
      }
      if xs <= ys { assert xs[1..] <= ys[1..]; }
    }
  }

  /** `common` is reached as soon as it is a directory above `from`. */
  lemma PrefixText(root: string, xs: seq<string>, root': string, ys: seq<string>)
    requires IsRoot(root) && IsRoot(root') && Names(xs) && Names(ys) && xs != []
    ensures PathText(root, xs) + "/" <= PathText(root', ys) + "/" <==> root == root' && xs <= ys
  {
    SlashedIsJoin(xs);
    assert IsName(xs[0]) && xs[0][0] != '/';
    var s := PathText(root, xs) + "/";
    assert s == root + Slashed(xs) && Slashed(xs)[0] == xs[0][0];
    var t := PathText(root', ys) + "/";
    assert s[|root|] != '/';
    if ys == [] {
      assert t == root' + "/";
      assert forall k :: 0 <= k < |t| ==> t[k] == '/';
    } else {
      SlashedIsJoin(ys);
      assert IsName(ys[0]) && ys[0][0] != '/';
      assert t == root' + Slashed(ys) && Slashed(ys)[0] == ys[0][0];
      assert t[|root'|] != '/';
      PrefixOfSlashed(xs, ys);
      if root == root' {
        assert s[|root|..] == Slashed(xs) && t[|root|..] == Slashed(ys);
      }
    }
  }

  // ----- the common directory -----------------------------------------------------------------------

  /** How many components two directories share from the top. */
  function Shared(xs: seq<string>, ys: seq<string>): nat {
    if xs != [] && ys != [] && xs[0] == ys[0] then 1 + Shared(xs[1..], ys[1..]) else 0
  }

  lemma {:induction false} SharedIsLongest(xs: seq<string>, ys: seq<string>, k: nat)
    requires k <= |ys|
    ensures Shared(xs, ys) <= |xs| && Shared(xs, ys) <= |ys|
    ensures ys[..k] <= xs <==> k <= Shared(xs, ys)
    decreases |xs|
  {
    if xs != [] && ys != [] && xs[0] == ys[0] {
      SharedIsLongest(xs[1..], ys[1..], if k > 0 then k - 1 else 0);
      if k > 0 {
        assert ys[1..][..k - 1] == ys[..k][1..];
        assert ys[..k] == [ys[0]] + ys[..k][1..] && xs == [xs[0]] + xs[1..];
      }
    } else if k > 0 {
      assert ys[..k][0] == ys[0];
    }
  }

  function SharedUnder(root: string, from: seq<string>, root': string, to: seq<string>): nat {
    if root == root' then Shared(from, to) else 0
  }

  /** The loop ends at the deepest directory above both. */
  lemma {:induction false} CommonIs(root: string, from: seq<string>, root': string, to: seq<string>, k: nat)
    requires IsRoot(root) && IsRoot(root') && Names(from) && Names(to)
    requires SharedUnder(root, from, root', to) <= k <= |to|
    ensures var n := SharedUnder(root, from, root', to);
            n <= |from| && n <= |to| &&
            var common := CommonPath(PathText(root, from), PathText(root', to[..k]));
            if n > 0 then common == PathText(root', to[..n]) else common == "/" || (common == "//" && root == "//")
    decreases k
  {
    SharedIsLongest(from, to, 0);
    if k == 0 {
      var s := PathText(root, from);
      assert PathText(root', to[..0]) == root';
      if root' == "//" && from != [] {
        assert IsName(from[0]) && JoinPath(from)[0] == from[0][0];
        assert (s + "/")[|root|] != '/';
      }
      assert Dirname("//") == "/" by { LastSlashAt("/", ""); }
      assert "//" + "/" <= s + "/" ==> (s + "/")[1] == '/' && (s + "/")[2] == '/';
    } else {
      PrefixText(root', to[..k], root, from);
      SharedIsLongest(from, to, k);
      var common := PathText(root', to[..k]);
      assert IsName(to[..k][0]) && JoinPath(to[..k]) != "" && JoinPath(to[..k])[0] == to[0][0];
      assert common[|root'|] == to[0][0];
      assert common != "/" && common != ".";
      if k != SharedUnder(root, from, root', to) {
        LastPart(root', to[..k]);
        UpOne(root, from, root', to, k);
      }
    }
  }

  lemma UpOne(root: string, from: seq<string>, root': string, to: seq<string>, k: nat)
    requires IsRoot(root) && IsRoot(root') && Names(from) && Names(to)
    requires SharedUnder(root, from, root', to) < k <= |to|
    requires Dirname(PathText(root', to[..k])) == if k <= 1 then "/" else PathText(root', DropLast(to[..k]))
    requires CommonPath(PathText(root, from), PathText(root', to[..k])) ==
             CommonPath(PathText(root, from), Dirname(PathText(root', to[..k])))
    ensures var n := SharedUnder(root, from, root', to);
            n <= |from| && n <= |to| &&
            var common := CommonPath(PathText(root, from), PathText(root', to[..k]));
            if n > 0 then common == PathText(root', to[..n]) else common == "/" || (common == "//" && root == "//")
    decreases k, 0
  {
    hide *;
    SharedUnderBoth(root, from, root', to);
    if k > 1 {
      DropOne(to, k);
      CommonIs(root, from, root', to, k - 1);
    } else {
      RootStops(PathText(root, from));
    }
  }

  lemma SharedUnderBoth(root: string, from: seq<string>, root': string, to: seq<string>)
    ensures SharedUnder(root, from, root', to) <= |from| && SharedUnder(root, from, root', to) <= |to|
  {
    SharedIsLongest(from, to, 0);
  }

  lemma DropOne(s: seq<string>, k: nat)
    requires 0 < k <= |s|
    ensures DropLast(s[..k]) == s[..k - 1]
  {
  }

  lemma RootStops(from: string)
    ensures CommonPath(from, "/") == "/"
  {
  }

  // ----- what the result looks like -----------------------------------------------------------------

  lemma {:induction false} CountJoin(parts: seq<string>)
    requires Names(parts)
    ensures CountSlashes(JoinPath(parts)) == if parts == [] then 0 else |parts| - 1
  {
    if parts != [] {
      assert IsName(parts[0]);
      CountNone(parts[0]);
      if |parts| > 1 {
        CountJoin(parts[1..]);
        CountConcat(parts[0], "/" + JoinPath(parts[1..]));
        assert JoinPath(parts) == parts[0] + ("/" + JoinPath(parts[1..]));
        assert ("/" + JoinPath(parts[1..]))[1..] == JoinPath(parts[1..]);
      }
    }
  }

  lemma {:induction false} CountNone(s: string)
    requires '/' !in s
    ensures CountSlashes(s) == 0
  {
    if s != "" { CountNone(s[1..]); }
  }

  lemma {:induction false} CountConcat(s: string, t: string)
    ensures CountSlashes(s + t) == CountSlashes(s) + CountSlashes(t)
  {
    if s == "" {
      assert s + t == t;
    } else {
      assert (s + t)[1..] == s[1..] + t;
      CountConcat(s[1..], t);
    }
  }

  lemma {:induction false} LastCharacter(parts: seq<string>)
    requires Names(parts) && parts != []
    ensures JoinPath(parts) != "" && JoinPath(parts)[|JoinPath(parts)| - 1] != '/'
  {
    if |parts| == 1 {
      assert IsName(parts[0]);
    } else {
      LastCharacter(parts[1..]);
    }
  }

  lemma TrimText(root: string, parts: seq<string>)
    requires IsRoot(root) && Names(parts)
    ensures TrimSlashes(PathText(root, parts)) == if parts == [] then "" else PathText(root, parts)
  {
    if parts == [] {
      assert PathText(root, parts) == root;
      assert "//"[..1] == "/";
    } else {
      LastCharacter(parts);
    }
  }

  /** What is left of a path behind its first `n` components. */
  lemma AfterShared(root: string, parts: seq<string>, n: nat)
    requires IsRoot(root) && Names(parts) && 0 < n <= |parts|
    ensures After(PathText(root, parts), |PathText(root, parts[..n]) + "/"|) == JoinPath(parts[n..])
  {
    if n < |parts| {
      assert parts == parts[..n] + parts[n..];
      JoinConcat(parts[..n], parts[n..]);
      assert PathText(root, parts) == PathText(root, parts[..n]) + "/" + JoinPath(parts[n..]);
    } else {
      assert parts[..n] == parts;
    }
  }

  lemma AfterRoot(root: string, parts: seq<string>)
    requires IsRoot(root) && Names(parts)
    ensures After(PathText(root, parts), 1) == root[1..] + JoinPath(parts)
    ensures CountSlashes(After(PathText(root, parts), 1)) == |root| - 1 + if parts == [] then 0 else |parts| - 1
  {
    CountJoin(parts);
    CountConcat(root[1..], JoinPath(parts));
  }

  /** How often the path goes up. */
  function Depth(root: string, from: seq<string>, n: nat): nat
    requires IsRoot(root)
  {
    if n > 0 then (if |from| > n then |from| - n - 1 else 0)
    else |root| - 1 + if from == [] then 0 else |from| - 1
  }

  /** `Between`, told in components. */
  function Form(root: string, from: seq<string>, root': string, to: seq<string>, preferRelative: bool): string
    requires IsRoot(root) && IsRoot(root') && Names(from) && Names(to)
  {
    SharedIsLongest(from, to, 0);
    var n := SharedUnder(root, from, root', to);
    var depth := Depth(root, from, n);
    if !preferRelative && n == 0 && depth > 1 then PathText(root', to)
    else OrHere(Ups(depth) + if n > 0 then JoinPath(to[n..]) else root'[1..] + JoinPath(to))
  }

  lemma BetweenIsForm(root: string, from: seq<string>, root': string, to: seq<string>, preferRelative: bool)
    requires IsRoot(root) && IsRoot(root') && Names(from) && Names(to)
    ensures Between(PathText(root, from), PathText(root', to), preferRelative) == Form(root, from, root', to, preferRelative)
  {
    SharedIsLongest(from, to, 0);
    var n := SharedUnder(root, from, root', to);
    assert to[..|to|] == to;
    CommonIs(root, from, root', to, |to|);
    if n > 0 {
      BetweenBelow(root, from, to, n, preferRelative);
    } else {
      BetweenApart(root, from, root', to, preferRelative);
    }
  }

  lemma BetweenBelow(root: string, from: seq<string>, to: seq<string>, n: nat, preferRelative: bool)
    requires IsRoot(root) && Names(from) && Names(to) && n == Shared(from, to) && 0 < n <= |from| && n <= |to|
    requires CommonPath(PathText(root, from), PathText(root, to)) == PathText(root, to[..n])
    ensures Between(PathText(root, from), PathText(root, to), preferRelative) == Form(root, from, root, to, preferRelative)
  {
    TrimText(root, to[..n]);
    LastCharacter(to[..n]);
    assert |PathText(root, to[..n])| > 1;
    SharedIsLongest(from, to, n);
    assert from[..n] == to[..n];
    PrefixOfText(root, from, n);
    OverBelow(root, from, to, n, preferRelative);
  }

  lemma OverBelow(root: string, from: seq<string>, to: seq<string>, n: nat, preferRelative: bool)
    requires IsRoot(root) && Names(from) && Names(to) && n == Shared(from, to) && 0 < n <= |from| && n <= |to|
    requires from[..n] == to[..n] && |PathText(root, to[..n])| > 1
    ensures Over(PathText(root, to[..n]) + "/", PathText(root, from), PathText(root, to), preferRelative)
         == Form(root, from, root, to, preferRelative)
  {
    AfterShared(root, from, n);
    AfterShared(root, to, n);
    CountJoin(from[n..]);
  }

  lemma PrefixOfText(root: string, from: seq<string>, n: nat)
    requires 0 < n <= |from|
    ensures PathText(root, from[..n]) <= PathText(root, from)
  {
    if n < |from| {
      assert from == from[..n] + from[n..];
      JoinConcat(from[..n], from[n..]);
      assert PathText(root, from) == PathText(root, from[..n]) + ("/" + JoinPath(from[n..]));
    } else {
      assert from[..n] == from;
    }
  }

  lemma BetweenApart(root: string, from: seq<string>, root': string, to: seq<string>, preferRelative: bool)
    requires IsRoot(root) && IsRoot(root') && Names(from) && Names(to) && SharedUnder(root, from, root', to) == 0
    requires var common := CommonPath(PathText(root, from), PathText(root', to));
             common == "/" || (common == "//" && root == "//")
    ensures Between(PathText(root, from), PathText(root', to), preferRelative) == Form(root, from, root', to, preferRelative)
  {
    TrimText("/", []);
    TrimText("//", []);
    assert PathText("/", []) == "/" && PathText("//", []) == "//";
    assert root <= PathText(root, from) && "/" <= PathText(root, from);
    OverRoot(root, from, root', to, preferRelative);
  }

  lemma OverRoot(root: string, from: seq<string>, root': string, to: seq<string>, preferRelative: bool)
    requires IsRoot(root) && IsRoot(root') && Names(from) && Names(to) && SharedUnder(root, from, root', to) == 0
    ensures Over("/", PathText(root, from), PathText(root', to), preferRelative) == Form(root, from, root', to, preferRelative)
  {
    AfterRoot(root, from);
    AfterRoot(root', to);
  }

  /** The two paths are entries of one directory. */
  predicate SameParent(root: string, from: seq<string>, root': string, to: seq<string>) {
    (|from| <= 1 && |to| <= 1) || (|from| > 1 && |to| > 1 && root == root' && DropLast(from) == DropLast(to))
  }

  lemma SameParentText(root: string, from: seq<string>, root': string, to: seq<string>)
    requires IsRoot(root) && IsRoot(root') && Names(from) && Names(to)
    ensures Dirname(PathText(root, from)) == Dirname(PathText(root', to)) <==> SameParent(root, from, root', to)
  {
    hide Dirname, Basename;
    LastPart(root, from);
    LastPart(root', to);
    if |from| > 1 { LastCharacter(DropLast(from)); }
    if |to| > 1 { LastCharacter(DropLast(to)); }
    if |from| > 1 && |to| > 1 { SameText(root, DropLast(from), root', DropLast(to)); }
  }

  lemma SameText(root: string, xs: seq<string>, root': string, ys: seq<string>)
    requires IsRoot(root) && IsRoot(root') && Names(xs) && Names(ys) && xs != [] && ys != []
    ensures PathText(root, xs) == PathText(root', ys) <==> root == root' && xs == ys
  {
    PrefixText(root, xs, root', ys);
    PrefixText(root', ys, root, xs);
  }

  // ----- the target is found again -------------------------------------------------------------------

  /** What a path text means when read from directory `dir`. */
  function Resolve(dir: seq<string>, path: string): seq<string> {
    Walk(if "/" <= path then [] else dir, Chunks(path))
  }

  function Up(dir: seq<string>, n: nat): seq<string> {
    if n == 0 then dir else Up(DropLast(dir), n - 1)
  }

  lemma {:induction false} UpIsPrefix(dir: seq<string>, n: nat)
    ensures Up(dir, n) == if n <= |dir| then dir[..|dir| - n] else []
  {
    if n > 0 {
      if dir == [] { assert DropLast(dir) == []; }
      UpIsPrefix(DropLast(dir), n - 1);
    }
  }

  lemma WalkParent(dir: seq<string>, rest: string)
    ensures Walk(dir, Chunks("../" + rest)) == Walk(DropLast(dir), Chunks(rest))
  {
    assert "../" + rest == ".." + "/" + rest;
    WalkSlash(dir, "..", rest);
    SplitWhole("..", '/');
    assert Walk(dir, [".."]) == DropLast(dir);
  }

  lemma {:induction false} WalkUps(dir: seq<string>, n: nat, rest: string)
    ensures Walk(dir, Chunks(Ups(n) + rest)) == Walk(Up(dir, n), Chunks(rest))
    decreases n
  {
    hide Walk, Chunks;
    if n == 0 {
      assert Ups(0) + rest == rest;
    } else {
      assert Ups(n) + rest == "../" + (Ups(n - 1) + rest);
      WalkParent(dir, Ups(n - 1) + rest);
      WalkUps(DropLast(dir), n - 1, rest);
    }
  }

  lemma WalkJoined(dir: seq<string>, parts: seq<string>)
    requires Names(parts)
    ensures Walk(dir, Chunks(JoinPath(parts))) == dir + parts
  {
    forall k | 0 <= k < |parts| ensures '/' !in parts[k] { assert IsName(parts[k]); }
    if parts != [] { SplitJoin(parts, '/'); }
    WalkNames(dir, parts);
    assert dir + [] == dir;
  }

  lemma WalkSlashFirst(dir: seq<string>, rest: string)
    ensures Walk(dir, Chunks("/" + rest)) == Walk(dir, Chunks(rest))
  {
    assert "/" + rest == "" + "/" + rest;
    WalkSlash(dir, "", rest);
  }

  lemma WalkText(dir: seq<string>, root: string, parts: seq<string>)
    requires IsRoot(root) && Names(parts)
    ensures Walk(dir, Chunks(PathText(root, parts))) == dir + parts
    ensures Walk(dir, Chunks(root[1..] + JoinPath(parts))) == dir + parts
  {
    WalkJoined(dir, parts);
    WalkSlashFirst(dir, root[1..] + JoinPath(parts));
    assert PathText(root, parts) == "/" + (root[1..] + JoinPath(parts));
    if root == "//" {
      assert root[1..] == "/";
      WalkSlashFirst(dir, JoinPath(parts));
    } else {
      assert root[1..] + JoinPath(parts) == JoinPath(parts);
    }
  }

  lemma WalkHere(dir: seq<string>)
    ensures Walk(dir, Chunks("./")) == dir && Chunks("") == [""]
  {
    assert "./" == "." + "/" + "";
    WalkSlash(dir, ".", "");
    SplitWhole(".", '/');
  }

  lemma UpsFirst(n: nat, rest: string)
    ensures n > 0 ==> Ups(n) + rest != "" && (Ups(n) + rest)[0] == '.'
    ensures n == 0 ==> Ups(n) + rest == rest
  {
  }

  /** Below a shared directory: right, unless the file to start from is itself above the target. */
  lemma FormBelow(root: string, from: seq<string>, to: seq<string>, preferRelative: bool)
    requires IsRoot(root) && Names(from) && Names(to) && Shared(from, to) > 0
    ensures Resolve(DropLast(from), Form(root, from, root, to, preferRelative)) == to <==> !(from <= to)
    ensures !("/" <= Form(root, from, root, to, preferRelative))
  {
    SharedPart(from, to);
    hide Shared, Up, Ups, Resolve, OrHere;
    var n := Shared(from, to);
    ResolveBelow(DropLast(from), Depth(root, from, n), to[n..]);
    assert Form(root, from, root, to, preferRelative) == OrHere(Ups(Depth(root, from, n)) + JoinPath(to[n..]));
    EndsAtTarget(from, to);
  }

  lemma EndsAtTarget(from: seq<string>, to: seq<string>)
    requires Shared(from, to) > 0
    ensures Shared(from, to) <= |from| && Shared(from, to) <= |to|
    ensures var n := Shared(from, to);
            Up(DropLast(from), if |from| > n then |from| - n - 1 else 0) + to[n..] == to <==> !(from <= to)
  {
    hide *;
    var n := Shared(from, to);
    FromIsAbove(from, to);
    UpToShared(from, to);
    DropShortens(from);
    HeadAndRest(Up(DropLast(from), if |from| > n then |from| - n - 1 else 0), to, n);
  }

  lemma DropShortens(s: seq<string>)
    requires s != []
    ensures |DropLast(s)| == |s| - 1
  {
  }

  lemma HeadAndRest(head: seq<string>, s: seq<string>, n: nat)
    requires n <= |s| && |head| <= n
    ensures head + s[n..] == s <==> head == s[..n]
  {
    assert s == s[..n] + s[n..];
    if |head| < n { assert |head + s[n..]| < |s|; }
    if |head| == n && head + s[n..] == s { assert head == (head + s[n..])[..n]; }
  }

  /** Going up `Depth` times from the directory of `from` ends where `to` branches off. */
  lemma UpToShared(from: seq<string>, to: seq<string>)
    requires Shared(from, to) > 0
    ensures Shared(from, to) <= |from| && Shared(from, to) <= |to|
    ensures var n := Shared(from, to);
            Up(DropLast(from), if |from| > n then |from| - n - 1 else 0) == if |from| > n then to[..n] else DropLast(from)
  {
    SharedPart(from, to);
    var n := Shared(from, to);
    if |from| > n {
      UpIsPrefix(DropLast(from), |from| - n - 1);
      assert DropLast(from)[..n] == from[..n];
    }
  }

  lemma SharedPart(from: seq<string>, to: seq<string>)
    ensures var n := Shared(from, to); n <= |from| && n <= |to| && from[..n] == to[..n]
  {
    SharedIsLongest(from, to, 0);
    SharedIsLongest(from, to, Shared(from, to));
  }

  lemma FromIsAbove(from: seq<string>, to: seq<string>)
    ensures from <= to <==> Shared(from, to) == |from|
  {
    SharedIsLongest(from, to, 0);
    SharedIsLongest(to, from, |from|);
    SharedIsSymmetric(from, to);
    assert from[..|from|] == from;
  }

  lemma {:induction false} SharedIsSymmetric(xs: seq<string>, ys: seq<string>)
    ensures Shared(xs, ys) == Shared(ys, xs)
    decreases |xs|
  {
    if xs != [] && ys != [] && xs[0] == ys[0] { SharedIsSymmetric(xs[1..], ys[1..]); }
  }

  lemma ResolveBelow(base: seq<string>, depth: nat, parts: seq<string>)
    requires Names(parts)
    ensures Resolve(base, OrHere(Ups(depth) + JoinPath(parts))) == Up(base, depth) + parts
    ensures !("/" <= OrHere(Ups(depth) + JoinPath(parts)))
  {
    var rest := JoinPath(parts);
    WalkUps(base, depth, rest);
    WalkJoined(Up(base, depth), parts);
    UpsFirst(depth, rest);
    WalkHere(base);
    if parts != [] { FirstIsNotSlash(parts); }
    assert Up(base, depth) + [] == Up(base, depth);
  }

  lemma FirstIsNotSlash(parts: seq<string>)
    requires Names(parts) && parts != []
    ensures JoinPath(parts) != "" && JoinPath(parts)[0] != '/'
  {
    assert IsName(parts[0]) && JoinPath(parts)[0] == parts[0][0];
  }

  lemma FormApart(root: string, from: seq<string>, root': string, to: seq<string>, preferRelative: bool)
    requires IsRoot(root) && IsRoot(root') && Names(from) && Names(to) && SharedUnder(root, from, root', to) == 0
    ensures Resolve(DropLast(from), Form(root, from, root', to, preferRelative)) == to
  {
    var base := DropLast(from);
    var depth := Depth(root, from, 0);
    var rest := root'[1..] + JoinPath(to);
    assert Form(root, from, root', to, preferRelative) ==
           if !preferRelative && depth > 1 then PathText(root', to) else OrHere(Ups(depth) + rest);
    assert |base| <= depth && "/" <= PathText(root', to);
    UpIsPrefix(base, depth);
    assert Up(base, depth) == [] && [] + to == to;
    hide Form, OrHere, Ups, PathText, Walk, Chunks, Up, Depth, JoinPath, Names;
    WalkText([], root', to);
    ResolveUps(base, depth, rest);
  }

  /** Up to the root and down again. */
  lemma ResolveUps(base: seq<string>, depth: nat, rest: string)
    requires Up(base, depth) == [] && |base| <= depth
    ensures Resolve(base, OrHere(Ups(depth) + rest)) == Walk([], Chunks(rest))
  {
    hide Walk, Chunks, Up, Ups;
    WalkUps(base, depth, rest);
    UpsFirst(depth, rest);
    WalkHere([]);
    if Ups(depth) + rest == "" { WalkNowhere(); }
  }

  lemma WalkNowhere()
    ensures Walk([], Chunks("")) == []
  {
    WalkHere([]);
  }

  lemma SiblingForm(from: seq<string>, to: seq<string>, name: string)
    requires Names(from) && Names(to) && DropLast(from) == DropLast(to)
    requires name == if to == [] then "" else Last(to)
    ensures Resolve(DropLast(from), "./" + name) == to
  {
    var base := DropLast(from);
    assert "./" + name == "." + "/" + name;
    WalkSlash(base, ".", name);
    SplitWhole(".", '/');
    if to != [] {
      assert IsName(Last(to));
      assert to == base + [Last(to)];
    }
    SplitWhole(name, '/');
  }

  /** The start as components: a directory counts as the `dummy_file` in it. */
  function StartParts(from: string, directories: bool): seq<string> {
    if directories then Place(from) + ["dummy_file"] else Place(from)
  }

  function StartRoot(from: string, directories: bool): string {
    if directories && Place(from) == [] then "/" else Root(Slashes(from))
  }

  lemma StartText(from: string, directories: bool)
    requires Root(Slashes(from)) != ""
    ensures Start(from, directories) == PathText(StartRoot(from, directories), StartParts(from, directories))
    ensures Names(StartParts(from, directories)) && IsRoot(StartRoot(from, directories))
  {
    AbsoluteForm(from);
    PlaceGivesNames(from);
    hide Normalized, Place, TrimSlashes;
    if directories {
      EntryText(Root(Slashes(from)), Place(from), "dummy_file");
      assert "/" + "dummy_file" == "/dummy_file";
      assert IsName("dummy_file");
    }
  }

  lemma EntryText(root: string, parts: seq<string>, name: string)
    requires IsRoot(root) && Names(parts)
    ensures TrimSlashes(PathText(root, parts)) + ("/" + name) ==
            PathText(if parts == [] then "/" else root, parts + [name])
  {
    TrimText(root, parts);
    assert JoinPath([name]) == name;
    if parts == [] {
      assert parts + [name] == [name];
    } else {
      JoinConcat(parts, [name]);
      Regroup(root, JoinPath(parts), name);
    }
  }

  lemma Regroup(a: string, b: string, c: string)
    ensures a + (b + "/" + c) == a + b + ("/" + c)
  {
  }

  lemma ShortestIsForm(from: string, to: string, directories: bool, preferRelative: bool)
    requires Root(Slashes(from)) != "" && Root(Slashes(to)) != ""
    ensures Names(StartParts(from, directories)) && Names(Place(to)) && IsRoot(StartRoot(from, directories)) && IsRoot(Root(Slashes(to)))
    ensures Shortest(from, to, directories, preferRelative) ==
            if SameParent(StartRoot(from, directories), StartParts(from, directories), Root(Slashes(to)), Place(to))
            then "./" + (if Place(to) == [] then "" else Last(Place(to)))
            else Form(StartRoot(from, directories), StartParts(from, directories), Root(Slashes(to)), Place(to), preferRelative)
  {
    StartText(from, directories);
    AbsoluteForm(to);
    PlaceGivesNames(to);
    var root, parts := StartRoot(from, directories), StartParts(from, directories);
    SameParentText(root, parts, Root(Slashes(to)), Place(to));
    LastPart(Root(Slashes(to)), Place(to));
    BetweenIsForm(root, parts, Root(Slashes(to)), Place(to), preferRelative);
  }

  /** The file the path starts from lies above the target. */
  predicate StartIsAbove(from: string, to: string, directories: bool) {
    var start, target := StartParts(from, directories), Place(to);
    start != [] && start < target && StartRoot(from, directories) == Root(Slashes(to))
  }

  /** Read from where it starts, the path leads to the target: for all absolute paths but those
      below the very file it starts from. */
  lemma LeadsToTarget(from: string, to: string, directories: bool, preferRelative: bool)
    requires Root(Slashes(from)) != "" && Root(Slashes(to)) != ""
    ensures Resolve(DropLast(StartParts(from, directories)), Shortest(from, to, directories, preferRelative)) == Place(to) <==>
            !StartIsAbove(from, to, directories)
  {
    ShortestIsForm(from, to, directories, preferRelative);
    var root, start, root', target := StartRoot(from, directories), StartParts(from, directories), Root(Slashes(to)), Place(to);
    SharedIsLongest(start, target, |target|);
    assert target[..|target|] == target;
    if SameParent(root, start, root', target) {
      SiblingForm(start, target, if target == [] then "" else Last(target));
      assert start != [] && start < target ==> |start| < |target|;
    } else if SharedUnder(root, start, root', target) > 0 {
      FormBelow(root, start, target, preferRelative);
      EqualHasSameParent(root, start, target);
    } else {
      FormApart(root, start, root', target, preferRelative);
      AboveShares(start, target);
    }
  }

  lemma EqualHasSameParent(root: string, start: seq<string>, target: seq<string>)
    requires !SameParent(root, start, root, target)
    ensures start != target
  {
  }

  lemma AboveShares(start: seq<string>, target: seq<string>)
    ensures start != [] && start < target ==> Shared(start, target) > 0
  {
  }
}
