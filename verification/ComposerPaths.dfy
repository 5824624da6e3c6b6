/** Composer's `normalizePath` (docs/reference/Filesystem.php), with its schemes and drive letters,
    and exactly where the port agrees with it. */
module ComposerPaths {
  import opened Text
  import opened Paths

  // ----- scheme or drive ------------------------------------------------------------------------------------

  predicate IsLetter(c: char) { 'a' <= c <= 'z' || 'A' <= c <= 'Z' }

  predicate IsLetterOrDigit(c: char) { IsLetter(c) || '0' <= c <= '9' }

  /** How many letters and digits `s` begins with. */
  function RunLength(s: string): (n: nat)
    ensures n <= |s| && forall k :: 0 <= k < n ==> IsLetterOrDigit(s[k])
  {
    if s != "" && IsLetterOrDigit(s[0]) then 1 + RunLength(s[1..]) else 0
  }

  /** A word of two or more letters and digits with a colon, then perhaps `//`, then perhaps a drive;
      or a drive alone. */
  function PrefixLength(s: string): (n: nat)
    ensures n <= |s|
    ensures n > 0 ==> n >= 2 && IsLetterOrDigit(s[0]) && ':' in s[..n]
    ensures n > 0 && '/' !in s[..n] ==> s[n - 1] == ':'
    ensures n > 0 && '/' in s[..n] ==> exists k :: 0 < k < n - 1 && s[k] == s[k + 1] == '/'
  {
    var r := RunLength(s);
    if r == |s| || s[r] != ':' then 0
    else if r >= 2 then
      assert s[..r + 1][r] == ':';
      if |s| >= r + 3 && s[r + 1] == s[r + 2] == '/' then
        assert s[..r + 3][r] == ':' && s[..r + 3][r + 1] == '/';
        if |s| >= r + 5 && IsLetter(s[r + 3]) && s[r + 4] == ':' then
          assert s[..r + 5][r] == ':' && s[..r + 5][r + 1] == '/';
          r + 5
        else r + 3
      else r + 1
    else if r == 1 && IsLetter(s[0]) then
      assert s[..2][1] == ':';
      2
    else 0
  }

  function Upper(c: char): char { if 'a' <= c <= 'z' then c - 'a' + 'A' else c }

  /** A drive letter, alone or behind `://`, is written as a capital. */
  function Capital(prefix: string): (r: string)
    ensures |r| == |prefix|
  {
    var n := |prefix|;
    if n >= 2 && prefix[n - 1] == ':' && IsLetter(prefix[n - 2]) && (n == 2 || (n >= 5 && prefix[n - 5..n - 2] == "://")) then
      prefix[..n - 2] + [Upper(prefix[n - 2]), ':']
    else prefix
  }

  lemma CapitalKeeps(prefix: string)
    ensures prefix != "" && IsLetterOrDigit(prefix[0]) ==> Capital(prefix)[0] != '/'
    ensures forall k :: 0 <= k < |prefix| && (prefix[k] == '/' || prefix[k] == ':') ==> Capital(prefix)[k] == prefix[k]
  {
  }

  function ComposerNormalized(path: string): string {
    var p := Slashes(path);
    var double := "//" <= p && |p| > 2;
    var s := if double then p[2..] else p;
    var prefix, rest := s[..PrefixLength(s)], s[PrefixLength(s)..];
    var single := "/" <= rest;
    var absolute := if single then "/" else if double then "//" else "";
    Capital(prefix) + (absolute + JoinPath(Reduce(absolute != "", [], Chunks(if single then rest[1..] else rest))))
  }

  // ----- going up too far ------------------------------------------------------------------------------------

  /** From a directory `depth` below, the chunks never lead out at the top. */
  predicate NeverLeaves(depth: nat, chunks: seq<string>)
    decreases |chunks|
  {
    chunks == [] ||
    (var c := chunks[0];
     if c == "" || c == "." then NeverLeaves(depth, chunks[1..])
     else if c == ".." then depth > 0 && NeverLeaves(depth - 1, chunks[1..])
     else NeverLeaves(depth + 1, chunks[1..]))
  }

  /** What follows the first `..` that leads out. */
  function AfterLeaving(depth: nat, chunks: seq<string>): seq<string>
    requires !NeverLeaves(depth, chunks)
    decreases |chunks|
  {
    var c := chunks[0];
    if c == "" || c == "." then AfterLeaving(depth, chunks[1..])
    else if c == ".." then if depth > 0 then AfterLeaving(depth - 1, chunks[1..]) else chunks[1..]
    else AfterLeaving(depth + 1, chunks[1..])
  }

  lemma {:induction false} StaysInside(base: seq<string>, names: seq<string>, chunks: seq<string>)
    requires Names(names) && AllChunks(chunks) && NeverLeaves(|names|, chunks)
    ensures Reduce(false, base + names, chunks) == base + Walk(names, chunks)
    decreases |chunks|
  {
    if chunks != [] {
      var c := chunks[0];
      assert IsChunk(c);
      if c == "" || c == "." {
        StaysInside(base, names, chunks[1..]);
      } else if c == ".." {
        assert IsName(names[|names| - 1]);
        assert DropLast(base + names) == base + DropLast(names);
        StaysInside(base, DropLast(names), chunks[1..]);
      } else {
        assert base + names + [c] == base + (names + [c]);
        StaysInside(base, names + [c], chunks[1..]);
      }
    }
  }

  lemma {:induction false} LeavesAt(base: seq<string>, names: seq<string>, chunks: seq<string>)
    requires Names(names) && AllChunks(chunks) && !NeverLeaves(|names|, chunks)
    ensures var after := AfterLeaving(|names|, chunks);
            && Reduce(false, base + names, chunks) == Reduce(false, base, [".."] + after)
            && Walk(names, chunks) == Walk([], after)
            && AllChunks(after)
    decreases |chunks|
  {
    var c := chunks[0];
    assert IsChunk(c);
    if c == "" || c == "." {
      LeavesAt(base, names, chunks[1..]);
    } else if c == ".." && names != [] {
      assert IsName(names[|names| - 1]);
      assert DropLast(base + names) == base + DropLast(names);
      LeavesAt(base, DropLast(names), chunks[1..]);
    } else if c == ".." {
      assert base + names == base && [".."] + chunks[1..] == chunks;
    } else {
      assert base + names + [c] == base + (names + [c]);
      LeavesAt(base, names + [c], chunks[1..]);
    }
  }

  /** A leading `..` stays where it is. */
  lemma {:induction false} UpStays(parts: seq<string>, chunks: seq<string>)
    ensures Reduce(false, [".."] + parts, chunks) == [".."] + Reduce(false, parts, chunks)
    decreases |chunks|
  {
    if chunks != [] {
      var c := chunks[0];
      assert CanGoUp([".."] + parts) <==> CanGoUp(parts);
      if c == "" || c == "." {
        UpStays(parts, chunks[1..]);
      } else if c == ".." && CanGoUp(parts) {
        assert DropLast([".."] + parts) == [".."] + DropLast(parts);
        UpStays(DropLast(parts), chunks[1..]);
      } else {
        assert [".."] + parts + [c] == [".."] + (parts + [c]);
        UpStays(parts + [c], chunks[1..]);
      }
    }
  }

  // ----- the text -------------------------------------------------------------------------------------------

  /** What follows the first component. */
  function Tail(parts: seq<string>): string { if parts == [] then "" else "/" + JoinPath(parts) }

  lemma JoinFirst(first: string, parts: seq<string>)
    ensures JoinPath([first] + parts) == first + Tail(parts)
  {
    assert ([first] + parts)[1..] == parts;
    assert first + "" == first;
  }

  /** Relative normal forms have no doubled slash and no slash at their end. */
  lemma {:induction false} SingleSlashes(parts: seq<string>, k: nat)
    requires forall i :: 0 <= i < |parts| ==> parts[i] != "" && '/' !in parts[i]
    requires k < |JoinPath(parts)| && JoinPath(parts)[k] == '/'
    ensures k > 0 && k + 1 < |JoinPath(parts)| && JoinPath(parts)[k + 1] != '/'
  {
    JoinFirst(parts[0], parts[1..]);
    assert parts == [parts[0]] + parts[1..];
    var n := |parts[0]|;
    assert parts[1..] != [];
    JoinFirst(parts[1], parts[2..]);
    assert parts[1..] == [parts[1]] + parts[2..];
    assert JoinPath(parts[1..])[0] == parts[1][0] != '/';
    if k > n { SingleSlashes(parts[1..], k - n - 1); }
  }

  lemma RelativeHasSingleSlashes(p: string, k: nat)
    requires '\\' !in p && Root(p) == ""
    requires var r := JoinPath(Reduce(false, [], Chunks(p))); k < |r| && r[k] == '/'
    ensures var r := JoinPath(Reduce(false, [], Chunks(p))); k > 0 && k + 1 < |r| && r[k + 1] != '/'
  {
    var parts := Reduce(false, [], Chunks(p));
    SplitChunks(p);
    assert Shape([], 0);
    var n := ReduceShape([], 0, Chunks(p));
    ShapeIsChunks(parts, n);
    forall i | 0 <= i < |parts| ensures '/' !in parts[i] { assert IsChunk(parts[i]); }
    SingleSlashes(parts, k);
  }

  // ----- where the two agree ----------------------------------------------------------------------------------

  /** Behind a scheme or drive without slashes: nothing, or an absolute path to a directory below
      the root, or a relative path that does not begin with `.`; and nothing leads out at the top. */
  predicate StaysBehind(rest: string) {
    || rest == ""
    || (rest[0] == '/' && NeverLeaves(0, Chunks(rest[1..])) && Walk([], Chunks(rest[1..])) != [])
    || (rest[0] != '/' && Chunks(rest)[0] != "." && NeverLeaves(0, Chunks(rest)[1..]))
  }

  predicate Agrees(p: string) {
    var double := "//" <= p && |p| > 2;
    var s := if double then p[2..] else p;
    var prefix, rest := s[..PrefixLength(s)], s[PrefixLength(s)..];
    if prefix == "" then !("///" <= p)
    else !double && '/' !in prefix && Capital(prefix) == prefix && StaysBehind(rest)
  }

  lemma WithoutPrefix(path: string)
    requires var p := Slashes(path); PrefixLength(if "//" <= p && |p| > 2 then p[2..] else p) == 0
    ensures Normalized(path) == ComposerNormalized(path) <==> !("///" <= Slashes(path))
  {
    var p := Slashes(path);
    if "//" <= p && |p| > 2 {
      var rest := p[2..];
      assert p == "//" + rest && p[2] == rest[0] && ("///" <= p <==> "/" <= rest);
      DoubleSlash(path, rest);
    } else {
      assert p[0..] == p && p[..0] == "";
      assert Root(p) == if "/" <= p then "/" else "";
      hide Reduce, Split, Join, Slashes;
      assert Capital("") == "";
      EmptyPrefix(Normalized(path));
    }
  }

  lemma EmptyPrefix(s: string)
    ensures "" + s == s
  {
  }

  lemma DoubleSlash(path: string, rest: string)
    requires Slashes(path) == "//" + rest && rest != "" && PrefixLength(rest) == 0
    ensures Normalized(path) == ComposerNormalized(path) <==> !("/" <= rest)
  {
    if "/" <= rest {
      TripleSlash(path, rest);
    } else {
      var p := Slashes(path);
      assert p[2..] == rest && rest[0..] == rest && rest[..0] == "";
      hide Reduce, Split, Join, Slashes;
      assert Capital("") == "";
      EmptyPrefix(Normalized(path));
    }
  }

  lemma TripleSlash(path: string, rest: string)
    requires Slashes(path) == "//" + rest && "/" <= rest && PrefixLength(rest) == 0
    ensures Normalized(path) != ComposerNormalized(path)
  {
    var parts := Reduce(true, [], Chunks(rest[1..]));
    assert forall k :: 0 <= k < |rest[1..]| ==> rest[1..][k] == Slashes(path)[k + 3];
    SplitChunks(rest[1..]);
    WalkGivesNames([], Chunks(rest[1..]));
    ReduceIsWalk([], Chunks(rest[1..]));
    var p := Slashes(path);
    assert p[2..] == rest && rest[0..] == rest && Root(p) == "//";
    assert Normalized(path)[1] == '/';
    assert ComposerNormalized(path) == "/" + JoinPath(parts);
    if parts != [] {
      assert IsName(parts[0]) && JoinPath(parts)[0] == parts[0][0];
    }
  }

  /** The components the port gives behind a word that is a component of its own. */
  lemma BehindParts(word: string, chunks: seq<string>)
    requires AllChunks(chunks) && IsChunk(word) && word != "" && word != "." && word != ".."
    ensures var parts := Reduce(false, [word], chunks);
            && (NeverLeaves(0, chunks) ==> parts == [word] + Walk([], chunks))
            && (!NeverLeaves(0, chunks) ==> exists ups: nat :: Shape(parts, ups) && parts[ups..] == Walk([], chunks))
            && forall k :: 0 <= k < |parts| ==> parts[k] != "" && '/' !in parts[k]
  {
    var parts := Reduce(false, [word], chunks);
    assert [word] + [] == [word];
    if NeverLeaves(0, chunks) {
      StaysInside([word], [], chunks);
    } else {
      LeavesAt([word], [], chunks);
      var after := AfterLeaving(0, chunks);
      assert ([".."] + after)[1..] == after && DropLast([word]) == [];
      assert parts == Reduce(false, [], after);
      assert Shape([], 0);
      var ups := ReduceShape([], 0, after);
      ReduceKeepsMeaning([], [], 0, after);
      WalkShape([], parts, ups);
      assert Shape(parts, ups) && parts[ups..] == Walk([], chunks);
    }
    assert Shape([word], 0) by { assert IsName(word) && [word][0..] == [word]; }
    var n := ReduceShape([word], 0, chunks);
    ShapeIsChunks(parts, n);
    forall k | 0 <= k < |parts| ensures parts[k] != "" && '/' !in parts[k] { assert IsChunk(parts[k]); }
  }

  /** Composer's text behind a scheme and a slash is that of the port only when the port has the
      scheme as its first component, and something behind it. */
  lemma DifferByTail(capital: string, walked: seq<string>, parts: seq<string>, prefix: string)
    requires Names(walked) && |capital| == |prefix| >= 2 && '/' !in prefix && '/' !in capital && capital[|capital| - 1] == ':'
    requires parts == [prefix] + walked || exists ups: nat :: Shape(parts, ups) && parts[ups..] == walked
    requires forall k :: 0 <= k < |parts| ==> parts[k] != "" && '/' !in parts[k]
    ensures JoinPath(parts) == capital + ("/" + JoinPath(walked)) <==> capital == prefix && walked != [] && parts == [prefix] + walked
  {
    var composer := capital + ("/" + JoinPath(walked));
    if walked == [] {
      assert composer[|composer| - 1] == '/';
      if JoinPath(parts) == composer { SingleSlashes(parts, |composer| - 1); }
    } else {
      var all := [capital] + walked;
      JoinFirst(capital, walked);
      assert JoinPath(all) == composer;
      forall k | 0 <= k < |all| ensures '/' !in all[k] { assert k > 0 ==> IsName(walked[k - 1]); }
      SplitJoin(all, '/');
      if JoinPath(parts) == composer {
        assert parts != [] && composer != "";
        SplitJoin(parts, '/');
        assert parts == all && parts[1..] == walked;
        assert ([prefix] + walked)[0] == prefix;
      }
    }
  }

  lemma FirstChunk(rest: string)
    requires rest != "" && rest[0] != '/'
    ensures Chunks(rest)[0] != ""
  {
  }

  lemma {:induction false} SplitBehind(prefix: string, rest: string)
    requires '/' !in prefix
    ensures Chunks(prefix + rest) == [prefix + Chunks(rest)[0]] + Chunks(rest)[1..]
  {
    if prefix == "" {
      assert prefix + rest == rest && "" + Chunks(rest)[0] == Chunks(rest)[0];
    } else {
      assert (prefix + rest)[1..] == prefix[1..] + rest;
      SplitBehind(prefix[1..], rest);
      assert [prefix[0]] + (prefix[1..] + Chunks(rest)[0]) == prefix + Chunks(rest)[0];
    }
  }

  /** The port sees one component where Composer sees a prefix and the component `c`. */
  lemma WordsBehind(prefix: string, capital: string, c: string, chunks: seq<string>)
    requires |prefix| == |capital| >= 2 && AllChunks(chunks) && IsChunk(c) && c != ""
    ensures JoinPath(Reduce(false, [prefix + c], chunks)) == capital + JoinPath(Reduce(false, if c == "." then [] else [c], chunks)) <==>
            capital == prefix && c != "." && NeverLeaves(0, chunks)
  {
    var word, first := prefix + c, if c == "." then [] else [c];
    assert [word] + [] == [word] && first + [] == first;
    assert Reduce(false, [word] + [], chunks) == Reduce(false, [word], chunks) && Reduce(false, first + [], chunks) == Reduce(false, first, chunks);
    if NeverLeaves(0, chunks) {
      var walked := Walk([], chunks);
      StaysInside([word], [], chunks);
      StaysInside(first, [], chunks);
      JoinFirst(word, walked);
      if c == "." {
        assert [] + walked == walked;
      } else {
        JoinFirst(c, walked);
        assert (prefix + c + Tail(walked))[..|prefix|] == prefix;
        assert (capital + (c + Tail(walked)))[..|prefix|] == capital;
        assert prefix + c + Tail(walked) == prefix + (c + Tail(walked));
      }
    } else {
      LeavesAt([word], [], chunks);
      LeavesAt(first, [], chunks);
      ShorterOutside(word, c, AfterLeaving(0, chunks));
    }
  }

  /** Once a `..` leads out, the port has lost the prefix. */
  lemma ShorterOutside(word: string, c: string, after: seq<string>)
    requires IsChunk(c) && c != "" && word != ".."
    ensures |JoinPath(Reduce(false, [word], [".."] + after))| <=
            |JoinPath(Reduce(false, if c == "." then [] else [c], [".."] + after))|
  {
    assert ([".."] + after)[1..] == after && DropLast([word]) == [] && DropLast([c]) == [];
    var parts := Reduce(false, [], after);
    assert Reduce(false, [word], [".."] + after) == parts;
    JoinFirst("..", parts);
    UpStays([], after);
    assert [".."] + [] == [".."] == [] + [".."];
    if c == "." {
      assert Reduce(false, [], [".."] + after) == [".."] + parts;
    } else if c == ".." {
      assert [c] + [".."] == [".."] + [".."];
      UpStays([".."], after);
      JoinFirst("..", [".."] + parts);
    }
  }

  // ----- behind a scheme or drive -----------------------------------------------------------------------------

  /** What Composer makes of the rest. */
  function Behind(rest: string): string {
    if "/" <= rest then "/" + JoinPath(Walk([], Chunks(rest[1..]))) else JoinPath(Reduce(false, [], Chunks(rest)))
  }

  /** Both forms of a path that begins with a scheme or drive. */
  lemma FormsWithPrefix(path: string, prefix: string, rest: string)
    requires Slashes(path) == prefix + rest && PrefixLength(prefix + rest) == |prefix| > 0
    ensures prefix[0] != '/' && ':' in prefix && |prefix| >= 2
    ensures Normalized(path) == JoinPath(Reduce(false, [], Chunks(prefix + rest)))
    ensures ComposerNormalized(path) == Capital(prefix) + Behind(rest)
  {
    var p := prefix + rest;
    assert p[..|prefix|] == prefix && p[|prefix|..] == rest && p[0..] == p;
    assert p[0] == prefix[0];
    if "/" <= rest { ReduceIsWalk([], Chunks(rest[1..])); }
    assert forall t: string :: "" + t == t;
  }

  lemma ReduceFirst(word: string, chunks: seq<string>)
    requires word != "" && word != "."
    ensures Reduce(false, [], [word] + chunks) == Reduce(false, [word], chunks)
  {
    assert ([word] + chunks)[1..] == chunks && [] + [word] == [word];
  }

  lemma NothingBehind(prefix: string)
    requires ':' in prefix && '/' !in prefix
    ensures JoinPath(Reduce(false, [], Chunks(prefix))) == prefix
  {
    SplitWhole(prefix, '/');
    ReduceFirst(prefix, []);
    assert [prefix] + [] == [prefix];
  }

  lemma AbsoluteBehind(prefix: string, capital: string, t: string)
    requires |capital| == |prefix| >= 2 && ':' in prefix && IsChunk(prefix) && '\\' !in t
    requires '/' !in capital && capital[|capital| - 1] == ':'
    ensures JoinPath(Reduce(false, [], Chunks(prefix + "/" + t))) == capital + ("/" + JoinPath(Walk([], Chunks(t)))) <==>
            capital == prefix && NeverLeaves(0, Chunks(t)) && Walk([], Chunks(t)) != []
  {
    SplitAt(prefix, t, '/');
    SplitWhole(prefix, '/');
    SplitChunks(t);
    WalkGivesNames([], Chunks(t));
    ReduceFirst(prefix, Chunks(t));
    hide Reduce, Walk, Split, NeverLeaves;
    BehindParts(prefix, Chunks(t));
    DifferByTail(capital, Walk([], Chunks(t)), Reduce(false, [prefix], Chunks(t)), prefix);
    if !NeverLeaves(0, Chunks(t)) { NotFirst(prefix, Walk([], Chunks(t)), Reduce(false, [prefix], Chunks(t))); }
  }

  lemma NotFirst(prefix: string, walked: seq<string>, parts: seq<string>)
    requires ':' in prefix && exists ups: nat :: Shape(parts, ups) && parts[ups..] == walked
    ensures parts != [prefix] + walked
  {
    var ups: nat :| Shape(parts, ups) && parts[ups..] == walked;
    assert |parts| == ups + |walked|;
    assert ups == 1 ==> parts[0] == ".." != prefix;
  }

  lemma RelativeBehind(prefix: string, capital: string, rest: string)
    requires |capital| == |prefix| >= 2 && ':' in prefix && IsChunk(prefix) && '\\' !in rest && rest != "" && rest[0] != '/'
    ensures JoinPath(Reduce(false, [], Chunks(prefix + rest))) == capital + JoinPath(Reduce(false, [], Chunks(rest))) <==>
            capital == prefix && Chunks(rest)[0] != "." && NeverLeaves(0, Chunks(rest)[1..])
  {
    SplitChunks(rest);
    SplitBehind(prefix, rest);
    FirstChunk(rest);
    var c, chunks := Chunks(rest)[0], Chunks(rest)[1..];
    assert Chunks(rest) == [c] + chunks && IsChunk(c);
    var i :| 0 <= i < |prefix| && prefix[i] == ':';
    assert (prefix + c)[i] == ':';
    ReduceFirst(prefix + c, chunks);
    if c == "." {
      assert ([c] + chunks)[1..] == chunks;
    } else {
      ReduceFirst(c, chunks);
    }
    hide Reduce, Split, NeverLeaves;
    WordsBehind(prefix, capital, c, chunks);
  }

  lemma SchemeWithSlashes(p: string, prefix: string, behind: string, k: nat)
    requires '\\' !in p && Root(p) == "" && 0 < k < |prefix| - 1
    requires prefix[k] == prefix[k + 1] == '/'
    ensures JoinPath(Reduce(false, [], Chunks(p))) != prefix + behind
  {
    var r := prefix + behind;
    assert r[k] == '/' && r[k + 1] == '/';
    if JoinPath(Reduce(false, [], Chunks(p))) == r { RelativeHasSingleSlashes(p, k); }
  }

  lemma BehindWord(prefix: string, capital: string, rest: string)
    requires |capital| == |prefix| >= 2 && ':' in prefix && IsChunk(prefix) && '\\' !in rest
    requires '/' !in capital && capital[|capital| - 1] == ':'
    ensures JoinPath(Reduce(false, [], Chunks(prefix + rest))) ==
              capital + Behind(rest) <==>
            capital == prefix && StaysBehind(rest)
  {
    if rest == "" {
      NothingBehind(prefix);
      assert prefix + rest == prefix && Chunks(rest) == [""] && JoinPath(Reduce(false, [], [""])) == "";
      assert capital + "" == capital;
    } else if rest[0] == '/' {
      assert rest == "/" + rest[1..] && prefix + rest == prefix + "/" + rest[1..];
      AbsoluteBehind(prefix, capital, rest[1..]);
    } else {
      RelativeBehind(prefix, capital, rest);
    }
  }

  lemma BehindPrefix(prefix: string, rest: string)
    requires '\\' !in prefix + rest && prefix != "" && PrefixLength(prefix + rest) == |prefix|
    ensures JoinPath(Reduce(false, [], Chunks(prefix + rest))) == Capital(prefix) + Behind(rest) <==>
            '/' !in prefix && Capital(prefix) == prefix && StaysBehind(rest)
  {
    var p, capital := prefix + rest, Capital(prefix);
    assert p[..|prefix|] == prefix && p[0] == prefix[0];
    CapitalKeeps(prefix);
    assert forall k :: 0 <= k < |prefix| ==> prefix[k] == p[k];
    assert forall k :: 0 <= k < |rest| ==> rest[k] == p[|prefix| + k];
    hide Reduce, Split, Walk, NeverLeaves, Join, StaysBehind, Behind, Capital, PrefixLength;
    if '/' in prefix {
      var k :| 0 < k < |prefix| - 1 && p[k] == p[k + 1] == '/';
      SchemeWithSlashes(p, capital, Behind(rest), k);
    } else {
      BehindWord(prefix, capital, rest);
    }
  }

  lemma WithPrefix(path: string)
    requires var p := Slashes(path); !("//" <= p && |p| > 2) && PrefixLength(p) > 0
    ensures Normalized(path) == ComposerNormalized(path) <==> Agrees(Slashes(path))
  {
    var p := Slashes(path);
    var prefix, rest := p[..PrefixLength(p)], p[PrefixLength(p)..];
    assert p == prefix + rest && '\\' !in p;
    hide Reduce, ComposerNormalized, Normalized, PrefixLength, Split, Slashes, Walk, NeverLeaves, Join, StaysBehind, Behind, Capital;
    FormsWithPrefix(path, prefix, rest);
    BehindPrefix(prefix, rest);
  }

  // ----- the whole condition ----------------------------------------------------------------------------------

  /** The port agrees with Composer, if there is no scheme or drive, exactly on the paths that do not
      begin with three slashes; and otherwise exactly when `//` neither precedes nor belongs to the
      scheme, a drive letter is a capital, and what follows stays behind it. */
  lemma PortAgreesWithComposer(path: string)
    ensures Normalized(path) == ComposerNormalized(path) <==> Agrees(Slashes(path))
  {
    var p := Slashes(path);
    var double := "//" <= p && |p| > 2;
    var s := if double then p[2..] else p;
    if PrefixLength(s) == 0 {
      WithoutPrefix(path);
    } else if double {
      CapitalKeeps(s[..PrefixLength(s)]);
      assert Normalized(path)[0] == '/' && ComposerNormalized(path)[0] != '/';
    } else {
      WithPrefix(path);
    }
  }

  // ----- the prefixes, character by character -------------------------------------------------------------------

  predicate Letter(c: char) { 65 <= c as int <= 90 || 97 <= c as int <= 122 }

  predicate LetterOrDigit(c: char) { Letter(c) || 48 <= c as int <= 57 }

  lemma {:induction false} RunIs(word: string, t: string)
    requires (forall k :: 0 <= k < |word| ==> LetterOrDigit(word[k])) && (t != "" ==> !LetterOrDigit(t[0]))
    ensures RunLength(word + t) == |word|
  {
    if word == "" {
      assert word + t == t;
    } else {
      assert (word + t)[1..] == word[1..] + t;
      RunIs(word[1..], t);
    }
  }

  /** Where a scheme or a drive ends, for a text that begins with a word of letters and digits and goes on with
      something else: with a colon behind two of them or more, behind two slashes after it, and behind a drive
      after these; with a colon behind a single letter; and nowhere otherwise. */
  lemma PrefixIs(word: string, t: string)
    requires (forall k :: 0 <= k < |word| ==> LetterOrDigit(word[k])) && (t != "" ==> !LetterOrDigit(t[0]))
    ensures PrefixLength(word + t) ==
            if t == "" || t[0] != ':' then 0
            else if |word| >= 2 then
              |word| + if !(":" + "//" <= t) then 1 else if |t| >= 5 && Letter(t[3]) && t[4] == ':' then 5 else 3
            else if |word| == 1 && Letter(word[0]) then 2
            else 0
  {
    hide *;
    var s := word + t;
    RunIs(word, t);
    assert s[|word|..] == t && s[..|word|] == word;
    PrefixAt(s);
    SameLetter(if |t| >= 5 then t[3] else 'a');
    SameLetter(if |word| == 1 then word[0] else 'a');
    SlashesBehind(t);
  }

  lemma SameLetter(c: char)
    ensures IsLetter(c) <==> Letter(c)
  {
  }

  lemma SlashesBehind(t: string)
    ensures ":" + "//" <= t <==> |t| >= 3 && t[0] == ':' && t[1] == '/' && t[2] == '/'
  {
  }

  lemma PrefixAt(s: string)
    ensures var r := RunLength(s);
            var word, t := s[..r], s[r..];
            PrefixLength(s) ==
            if t == "" || t[0] != ':' then 0
            else if r >= 2 then
              r + if !(|t| >= 3 && t[1] == '/' && t[2] == '/') then 1 else if |t| >= 5 && IsLetter(t[3]) && t[4] == ':' then 5 else 3
            else if r == 1 && IsLetter(word[0]) then 2
            else 0
  {
    hide RunLength, IsLetter;
  }

  /** A drive letter is written as a capital when it stands alone or behind a scheme and two slashes. */
  lemma CapitalIs(word: string, c: char)
    requires forall k :: 0 <= k < |word| ==> LetterOrDigit(word[k])
    ensures Letter(c) ==> Capital([c] + ":") == [if 97 <= c as int <= 122 then (c as int - 32) as char else c] + ":"
    ensures Letter(c) ==>
              Capital(word + ("://" + ([c] + ":"))) == word + ("://" + ([if 97 <= c as int <= 122 then (c as int - 32) as char else c] + ":"))
    ensures |word| >= 2 ==> Capital(word + ":") == word + ":" && Capital(word + "://") == word + "://"
    ensures Capital("") == ""
  {
    if Letter(c) { CapitalOfDrive(word, c); }
    CapitalOfScheme(word);
    var d := if 97 <= c as int <= 122 then (c as int - 32) as char else c;
    assert ([c] + ":")[..0] == "" && "" + [d, ':'] == [d] + ":";
  }

  lemma CapitalOfDrive(word: string, c: char)
    requires Letter(c)
    ensures Capital(word + ("://" + ([c] + ":"))) == word + ("://" + ([if 97 <= c as int <= 122 then (c as int - 32) as char else c] + ":"))
  {
    var p := word + ("://" + ([c] + ":"));
    var n := |p|;
    assert n == |word| + 5 && p[n - 1] == ':' && p[n - 2] == c && p[n - 5..n - 2] == "://" && p[..n - 2] == word + "://";
    var d := if 97 <= c as int <= 122 then (c as int - 32) as char else c;
    assert (word + "://") + [d, ':'] == word + ("://" + ([d] + ":"));
  }

  lemma CapitalOfScheme(word: string)
    requires forall k :: 0 <= k < |word| ==> LetterOrDigit(word[k])
    ensures |word| >= 2 ==> Capital(word + ":") == word + ":" && Capital(word + "://") == word + "://"
  {
    var q := word + ":";
    if |word| >= 4 {
      assert q[|q| - 5..|q| - 2][0] == word[|q| - 5] && "://"[0] == ':';
    }
  }
}
