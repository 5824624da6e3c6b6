/** The two wildcard matchers: the greedy one of `allow-plugins` (layout.rs, `pattern_matches`)
    and the backtracking one of `glob` (glob.rs, `fnmatch`). */
module Wildcards {
  import opened Common
  import Text

  // ----- what a pattern means -------------------------------------------------------------

  /** `s` is the pieces in order, with anything between two of them. */
  ghost predicate Fits(pieces: seq<string>, s: string)
    requires pieces != []
  {
    if |pieces| == 1 then s == pieces[0]
    else pieces[0] <= s && exists k: nat :: |pieces[0]| <= k <= |s| && Fits(pieces[1..], s[k..])
  }

  /** A suffix of `s` fits. */
  ghost predicate Floats(pieces: seq<string>, s: string)
    requires pieces != []
  {
    exists k: nat :: k <= |s| && Fits(pieces, s[k..])
  }

  lemma FitsThenFloats(pieces: seq<string>, s: string)
    requires |pieces| >= 2
    ensures Fits(pieces, s) <==> pieces[0] <= s && Floats(pieces[1..], s[|pieces[0]|..])
  {
    var n := |pieces[0]|;
    if Fits(pieces, s) {
      var k: nat :| n <= k <= |s| && Fits(pieces[1..], s[k..]);
      assert s[n..][k - n..] == s[k..];
    }
    if pieces[0] <= s && Floats(pieces[1..], s[n..]) {
      var k: nat :| k <= |s[n..]| && Fits(pieces[1..], s[n..][k..]);
      assert s[n..][k..] == s[n + k..];
    }
  }

  /** What floats in a suffix floats in the whole. */
  lemma FloatsFurther(pieces: seq<string>, s: string, k: nat)
    requires pieces != [] && k <= |s| && Floats(pieces, s[k..])
    ensures Floats(pieces, s)
  {
    var j: nat :| j <= |s[k..]| && Fits(pieces, s[k..][j..]);
    assert s[k..][j..] == s[k + j..];
  }

  // ----- the greedy matcher ---------------------------------------------------------------

  /** `str::find`: the leftmost occurrence. */
  method Find(s: string, piece: string) returns (pos: Option<nat>)
    ensures pos.Some? ==> pos.value + |piece| <= |s| && piece <= s[pos.value..]
    ensures forall k :: 0 <= k <= |s| && piece <= s[k..] ==> pos.Some? && pos.value <= k
  {
    var i := 0;
    while i <= |s|
      invariant 0 <= i <= |s| + 1
      invariant forall k :: 0 <= k < i ==> !(piece <= s[k..])
    {
      if piece <= s[i..] { return Some(i); }
      i := i + 1;
    }
    pos := None;
  }

  predicate EndsWith(s: string, suffix: string) {
    |suffix| <= |s| && s[|s| - |suffix|..] == suffix
  }

  /** Leftmost occurrences, never reconsidered, are enough: the answer is whether the lower-cased
      name fits the lower-cased pattern cut at its stars. */
  method PatternMatches(pattern: string, name: string) returns (r: bool)
    ensures r <==> Fits(Text.Split(Text.ToLower(pattern), '*'), Text.ToLower(name))
  {
    var n := Text.ToLower(name);
    var parts := Text.Split(Text.ToLower(pattern), '*');
    if |parts| == 1 { return n == parts[0]; }
    FitsThenFloats(parts, n);
    if !(parts[0] <= n) { return false; }
    var rest := n[|parts[0]|..];
    var i := 1;
    while i < |parts| - 1
      invariant 1 <= i < |parts|
      invariant Fits(parts, n) <==> Floats(parts[i..], rest)
    {
      var pos := Find(rest, parts[i]);
      FindDecides(parts[i..], rest, pos);
      if pos.None? { return false; }
      assert parts[i..][1..] == parts[i + 1..];
      rest := rest[pos.value + |parts[i]|..];
      i := i + 1;
    }
    LastPiece(parts[i..], rest);
    r := EndsWith(rest, parts[i]);
  }

  lemma FloatsAt(pieces: seq<string>, s: string) returns (k: nat)
    requires |pieces| >= 2 && Floats(pieces, s)
    ensures k <= |s| && Fits(pieces, s[k..]) && pieces[0] <= s[k..]
  {
    k :| k <= |s| && Fits(pieces, s[k..]);
  }

  lemma FoundFloats(pieces: seq<string>, s: string, pos: nat)
    requires |pieces| >= 2 && pos + |pieces[0]| <= |s| && pieces[0] <= s[pos..]
    requires Floats(pieces[1..], s[pos + |pieces[0]|..])
    ensures Floats(pieces, s)
  {
    assert s[pos..][|pieces[0]|..] == s[pos + |pieces[0]|..];
    assert Fits(pieces, s[pos..]) by {
      hide *;
      FitsThenFloats(pieces, s[pos..]);
    }
  }

  /** What fits from a later occurrence on floats behind the first. */
  lemma FirstServes(pieces: seq<string>, s: string, pos: nat, k: nat)
    requires |pieces| >= 2 && pos <= k <= |s| && pos + |pieces[0]| <= |s| && Fits(pieces, s[k..])
    ensures Floats(pieces[1..], s[pos + |pieces[0]|..])
  {
    hide *;
    var n := |pieces[0]|;
    FitsThenFloats(pieces, s[k..]);
    assert n <= |s[k..]|;
    assert s[k..][n..] == s[k + n..] == s[pos + n..][k - pos..];
    FloatsFurther(pieces[1..], s[pos + n..], k - pos);
  }

  /** Committing to the leftmost occurrence of a middle piece loses nothing. */
  lemma FindDecides(pieces: seq<string>, s: string, pos: Option<nat>)
    requires |pieces| >= 2
    requires pos.Some? ==> pos.value + |pieces[0]| <= |s| && pieces[0] <= s[pos.value..]
    requires forall k :: 0 <= k <= |s| && pieces[0] <= s[k..] ==> pos.Some? && pos.value <= k
    ensures Floats(pieces, s) <==> pos.Some? && Floats(pieces[1..], s[pos.value + |pieces[0]|..])
  {
    hide *;
    if pos.Some? && Floats(pieces[1..], s[pos.value + |pieces[0]|..]) { FoundFloats(pieces, s, pos.value); }
    if Floats(pieces, s) {
      var k := FloatsAt(pieces, s);
      FirstServes(pieces, s, pos.value, k);
    }
  }

  lemma LastPiece(pieces: seq<string>, s: string)
    requires |pieces| == 1
    ensures Floats(pieces, s) <==> EndsWith(s, pieces[0])
  {
    if EndsWith(s, pieces[0]) { assert Fits(pieces, s[|s| - |pieces[0]|..]); }
  }

  // ----- the backtracking matcher ---------------------------------------------------------

  /** Reads the set of a `[..]` from index `i` on: whether `c` is in it and where the pattern goes
      on, or None without a closing bracket. */
  function BracketFrom(p: string, i: nat, first: bool, matched: bool, negate: bool, c: Option<char>)
    : (r: Option<(bool, nat)>)
    ensures r.Some? ==> i < r.value.1 <= |p|
    decreases |p| - i
  {
    if i >= |p| then None
    else if p[i] == ']' && !first then Some((c.Some? && matched != negate, i + 1))
    else
      var j := if p[i] == '\\' && i + 1 < |p| then i + 1 else i;
      var lo := p[j];
      var isRange := j + 2 < |p| && p[j + 1] == '-' && p[j + 2] != ']';
      var escaped := isRange && p[j + 2] == '\\' && j + 3 < |p|;
      var hi := if !isRange then lo else if escaped then p[j + 3] else p[j + 2];
      var next := (if isRange then (if escaped then j + 3 else j + 2) else j) + 1;
      BracketFrom(p, next, false, matched || (c.Some? && lo <= c.value <= hi), negate, c)
  }

  function Bracket(p: string, s: string): (r: Option<(bool, nat)>)
    ensures r.Some? ==> 1 < r.value.1 <= |p|
  {
    var negate := |p| > 1 && (p[1] == '!' || p[1] == '^');
    BracketFrom(p, if negate then 2 else 1, true, false, negate, if s == "" then None else Some(s[0]))
  }

  predicate FnMatch(p: string, s: string)
    decreases |p|
  {
    if p == "" then s == ""
    else if p[0] == '*' then exists k :: 0 <= k <= |s| && FnMatch(p[1..], s[k..])
    else if p[0] == '?' then s != "" && FnMatch(p[1..], s[1..])
    else if p[0] == '[' && Bracket(p, s).Some? then
      var r := Bracket(p, s).value;
      r.0 && s != "" && FnMatch(p[r.1..], s[1..])
    else if p[0] == '\\' && |p| > 1 then s != "" && s[0] == p[1] && FnMatch(p[2..], s[1..])
    else s != "" && s[0] == p[0] && FnMatch(p[1..], s[1..])
  }

  /** No metacharacter but the star. */
  predicate StarsOnly(p: string) {
    forall k :: 0 <= k < |p| ==> p[k] != '?' && p[k] != '[' && p[k] != '\\'
  }

  /** On patterns of stars and literals, backtracking decides the same thing. */
  lemma {:induction false} FnMatchFits(p: string, s: string)
    requires StarsOnly(p)
    ensures FnMatch(p, s) <==> Fits(Text.Split(p, '*'), s)
    decreases |p|
  {
    if p == "" {
    } else if p[0] == '*' {
      var rest := Text.Split(p[1..], '*');
      assert Text.Split(p, '*')[1..] == rest;
      FitsThenFloats(Text.Split(p, '*'), s);
      forall k: nat | k <= |s|
        ensures FnMatch(p[1..], s[k..]) <==> Fits(rest, s[k..])
      {
        FnMatchFits(p[1..], s[k..]);
      }
      assert s[0..] == s;
    } else if s != "" {
      FnMatchFits(p[1..], s[1..]);
      OneLiteral(p[0], Text.Split(p[1..], '*'), s);
    }
  }

  lemma OneLiteral(c: char, rest: seq<string>, s: string)
    requires rest != [] && s != ""
    ensures Fits([[c] + rest[0]] + rest[1..], s) <==> s[0] == c && Fits(rest, s[1..])
  {
    var pieces := [[c] + rest[0]] + rest[1..];
    assert s == [s[0]] + s[1..];
    if |rest| > 1 {
      assert pieces[1..] == rest[1..];
      FitsThenFloats(pieces, s);
      FitsThenFloats(rest, s[1..]);
      if |pieces[0]| <= |s| { assert s[|pieces[0]|..] == s[1..][|rest[0]|..]; }
    }
  }

  /** The greedy matcher of plugin rules and the backtracking matcher of globs agree. */
  method MatchersAgree(pattern: string, name: string) returns (r: bool)
    requires StarsOnly(pattern)
    ensures r <==> FnMatch(Text.ToLower(pattern), Text.ToLower(name))
  {
    FnMatchFits(Text.ToLower(pattern), Text.ToLower(name));
    r := PatternMatches(pattern, name);
  }
}
