/** Version constraints of the platform check (constraint.rs): the meaning of the caret, tilde
    and wildcard forms, and lower bounds. */
module Constraints {
  import opened Common
  import opened Versions
  import Text

  datatype Op = Eq | Ne | Lt | Le | Gt | Ge

  datatype Simple = Any | Cmp(op: Op, bound: Version)

  /** OR groups of conjunctions of simple constraints. */
  type Constraint = seq<seq<Simple>>

  predicate Holds(c: Simple, v: Version) {
    match c
    case Any => true
    case Cmp(op, bound) =>
      match op
      case Eq => v == bound
      case Ne => v != bound
      case Lt => Compare(v, bound) == Less
      case Le => Compare(v, bound) != Greater
      case Gt => Compare(v, bound) == Greater
      case Ge => Compare(v, bound) != Less
  }

  predicate MatchesGroup(group: seq<Simple>, v: Version) {
    forall c :: c in group ==> Holds(c, v)
  }

  predicate Matches(c: Constraint, v: Version) {
    exists group :: group in c && MatchesGroup(group, v)
  }

  // ----- bumping --------------------------------------------------------------------------

  function DevFloor(v: Version): Version { v.(stability := Dev, pre := 0) }

  /** Adds one to component `position` (1-based) and zeroes what follows it. */
  function Bumped(v: Version, position: nat): Version
    requires 1 <= position <= 4
  {
    Version(BumpedParts(v.parts, position), Dev, 0)
  }

  function BumpedParts(p: seq<nat>, position: nat): (r: seq<nat>)
    requires 1 <= position <= |p|
    ensures |r| == |p|
  {
    if position == 1 then [p[0] + 1] + Zeros(|p| - 1) else [p[0]] + BumpedParts(p[1..], position - 1)
  }

  function Zeros(n: nat): (r: seq<nat>)
    ensures |r| == n && forall k :: 0 <= k < n ==> r[k] == 0
  {
    if n == 0 then [] else [0] + Zeros(n - 1)
  }

  lemma {:induction false} BumpedAt(p: seq<nat>, position: nat, k: nat)
    requires 1 <= position <= |p| && k < |p|
    ensures BumpedParts(p, position)[k] ==
            if k < position - 1 then p[k] else if k == position - 1 then p[k] + 1 else 0
  {
    if position > 1 && k > 0 { BumpedAt(p[1..], position - 1, k - 1); }
  }

  method Bump(v: Version, position: nat) returns (r: Version)
    requires 1 <= position <= 4
    ensures r == Bumped(v, position)
  {
    var parts: Parts := v.parts[position - 1 := v.parts[position - 1] + 1];
    for i := position to 4
      invariant |parts| == 4
      invariant forall k :: 0 <= k < position - 1 ==> parts[k] == v.parts[k]
      invariant parts[position - 1] == v.parts[position - 1] + 1
      invariant forall k :: position <= k < i ==> parts[k] == 0
    {
      parts := parts[i := 0];
    }
    forall k | 0 <= k < 4
      ensures parts[k] == BumpedParts(v.parts, position)[k]
    {
      BumpedAt(v.parts, position, k);
    }
    assert parts == Bumped(v, position).parts;
    r := Version(parts, Dev, 0);
  }

  // ----- one token ------------------------------------------------------------------------

  /** Does the version text carry anything beside digits, dots and `v`? */
  predicate HasSuffix(s: string) {
    exists k :: 0 <= k < |s| && !(IsDigit(s[k]) || s[k] == '.' || s[k] == 'v' || s[k] == 'V')
  }

  predicate StartsWith(s: string, prefix: string) { prefix <= s }

  function StripVs(s: string): string {
    if s != "" && (s[0] == 'v' || s[0] == 'V') then StripVs(s[1..]) else s
  }

  function DottedCount(s: string): nat { |Text.Split(StripVs(s), '.')| }

  /** The text before the first `-` or `+`. */
  function Stem(s: string): string {
    if s == "" || s[0] == '-' || s[0] == '+' then "" else [s[0]] + Stem(s[1..])
  }

  /** Index of the first `" - "`. */
  function FindHyphen(s: string): (r: Option<nat>)
    ensures r.Some? ==> r.value + 3 <= |s|
  {
    if StartsWith(s, " - ") then Some(0)
    else if s == "" then None
    else
      match FindHyphen(s[1..])
      case None => None
      case Some(i) => Some(i + 1)
  }

  predicate IsWildcard(s: string) {
    && (forall k :: 0 <= k < |s| ==> IsStar(s[k]) || s[k] == '.' || s[k] == 'v')
    && (exists k :: 0 <= k < |s| && IsStar(s[k]))
  }

  predicate IsStar(c: char) { c == '*' || c == 'x' || c == 'X' }

  /** Does the text end in `.*` or `.x`? */
  predicate EndsInStar(s: string) {
    |s| >= 2 && s[|s| - 2] == '.' && (s[|s| - 1] == '*' || s[|s| - 1] == 'x')
  }

  function CaretPosition(v: Version, given: nat): (p: nat)
    ensures 1 <= p <= 3
  {
    if v.parts[0] != 0 || given < 2 then 1 else if v.parts[1] != 0 || given < 3 then 2 else 3
  }

  function TildePosition(given: nat): (p: nat)
    ensures 1 <= p <= 3
  {
    var clamped := if given < 1 then 1 else if given > 4 then 4 else given;
    (if clamped < 2 then 2 else clamped) - 1
  }

  function Floor(v: Version, text: string): Version {
    if HasSuffix(text) then v else DevFloor(v)
  }

  /** A version text without a suffix is `v`, then one to four dotted numbers: it is stable, and
      the dots the position is counted from are the dots the parts were read from. */
  lemma PlainVersion(s: string)
    requires Parse(s).Some? && !HasSuffix(s)
    ensures Parse(s).value.stability == Stable && Parse(s).value.pre == 0
    ensures 1 <= DottedCount(s) <= 4
    ensures exists k :: 0 <= k < |s| && IsDigit(s[k])
  {
    PlainTrim(s);
    var u := StripV(s);
    var num := Numeric(u);
    var pieces := Text.Split(num, '.');
    if |num| < |u| {
      assert u[|num|] == 'v' || u[|num|] == 'V';
      NoStability(u[|num|..]);
      assert false;
    }
    assert num == u;
    ParsePiecesLength(pieces);
    assert |ParsePieces(pieces).value| <= 4;
    assert StripVs(s) == u;
    FirstNumberHasDigit(num, pieces[0]);
    var k :| 0 <= k < |u| && IsDigit(u[k]);
    assert u == s || u == s[1..];
    assert IsDigit(s[if u == s then k else k + 1]);
  }

  lemma PlainTrim(s: string)
    requires !HasSuffix(s)
    ensures Trim(s) == s
  {
    if s != "" { assert !IsBlank(s[0]) && !IsBlank(s[|s| - 1]); }
  }

  lemma NoStability(rest: string)
    requires rest != "" && (rest[0] == 'v' || rest[0] == 'V')
    ensures SkipMarks(rest) == rest && ParseStability(rest) == None
  {
    var lower := Text.ToLower(rest);
    assert lower[0] == 'v';
    var letters := Letters(lower);
    assert letters[0] == 'v';
    KeepsFirst(letters);
    NoWordStartsWithV(DropMarks(letters));
  }

  lemma NoWordStartsWithV(word: string)
    requires word != "" && word[0] == 'v'
    ensures WordStability(word) == None
  {
    assert word[0] != "dev"[0] && word[0] != "rc"[0];
  }

  lemma {:induction false} KeepsFirst(s: string)
    requires s != "" && !IsMark(s[0])
    ensures DropMarks(s) != "" && DropMarks(s)[0] == s[0]
  {
    if IsMark(s[|s| - 1]) { KeepsFirst(s[..|s| - 1]); }
  }

  lemma FirstNumberHasDigit(num: string, first: string)
    requires Text.Split(num, '.')[0] == first && Number(first).Some?
    ensures exists k :: 0 <= k < |num| && IsDigit(num[k])
  {
    assert IsDigit(first[|first| - 1]);
    FirstPiece(num);
    assert num[|first| - 1] == first[|first| - 1];
  }

  lemma {:induction false} FirstPiece(num: string)
    ensures Text.Split(num, '.')[0] <= num
  {
    if num != "" && num[0] != '.' {
      FirstPiece(num[1..]);
      assert num == [num[0]] + num[1..];
    }
  }

  function HyphenRange(from: string, to: string): Option<seq<Simple>> {
    match (Parse(from), Parse(Trim(to)))
    case (Some(low), Some(high)) =>
      var numeric := DottedCount(Trim(to));
      if HasSuffix(Trim(to)) || numeric >= 3 then Some([Cmp(Ge, Floor(low, from)), Cmp(Le, high)])
      else Some([Cmp(Ge, Floor(low, from)), Cmp(Lt, Bumped(high, numeric))])
    case _ => None
  }

  function XRange(stem: string): Option<seq<Simple>> {
    match Parse(stem)
    case None => None
    case Some(base) =>
      if HasSuffix(stem) then None
      else
        PlainVersion(stem);
        var position := DottedCount(stem);
        if base.parts == [0, 0, 0, 0] then Some([Cmp(Lt, Bumped(base, position))])
        else Some([Cmp(Ge, DevFloor(base)), Cmp(Lt, Bumped(base, position))])
  }

  function Caret(rest: string): Option<seq<Simple>> {
    match Parse(rest)
    case None => None
    case Some(v) =>
      Some([Cmp(Ge, Floor(v, rest)), Cmp(Lt, Bumped(v, CaretPosition(v, DottedCount(Stem(rest)))))])
  }

  function Tilde(rest: string): Option<seq<Simple>> {
    if StartsWith(rest, ">") then None
    else
      match Parse(rest)
      case None => None
      case Some(v) =>
        Some([Cmp(Ge, Floor(v, rest)), Cmp(Lt, Bumped(v, TildePosition(DottedCount(Stem(rest)))))])
  }

  /** `<` and `>=` without a suffix mean the dev floor of the version. */
  function Operator(op: Op, text: string): Option<seq<Simple>> {
    var rest := Trim(text);
    match Parse(rest)
    case None => None
    case Some(v) =>
      Some([Cmp(op, if (op == Lt || op == Ge) && !HasSuffix(rest) then DevFloor(v) else v)])
  }

  /** The simple constraints one token stands for; None where the source gives up. */
  function ParseSimple(token: string): Option<seq<Simple>> {
    var t := Trim(token);
    match FindHyphen(t)
    case Some(i) => HyphenRange(t[..i], t[i + 3..])
    case None => ParseWord(t)
  }

  /** A token without blanks. */
  function ParseWord(t: string): Option<seq<Simple>> {
    if IsWildcard(t) then Some([Any])
    else if EndsInStar(t) then XRange(t[..|t| - 2])
    else if t != "" && t[0] == '^' then Caret(t[1..])
    else if t != "" && t[0] == '~' then Tilde(t[1..])
    else ParseComparison(t)
  }

  function ParseComparison(t: string): Option<seq<Simple>> {
    if StartsWith(t, ">=") then Operator(Ge, t[2..])
    else if StartsWith(t, "<=") then Operator(Le, t[2..])
    else if StartsWith(t, "<>") || StartsWith(t, "!=") then Operator(Ne, t[2..])
    else if StartsWith(t, ">") then Operator(Gt, t[1..])
    else if StartsWith(t, "<") then Operator(Lt, t[1..])
    else if StartsWith(t, "==") then Operator(Eq, t[2..])
    else if StartsWith(t, "=") then Operator(Eq, t[1..])
    else Operator(Eq, t)
  }

  // ----- what the range forms mean --------------------------------------------------------

  /** At least the dev floor of `v`, and equal to it in the first `position` components. */
  predicate InFamily(v: Version, position: nat, x: Version)
    requires position <= 4
  {
    Compare(x, DevFloor(v)) != Less && x.parts[..position] == v.parts[..position]
  }

  lemma FamilyBounds(v: Version, position: nat, x: Version)
    requires 1 <= position <= 4
    ensures InFamily(v, position, x) <==>
            Holds(Cmp(Ge, DevFloor(v)), x) && Holds(Cmp(Lt, Bumped(v, position)), x)
    ensures v.parts == [0, 0, 0, 0] ==> Holds(Cmp(Ge, DevFloor(v)), x)
  {
    PartsInterval(v.parts, position, x.parts);
    ZerosAreLeast(x.parts);
    if v.parts == [0, 0, 0, 0] { assert v.parts == Zeros(4); }
  }

  /** `p <= q < bump(p)` lexicographically means `p <= q` and a common prefix. */
  lemma {:induction false} PartsInterval(p: seq<nat>, position: nat, q: seq<nat>)
    requires 1 <= position <= |p| == |q|
    ensures LexCompare(q, p) != Less && LexCompare(q, BumpedParts(p, position)) == Less <==>
            LexCompare(q, p) != Less && q[..position] == p[..position]
  {
    var top := BumpedParts(p, position);
    if position == 1 {
      ZerosAreLeast(q[1..]);
      assert top[1..] == Zeros(|p| - 1);
      assert q[..1] == [q[0]] && p[..1] == [p[0]];
    } else {
      PartsInterval(p[1..], position - 1, q[1..]);
      assert top[1..] == BumpedParts(p[1..], position - 1);
      assert q[..position] == [q[0]] + q[1..][..position - 1];
      assert p[..position] == [p[0]] + p[1..][..position - 1];
    }
  }

  lemma {:induction false} ZerosAreLeast(q: seq<nat>)
    ensures LexCompare(q, Zeros(|q|)) != Less
  {
    if q != [] {
      assert Zeros(|q|)[1..] == Zeros(|q| - 1) == Zeros(|q[1..]|);
      ZerosAreLeast(q[1..]);
    }
  }

  lemma {:induction false} NoHyphen(t: string)
    requires forall k :: 0 <= k < |t| ==> t[k] != ' '
    ensures FindHyphen(t) == None
  {
    if t != "" {
      assert !StartsWith(t, " - ") by { assert t[0] != " - "[0]; }
      NoHyphen(t[1..]);
    }
  }

  lemma {:induction false} NoStem(s: string)
    requires !HasSuffix(s)
    ensures Stem(s) == s
  {
    if s != "" {
      assert IsDigit(s[0]) || s[0] == '.' || s[0] == 'v' || s[0] == 'V';
      forall k | 0 <= k < |s[1..]|
        ensures IsDigit(s[1..][k]) || s[1..][k] == '.' || s[1..][k] == 'v' || s[1..][k] == 'V'
      {
        assert s[1..][k] == s[k + 1];
      }
      NoStem(s[1..]);
    }
  }

  predicate NoBlanks(t: string) { forall k :: 0 <= k < |t| ==> !IsBlank(t[k]) }

  lemma WordIsToken(t: string)
    requires NoBlanks(t)
    ensures ParseSimple(t) == ParseWord(t)
  {
    NoHyphen(t);
    assert Trim(t) == t;
  }

  predicate PlainChar(c: char) { IsDigit(c) || c == '.' || c == 'v' || c == 'V' }

  /** A sign followed by a plain version is read as that sign, and nothing else. */
  lemma SignedToken(sign: char, rest: string)
    requires (sign == '^' || sign == '~') && Parse(rest).Some? && !HasSuffix(rest)
    ensures ParseSimple([sign] + rest) == if sign == '^' then Caret(rest) else Tilde(rest)
  {
    var t := [sign] + rest;
    forall k | 0 < k < |t|
      ensures PlainChar(t[k])
    {
      assert t[k] == rest[k - 1];
    }
    WordIsToken(t);
    SignedWord(t);
    assert t[1..] == rest;
  }

  lemma SignedWord(t: string)
    requires t != "" && (t[0] == '^' || t[0] == '~') && forall k :: 0 < k < |t| ==> PlainChar(t[k])
    ensures ParseWord(t) == if t[0] == '^' then Caret(t[1..]) else Tilde(t[1..])
  {
    assert !(IsStar(t[0]) || t[0] == '.' || t[0] == 'v');
    assert !EndsInStar(t);
  }

  /** `^X.Y.Z` is exactly the family of its operand, cut at the first non-zero component. */
  lemma CaretIsAFamily(rest: string, x: Version)
    requires Parse(rest).Some? && !HasSuffix(rest)
    ensures var v := Parse(rest).value;
            var c := ParseSimple("^" + rest);
            c.Some? && (MatchesGroup(c.value, x) <==> InFamily(v, CaretPosition(v, DottedCount(rest)), x))
  {
    var v := Parse(rest).value;
    var position := CaretPosition(v, DottedCount(rest));
    SignedToken('^', rest);
    NoStem(rest);
    TwoBounds(v, position, x);
  }

  /** `~X.Y.Z` is exactly the family of its operand, cut before the last component given. */
  lemma TildeIsAFamily(rest: string, x: Version)
    requires Parse(rest).Some? && !HasSuffix(rest)
    ensures var v := Parse(rest).value;
            var c := ParseSimple("~" + rest);
            c.Some? && (MatchesGroup(c.value, x) <==> InFamily(v, TildePosition(DottedCount(rest)), x))
  {
    var v := Parse(rest).value;
    SignedToken('~', rest);
    NoStem(rest);
    PlainVersion(rest);
    TwoBounds(v, TildePosition(DottedCount(rest)), x);
  }

  lemma TwoBounds(v: Version, position: nat, x: Version)
    requires 1 <= position <= 4
    ensures MatchesGroup([Cmp(Ge, DevFloor(v)), Cmp(Lt, Bumped(v, position))], x) <==> InFamily(v, position, x)
  {
    FamilyBounds(v, position, x);
    var group := [Cmp(Ge, DevFloor(v)), Cmp(Lt, Bumped(v, position))];
    assert group[0] in group && group[1] in group;
  }

  /** `X.Y.*` is exactly the family of `X.Y`. For zeros the source leaves the floor out, which
      changes nothing. */
  lemma XRangeIsAFamily(stem: string, x: Version)
    requires Parse(stem).Some? && !HasSuffix(stem)
    ensures 1 <= DottedCount(stem) <= 4
    ensures var v := Parse(stem).value;
            var c := ParseSimple(stem + ".*");
            c.Some? && (MatchesGroup(c.value, x) <==> InFamily(v, DottedCount(stem), x))
  {
    var v := Parse(stem).value;
    PlainVersion(stem);
    StarredToken(stem);
    TwoBounds(v, DottedCount(stem), x);
    FamilyBounds(v, DottedCount(stem), x);
    if v.parts == [0, 0, 0, 0] {
      var top := Cmp(Lt, Bumped(v, DottedCount(stem)));
      assert MatchesGroup([top], x) <==> Holds(top, x) by { assert [top][0] in [top]; }
    }
  }

  lemma StarredToken(stem: string)
    requires Parse(stem).Some? && !HasSuffix(stem)
    ensures ParseSimple(stem + ".*") == XRange(stem)
  {
    var t := stem + ".*";
    PlainVersion(stem);
    var d :| 0 <= d < |stem| && IsDigit(stem[d]);
    forall k | 0 <= k < |t|
      ensures !IsBlank(t[k])
    {
      assert t[k] == if k < |stem| then stem[k] else ".*"[k - |stem|];
    }
    WordIsToken(t);
    assert t[d] == stem[d] && !(IsStar(t[d]) || t[d] == '.' || t[d] == 'v');
    assert EndsInStar(t) && t[..|t| - 2] == stem;
  }

  // ----- lower bounds ---------------------------------------------------------------------

  datatype LowerBound = LowerBound(version: Version, inclusive: bool)

  /** Does `x` reach the bound? */
  predicate Reaches(x: Version, b: LowerBound) {
    if b.inclusive then Compare(x, b.version) != Less else Compare(x, b.version) == Greater
  }

  /** `Bound::compareTo(.., '>')`: at one version, an exclusive bound is the higher one. */
  predicate Higher(a: LowerBound, b: LowerBound) {
    match Compare(a.version, b.version)
    case Greater => true
    case Less => false
    case Equal => !a.inclusive && b.inclusive
  }

  /** Not higher means weaker: whatever reaches `a` reaches `b` too. */
  lemma NotHigherIsWeaker(a: LowerBound, b: LowerBound, x: Version)
    requires !Higher(b, a) && Reaches(x, a)
    ensures Reaches(x, b)
  {
    TotalOrder(b.version, a.version, x);
    TotalOrder(a.version, x, b.version);
    TotalOrder(b.version, x, a.version);
  }

  lemma HigherIsAnOrder(a: LowerBound, b: LowerBound, c: LowerBound)
    ensures Higher(a, b) ==> !Higher(b, a)
    ensures !Higher(a, b) && !Higher(b, a) ==> a == b
    ensures !Higher(a, b) && !Higher(b, c) ==> !Higher(a, c)
  {
    TotalOrder(a.version, b.version, c.version);
    TotalOrder(b.version, c.version, a.version);
    TotalOrder(c.version, b.version, a.version);
  }

  function BoundOf(c: Simple): Option<LowerBound> {
    match c
    case Any => None
    case Cmp(op, v) =>
      match op
      case Ge => Some(LowerBound(v, true))
      case Eq => Some(LowerBound(v, true))
      case Gt => Some(LowerBound(v, false))
      case _ => None
  }

  /** `b` is one of the bounds in `group`, and none of them is higher. */
  ghost predicate HighestOf(group: seq<Simple>, b: LowerBound) {
    && (exists c :: c in group && BoundOf(c) == Some(b))
    && (forall c :: c in group && BoundOf(c).Some? ==> !Higher(BoundOf(c).value, b))
  }

  predicate Unbounded(group: seq<Simple>) {
    forall c :: c in group ==> BoundOf(c) == None
  }

  method GroupBound(group: seq<Simple>) returns (r: Option<LowerBound>)
    ensures r.None? <==> Unbounded(group)
    ensures r.Some? ==> HighestOf(group, r.value)
  {
    r := None;
    for i := 0 to |group|
      invariant r.None? <==> Unbounded(group[..i])
      invariant r.Some? ==> HighestOf(group[..i], r.value)
    {
      var candidate := BoundOf(group[i]);
      assert group[..i + 1] == group[..i] + [group[i]];
      if candidate.Some? && (r.None? || Higher(candidate.value, r.value)) {
        forall c | c in group[..i + 1] && BoundOf(c).Some?
          ensures !Higher(BoundOf(c).value, candidate.value)
        {
          HigherIsAnOrder(candidate.value, candidate.value, candidate.value);
          if r.Some? {
            HigherIsAnOrder(BoundOf(c).value, r.value, candidate.value);
            HigherIsAnOrder(candidate.value, r.value, candidate.value);
          }
        }
        r := candidate;
      }
    }
    assert group[..|group|] == group;
  }

  /** A constraint without any bound below: some OR branch has none. */
  predicate BoundedBelow(c: Constraint) {
    c != [] && forall group :: group in c ==> !Unbounded(group)
  }

  /** `b` is the highest bound of one OR branch, and no branch has a lower one. */
  ghost predicate IsLowerBound(c: Constraint, b: LowerBound) {
    && BoundedBelow(c)
    && (exists group :: group in c && HighestOf(group, b))
    && (forall group, g :: group in c && HighestOf(group, g) ==> !Higher(b, g))
  }

  /** `lower_bound`: the lowest, over the OR branches, of the highest bound in each. */
  method ComputeLowerBound(c: Constraint) returns (r: Option<LowerBound>)
    ensures r.Some? <==> BoundedBelow(c)
    ensures r.Some? ==> IsLowerBound(c, r.value)
  {
    r := None;
    for i := 0 to |c|
      invariant r.Some? <==> i > 0
      invariant r.Some? ==> IsLowerBound(c[..i], r.value)
      invariant forall group :: group in c[..i] ==> !Unbounded(group)
    {
      assert c[..i + 1] == c[..i] + [c[i]];
      var gb := GroupBound(c[i]);
      if gb.None? {
        assert c[i] in c;
        return None;
      }
      if r.None? || Higher(r.value, gb.value) {
        LowestSoFar(c[..i], c[i], r, gb.value, gb.value);
        r := gb;
      } else {
        LowestSoFar(c[..i], c[i], r, gb.value, r.value);
      }
    }
    assert c[..|c|] == c;
  }

  lemma HighestIsUnique(group: seq<Simple>, a: LowerBound, b: LowerBound)
    requires HighestOf(group, a) && HighestOf(group, b)
    ensures a == b
  {
    HigherIsAnOrder(a, b, a);
  }

  lemma LowestSoFar(before: Constraint, group: seq<Simple>, r: Option<LowerBound>, gb: LowerBound, chosen: LowerBound)
    requires if before == [] then r.None? else r.Some? && IsLowerBound(before, r.value)
    requires HighestOf(group, gb) && !Unbounded(group)
    requires chosen == if r.None? || Higher(r.value, gb) then gb else r.value
    ensures IsLowerBound(before + [group], chosen)
  {
    var c := before + [group];
    assert group in c;
    forall g, h | g in c && HighestOf(g, h)
      ensures !Higher(chosen, h)
    {
      if g == group { HighestIsUnique(group, gb, h); }
      HigherIsAnOrder(gb, gb, gb);
      if r.Some? {
        HigherIsAnOrder(gb, r.value, h);
        HigherIsAnOrder(r.value, gb, h);
      }
    }
    if r.Some? && chosen == r.value {
      var g :| g in before && HighestOf(g, chosen);
      assert g in c;
    }
  }

  /** Every version a constraint admits reaches its lower bound. */
  lemma AdmittedReachesBound(c: Constraint, b: LowerBound, x: Version)
    requires IsLowerBound(c, b) && Matches(c, x)
    ensures Reaches(x, b)
  {
    var group :| group in c && MatchesGroup(group, x);
    var g := HighestExists(group);
    var s :| s in group && BoundOf(s) == Some(g);
    assert Holds(s, x);
    TotalOrder(x, g.version, x);
    NotHigherIsWeaker(g, b, x);
  }

  lemma {:induction false} HighestExists(group: seq<Simple>) returns (g: LowerBound)
    requires !Unbounded(group)
    ensures HighestOf(group, g)
  {
    var n := |group| - 1;
    var rest := group[..n];
    assert group == rest + [group[n]];
    if Unbounded(rest) {
      g := BoundOf(group[n]).value;
      HigherIsAnOrder(g, g, g);
    } else {
      var h := HighestExists(rest);
      g := h;
      var last := BoundOf(group[n]);
      if last.Some? {
        HigherIsAnOrder(last.value, h, h);
        HigherIsAnOrder(last.value, last.value, h);
        if Higher(last.value, h) {
          g := last.value;
          forall c | c in group && BoundOf(c).Some?
            ensures !Higher(BoundOf(c).value, g)
          {
            HigherIsAnOrder(BoundOf(c).value, h, g);
          }
        }
      }
    }
  }
}
