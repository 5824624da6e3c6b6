/** The PHP version test written into platform_check.php (generator.rs, `platform_check`). */
module PlatformCheck {
  import opened Common
  import opened Versions
  import opened Constraints

  /** One entry of a package's `require`: the constraint is None when it is not a string, or
      not one the constraint parser supports. */
  datatype Requirement = Requirement(target: string, constraint: Option<Constraint>)

  datatype Package = Package(isDev: bool, needs: seq<Requirement>)

  /** `--ignore-platform-req` patterns: a name, `*`, or a prefix and `*`; a final `+` is dropped. */
  predicate Ignores(pattern: string, name: string) {
    var p := if pattern != "" && pattern[|pattern| - 1] == '+' then pattern[..|pattern| - 1] else pattern;
    p == "*" || p == name || (p != "" && p[|p| - 1] == '*' && p[..|p| - 1] <= name)
  }

  predicate IsIgnored(name: string, ignored: seq<string>) {
    exists pattern :: pattern in ignored && Ignores(pattern, name)
  }

  predicate IsPhp(target: string) { target == "php" || target == "php-64bit" }

  /** Does the check have to honour this requirement? */
  predicate Counts(r: Requirement, ignored: seq<string>) {
    !IsIgnored(r.target, ignored) && IsPhp(r.target) && r.constraint.Some?
  }

  /** The constraints on PHP that count, in order. */
  function Considered(needs: seq<Requirement>, ignored: seq<string>): seq<Constraint> {
    if needs == [] then []
    else
      var last := needs[|needs| - 1];
      Considered(needs[..|needs| - 1], ignored) + (if Counts(last, ignored) then [last.constraint.value] else [])
  }

  function ConsideredOfAll(packages: seq<Package>, ignored: seq<string>): seq<Constraint> {
    if packages == [] then []
    else
      var last := packages[|packages| - 1];
      ConsideredOfAll(packages[..|packages| - 1], ignored) + (if last.isDev then [] else Considered(last.needs, ignored))
  }

  /** `b` is the lower bound of one of the constraints, and none has a higher one. */
  ghost predicate HighestBound(cs: seq<Constraint>, b: LowerBound) {
    && (exists c :: c in cs && IsLowerBound(c, b))
    && (forall c, other :: c in cs && IsLowerBound(c, other) ==> !Higher(other, b))
  }

  ghost predicate NoBound(cs: seq<Constraint>) {
    forall c :: c in cs ==> !BoundedBelow(c)
  }

  ghost predicate IsLowest(cs: seq<Constraint>, lowest: Option<LowerBound>) {
    match lowest
    case None => NoBound(cs)
    case Some(b) => HighestBound(cs, b)
  }

  lemma OneMore(cs: seq<Constraint>, lowest: Option<LowerBound>, c: Constraint, bound: Option<LowerBound>)
    requires IsLowest(cs, lowest)
    requires if bound.None? then !BoundedBelow(c) else IsLowerBound(c, bound.value)
    ensures IsLowest(cs + [c], if bound.Some? && (lowest.None? || Higher(bound.value, lowest.value)) then bound else lowest)
  {
    var all := cs + [c];
    assert c in all;
    if bound.Some? {
      var chosen := if lowest.None? || Higher(bound.value, lowest.value) then bound.value else lowest.value;
      forall d, other | d in all && IsLowerBound(d, other)
        ensures !Higher(other, chosen)
      {
        if d == c { BoundIsUnique(c, bound.value, other); }
        HigherIsAnOrder(bound.value, bound.value, bound.value);
        if lowest.Some? {
          HigherIsAnOrder(other, lowest.value, bound.value);
          HigherIsAnOrder(bound.value, lowest.value, bound.value);
        }
      }
    }
    if lowest.Some? {
      var d :| d in cs && IsLowerBound(d, lowest.value);
      assert d in all;
    }
  }

  lemma BoundIsUnique(c: Constraint, a: LowerBound, b: LowerBound)
    requires IsLowerBound(c, a) && IsLowerBound(c, b)
    ensures a == b
  {
    HigherIsAnOrder(a, b, a);
  }

  method Requirements(needs: seq<Requirement>, ignored: seq<string>, ghost before: seq<Constraint>, start: Option<LowerBound>)
    returns (lowest: Option<LowerBound>)
    requires IsLowest(before, start)
    ensures IsLowest(before + Considered(needs, ignored), lowest)
  {
    lowest := start;
    assert before + Considered([], ignored) == before;
    for i := 0 to |needs|
      invariant IsLowest(before + Considered(needs[..i], ignored), lowest)
    {
      assert needs[..i + 1][..i] == needs[..i];
      ghost var cs := before + Considered(needs[..i], ignored);
      if Counts(needs[i], ignored) {
        var c := needs[i].constraint.value;
        var bound := ComputeLowerBound(c);
        OneMore(cs, lowest, c, bound);
        assert before + Considered(needs[..i + 1], ignored) == cs + [c];
        if bound.Some? && (lowest.None? || Higher(bound.value, lowest.value)) {
          lowest := bound;
        }
      } else {
        assert before + Considered(needs[..i + 1], ignored) == cs;
      }
    }
    assert needs[..|needs|] == needs;
  }

  /** The generated test: `PHP_VERSION_ID >= id` or `PHP_VERSION_ID > id`. */
  datatype Check = Check(id: int, inclusive: bool)

  function VersionId(major: nat, minor: nat, patch: nat): int { 10000 * major + 100 * minor + patch }

  function CheckFor(b: LowerBound): Check {
    Check(VersionId(b.version.parts[0], b.version.parts[1], b.version.parts[2]), b.inclusive)
  }

  /** The bound chosen is the highest of the lower bounds of the constraints that count. */
  method LowestPhp(packages: seq<Package>, ignored: seq<string>) returns (lowest: Option<LowerBound>, check: Option<Check>)
    ensures IsLowest(ConsideredOfAll(packages, ignored), lowest)
    ensures check == if lowest.None? then None else Some(CheckFor(lowest.value))
  {
    lowest := None;
    for i := 0 to |packages|
      invariant IsLowest(ConsideredOfAll(packages[..i], ignored), lowest)
    {
      assert packages[..i + 1][..i] == packages[..i];
      ghost var before := ConsideredOfAll(packages[..i], ignored);
      if !packages[i].isDev {
        lowest := Requirements(packages[i].needs, ignored, before, lowest);
      } else {
        assert before + [] == before;
      }
    }
    assert packages[..|packages|] == packages;
    check := if lowest.None? then None else Some(CheckFor(lowest.value));
  }

  // ----- what the check is worth ----------------------------------------------------------

  predicate Passes(check: Check, major: nat, minor: nat, patch: nat) {
    var id := VersionId(major, minor, patch);
    if check.inclusive then id >= check.id else id > check.id
  }

  /** A stable PHP release. */
  function Release(major: nat, minor: nat, patch: nat): Version {
    Version([major, minor, patch, 0], Stable, 0)
  }

  predicate Satisfies(cs: seq<Constraint>, v: Version) {
    forall c :: c in cs ==> Matches(c, v)
  }

  /** Every release that satisfies all the constraints passes the check. */
  ghost predicate Sound(cs: seq<Constraint>, check: Check) {
    forall major: nat, minor: nat, patch: nat ::
      minor < 100 && patch < 100 && Satisfies(cs, Release(major, minor, patch)) ==> Passes(check, major, minor, patch)
  }

  /** In major, minor and patch number, `q` is at `p` or after it. */
  predicate NotBefore(q: Parts, p: Parts) {
    q[0] > p[0] || (q[0] == p[0] && (q[1] > p[1] || (q[1] == p[1] && q[2] >= p[2])))
  }

  /** The releases from the bound's numbers on that the check turns away. */
  predicate TurnedAway(b: LowerBound, major: nat, minor: nat, patch: nat) {
    && minor < 100 && patch < 100
    && NotBefore(Release(major, minor, patch).parts, b.version.parts)
    && !Passes(CheckFor(b), major, minor, patch)
  }

  /** The bound's number does not run over the number of the next minor or major release. */
  predicate Fits(b: LowerBound) {
    var minor, patch := b.version.parts[1], b.version.parts[2];
    (minor < 100 && patch <= 100) || (minor == 100 && patch == 0)
  }

  /** The release that carries the bound's number: the one the bound names, if there is one. */
  function Numbered(b: LowerBound): Version {
    var id := CheckFor(b).id;
    Release(id / 10000, id / 100 % 100, id % 100)
  }

  /** The release at the next minor number, or at the next major one when there is none. */
  function NextRelease(b: LowerBound): (nat, nat, nat) {
    var p := b.version.parts;
    if p[1] < 99 then (p[0], p[1] + 1, 0) else (p[0] + 1, 0, 0)
  }

  /** For every bound the check is sound if and only if no release it turns away satisfies the
      constraints anyway. While the bound's number fits, an inclusive bound turns nothing away,
      and an exclusive one the one release that carries its number. */
  lemma SoundIff(cs: seq<Constraint>, b: LowerBound)
    requires HighestBound(cs, b)
    ensures Sound(cs, CheckFor(b)) <==>
            forall major, minor, patch ::
              TurnedAway(b, major, minor, patch) ==> !Satisfies(cs, Release(major, minor, patch))
    ensures Fits(b) ==> (Sound(cs, CheckFor(b)) <==> b.inclusive || !Satisfies(cs, Numbered(b)))
  {
    forall major: nat, minor: nat, patch: nat | minor < 100 && patch < 100 && Satisfies(cs, Release(major, minor, patch))
      ensures TurnedAway(b, major, minor, patch) <==> !Passes(CheckFor(b), major, minor, patch)
    {
      SatisfyingIsNotBefore(cs, b, major, minor, patch);
    }
    if Fits(b) {
      forall major: nat, minor: nat, patch: nat
        ensures TurnedAway(b, major, minor, patch) <==>
                !b.inclusive && minor < 100 && patch < 100 && Release(major, minor, patch) == Numbered(b)
      {
        FittingTurnsAway(b, major, minor, patch);
      }
      var id := CheckFor(b).id;
      assert !b.inclusive ==> TurnedAway(b, id / 10000, id / 100 % 100, id % 100);
    }
  }

  lemma SatisfyingIsNotBefore(cs: seq<Constraint>, b: LowerBound, major: nat, minor: nat, patch: nat)
    requires HighestBound(cs, b) && Satisfies(cs, Release(major, minor, patch))
    ensures NotBefore(Release(major, minor, patch).parts, b.version.parts)
  {
    var c :| c in cs && IsLowerBound(c, b);
    AdmittedReachesBound(c, b, Release(major, minor, patch));
    ThreeParts(Release(major, minor, patch).parts, b.version.parts);
  }

  /** While the number of a bound fits, numbers order releases against it as their parts do. */
  lemma FittingTurnsAway(b: LowerBound, major: nat, minor: nat, patch: nat)
    requires Fits(b)
    ensures TurnedAway(b, major, minor, patch) <==>
            !b.inclusive && minor < 100 && patch < 100 && Release(major, minor, patch) == Numbered(b)
  {
    if minor < 100 && patch < 100 {
      IdIsTheParts(major, minor, patch, CheckFor(b).id);
    }
  }

  /** Two-digit parts can be read off the number. */
  lemma IdIsTheParts(major: nat, minor: nat, patch: nat, id: nat)
    requires minor < 100 && patch < 100
    ensures VersionId(major, minor, patch) == id <==> Release(major, minor, patch) == Release(id / 10000, id / 100 % 100, id % 100)
  {
    Digits(major, minor, patch);
    var p, q := Release(major, minor, patch).parts, Release(id / 10000, id / 100 % 100, id % 100).parts;
    assert p == q <==> p[0] == q[0] && p[1] == q[1] && p[2] == q[2];
    Digits(id / 10000, id / 100 % 100, id % 100);
  }

  lemma Digits(major: nat, minor: nat, patch: nat)
    requires minor < 100 && patch < 100
    ensures var n := VersionId(major, minor, patch);
            n / 10000 == major && n / 100 % 100 == minor && n % 100 == patch
  {
    var n := VersionId(major, minor, patch);
    assert n / 100 == 100 * major + minor;
  }

  lemma ThreeParts(q: Parts, p: Parts)
    requires LexCompare(q, p) != Less
    ensures NotBefore(q, p)
  {
    if q[0] == p[0] {
      assert LexCompare(q[1..], p[1..]) != Less;
      assert q[1..][1..] == q[2..] && p[1..][1..] == p[2..];
    }
  }

  lemma OnlyOneBranch(c: Constraint, group: seq<Simple>, b: LowerBound)
    requires c == [group] && HighestOf(group, b)
    ensures IsLowerBound(c, b)
  {
    assert group in c;
    forall g, h | g in c && HighestOf(g, h)
      ensures !Higher(b, h)
    {
      HighestIsUnique(group, b, h);
      HigherIsAnOrder(b, b, b);
    }
  }

  lemma OnlyOneConstraint(c: Constraint, b: LowerBound)
    requires IsLowerBound(c, b)
    ensures HighestBound([c], b)
  {
    assert c in [c];
    forall d, other | d in [c] && IsLowerBound(d, other)
      ensures !Higher(other, b)
    {
      BoundIsUnique(c, b, other);
      HigherIsAnOrder(b, b, b);
    }
  }

  /** A number that does not fit runs over the release at the next minor or major number. */
  lemma NextIsTurnedAway(b: LowerBound)
    requires !Fits(b)
    ensures var next := NextRelease(b);
            && TurnedAway(b, next.0, next.1, next.2)
            && Compare(Release(next.0, next.1, next.2), b.version) == Greater
  {
    var next := NextRelease(b);
    var q, p := Release(next.0, next.1, next.2).parts, b.version.parts;
    assert q[1..][0] == q[1] && p[1..][0] == p[1];
    assert LexCompare(q, p) == Greater;
  }

  /** The test written for a single `>= v` is sound if and only if the number of `v` fits, and
      that for a single `> v` if moreover `v` is not before the release with that number. So
      `>= 8.150`, `>= 8.1.150` and `>= 8.100.5` turn releases away that they admit. */
  lemma OneConstraint(op: Op, v: Version)
    requires op == Ge || op == Gt
    ensures var b := LowerBound(v, op == Ge);
            && HighestBound([[[Cmp(op, v)]]], b)
            && (Sound([[[Cmp(op, v)]]], CheckFor(b)) <==> Fits(b) && (b.inclusive || Compare(v, Numbered(b)) != Less))
  {
    var b, s := LowerBound(v, op == Ge), Cmp(op, v);
    var group := [s];
    var c := [group];
    assert s in group && group in c && c in [c];
    HigherIsAnOrder(b, b, b);
    assert BoundOf(s) == Some(b) && HighestOf(group, b);
    OnlyOneBranch(c, group, b);
    OnlyOneConstraint(c, b);
    SoundIff([c], b);
    forall x: Version
      ensures Satisfies([c], x) <==> Holds(s, x)
    {
      assert MatchesGroup(group, x) <==> Holds(s, x);
      assert Matches(c, x) <==> MatchesGroup(group, x);
    }
    TotalOrder(v, Numbered(b), v);
    if !Fits(b) {
      var next := NextRelease(b);
      NextIsTurnedAway(b);
      assert Compare(Release(next.0, next.1, next.2), v) == Greater;
      assert Holds(s, Release(next.0, next.1, next.2));
    }
  }

  /** Whatever constraints have this bound, the check is sound. */
  ghost predicate AlwaysSound(b: LowerBound) {
    forall cs :: HighestBound(cs, b) ==> Sound(cs, CheckFor(b))
  }

  /** Bounds that can be turned into a test without looking at the constraints: those whose
      number fits and that are inclusive, or exclusive and not before the release they turn
      away. */
  lemma AlwaysSoundIff(b: LowerBound)
    ensures AlwaysSound(b) <==> Fits(b) && (b.inclusive || Compare(b.version, Numbered(b)) != Less)
  {
    var op := if b.inclusive then Ge else Gt;
    OneConstraint(op, b.version);
    if Fits(b) && (b.inclusive || Compare(b.version, Numbered(b)) != Less) {
      forall cs | HighestBound(cs, b)
        ensures Sound(cs, CheckFor(b))
      {
        SoundIff(cs, b);
        if !b.inclusive && Satisfies(cs, Numbered(b)) {
          var c :| c in cs && IsLowerBound(c, b);
          AdmittedReachesBound(c, b, Numbered(b));
          TotalOrder(b.version, Numbered(b), b.version);
          assert false;
        }
      }
    }
  }

  lemma BetaIsBefore(v: Version)
    requires v == Version([8, 1, 0, 0], Beta, 1)
    ensures Numbered(LowerBound(v, false)) == Release(8, 1, 0) && Compare(v, Release(8, 1, 0)) == Less
    ensures Compare(Release(8, 1, 0), v) == Greater
  {
    assert CheckFor(LowerBound(v, false)).id == 80100;
    LexEqual(v.parts, Release(8, 1, 0).parts);
    TotalOrder(v, Release(8, 1, 0), v);
  }

  /** `> 8.1.0-beta1` admits PHP 8.1.0, and its check turns 8.1.0 away. */
  lemma PrereleaseBoundIsUnsound()
    ensures var v := Version([8, 1, 0, 0], Beta, 1);
            var c := [[Cmp(Gt, v)]];
            Matches(c, Release(8, 1, 0)) && HighestBound([c], LowerBound(v, false)) &&
            !Sound([c], CheckFor(LowerBound(v, false)))
  {
    var v := Version([8, 1, 0, 0], Beta, 1);
    OneConstraint(Gt, v);
    BetaIsBefore(v);
    var s := Cmp(Gt, v);
    assert Holds(s, Release(8, 1, 0)) && MatchesGroup([s], Release(8, 1, 0)) && [s] in [[s]];
  }

  // ----- which requirements count ---------------------------------------------------------

  /** The name, or a beginning of it and a star. */
  ghost predicate Names(text: string, name: string) {
    text == name || exists k :: 0 <= k <= |name| && text == name[..k] + "*"
  }

  /** Some pattern names it, perhaps with a plus behind. */
  ghost predicate Silenced(name: string, ignored: seq<string>) {
    exists i, text :: 0 <= i < |ignored| && Names(text, name) && Spelled(ignored[i], text)
  }

  lemma NamesIff(text: string, name: string)
    ensures Names(text, name) <==> text == "*" || text == name || (text != "" && text[|text| - 1] == '*' && text[..|text| - 1] <= name)
  {
    if text != "" && text[|text| - 1] == '*' && text[..|text| - 1] <= name {
      assert text == name[..|text| - 1] + "*";
    }
    if Names(text, name) && text != name {
      var k :| 0 <= k <= |name| && text == name[..k] + "*";
      assert text[..|text| - 1] == name[..k];
    }
    if text == "*" { assert text == name[..0] + "*"; }
  }

  /** What stands for it: the text, which must not end in a plus, or the text and a plus. */
  predicate Spelled(pattern: string, text: string) {
    pattern == text + "+" || (pattern == text && (text != "" ==> text[|text| - 1] != '+'))
  }

  lemma SpelledIs(pattern: string, text: string)
    ensures Spelled(pattern, text) <==>
            text == if pattern != "" && pattern[|pattern| - 1] == '+' then pattern[..|pattern| - 1] else pattern
  {
    if pattern == text + "+" { assert pattern[..|pattern| - 1] == text; }
    if pattern != "" && pattern[|pattern| - 1] == '+' { assert pattern == pattern[..|pattern| - 1] + "+"; }
  }

  lemma PatternIff(pattern: string, name: string)
    ensures Ignores(pattern, name) <==> exists text :: Names(text, name) && Spelled(pattern, text)
  {
    var p := if pattern != "" && pattern[|pattern| - 1] == '+' then pattern[..|pattern| - 1] else pattern;
    NamesIff(p, name);
    SpelledIs(pattern, p);
    if text :| Names(text, name) && Spelled(pattern, text) { SpelledIs(pattern, text); }
    hide Names, Spelled;
  }

  lemma IgnoredIff(name: string, ignored: seq<string>)
    ensures IsIgnored(name, ignored) <==> Silenced(name, ignored)
  {
    if IsIgnored(name, ignored) {
      var pattern :| pattern in ignored && Ignores(pattern, name);
      PatternIff(pattern, name);
      var i :| 0 <= i < |ignored| && ignored[i] == pattern;
      hide Ignores, Names;
      assert Silenced(name, ignored);
    }
    if Silenced(name, ignored) {
      var i, text :| 0 <= i < |ignored| && Names(text, name) && Spelled(ignored[i], text);
      PatternIff(ignored[i], name);
      hide Ignores, Names;
      assert ignored[i] in ignored;
    }
  }

  /** A constraint put on `php` or `php-64bit` where no pattern ignores it. */
  ghost predicate OnPhp(r: Requirement, ignored: seq<string>, c: Constraint) {
    r.constraint == Some(c) && (r.target == "php" || r.target == "php-64bit") && !Silenced(r.target, ignored)
  }

  lemma CountsIff(r: Requirement, ignored: seq<string>, c: Constraint)
    ensures Counts(r, ignored) && r.constraint.value == c <==> OnPhp(r, ignored, c)
  {
    IgnoredIff(r.target, ignored);
    hide IsIgnored, Silenced;
  }

  /** The package is not one of development and puts the constraint on PHP. */
  ghost predicate AsksFor(p: Package, ignored: seq<string>, c: Constraint) {
    !p.isDev && exists j :: 0 <= j < |p.needs| && OnPhp(p.needs[j], ignored, c)
  }

  lemma ConsideredStep(needs: seq<Requirement>, ignored: seq<string>, c: Constraint)
    requires needs != []
    ensures var n := |needs| - 1;
            c in Considered(needs, ignored) <==>
            c in Considered(needs[..n], ignored) || (Counts(needs[n], ignored) && needs[n].constraint.value == c)
  {
    hide IsIgnored, IsPhp;
  }

  lemma {:induction false} ConsideredIs(needs: seq<Requirement>, ignored: seq<string>, c: Constraint)
    ensures c in Considered(needs, ignored) <==> exists j :: 0 <= j < |needs| && OnPhp(needs[j], ignored, c)
  {
    if needs != [] {
      hide *;
      var n := |needs| - 1;
      ConsideredStep(needs, ignored, c);
      ConsideredIs(needs[..n], ignored, c);
      CountsIff(needs[n], ignored, c);
      if j :| 0 <= j < n && OnPhp(needs[..n][j], ignored, c) { assert OnPhp(needs[j], ignored, c); }
      if j :| 0 <= j < |needs| && OnPhp(needs[j], ignored, c) { assert j < n ==> OnPhp(needs[..n][j], ignored, c); }
    } else {
      assert Considered(needs, ignored) == [];
    }
  }

  lemma OfAllStep(packages: seq<Package>, ignored: seq<string>, c: Constraint)
    requires packages != []
    ensures var n := |packages| - 1;
            c in ConsideredOfAll(packages, ignored) <==>
            c in ConsideredOfAll(packages[..n], ignored) || (!packages[n].isDev && c in Considered(packages[n].needs, ignored))
  {
    hide Considered;
  }

  lemma AsksIff(p: Package, ignored: seq<string>, c: Constraint)
    ensures AsksFor(p, ignored, c) <==> !p.isDev && c in Considered(p.needs, ignored)
  {
    ConsideredIs(p.needs, ignored, c);
    hide Considered, OnPhp;
  }

  ghost predicate SomeAsks(packages: seq<Package>, ignored: seq<string>, c: Constraint) {
    exists i :: 0 <= i < |packages| && AsksFor(packages[i], ignored, c)
  }

  lemma SomeStep(packages: seq<Package>, ignored: seq<string>, c: Constraint)
    requires packages != []
    ensures var n := |packages| - 1;
            SomeAsks(packages, ignored, c) <==> SomeAsks(packages[..n], ignored, c) || AsksFor(packages[n], ignored, c)
  {
    hide AsksFor;
    var n := |packages| - 1;
    forall i | 0 <= i < n ensures AsksFor(packages[..n][i], ignored, c) == AsksFor(packages[i], ignored, c) {
      assert packages[..n][i] == packages[i];
    }
  }

  /** The test is about the constraints that packages outside of development put on `php` or `php-64bit`
      where no pattern ignores it, and about no others. */
  lemma {:induction false} ConsideredIff(packages: seq<Package>, ignored: seq<string>, c: Constraint)
    ensures c in ConsideredOfAll(packages, ignored) <==> SomeAsks(packages, ignored, c)
  {
    if packages == [] {
      hide AsksFor;
    } else {
      hide *;
      var n := |packages| - 1;
      OfAllStep(packages, ignored, c);
      ConsideredIff(packages[..n], ignored, c);
      AsksIff(packages[n], ignored, c);
      SomeStep(packages, ignored, c);
    }
  }

  /** The test that is written compares ten thousand times the major number, a hundred times the minor one
      and the patch number. */
  lemma TestIs(b: LowerBound, major: nat, minor: nat, patch: nat)
    ensures var p := b.version.parts;
            var bound, id := 10000 * p[0] + 100 * p[1] + p[2], 10000 * major + 100 * minor + patch;
            Passes(CheckFor(b), major, minor, patch) <==> id > bound || (id == bound && b.inclusive)
  {
  }
}
