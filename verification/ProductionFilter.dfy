/** Which packages a production autoloader keeps (crates/vivacity-autoload/src/generator.rs): the
    recursive walk from the root's requirements through the replacement map. */
module ProductionFilter {

  datatype Package = Package(name: string, needs: seq<string>, standsFor: seq<string>)

  type Names = map<string, Package>

  /** The last package of a name stands. */
  function ByName(packages: seq<Package>): Names
    decreases |packages|
  {
    if packages == [] then map[]
    else
      var last := packages[|packages| - 1];
      ByName(packages[..|packages| - 1])[last.name := last]
  }

  function Replacing(standsFor: seq<string>, name: string, before: map<string, string>): map<string, string>
    decreases |standsFor|
  {
    if standsFor == [] then before
    else Replacing(standsFor[..|standsFor| - 1], name, before)[standsFor[|standsFor| - 1] := name]
  }

  /** Who stands in for a name; the last package that replaces it does. */
  function ReplacedBy(packages: seq<Package>): map<string, string>
    decreases |packages|
  {
    if packages == [] then map[]
    else
      var last := packages[|packages| - 1];
      Replacing(last.standsFor, last.name, ReplacedBy(packages[..|packages| - 1]))
  }

  function Target(replacedBy: map<string, string>, name: string): string {
    if name in replacedBy then replacedBy[name] else name
  }

  function Targets(replacedBy: map<string, string>, p: Package): set<string> {
    set name | name in p.needs :: Target(replacedBy, name)
  }

  /** With a name, the set has all its package needs. */
  predicate Closed(names: Names, replacedBy: map<string, string>, reach: set<string>) {
    forall name :: name in reach && name in names ==> Targets(replacedBy, names[name]) <= reach
  }

  /** The names reachable from `root`: the least closed set that has its requirements. */
  ghost predicate IsReach(names: Names, replacedBy: map<string, string>, root: Package, reach: set<string>) {
    Targets(replacedBy, root) <= reach && Closed(names, replacedBy, reach) &&
    forall other: set<string> :: Closed(names, replacedBy, other) && Targets(replacedBy, root) <= other ==> reach <= other
  }

  /** Everything any package of the map, or the root, can name. */
  function Universe(names: Names, replacedBy: map<string, string>, root: Package): set<string> {
    Targets(replacedBy, root) + set name, target | name in names && target in Targets(replacedBy, names[name]) :: target
  }

  /** One package's requirements are followed; names already included are not followed again, so
      requirement cycles end. */
  method Add(p: Package, names: Names, replacedBy: map<string, string>, reach: set<string>, ghost universe: set<string>)
      returns (r: set<string>)
    requires Targets(replacedBy, p) <= universe && reach <= universe
    requires forall name :: name in names ==> Targets(replacedBy, names[name]) <= universe
    ensures reach <= r <= universe && Targets(replacedBy, p) <= r
    ensures forall name :: name in r - reach && name in names ==> Targets(replacedBy, names[name]) <= r
    ensures forall other: set<string> :: Closed(names, replacedBy, other) && Targets(replacedBy, p) <= other ==> r <= reach + other
    decreases |universe - reach|
  {
    r := reach;
    for i := 0 to |p.needs|
      invariant reach <= r <= universe
      invariant forall k :: 0 <= k < i ==> Target(replacedBy, p.needs[k]) in r
      invariant forall name :: name in r - reach && name in names ==> Targets(replacedBy, names[name]) <= r
      invariant forall other: set<string> :: Closed(names, replacedBy, other) && Targets(replacedBy, p) <= other ==> r <= reach + other
    {
      var target := Target(replacedBy, p.needs[i]);
      assert target in Targets(replacedBy, p);
      if target !in r {
        ghost var before := r;
        r := r + {target};
        if target in names {
          assert universe - r < universe - reach;
          SmallerSet(universe - r, universe - reach);
          r := Add(names[target], names, replacedBy, r, universe);
        }
      }
    }
  }

  lemma SmallerSet(a: set<string>, b: set<string>)
    requires a < b
    ensures |a| < |b|
  {
    assert b == a + (b - a);
  }

  function KeptOf(packages: seq<Package>, reach: set<string>): seq<Package>
    decreases |packages|
  {
    if packages == [] then []
    else
      var last := packages[|packages| - 1];
      KeptOf(packages[..|packages| - 1], reach) + if IsKept(last, reach) then [last] else []
  }

  predicate IsKept(p: Package, reach: set<string>) {
    p.name in reach || exists k :: 0 <= k < |p.standsFor| && p.standsFor[k] in reach
  }

  /** `filterPackageMap`: the packages that production code can reach, in their order. */
  method FilterPackages(root: Package, packages: seq<Package>) returns (kept: seq<Package>, ghost reach: set<string>)
    ensures IsReach(ByName(packages), ReplacedBy(packages), root, reach)
    ensures kept == KeptOf(packages, reach)
    ensures forall p :: p in kept <==> p in packages && LedTo(packages, root, p)
  {
    var names, replacedBy := ByName(packages), ReplacedBy(packages);
    var included := Add(root, names, replacedBy, {}, Universe(names, replacedBy, root));
    reach := included;
    kept := [];
    for i := 0 to |packages|
      invariant kept == KeptOf(packages[..i], reach)
    {
      assert packages[..i + 1][..i] == packages[..i];
      if IsKept(packages[i], included) { kept := kept + [packages[i]]; }
    }
    assert packages[..|packages|] == packages;
    forall p ensures p in kept <==> p in packages && LedTo(packages, root, p) { KeptIffRoute(root, packages, reach, p); }
  }

  // ----- what that set means -------------------------------------------------------------------------------

  /** A chain of requirements from the root to a name. */
  predicate IsChain(names: Names, replacedBy: map<string, string>, root: Package, chain: seq<string>) {
    chain != [] && chain[0] in Targets(replacedBy, root) &&
    forall i :: 0 <= i < |chain| - 1 ==> chain[i] in names && chain[i + 1] in Targets(replacedBy, names[chain[i]])
  }

  ghost predicate Reachable(names: Names, replacedBy: map<string, string>, root: Package, name: string) {
    exists chain :: IsChain(names, replacedBy, root, chain) && chain[|chain| - 1] == name
  }

  lemma {:induction false} ChainsStayInside(names: Names, replacedBy: map<string, string>, root: Package, reach: set<string>, chain: seq<string>, i: nat)
    requires IsChain(names, replacedBy, root, chain) && i < |chain|
    requires Closed(names, replacedBy, reach) && Targets(replacedBy, root) <= reach
    ensures chain[i] in reach
  {
    if i > 0 { ChainsStayInside(names, replacedBy, root, reach, chain, i - 1); }
  }

  lemma ChainGoesOn(names: Names, replacedBy: map<string, string>, root: Package, chain: seq<string>, next: string)
    requires IsChain(names, replacedBy, root, chain) && chain[|chain| - 1] in names
    requires next in Targets(replacedBy, names[chain[|chain| - 1]])
    ensures Reachable(names, replacedBy, root, next)
  {
    var longer := chain + [next];
    forall i | 0 <= i < |longer| - 1 ensures longer[i] in names && longer[i + 1] in Targets(replacedBy, names[longer[i]]) {
      if i < |chain| - 1 { assert longer[i] == chain[i] && longer[i + 1] == chain[i + 1]; }
    }
    assert IsChain(names, replacedBy, root, longer) && longer[|longer| - 1] == next;
  }

  /** A name is in the set exactly when a chain of requirements leads to it. */
  lemma ReachIsReachable(names: Names, replacedBy: map<string, string>, root: Package, reach: set<string>, name: string)
    requires IsReach(names, replacedBy, root, reach)
    ensures name in reach <==> Reachable(names, replacedBy, root, name)
  {
    if Reachable(names, replacedBy, root, name) {
      var chain :| IsChain(names, replacedBy, root, chain) && chain[|chain| - 1] == name;
      ChainsStayInside(names, replacedBy, root, reach, chain, |chain| - 1);
    }
    var found := set n | n in reach && Reachable(names, replacedBy, root, n);
    ReachableIsClosed(names, replacedBy, root, reach, found);
    assert reach <= found;
  }

  lemma ReachableIsClosed(names: Names, replacedBy: map<string, string>, root: Package, reach: set<string>, found: set<string>)
    requires Closed(names, replacedBy, reach) && Targets(replacedBy, root) <= reach
    requires forall n :: n in found <==> n in reach && Reachable(names, replacedBy, root, n)
    ensures Closed(names, replacedBy, found) && Targets(replacedBy, root) <= found
  {
    hide Targets;
    forall n | n in Targets(replacedBy, root) ensures n in found {
      assert IsChain(names, replacedBy, root, [n]) && [n][|[n]| - 1] == n;
    }
    forall n | n in found && n in names ensures Targets(replacedBy, names[n]) <= found {
      var chain :| IsChain(names, replacedBy, root, chain) && chain[|chain| - 1] == n;
      forall next | next in Targets(replacedBy, names[n]) ensures next in found {
        ChainGoesOn(names, replacedBy, root, chain, next);
      }
    }
  }

  /** Requirement cycles do no harm, and development-only packages drop out: a package is kept exactly
      when its name, or a name it replaces, can be reached. */
  lemma {:induction false} KeptIffReachable(root: Package, packages: seq<Package>, reach: set<string>, n: nat, p: Package)
    requires IsReach(ByName(packages), ReplacedBy(packages), root, reach) && n <= |packages|
    ensures p in KeptOf(packages[..n], reach) <==>
            p in packages[..n] &&
            (Reachable(ByName(packages), ReplacedBy(packages), root, p.name) ||
             exists k :: 0 <= k < |p.standsFor| && Reachable(ByName(packages), ReplacedBy(packages), root, p.standsFor[k]))
  {
    if n > 0 {
      assert packages[..n][..n - 1] == packages[..n - 1] && packages[..n] == packages[..n - 1] + [packages[n - 1]];
      KeptIffReachable(root, packages, reach, n - 1, p);
      ReachIsReachable(ByName(packages), ReplacedBy(packages), root, reach, p.name);
      forall k | 0 <= k < |p.standsFor|
        ensures p.standsFor[k] in reach <==> Reachable(ByName(packages), ReplacedBy(packages), root, p.standsFor[k])
      {
        ReachIsReachable(ByName(packages), ReplacedBy(packages), root, reach, p.standsFor[k]);
      }
    }
  }

  // ----- the same over the packages themselves ----------------------------------------------------------------

  /** The last package that stands for a name. */
  predicate LastStands(packages: seq<Package>, i: int, need: string) {
    0 <= i < |packages| && need in packages[i].standsFor && forall j :: i < j < |packages| ==> need !in packages[j].standsFor
  }

  /** What a required name means: the last package that stands for it, if there is one. */
  ghost predicate Means(packages: seq<Package>, need: string, target: string) {
    if exists i :: 0 <= i < |packages| && need in packages[i].standsFor
    then exists i :: LastStands(packages, i, need) && packages[i].name == target
    else target == need
  }

  predicate LastNamed(packages: seq<Package>, i: int, name: string) {
    0 <= i < |packages| && packages[i].name == name && forall j :: i < j < |packages| ==> packages[j].name != name
  }

  /** The last package of a name needs what `target` means. */
  ghost predicate Needs(packages: seq<Package>, name: string, target: string) {
    exists i :: LastNamed(packages, i, name) && NeedsOf(packages, packages[i], target)
  }

  ghost predicate NeedsOf(packages: seq<Package>, p: Package, target: string) {
    exists k :: 0 <= k < |p.needs| && Means(packages, p.needs[k], target)
  }

  /** Requirement by requirement from the root. */
  ghost predicate IsRoute(packages: seq<Package>, root: Package, route: seq<string>) {
    route != [] && NeedsOf(packages, root, route[0]) &&
    forall i :: 0 <= i < |route| - 1 ==> Needs(packages, route[i], route[i + 1])
  }

  lemma {:induction false} ReplacingHas(standsFor: seq<string>, name: string, before: map<string, string>, need: string)
    ensures var after := Replacing(standsFor, name, before);
            if need in standsFor then need in after && after[need] == name
            else (need in after <==> need in before) && (need in after ==> after[need] == before[need])
    decreases |standsFor|
  {
    if standsFor != [] {
      ReplacingHas(standsFor[..|standsFor| - 1], name, before, need);
      assert standsFor == standsFor[..|standsFor| - 1] + [standsFor[|standsFor| - 1]];
    }
  }

  lemma {:induction false} TargetIsMeant(packages: seq<Package>, need: string, target: string)
    ensures Target(ReplacedBy(packages), need) == target <==> Means(packages, need, target)
    decreases |packages|
  {
    if packages != [] {
      var n := |packages| - 1;
      var before := packages[..n];
      TargetIsMeant(before, need, target);
      ReplacingHas(packages[n].standsFor, packages[n].name, ReplacedBy(before), need);
      hide Replacing;
      assert forall i :: 0 <= i < n ==> before[i] == packages[i];
      if need in packages[n].standsFor {
        assert Target(ReplacedBy(packages), need) == packages[n].name;
        MeansLast(packages, need, target);
      } else {
        MeansBefore(packages, need, target);
      }
    }
  }

  lemma MeansLast(packages: seq<Package>, need: string, target: string)
    requires packages != [] && need in packages[|packages| - 1].standsFor
    ensures Means(packages, need, target) <==> target == packages[|packages| - 1].name
  {
    assert LastStands(packages, |packages| - 1, need);
  }

  lemma MeansBefore(packages: seq<Package>, need: string, target: string)
    requires packages != [] && need !in packages[|packages| - 1].standsFor
    ensures Means(packages, need, target) <==> Means(packages[..|packages| - 1], need, target)
  {
    var n := |packages| - 1;
    var before := packages[..n];
    assert packages == before + [packages[n]];
    forall i ensures LastStands(packages, i, need) <==> LastStands(before, i, need) {}
    if i :| 0 <= i < |packages| && need in packages[i].standsFor { assert before[i] == packages[i]; }
    if i :| 0 <= i < |before| && need in before[i].standsFor { assert packages[i] == before[i]; }
  }

  /** The last package of a name. */
  lemma {:induction false} NamedIs(packages: seq<Package>, name: string) returns (i: nat)
    ensures name in ByName(packages) <==> exists j :: 0 <= j < |packages| && packages[j].name == name
    ensures name in ByName(packages) ==> LastNamed(packages, i, name) && ByName(packages)[name] == packages[i]
    decreases |packages|
  {
    i := 0;
    if packages != [] {
      var n := |packages| - 1;
      var before := packages[..n];
      i := NamedIs(before, name);
      assert forall j :: 0 <= j < n ==> before[j] == packages[j];
      if packages[n].name == name {
        i := n;
      } else if j :| 0 <= j < |packages| && packages[j].name == name {
        assert before[j].name == name;
      }
    }
  }

  lemma TargetsAreNeeds(packages: seq<Package>, p: Package, target: string)
    ensures target in Targets(ReplacedBy(packages), p) <==> NeedsOf(packages, p, target)
  {
    var replacedBy := ReplacedBy(packages);
    hide Target, ReplacedBy, Means;
    if target in Targets(replacedBy, p) {
      var need :| need in p.needs && Target(replacedBy, need) == target;
      var k :| 0 <= k < |p.needs| && p.needs[k] == need;
      TargetIsMeant(packages, need, target);
    }
    if k :| 0 <= k < |p.needs| && Means(packages, p.needs[k], target) { TargetIsMeant(packages, p.needs[k], target); }
  }

  lemma StepIsNeed(packages: seq<Package>, name: string, target: string)
    ensures name in ByName(packages) && target in Targets(ReplacedBy(packages), ByName(packages)[name]) <==> Needs(packages, name, target)
  {
    hide ByName, ReplacedBy, Targets, NeedsOf;
    var i := NamedIs(packages, name);
    if name in ByName(packages) { TargetsAreNeeds(packages, packages[i], target); }
    if j :| LastNamed(packages, j, name) && NeedsOf(packages, packages[j], target) { assert j == i; }
  }

  lemma ChainIsRoute(packages: seq<Package>, root: Package, route: seq<string>)
    ensures IsChain(ByName(packages), ReplacedBy(packages), root, route) <==> IsRoute(packages, root, route)
  {
    var names, replacedBy := ByName(packages), ReplacedBy(packages);
    hide ByName, ReplacedBy, Targets, NeedsOf, Needs;
    if route != [] { TargetsAreNeeds(packages, root, route[0]); }
    forall i | 0 <= i < |route| - 1
      ensures (route[i] in names && route[i + 1] in Targets(replacedBy, names[route[i]])) <==> Needs(packages, route[i], route[i + 1])
    {
      StepIsNeed(packages, route[i], route[i + 1]);
    }
    if IsRoute(packages, root, route) {
      forall i | 0 <= i < |route| - 1 ensures route[i] in names && route[i + 1] in Targets(replacedBy, names[route[i]]) {
        assert Needs(packages, route[i], route[i + 1]);
      }
    }
  }

  lemma ReachableByRoute(packages: seq<Package>, root: Package, name: string)
    ensures Reachable(ByName(packages), ReplacedBy(packages), root, name) <==>
            exists route :: IsRoute(packages, root, route) && route[|route| - 1] == name
  {
    hide ByName, ReplacedBy, Targets, NeedsOf, Needs;
    forall route ensures IsChain(ByName(packages), ReplacedBy(packages), root, route) <==> IsRoute(packages, root, route) {
      ChainIsRoute(packages, root, route);
    }
  }

  /** A route leads to the package's name, or to one it stands for. */
  ghost predicate LedTo(packages: seq<Package>, root: Package, p: Package) {
    exists route :: IsRoute(packages, root, route) && (route[|route| - 1] == p.name || route[|route| - 1] in p.standsFor)
  }

  /** A package is kept exactly when requirements lead from the root to its name, or to one it stands
      for, where each name means the last package that stands for it. */
  lemma KeptIffRoute(root: Package, packages: seq<Package>, reach: set<string>, p: Package)
    requires IsReach(ByName(packages), ReplacedBy(packages), root, reach)
    ensures p in KeptOf(packages, reach) <==> p in packages && LedTo(packages, root, p)
  {
    hide IsReach, KeptOf, ByName, ReplacedBy, Reachable, IsRoute;
    assert packages[..|packages|] == packages;
    KeptIffReachable(root, packages, reach, |packages|, p);
    ReachableByRoute(packages, root, p.name);
    forall k | 0 <= k < |p.standsFor| { ReachableByRoute(packages, root, p.standsFor[k]); }
    if route :| IsRoute(packages, root, route) && route != [] && route[|route| - 1] in p.standsFor {
      var k :| 0 <= k < |p.standsFor| && p.standsFor[k] == route[|route| - 1];
    }
  }
}
