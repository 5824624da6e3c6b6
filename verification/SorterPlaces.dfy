/** Where the sorter (sorter.rs) puts a package: what the weights count, and how names break ties. */
module SorterPlaces {
  import opened Common
  import opened PackageSorter
  import NatOrder

  // ----- who uses a package ----------------------------------------------------------------------------------

  function Times(names: seq<Name>, t: Name): nat {
    if names == [] then 0 else (if names[0] == t then 1 else 0) + Times(names[1..], t)
  }

  function Repeated(n: Name, k: nat): seq<Name> { seq(k, i => n) }

  /** The users of a name, in package order, each as often as it requires the name. */
  function Users(packages: seq<Package>, t: Name): seq<Name> {
    if packages == [] then [] else Repeated(packages[0].name, Times(packages[0].needs, t)) + Users(packages[1..], t)
  }

  lemma {:induction false} RequirersBoth(a: seq<Need>, b: seq<Need>, t: Name)
    ensures Requirers(a + b, t) == Requirers(a, t) + Requirers(b, t)
  {
    if b == [] {
      assert a + b == a;
    } else {
      var n := |b| - 1;
      assert (a + b)[..|a + b| - 1] == a + b[..n];
      RequirersBoth(a, b[..n], t);
    }
  }

  lemma {:induction false} TimesEnd(names: seq<Name>, n: Name, t: Name)
    ensures Times(names + [n], t) == Times(names, t) + if n == t then 1 else 0
  {
    if names != [] {
      assert (names + [n])[1..] == names[1..] + [n];
      TimesEnd(names[1..], n, t);
    }
  }

  lemma {:induction false} OwnNeeds(user: Name, needs: seq<Name>, list: seq<Need>, t: Name)
    requires |list| == |needs| && forall j :: 0 <= j < |list| ==> list[j] == Need(user, needs[j])
    ensures Requirers(list, t) == Repeated(user, Times(needs, t))
    decreases |needs|
  {
    if needs != [] {
      var n := |needs| - 1;
      OwnNeeds(user, needs[..n], list[..n], t);
      TimesEnd(needs[..n], needs[n], t);
      assert needs == needs[..n] + [needs[n]];
    }
  }

  lemma {:induction false} UsersEnd(packages: seq<Package>, p: Package, t: Name)
    ensures Users(packages + [p], t) == Users(packages, t) + Repeated(p.name, Times(p.needs, t))
  {
    if packages == [] {
      assert (packages + [p])[1..] == [];
    } else {
      assert (packages + [p])[1..] == packages[1..] + [p];
      UsersEnd(packages[1..], p, t);
    }
  }

  lemma {:induction false} UsersAre(packages: seq<Package>, t: Name)
    ensures Requirers(AllNeeds(packages), t) == Users(packages, t)
    decreases |packages|
  {
    if packages != [] {
      var n := |packages| - 1;
      assert packages == packages[..n] + [packages[n]];
      UsersAre(packages[..n], t);
      RequirersBoth(AllNeeds(packages[..n]), NeedsOf(packages[n]), t);
      OwnNeeds(packages[n].name, packages[n].needs, NeedsOf(packages[n]), t);
      UsersEnd(packages[..n], packages[n], t);
    }
  }

  lemma UsageIs(usage: Usage, packages: seq<Package>, t: Name)
    requires IsUsage(usage, packages)
    ensures UsersOf(usage, t) == Users(packages, t)
  {
    UsersAre(packages, t);
  }

  // ----- what a weight counts -----------------------------------------------------------------------------------

  /** How many chains of `k` requirements end at one of these names. */
  function ChainsTo(packages: seq<Package>, names: seq<Name>, k: nat): nat
    decreases k, |names|
  {
    if names == [] then 0
    else ChainsTo(packages, names[..|names| - 1], k) + Chains(packages, names[|names| - 1], k)
  }

  /** How many chains of `k` requirements end at a name. */
  function Chains(packages: seq<Package>, n: Name, k: nat): nat
    decreases k, 0
  {
    if k == 0 then 1 else ChainsTo(packages, Users(packages, n), k - 1)
  }

  /** Those of at most `k`, and at least one. */
  function AllChains(packages: seq<Package>, n: Name, k: nat): nat {
    if k == 0 then 0 else AllChains(packages, n, k - 1) + Chains(packages, n, k)
  }

  lemma {:induction false} SumCounts(packages: seq<Package>, users: seq<Name>, w: map<Name, int>, k: nat)
    requires forall u :: u in users ==> u in w && w[u] + AllChains(packages, u, k) == 0
    ensures Sum(users, w, {}) + AllTo(packages, users, k) == 0
  {
    if users != [] { SumCounts(packages, users[..|users| - 1], w, k); }
  }

  /** One for every name, and the chains that end at it. */
  function AllTo(packages: seq<Package>, names: seq<Name>, k: nat): nat {
    if names == [] then 0
    else AllTo(packages, names[..|names| - 1], k) + 1 + AllChains(packages, names[|names| - 1], k)
  }

  lemma {:induction false} AllToIs(packages: seq<Package>, names: seq<Name>, k: nat)
    ensures AllTo(packages, names, k) == if k == 0 then ChainsTo(packages, names, 0) else AllTo(packages, names, k - 1) + ChainsTo(packages, names, k)
  {
    if names != [] { AllToIs(packages, names[..|names| - 1], k); }
  }

  lemma {:induction false} ChainsAreLonger(packages: seq<Package>, n: Name, k: nat)
    ensures AllChains(packages, n, k + 1) == AllTo(packages, Users(packages, n), k)
  {
    AllToIs(packages, Users(packages, n), k);
    if k == 0 {
      assert AllChains(packages, n, 1) == AllChains(packages, n, 0) + Chains(packages, n, 1);
    } else {
      ChainsAreLonger(packages, n, k - 1);
    }
  }

  lemma {:induction false} NoChainsTo(packages: seq<Package>, names: seq<Name>, k: nat, n: Name)
    requires ChainsTo(packages, names, k) == 0 && n in names
    ensures Chains(packages, n, k) == 0
  {
    if n != names[|names| - 1] { NoChainsTo(packages, names[..|names| - 1], k, n); }
  }

  /** Without cycles a package weighs as much, below zero, as there are chains of requirements that end at it. */
  lemma {:induction false} WeightCountsChains(packages: seq<Package>, usage: Usage, w: map<Name, int>, cuts: map<Name, set<Name>>, n: Name, k: nat)
    requires IsUsage(usage, packages) && IsWeighting(usage, w, cuts) && Acyclic(usage) && n in w
    requires Chains(packages, n, k + 1) == 0
    ensures w[n] + AllChains(packages, n, k) == 0
    decreases k
  {
    hide *;
    WeightIsSum(packages, usage, w, cuts, n);
    var users := Users(packages, n);
    NoneLonger(packages, n, k);
    if k == 0 {
      NoUsers(packages, users, w, n);
    } else {
      forall u | u in users ensures u in w && w[u] + AllChains(packages, u, k - 1) == 0 {
        UserIsWeighed(usage, w, cuts, n, u);
        NoChainsTo(packages, users, k, u);
        WeightCountsChains(packages, usage, w, cuts, u, k - 1);
      }
      SumCounts(packages, users, w, k - 1);
      ChainsAreLonger(packages, n, k - 1);
    }
  }

  lemma WeightIsSum(packages: seq<Package>, usage: Usage, w: map<Name, int>, cuts: map<Name, set<Name>>, n: Name)
    requires IsUsage(usage, packages) && IsWeighting(usage, w, cuts) && Acyclic(usage) && n in w
    ensures w[n] == Sum(Users(packages, n), w, {}) && UsersOf(usage, n) == Users(packages, n)
  {
    PlainSums(usage, w, cuts);
    UsageIs(usage, packages, n);
  }

  lemma NoneLonger(packages: seq<Package>, n: Name, k: nat)
    requires Chains(packages, n, k + 1) == 0
    ensures ChainsTo(packages, Users(packages, n), k) == 0
  {
  }

  lemma NoUsers(packages: seq<Package>, users: seq<Name>, w: map<Name, int>, n: Name)
    requires ChainsTo(packages, users, 0) == 0
    ensures Sum(users, w, {}) == 0 && AllChains(packages, n, 0) == 0
  {
    assert users == [];
  }

  lemma UserIsWeighed(usage: Usage, w: map<Name, int>, cuts: map<Name, set<Name>>, n: Name, u: Name)
    requires IsWeighting(usage, w, cuts) && Acyclic(usage) && n in w && u in UsersOf(usage, n)
    ensures u in w
  {
    LighterThanItsUsers(usage, w, cuts, n, u);
    if Needs(usage, n, u) { NeedsTransitive(usage, u, n, u); }
  }

  // ----- no chain is longer than the list of packages ----------------------------------------------------------

  lemma {:induction false} SomeChainTo(packages: seq<Package>, names: seq<Name>, k: nat) returns (u: Name)
    requires ChainsTo(packages, names, k) > 0
    ensures u in names && Chains(packages, u, k) > 0
  {
    u := names[|names| - 1];
    if Chains(packages, u, k) == 0 { u := SomeChainTo(packages, names[..|names| - 1], k); }
  }

  lemma {:induction false} ChainExists(packages: seq<Package>, usage: Usage, n: Name, k: nat) returns (p: seq<Name>)
    requires IsUsage(usage, packages) && Chains(packages, n, k) > 0
    ensures |p| == k + 1 && p[0] == n && Climb(usage, p)
    decreases k
  {
    if k == 0 {
      p := [n];
    } else {
      var u := SomeChainTo(packages, Users(packages, n), k - 1);
      var rest := ChainExists(packages, usage, u, k - 1);
      UsageIs(usage, packages, n);
      p := [n] + rest;
      hide IsUsage, UsersOf;
      forall i | 0 <= i < |p| - 1 ensures p[i + 1] in UsersOf(usage, p[i]) {
        if i > 0 { assert p[i] == rest[i - 1] && p[i + 1] == rest[i]; }
      }
    }
  }

  lemma {:induction false} Repeats(s: seq<Name>, names: set<Name>)
    requires (forall i :: 0 <= i < |s| ==> s[i] in names) && |s| > |names|
    ensures exists i, j :: 0 <= i < j < |s| && s[i] == s[j]
  {
    var n := |s| - 1;
    if i :| 0 <= i < n && s[i] == s[n] {
    } else {
      Repeats(s[..n], names - {s[n]});
      var i, j :| 0 <= i < j < n && s[..n][i] == s[..n][j];
      assert s[i] == s[j];
    }
  }

  lemma {:induction false} FewNames(packages: seq<Package>)
    ensures |Names(packages)| <= |packages|
  {
    if packages == [] {
      assert Names(packages) == {};
    } else {
      var n := |packages| - 1;
      FewNames(packages[..n]);
      assert packages == packages[..n] + [packages[n]];
      assert Names(packages) == Names(packages[..n]) + {packages[n].name};
    }
  }

  lemma PartOfClimb(usage: Usage, p: seq<Name>, i: nat, j: nat)
    requires Climb(usage, p) && i < j < |p|
    ensures Needs(usage, p[j], p[i])
  {
    var q := p[i..j + 1];
    forall k | 0 <= k < |q| - 1 ensures q[k + 1] in UsersOf(usage, q[k]) {
      assert q[k] == p[i + k] && q[k + 1] == p[i + k + 1];
    }
    assert |q| >= 2 && q[0] == p[i] && q[|q| - 1] == p[j] && Climb(usage, q);
  }

  /** Without cycles, no chain has more requirements than there are packages. */
  lemma NoLongChains(packages: seq<Package>, usage: Usage, n: Name)
    requires IsUsage(usage, packages) && Acyclic(usage)
    ensures Chains(packages, n, |packages| + 1) == 0
  {
    hide *;
    if Chains(packages, n, |packages| + 1) > 0 {
      var p := ChainExists(packages, usage, n, |packages| + 1);
      ClimbIsListed(packages, usage, p);
      FewNames(packages);
      Repeats(p[1..], Names(packages));
      var tail := p[1..];
      var i: nat, j: nat :| i < j < |tail| && tail[i] == tail[j];
      PartOfClimb(usage, p, i + 1, j + 1);
      NotItself(usage, p[j + 1]);
    }
  }

  lemma NotItself(usage: Usage, n: Name)
    requires Acyclic(usage)
    ensures !Needs(usage, n, n)
  {
  }

  lemma ClimbIsListed(packages: seq<Package>, usage: Usage, p: seq<Name>)
    requires IsUsage(usage, packages) && Climb(usage, p) && p != []
    ensures forall i :: 0 <= i < |p[1..]| ==> p[1..][i] in Names(packages)
  {
    forall i | 0 <= i < |p[1..]| ensures p[1..][i] in Names(packages) {
      assert p[i + 1] in UsersOf(usage, p[i]);
      RequirersAre(AllNeeds(packages), p[i + 1], p[i]);
      ListedNeed(packages, Need(p[i + 1], p[i]));
    }
  }

  /** So the weights of packages without cycles count the chains that end at them, however long. */
  lemma WeightsAre(packages: seq<Package>, usage: Usage, w: map<Name, int>, cuts: map<Name, set<Name>>, n: Name)
    requires IsUsage(usage, packages) && IsWeighting(usage, w, cuts) && Acyclic(usage) && n in w
    ensures w[n] + AllChains(packages, n, |packages|) == 0 && Chains(packages, n, |packages| + 1) == 0
  {
    hide *;
    NoLongChains(packages, usage, n);
    WeightCountsChains(packages, usage, w, cuts, n, |packages|);
  }

  /** Requirements are without cycles when the names can be ranked so that users always rank higher. */
  lemma RankedIsAcyclic(usage: Usage, rank: Name -> int)
    requires forall n, u :: u in UsersOf(usage, n) ==> rank(u) > rank(n)
    ensures Acyclic(usage)
  {
    forall n ensures !Needs(usage, n, n) {
      if Needs(usage, n, n) {
        var p: seq<Name> :| |p| >= 2 && p[0] == n && p[|p| - 1] == n && Climb(usage, p);
        RankClimbs(usage, rank, p);
      }
    }
  }

  lemma {:induction false} RankClimbs(usage: Usage, rank: Name -> int, p: seq<Name>)
    requires (forall n, u :: u in UsersOf(usage, n) ==> rank(u) > rank(n)) && |p| >= 2 && Climb(usage, p)
    ensures rank(p[|p| - 1]) > rank(p[0])
  {
    hide UsersOf;
    var m := |p| - 1;
    assert p[m] in UsersOf(usage, p[m - 1]);
    if m > 1 {
      assert Climb(usage, p[..m]) by {
        forall i | 0 <= i < m - 1 ensures p[..m][i + 1] in UsersOf(usage, p[..m][i]) { assert p[i + 1] in UsersOf(usage, p[i]); }
      }
      RankClimbs(usage, rank, p[..m]);
    }
  }

  // ----- a cycle --------------------------------------------------------------------------------------------------

  /** Of two packages that require each other, the one weighed second has the first one's weight counted
      as nothing, and the first one that of the second. */
  lemma TwoThatNeedEachOther(a: Name, b: Name, usage: Usage)
    requires a != b && usage == map[a := [b], b := [a]]
    ensures IsUsage(usage, [Package(a, [b]), Package(b, [a])])
    ensures Closed(usage, {a, b}) && WeightsOf(usage, {a, b}, [a, b]) == map[a := -2, b := -1]
  {
    forall t ensures UsersOf(usage, t) == Requirers(AllNeeds([Package(a, [b]), Package(b, [a])]), t) {
      TwoUsers(a, b, t);
    }
    Inner(a, b, usage);
    Middle(a, b, usage);
    Outer(a, b, usage);
  }

  lemma TwoUsers(a: Name, b: Name, t: Name)
    requires a != b
    ensures Requirers(AllNeeds([Package(a, [b]), Package(b, [a])]), t) == if t == b then [a] else if t == a then [b] else []
  {
    var p, q := Package(a, [b]), Package(b, [a]);
    UsersAre([p, q], t);
    assert [p, q][1..] == [q] && [q][1..] == [];
    assert [b][1..] == [] && [a][1..] == [];
    assert Times([b], t) == (if b == t then 1 else 0) + Times([], t) && Times([a], t) == (if a == t then 1 else 0) + Times([], t);
    assert Users([q], t) == Repeated(b, Times([a], t)) + [];
    assert Users([p, q], t) == Repeated(a, Times([b], t)) + Users([q], t);
  }

  lemma Inner(a: Name, b: Name, usage: Usage)
    requires a != b && usage == map[a := [b], b := [a]]
    ensures Closed(usage, {a, b}) && WeighList(usage, {a, b}, {a, b}, map[], [a]) == (-1, map[])
  {
    assert [a][..0] == [];
    assert WeighList(usage, {a, b}, {a, b}, map[], []) == (0, map[]);
    assert Weigh(usage, {a, b}, {a, b}, map[], a) == (0, map[]);
  }

  lemma Middle(a: Name, b: Name, usage: Usage)
    requires a != b && usage == map[a := [b], b := [a]]
    requires Closed(usage, {a, b}) && WeighList(usage, {a, b}, {a, b}, map[], [a]) == (-1, map[])
    ensures WeighList(usage, {a, b}, {a}, map[], [b]) == (-2, map[b := -1])
  {
    assert [b][..0] == [] && {a} + {b} == {a, b};
    assert WeighList(usage, {a, b}, {a}, map[], []) == (0, map[]);
    assert Weigh(usage, {a, b}, {a}, map[], b) == (-1, map[b := -1]);
  }

  lemma Outer(a: Name, b: Name, usage: Usage)
    requires a != b && usage == map[a := [b], b := [a]] && Closed(usage, {a, b})
    requires WeighList(usage, {a, b}, {a}, map[], [b]) == (-2, map[b := -1])
    ensures WeightsOf(usage, {a, b}, [a, b]) == map[a := -2, b := -1]
  {
    assert [a, b][..1] == [a] && [a][..0] == [] && {} + {a} == {a};
    assert WeightsOf(usage, {a, b}, []) == map[];
    assert Weigh(usage, {a, b}, {}, map[], a) == (-2, map[b := -1][a := -2]);
    assert WeightsOf(usage, {a, b}, [a]) == map[a := -2, b := -1];
  }

  // ----- the places ---------------------------------------------------------------------------------------------

  /** `x` is listed before `y`. */
  ghost predicate Listed(order: seq<nat>, x: nat, y: nat) {
    exists i, j :: 0 <= i < j < |order| && order[i] == x && order[j] == y
  }

  lemma OneOrTheOther(packages: seq<Package>, order: seq<nat>, w: map<Name, int>, x: nat, y: nat)
    requires IsOrder(packages, order, w) && x < |packages| && y < |packages| && x != y
    requires packages[x].name in w && packages[y].name in w
    requires !Before(packages, Weighted(w[packages[y].name], y), Weighted(w[packages[x].name], x))
    ensures Listed(order, x, y)
  {
    assert x in order && y in order;
    var i :| 0 <= i < |order| && order[i] == x;
    var j :| 0 <= j < |order| && order[j] == y;
    hide Before;
  }

  /** Lighter packages come first. */
  lemma LighterFirst(packages: seq<Package>, order: seq<nat>, w: map<Name, int>, x: nat, y: nat)
    requires IsOrder(packages, order, w) && x < |packages| && y < |packages|
    requires packages[x].name in w && packages[y].name in w && w[packages[x].name] < w[packages[y].name]
    ensures Listed(order, x, y)
  {
    OneOrTheOther(packages, order, w, x, y);
  }

  /** Of two of one weight, the one whose name has the smaller capital letter, or other byte, where the
      names differ first. */
  lemma SmallerLetterFirst(packages: seq<Package>, order: seq<nat>, w: map<Name, int>, x: nat, y: nat,
                           p: Name, b: Byte, u: Name, c: Byte, v: Name, cb: Byte, cc: Byte)
    requires IsOrder(packages, order, w) && x < |packages| && y < |packages|
    requires packages[x].name in w && packages[y].name in w && w[packages[x].name] == w[packages[y].name]
    requires packages[x].name == p + ([b] + u) && packages[y].name == p + ([c] + v)
    requires p != [] && !NatOrder.Digit(p[|p| - 1]) && !NatOrder.Blank(b) && !NatOrder.Blank(c)
    requires !(NatOrder.Digit(b) && NatOrder.Digit(c))
    requires NatOrder.CountsAs(b, cb) && NatOrder.CountsAs(c, cc) && cb < cc
    ensures Listed(order, x, y)
  {
    NatOrder.BytesDecide(p, b, u, c, v, cb, cc);
    NatOrder.BytesDecide(p, c, v, b, u, cc, cb);
    OneOrTheOther(packages, order, w, x, y);
  }

  /** Of two of one weight whose names differ in case at most, the one given first. */
  lemma GivenFirst(packages: seq<Package>, order: seq<nat>, w: map<Name, int>, x: nat, y: nat)
    requires IsOrder(packages, order, w) && x < y < |packages|
    requires packages[x].name in w && packages[y].name in w && w[packages[x].name] == w[packages[y].name]
    requires NatOrder.SameLetters(packages[y].name, packages[x].name)
    ensures Listed(order, x, y)
  {
    NatOrder.CaseDoesNotMatter(packages[y].name, packages[x].name, []);
    OneOrTheOther(packages, order, w, x, y);
  }
}
