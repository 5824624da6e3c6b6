/** Order in which the autoload rules of the packages are merged (sorter.rs): the most
    required packages first, ties by natural name. */
module PackageSorter {
  import opened Common
  import NatSort

  type Name = seq<Byte>

  datatype Package = Package(name: Name, needs: seq<Name>)

  // ----- who requires whom ----------------------------------------------------------------

  /** For each required name, the packages that require it, once per requirement. */
  type Usage = map<Name, seq<Name>>

  function UsersOf(usage: Usage, n: Name): seq<Name> {
    if n in usage then usage[n] else []
  }

  /** A walk from a name to one of its users, to one of that one's users, and so on. */
  ghost predicate Climb(usage: Usage, p: seq<Name>) {
    forall i :: 0 <= i < |p| - 1 ==> p[i + 1] in UsersOf(usage, p[i])
  }

  /** `b` requires `a`, directly or through other packages. */
  ghost predicate Needs(usage: Usage, b: Name, a: Name) {
    exists p: seq<Name> :: |p| >= 2 && p[0] == a && p[|p| - 1] == b && Climb(usage, p)
  }

  lemma DirectNeed(usage: Usage, b: Name, a: Name)
    requires b in UsersOf(usage, a)
    ensures Needs(usage, b, a)
  {
    var p := [a, b];
    assert |p| >= 2 && p[0] == a && p[|p| - 1] == b && Climb(usage, p);
  }

  lemma NeedsTransitive(usage: Usage, c: Name, b: Name, a: Name)
    requires Needs(usage, b, a) && c in UsersOf(usage, b)
    ensures Needs(usage, c, a)
  {
    var p :| |p| >= 2 && p[0] == a && p[|p| - 1] == b && Climb(usage, p);
    var q := p + [c];
    forall i | 0 <= i < |q| - 1
      ensures q[i + 1] in UsersOf(usage, q[i])
    {
      if i < |p| - 1 { assert q[i + 1] == p[i + 1]; }
    }
    assert |q| >= 2 && q[0] == a && q[|q| - 1] == c && Climb(usage, q);
  }

  ghost predicate Acyclic(usage: Usage) {
    forall n :: !Needs(usage, n, n)
  }

  // ----- weights --------------------------------------------------------------------------

  /** The weight `users` give: each one's own weight, minus one; nothing of its own for a user
      in `cut`, whose weight was still being computed. */
  function Sum(users: seq<Name>, computed: map<Name, int>, cut: set<Name>): int {
    if users == [] then 0
    else
      var u := users[|users| - 1];
      Sum(users[..|users| - 1], computed, cut)
        + (if u in cut || u !in computed then 0 else computed[u]) - 1
  }

  lemma {:induction false} SumFrame(users: seq<Name>, m: map<Name, int>, m': map<Name, int>, cut: set<Name>)
    requires forall u :: u in users && u !in cut ==> u in m && u in m' && m[u] == m'[u]
    ensures Sum(users, m, cut) == Sum(users, m', cut)
  {
    if users != [] { SumFrame(users[..|users| - 1], m, m', cut); }
  }

  lemma {:induction false} SumBound(users: seq<Name>, m: map<Name, int>, cut: set<Name>, u: Name)
    requires forall n :: n in m ==> m[n] <= 0
    ensures Sum(users, m, cut) <= -|users|
    ensures u in users && u !in cut && u in m ==> Sum(users, m, cut) < m[u]
  {
    if users != [] { SumBound(users[..|users| - 1], m, cut, u); }
  }

  lemma SumNext(users: seq<Name>, k: nat, m: map<Name, int>, m': map<Name, int>, cut: set<Name>, own: int)
    requires k < |users| && Settled(m, m')
    requires forall u :: u in users[..k] && u !in cut ==> u in m
    requires if users[k] in cut then own == 0 else users[k] in m' && own == m'[users[k]]
    ensures Sum(users[..k + 1], m', cut) == Sum(users[..k], m, cut) - (1 - own)
    ensures forall u :: u in users[..k + 1] && u !in cut ==> u in m'
  {
    SumFrame(users[..k], m, m', cut);
    assert users[..k + 1][..k] == users[..k];
    assert users[..k + 1] == users[..k] + [users[k]];
  }

  /** Results already in the memo never change. */
  ghost predicate Settled(m: map<Name, int>, m': map<Name, int>) {
    forall n :: n in m ==> n in m' && m'[n] == m[n]
  }

  /** `w[n]` is the sum over the users of `n`, and only users that `n` itself needs (a cycle)
      were left out of it. */
  ghost predicate Explained(usage: Usage, w: map<Name, int>, cuts: map<Name, set<Name>>, n: Name)
    requires n in w
  {
    && n in cuts
    && w[n] == Sum(UsersOf(usage, n), w, cuts[n])
    && forall u :: u in UsersOf(usage, n) ==> if u in cuts[n] then Needs(usage, n, u) else u in w
  }

  ghost predicate IsWeighting(usage: Usage, w: map<Name, int>, cuts: map<Name, set<Name>>) {
    && (forall n :: n in w ==> w[n] <= 0)
    && (forall n :: n in w ==> Explained(usage, w, cuts, n))
  }

  /** A package weighs less than anything that requires it, unless the two require each other. */
  lemma LighterThanItsUsers(usage: Usage, w: map<Name, int>, cuts: map<Name, set<Name>>, n: Name, u: Name)
    requires IsWeighting(usage, w, cuts) && n in w && u in UsersOf(usage, n)
    ensures Needs(usage, n, u) || (u in w && w[n] < w[u])
  {
    assert Explained(usage, w, cuts, n);
    SumBound(UsersOf(usage, n), w, cuts[n], u);
  }

  lemma KeepsWeighting(usage: Usage, w: map<Name, int>, cuts: map<Name, set<Name>>,
                       name: Name, cut: set<Name>, weight: int)
    requires IsWeighting(usage, w, cuts) && name !in w
    requires weight == Sum(UsersOf(usage, name), w, cut) && name in cut
    requires forall u :: u in UsersOf(usage, name) ==> if u in cut then Needs(usage, name, u) else u in w
    ensures IsWeighting(usage, w[name := weight], cuts[name := cut])
  {
    var w', cuts' := w[name := weight], cuts[name := cut];
    SumBound(UsersOf(usage, name), w, cut, name);
    SumFrame(UsersOf(usage, name), w, w', cut);
    forall n | n in w'
      ensures Explained(usage, w', cuts', n)
    {
      if n != name {
        assert Explained(usage, w, cuts, n);
        SumFrame(UsersOf(usage, n), w, w', cuts[n]);
      }
    }
  }

  ghost predicate Closed(usage: Usage, universe: set<Name>) {
    forall n, u :: n in universe && u in UsersOf(usage, n) ==> u in universe
  }

  /** The recursion as a function from memo to memo: what is known stands, a name on the stack
      weighs 0, and anything else is weighed by its users, one after the other. */
  ghost function Weigh(usage: Usage, universe: set<Name>, stack: set<Name>, memo: map<Name, int>, name: Name): (int, map<Name, int>)
    requires Closed(usage, universe) && name in universe
    decreases universe - stack, 0
  {
    if name in memo then (memo[name], memo)
    else if name in stack then (0, memo)
    else
      var (weight, after) := WeighList(usage, universe, stack + {name}, memo, UsersOf(usage, name));
      (weight, after[name := weight])
  }

  ghost function WeighList(usage: Usage, universe: set<Name>, stack: set<Name>, memo: map<Name, int>, users: seq<Name>): (int, map<Name, int>)
    requires Closed(usage, universe) && forall u :: u in users ==> u in universe
    decreases universe - stack, |users| + 1
  {
    if users == [] then (0, memo)
    else
      var n := |users| - 1;
      var (weight, before) := WeighList(usage, universe, stack, memo, users[..n]);
      var (own, after) := Weigh(usage, universe, stack, before, users[n]);
      (weight - (1 - own), after)
  }

  /** The first `k` users are weighed. */
  ghost predicate Weighed(usage: Usage, universe: set<Name>, stack: set<Name>, memo: map<Name, int>, users: seq<Name>, k: nat,
                          weight: int, computed: map<Name, int>)
    requires Closed(usage, universe) && (forall u :: u in users ==> u in universe)
  {
    && k <= |users| && Settled(memo, computed)
    && weight == Sum(users[..k], computed, stack)
    && (weight, computed) == WeighList(usage, universe, stack, memo, users[..k])
    && forall u :: u in users[..k] && u !in stack ==> u in computed
  }

  lemma NoneWeighed(usage: Usage, universe: set<Name>, stack: set<Name>, memo: map<Name, int>, users: seq<Name>)
    requires Closed(usage, universe) && (forall u :: u in users ==> u in universe)
    ensures Weighed(usage, universe, stack, memo, users, 0, 0, memo)
  {
    assert users[..0] == [];
  }

  lemma OneMoreWeighed(usage: Usage, universe: set<Name>, stack: set<Name>, memo: map<Name, int>, users: seq<Name>, k: nat,
                       weight: int, computed: map<Name, int>, own: int, computed': map<Name, int>)
    requires Closed(usage, universe) && (forall u :: u in users ==> u in universe) && k < |users|
    requires Weighed(usage, universe, stack, memo, users, k, weight, computed) && Settled(computed, computed')
    requires if users[k] in stack then own == 0 else users[k] in computed' && own == computed'[users[k]]
    requires (own, computed') == Weigh(usage, universe, stack, computed, users[k])
    ensures Weighed(usage, universe, stack, memo, users, k + 1, weight - (1 - own), computed')
  {
    assert users[..k + 1][..k] == users[..k];
    assert WeighList(usage, universe, stack, memo, users[..k + 1]) == (weight - (1 - own), computed');
    hide WeighList, Weigh, Sum;
    SumNext(users, k, computed, computed', stack, own);
  }

  lemma AllUsersWeighed(usage: Usage, universe: set<Name>, stack: set<Name>, memo: map<Name, int>, users: seq<Name>,
                        weight: int, computed: map<Name, int>)
    requires Closed(usage, universe) && (forall u :: u in users ==> u in universe)
    requires Weighed(usage, universe, stack, memo, users, |users|, weight, computed)
    ensures Settled(memo, computed) && weight == Sum(users, computed, stack)
    ensures (weight, computed) == WeighList(usage, universe, stack, memo, users)
    ensures forall u :: u in users && u !in stack ==> u in computed
  {
    assert users[..|users|] == users;
  }

  /** The memo when the names were weighed in this order. */
  ghost function WeightsOf(usage: Usage, universe: set<Name>, names: seq<Name>): map<Name, int>
    requires Closed(usage, universe) && forall n :: n in names ==> n in universe
    decreases |names|
  {
    if names == [] then map[]
    else
      var n := |names| - 1;
      Weigh(usage, universe, {}, WeightsOf(usage, universe, names[..n]), names[n]).1
  }

  /** `name` needs everything on the stack. */
  ghost predicate AllNeeded(usage: Usage, stack: set<Name>, name: Name) {
    forall c :: c in stack ==> Needs(usage, name, c)
  }

  lemma StackNeeded(usage: Usage, stack: set<Name>, name: Name)
    requires AllNeeded(usage, stack, name)
    ensures forall user :: user in UsersOf(usage, name) ==> AllNeeded(usage, stack + {name}, user)
  {
    forall user, c | user in UsersOf(usage, name) && c in stack + {name}
      ensures Needs(usage, user, c)
    {
      if c == name { DirectNeed(usage, user, name); } else { NeedsTransitive(usage, user, name, c); }
    }
  }

  /** The memo of the recursion: `computing` is its stack, `computed` its results. */
  class Ctx {
    const usage: Usage
    var computing: set<Name>
    var computed: map<Name, int>
    ghost var cuts: map<Name, set<Name>> // the stack each result was computed under

    constructor (usage: Usage)
      ensures this.usage == usage && computing == {} && computed == map[] && Valid()
    {
      this.usage := usage;
      computing, computed, cuts := {}, map[], map[];
    }

    ghost predicate Valid()
      reads this
    {
      computing !! computed.Keys && IsWeighting(usage, computed, cuts)
    }

    /** Memoised and cycle-cut: a name on the stack weighs 0, everything else is computed once
        and for all. `universe` only bounds the recursion. */
    method Importance(name: Name, ghost universe: set<Name>) returns (weight: int)
      requires Valid()
      requires name in universe && Closed(usage, universe) && AllNeeded(usage, computing, name)
      modifies this`computing, this`computed, this`cuts
      ensures Valid() && computing == old(computing) && Settled(old(computed), computed)
      ensures if name in old(computing) then weight == 0 else name in computed && weight == computed[name]
      ensures (weight, computed) == Weigh(usage, universe, old(computing), old(computed), name)
      decreases universe - computing, 0
    {
      if name in computed { return computed[name]; }
      if name in computing { return 0; }
      ghost var stack := computing + {name};
      StackNeeded(usage, computing, name);
      computing := computing + {name};
      weight := WeighUsers(name, universe);
      if name in UsersOf(usage, name) { DirectNeed(usage, name, name); }
      KeepsWeighting(usage, computed, cuts, name, stack, weight);
      computing := computing - {name};
      computed := computed[name := weight];
      cuts := cuts[name := stack];
    }

    /** The loop of `Importance` over the users of the name just pushed. */
    method WeighUsers(name: Name, ghost universe: set<Name>) returns (weight: int)
      requires Valid() && name in computing
      requires name in universe && Closed(usage, universe)
      requires forall user :: user in UsersOf(usage, name) ==> AllNeeded(usage, computing, user)
      modifies this`computing, this`computed, this`cuts
      ensures Valid() && computing == old(computing) && Settled(old(computed), computed)
      ensures weight == Sum(UsersOf(usage, name), computed, computing)
      ensures (weight, computed) == WeighList(usage, universe, computing, old(computed), UsersOf(usage, name))
      ensures forall u :: u in UsersOf(usage, name) && u !in computing ==> u in computed
      decreases universe - computing, 1
    {
      weight := 0;
      var users := UsersOf(usage, name);
      ghost var memo := computed;
      NoneWeighed(usage, universe, computing, memo, users);
      hide Sum, IsWeighting, Closed, AllNeeded, Weigh, WeighList, Needs, Settled, Weighed, UsersOf;
      for k := 0 to |users|
        invariant Valid() && computing == old(computing)
        invariant Weighed(usage, universe, computing, memo, users, k, weight, computed)
      {
        ghost var before := computed;
        var own := Importance(users[k], universe);
        OneMoreWeighed(usage, universe, computing, memo, users, k, weight, before, own, computed);
        weight := weight - (1 - own);
      }
      AllUsersWeighed(usage, universe, computing, memo, users, weight, computed);
    }
  }

  // ----- the sort -------------------------------------------------------------------------

  datatype Weighted = Weighted(weight: int, index: nat)

  /** `sort_by` is stable, so packages of equal weight and name keep their given order. */
  ghost predicate Before(packages: seq<Package>, x: Weighted, y: Weighted)
    requires x.index < |packages| && y.index < |packages|
  {
    || x.weight < y.weight
    || (x.weight == y.weight &&
        match NatSort.Compare(packages[x.index].name, packages[y.index].name)
        case Less => true
        case Equal => x.index < y.index
        case Greater => false)
  }

  lemma BeforeTransitive(packages: seq<Package>, x: Weighted, y: Weighted, z: Weighted)
    requires x.index < |packages| && y.index < |packages| && z.index < |packages|
    requires Before(packages, x, y) && Before(packages, y, z)
    ensures Before(packages, x, z)
  {
    NatSort.TotalPreorder(packages[x.index].name, packages[y.index].name, packages[z.index].name);
  }

  ghost predicate InRange(packages: seq<Package>, s: seq<Weighted>) {
    forall x :: x in s ==> x.index < |packages|
  }

  ghost predicate Sorted(packages: seq<Package>, s: seq<Weighted>)
    requires InRange(packages, s)
  {
    forall i, j :: 0 <= i < j < |s| ==> Before(packages, s[i], s[j])
  }

  /** Stable insertion of `x`, which stood behind everything in `s`. */
  method Insert(packages: seq<Package>, s: seq<Weighted>, x: Weighted) returns (r: seq<Weighted>)
    requires x.index < |packages| && InRange(packages, s) && Sorted(packages, s)
    requires forall y :: y in s ==> y.index < x.index
    ensures InRange(packages, r) && Sorted(packages, r)
    ensures multiset(r) == multiset(s) + multiset{x}
  {
    var k := |s|;
    while k > 0
      invariant 0 <= k <= |s|
      invariant forall j :: k <= j < |s| ==> Before(packages, x, s[j])
    {
      var cmp := CompareInt(s[k - 1].weight, x.weight);
      if cmp == Equal {
        cmp := NatSort.StrNatCaseCmp(packages[s[k - 1].index].name, packages[x.index].name);
      }
      if cmp != Greater { break; }
      NatSort.TotalPreorder(packages[x.index].name, packages[s[k - 1].index].name, []);
      k := k - 1;
    }
    if k > 0 { EverythingBefore(packages, s, k, x); }
    r := s[..k] + [x] + s[k..];
    Inserted(packages, s, k, x);
  }

  lemma Inserted(packages: seq<Package>, s: seq<Weighted>, k: nat, x: Weighted)
    requires k <= |s| && x.index < |packages| && InRange(packages, s) && Sorted(packages, s)
    requires forall j :: 0 <= j < k ==> Before(packages, s[j], x)
    requires forall j :: k <= j < |s| ==> Before(packages, x, s[j])
    ensures var r := s[..k] + [x] + s[k..];
            InRange(packages, r) && Sorted(packages, r) && multiset(r) == multiset(s) + multiset{x}
  {
    assert s == s[..k] + s[k..];
    InsertedSorted(packages, s, k, x, s[..k] + [x] + s[k..]);
  }

  lemma InsertedSorted(packages: seq<Package>, s: seq<Weighted>, k: nat, x: Weighted, r: seq<Weighted>)
    requires k <= |s| && x.index < |packages| && InRange(packages, s) && Sorted(packages, s)
    requires forall j :: 0 <= j < k ==> Before(packages, s[j], x)
    requires forall j :: k <= j < |s| ==> Before(packages, x, s[j])
    requires r == s[..k] + [x] + s[k..]
    ensures InRange(packages, r) && Sorted(packages, r)
  {
    hide Before;
    forall i, j | 0 <= i < j < |r| ensures r[i] in s + [x] && r[j] in s + [x] && Before(packages, r[i], r[j]) {
      assert r[i] == if i < k then s[i] else if i == k then x else s[i - 1];
      assert r[j] == if j < k then s[j] else if j == k then x else s[j - 1];
    }
  }

  lemma EverythingBefore(packages: seq<Package>, s: seq<Weighted>, k: nat, x: Weighted)
    requires x.index < |packages| && InRange(packages, s) && Sorted(packages, s)
    requires 0 < k <= |s| && Before(packages, s[k - 1], x)
    ensures forall j :: 0 <= j < k ==> Before(packages, s[j], x)
  {
    forall j | 0 <= j < k - 1
      ensures Before(packages, s[j], x)
    {
      BeforeTransitive(packages, s[j], s[k - 1], x);
    }
  }

  // ----- the result -----------------------------------------------------------------------

  ghost function Names(packages: seq<Package>): set<Name> { set p | p in packages :: p.name }

  ghost function NameList(packages: seq<Package>): (r: seq<Name>)
    ensures |r| == |packages| && forall i :: 0 <= i < |r| ==> r[i] == packages[i].name
    ensures forall n :: n in r ==> n in Names(packages)
  {
    seq(|packages|, i requires 0 <= i < |packages| => packages[i].name)
  }

  datatype Need = Need(user: Name, target: Name)

  function NeedsOf(p: Package): (r: seq<Need>)
    ensures |r| == |p.needs| && forall j :: 0 <= j < |r| ==> r[j] == Need(p.name, p.needs[j])
  {
    seq(|p.needs|, j requires 0 <= j < |p.needs| => Need(p.name, p.needs[j]))
  }

  /** Every requirement, in package order. */
  function AllNeeds(packages: seq<Package>): seq<Need> {
    if packages == [] then [] else AllNeeds(packages[..|packages| - 1]) + NeedsOf(packages[|packages| - 1])
  }

  /** The names requiring `t`, once per requirement. */
  function Requirers(needs: seq<Need>, t: Name): seq<Name> {
    if needs == [] then []
    else
      var last := needs[|needs| - 1];
      Requirers(needs[..|needs| - 1], t) + (if last.target == t then [last.user] else [])
  }

  ghost predicate Indexes(usage: Usage, needs: seq<Need>) {
    forall t :: UsersOf(usage, t) == Requirers(needs, t)
  }

  ghost predicate IsUsage(usage: Usage, packages: seq<Package>) {
    Indexes(usage, AllNeeds(packages))
  }

  method BuildUsage(packages: seq<Package>) returns (usage: Usage)
    ensures IsUsage(usage, packages)
  {
    usage := map[];
    ghost var needs: seq<Need> := [];
    assert Indexes(usage, needs);
    hide Indexes, Requirers;
    for i := 0 to |packages|
      invariant needs == AllNeeds(packages[..i]) && Indexes(usage, needs)
    {
      var p := packages[i];
      ghost var before := needs;
      for j := 0 to |p.needs|
        invariant needs == before + NeedsOf(p)[..j] && Indexes(usage, needs)
      {
        var target := p.needs[j];
        AddNeed(usage, needs, Need(p.name, target));
        usage := usage[target := UsersOf(usage, target) + [p.name]];
        needs := needs + [Need(p.name, target)];
      }
      assert packages[..i + 1][..i] == packages[..i];
    }
    assert packages[..|packages|] == packages;
    assert Indexes(usage, AllNeeds(packages));
  }

  lemma AddNeed(usage: Usage, needs: seq<Need>, need: Need)
    requires Indexes(usage, needs)
    ensures Indexes(usage[need.target := UsersOf(usage, need.target) + [need.user]], needs + [need])
  {
    var more := needs + [need];
    assert more[..|more| - 1] == needs;
    forall t
      ensures Requirers(more, t) == Requirers(needs, t) + (if need.target == t then [need.user] else [])
    {
    }
  }

  lemma {:induction false} NeedListed(packages: seq<Package>, i: nat, j: nat)
    requires i < |packages| && j < |packages[i].needs|
    ensures Need(packages[i].name, packages[i].needs[j]) in AllNeeds(packages)
  {
    var n := |packages| - 1;
    if i < n {
      NeedListed(packages[..n], i, j);
    } else {
      assert NeedsOf(packages[n])[j] in NeedsOf(packages[n]);
    }
  }

  lemma {:induction false} ListedNeed(packages: seq<Package>, need: Need)
    requires need in AllNeeds(packages)
    ensures need.user in Names(packages)
  {
    var n := |packages| - 1;
    if need in AllNeeds(packages[..n]) {
      ListedNeed(packages[..n], need);
    } else {
      assert packages[n].name == need.user;
    }
  }

  lemma {:induction false} RequirersAre(needs: seq<Need>, u: Name, t: Name)
    ensures u in Requirers(needs, t) <==> Need(u, t) in needs
  {
    if needs != [] {
      var n := |needs| - 1;
      assert needs == needs[..n] + [needs[n]];
      RequirersAre(needs[..n], u, t);
    }
  }

  /** `order` lists every package once, by weight and then by natural name. */
  ghost predicate IsOrder(packages: seq<Package>, order: seq<nat>, w: map<Name, int>) {
    && |order| == |packages|
    && (forall i :: 0 <= i < |packages| ==> i in order)
    && (forall i :: 0 <= i < |order| ==> order[i] < |packages| && packages[order[i]].name in w)
    && (forall i, j :: 0 <= i < j < |order| ==>
          Before(packages, Weighted(w[packages[order[i]].name], order[i]), Weighted(w[packages[order[j]].name], order[j])))
  }

  /** Whatever is listed before something it requires is itself required by it in turn. */
  ghost predicate RequiredComesFirst(packages: seq<Package>, usage: Usage, order: seq<nat>)
    requires forall i :: 0 <= i < |order| ==> order[i] < |packages|
  {
    forall i, j :: 0 <= i <= j < |order| && packages[order[j]].name in packages[order[i]].needs ==>
      Needs(usage, packages[order[j]].name, packages[order[i]].name)
  }

  method StableSort(packages: seq<Package>, weighted: seq<Weighted>) returns (r: seq<Weighted>)
    requires forall i :: 0 <= i < |weighted| ==> weighted[i].index == i < |packages|
    ensures InRange(packages, r) && Sorted(packages, r) && multiset(r) == multiset(weighted)
  {
    r := [];
    for i := 0 to |weighted|
      invariant InRange(packages, r) && Sorted(packages, r)
      invariant multiset(r) == multiset(weighted[..i])
    {
      forall y | y in r
        ensures y.index < i
      {
        assert y in multiset(r) && y in weighted[..i];
      }
      assert weighted[..i + 1] == weighted[..i] + [weighted[i]];
      r := Insert(packages, r, weighted[i]);
    }
    assert weighted[..|weighted|] == weighted;
  }

  /** `sort_packages`. On any require graph the order is sorted by weight and natural name, with the
      weights the names get one after the other in package order, and a package comes before
      whatever requires it -- unless the two are on one require cycle. Only such users are left out
      of a weight, so that without cycles each is the plain sum over the users. */
  method SortPackages(packages: seq<Package>)
      returns (order: seq<nat>, ghost usage: Usage, ghost w: map<Name, int>, ghost cuts: map<Name, set<Name>>)
    ensures |order| == |packages| && forall i :: 0 <= i < |packages| ==> i in order
    ensures IsUsage(usage, packages) && IsOrder(packages, order, w)
    ensures Closed(usage, Names(packages)) && w == WeightsOf(usage, Names(packages), NameList(packages))
    ensures IsWeighting(usage, w, cuts)
    ensures RequiredComesFirst(packages, usage, order)
    ensures Acyclic(usage) ==> forall n :: n in w ==> w[n] == Sum(UsersOf(usage, n), w, {})
  {
    var u := BuildUsage(packages);
    usage := u;
    var weighted;
    UniverseClosed(usage, packages);
    weighted, w, cuts := WeighAll(packages, u);
    var sorted := StableSort(packages, weighted);
    order := seq(|sorted|, k requires 0 <= k < |sorted| => sorted[k].index);
    OrderFromSorted(packages, w, weighted, sorted, order);
    RequiredFirst(packages, usage, w, cuts, order);
    if Acyclic(usage) { PlainSums(usage, w, cuts); }
  }

  method WeighAll(packages: seq<Package>, usage: Usage)
    returns (weighted: seq<Weighted>, ghost w: map<Name, int>, ghost cuts: map<Name, set<Name>>)
    requires Closed(usage, Names(packages))
    ensures IsWeighting(usage, w, cuts) && |weighted| == |packages|
    ensures w == WeightsOf(usage, Names(packages), NameList(packages))
    ensures AllWeighed(packages, w, weighted)
  {
    var ctx := new Ctx(usage);
    ghost var universe := Names(packages);
    weighted := [];
    for i := 0 to |packages|
      invariant ctx.Valid() && ctx.computing == {} && ctx.usage == usage && |weighted| == i
      invariant AllWeighed(packages, ctx.computed, weighted)
      invariant ctx.computed == WeightsOf(usage, universe, NameList(packages[..i]))
    {
      ghost var before := ctx.computed;
      var weight := ctx.Importance(packages[i].name, universe);
      StillWeighed(packages, before, ctx.computed, weighted);
      weighted := weighted + [Weighted(weight, i)];
      assert NameList(packages[..i + 1])[..i] == NameList(packages[..i]);
    }
    assert packages[..|packages|] == packages;
    w, cuts := ctx.computed, ctx.cuts;
  }

  ghost predicate IsWeighed(packages: seq<Package>, w: map<Name, int>, x: Weighted, k: nat) {
    x.index == k < |packages| && packages[k].name in w && x.weight == w[packages[k].name]
  }

  ghost predicate AllWeighed(packages: seq<Package>, w: map<Name, int>, weighted: seq<Weighted>) {
    forall k :: 0 <= k < |weighted| ==> IsWeighed(packages, w, weighted[k], k)
  }

  lemma StillWeighed(packages: seq<Package>, w: map<Name, int>, w': map<Name, int>, weighted: seq<Weighted>)
    requires AllWeighed(packages, w, weighted) && Settled(w, w')
    ensures AllWeighed(packages, w', weighted)
  {
    forall k | 0 <= k < |weighted|
      ensures IsWeighed(packages, w', weighted[k], k)
    {
      assert IsWeighed(packages, w, weighted[k], k);
    }
  }

  lemma UniverseClosed(usage: Usage, packages: seq<Package>)
    requires IsUsage(usage, packages)
    ensures Closed(usage, Names(packages))
  {
    forall n, u | u in UsersOf(usage, n)
      ensures u in Names(packages)
    {
      RequirersAre(AllNeeds(packages), u, n);
      ListedNeed(packages, Need(u, n));
    }
  }

  lemma OrderFromSorted(packages: seq<Package>, w: map<Name, int>, weighted: seq<Weighted>,
                        sorted: seq<Weighted>, order: seq<nat>)
    requires |weighted| == |packages|
    requires AllWeighed(packages, w, weighted)
    requires InRange(packages, sorted) && Sorted(packages, sorted) && multiset(sorted) == multiset(weighted)
    requires |order| == |sorted| && forall k :: 0 <= k < |order| ==> order[k] == sorted[k].index
    ensures IsOrder(packages, order, w)
  {
    assert |multiset(sorted)| == |multiset(weighted)|;
    forall i | 0 <= i < |packages|
      ensures i in order
    {
      assert weighted[i] in multiset(sorted);
      var k :| 0 <= k < |sorted| && sorted[k] == weighted[i];
      assert order[k] == i;
    }
    forall k | 0 <= k < |sorted|
      ensures IsWeighed(packages, w, sorted[k], order[k])
    {
      assert sorted[k] in multiset(weighted);
    }
  }

  lemma RequiredFirst(packages: seq<Package>, usage: Usage, w: map<Name, int>, cuts: map<Name, set<Name>>, order: seq<nat>)
    requires IsUsage(usage, packages) && IsWeighting(usage, w, cuts) && IsOrder(packages, order, w)
    ensures RequiredComesFirst(packages, usage, order)
  {
    forall i, j | 0 <= i <= j < |order| && packages[order[j]].name in packages[order[i]].needs
      ensures Needs(usage, packages[order[j]].name, packages[order[i]].name)
    {
      WeightsAscend(packages, w, order, i, j);
      UserIsListed(packages, usage, order[i], packages[order[j]].name);
      LighterThanItsUsers(usage, w, cuts, packages[order[j]].name, packages[order[i]].name);
    }
  }

  lemma UserIsListed(packages: seq<Package>, usage: Usage, i: nat, t: Name)
    requires IsUsage(usage, packages) && i < |packages| && t in packages[i].needs
    ensures packages[i].name in UsersOf(usage, t)
  {
    var j :| 0 <= j < |packages[i].needs| && packages[i].needs[j] == t;
    NeedListed(packages, i, j);
    RequirersAre(AllNeeds(packages), packages[i].name, t);
    assert UsersOf(usage, t) == Requirers(AllNeeds(packages), t);
  }

  lemma WeightsAscend(packages: seq<Package>, w: map<Name, int>, order: seq<nat>, i: nat, j: nat)
    requires IsOrder(packages, order, w) && i <= j < |order|
    ensures w[packages[order[i]].name] <= w[packages[order[j]].name]
  {
    if i < j {
      assert Before(packages, Weighted(w[packages[order[i]].name], order[i]), Weighted(w[packages[order[j]].name], order[j]));
    }
  }

  lemma PlainSums(usage: Usage, w: map<Name, int>, cuts: map<Name, set<Name>>)
    requires IsWeighting(usage, w, cuts) && Acyclic(usage)
    ensures forall n :: n in w ==> w[n] == Sum(UsersOf(usage, n), w, {})
  {
    forall n | n in w
      ensures w[n] == Sum(UsersOf(usage, n), w, {})
    {
      assert Explained(usage, w, cuts, n);
      forall u | u in UsersOf(usage, n)
        ensures u !in cuts[n]
      {
        if u in cuts[n] { NeedsTransitive(usage, u, n, u); }
      }
      NothingCut(UsersOf(usage, n), w, cuts[n]);
    }
  }

  lemma {:induction false} NothingCut(users: seq<Name>, m: map<Name, int>, cut: set<Name>)
    requires forall u :: u in users ==> u !in cut
    ensures Sum(users, m, cut) == Sum(users, m, {})
  {
    if users != [] { NothingCut(users[..|users| - 1], m, cut); }
  }
}
