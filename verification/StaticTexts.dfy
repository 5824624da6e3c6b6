/** The compiled arrays (crates/vivacity-autoload/src/generator.rs) entry by entry: what is declared for a
    namespace, in which order the keys stand, and what each of the arrays holds. */
module StaticTexts {
  import opened Common
  import opened StaticCompiler
  import opened Utf8

  // ----- what is declared -----------------------------------------------------------------------------------

  lemma {:induction false} TrimmedIs(slashes: string, ns: string)
    requires (forall k :: 0 <= k < |slashes| ==> slashes[k] == '\\') && (ns != "" ==> ns[0] != '\\')
    ensures TrimBackslashes(slashes + ns) == ns
  {
    if slashes == "" {
      assert slashes + ns == ns;
    } else {
      assert (slashes + ns)[1..] == slashes[1..] + ns;
      TrimmedIs(slashes[1..], ns);
    }
  }

  /** A directory is declared for the namespace without the backslashes in front, behind those declared
      before, and for no other one. */
  lemma DeclaredAlso(declared: seq<(string, string)>, slashes: string, ns: string, path: string, other: string)
    requires (forall k :: 0 <= k < |slashes| ==> slashes[k] == '\\') && (ns != "" ==> ns[0] != '\\')
    ensures Declared([], other) == []
    ensures Declared(declared + [(slashes + ns, path)], other) == Declared(declared, other) + if other == ns then [path] else []
  {
    TrimmedIs(slashes, ns);
    hide TrimBackslashes;
    assert (declared + [(slashes + ns, path)])[..|declared|] == declared;
  }

  // ----- the order of the keys --------------------------------------------------------------------------------

  /** `b` is how `a` begins, or the first character that differs is larger in `a`. */
  ghost predicate Behind(a: string, b: string) {
    (b <= a && b != a) || exists k :: 0 <= k < |a| && k < |b| && a[..k] == b[..k] && a[k] > b[k]
  }

  ghost predicate LexGreater(p: seq<int>, q: seq<int>) {
    (q <= p && q != p) || exists k :: 0 <= k < |p| && k < |q| && p[..k] == q[..k] && p[k] > q[k]
  }

  lemma {:induction false} LexBehind(p: seq<int>, q: seq<int>)
    ensures LexCompare(p, q) == Greater <==> LexGreater(p, q)
  {
    if p != [] && q != [] {
      if p[0] == q[0] {
        LexBehind(p[1..], q[1..]);
        SameHead(p, q);
        hide LexGreater;
      } else {
        OtherHead(p, q);
      }
    }
  }

  lemma OtherHead(p: seq<int>, q: seq<int>)
    requires p != [] && q != [] && p[0] != q[0]
    ensures LexGreater(p, q) <==> p[0] > q[0]
  {
    if p[0] > q[0] { assert p[..0] == q[..0]; }
    forall k | 0 < k < |p| && k < |q| ensures p[..k] != q[..k] {
      assert p[..k][0] == p[0] && q[..k][0] == q[0];
    }
  }

  lemma SameHead(p: seq<int>, q: seq<int>)
    requires p != [] && q != [] && p[0] == q[0]
    ensures LexGreater(p, q) <==> LexGreater(p[1..], q[1..])
  {
    var a, b := p[1..], q[1..];
    assert p == [p[0]] + a && q == [q[0]] + b;
    assert q <= p <==> b <= a;
    forall k: nat | k < |a| && k < |b| ensures p[..k + 1] == [p[0]] + a[..k] && q[..k + 1] == [q[0]] + b[..k] {}
    if k :| 0 <= k < |p| && k < |q| && p[..k] == q[..k] && p[k] > q[k] {
      assert p[..k] == [p[0]] + a[..k - 1] && q[..k] == [q[0]] + b[..k - 1];
      assert a[..k - 1] == p[..k][1..] && b[..k - 1] == q[..k][1..] && a[k - 1] > b[k - 1];
    }
    if k :| 0 <= k < |a| && k < |b| && a[..k] == b[..k] && a[k] > b[k] {
      assert p[..k + 1] == q[..k + 1] && p[k + 1] > q[k + 1];
    }
  }

  lemma AboveIff(a: string, b: string)
    ensures Above(a, b) <==> Behind(a, b)
  {
    var p, q := Bytes(a), Bytes(b);
    LexBehind(p, q);
    SameStart(a, b, |b|);
    hide LexCompare;
    forall k | 0 <= k < |a| && k < |b| ensures p[..k] == q[..k] <==> a[..k] == b[..k] { SameStart(a, b, k); }
    assert a == b <==> p == q by { if p == q { SameStart(a, b, |a|); assert a[..|a|] == a && b[..|b|] == b; } }
    assert b <= a <==> q <= p by { if |b| <= |a| { assert b[..|b|] == b && q[..|b|] == q; } }
  }

  lemma SameStart(a: string, b: string, k: nat)
    ensures k <= |a| && k <= |b| ==> (Bytes(a)[..k] == Bytes(b)[..k] <==> a[..k] == b[..k])
  {
    if k <= |a| && k <= |b| && Bytes(a)[..k] == Bytes(b)[..k] {
      forall i | 0 <= i < k ensures a[i] == b[i] {
        assert Bytes(a)[..k][i] == Bytes(b)[..k][i];
      }
    }
  }

  /** In the sorted map every key stands before those it is behind in the alphabet. */
  lemma SortedIs(entries: TypeMap, i: nat, j: nat)
    requires Distinct(entries) && i < j < |Krsorted(entries)|
    ensures Behind(Krsorted(entries)[i].0, Krsorted(entries)[j].0)
  {
    KrsortedIsSorted(entries, "");
    AboveIff(Krsorted(entries)[i].0, Krsorted(entries)[j].0);
    hide Above, Behind, Krsorted;
  }

  // ----- what the arrays hold -----------------------------------------------------------------------------------

  /** The entries with a namespace. */
  function Named(entries: TypeMap): TypeMap {
    if entries == [] then [] else (if entries[0].0 == "" then [] else [entries[0]]) + Named(entries[1..])
  }

  /** The directories of those without one. */
  function Unnamed(entries: TypeMap): seq<string> {
    if entries == [] then [] else (if entries[0].0 == "" then entries[0].1 else []) + Unnamed(entries[1..])
  }

  lemma {:induction false} BothEnd(entries: TypeMap, e: (string, seq<string>))
    ensures Named(entries + [e]) == Named(entries) + if e.0 == "" then [] else [e]
    ensures Unnamed(entries + [e]) == Unnamed(entries) + if e.0 == "" then e.1 else []
  {
    if entries != [] {
      assert (entries + [e])[1..] == entries[1..] + [e];
      BothEnd(entries[1..], e);
    }
  }

  /** Namespaces keep their directories; those of the empty namespace are the fallbacks. */
  lemma {:induction false} DirsAre(psr4: TypeMap)
    requires AllText(psr4)
    ensures Compiled4(psr4, NOTHING).dirs == Named(psr4) && Compiled4(psr4, NOTHING).fallback == Unnamed(psr4)
    decreases |psr4|
  {
    if psr4 != [] {
      var n := |psr4| - 1;
      assert psr4 == psr4[..n] + [psr4[n]];
      DirsAre(psr4[..n]);
      BothEnd(psr4[..n], psr4[n]);
      hide PushUnder, FirstChar, Named, Unnamed;
    }
  }

  lemma {:induction false} Fallback0Is(psr0: TypeMap, s: Statics)
    requires AllText(psr0) && s.fallback0 == []
    ensures Compiled0(psr0, s).fallback0 == Unnamed(psr0)
    decreases |psr0|
  {
    if psr0 != [] {
      var n := |psr0| - 1;
      assert psr0 == psr0[..n] + [psr0[n]];
      Fallback0Is(psr0[..n], s);
      BothEnd(psr0[..n], psr0[n]);
      hide PushUnder, FirstChar, Named, Unnamed;
    }
  }

  /** The first character of a text. */
  ghost predicate Begins(ns: string, letter: string) {
    exists n: Scalar, rest :: ns == Chars(Encoded(n)) + rest && letter == Chars(Encoded(n))
  }

  ghost predicate IsEncoded(ns: string) { exists text: seq<Scalar> :: ns == Chars(AllEncoded(text)) }

  ghost predicate AllAreEncoded(entries: TypeMap) { forall i :: 0 <= i < |entries| ==> IsEncoded(entries[i].0) }

  lemma BeginsIff(ns: string, letter: string)
    requires IsEncoded(ns) && ns != ""
    ensures IsText(ns) && (Begins(ns, letter) <==> FirstChar(ns) == letter)
  {
    var text: seq<Scalar> :| ns == Chars(AllEncoded(text));
    var rest := Chars(AllEncoded(text[1..]));
    EncodedLength(text[0]);
    assert ns == Chars(Encoded(text[0])) + rest;
    FirstCharIsEncoded(text[0], rest);
    hide FirstChar, Encoded, AllEncoded, Chars;
    if Begins(ns, letter) {
      var n: Scalar, tail :| ns == Chars(Encoded(n)) + tail && letter == Chars(Encoded(n));
      FirstCharIsEncoded(n, tail);
    }
  }

  lemma EncodedHaveText(entries: TypeMap)
    requires AllAreEncoded(entries)
    ensures AllText(entries)
  {
    forall i | 0 <= i < |entries| ensures IsText(entries[i].0) {
      if entries[i].0 != "" { BeginsIff(entries[i].0, ""); }
    }
  }

  /** A namespace of the map, under its first character, with its length in bytes. */
  ghost predicate LengthOf(entries: TypeMap, letter: string, e: (string, nat)) {
    e.0 != "" && e.1 == |e.0| && Begins(e.0, letter) && exists i :: 0 <= i < |entries| && entries[i].0 == e.0
  }

  lemma LengthOfStep(entries: TypeMap, letter: string, e: (string, nat))
    requires entries != []
    ensures var n := |entries| - 1;
            LengthOf(entries, letter, e) <==>
            LengthOf(entries[..n], letter, e) || (e == (entries[n].0, |entries[n].0|) && e.0 != "" && Begins(e.0, letter))
  {
    hide Begins;
    var n := |entries| - 1;
    assert forall i :: 0 <= i < n ==> entries[..n][i] == entries[i];
    if LengthOf(entries[..n], letter, e) {
      var i :| 0 <= i < n && entries[..n][i].0 == e.0;
      assert entries[i].0 == e.0;
    }
  }

  lemma CompiledStep(psr4: TypeMap, letter: string)
    requires psr4 != [] && AllText(psr4)
    ensures var n := |psr4| - 1;
            var (before, ns) := (Compiled4(psr4[..n], NOTHING).lengths, psr4[n].0);
            ListUnder(Compiled4(psr4, NOTHING).lengths, letter) ==
            if ns != "" && FirstChar(ns) == letter then ListUnder(before, letter) + [(ns, |ns|)] else ListUnder(before, letter)
  {
    var n := |psr4| - 1;
    var (before, ns) := (Compiled4(psr4[..n], NOTHING).lengths, psr4[n].0);
    if ns != "" { LookUpPushed<(string, nat)>(before, FirstChar(ns), (ns, |ns|), letter); }
    hide FirstChar, LookUp, PushUnder;
  }

  lemma Latest<T>(list: seq<T>, x: T, e: T)
    ensures e in list + [x] <==> e in list || e == x
  {
  }

  /** Under every letter stand the namespaces of the map that begin with it, and their lengths. */
  lemma {:induction false} LengthsAre(psr4: TypeMap, letter: string, e: (string, nat))
    requires AllAreEncoded(psr4)
    ensures AllText(psr4) && (e in ListUnder(Compiled4(psr4, NOTHING).lengths, letter) <==> LengthOf(psr4, letter, e))
    decreases |psr4|
  {
    EncodedHaveText(psr4);
    if psr4 == [] {
    } else {
      var n := |psr4| - 1;
      var (before, ns) := (psr4[..n], psr4[n].0);
      assert IsEncoded(ns) && AllAreEncoded(before);
      hide *;
      LengthsAre(before, letter, e);
      CompiledStep(psr4, letter);
      LengthOfStep(psr4, letter, e);
      if ns != "" { BeginsIff(ns, letter); }
      Latest(ListUnder(Compiled4(before, NOTHING).lengths, letter), (ns, |ns|), e);
    }
  }

  lemma CompiledStep0(psr0: TypeMap, s: Statics, letter: string)
    requires psr0 != [] && AllText(psr0)
    ensures var n := |psr0| - 1;
            var (before, ns) := (Compiled0(psr0[..n], s).prefixes0, psr0[n].0);
            ListUnder(Compiled0(psr0, s).prefixes0, letter) ==
            if ns != "" && FirstChar(ns) == letter then ListUnder(before, letter) + [psr0[n]] else ListUnder(before, letter)
  {
    var n := |psr0| - 1;
    var (before, ns) := (Compiled0(psr0[..n], s).prefixes0, psr0[n].0);
    if ns != "" { LookUpPushed(before, FirstChar(ns), psr0[n], letter); }
    hide FirstChar, LookUp, PushUnder;
  }

  /** Under every letter stand the entries that begin with it, in their order. */
  ghost function Beginning(entries: TypeMap, letter: string): TypeMap
    decreases |entries|
  {
    if entries == [] then []
    else (if entries[0].0 != "" && Begins(entries[0].0, letter) then [entries[0]] else []) + Beginning(entries[1..], letter)
  }

  lemma BeginningStep(entries: TypeMap, letter: string)
    requires entries != []
    ensures Beginning(entries, letter) ==
            (if entries[0].0 != "" && Begins(entries[0].0, letter) then [entries[0]] else []) + Beginning(entries[1..], letter)
    ensures Beginning([], letter) == []
  {
    hide Begins;
  }

  lemma {:induction false} BeginningEnds(entries: TypeMap, letter: string, e: (string, seq<string>))
    ensures Beginning(entries + [e], letter) ==
            Beginning(entries, letter) + if e.0 != "" && Begins(e.0, letter) then [e] else []
    decreases |entries|
  {
    hide *;
    BeginningStep(entries + [e], letter);
    if entries == [] {
      assert (entries + [e])[1..] == [];
    } else {
      assert (entries + [e])[1..] == entries[1..] + [e];
      BeginningEnds(entries[1..], letter, e);
      BeginningStep(entries, letter);
    }
  }

  lemma {:induction false} PrefixesAre(psr0: TypeMap, s: Statics, letter: string)
    requires AllAreEncoded(psr0) && s.prefixes0 == []
    ensures AllText(psr0) && ListUnder(Compiled0(psr0, s).prefixes0, letter) == Beginning(psr0, letter)
    decreases |psr0|
  {
    EncodedHaveText(psr0);
    if psr0 == [] {
    } else {
      var n := |psr0| - 1;
      var (before, ns) := (psr0[..n], psr0[n].0);
      assert IsEncoded(ns) && AllAreEncoded(before) && psr0 == before + [psr0[n]];
      hide *;
      PrefixesAre(before, s, letter);
      CompiledStep0(psr0, s, letter);
      BeginningEnds(before, letter, psr0[n]);
      if ns != "" { BeginsIff(ns, letter); }
      assert Beginning(before, letter) + [] == Beginning(before, letter);
    }
  }
}
