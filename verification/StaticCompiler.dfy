/** The optimised autoloader (crates/vivacity-autoload/src/generator.rs): the arrays written to
    autoload_static.php against the loader that registering the same maps would give. */
module StaticCompiler {
  import opened Common
  import opened ClassLoader
  import Text

  /** Namespaces (or prefixes) with their directories. */
  type TypeMap = seq<(string, seq<string>)>

  // ----- parse_type_map --------------------------------------------------------------------------------

  function TrimBackslashes(ns: string): string {
    if ns != "" && ns[0] == '\\' then TrimBackslashes(ns[1..]) else ns
  }

  /** Another directory for a namespace: behind the others, or with a new entry at the end. */
  function Pushed(entries: TypeMap, ns: string, path: string): TypeMap {
    if entries == [] then [(ns, [path])]
    else if entries[0].0 == ns then [(ns, entries[0].1 + [path])] + entries[1..]
    else [entries[0]] + Pushed(entries[1..], ns, path)
  }

  function Grouped(declared: seq<(string, string)>): TypeMap
    decreases |declared|
  {
    if declared == [] then []
    else
      var last := declared[|declared| - 1];
      Pushed(Grouped(declared[..|declared| - 1]), TrimBackslashes(last.0), last.1)
  }

  /** The directories declared for a namespace, in the order of their declaration. */
  function Declared(declared: seq<(string, string)>, ns: string): seq<string>
    decreases |declared|
  {
    if declared == [] then []
    else
      var last := declared[|declared| - 1];
      Declared(declared[..|declared| - 1], ns) + if TrimBackslashes(last.0) == ns then [last.1] else []
  }

  predicate Distinct(entries: TypeMap) {
    forall i, j :: 0 <= i < j < |entries| ==> entries[i].0 != entries[j].0
  }

  method ParseTypeMap(declared: seq<(string, string)>) returns (entries: TypeMap)
    ensures entries == Grouped(declared)
  {
    entries := [];
    for i := 0 to |declared|
      invariant entries == Grouped(declared[..i])
    {
      assert declared[..i + 1][..i] == declared[..i];
      entries := FindOrPush(entries, TrimBackslashes(declared[i].0), declared[i].1);
    }
    assert declared[..|declared|] == declared;
  }

  method FindOrPush(entries: TypeMap, ns: string, path: string) returns (r: TypeMap)
    ensures r == Pushed(entries, ns, path)
  {
    var i := 0;
    while i < |entries| && entries[i].0 != ns
      invariant 0 <= i <= |entries|
      invariant Pushed(entries, ns, path) == entries[..i] + Pushed(entries[i..], ns, path)
    {
      assert entries[i..][1..] == entries[i + 1..];
      OneFurther(entries, i, Pushed(entries[i + 1..], ns, path));
      i := i + 1;
    }
    if i == |entries| {
      assert entries[i..] == [] && entries[..i] == entries;
      r := entries + [(ns, [path])];
    } else {
      assert entries[i..][1..] == entries[i + 1..];
      r := entries[..i] + ([(ns, entries[i].1 + [path])] + entries[i + 1..]);
    }
  }

  lemma OneFurther<T>(list: seq<T>, i: nat, rest: seq<T>)
    requires i < |list|
    ensures list[..i] + ([list[i]] + rest) == list[..i + 1] + rest
  {
  }

  lemma {:induction false} PushedEntry(entries: TypeMap, ns: string, path: string, key: string)
    ensures EntryOf(Pushed(entries, ns, path), key) ==
            if key != ns then EntryOf(entries, key)
            else match EntryOf(entries, ns) case None => Some([path]) case Some(paths) => Some(paths + [path])
  {
    if entries != [] && entries[0].0 != ns {
      PushedEntry(entries[1..], ns, path, key);
      assert Pushed(entries, ns, path)[1..] == Pushed(entries[1..], ns, path);
    } else if entries != [] {
      assert Pushed(entries, ns, path)[1..] == entries[1..];
    }
  }

  lemma {:induction false} EntryIsThere(entries: TypeMap, key: string)
    ensures EntryOf(entries, key).Some? <==> exists i :: 0 <= i < |entries| && entries[i].0 == key
  {
    if entries != [] {
      EntryIsThere(entries[1..], key);
      if i :| 0 <= i < |entries| && entries[i].0 == key {
        assert i > 0 ==> entries[1..][i - 1].0 == key;
      }
      if i :| 0 <= i < |entries[1..]| && entries[1..][i].0 == key {
        assert entries[i + 1].0 == key;
      }
    }
  }

  lemma {:induction false} PushedDistinct(entries: TypeMap, ns: string, path: string)
    requires Distinct(entries)
    ensures Distinct(Pushed(entries, ns, path))
  {
    if entries != [] && entries[0].0 != ns {
      PushedDistinct(entries[1..], ns, path);
      var rest := Pushed(entries[1..], ns, path);
      forall j | 0 <= j < |rest| ensures rest[j].0 != entries[0].0 {
        EntryIsThere(rest, entries[0].0);
        PushedEntry(entries[1..], ns, path, entries[0].0);
        EntryIsThere(entries[1..], entries[0].0);
      }
    }
  }

  /** Every namespace has one entry, with exactly the directories declared for it, in order. */
  lemma {:induction false} GroupedIsDeclared(declared: seq<(string, string)>, ns: string)
    ensures Distinct(Grouped(declared))
    ensures EntryOf(Grouped(declared), ns) == if Declared(declared, ns) == [] then None else Some(Declared(declared, ns))
    decreases |declared|
  {
    if declared != [] {
      var before := declared[..|declared| - 1];
      var last := declared[|declared| - 1];
      GroupedIsDeclared(before, ns);
      PushedDistinct(Grouped(before), TrimBackslashes(last.0), last.1);
      PushedEntry(Grouped(before), TrimBackslashes(last.0), last.1, ns);
      assert [] + [last.1] == [last.1] && Declared(before, ns) + [] == Declared(before, ns);
    }
  }

  // ----- krsort ------------------------------------------------------------------------------------------

  function Bytes(s: string): seq<int> { seq(|s|, i requires 0 <= i < |s| => s[i] as int) }

  predicate Above(a: string, b: string) { LexCompare(Bytes(a), Bytes(b)) == Greater }

  predicate Descending(entries: TypeMap) {
    forall i, j :: 0 <= i < j < |entries| ==> Above(entries[i].0, entries[j].0)
  }

  function Inserted(entries: TypeMap, e: (string, seq<string>)): TypeMap {
    if entries == [] || !Above(entries[0].0, e.0) then [e] + entries
    else [entries[0]] + Inserted(entries[1..], e)
  }

  /** Keys in descending byte order. */
  function Krsorted(entries: TypeMap): TypeMap {
    if entries == [] then [] else Inserted(Krsorted(entries[1..]), entries[0])
  }

  lemma {:induction false} InsertedEntry(entries: TypeMap, e: (string, seq<string>), key: string)
    requires EntryOf(entries, e.0).None?
    ensures EntryOf(Inserted(entries, e), key) == if key == e.0 then Some(e.1) else EntryOf(entries, key)
  {
    if entries != [] && Above(entries[0].0, e.0) {
      InsertedEntry(entries[1..], e, key);
      assert Inserted(entries, e)[1..] == Inserted(entries[1..], e);
    } else {
      assert Inserted(entries, e)[1..] == entries;
    }
  }

  /** Distinct keys are ordered one way or the other. */
  lemma AboveIsTotal(a: string, b: string)
    ensures a != b ==> Above(a, b) || Above(b, a)
    ensures !(Above(a, b) && Above(b, a)) && !Above(a, a)
  {
    LexReverse(Bytes(a), Bytes(b));
    LexEqual(Bytes(a), Bytes(b));
    LexEqual(Bytes(a), Bytes(a));
    if Bytes(a) == Bytes(b) {
      assert forall i :: 0 <= i < |a| ==> Bytes(a)[i] == a[i] as int && Bytes(b)[i] == b[i] as int;
      assert |Bytes(a)| == |Bytes(b)|;
      assert a == b;
    }
  }

  lemma AboveIsTransitive(a: string, b: string, c: string)
    requires Above(a, b) && Above(b, c)
    ensures Above(a, c)
  {
    LexReverse(Bytes(a), Bytes(b));
    LexReverse(Bytes(b), Bytes(c));
    LexTransitive(Bytes(c), Bytes(b), Bytes(a));
    LexReverse(Bytes(c), Bytes(a));
  }

  lemma {:induction false} InsertedDescending(entries: TypeMap, e: (string, seq<string>))
    requires Descending(entries) && EntryOf(entries, e.0).None?
    ensures Descending(Inserted(entries, e))
  {
    hide Above;
    if entries == [] { return; }
    var first, rest := entries[0], entries[1..];
    AboveIsTotal(first.0, e.0);
    if Above(first.0, e.0) {
      InsertedDescending(rest, e);
      var tail := Inserted(rest, e);
      forall j | 0 <= j < |tail| ensures Above(first.0, tail[j].0) {
        EntryIsThere(tail, tail[j].0);
        InsertedEntry(rest, e, tail[j].0);
        EntryIsThere(rest, tail[j].0);
        if i :| 0 <= i < |rest| && rest[i].0 == tail[j].0 { assert Above(entries[0].0, entries[i + 1].0); }
      }
    } else {
      forall j | 0 <= j < |entries| ensures Above(e.0, entries[j].0) {
        if j > 0 { AboveIsTransitive(e.0, first.0, entries[j].0); }
      }
    }
  }

  /** Sorting changes the order of the entries and nothing else. */
  lemma {:induction false} KrsortedIsSorted(entries: TypeMap, key: string)
    requires Distinct(entries)
    ensures Descending(Krsorted(entries)) && Distinct(Krsorted(entries))
    ensures EntryOf(Krsorted(entries), key) == EntryOf(entries, key)
  {
    if entries != [] {
      var first, rest := entries[0], entries[1..];
      KrsortedIsSorted(rest, key);
      KrsortedIsSorted(rest, first.0);
      EntryIsThere(rest, first.0);
      InsertedDescending(Krsorted(rest), first);
      InsertedEntry(Krsorted(rest), first, key);
    }
    DescendingIsDistinct(Krsorted(entries));
  }

  lemma DescendingIsDistinct(entries: TypeMap)
    requires Descending(entries)
    ensures Distinct(entries)
  {
    forall i, j | 0 <= i < j < |entries| ensures entries[i].0 != entries[j].0 {
      AboveIsTotal(entries[i].0, entries[j].0);
    }
  }

  lemma {:induction false} LongerIsAbove(p: seq<int>, q: seq<int>)
    requires p < q
    ensures LexCompare(q, p) == Greater
  {
    if p != [] {
      assert q[0] == p[0] && p[1..] < q[1..];
      LongerIsAbove(p[1..], q[1..]);
    }
  }

  /** In descending order, of two prefixes of one class the longer comes first. */
  lemma LongestPrefixFirst(entries: TypeMap, name: string, i: nat, j: nat)
    requires Descending(entries) && i < |entries| && j < |entries| && i != j
    requires entries[i].0 <= name && entries[j].0 <= name
    ensures i < j <==> |entries[j].0| < |entries[i].0|
  {
    var a, b := entries[i].0, entries[j].0;
    assert a == name[..|a|] && b == name[..|b|];
    if |a| < |b| {
      assert a < b && Bytes(a) < Bytes(b);
      LongerIsAbove(Bytes(a), Bytes(b));
      LexReverse(Bytes(b), Bytes(a));
    } else if |b| < |a| {
      assert b < a && Bytes(b) < Bytes(a);
      LongerIsAbove(Bytes(b), Bytes(a));
      LexReverse(Bytes(a), Bytes(b));
    } else {
      assert a == b;
      LexEqual(Bytes(a), Bytes(a));
    }
  }

  // ----- build_static_file ---------------------------------------------------------------------------------

  /** Length in bytes of the UTF-8 character a byte begins. */
  function CharLength(c: char): nat {
    if c as int < 0x80 then 1 else if c as int < 0xE0 then 2 else if c as int < 0xF0 then 3 else 4
  }

  /** UTF-8 text holds its first character whole. */
  predicate IsText(ns: string) { ns != "" ==> CharLength(ns[0]) <= |ns| }

  /** The first character, which the arrays are keyed by. */
  function FirstChar(ns: string): string
    requires ns != "" && IsText(ns)
  {
    ns[..CharLength(ns[0])]
  }

  /** An entry pushed under its key, as `find` or `push` does. */
  function PushUnder<T>(nested: seq<(string, seq<T>)>, key: string, entry: T): seq<(string, seq<T>)> {
    if nested == [] then [(key, [entry])]
    else if nested[0].0 == key then [(key, nested[0].1 + [entry])] + nested[1..]
    else [nested[0]] + PushUnder(nested[1..], key, entry)
  }

  function LookUp<T>(nested: seq<(string, seq<T>)>, key: string): Option<seq<T>> {
    if nested == [] then None else if nested[0].0 == key then Some(nested[0].1) else LookUp(nested[1..], key)
  }

  lemma {:induction false} LookUpPushed<T>(nested: seq<(string, seq<T>)>, key: string, entry: T, other: string)
    ensures LookUp(PushUnder(nested, key, entry), other) ==
            if other != key then LookUp(nested, other)
            else match LookUp(nested, key) case None => Some([entry]) case Some(list) => Some(list + [entry])
  {
    if nested != [] && nested[0].0 != key {
      LookUpPushed(nested[1..], key, entry, other);
      assert PushUnder(nested, key, entry)[1..] == PushUnder(nested[1..], key, entry);
    } else if nested != [] {
      assert PushUnder(nested, key, entry)[1..] == nested[1..];
    }
  }

  function Keys<T>(nested: seq<(string, seq<T>)>): set<string> {
    set i | 0 <= i < |nested| :: nested[i].0
  }

  lemma {:induction false} KeysAreFound<T>(nested: seq<(string, seq<T>)>, key: string)
    ensures key in Keys(nested) <==> LookUp(nested, key).Some?
  {
    if nested != [] {
      KeysAreFound(nested[1..], key);
      if key in Keys(nested) {
        var i :| 0 <= i < |nested| && nested[i].0 == key;
        assert i > 0 ==> nested[1..][i - 1].0 == key;
      }
      if key in Keys(nested[1..]) {
        var i :| 0 <= i < |nested[1..]| && nested[1..][i].0 == key;
        assert nested[i + 1].0 == key;
      }
      assert nested[0].0 in Keys(nested);
    }
  }

  /** The arrays written to the file; the class map is written as it is. */
  datatype Statics = Statics(
    lengths: seq<(string, seq<(string, nat)>)>,
    dirs: seq<(string, seq<string>)>,
    fallback: seq<string>,
    prefixes0: seq<(string, seq<(string, seq<string>)>)>,
    fallback0: seq<string>)

  const NOTHING := Statics([], [], [], [], [])

  function Compiled4(psr4: TypeMap, s: Statics): Statics
    requires forall i :: 0 <= i < |psr4| ==> IsText(psr4[i].0)
    decreases |psr4|
  {
    if psr4 == [] then s
    else
      var before := Compiled4(psr4[..|psr4| - 1], s);
      var (ns, paths) := psr4[|psr4| - 1];
      if ns == "" then before.(fallback := before.fallback + paths)
      else before.(lengths := PushUnder<(string, nat)>(before.lengths, FirstChar(ns), (ns, |ns|)), dirs := before.dirs + [(ns, paths)])
  }

  function Compiled0(psr0: TypeMap, s: Statics): Statics
    requires forall i :: 0 <= i < |psr0| ==> IsText(psr0[i].0)
    decreases |psr0|
  {
    if psr0 == [] then s
    else
      var before := Compiled0(psr0[..|psr0| - 1], s);
      var (ns, paths) := psr0[|psr0| - 1];
      if ns == "" then before.(fallback0 := before.fallback0 + paths)
      else before.(prefixes0 := PushUnder(before.prefixes0, FirstChar(ns), (ns, paths)))
  }

  method FindOrPushUnder<T>(nested: seq<(string, seq<T>)>, key: string, entry: T) returns (r: seq<(string, seq<T>)>)
    ensures r == PushUnder(nested, key, entry)
  {
    var i := 0;
    while i < |nested| && nested[i].0 != key
      invariant 0 <= i <= |nested|
      invariant PushUnder(nested, key, entry) == nested[..i] + PushUnder(nested[i..], key, entry)
    {
      assert nested[i..][1..] == nested[i + 1..];
      OneFurther(nested, i, PushUnder(nested[i + 1..], key, entry));
      i := i + 1;
    }
    if i == |nested| {
      assert nested[i..] == [] && nested[..i] == nested;
      r := nested + [(key, [entry])];
    } else {
      assert nested[i..][1..] == nested[i + 1..];
      r := nested[..i] + ([(key, nested[i].1 + [entry])] + nested[i + 1..]);
    }
  }

  /** The two loops of `build_static_file`. */
  method BuildStatics(psr4: TypeMap, psr0: TypeMap) returns (s: Statics)
    requires forall i :: 0 <= i < |psr4| ==> IsText(psr4[i].0)
    requires forall i :: 0 <= i < |psr0| ==> IsText(psr0[i].0)
    ensures s == Compiled0(psr0, Compiled4(psr4, NOTHING))
  {
    s := NOTHING;
    for i := 0 to |psr4|
      invariant s == Compiled4(psr4[..i], NOTHING)
    {
      assert psr4[..i + 1][..i] == psr4[..i];
      var (ns, paths) := psr4[i];
      if ns == "" {
        s := s.(fallback := s.fallback + paths);
      } else {
        var lengths := FindOrPushUnder<(string, nat)>(s.lengths, FirstChar(ns), (ns, |ns|));
        s := s.(lengths := lengths, dirs := s.dirs + [(ns, paths)]);
      }
    }
    assert psr4[..|psr4|] == psr4;
    for i := 0 to |psr0|
      invariant s == Compiled0(psr0[..i], Compiled4(psr4, NOTHING))
    {
      assert psr0[..i + 1][..i] == psr0[..i];
      var (ns, paths) := psr0[i];
      if ns == "" {
        s := s.(fallback0 := s.fallback0 + paths);
      } else {
        var prefixes0 := FindOrPushUnder(s.prefixes0, FirstChar(ns), (ns, paths));
        s := s.(prefixes0 := prefixes0);
      }
    }
    assert psr0[..|psr0|] == psr0;
  }

  // ----- what the arrays mean to PHP -----------------------------------------------------------------------

  function PairsOf<T>(pairs: seq<(string, T)>): map<string, T>
    decreases |pairs|
  {
    if pairs == [] then map[]
    else PairsOf(pairs[..|pairs| - 1])[pairs[|pairs| - 1].0 := pairs[|pairs| - 1].1]
  }

  function ListUnder<T>(nested: seq<(string, seq<T>)>, key: string): seq<T> {
    match LookUp(nested, key) case Some(list) => list case None => []
  }

  function LengthsOf(nested: seq<(string, seq<(string, nat)>)>): map<string, map<string, nat>> {
    map key | key in Keys(nested) :: PairsOf(ListUnder(nested, key))
  }

  function PrefixesOf0(nested: seq<(string, seq<(string, seq<string>)>)>): map<string, seq<(string, seq<string>)>> {
    map key | key in Keys(nested) :: ListUnder(nested, key)
  }

  /** The loader the initializer leaves. */
  function Denoted(s: Statics, classMap: map<string, string>): State {
    EMPTY.(lengths := LengthsOf(s.lengths), dirs := PairsOf(s.dirs), fallback := s.fallback,
           prefixes0 := PrefixesOf0(s.prefixes0), fallback0 := s.fallback0, classMap := classMap)
  }

  // ----- the loader that registration gives -------------------------------------------------------------------

  /** `setPsr4` for every entry; nothing when one throws. */
  function Replay4(psr4: TypeMap, st: State): Option<State>
    decreases |psr4|
  {
    if psr4 == [] then Some(st)
    else
      match Replay4(psr4[..|psr4| - 1], st)
      case None => None
      case Some(before) => Psr4Set(before, psr4[|psr4| - 1].0, psr4[|psr4| - 1].1)
  }

  function Replay0(psr0: TypeMap, st: State): State
    decreases |psr0|
  {
    if psr0 == [] then st else Psr0Set(Replay0(psr0[..|psr0| - 1], st), psr0[|psr0| - 1].0, psr0[|psr0| - 1].1)
  }

  function Replayed(psr4: TypeMap, psr0: TypeMap, classMap: map<string, string>): Option<State> {
    match Replay4(psr4, EMPTY)
    case None => None
    case Some(st) => Some(ClassesAdded(Replay0(psr0, st), classMap))
  }

  // ----- compiling keeps the meaning ------------------------------------------------------------------------

  predicate IsAscii(ns: string)
    requires ns != ""
  {
    ns[0] as int < 0x80
  }

  /** A PSR-4 namespace `setPsr4` accepts, keyed by one byte. */
  predicate Good4(ns: string) { ns == "" || (IsNamespace(ns) && IsAscii(ns)) }

  /** A PSR-0 prefix PHP takes for one, keyed by one byte. */
  predicate Good0(ns: string) { ns == "" || (ns != "0" && IsAscii(ns)) }

  predicate AllText(entries: TypeMap) { forall i :: 0 <= i < |entries| ==> IsText(entries[i].0) }

  predicate AllGood4(psr4: TypeMap) { forall i :: 0 <= i < |psr4| ==> Good4(psr4[i].0) }

  predicate AllGood0(psr0: TypeMap) { forall i :: 0 <= i < |psr0| ==> Good0(psr0[i].0) }

  lemma PairsPushed<T>(pairs: seq<(string, T)>, key: string, value: T)
    ensures PairsOf(pairs + [(key, value)]) == PairsOf(pairs)[key := value]
  {
    assert (pairs + [(key, value)])[..|pairs|] == pairs;
  }

  lemma LengthsAt(nested: seq<(string, seq<(string, nat)>)>, key: string)
    ensures key in LengthsOf(nested) <==> LookUp(nested, key).Some?
    ensures key in LengthsOf(nested) ==> LengthsOf(nested)[key] == PairsOf<nat>(LookUp(nested, key).value)
  {
    hide PairsOf;
    KeysAreFound(nested, key);
  }

  function WithLength(lengths: map<string, map<string, nat>>, key: string, ns: string): map<string, map<string, nat>> {
    lengths[key := (if key in lengths then lengths[key] else map[])[ns := |ns|]]
  }

  lemma LengthsPushedAt(nested: seq<(string, seq<(string, nat)>)>, key: string, ns: string, other: string)
    ensures var m, m' := WithLength(LengthsOf(nested), key, ns), LengthsOf(PushUnder<(string, nat)>(nested, key, (ns, |ns|)));
            (other in m <==> other in m') && (other in m ==> m[other] == m'[other])
  {
    var nested' := PushUnder<(string, nat)>(nested, key, (ns, |ns|));
    assert PairsOf<nat>([(ns, |ns|)]) == map[ns := |ns|] by { PairsPushed<nat>([], ns, |ns|); assert [] + [(ns, |ns|)] == [(ns, |ns|)]; }
    hide LengthsOf, PushUnder, LookUp, PairsOf;
    LengthsAt(nested, other);
    LengthsAt(nested', other);
    LookUpPushed<(string, nat)>(nested, key, (ns, |ns|), other);
    if list :| LookUp(nested, key) == Some(list) { PairsPushed<nat>(list, ns, |ns|); }
  }

  lemma LengthsPushed(nested: seq<(string, seq<(string, nat)>)>, ns: string)
    requires ns != "" && IsText(ns)
    ensures LengthsOf(PushUnder<(string, nat)>(nested, FirstChar(ns), (ns, |ns|))) == WithLength(LengthsOf(nested), FirstChar(ns), ns)
  {
    hide *;
    var key := FirstChar(ns);
    var m, m' := WithLength(LengthsOf(nested), key, ns), LengthsOf(PushUnder<(string, nat)>(nested, key, (ns, |ns|)));
    forall other ensures (other in m <==> other in m') && (other in m ==> m[other] == m'[other]) {
      LengthsPushedAt(nested, key, ns, other);
    }
    assert m.Keys == m'.Keys;
  }

  /** With one-byte keys this is the assignment PHP makes. */
  lemma LengthsIndexed(nested: seq<(string, seq<(string, nat)>)>, ns: string)
    requires ns != "" && IsText(ns) && IsAscii(ns)
    ensures LengthsOf(PushUnder<(string, nat)>(nested, FirstChar(ns), (ns, |ns|))) == Indexed(LengthsOf(nested), ns)
  {
    LengthsPushed(nested, ns);
    assert FirstChar(ns) == Letter(ns);
  }

  lemma {:induction false} NoFallbackYet(psr4: TypeMap)
    requires AllText(psr4) && forall i :: 0 <= i < |psr4| ==> psr4[i].0 != ""
    ensures Compiled4(psr4, NOTHING).fallback == []
    decreases |psr4|
  {
    if psr4 != [] { NoFallbackYet(psr4[..|psr4| - 1]); }
  }

  lemma {:induction false} Compiled4IsReplayed(psr4: TypeMap)
    requires AllText(psr4) && AllGood4(psr4) && Distinct(psr4)
    ensures Replay4(psr4, EMPTY).Some?
    ensures var s, st := Compiled4(psr4, NOTHING), Replay4(psr4, EMPTY).value;
            st == EMPTY.(lengths := LengthsOf(s.lengths), dirs := PairsOf(s.dirs), fallback := s.fallback) &&
            s == NOTHING.(lengths := s.lengths, dirs := s.dirs, fallback := s.fallback)
    decreases |psr4|
  {
    if psr4 == [] { return; }
    var before := psr4[..|psr4| - 1];
    var (ns, paths) := psr4[|psr4| - 1];
    Compiled4IsReplayed(before);
    var s := Compiled4(before, NOTHING);
    hide LengthsOf, PairsOf, Indexed, PushUnder;
    if ns == "" {
      NoFallbackYet(before);
    } else {
      assert Good4(ns) && IsText(ns);
      LengthsIndexed(s.lengths, ns);
      PairsPushed(s.dirs, ns, paths);
    }
  }

  predicate HasKey(entries: TypeMap, key: string) { exists i :: 0 <= i < |entries| && entries[i].0 == key }

  /** The entries under a letter come from the map. */
  lemma {:induction false} Compiled0Keys(psr0: TypeMap, s: Statics, letter: string, key: string)
    requires AllText(psr0) && s.prefixes0 == []
    requires HasKey(ListUnder(Compiled0(psr0, s).prefixes0, letter), key)
    ensures HasKey(psr0, key)
    decreases |psr0|
  {
    if psr0 != [] {
      var before := psr0[..|psr0| - 1];
      var (ns, paths) := psr0[|psr0| - 1];
      var nested := Compiled0(before, s).prefixes0;
      if ns != "" { LookUpPushed(nested, FirstChar(ns), (ns, paths), letter); }
      if HasKey(ListUnder(nested, letter), key) {
        Compiled0Keys(before, s, letter, key);
        var i :| 0 <= i < |before| && before[i].0 == key;
        assert psr0[i].0 == key;
      } else {
        OnlyTheNewKey(ListUnder(nested, letter), ns, paths, key);
        assert psr0[|psr0| - 1].0 == key;
      }
    }
  }

  lemma OnlyTheNewKey(entries: TypeMap, ns: string, paths: seq<string>, key: string)
    requires !HasKey(entries, key)
    ensures HasKey(entries + [(ns, paths)], key) ==> key == ns
    ensures HasKey([(ns, paths)], key) ==> key == ns
  {
    var all := entries + [(ns, paths)];
    if HasKey(all, key) {
      var i :| 0 <= i < |all| && all[i].0 == key;
      assert i < |entries| ==> entries[i].0 == key;
    }
  }

  lemma PrefixesPushed(nested: seq<(string, seq<(string, seq<string>)>)>, ns: string, paths: seq<string>)
    requires ns != "" && IsText(ns) && IsAscii(ns) && !HasKey(ListUnder(nested, Letter(ns)), ns)
    ensures PrefixesOf0(PushUnder(nested, FirstChar(ns), (ns, paths))) ==
            PrefixesOf0(nested)[Letter(ns) := Assigned(Under(PrefixesOf0(nested), Letter(ns)), ns, paths)]
  {
    var key := FirstChar(ns);
    assert key == Letter(ns);
    var nested' := PushUnder(nested, key, (ns, paths));
    forall other
      ensures other in Keys(nested') <==> other in Keys(nested) || other == key
      ensures other != key ==> ListUnder(nested', other) == ListUnder(nested, other)
    {
      LookUpPushed(nested, key, (ns, paths), other);
      KeysAreFound(nested, other);
      KeysAreFound(nested', other);
    }
    LookUpPushed(nested, key, (ns, paths), key);
    KeysAreFound(nested, key);
    assert ListUnder(nested', key) == ListUnder(nested, key) + [(ns, paths)];
    assert Under(PrefixesOf0(nested), key) == ListUnder(nested, key);
    AssignedNew(ListUnder(nested, key), ns, paths);
  }

  lemma {:induction false} NoFallback0Yet(psr0: TypeMap, s: Statics)
    requires AllText(psr0) && s.fallback0 == [] && forall i :: 0 <= i < |psr0| ==> psr0[i].0 != ""
    ensures Compiled0(psr0, s).fallback0 == []
    decreases |psr0|
  {
    if psr0 != [] { NoFallback0Yet(psr0[..|psr0| - 1], s); }
  }

  lemma {:induction false} Compiled0IsReplayed(psr0: TypeMap, s: Statics, st: State)
    requires AllText(psr0) && AllGood0(psr0) && Distinct(psr0)
    requires s.prefixes0 == [] && s.fallback0 == [] && st.prefixes0 == map[] && st.fallback0 == []
    ensures var t := Compiled0(psr0, s);
            Replay0(psr0, st) == st.(prefixes0 := PrefixesOf0(t.prefixes0), fallback0 := t.fallback0) &&
            t == s.(prefixes0 := t.prefixes0, fallback0 := t.fallback0)
    decreases |psr0|
  {
    if psr0 == [] { return; }
    var before := psr0[..|psr0| - 1];
    var (ns, paths) := psr0[|psr0| - 1];
    Compiled0IsReplayed(before, s, st);
    var nested := Compiled0(before, s).prefixes0;
    hide PrefixesOf0, PushUnder, Assigned, Under, ListUnder;
    if ns == "" {
      NoFallback0Yet(before, s);
    } else {
      assert Good0(ns) && IsText(ns);
      LastIsNew(psr0);
      if HasKey(ListUnder(nested, Letter(ns)), ns) {
        Compiled0Keys(before, s, Letter(ns), ns);
        assert false;
      }
      PrefixesPushed(nested, ns, paths);
    }
  }

  lemma LastIsNew(entries: TypeMap)
    requires Distinct(entries) && entries != []
    ensures !HasKey(entries[..|entries| - 1], entries[|entries| - 1].0)
  {
  }

  lemma GoodIsPreserved(psr4: TypeMap, psr0: TypeMap, classMap: map<string, string>)
    requires AllText(psr4) && AllText(psr0) && Distinct(psr4) && Distinct(psr0) && AllGood4(psr4) && AllGood0(psr0)
    ensures Replayed(psr4, psr0, classMap) == Some(Denoted(Compiled0(psr0, Compiled4(psr4, NOTHING)), classMap))
  {
    Compiled4IsReplayed(psr4);
    Compiled0IsReplayed(psr0, Compiled4(psr4, NOTHING), Replay4(psr4, EMPTY).value);
    assert map[] + classMap == classMap;
  }

  // ----- and only then ------------------------------------------------------------------------------------------

  /** `setPsr4` throws on a namespace that does not end in a backslash. */
  lemma {:induction false} ReplayThrows(psr4: TypeMap, i: nat)
    requires i < |psr4| && !IsFalsy(psr4[i].0) && !IsNamespace(psr4[i].0)
    ensures Replay4(psr4, EMPTY).None?
    decreases |psr4|
  {
    if i < |psr4| - 1 { ReplayThrows(psr4[..|psr4| - 1], i); }
  }

  lemma {:induction false} ReplayAgrees(psr4: TypeMap)
    ensures Replay4(psr4, EMPTY).Some? ==>
              var st := Replay4(psr4, EMPTY).value; Agree(st.lengths, st.dirs.Keys) && st.prefixes0 == map[]
    decreases |psr4|
  {
    hide Agree;
    if psr4 == [] {
      assert Agree(map[], {}) by { EmptyAgrees(); }
      assert EMPTY.dirs.Keys == {};
    } else {
      ReplayAgrees(psr4[..|psr4| - 1]);
      if Replay4(psr4[..|psr4| - 1], EMPTY).Some? {
        SetPsr4Agrees(Replay4(psr4[..|psr4| - 1], EMPTY).value, psr4[|psr4| - 1].0, psr4[|psr4| - 1].1);
      }
    }
  }

  lemma EmptyAgrees()
    ensures Agree(map[], {})
  {
  }

  lemma {:induction false} PairIsThere<T>(pairs: seq<(string, T)>, i: nat)
    requires i < |pairs|
    ensures pairs[i].0 in PairsOf(pairs)
    decreases |pairs|
  {
    if i < |pairs| - 1 { PairIsThere(pairs[..|pairs| - 1], i); }
  }

  /** Every entry is compiled, under its first character. */
  lemma {:induction false} CompiledEntry4(psr4: TypeMap, i: nat)
    requires AllText(psr4) && i < |psr4| && psr4[i].0 != ""
    ensures var lengths := LengthsOf(Compiled4(psr4, NOTHING).lengths);
            FirstChar(psr4[i].0) in lengths && psr4[i].0 in lengths[FirstChar(psr4[i].0)]
    decreases |psr4|
  {
    var before := psr4[..|psr4| - 1];
    var (ns, paths) := psr4[|psr4| - 1];
    if i < |psr4| - 1 { CompiledEntry4(before, i); }
    hide LengthsOf;
    if ns != "" { LengthsPushed(Compiled4(before, NOTHING).lengths, ns); }
  }

  lemma Bad4IsSeen(psr4: TypeMap, st: State, i: nat)
    requires AllText(psr4) && i < |psr4| && !Good4(psr4[i].0)
    requires Replay4(psr4, EMPTY).Some? && st.lengths == Replay4(psr4, EMPTY).value.lengths
    ensures LengthsOf(Compiled4(psr4, NOTHING).lengths) != st.lengths
  {
    hide *;
    var ns := psr4[i].0;
    TextAt(psr4, i);
    BadIsMisplaced(ns);
    var first := FirstChar(ns);
    if !IsFalsy(ns) && !IsNamespace(ns) { ReplayThrows(psr4, i); }
    ReplayAgrees(psr4);
    CompiledEntry4(psr4, i);
    KnownPrefixes(Replay4(psr4, EMPTY).value, first, ns);
  }

  lemma TextAt(entries: TypeMap, i: nat)
    requires AllText(entries) && i < |entries|
    ensures IsText(entries[i].0)
  {
  }

  /** A bad namespace is no namespace, or its first character is longer than its first byte. */
  lemma BadIsMisplaced(ns: string)
    requires !Good4(ns) && IsText(ns)
    ensures ns != "" && (IsNamespace(ns) ==> FirstChar(ns) != ns[..1])
  {
  }

  /** What an agreeing length index holds. */
  lemma KnownPrefixes(st: State, letter: string, prefix: string)
    requires Agree(st.lengths, st.dirs.Keys)
    ensures letter in st.lengths && prefix in st.lengths[letter] ==> IsNamespace(prefix) && letter == prefix[..1]
  {
  }

  /** PSR-0 prefixes are not empty, and stand under their first byte. */
  predicate Keyed(prefixes0: map<string, TypeMap>) {
    forall letter :: letter in prefixes0 ==>
      forall i :: 0 <= i < |prefixes0[letter]| ==> KeyedBy(letter, prefixes0[letter][i].0)
  }

  predicate KeyedBy(letter: string, key: string) { !IsFalsy(key) && letter == key[..1] }

  lemma {:induction false} AssignedKeys(entries: TypeMap, key: string, dirs: seq<string>)
    ensures forall i :: 0 <= i < |Assigned(entries, key, dirs)| ==>
              HasKey(entries, Assigned(entries, key, dirs)[i].0) || Assigned(entries, key, dirs)[i].0 == key
  {
    var all := Assigned(entries, key, dirs);
    if entries != [] && entries[0].0 != key {
      AssignedKeys(entries[1..], key, dirs);
      var rest := Assigned(entries[1..], key, dirs);
      forall i | 0 <= i < |all| ensures HasKey(entries, all[i].0) || all[i].0 == key {
        if i == 0 {
          assert entries[0].0 == all[0].0;
        } else {
          assert all[i] == rest[i - 1];
          if HasKey(entries[1..], rest[i - 1].0) {
            var j :| 0 <= j < |entries[1..]| && entries[1..][j].0 == rest[i - 1].0;
            assert entries[j + 1].0 == all[i].0;
          }
        }
      }
    } else if entries != [] {
      forall i | 0 <= i < |all| ensures HasKey(entries, all[i].0) || all[i].0 == key {
        if i > 0 { assert entries[i].0 == all[i].0; }
      }
    }
  }

  lemma {:induction false} ReplayIsKeyed(psr0: TypeMap, st: State)
    requires Keyed(st.prefixes0)
    ensures Keyed(Replay0(psr0, st).prefixes0) && Replay0(psr0, st).lengths == st.lengths
    decreases |psr0|
  {
    if psr0 != [] {
      var before := psr0[..|psr0| - 1];
      var (ns, paths) := psr0[|psr0| - 1];
      ReplayIsKeyed(before, st);
      var p := Replay0(before, st).prefixes0;
      hide Assigned;
      if !IsFalsy(ns) {
        AssignedKeys(Under(p, Letter(ns)), ns, paths);
        var all := Assigned(Under(p, Letter(ns)), ns, paths);
        forall i | 0 <= i < |all| ensures KeyedBy(Letter(ns), all[i].0) {
          if HasKey(Under(p, Letter(ns)), all[i].0) && all[i].0 != ns {
            var j :| 0 <= j < |Under(p, Letter(ns))| && Under(p, Letter(ns))[j].0 == all[i].0;
            assert KeyedBy(Letter(ns), p[Letter(ns)][j].0);
          }
        }
      }
    }
  }

  lemma {:induction false} CompiledEntry0(psr0: TypeMap, s: Statics, i: nat)
    requires AllText(psr0) && i < |psr0| && psr0[i].0 != ""
    ensures HasKey(ListUnder(Compiled0(psr0, s).prefixes0, FirstChar(psr0[i].0)), psr0[i].0)
    decreases |psr0|
  {
    var before := psr0[..|psr0| - 1];
    var (ns, paths) := psr0[|psr0| - 1];
    var nested := Compiled0(before, s).prefixes0;
    var first := FirstChar(psr0[i].0);
    if ns != "" { LookUpPushed(nested, FirstChar(ns), (ns, paths), first); }
    var list, list' := ListUnder(nested, first), ListUnder(Compiled0(psr0, s).prefixes0, first);
    if i < |psr0| - 1 {
      CompiledEntry0(before, s, i);
      var j :| 0 <= j < |list| && list[j].0 == psr0[i].0;
      assert list'[j].0 == psr0[i].0;
    } else {
      assert list'[|list'| - 1].0 == psr0[i].0;
    }
  }

  lemma Bad0IsSeen(psr0: TypeMap, s: Statics, st: State, i: nat)
    requires AllText(psr0) && i < |psr0| && !Good0(psr0[i].0) && Keyed(st.prefixes0)
    ensures PrefixesOf0(Compiled0(psr0, s).prefixes0) != Replay0(psr0, st).prefixes0
  {
    var ns := psr0[i].0;
    var first := FirstChar(ns);
    hide Compiled0, Keyed;
    CompiledEntry0(psr0, s, i);
    ReplayIsKeyed(psr0, st);
    var nested := Compiled0(psr0, s).prefixes0;
    KeysAreFound(nested, first);
    var p: map<string, TypeMap> := PrefixesOf0(nested);
    var j :| 0 <= j < |ListUnder(nested, first)| && ListUnder(nested, first)[j].0 == ns;
    assert p[first][j].0 == ns;
    KeyedAt(Replay0(psr0, st).prefixes0, first, j);
  }

  lemma KeyedAt(prefixes0: map<string, TypeMap>, letter: string, j: nat)
    requires Keyed(prefixes0)
    ensures letter in prefixes0 && j < |prefixes0[letter]| ==> KeyedBy(letter, prefixes0[letter][j].0)
  {
  }

  /** The compiled file leaves the loader that registering the same maps would leave: for exactly
      those maps whose PSR-4 namespaces end in a backslash, whose prefixes begin with a one-byte
      character, and none of whose PSR-0 prefixes is `0`. */
  lemma CompilesWhatIsRegistered(psr4: TypeMap, psr0: TypeMap, classMap: map<string, string>)
    requires AllText(psr4) && AllText(psr0) && Distinct(psr4) && Distinct(psr0)
    ensures Replayed(psr4, psr0, classMap) == Some(Denoted(Compiled0(psr0, Compiled4(psr4, NOTHING)), classMap)) <==>
            AllGood4(psr4) && AllGood0(psr0)
  {
    if AllGood4(psr4) && AllGood0(psr0) {
      GoodIsPreserved(psr4, psr0, classMap);
    } else if Replay4(psr4, EMPTY).Some? {
      var st := Replay4(psr4, EMPTY).value;
      ReplayAgrees(psr4);
      ReplayIsKeyed(psr0, st);
      LengthsAreCompiled4(psr0, Compiled4(psr4, NOTHING));
      if !AllGood4(psr4) {
        var i :| 0 <= i < |psr4| && !Good4(psr4[i].0);
        Bad4IsSeen(psr4, st, i);
      } else {
        var i :| 0 <= i < |psr0| && !Good0(psr0[i].0);
        Bad0IsSeen(psr0, Compiled4(psr4, NOTHING), st, i);
      }
    }
  }

  lemma {:induction false} LengthsAreCompiled4(psr0: TypeMap, s: Statics)
    requires AllText(psr0)
    ensures Compiled0(psr0, s).lengths == s.lengths
    decreases |psr0|
  {
    if psr0 != [] { LengthsAreCompiled4(psr0[..|psr0| - 1], s); }
  }

  /** So every class is found in the same file, in every world. */
  lemma SameAnswers(psr4: TypeMap, psr0: TypeMap, classMap: map<string, string>, name: string, world: World)
    requires AllText(psr4) && AllText(psr0) && Distinct(psr4) && Distinct(psr0) && AllGood4(psr4) && AllGood0(psr0)
    ensures Replayed(psr4, psr0, classMap).Some?
    ensures Answer(Denoted(Compiled0(psr0, Compiled4(psr4, NOTHING)), classMap), name, world) ==
            Answer(Replayed(psr4, psr0, classMap).value, name, world)
  {
    GoodIsPreserved(psr4, psr0, classMap);
  }

  // ----- and only then, seen from the lookups ---------------------------------------------------------------

  /** Registering does not throw, and every class is found in the same file in every world. */
  ghost predicate SameEverywhere(psr4: TypeMap, psr0: TypeMap)
    requires AllText(psr4) && AllText(psr0)
  {
    Replayed(psr4, psr0, map[]).Some? &&
    forall name, world :: Answer(Denoted(Compiled0(psr0, Compiled4(psr4, NOTHING)), map[]), name, world) ==
                          Answer(Replayed(psr4, psr0, map[]).value, name, world)
  }

  lemma GoodIsSameEverywhere(psr4: TypeMap, psr0: TypeMap)
    requires AllText(psr4) && AllText(psr0) && Distinct(psr4) && Distinct(psr0) && AllGood4(psr4) && AllGood0(psr0)
    ensures SameEverywhere(psr4, psr0)
  {
    GoodIsPreserved(psr4, psr0, map[]);
  }

  /** A world where every file is there. */
  const EVERY_FILE := World(_ => true, _ => None, false)

  lemma FoundOrNot(st: State, name: string)
    requires st.classMap == map[] && !st.authoritative && !st.useIncludePath
    ensures Answer(st, name, EVERY_FILE).None? <==> Candidates(st, name, ".php") == []
  {
    hide Candidates;
  }

  lemma NothingToTry(st: State, name: string, ext: string)
    requires name != "" && Letter(name) !in st.lengths && Letter(name) !in st.prefixes0
    requires st.fallback == [] && st.fallback0 == []
    ensures Candidates(st, name, ext) == []
  {
    hide Tail, Psr0Path;
  }

  lemma LastBackslash(ns: string)
    requires IsNamespace(ns)
    ensures Text.LastIndex((ns + "A")[..|ns| + 1], '\\') == Some(|ns| - 1)
  {
    assert (ns + "A")[..|ns| + 1] == ns + "A" && (ns + "A")[..|ns|] == ns;
  }

  lemma OneCompiled4(ns: string, dir: string)
    requires IsText(ns) && ns != ""
    ensures Denoted(Compiled0([], Compiled4([(ns, [dir])], NOTHING)), map[]) ==
            EMPTY.(lengths := map[FirstChar(ns) := map[ns := |ns|]], dirs := map[ns := [dir]])
  {
    var list: TypeMap := [(ns, [dir])];
    assert list[..0] == [];
    var under: seq<(string, nat)> := [(ns, |ns|)];
    var s := NOTHING.(lengths := [(FirstChar(ns), under)], dirs := list);
    assert Compiled4(list, NOTHING) == s;
    assert PairsOf(list) == map[ns := [dir]];
    assert under[..0] == [] && PairsOf<nat>(under) == map[ns := |ns|];
    assert s.lengths[0].0 == FirstChar(ns) && Keys(s.lengths) == {FirstChar(ns)};
    assert LengthsOf(s.lengths) == map[FirstChar(ns) := map[ns := |ns|]];
    assert PrefixesOf0([]) == map[];
  }

  lemma OneReplayed4(ns: string, dir: string)
    requires ns != ""
    ensures Replayed([(ns, [dir])], [], map[]) ==
            if ns == "0" then Some(EMPTY.(fallback := [dir]))
            else if IsNamespace(ns) then Some(EMPTY.(lengths := map[Letter(ns) := map[ns := |ns|]], dirs := map[ns := [dir]]))
            else None
  {
    var list: TypeMap := [(ns, [dir])];
    assert list[..0] == [];
    assert Replay4(list, EMPTY) == Psr4Set(EMPTY, ns, [dir]);
    var none: map<string, string> := map[];
    assert none + none == none;
  }

  /** A PSR-4 namespace alone is compiled into a loader with the same answers exactly when it ends in
      a backslash and begins with a one-byte character. */
  lemma OneNamespace(ns: string, dir: string)
    requires IsText(ns)
    ensures SameEverywhere([(ns, [dir])], []) <==> Good4(ns)
  {
    var psr4: TypeMap := [(ns, [dir])];
    if Good4(ns) {
      GoodIsSameEverywhere(psr4, []);
    } else if Replayed(psr4, [], map[]).Some? {
      OneCompiled4(ns, dir);
      OneReplayed4(ns, dir);
      var compiled, replayed := Denoted(Compiled0([], Compiled4(psr4, NOTHING)), map[]), Replayed(psr4, [], map[]).value;
      var name := if ns == "0" then "A" else ns + "A";
      assert Letter(name) != FirstChar(ns);
      hide Denoted, Compiled0, Compiled4, Replayed, Answer, CachedAnswer, Candidates, FirstChar;
      NothingToTry(compiled, name, ".php");
      TriesSomething4(replayed, ns, dir, name);
      FoundOrNot(compiled, name);
      FoundOrNot(replayed, name);
    }
  }

  lemma TriesSomething4(st: State, ns: string, dir: string, name: string)
    requires (ns == "0" && name == "A" && st.fallback == [dir]) ||
             (IsNamespace(ns) && name == ns + "A" && Letter(ns) in st.lengths && ns in st.dirs && st.dirs[ns] == [dir])
    ensures Candidates(st, name, ".php") != []
  {
    if IsNamespace(ns) {
      LastBackslash(ns);
      assert (ns + "A")[..|ns|] == ns && ns <= name && name[..|name|] == name;
      assert FilesOf(st, name, ".php", ns) != [];
      assert ChoppedFiles(st, name, ".php", |name|) != [];
      assert GuardedFiles(st, name, ".php") != [];
    } else {
      assert InDirs(st.fallback, Tail(name, ".php", 0)) != [];
    }
  }

  lemma OneCompiled0(ns: string, dir: string)
    requires IsText(ns) && ns != ""
    ensures Denoted(Compiled0([(ns, [dir])], Compiled4([], NOTHING)), map[]) ==
            EMPTY.(prefixes0 := map[FirstChar(ns) := [(ns, [dir])]])
  {
    var list: TypeMap := [(ns, [dir])];
    assert list[..0] == [];
    var s := NOTHING.(prefixes0 := [(FirstChar(ns), list)]);
    assert Compiled0(list, NOTHING) == s;
    assert s.prefixes0[0].0 == FirstChar(ns) && Keys(s.prefixes0) == {FirstChar(ns)};
    assert PrefixesOf0(s.prefixes0) == map[FirstChar(ns) := list];
    assert LengthsOf([]) == map[];
  }

  lemma OneReplayed0(ns: string, dir: string)
    requires ns != ""
    ensures Replayed([], [(ns, [dir])], map[]) ==
            Some(if ns == "0" then EMPTY.(fallback0 := [dir]) else EMPTY.(prefixes0 := map[Letter(ns) := [(ns, [dir])]]))
  {
    var list: TypeMap := [(ns, [dir])];
    assert list[..0] == [];
    assert Replay0(list, EMPTY) == Psr0Set(EMPTY, ns, [dir]);
    var none: map<string, string> := map[];
    assert none + none == none;
  }

  /** A PSR-0 prefix alone is, exactly when it is not `0` and begins with a one-byte character. */
  lemma OnePrefix(ns: string, dir: string)
    requires IsText(ns)
    ensures SameEverywhere([], [(ns, [dir])]) <==> Good0(ns)
  {
    var psr0: TypeMap := [(ns, [dir])];
    if Good0(ns) {
      GoodIsSameEverywhere([], psr0);
    } else {
      OneCompiled0(ns, dir);
      OneReplayed0(ns, dir);
      var compiled, replayed := Denoted(Compiled0(psr0, Compiled4([], NOTHING)), map[]), Replayed([], psr0, map[]).value;
      var name := if ns == "0" then "A" else ns;
      hide Denoted, Compiled0, Compiled4, Replayed;
      assert Letter(name) != FirstChar(ns);
      NothingToTry(compiled, name, ".php");
      TriesSomething0(replayed, ns, dir, name);
      FoundOrNot(compiled, name);
      FoundOrNot(replayed, name);
    }
  }

  lemma TriesSomething0(st: State, ns: string, dir: string, name: string)
    requires (ns == "0" && name == "A" && st.fallback0 == [dir]) ||
             (ns != "" && name == ns && Letter(ns) in st.prefixes0 && st.prefixes0[Letter(ns)] == [(ns, [dir])])
    ensures Candidates(st, name, ".php") != []
  {
    var path := Psr0Path(name, ".php");
    if st.fallback0 == [dir] {
      assert InDirs([dir], path) != [];
    } else {
      assert InDirs([dir], path) != [];
      assert MatchingFiles([(ns, [dir])], name, path) != [];
      assert Psr0Files(st, name, ".php") != [];
    }
  }

  // ----- PSR-0, the longest prefix first ----------------------------------------------------------------------

  /** Compiled from a descending map, the entries under a letter are descending too. */
  lemma {:induction false} StaysDescending(psr0: TypeMap, s: Statics, letter: string)
    requires AllText(psr0) && Descending(psr0) && s.prefixes0 == []
    ensures Descending(ListUnder(Compiled0(psr0, s).prefixes0, letter))
    decreases |psr0|
  {
    if psr0 == [] { return; }
    var before := psr0[..|psr0| - 1];
    var (ns, paths) := psr0[|psr0| - 1];
    StaysDescending(before, s, letter);
    if ns == "" { return; }
    var nested := Compiled0(before, s).prefixes0;
    LookUpPushed(nested, FirstChar(ns), (ns, paths), letter);
    var list := ListUnder(nested, letter);
    hide Above;
    forall i | 0 <= i < |list| ensures Above(list[i].0, ns) {
      Compiled0Keys(before, s, letter, list[i].0);
      var j :| 0 <= j < |before| && before[j].0 == list[i].0;
      assert Above(psr0[j].0, psr0[|psr0| - 1].0);
    }
  }

  /** Of two PSR-0 prefixes of a class, the loader tries the longer one first. */
  lemma Psr0LongestFirst(psr4: TypeMap, psr0: TypeMap, name: string, letter: string, i: nat, j: nat)
    requires AllText(psr4) && AllText(psr0) && Descending(psr0)
    requires var list := ListUnder(Compiled0(psr0, Compiled4(psr4, NOTHING)).prefixes0, letter);
             i < |list| && j < |list| && i != j && list[i].0 <= name && list[j].0 <= name
    ensures var list := ListUnder(Compiled0(psr0, Compiled4(psr4, NOTHING)).prefixes0, letter);
            i < j <==> |list[j].0| < |list[i].0|
  {
    hide Compiled0, Compiled4, Descending;
    NoPrefixes0(psr4);
    StaysDescending(psr0, Compiled4(psr4, NOTHING), letter);
    LongestPrefixFirst(ListUnder(Compiled0(psr0, Compiled4(psr4, NOTHING)).prefixes0, letter), name, i, j);
  }

  lemma {:induction false} NoPrefixes0(psr4: TypeMap)
    requires AllText(psr4)
    ensures Compiled4(psr4, NOTHING).prefixes0 == []
    decreases |psr4|
  {
    if psr4 != [] { NoPrefixes0(psr4[..|psr4| - 1]); }
  }
}
