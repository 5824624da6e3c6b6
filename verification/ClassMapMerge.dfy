/** Scanning and merging class maps (classmap.rs `Scanner`, generator.rs job loop): files are
    read or served from the cache in any state, and merged in job order, first one wins. */
module ClassMapMerge {
  import opened Common
  import Cache = ClassMapCache
  import Text

  type Bytes = Cache.Bytes

  datatype Rule = ClassMapRule | Psr0 | Psr4

  /** One file as the merge sees it: both paths, the classes found, and whether the exclusion
      pattern of its job matches one of the paths. */
  datatype Item = Item(path: Bytes, canonical: Bytes, classes: seq<Bytes>, excluded: bool,
                       rule: Rule, ns: Bytes, base: Bytes)

  // ----- the PSR filter -------------------------------------------------------------------

  const BACKSLASH: Byte := 92
  const UNDERSCORE: Byte := 95
  const SLASH: Byte := 47
  const DOT: Byte := 46

  function MapSep(s: Bytes, from: Byte): Bytes {
    seq(|s|, i requires 0 <= i < |s| => if s[i] == from then SLASH else s[i])
  }

  /** Path of a file below the base directory, without its extension. */
  function SubPath(path: Bytes, base: Bytes): Bytes {
    var sub := if |base| + 1 <= |path| then path[|base| + 1..] else [];
    match Text.LastIndex(sub, DOT)
    case Some(p) => sub[..p]
    case None => sub
  }

  /** Is the class where its rule says it should be? */
  predicate Complies(item: Item, class_: Bytes) {
    var sub := SubPath(item.path, item.base);
    match item.rule
    case ClassMapRule => true
    case Psr0 =>
      && (item.ns == [] || item.ns <= class_)
      && sub == (match Text.LastIndex(class_, BACKSLASH)
                 case Some(p) => MapSep(class_[..p + 1], BACKSLASH) + MapSep(class_[p + 1..], UNDERSCORE)
                 case None => MapSep(class_, UNDERSCORE))
    case Psr4 =>
      sub == MapSep(if |item.ns| <= |class_| then class_[|item.ns|..] else [], BACKSLASH)
  }

  function Keep(item: Item, classes: seq<Bytes>, compliant: bool): seq<Bytes> {
    if classes == [] then []
    else
      var last := classes[|classes| - 1];
      Keep(item, classes[..|classes| - 1], compliant) + (if Complies(item, last) == compliant then [last] else [])
  }

  /** The classes an item brings, if the item counts at all. */
  function Valid(item: Item): seq<Bytes> { Keep(item, item.classes, true) }

  // ----- what survives --------------------------------------------------------------------

  /** Not excluded, and not emptied by the PSR filter. Nothing here depends on other items. */
  predicate Eligible(item: Item) {
    !item.excluded && (item.rule.ClassMapRule? || Valid(item) != [])
  }

  /** No earlier eligible item is the same file. */
  predicate FreshAt(items: seq<Item>, i: nat)
    requires i < |items|
  {
    forall j :: 0 <= j < i && Eligible(items[j]) ==> items[j].canonical != items[i].canonical
  }

  datatype Occurrence = Occurrence(class_: Bytes, path: Bytes)

  function Tag(classes: seq<Bytes>, path: Bytes): (r: seq<Occurrence>)
    ensures |r| == |classes| && forall k :: 0 <= k < |r| ==> r[k] == Occurrence(classes[k], path)
  {
    seq(|classes|, k requires 0 <= k < |classes| => Occurrence(classes[k], path))
  }

  /** The surviving occurrences of the last item. */
  function LastOccurrences(items: seq<Item>): seq<Occurrence>
    requires items != []
  {
    var n := |items| - 1;
    if Eligible(items[n]) && FreshAt(items, n) then Tag(Valid(items[n]), items[n].path) else []
  }

  function Occurrences(items: seq<Item>): seq<Occurrence> {
    if items == [] then [] else Occurrences(items[..|items| - 1]) + LastOccurrences(items)
  }

  /** Files emptied by the PSR filter report their classes. */
  function LastViolations(items: seq<Item>): seq<Occurrence>
    requires items != []
  {
    var n := |items| - 1;
    var item := items[n];
    if FreshAt(items, n) && !item.excluded && !item.rule.ClassMapRule? && Valid(item) == []
    then Tag(Keep(item, item.classes, false), item.path) else []
  }

  function Violations(items: seq<Item>): seq<Occurrence> {
    if items == [] then [] else Violations(items[..|items| - 1]) + LastViolations(items)
  }

  /** The paths of the occurrences of `c` that are not at `path`, in order. */
  function Others(occ: seq<Occurrence>, c: Bytes, path: Bytes): seq<Bytes> {
    if occ == [] then []
    else
      var o := occ[|occ| - 1];
      Others(occ[..|occ| - 1], c, path) + (if o.class_ == c && o.path != path then [o.path] else [])
  }

  predicate IsFirst(occ: seq<Occurrence>, k: nat)
    requires k < |occ|
  {
    forall j :: 0 <= j < k ==> occ[j].class_ != occ[k].class_
  }

  predicate Occurs(occ: seq<Occurrence>, c: Bytes) {
    exists k :: 0 <= k < |occ| && occ[k].class_ == c
  }

  /** Each class is at its first occurrence. */
  ghost predicate Winners(occ: seq<Occurrence>, classes: map<Bytes, Bytes>) {
    && (forall c :: c in classes <==> Occurs(occ, c))
    && (forall k :: 0 <= k < |occ| && IsFirst(occ, k) ==> occ[k].class_ in classes && classes[occ[k].class_] == occ[k].path)
  }

  /** The later occurrences elsewhere are its ambiguities. */
  ghost predicate Conflicts(occ: seq<Occurrence>, classes: map<Bytes, Bytes>, ambiguous: map<Bytes, seq<Bytes>>) {
    && (forall c :: c in ambiguous ==> c in classes && ambiguous[c] != [])
    && (forall c :: c in classes ==> Ambiguities(ambiguous, c) == Others(occ, c, classes[c]))
  }

  ghost predicate Describes(occ: seq<Occurrence>, classes: map<Bytes, Bytes>, ambiguous: map<Bytes, seq<Bytes>>) {
    Winners(occ, classes) && Conflicts(occ, classes, ambiguous)
  }

  function Ambiguities(ambiguous: map<Bytes, seq<Bytes>>, c: Bytes): seq<Bytes> {
    if c in ambiguous then ambiguous[c] else []
  }

  /** The two maps are functions of the occurrences. */
  lemma DescriptionIsUnique(occ: seq<Occurrence>, m: map<Bytes, Bytes>, a: map<Bytes, seq<Bytes>>,
                            m': map<Bytes, Bytes>, a': map<Bytes, seq<Bytes>>)
    requires Describes(occ, m, a) && Describes(occ, m', a')
    ensures m == m' && a == a'
  {
    SameWinners(occ, m, a, m', a');
    forall c | c in a || c in a'
      ensures c in a && c in a' && a[c] == a'[c]
    {
      assert Ambiguities(a, c) == Others(occ, c, m[c]) == Ambiguities(a', c);
    }
  }

  lemma SameWinners(occ: seq<Occurrence>, m: map<Bytes, Bytes>, a: map<Bytes, seq<Bytes>>,
                    m': map<Bytes, Bytes>, a': map<Bytes, seq<Bytes>>)
    requires Describes(occ, m, a) && Describes(occ, m', a')
    ensures m == m'
  {
    forall c
      ensures c in m <==> c in m'
    {
      assert c in m <==> Occurs(occ, c);
    }
    forall c | c in m
      ensures m[c] == m'[c]
    {
      assert Occurs(occ, c);
      var k := FirstOccurrence(occ, c);
      assert occ[k].class_ == c;
    }
  }

  lemma FirstOccurrence(occ: seq<Occurrence>, c: Bytes) returns (k: nat)
    requires Occurs(occ, c)
    ensures k < |occ| && occ[k].class_ == c && IsFirst(occ, k)
  {
    k := 0;
    while occ[k].class_ != c
      invariant k < |occ| && forall j :: 0 <= j < k ==> occ[j].class_ != c
      invariant Occurs(occ, c)
      decreases |occ| - k
    {
      var w :| 0 <= w < |occ| && occ[w].class_ == c;
      assert w > k;
      k := k + 1;
    }
  }

  // ----- the merge ------------------------------------------------------------------------

  class Scanner {
    var scanned: set<Bytes>
    var classes: map<Bytes, Bytes>
    var ambiguous: map<Bytes, seq<Bytes>>
    var violations: seq<Occurrence>

    /** The state after merging `items`. */
    ghost predicate Merged(items: seq<Item>)
      reads this
    {
      && scanned == Scanned(items)
      && Describes(Occurrences(items), classes, ambiguous)
      && violations == Violations(items)
    }

    constructor ()
      ensures Merged([])
    {
      scanned, classes, ambiguous, violations := {}, map[], map[], [];
    }

    /** One class of a surviving file. */
    method AddOccurrence(o: Occurrence, ghost occ: seq<Occurrence>)
      requires Describes(occ, classes, ambiguous)
      modifies this`classes, this`ambiguous
      ensures Describes(occ + [o], classes, ambiguous)
    {
      ghost var m, a := classes, ambiguous;
      if o.class_ in classes {
        if classes[o.class_] != o.path {
          ambiguous := ambiguous[o.class_ := Ambiguities(ambiguous, o.class_) + [o.path]];
        }
      } else {
        classes := classes[o.class_ := o.path];
      }
      OneMoreOccurrence(occ, o, m, a, classes, ambiguous);
    }

    /** `filter_by_namespace`: the compliant classes, or none of them and a violation for each. */
    method FilterByNamespace(item: Item) returns (valid: seq<Bytes>)
      modifies this`violations
      ensures valid == Valid(item)
      ensures violations == old(violations) + if valid == [] then Tag(Keep(item, item.classes, false), item.path) else []
    {
      valid := [];
      var rejected := [];
      for k := 0 to |item.classes|
        invariant valid == Keep(item, item.classes[..k], true)
        invariant rejected == Keep(item, item.classes[..k], false)
      {
        assert item.classes[..k + 1][..k] == item.classes[..k];
        if Complies(item, item.classes[k]) {
          valid := valid + [item.classes[k]];
        } else {
          rejected := rejected + [item.classes[k]];
        }
      }
      assert item.classes[..|item.classes|] == item.classes;
      if valid == [] {
        violations := violations + Tag(rejected, item.path);
      }
    }

    /** The classes of a surviving file, in order. */
    method AddClasses(found: seq<Bytes>, path: Bytes, ghost occ: seq<Occurrence>)
      requires Describes(occ, classes, ambiguous)
      modifies this`classes, this`ambiguous
      ensures Describes(occ + Tag(found, path), classes, ambiguous)
    {
      hide Describes;
      ghost var now := occ;
      for k := 0 to |found|
        invariant now == occ + Tag(found, path)[..k]
        invariant Describes(now, classes, ambiguous)
      {
        var o := Occurrence(found[k], path);
        AddOccurrence(o, now);
        now := now + [o];
      }
      assert now == occ + Tag(found, path);
    }

    /** Deduplication, exclusion and PSR filter: the classes of the file, if it survives. */
    method Admit(item: Item, ghost items: seq<Item>) returns (found: Option<seq<Bytes>>)
      requires scanned == Scanned(items) && violations == Violations(items)
      modifies this`scanned, this`violations
      ensures scanned == Scanned(items + [item]) && violations == Violations(items + [item])
      ensures Occurrences(items + [item]) ==
              Occurrences(items) + if found.Some? then Tag(found.value, item.path) else []
    {
      FreshIsUnscanned(items, item, scanned);
      OneMoreItem(items, item);
      if item.canonical in scanned || item.excluded { return None; }
      if item.rule.ClassMapRule? {
        AllComply(item, item.classes);
        scanned := scanned + {item.canonical};
        return Some(item.classes);
      }
      var valid := FilterByNamespace(item);
      if valid != [] {
        scanned := scanned + {item.canonical};
      }
      found := Some(valid);
    }

    /** The body of `merge_scanned`: one file. */
    method MergeItem(item: Item, ghost items: seq<Item>)
      requires Merged(items)
      modifies this
      ensures Merged(items + [item])
    {
      var found := Admit(item, items);
      if found.Some? {
        AddClasses(found.value, item.path, Occurrences(items));
      } else {
        assert Occurrences(items + [item]) == Occurrences(items);
      }
    }

    /** `merge_scanned`, in walk order. */
    method MergeScanned(job: seq<Item>, ghost items: seq<Item>)
      requires Merged(items)
      modifies this
      ensures Merged(items + job)
    {
      StartAndEnd(items, job);
      for k := 0 to |job|
        invariant Merged(UpTo(items, job, k))
      {
        NextUp(items, job, k);
        MergeItem(job[k], UpTo(items, job, k));
      }
    }
  }

  ghost function UpTo(items: seq<Item>, job: seq<Item>, k: nat): seq<Item>
    requires k <= |job|
  {
    items + job[..k]
  }

  lemma StartAndEnd(items: seq<Item>, job: seq<Item>)
    ensures UpTo(items, job, 0) == items && UpTo(items, job, |job|) == items + job
  {
  }

  lemma NextUp(items: seq<Item>, job: seq<Item>, k: nat)
    requires k < |job|
    ensures UpTo(items, job, k + 1) == UpTo(items, job, k) + [job[k]]
  {
  }

  /** What one more file adds to each part of the state. */
  lemma OneMoreItem(items: seq<Item>, item: Item)
    ensures var more := items + [item];
            var isNew := FreshAt(more, |items|);
            && Scanned(more) == Scanned(items) + (if Eligible(item) then {item.canonical} else {})
            && Occurrences(more) == Occurrences(items)
                 + (if Eligible(item) && isNew then Tag(Valid(item), item.path) else [])
            && Violations(more) == Violations(items)
                 + (if isNew && !item.excluded && !item.rule.ClassMapRule? && Valid(item) == []
                    then Tag(Keep(item, item.classes, false), item.path) else [])
  {
    var more := items + [item];
    assert more[..|items|] == items && more[|items|] == item;
    ScannedGrows(items, item);
  }

  ghost function Scanned(items: seq<Item>): set<Bytes> {
    set i | 0 <= i < |items| && Eligible(items[i]) :: items[i].canonical
  }

  lemma FreshIsUnscanned(items: seq<Item>, item: Item, scanned: set<Bytes>)
    requires scanned == Scanned(items)
    ensures FreshAt(items + [item], |items|) <==> item.canonical !in scanned
  {
    var more := items + [item];
    if item.canonical in scanned {
      var j :| 0 <= j < |items| && Eligible(items[j]) && items[j].canonical == item.canonical;
      assert more[j] == items[j];
    } else {
      forall j | 0 <= j < |items| && Eligible(more[j])
        ensures more[j].canonical != item.canonical
      {
        assert more[j] == items[j];
      }
    }
  }

  lemma ScannedGrows(items: seq<Item>, item: Item)
    ensures Scanned(items + [item]) == Scanned(items) + if Eligible(item) then {item.canonical} else {}
  {
    var more := items + [item];
    forall c
      ensures c in Scanned(more) <==> c in Scanned(items) || (Eligible(item) && c == item.canonical)
    {
      if c in Scanned(items) {
        var i :| 0 <= i < |items| && Eligible(items[i]) && items[i].canonical == c;
        assert more[i] == items[i];
      }
      if Eligible(item) { assert more[|items|] == item; }
    }
  }

  lemma {:induction false} AllComply(item: Item, classes: seq<Bytes>)
    requires item.rule.ClassMapRule?
    ensures Keep(item, classes, true) == classes
  {
    if classes != [] {
      AllComply(item, classes[..|classes| - 1]);
      assert classes == classes[..|classes| - 1] + [classes[|classes| - 1]];
    }
  }

  lemma OneMoreOccurrence(occ: seq<Occurrence>, o: Occurrence, m: map<Bytes, Bytes>, a: map<Bytes, seq<Bytes>>,
                          m': map<Bytes, Bytes>, a': map<Bytes, seq<Bytes>>)
    requires Describes(occ, m, a)
    requires m' == if o.class_ in m then m else m[o.class_ := o.path]
    requires a' == if o.class_ in m && m[o.class_] != o.path then a[o.class_ := Ambiguities(a, o.class_) + [o.path]] else a
    ensures Describes(occ + [o], m', a')
  {
    OccursMore(occ, o);
    FirstsMore(occ, o, m, m');
    ConflictsMore(occ, o, m, a, m', a');
  }

  lemma ConflictsMore(occ: seq<Occurrence>, o: Occurrence, m: map<Bytes, Bytes>, a: map<Bytes, seq<Bytes>>,
                      m': map<Bytes, Bytes>, a': map<Bytes, seq<Bytes>>)
    requires (forall c :: c in m <==> Occurs(occ, c)) && Conflicts(occ, m, a)
    requires m' == if o.class_ in m then m else m[o.class_ := o.path]
    requires a' == if o.class_ in m && m[o.class_] != o.path then a[o.class_ := Ambiguities(a, o.class_) + [o.path]] else a
    ensures Conflicts(occ + [o], m', a')
  {
    forall c | c in m'
      ensures Ambiguities(a', c) == Others(occ + [o], c, m'[c])
    {
      OthersMore(occ, o, c, m'[c]);
      if c !in m {
        NeverOccurred(occ, c, m'[c]);
        assert c !in a;
      }
    }
  }

  lemma OthersMore(occ: seq<Occurrence>, o: Occurrence, c: Bytes, path: Bytes)
    ensures Others(occ + [o], c, path) == Others(occ, c, path) + (if o.class_ == c && o.path != path then [o.path] else [])
  {
    assert (occ + [o])[..|occ|] == occ;
  }

  lemma OccursMore(occ: seq<Occurrence>, o: Occurrence)
    ensures forall c :: Occurs(occ + [o], c) <==> Occurs(occ, c) || o.class_ == c
  {
    var more := occ + [o];
    forall c
      ensures Occurs(more, c) <==> Occurs(occ, c) || o.class_ == c
    {
      if Occurs(occ, c) { var k :| 0 <= k < |occ| && occ[k].class_ == c; assert more[k].class_ == c; }
      if o.class_ == c { assert more[|occ|].class_ == c; }
    }
  }

  lemma FirstsMore(occ: seq<Occurrence>, o: Occurrence, m: map<Bytes, Bytes>, m': map<Bytes, Bytes>)
    requires forall c :: c in m <==> Occurs(occ, c)
    requires forall k :: 0 <= k < |occ| && IsFirst(occ, k) ==> occ[k].class_ in m && m[occ[k].class_] == occ[k].path
    requires m' == if o.class_ in m then m else m[o.class_ := o.path]
    ensures var more := occ + [o];
            forall k :: 0 <= k < |more| && IsFirst(more, k) ==> more[k].class_ in m' && m'[more[k].class_] == more[k].path
  {
    var more := occ + [o];
    forall k | 0 <= k < |more| && IsFirst(more, k)
      ensures more[k].class_ in m' && m'[more[k].class_] == more[k].path
    {
      if k < |occ| {
        assert IsFirst(occ, k) by { assert forall j :: 0 <= j < k ==> more[j] == occ[j]; }
      } else {
        assert !Occurs(occ, o.class_) by { assert forall j :: 0 <= j < k ==> more[j] == occ[j]; }
      }
    }
  }

  lemma {:induction false} NeverOccurred(occ: seq<Occurrence>, c: Bytes, path: Bytes)
    requires !Occurs(occ, c)
    ensures Others(occ, c, path) == []
  {
    if occ != [] {
      var n := |occ| - 1;
      assert occ[n].class_ != c;
      assert forall k :: 0 <= k < n ==> occ[..n][k] == occ[k];
      NeverOccurred(occ[..n], c, path);
    }
  }
}
