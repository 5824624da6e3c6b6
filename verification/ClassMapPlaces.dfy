/** Where a class has to lie for the PSR filter of the class map (classmap.rs), in the pieces of its name
    and of its path; and what the merge keeps of the files, told file by file. */
module ClassMapPlaces {
  import opened Common
  import opened ClassMapMerge
  import Text
  import ClassLoader
  import LoaderFiles

  /** Pieces with a byte between them. */
  function Glued(parts: seq<Bytes>, c: Byte): Bytes {
    if parts == [] then [] else if |parts| == 1 then parts[0] else parts[0] + ([c] + Glued(parts[1..], c))
  }

  predicate NoneHolds(parts: seq<Bytes>, c: Byte) { forall k :: 0 <= k < |parts| ==> c !in parts[k] }

  /** A file below a directory. */
  function FileAt(base: Bytes, parts: seq<Bytes>, ext: Bytes): Bytes { base + [47] + Glued(parts, 47) + [46] + ext }

  lemma {:induction false} MapGlued(parts: seq<Bytes>, from: Byte)
    requires NoneHolds(parts, from)
    ensures MapSep(Glued(parts, from), from) == Glued(parts, 47)
  {
    if |parts| > 1 {
      MapGlued(parts[1..], from);
      assert from !in parts[0];
    } else if parts != [] {
      assert from !in parts[0];
    }
  }

  lemma {:induction false} GluedBoth(a: seq<Bytes>, b: seq<Bytes>, c: Byte)
    requires a != [] && b != []
    ensures Glued(a + b, c) == Glued(a, c) + ([c] + Glued(b, c))
  {
    if |a| > 1 {
      GluedBoth(a[1..], b, c);
      assert (a + b)[1..] == a[1..] + b;
    }
  }

  lemma SameFirst(a: Bytes, s: Bytes, b: Bytes, t: Bytes, c: Byte)
    requires c !in a && c !in b && (s != [] ==> s[0] == c) && (t != [] ==> t[0] == c) && a + s == b + t
    ensures a == b && s == t
  {
    assert forall k :: 0 <= k < |b| ==> (b + t)[k] != c;
    assert forall k :: 0 <= k < |a| ==> (a + s)[k] != c;
    assert (s != [] ==> (a + s)[|a|] == c) && (t != [] ==> (b + t)[|b|] == c);
    assert |a| == |b|;
    assert a == (a + s)[..|a|] && b == (b + t)[..|b|] && s == (a + s)[|a|..] && t == (b + t)[|b|..];
  }

  /** Pieces can be told from what they are glued to. */
  lemma {:induction false} GluedOnce(p: seq<Bytes>, q: seq<Bytes>, c: Byte)
    requires p != [] && q != [] && NoneHolds(p, c) && NoneHolds(q, c)
    ensures Glued(p, c) == Glued(q, c) <==> p == q
  {
    if Glued(p, c) == Glued(q, c) {
      var s := if |p| == 1 then [] else [c] + Glued(p[1..], c);
      var t := if |q| == 1 then [] else [c] + Glued(q[1..], c);
      assert p[0] + s == Glued(p, c) && q[0] + t == Glued(q, c);
      SameFirst(p[0], s, q[0], t, c);
      assert p == [p[0]] + p[1..] && q == [q[0]] + q[1..];
      if |p| > 1 {
        assert s[1..] == Glued(p[1..], c) && t[1..] == Glued(q[1..], c);
        GluedOnce(p[1..], q[1..], c);
      }
    }
  }

  lemma {:induction false} LastOf(s: Bytes, c: Byte, t: Bytes)
    requires c !in t
    ensures Text.LastIndex(s + [c] + t, c) == Some(|s|)
    ensures Text.LastIndex(t, c) == None
    decreases |t|
  {
    var all := s + [c] + t;
    if t == [] {
      assert all[|all| - 1] == c;
    } else {
      assert all[..|all| - 1] == s + [c] + t[..|t| - 1] && all[|all| - 1] == t[|t| - 1];
      LastOf(s, c, t[..|t| - 1]);
    }
  }

  /** The path below the base, without its extension. */
  lemma SubPathIs(base: Bytes, parts: seq<Bytes>, ext: Bytes)
    requires DOT !in ext
    ensures SubPath(FileAt(base, parts, ext), base) == Glued(parts, 47)
  {
    var rel := Glued(parts, 47);
    assert FileAt(base, parts, ext)[|base| + 1..] == rel + [46] + ext;
    LastOf(rel, 46, ext);
  }

  // ----- PSR-4 ----------------------------------------------------------------------------------------------

  /** The filter of a PSR-4 namespace keeps a class of the namespace exactly when the rest of its name
      is the path of the file. */
  lemma Psr4Place(item: Item, parts: seq<Bytes>, ext: Bytes, pieces: seq<Bytes>)
    requires item.rule.Psr4? && parts != [] && NoneHolds(parts, 47) && 46 !in ext && item.path == FileAt(item.base, parts, ext)
    requires pieces != [] && NoneHolds(pieces, 47) && NoneHolds(pieces, 92)
    ensures var class_ := item.ns + Glued(pieces, 92);
            class_ in Valid(item) <==> class_ in item.classes && pieces == parts
  {
    var class_ := item.ns + Glued(pieces, 92);
    SubPathIs(item.base, parts, ext);
    assert class_[|item.ns|..] == Glued(pieces, 92);
    MapGlued(pieces, 92);
    GluedOnce(pieces, parts, 47);
    KeptIs(item, item.classes, class_);
  }

  /** It never looks at the namespace itself: a class of any other namespace of the same length passes
      with it. */
  lemma OtherNamespacePasses(item: Item, parts: seq<Bytes>, ext: Bytes, other: Bytes)
    requires item.rule.Psr4? && parts != [] && NoneHolds(parts, 92) && 46 !in ext && item.path == FileAt(item.base, parts, ext)
    requires |other| == |item.ns|
    ensures var class_ := other + Glued(parts, 92); class_ in Valid(item) <==> class_ in item.classes
  {
    var class_ := other + Glued(parts, 92);
    SubPathIs(item.base, parts, ext);
    assert class_[|item.ns|..] == Glued(parts, 92);
    MapGlued(parts, 92);
    KeptIs(item, item.classes, class_);
  }

  // ----- PSR-0 ----------------------------------------------------------------------------------------------

  /** The filter of a PSR-0 prefix keeps a class exactly when its name begins with the prefix, and its
      namespace and the pieces of its last part at underscores are the path of the file. */
  lemma Psr0Place(item: Item, parts: seq<Bytes>, ext: Bytes, above: seq<Bytes>, pieces: seq<Bytes>)
    requires item.rule.Psr0? && parts != [] && NoneHolds(parts, 47) && 46 !in ext && item.path == FileAt(item.base, parts, ext)
    requires NoneHolds(above, 47) && NoneHolds(above, 92)
    requires pieces != [] && NoneHolds(pieces, 47) && NoneHolds(pieces, 92) && NoneHolds(pieces, 95)
    ensures var class_ := Glued(above + [Glued(pieces, 95)], 92);
            class_ in Valid(item) <==>
            class_ in item.classes && |item.ns| <= |class_| && item.ns == class_[..|item.ns|] && above + pieces == parts
  {
    var class_ := Glued(above + [Glued(pieces, 95)], 92);
    hide *;
    SubPathIs(item.base, parts, ext);
    Psr0Name(above, pieces);
    Psr0Complies(item, class_);
    GluedOnce(above + pieces, parts, 47);
    NoneInBoth(above, pieces, 47);
    KeptIs(item, item.classes, class_);
  }

  lemma NoneInBoth(a: seq<Bytes>, b: seq<Bytes>, c: Byte)
    ensures NoneHolds(a, c) && NoneHolds(b, c) ==> NoneHolds(a + b, c)
  {
  }

  /** The path a PSR-0 name stands for. */
  function PathOfPsr0(class_: Bytes): Bytes {
    match Text.LastIndex(class_, BACKSLASH)
    case Some(p) => MapSep(class_[..p + 1], BACKSLASH) + MapSep(class_[p + 1..], UNDERSCORE)
    case None => MapSep(class_, UNDERSCORE)
  }

  lemma Psr0Complies(item: Item, class_: Bytes)
    requires item.rule.Psr0?
    ensures Complies(item, class_) <==>
            |item.ns| <= |class_| && item.ns == class_[..|item.ns|] && SubPath(item.path, item.base) == PathOfPsr0(class_)
  {
  }

  lemma {:induction false} NotIn(parts: seq<Bytes>, sep: Byte, c: Byte)
    requires NoneHolds(parts, c) && sep != c
    ensures c !in Glued(parts, sep)
  {
    if |parts| > 1 { NotIn(parts[1..], sep, c); }
  }

  lemma Psr0Name(above: seq<Bytes>, pieces: seq<Bytes>)
    requires NoneHolds(above, 92) && pieces != [] && NoneHolds(pieces, 92) && NoneHolds(pieces, 95)
    ensures PathOfPsr0(Glued(above + [Glued(pieces, 95)], 92)) == Glued(above + pieces, 47)
  {
    var last := Glued(pieces, 95);
    NotIn(pieces, 95, 92);
    MapGlued(pieces, 95);
    if above == [] {
      hide *;
      assert above + [last] == [last] && above + pieces == pieces;
      GluedAlone(last, 92);
      NoNamespace(last);
    } else {
      hide *;
      GluedBoth(above, [last], 92);
      GluedBoth(above, pieces, 47);
      MapGlued(above, 92);
      GluedAlone(last, 92);
      CutAtLast(Glued(above, 92), last);
      assert Glued(above, 92) + [92] + last == Glued(above, 92) + ([92] + last);
      assert Glued(above, 47) + [47] + Glued(pieces, 47) == Glued(above, 47) + ([47] + Glued(pieces, 47));
    }
  }

  lemma NoNamespace(last: Bytes)
    requires 92 !in last
    ensures PathOfPsr0(last) == MapSep(last, 95)
  {
    hide MapSep;
    LastOf([], 92, last);
  }

  lemma GluedAlone(a: Bytes, c: Byte)
    ensures Glued([a], c) == a
  {
  }

  lemma CutAtLast(front: Bytes, last: Bytes)
    requires 92 !in last
    ensures PathOfPsr0(front + [92] + last) == MapSep(front, 92) + [47] + MapSep(last, 95)
  {
    var class_ := front + [92] + last;
    LastOf(front, 92, last);
    assert class_[..|front| + 1] == front + [92] && class_[|front| + 1..] == last;
    assert MapSep(front + [92], 92) == MapSep(front, 92) + [47];
  }

  // ----- the kept classes ---------------------------------------------------------------------------------------

  lemma {:induction false} KeptIs(item: Item, classes: seq<Bytes>, class_: Bytes)
    ensures class_ in Keep(item, classes, true) <==> class_ in classes && Complies(item, class_)
    ensures class_ in Keep(item, classes, false) <==> class_ in classes && !Complies(item, class_)
    decreases |classes|
  {
    hide Complies;
    if classes != [] {
      var n := |classes| - 1;
      KeptIs(item, classes[..n], class_);
      assert classes == classes[..n] + [classes[n]];
    }
  }

  /** In their order, each as often as it was found. */
  lemma {:induction false} KeptInOrder(item: Item, a: seq<Bytes>, b: seq<Bytes>, compliant: bool)
    ensures Keep(item, a + b, compliant) == Keep(item, a, compliant) + Keep(item, b, compliant)
    decreases |b|
  {
    hide *;
    KeepStep(item, b, compliant);
    if b == [] {
      assert a + b == a;
    } else {
      var n := |b| - 1;
      KeptInOrder(item, a, b[..n], compliant);
      KeepStep(item, a + b, compliant);
      assert (a + b)[..|a + b| - 1] == a + b[..n] && (a + b)[|a + b| - 1] == b[n];
    }
  }

  lemma KeptAlone(item: Item, c: Bytes, compliant: bool)
    ensures Keep(item, [c], compliant) == if Complies(item, c) == compliant then [c] else []
  {
    hide Complies;
    assert [c][..0] == [];
  }

  lemma KeepStep(item: Item, classes: seq<Bytes>, compliant: bool)
    ensures Keep(item, classes, compliant) ==
            if classes == [] then []
            else Keep(item, classes[..|classes| - 1], compliant) +
                 if Complies(item, classes[|classes| - 1]) == compliant then [classes[|classes| - 1]] else []
  {
    hide Complies;
  }

  // ----- the loader looks there ---------------------------------------------------------------------------------

  function Chars(s: Bytes): string { seq(|s|, i requires 0 <= i < |s| => s[i] as char) }

  function AllChars(parts: seq<Bytes>): seq<string> { seq(|parts|, i requires 0 <= i < |parts| => Chars(parts[i])) }

  lemma CharsBoth(a: Bytes, b: Bytes)
    ensures Chars(a + b) == Chars(a) + Chars(b)
  {
  }

  lemma {:induction false} CharsGlued(parts: seq<Bytes>, c: Byte)
    ensures Chars(Glued(parts, c)) == Text.Join(AllChars(parts), c as char)
  {
    if |parts| > 1 {
      CharsGlued(parts[1..], c);
      CharsBoth(parts[0], [c] + Glued(parts[1..], c));
      CharsBoth([c], Glued(parts[1..], c));
      assert AllChars(parts)[1..] == AllChars(parts[1..]) && Chars([c]) == [c as char];
      var first, rest := Chars(parts[0]), Text.Join(AllChars(parts[1..]), c as char);
      assert first + ([c as char] + rest) == first + [c as char] + rest;
    }
  }

  /** What the filter of a PSR-4 namespace keeps, the runtime loader finds: registered for the same
      directory it answers with the very file the class was found in. */
  lemma LoaderFindsIt(item: Item, pieces: seq<Bytes>, world: ClassLoader.World)
    requires item.rule.Psr4? && item.ns != [] && item.ns[|item.ns| - 1] == 92
    requires pieces != [] && NoneHolds(pieces, 47) && NoneHolds(pieces, 92)
    requires item.path == FileAt(item.base, pieces, [112, 104, 112]) && world.isFile(Chars(item.path))
    requires item.ns + Glued(pieces, 92) in item.classes
    ensures item.ns + Glued(pieces, 92) in Valid(item)
    ensures var registered := ClassLoader.Psr4Set(ClassLoader.EMPTY, Chars(item.ns), [Chars(item.base)]);
            && registered.Some?
            && ClassLoader.Answer(registered.value, Chars(item.ns + Glued(pieces, 92)), world) == Some(Chars(item.path))
  {
    Psr4Place(item, pieces, [112, 104, 112], pieces);
    assert Chars(item.ns)[|item.ns| - 1] == '\\';
    assert LoaderFiles.NoneHolds(AllChars(pieces), '\\') by { NoBackslashes(pieces); }
    hide *;
    FileText(item.base, pieces);
    CharsBoth(item.ns, Glued(pieces, 92));
    CharsGlued(pieces, 92);
    LoaderFiles.RegisteredNamespace(Chars(item.ns), Chars(item.base), AllChars(pieces), world);
  }

  lemma NoBackslashes(pieces: seq<Bytes>)
    requires NoneHolds(pieces, 92)
    ensures LoaderFiles.NoneHolds(AllChars(pieces), '\\')
  {
    forall k | 0 <= k < |pieces| ensures '\\' !in AllChars(pieces)[k] {
      assert 92 !in pieces[k] && AllChars(pieces)[k] == Chars(pieces[k]);
      forall i | 0 <= i < |pieces[k]| ensures Chars(pieces[k])[i] != '\\' { assert pieces[k][i] in pieces[k]; }
    }
  }

  lemma FileText(base: Bytes, pieces: seq<Bytes>)
    ensures Chars(FileAt(base, pieces, [112, 104, 112])) == Chars(base) + "/" + Text.Join(AllChars(pieces), '/') + ".php"
  {
    hide Glued;
    CharsGlued(pieces, 47);
    CharsBoth(base + [47] + Glued(pieces, 47) + [46], [112, 104, 112]);
    CharsBoth(base + [47] + Glued(pieces, 47), [46]);
    CharsBoth(base + [47], Glued(pieces, 47));
    CharsBoth(base, [47]);
    assert Chars([112, 104, 112]) == "php" && Chars([46]) == "." && Chars([47]) == "/";
  }

  // ----- the merge, file by file -------------------------------------------------------------------------------

  /** File `i` brings class `c`: it is not excluded, its rule keeps the class, and no earlier file that
      was not excluded, and from which its rule kept something, is the same file. */
  predicate Brings(items: seq<Item>, i: nat, c: Bytes) {
    && i < |items| && !items[i].excluded && c in (if items[i].rule.ClassMapRule? then items[i].classes else Valid(items[i]))
    && forall j :: 0 <= j < i && items[j].canonical == items[i].canonical ==>
         items[j].excluded || (!items[j].rule.ClassMapRule? && Valid(items[j]) == [])
  }

  predicate BringsFirst(items: seq<Item>, i: nat, c: Bytes) {
    Brings(items, i, c) && forall j: nat :: j < i ==> !Brings(items, j, c)
  }

  lemma BringsBefore(items: seq<Item>, i: nat, c: Bytes)
    requires i < |items| - 1
    ensures Brings(items[..|items| - 1], i, c) <==> Brings(items, i, c)
  {
    hide Valid;
    var before := items[..|items| - 1];
    assert forall j :: 0 <= j <= i ==> before[j] == items[j];
  }

  lemma BringsLast(items: seq<Item>, c: Bytes)
    requires items != []
    ensures Brings(items, |items| - 1, c) <==> Occurrence(c, items[|items| - 1].path) in LastOccurrences(items)
    ensures forall o :: o in LastOccurrences(items) ==> o.path == items[|items| - 1].path
  {
    var n := |items| - 1;
    AllComply(items[n], items[n].classes);
    var tagged := Tag(Valid(items[n]), items[n].path);
    if c in Valid(items[n]) {
      var k :| 0 <= k < |Valid(items[n])| && Valid(items[n])[k] == c;
      assert tagged[k] == Occurrence(c, items[n].path);
    }
    hide Keep;
  }

  lemma AllComply(item: Item, classes: seq<Bytes>)
    ensures item.rule.ClassMapRule? ==> Keep(item, classes, true) == classes
  {
    if item.rule.ClassMapRule? { ClassMapMerge.AllComply(item, classes); }
  }

  /** The occurrences of a class are what the files bring. */
  lemma {:induction false} OccursIff(items: seq<Item>, c: Bytes)
    ensures Occurs(Occurrences(items), c) <==> exists i: nat :: Brings(items, i, c)
    decreases |items|
  {
    hide Brings, LastOccurrences;
    if items == [] {
      NothingBrought(c);
    } else {
      var n := |items| - 1;
      OccursIff(items[..n], c);
      BringsLast(items, c);
      OccursEither(Occurrences(items[..n]), LastOccurrences(items), c);
      OnlyAtPath(LastOccurrences(items), items[n].path, c);
      forall i: nat | i < n ensures Brings(items[..n], i, c) <==> Brings(items, i, c) { BringsBefore(items, i, c); }
      BringsInRange(items, c);
      BringsInRange(items[..n], c);
    }
  }

  lemma NothingBrought(c: Bytes)
    ensures forall i: nat :: !Brings([], i, c)
  {
  }

  lemma BringsInRange(items: seq<Item>, c: Bytes)
    ensures forall i: nat :: Brings(items, i, c) ==> i < |items|
  {
  }

  lemma OccursEither(a: seq<Occurrence>, b: seq<Occurrence>, c: Bytes)
    ensures Occurs(a + b, c) <==> Occurs(a, c) || Occurs(b, c)
  {
    if k :| 0 <= k < |a| && a[k].class_ == c { assert (a + b)[k].class_ == c; }
    if k :| 0 <= k < |b| && b[k].class_ == c { assert (a + b)[|a| + k].class_ == c; }
  }

  lemma OnlyAtPath(occ: seq<Occurrence>, path: Bytes, c: Bytes)
    requires forall o :: o in occ ==> o.path == path
    ensures Occurs(occ, c) <==> Occurrence(c, path) in occ
  {
    if k :| 0 <= k < |occ| && occ[k].class_ == c { assert occ[k] in occ; }
    if Occurrence(c, path) in occ {
      var k :| 0 <= k < |occ| && occ[k] == Occurrence(c, path);
      assert occ[k].class_ == c;
    }
  }

  /** The path of the first occurrence is that of the first file that brings the class. */
  lemma {:induction false} FirstPath(items: seq<Item>, i: nat, c: Bytes) returns (k: nat)
    requires BringsFirst(items, i, c)
    ensures k < |Occurrences(items)| && IsFirst(Occurrences(items), k) && Occurrences(items)[k] == Occurrence(c, items[i].path)
    decreases |items|
  {
    hide *;
    BringsInRange(items, c);
    FirstMeans(items, i, c);
    var n := |items| - 1;
    var before, last := Occurrences(items[..n]), LastOccurrences(items);
    OccurrencesStep(items);
    if i < n {
      forall j: nat | j <= i ensures Brings(items[..n], j, c) <==> Brings(items, j, c) { BringsBefore(items, j, c); }
      FirstFrom(items[..n], i, c);
      k := FirstPath(items[..n], i, c);
      InFront(before, last, k);
    } else {
      BringsLast(items, c);
      OccursIff(items[..n], c);
      BringsInRange(items[..n], c);
      forall j: nat | j < n ensures !Brings(items[..n], j, c) { BringsBefore(items, j, c); }
      OnlyAtPath(last, items[n].path, c);
      var m := FirstOccurrence(last, c);
      assert last[m] in last;
      InBack(before, last, m);
      k := |before| + m;
    }
  }

  lemma FirstMeans(items: seq<Item>, i: nat, c: Bytes)
    requires BringsFirst(items, i, c)
    ensures Brings(items, i, c) && forall j: nat :: j < i ==> !Brings(items, j, c)
  {
  }

  lemma FirstFrom(items: seq<Item>, i: nat, c: Bytes)
    requires Brings(items, i, c) && forall j: nat :: j < i ==> !Brings(items, j, c)
    ensures BringsFirst(items, i, c)
  {
  }

  lemma OccurrencesStep(items: seq<Item>)
    requires items != []
    ensures Occurrences(items) == Occurrences(items[..|items| - 1]) + LastOccurrences(items)
  {
  }

  lemma InFront(a: seq<Occurrence>, b: seq<Occurrence>, k: nat)
    requires k < |a| && IsFirst(a, k)
    ensures IsFirst(a + b, k) && (a + b)[k] == a[k]
  {
  }

  lemma InBack(a: seq<Occurrence>, b: seq<Occurrence>, m: nat)
    requires m < |b| && IsFirst(b, m) && !Occurs(a, b[m].class_)
    ensures IsFirst(a + b, |a| + m) && (a + b)[|a| + m] == b[m]
  {
  }

  /** After a merge the class map has exactly the classes some file brings, each at the path of the first
      file that does. */
  lemma FirstFileWins(scanner: Scanner, items: seq<Item>, c: Bytes)
    requires scanner.Merged(items)
    ensures c in scanner.classes <==> exists i: nat :: Brings(items, i, c)
    ensures forall i: nat :: i < |items| && BringsFirst(items, i, c) ==> c in scanner.classes && scanner.classes[c] == items[i].path
  {
    hide *;
    OccursIff(items, c);
    MergedClass(scanner, items, c);
    forall i: nat | i < |items| && BringsFirst(items, i, c) ensures c in scanner.classes && scanner.classes[c] == items[i].path {
      var k := FirstPath(items, i, c);
      MergedAt(scanner, items, k);
    }
  }

  lemma MergedClass(scanner: Scanner, items: seq<Item>, c: Bytes)
    requires scanner.Merged(items)
    ensures c in scanner.classes <==> Occurs(Occurrences(items), c)
  {
    hide Occurrences, Conflicts;
  }

  lemma MergedAt(scanner: Scanner, items: seq<Item>, k: nat)
    requires scanner.Merged(items) && k < |Occurrences(items)| && IsFirst(Occurrences(items), k)
    ensures var o := Occurrences(items)[k]; o.class_ in scanner.classes && scanner.classes[o.class_] == o.path
  {
    hide Occurrences, Conflicts;
  }

  /** A file is the same as an earlier one that counted. */
  predicate Seen(items: seq<Item>, i: nat)
    requires i < |items|
  {
    exists j :: 0 <= j < i && items[j].canonical == items[i].canonical &&
      !items[j].excluded && (items[j].rule.ClassMapRule? || Valid(items[j]) != [])
  }

  /** File `i` is rejected with class `c`: its rule keeps none of its classes. */
  predicate Rejects(items: seq<Item>, i: nat, c: Bytes) {
    i < |items| && !items[i].excluded && !items[i].rule.ClassMapRule? && Valid(items[i]) == [] && c in items[i].classes && !Seen(items, i)
  }

  lemma {:induction false} PairsIff(items: seq<Item>, c: Bytes, q: Bytes)
    ensures Occurrence(c, q) in Occurrences(items) <==> exists i: nat :: i < |items| && Brings(items, i, c) && items[i].path == q
    decreases |items|
  {
    hide Brings, LastOccurrences;
    if items != [] {
      var n: nat := |items| - 1;
      PairsIff(items[..n], c, q);
      BringsLast(items, c);
      OccurrencesStep(items);
      forall i: nat | i < n ensures Brings(items[..n], i, c) <==> Brings(items, i, c) { BringsBefore(items, i, c); }
      hide Occurrences;
      if i: nat :| i < n && Brings(items[..n], i, c) && items[..n][i].path == q { assert Brings(items, i, c) && items[i].path == q; }
      if i: nat :| i < |items| && Brings(items, i, c) && items[i].path == q {
        if i < n { assert Brings(items[..n], i, c) && items[..n][i].path == q; }
      }
    }
  }

  lemma {:induction false} OthersHas(occ: seq<Occurrence>, c: Bytes, path: Bytes, q: Bytes)
    ensures q in Others(occ, c, path) <==> Occurrence(c, q) in occ && q != path
    decreases |occ|
  {
    if occ != [] {
      OthersHas(occ[..|occ| - 1], c, path, q);
      assert occ == occ[..|occ| - 1] + [occ[|occ| - 1]];
    }
  }

  /** And a class is ambiguous with exactly the other paths at which some file brings it. */
  lemma AmbiguousIff(scanner: Scanner, items: seq<Item>, c: Bytes, q: Bytes)
    requires scanner.Merged(items) && c in scanner.classes
    ensures c in scanner.ambiguous && q in scanner.ambiguous[c] <==>
            q != scanner.classes[c] && exists i: nat :: i < |items| && Brings(items, i, c) && items[i].path == q
  {
    PairsIff(items, c, q);
    OthersHas(Occurrences(items), c, scanner.classes[c], q);
    AmbiguitiesOf(scanner, items, c);
    hide Occurrences, Brings, Others, Describes;
  }

  lemma AmbiguitiesOf(scanner: Scanner, items: seq<Item>, c: Bytes)
    requires scanner.Merged(items) && c in scanner.classes
    ensures Ambiguities(scanner.ambiguous, c) == Others(Occurrences(items), c, scanner.classes[c])
  {
    hide Occurrences, Winners, Others;
  }

  lemma RejectsBefore(items: seq<Item>, i: nat, c: Bytes)
    requires i < |items| - 1
    ensures Rejects(items[..|items| - 1], i, c) <==> Rejects(items, i, c)
  {
    hide Valid;
    var before := items[..|items| - 1];
    assert forall j :: 0 <= j <= i ==> before[j] == items[j];
  }

  lemma RejectsLast(items: seq<Item>, c: Bytes, q: Bytes)
    requires items != []
    ensures Occurrence(c, q) in LastViolations(items) <==> Rejects(items, |items| - 1, c) && items[|items| - 1].path == q
  {
    var item := items[|items| - 1];
    if Valid(item) == [] { NoneKept(item, c); }
    TaggedIff(Keep(item, item.classes, false), item.path, c, q);
    hide Keep, Valid, Tag;
  }

  /** Of a file from which nothing is kept, every class is rejected. */
  lemma NoneKept(item: Item, c: Bytes)
    requires Valid(item) == []
    ensures c in Keep(item, item.classes, false) <==> c in item.classes
  {
    KeptIs(item, item.classes, c);
    hide Complies, Keep;
  }

  lemma TaggedIff(classes: seq<Bytes>, path: Bytes, c: Bytes, q: Bytes)
    ensures Occurrence(c, q) in Tag(classes, path) <==> c in classes && q == path
  {
    if k :| 0 <= k < |classes| && classes[k] == c && q == path { assert Tag(classes, path)[k] == Occurrence(c, q); }
  }

  /** Reported are exactly the classes of the files from which their rule keeps nothing. */
  lemma {:induction false} ViolationsAre(items: seq<Item>, c: Bytes, q: Bytes)
    ensures Occurrence(c, q) in Violations(items) <==> exists i: nat :: i < |items| && Rejects(items, i, c) && items[i].path == q
    decreases |items|
  {
    hide Rejects, LastViolations;
    if items != [] {
      var n: nat := |items| - 1;
      ViolationsAre(items[..n], c, q);
      RejectsLast(items, c, q);
      forall i: nat | i < n ensures Rejects(items[..n], i, c) <==> Rejects(items, i, c) { RejectsBefore(items, i, c); }
      if i: nat :| i < n && Rejects(items[..n], i, c) && items[..n][i].path == q { assert Rejects(items, i, c) && items[i].path == q; }
      if i: nat :| i < |items| && Rejects(items, i, c) && items[i].path == q {
        if i < n { assert Rejects(items[..n], i, c) && items[..n][i].path == q; }
      }
    }
  }
}
