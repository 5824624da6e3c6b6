/** What the tokens of a constraint mean (constraint.rs), told by their characters and by the numbers of the
    versions they admit. */
module ConstraintTexts {
  import opened Common
  import opened Versions
  import opened Constraints
  import opened VersionTexts
  import Text

  // ----- the order by numbers ------------------------------------------------------------------------------

  /** The first `n` parts agree. */
  predicate SameUpTo(p: Parts, q: Parts, n: nat)
    requires n <= 4
  {
    forall k :: 0 <= k < n ==> p[k] == q[k]
  }

  /** The first part that differs, if one does, is larger in `p`. */
  predicate AtLeast(p: Parts, q: Parts) {
    forall k :: 0 <= k < 4 && SameUpTo(p, q, k) ==> p[k] >= q[k]
  }

  /** The first of the first `n` parts that differs, if one does, is smaller in `p`. */
  predicate NotBeyond(p: Parts, q: Parts, n: nat)
    requires n <= 4
  {
    forall k :: 0 <= k < n && SameUpTo(p, q, k) ==> p[k] <= q[k]
  }

  function Rung(s: Stability): nat {
    match s
    case Dev => 0
    case Alpha => 1
    case Beta => 2
    case Rc => 3
    case Stable => 4
    case Patch => 5
  }

  /** At `v` or after it: by the parts, then by the stability, then by the number behind it. */
  predicate From(x: Version, v: Version) {
    && AtLeast(x.parts, v.parts)
    && (x.parts == v.parts ==>
          Rung(x.stability) > Rung(v.stability) || (x.stability == v.stability && x.pre >= v.pre))
  }

  lemma PartsInFour(p: Parts)
    ensures p == [p[0]] + ([p[1]] + ([p[2]] + ([p[3]] + [])))
  {
  }

  lemma LexFour(p: Parts, q: Parts)
    ensures LexCompare(p, q) ==
            if p[0] != q[0] then CompareInt(p[0], q[0])
            else if p[1] != q[1] then CompareInt(p[1], q[1])
            else if p[2] != q[2] then CompareInt(p[2], q[2])
            else CompareInt(p[3], q[3])
  {
    PartsInFour(p);
    PartsInFour(q);
    LexStep(p[3], [], q[3], []);
    LexStep(p[2], [p[3]] + [], q[2], [q[3]] + []);
    LexStep(p[1], [p[2]] + ([p[3]] + []), q[1], [q[2]] + ([q[3]] + []));
    LexStep(p[0], [p[1]] + ([p[2]] + ([p[3]] + [])), q[0], [q[1]] + ([q[2]] + ([q[3]] + [])));
  }

  lemma LexIsAtLeast(p: Parts, q: Parts)
    ensures LexCompare(p, q) != Less <==> AtLeast(p, q)
  {
    LexFour(p, q);
    hide LexCompare;
    assert SameUpTo(p, q, 0);
    assert p[0] == q[0] ==> SameUpTo(p, q, 1);
    assert p[0] == q[0] && p[1] == q[1] ==> SameUpTo(p, q, 2);
    assert p[0] == q[0] && p[1] == q[1] && p[2] == q[2] ==> SameUpTo(p, q, 3);
  }

  lemma OrderIs(x: Version, v: Version)
    ensures Compare(x, v) != Less <==> From(x, v)
    ensures Compare(x, v) == Less <==> !From(x, v)
    ensures Compare(x, v) == Equal <==> x == v
    ensures Compare(x, v) == Greater <==> !From(v, x)
  {
    LexIsAtLeast(x.parts, v.parts);
    LexIsAtLeast(v.parts, x.parts);
    LexEqual(x.parts, v.parts);
    LexReverse(x.parts, v.parts);
    TotalOrder(x, v, x);
    hide LexCompare, AtLeast;
  }

  /** The dev floor of a version: everything with its parts is at it or after it. */
  lemma FloorIs(x: Version, v: Version)
    ensures Compare(x, DevFloor(v)) != Less <==> AtLeast(x.parts, v.parts)
  {
    OrderIs(x, DevFloor(v));
    hide Compare, AtLeast;
  }

  /** What is before the next family. */
  lemma BumpIs(x: Version, v: Version, n: nat)
    requires 1 <= n <= 4
    ensures Compare(x, Bumped(v, n)) == Less <==> NotBeyond(x.parts, v.parts, n)
  {
    var p, q := x.parts, v.parts;
    var top := Bumped(v, n).parts;
    forall k | 0 <= k < 4 ensures top[k] == if k < n - 1 then q[k] else if k == n - 1 then q[k] + 1 else 0 {
      BumpedAt(q, n, k);
    }
    FloorIs(x, Bumped(v, n));
    assert DevFloor(Bumped(v, n)) == Bumped(v, n);
    LexIsAtLeast(p, top);
    LexFour(p, top);
    hide *;
    BeforeTop(p, q, top, n);
  }

  lemma BeforeTop(p: Parts, q: Parts, top: Parts, n: nat)
    requires 1 <= n <= 4
    requires forall k :: 0 <= k < 4 ==> top[k] == if k < n - 1 then q[k] else if k == n - 1 then q[k] + 1 else 0
    ensures !AtLeast(p, top) <==> NotBeyond(p, q, n)
  {
    assert SameUpTo(p, q, 0) && SameUpTo(p, top, 0);
    assert forall k :: 0 <= k < n ==> SameUpTo(p, top, k) == SameUpTo(p, q, k);
    if NotBeyond(p, q, n) {
      if SameUpTo(p, q, n - 1) {
        assert p[n - 1] < top[n - 1] && SameUpTo(p, top, n - 1);
      } else {
        var d := FirstDifference(p, q, n - 1);
        assert p[d] < top[d] && SameUpTo(p, top, d);
      }
    } else {
      var k :| 0 <= k < n && SameUpTo(p, q, k) && p[k] > q[k];
      assert SameUpTo(p, top, k);
      forall j | 0 <= j < 4 && SameUpTo(p, top, j) ensures p[j] >= top[j] {
        if j < k { assert p[j] == q[j] == top[j]; }
      }
    }
  }

  lemma FirstDifference(p: Parts, q: Parts, n: nat) returns (d: nat)
    requires n <= 4 && !SameUpTo(p, q, n)
    ensures d < n && p[d] != q[d] && SameUpTo(p, q, d)
  {
    d := 0;
    while p[d] == q[d]
      invariant d < n && SameUpTo(p, q, d)
      decreases n - d
    {
      assert SameUpTo(p, q, d + 1);
      d := d + 1;
    }
  }

  lemma BetweenIsSame(p: Parts, q: Parts, n: nat)
    requires n <= 4
    ensures AtLeast(p, q) && NotBeyond(p, q, n) <==> AtLeast(p, q) && SameUpTo(p, q, n)
  {
    if AtLeast(p, q) && NotBeyond(p, q, n) && !SameUpTo(p, q, n) {
      var d := FirstDifference(p, q, n);
      assert false;
    }
  }

  // ----- texts of versions -----------------------------------------------------------------------------------

  /** A version as it is written: perhaps a `v`, numbers with dots between, a suffix. */
  datatype Written = Written(lead: string, pieces: seq<string>, suffix: Suffix) {
    function Shown(): string { lead + (Text.Join(pieces, '.') + SuffixText(suffix)) }

    predicate Says(v: Version) {
      (lead == "" || lead == "v" || lead == "V") && Numbers(pieces, v.parts) && SuffixFits(suffix, v.stability, v.pre)
    }

    predicate Plain() { SuffixText(suffix) == "" }
  }

  /** Digits, marks and letters other than `x`. */
  predicate BodyChar(c: char) {
    Digit(c) || Mark(c) || ((65 <= c as int <= 90 || 97 <= c as int <= 122) && c != 'x' && c != 'X')
  }

  predicate Body(s: string) { forall k :: 0 <= k < |s| ==> BodyChar(s[k]) }

  lemma BodyBoth(a: string, b: string)
    requires Body(a) && Body(b)
    ensures Body(a + b)
  {
  }

  lemma PartsAreBody(s: string)
    ensures Digits(s) ==> Body(s)
    ensures Marks(s) ==> Body(s)
    ensures DigitsAndDots(s) ==> Body(s)
  {
  }

  /** No word begins with a digit or a `v`, and none has an `x`. */
  lemma WordIsBody(word: string, st: Stability)
    requires SpellsStability(word, st)
    ensures Body(word)
    ensures word != "" ==> !PlainChar(word[0])
  {
    assert "dev"[0] == 'd' && "rc"[0] == 'r';
  }

  lemma SuffixIsBody(f: Suffix, st: Stability, pre: nat)
    requires SuffixFits(f, st, pre)
    ensures Body(SuffixText(f))
    ensures SuffixText(f) != "" ==> !PlainChar(SuffixText(f)[0])
  {
    WordIsBody(f.word, st);
    PartsAreBody(f.marks);
    PartsAreBody(f.more);
    PartsAreBody(f.digits);
    SuffixStart(f, st, pre);
    hide *;
    BodyBoth(f.more, f.digits);
    BodyBoth(f.word, f.more + f.digits);
    BodyBoth(f.marks, f.word + (f.more + f.digits));
    SuffixIs(f);
  }

  lemma SuffixIs(f: Suffix)
    ensures SuffixText(f) == f.marks + (f.word + (f.more + f.digits))
  {
  }

  lemma SuffixStart(f: Suffix, st: Stability, pre: nat)
    requires SuffixFits(f, st, pre) && (f.word != "" ==> !PlainChar(f.word[0]))
    ensures SuffixText(f) != "" ==> !PlainChar(SuffixText(f)[0])
  {
    hide SpellsStability, Read;
    if f.marks != "" { assert SuffixText(f)[0] == f.marks[0]; }
    else if f.word != "" { assert SuffixText(f)[0] == f.word[0]; }
  }

  /** What the text of a version begins with, and what it consists of. */
  lemma TextIsBody(w: Written, v: Version)
    requires w.Says(v)
    ensures w.Shown() != "" && Body(w.Shown()) && PlainChar(w.Shown()[0]) && w.Shown()[0] != '.'
    ensures var num := Text.Join(w.pieces, '.'); num != "" && Digit(num[0]) && DigitsAndDots(num)
  {
    var num := Text.Join(w.pieces, '.');
    SaysNumbers(w, v);
    JoinedNumbers(w.pieces);
    SuffixIsBody(w.suffix, v.stability, v.pre);
    PartsAreBody(num);
    hide Text.Join, SuffixText, Numbers, SuffixFits;
    BodyBoth(num, SuffixText(w.suffix));
    BodyBoth(w.lead, num + SuffixText(w.suffix));
    assert w.Shown()[0] == if w.lead == "" then num[0] else w.lead[0];
  }

  lemma SaysNumbers(w: Written, v: Version)
    requires w.Says(v)
    ensures 1 <= |w.pieces| <= 4 && forall k :: 0 <= k < |w.pieces| ==> w.pieces[k] != "" && Digits(w.pieces[k])
  {
  }

  lemma SaysIs(w: Written, v: Version)
    requires w.Says(v)
    ensures w.lead == "" || w.lead == "v" || w.lead == "V"
    ensures Numbers(w.pieces, v.parts) && SuffixFits(w.suffix, v.stability, v.pre)
    ensures w.Shown() == w.lead + (Text.Join(w.pieces, '.') + SuffixText(w.suffix))
    ensures Blanks("")
  {
    hide Numbers, SuffixFits, SuffixText, Text.Join;
  }

  lemma TextParsesAs(w: Written, v: Version)
    requires w.Says(v)
    ensures Parse(w.Shown()) == Some(v)
  {
    SaysIs(w, v);
    BodyParses(w.lead, w.pieces, w.suffix, v);
    TrimsTo("", w.Shown(), "");
    hide *;
    assert Parse(w.Shown()) == Some(v);
  }

  /** The suffix shows. */
  lemma SuffixShows(w: Written, v: Version)
    requires w.Says(v)
    ensures HasSuffix(w.Shown()) <==> !w.Plain()
  {
    var num, rest := Text.Join(w.pieces, '.'), SuffixText(w.suffix);
    TextIsBody(w, v);
    SuffixIsBody(w.suffix, v.stability, v.pre);
    hide Text.Join, SuffixText, Numbers, SuffixFits;
    if rest != "" {
      assert w.Shown()[|w.lead| + |num|] == rest[0];
    } else {
      forall k | 0 <= k < |w.Shown()| ensures PlainChar(w.Shown()[k]) {
        assert w.Shown()[k] == if k < |w.lead| then w.lead[k] else num[k - |w.lead|];
      }
    }
  }

  // ----- the numbers given -------------------------------------------------------------------------------------

  /** Pieces with the last of the first and the first of the others run together. */
  function Merged(a: seq<string>, b: seq<string>): seq<string>
    requires a != [] && b != []
  {
    a[..|a| - 1] + [a[|a| - 1] + b[0]] + b[1..]
  }

  lemma {:induction false} JoinMerged(a: seq<string>, b: seq<string>, c: char)
    requires a != [] && b != []
    ensures Text.Join(a, c) + Text.Join(b, c) == Text.Join(Merged(a, b), c)
  {
    var m := Merged(a, b);
    if |a| == 1 {
      assert m == [a[0] + b[0]] + b[1..];
      JoinGrown(a[0], b, c);
    } else {
      JoinMerged(a[1..], b, c);
      assert m[1..] == Merged(a[1..], b) && m[0] == a[0] && |m| > 1;
      hide Merged;
      Glue(a[0] + [c], Text.Join(a[1..], c), Text.Join(b, c));
    }
  }

  lemma JoinGrown(s: string, b: seq<string>, c: char)
    requires b != []
    ensures s + Text.Join(b, c) == Text.Join([s + b[0]] + b[1..], c)
  {
    var m := [s + b[0]] + b[1..];
    assert m[1..] == b[1..];
    if |b| > 1 {
      hide Text.Join;
      JoinTwo(b, c);
      JoinTwo(m, c);
      Glue(s, b[0], [c] + Text.Join(b[1..], c));
    }
  }

  lemma JoinTwo(b: seq<string>, c: char)
    requires |b| > 1
    ensures Text.Join(b, c) == b[0] + ([c] + Text.Join(b[1..], c))
  {
  }

  predicate NoSign(s: string) { forall k :: 0 <= k < |s| ==> s[k] != '-' && s[k] != '+' }

  lemma {:induction false} StemBoth(a: string, back: string)
    requires NoSign(a) && (back != "" ==> back[0] == '-')
    ensures Stem(a + back) == a
  {
    if a == "" {
      assert a + back == back;
    } else {
      assert (a + back)[1..] == a[1..] + back;
      StemBoth(a[1..], back);
    }
  }

  /** The suffix up to a hyphen, cut at its dots. */
  predicate CutAtDots(suffix: string, cut: seq<string>, back: string) {
    && cut != [] && suffix == Text.Join(cut, '.') + back && (back != "" ==> back[0] == '-')
    && forall k :: 0 <= k < |cut| ==> NoSign(cut[k]) && '.' !in cut[k]
  }

  lemma {:induction false} JoinNoSign(cut: seq<string>)
    requires forall k :: 0 <= k < |cut| ==> NoSign(cut[k])
    ensures NoSign(Text.Join(cut, '.'))
  {
    if |cut| > 1 { JoinNoSign(cut[1..]); }
  }

  /** The numbers given are counted by the dots before a hyphen: those of a suffix before one count too. */
  lemma GivenIs(w: Written, v: Version, cut: seq<string>, back: string)
    requires w.Says(v) && CutAtDots(SuffixText(w.suffix), cut, back)
    ensures DottedCount(Stem(w.Shown())) == |w.pieces| + |cut| - 1
  {
    hide *;
    var num, front := Text.Join(w.pieces, '.'), Text.Join(cut, '.');
    TextIsBody(w, v);
    SaysIs(w, v);
    SaysNumbers(w, v);
    CutIs(SuffixText(w.suffix), cut, back);
    JoinNoSign(cut);
    FrontIs(w.lead, num, front, back);
    StemBoth(w.lead + (num + front), back);
    LeadCount(w.lead, num + front);
    JoinMerged(w.pieces, cut, '.');
    MergedSplits(w.pieces, cut);
  }

  lemma CutIs(suffix: string, cut: seq<string>, back: string)
    requires CutAtDots(suffix, cut, back)
    ensures cut != [] && suffix == Text.Join(cut, '.') + back && (back != "" ==> back[0] == '-')
    ensures forall k :: 0 <= k < |cut| ==> NoSign(cut[k]) && '.' !in cut[k]
  {
  }

  lemma FrontIs(lead: string, num: string, front: string, back: string)
    requires (lead == "" || lead == "v" || lead == "V") && num != "" && DigitsAndDots(num) && NoSign(front)
    ensures NoSign(lead + (num + front)) && (num + front) != "" && (num + front)[0] == num[0]
    ensures lead + (num + (front + back)) == lead + (num + front) + back
  {
  }

  lemma LeadCount(lead: string, s: string)
    requires (lead == "" || lead == "v" || lead == "V") && s != "" && Digit(s[0])
    ensures DottedCount(lead + s) == |Text.Split(s, '.')|
  {
    assert StripVs(s) == s;
    if lead != "" { assert (lead + s)[1..] == s; } else { assert lead + s == s; }
  }

  lemma MergedSplits(a: seq<string>, b: seq<string>)
    requires a != [] && b != [] && forall k :: 0 <= k < |a| ==> Digits(a[k])
    requires forall k :: 0 <= k < |b| ==> '.' !in b[k]
    ensures |Text.Split(Text.Join(Merged(a, b), '.'), '.')| == |a| + |b| - 1
  {
    var m := Merged(a, b);
    forall k | 0 <= k < |m| ensures '.' !in m[k] {
      if k < |a| { assert forall i :: 0 <= i < |a[k]| ==> Digit(a[k][i]); }
    }
    Text.SplitJoin(m, '.');
  }

  lemma PlainCount(w: Written, v: Version)
    requires w.Says(v) && w.Plain()
    ensures DottedCount(w.Shown()) == |w.pieces|
  {
    var num := Text.Join(w.pieces, '.');
    TextIsBody(w, v);
    SaysIs(w, v);
    SaysNumbers(w, v);
    SplitPieces(w.pieces);
    LeadCount(w.lead, num);
    assert w.Shown() == w.lead + num;
  }

  // ----- tokens ----------------------------------------------------------------------------------------------

  /** No blank followed by a hyphen. */
  predicate NoDash(t: string) { forall k :: 0 <= k < |t| - 1 && t[k] == ' ' ==> t[k + 1] != '-' }

  lemma {:induction false} NoDashFound(t: string)
    requires NoDash(t)
    ensures FindHyphen(t) == None
  {
    if t != "" {
      assert forall k :: 0 <= k < |t[1..]| ==> t[1..][k] == t[k + 1];
      NoDashFound(t[1..]);
      assert !(" - " <= t) by { if |t| >= 3 && t[0] == ' ' { assert t[1] != '-'; } }
    }
  }

  predicate Edges(t: string) { t != "" && !Blank(t[0]) && !Blank(t[|t| - 1]) }

  /** Blanks around a token do not matter. */
  lemma TokenIs(left: string, t: string, right: string)
    requires Blanks(left) && Blanks(right) && Edges(t) && NoDash(t)
    ensures ParseSimple(left + t + right) == ParseWord(t)
  {
    Glue(left, t, right);
    TrimsTo(left, t, right);
    NoDashFound(t);
    hide FindHyphen, ParseWord, Trim;
  }

  /** At the version or after it; without a suffix, from its dev floor on. */
  predicate FromText(w: Written, v: Version, x: Version) {
    if w.Plain() then AtLeast(x.parts, v.parts) else From(x, v)
  }

  lemma LowMeans(w: Written, v: Version, x: Version)
    requires w.Says(v)
    ensures Holds(Cmp(Ge, Floor(v, w.Shown())), x) <==> FromText(w, v, x)
  {
    SuffixShows(w, v);
    OrderIs(x, v);
    FloorIs(x, v);
    hide HasSuffix, Compare, AtLeast, From;
  }

  lemma RangeMeans(w: Written, v: Version, n: nat, x: Version)
    requires w.Says(v) && 1 <= n <= 4
    ensures MatchesGroup([Cmp(Ge, Floor(v, w.Shown())), Cmp(Lt, Bumped(v, n))], x) <==>
            FromText(w, v, x) && SameUpTo(x.parts, v.parts, n)
  {
    LowMeans(w, v, x);
    BumpIs(x, v, n);
    BetweenIsSame(x.parts, v.parts, n);
    hide *;
    PairMeans(Cmp(Ge, Floor(v, w.Shown())), Cmp(Lt, Bumped(v, n)), x);
    LessHolds(Bumped(v, n), x);
    FromIsAtLeast(w, v, x);
  }

  lemma PairMeans(a: Simple, b: Simple, x: Version)
    ensures MatchesGroup([a, b], x) <==> Holds(a, x) && Holds(b, x)
    ensures MatchesGroup([a], x) <==> Holds(a, x)
  {
    hide Holds;
    assert [a, b][0] in [a, b] && [a, b][1] in [a, b] && [a][0] in [a];
  }

  lemma LessHolds(bound: Version, x: Version)
    ensures Holds(Cmp(Lt, bound), x) <==> Compare(x, bound) == Less
  {
  }

  lemma FromIsAtLeast(w: Written, v: Version, x: Version)
    ensures FromText(w, v, x) ==> AtLeast(x.parts, v.parts)
  {
    hide AtLeast;
  }

  lemma SignedBody(left: string, sign: char, w: Written, right: string, v: Version)
    requires Blanks(left) && Blanks(right) && (sign == '^' || sign == '~') && w.Says(v)
    ensures ParseSimple(left + ([sign] + w.Shown()) + right) == if sign == '^' then Caret(w.Shown()) else Tilde(w.Shown())
  {
    var t := [sign] + w.Shown();
    TextIsBody(w, v);
    SignedEdges(sign, w.Shown());
    assert t[1..] == w.Shown();
    hide *;
    TokenIs(left, t, right);
    SignedIs(t);
  }

  lemma SignedEdges(sign: char, s: string)
    requires (sign == '^' || sign == '~') && s != "" && Body(s)
    ensures var t := [sign] + s; Edges(t) && NoDash(t) && t[0] == sign && !EndsInStar(t)
  {
    var t := [sign] + s;
    assert t[|t| - 1] == s[|s| - 1];
    forall k | 0 < k < |t| ensures BodyChar(t[k]) { assert t[k] == s[k - 1]; }
  }

  lemma SignedIs(t: string)
    requires t != "" && (t[0] == '^' || t[0] == '~') && !EndsInStar(t)
    ensures ParseWord(t) == if t[0] == '^' then Caret(t[1..]) else Tilde(t[1..])
  {
    assert !(IsStar(t[0]) || t[0] == '.' || t[0] == 'v');
    hide Caret, Tilde, ParseComparison;
  }

  /** Where a caret range is cut: behind the first of the numbers given that is not zero, behind the last of
      them, and at the latest behind the third. */
  predicate CaretCut(parts: Parts, given: nat, n: nat) {
    && 1 <= n <= 3 && (parts[n - 1] != 0 || n == given || n == 3)
    && forall k :: 0 <= k < n - 1 ==> parts[k] == 0 && k + 1 != given
  }

  lemma CaretCutIs(v: Version, given: nat, n: nat)
    requires given >= 1 && CaretCut(v.parts, given, n)
    ensures n == CaretPosition(v, given)
  {
    if n > 1 { assert v.parts[0] == 0 && 1 != given; }
    if n > 2 { assert v.parts[1] == 0 && 2 != given; }
  }

  /** `^` and a version: what agrees with it up to the first number that is not zero, from it on. */
  lemma CaretMeans(left: string, w: Written, right: string, v: Version, cut: seq<string>, back: string, n: nat, x: Version)
    requires Blanks(left) && Blanks(right) && w.Says(v) && CutAtDots(SuffixText(w.suffix), cut, back)
    requires CaretCut(v.parts, |w.pieces| + |cut| - 1, n)
    ensures var c := ParseSimple(left + ("^" + w.Shown()) + right);
            c.Some? && (MatchesGroup(c.value, x) <==> FromText(w, v, x) && SameUpTo(x.parts, v.parts, n))
  {
    SaysNumbers(w, v);
    CutIs(SuffixText(w.suffix), cut, back);
    hide *;
    SignedBody(left, '^', w, right, v);
    GivenIs(w, v, cut, back);
    TextParsesAs(w, v);
    CaretCutIs(v, |w.pieces| + |cut| - 1, n);
    CaretIs(w.Shown(), v);
    CaretCutBounds(v.parts, |w.pieces| + |cut| - 1, n);
    RangeMeans(w, v, n, x);
    assert ['^'] == "^";
  }

  lemma CaretCutBounds(parts: Parts, given: nat, n: nat)
    requires CaretCut(parts, given, n)
    ensures 1 <= n <= 3
  {
  }

  lemma CaretIs(rest: string, v: Version)
    requires Parse(rest) == Some(v)
    ensures Caret(rest) == Some([Cmp(Ge, Floor(v, rest)), Cmp(Lt, Bumped(v, CaretPosition(v, DottedCount(Stem(rest)))))])
  {
    hide Parse, Floor, Bumped, CaretPosition, DottedCount, Stem;
  }

  /** `~` and a version: what agrees with it up to the last number but one, from it on. */
  lemma TildeMeans(left: string, w: Written, right: string, v: Version, cut: seq<string>, back: string, x: Version)
    requires Blanks(left) && Blanks(right) && w.Says(v) && CutAtDots(SuffixText(w.suffix), cut, back)
    ensures var c := ParseSimple(left + ("~" + w.Shown()) + right);
            var given := |w.pieces| + |cut| - 1;
            var n := if given <= 2 then 1 else if given == 3 then 2 else 3;
            c.Some? && (MatchesGroup(c.value, x) <==> FromText(w, v, x) && SameUpTo(x.parts, v.parts, n))
  {
    SaysNumbers(w, v);
    CutIs(SuffixText(w.suffix), cut, back);
    TextIsBody(w, v);
    NoArrow(w.Shown());
    hide *;
    var given := |w.pieces| + |cut| - 1;
    SignedBody(left, '~', w, right, v);
    GivenIs(w, v, cut, back);
    TextParsesAs(w, v);
    TildeIs(w.Shown(), v, given);
    RangeMeans(w, v, if given <= 2 then 1 else if given == 3 then 2 else 3, x);
    assert ['~'] == "~";
  }

  lemma NoArrow(s: string)
    requires s != "" && PlainChar(s[0])
    ensures !StartsWith(s, ">")
  {
  }

  lemma TildeIs(rest: string, v: Version, given: nat)
    requires Parse(rest) == Some(v) && !StartsWith(rest, ">") && given == DottedCount(Stem(rest)) && given >= 1
    ensures Tilde(rest) ==
            Some([Cmp(Ge, Floor(v, rest)), Cmp(Lt, Bumped(v, if given <= 2 then 1 else if given == 3 then 2 else 3))])
  {
    hide Parse, Floor, Bumped, DottedCount, Stem, StartsWith;
  }

  // ----- operators --------------------------------------------------------------------------------------------

  /** The signs and what they stand for; no sign at all means the version itself. */
  predicate Stands(sign: string, op: Op) {
    match op
    case Ge => sign == ">="
    case Le => sign == "<="
    case Ne => sign == "<>" || sign == "!="
    case Gt => sign == ">"
    case Lt => sign == "<"
    case Eq => sign == "==" || sign == "=" || sign == ""
  }

  lemma StandsFirst(sign: string, op: Op)
    requires Stands(sign, op)
    ensures |sign| <= 2
    ensures sign != "" ==> sign[0] == '>' || sign[0] == '<' || sign[0] == '!' || sign[0] == '='
    ensures |sign| == 2 ==> sign[1] == '=' || sign[1] == '>'
  {
  }

  lemma ComparisonOf(sign: string, op: Op, tail: string)
    requires Stands(sign, op) && tail != "" && (PlainChar(tail[0]) || Blank(tail[0]))
    ensures ParseComparison(sign + tail) == Operator(op, tail)
  {
    var t := sign + tail;
    assert t[|sign|..] == tail && t[|sign|] == tail[0];
    assert forall k :: 0 <= k < |sign| ==> t[k] == sign[k];
    Starts(t, '>', '=');
    Starts(t, '<', '=');
    Starts(t, '<', '>');
    Starts(t, '!', '=');
    Starts(t, '=', '=');
    hide Operator, StartsWith;
    if |sign| == 2 { assert t[0] == sign[0] && t[1] == sign[1]; } else { assert |t| >= 2 ==> t[1] != '=' || sign == ""; }
  }

  lemma Starts(t: string, a: char, b: char)
    ensures StartsWith(t, [a, b]) <==> |t| >= 2 && t[0] == a && t[1] == b
    ensures StartsWith(t, [a]) <==> t != "" && t[0] == a
  {
  }

  /** What a sign says of a version; `<` and `>=` of a version without a suffix speak of its dev floor. */
  predicate Compares(op: Op, w: Written, v: Version, x: Version) {
    match op
    case Ge => FromText(w, v, x)
    case Lt => !FromText(w, v, x)
    case Gt => !From(v, x)
    case Le => From(v, x)
    case Eq => x == v
    case Ne => x != v
  }

  lemma OperatorIs(op: Op, mid: string, w: Written, v: Version)
    requires Blanks(mid) && w.Says(v)
    ensures Operator(op, mid + w.Shown()) ==
            Some([Cmp(op, if (op == Lt || op == Ge) && !HasSuffix(w.Shown()) then DevFloor(v) else v)])
  {
    TextIsBody(w, v);
    TextParsesAs(w, v);
    BodyEdge(w.Shown());
    assert mid + w.Shown() == mid + (w.Shown() + "");
    TrimsTo(mid, w.Shown(), "");
    hide Parse, Trim, HasSuffix;
  }

  lemma BodyEdge(s: string)
    requires s != "" && Body(s)
    ensures !Blank(s[0]) && !Blank(s[|s| - 1])
  {
  }

  lemma CmpMeans(op: Op, w: Written, v: Version, x: Version)
    requires w.Says(v)
    ensures Holds(Cmp(op, if (op == Lt || op == Ge) && !HasSuffix(w.Shown()) then DevFloor(v) else v), x) <==> Compares(op, w, v, x)
  {
    SuffixShows(w, v);
    OrderIs(x, v);
    FloorIs(x, v);
    TotalOrder(x, DevFloor(v), x);
    TotalOrder(x, v, x);
    OrderIs(v, x);
    hide HasSuffix, Compare, AtLeast, From;
  }

  lemma SignedVersionEdges(sign: string, op: Op, mid: string, s: string)
    requires Stands(sign, op) && Blanks(mid) && (sign == "" ==> mid == "")
    requires s != "" && Body(s) && PlainChar(s[0]) && s[0] != '.'
    ensures var t := sign + (mid + s);
            Edges(t) && NoDash(t) && !IsWildcard(t) && !EndsInStar(t) && t[0] != '^' && t[0] != '~'
    ensures mid + s != "" && (PlainChar((mid + s)[0]) || Blank((mid + s)[0]))
  {
    var t := sign + (mid + s);
    StandsFirst(sign, op);
    assert t[|t| - 1] == s[|s| - 1];
    forall k | 0 <= k < |t|
      ensures k >= |sign| + |mid| ==> t[k] == s[k - |sign| - |mid|] && BodyChar(t[k])
      ensures |sign| <= k < |sign| + |mid| ==> Blank(t[k])
    {
      assert |sign| <= k < |sign| + |mid| ==> t[k] == mid[k - |sign|];
    }
    forall k | 0 <= k < |t| - 1 && t[k] == ' ' ensures t[k + 1] != '-' {}
    forall k | 0 <= k < |t| ensures !IsStar(t[k]) {}
  }

  lemma ComparisonWord(t: string)
    requires t != "" && !IsWildcard(t) && !EndsInStar(t) && t[0] != '^' && t[0] != '~'
    ensures ParseWord(t) == ParseComparison(t)
  {
    hide ParseComparison, IsWildcard, EndsInStar;
  }

  /** A sign, perhaps blanks, and a version. */
  lemma SignMeans(left: string, sign: string, op: Op, mid: string, w: Written, right: string, v: Version, x: Version)
    requires Blanks(left) && Blanks(mid) && Blanks(right) && Stands(sign, op) && (sign == "" ==> mid == "") && w.Says(v)
    ensures var c := ParseSimple(left + (sign + (mid + w.Shown())) + right);
            c.Some? && (MatchesGroup(c.value, x) <==> Compares(op, w, v, x))
  {
    hide *;
    TextIsBody(w, v);
    SignedVersionEdges(sign, op, mid, w.Shown());
    var t := sign + (mid + w.Shown());
    TokenIs(left, t, right);
    EdgesNotEmpty(t);
    ComparisonWord(t);
    ComparisonOf(sign, op, mid + w.Shown());
    OperatorIs(op, mid, w, v);
    CmpMeans(op, w, v, x);
    var s := Cmp(op, if (op == Lt || op == Ge) && !HasSuffix(w.Shown()) then DevFloor(v) else v);
    PairMeans(s, s, x);
  }

  lemma EdgesNotEmpty(t: string)
    requires Edges(t)
    ensures t != "" && !Blank(t[0]) && !Blank(t[|t| - 1])
  {
  }

  // ----- wildcards -----------------------------------------------------------------------------------------------

  /** Stars, dots and small `v`s with at least one star admit everything. */
  lemma StarMeans(left: string, t: string, right: string, x: Version)
    requires Blanks(left) && Blanks(right)
    requires forall k :: 0 <= k < |t| ==> t[k] == '*' || t[k] == 'x' || t[k] == 'X' || t[k] == '.' || t[k] == 'v'
    requires exists k :: 0 <= k < |t| && (t[k] == '*' || t[k] == 'x' || t[k] == 'X')
    ensures var c := ParseSimple(left + t + right); c.Some? && MatchesGroup(c.value, x)
  {
    var k :| 0 <= k < |t| && (t[k] == '*' || t[k] == 'x' || t[k] == 'X');
    assert IsStar(t[k]);
    TokenIs(left, t, right);
    assert ParseWord(t) == Some([Any]);
    hide *;
    AnyHolds(x);
    PairMeans(Any, Any, x);
  }

  lemma AnyHolds(x: Version)
    ensures Holds(Any, x)
  {
  }

  /** Numbers and `.*` or `.x`: what begins with these numbers. Behind a suffix there is no such range. */
  lemma XRangeMeans(left: string, w: Written, star: char, right: string, v: Version, x: Version)
    requires Blanks(left) && Blanks(right) && w.Says(v) && (star == '*' || star == 'x')
    ensures var c := ParseSimple(left + (w.Shown() + ['.', star]) + right);
            if w.Plain() then c.Some? && (MatchesGroup(c.value, x) <==> SameUpTo(x.parts, v.parts, |w.pieces|)) else c == None
  {
    TextIsBody(w, v);
    StarredEdges(w, v, star);
    hide *;
    var t := w.Shown() + ['.', star];
    TokenIs(left, t, right);
    StarredIs(w.Shown(), star);
    SuffixShows(w, v);
    TextParsesAs(w, v);
    if w.Plain() {
      PlainCount(w, v);
      SaysNumbers(w, v);
      XRangeIs(w.Shown(), v, |w.pieces|);
      TwoBounds(v, |w.pieces|, x);
      FamilyBounds(v, |w.pieces|, x);
      FamilyIs(v, |w.pieces|, x);
      ZeroTail(w, v, x);
      PairMeans(Cmp(Lt, Bumped(v, |w.pieces|)), Any, x);
    } else {
      SuffixedRange(w.Shown(), v);
    }
  }

  lemma StarredEdges(w: Written, v: Version, star: char)
    requires w.Says(v) && (star == '*' || star == 'x')
    requires w.Shown() != "" && Body(w.Shown()) && PlainChar(w.Shown()[0]) && w.Shown()[0] != '.'
    requires var num := Text.Join(w.pieces, '.'); num != "" && Digit(num[0])
    ensures var t := w.Shown() + ['.', star]; Edges(t) && NoDash(t) && !IsWildcard(t)
  {
    var s := w.Shown();
    var t := s + ['.', star];
    hide Text.Join, SuffixText, Numbers, SuffixFits;
    forall k | 0 <= k < |t| ensures t[k] != ' ' { assert k < |s| ==> BodyChar(s[k]) && t[k] == s[k]; }
    assert t[0] == s[0] && t[|w.lead|] == Text.Join(w.pieces, '.')[0];
    assert BodyChar(s[0]);
  }

  lemma StarredIs(s: string, star: char)
    requires (star == '*' || star == 'x') && !IsWildcard(s + ['.', star])
    ensures ParseWord(s + ['.', star]) == XRange(s)
  {
    var t := s + ['.', star];
    assert t[..|t| - 2] == s && EndsInStar(t);
    hide XRange, IsWildcard;
  }

  lemma XRangeIs(stem: string, v: Version, n: nat)
    requires Parse(stem) == Some(v) && !HasSuffix(stem) && n == DottedCount(stem) && 1 <= n <= 4
    ensures XRange(stem) == Some(if v.parts == [0, 0, 0, 0] then [Cmp(Lt, Bumped(v, n))]
                                 else [Cmp(Ge, DevFloor(v)), Cmp(Lt, Bumped(v, n))])
  {
    hide Parse, HasSuffix, DottedCount, Bumped;
  }

  lemma SuffixedRange(stem: string, v: Version)
    requires Parse(stem) == Some(v) && HasSuffix(stem)
    ensures XRange(stem) == None
  {
    hide Parse, HasSuffix;
  }

  lemma FamilyIs(v: Version, n: nat, x: Version)
    requires 1 <= n <= 4
    ensures InFamily(v, n, x) <==> AtLeast(x.parts, v.parts) && SameUpTo(x.parts, v.parts, n)
  {
    FloorIs(x, v);
    hide Compare, AtLeast;
    assert x.parts[..n] == v.parts[..n] <==> SameUpTo(x.parts, v.parts, n) by {
      if x.parts[..n] == v.parts[..n] {
        forall k | 0 <= k < n ensures x.parts[k] == v.parts[k] { assert x.parts[..n][k] == v.parts[..n][k]; }
      }
    }
  }

  /** Behind the numbers given there are zeros, which nothing is before. */
  lemma ZeroTail(w: Written, v: Version, x: Version)
    requires w.Says(v)
    ensures SameUpTo(x.parts, v.parts, |w.pieces|) ==> AtLeast(x.parts, v.parts)
  {
  }

  // ----- hyphen ranges ----------------------------------------------------------------------------------------------

  lemma {:induction false} FindHyphenAt(a: string, tail: string)
    requires ' ' !in a
    ensures FindHyphen(a + (" - " + tail)) == Some(|a|)
  {
    var t := a + (" - " + tail);
    if a == "" {
      assert t == " - " + tail && t[..3] == " - ";
    } else {
      assert t[1..] == a[1..] + (" - " + tail) && t[0] == a[0] && " - "[0] == ' ';
      FindHyphenAt(a[1..], tail);
    }
  }

  lemma HyphenEdges(a: string, mid: string, b: string)
    requires a != "" && Body(a) && b != "" && Body(b)
    ensures var t := a + (" - " + (mid + b)); Edges(t) && ' ' !in a && t[..|a|] == a && t[|a| + 3..] == mid + b
  {
    var t := a + (" - " + (mid + b));
    assert t[0] == a[0] && t[|t| - 1] == b[|b| - 1];
    assert forall k :: 0 <= k < |a| ==> BodyChar(a[k]);
  }

  lemma HyphenToken(left: string, a: string, mid: string, b: string, right: string)
    requires Blanks(left) && Blanks(right) && a != "" && Body(a) && b != "" && Body(b)
    ensures ParseSimple(left + (a + (" - " + (mid + b))) + right) == HyphenRange(a, mid + b)
  {
    hide *;
    var t := a + (" - " + (mid + b));
    HyphenEdges(a, mid, b);
    EdgesNotEmpty(t);
    FindHyphenAt(a, mid + b);
    Glue(left, t, right);
    TrimsTo(left, t, right);
    HyphenSimple(left + t + right, t, |a|);
  }

  lemma HyphenSimple(token: string, t: string, i: nat)
    requires Trim(token) == t && FindHyphen(t) == Some(i)
    ensures ParseSimple(token) == HyphenRange(t[..i], t[i + 3..])
  {
    hide Trim, FindHyphen, HyphenRange;
  }

  lemma HyphenIs(from: string, to: string, s: string, v: Version, u: Version)
    requires Parse(from) == Some(v) && Trim(to) == s && Parse(s) == Some(u)
    ensures HyphenRange(from, to) ==
            Some([Cmp(Ge, Floor(v, from)),
                  if HasSuffix(s) || DottedCount(s) >= 3 then Cmp(Le, u) else Cmp(Lt, Bumped(u, DottedCount(s)))])
  {
    hide Parse, Trim, Floor, Bumped, HasSuffix, DottedCount;
  }

  /** From one version to another; to what begins with its numbers when these are one or two. */
  lemma HyphenMeans(left: string, a: Written, v: Version, mid: string, b: Written, u: Version, right: string, x: Version)
    requires Blanks(left) && Blanks(mid) && Blanks(right) && a.Says(v) && b.Says(u)
    ensures var c := ParseSimple(left + (a.Shown() + (" - " + (mid + b.Shown()))) + right);
            c.Some? && (MatchesGroup(c.value, x) <==>
                          FromText(a, v, x) &&
                          if !b.Plain() || |b.pieces| >= 3 then From(u, x) else NotBeyond(x.parts, u.parts, |b.pieces|))
  {
    SaysNumbers(b, u);
    hide *;
    TextIsBody(a, v);
    TextIsBody(b, u);
    TextParsesAs(a, v);
    TextParsesAs(b, u);
    HyphenToken(left, a.Shown(), mid, b.Shown(), right);
    OnlyBlanksBefore(mid, b.Shown());
    HyphenIs(a.Shown(), mid + b.Shown(), b.Shown(), v, u);
    SuffixShows(b, u);
    LowMeans(a, v, x);
    OrderIs(x, u);
    if b.Plain() {
      PlainCount(b, u);
      if |b.pieces| < 3 {
        BumpIs(x, u, |b.pieces|);
        LessHolds(Bumped(u, |b.pieces|), x);
      }
    }
    UpToHolds(u, x);
    PairMeans(Cmp(Ge, Floor(v, a.Shown())),
              if HasSuffix(b.Shown()) || DottedCount(b.Shown()) >= 3 then Cmp(Le, u) else Cmp(Lt, Bumped(u, DottedCount(b.Shown()))),
              x);
  }

  lemma UpToHolds(u: Version, x: Version)
    ensures Holds(Cmp(Le, u), x) <==> Compare(x, u) != Greater
  {
  }

  lemma OnlyBlanksBefore(mid: string, s: string)
    requires Blanks(mid) && s != "" && Body(s)
    ensures Trim(mid + s) == s
  {
    BodyEdge(s);
    assert mid + s == mid + (s + "");
    TrimsTo(mid, s, "");
  }

  // ----- nothing else ------------------------------------------------------------------------------------------------

  ghost predicate IsVersion(s: string) { exists v :: IsText(s, v) }

  lemma ParsesIff(s: string)
    ensures Parse(s).Some? <==> IsVersion(s)
  {
    hide Parse, IsText;
    if Parse(s).Some? { ParseIff(s, Parse(s).value); }
    if IsVersion(s) {
      var v :| IsText(s, v);
      ParseIff(s, v);
    }
  }

  /** The texts that stand for constraints: two versions with a hyphen between them, stars and dots, a version
      and a star, or a sign and a version. */
  ghost predicate IsToken(t: string) {
    || (exists i :: 0 <= i <= |t| - 3 && t[i] == ' ' && t[i + 1] == '-' && t[i + 2] == ' ' && IsVersion(t[..i]) && IsVersion(t[i + 3..]))
    || ((forall k :: 0 <= k < |t| ==> t[k] == '*' || t[k] == 'x' || t[k] == 'X' || t[k] == '.' || t[k] == 'v')
        && (exists k :: 0 <= k < |t| && (t[k] == '*' || t[k] == 'x' || t[k] == 'X')))
    || (|t| >= 2 && t[|t| - 2] == '.' && (t[|t| - 1] == '*' || t[|t| - 1] == 'x') && IsVersion(t[..|t| - 2]))
    || (t != "" && (t[0] == '^' || t[0] == '~') && IsVersion(t[1..]))
    || (exists i, op :: 0 <= i <= |t| && Stands(t[..i], op) && IsVersion(t[i..]))
  }

  lemma {:induction false} HyphenFound(t: string)
    ensures FindHyphen(t).Some? ==> var i := FindHyphen(t).value; t[i] == ' ' && t[i + 1] == '-' && t[i + 2] == ' '
  {
    if t != "" && !(" - " <= t) { HyphenFound(t[1..]); }
  }

  lemma {:induction false} TrimmedIsVersion(s: string)
    requires IsVersion(Trim(s))
    ensures IsVersion(s)
  {
    ParsesIff(s);
    ParsesIff(Trim(s));
    var left := TrimmedStart(s);
    var right := TrimmedEnd(TrimStart(s));
    TrimTwice(s);
    SameParse(s, Trim(s));
  }

  lemma TrimTwice(s: string)
    ensures Trim(Trim(s)) == Trim(s)
  {
    TrimmedEdges(s);
    hide TrimStart, TrimEnd;
    var t := Trim(s);
    if t != "" {
      TrimStartBoth("", t);
      TrimEndBoth(t, "");
      assert "" + t == t && t + "" == t;
    } else {
      EmptyTrims();
    }
  }

  lemma EmptyTrims()
    ensures Trim("") == ""
  {
  }

  lemma TrimmedEdges(s: string)
    ensures Trim(s) != "" ==> !Blank(Trim(s)[0]) && !Blank(Trim(s)[|Trim(s)| - 1])
  {
    StartEdge(s);
    EndEdge(TrimStart(s));
  }

  lemma {:induction false} StartEdge(s: string)
    ensures TrimStart(s) != "" ==> !Blank(TrimStart(s)[0])
  {
    if s != "" {
      SameCharacters(s[0]);
      if IsBlank(s[0]) { StartEdge(s[1..]); }
    }
  }

  lemma {:induction false} EndEdge(s: string)
    ensures TrimEnd(s) != "" ==> !Blank(TrimEnd(s)[|TrimEnd(s)| - 1]) && TrimEnd(s)[0] == s[0]
    decreases |s|
  {
    if s != "" {
      SameCharacters(s[|s| - 1]);
      if IsBlank(s[|s| - 1]) { EndEdge(s[..|s| - 1]); }
    }
  }

  /** Nothing else is read as a constraint. */
  lemma NothingElse(token: string)
    requires ParseSimple(token).Some?
    ensures exists left, t, right :: Blanks(left) && Blanks(right) && token == left + t + right && IsToken(t)
  {
    hide *;
    var left, right := TrimmedOff(token);
    TrimmedToken(token);
    assert token == left + Trim(token) + right;
  }

  lemma TrimmedOff(s: string) returns (left: string, right: string)
    ensures Blanks(left) && Blanks(right) && s == left + Trim(s) + right
  {
    left := TrimmedStart(s);
    right := TrimmedEnd(TrimStart(s));
    hide Blanks, TrimStart, TrimEnd;
    assert s == left + (Trim(s) + right);
  }

  lemma TrimmedToken(token: string)
    requires ParseSimple(token).Some?
    ensures IsToken(Trim(token))
  {
    var t := Trim(token);
    HyphenFound(t);
    hide FindHyphen, Trim, IsVersion, HyphenRange, ParseWord;
    match FindHyphen(t)
    case Some(i) =>
      HyphenParses(t[..i], t[i + 3..]);
    case None =>
      WordParses(t);
  }

  lemma HyphenParses(from: string, to: string)
    requires HyphenRange(from, to).Some?
    ensures IsVersion(from) && IsVersion(to)
  {
    ParsesIff(from);
    ParsesIff(Trim(to));
    hide Parse, Trim, IsVersion, Floor, HasSuffix, DottedCount, Bumped;
    TrimmedIsVersion(to);
  }

  lemma WordParses(t: string)
    requires ParseWord(t).Some?
    ensures IsToken(t)
  {
    hide XRange, Caret, Tilde, IsVersion, ParseComparison;
    if IsWildcard(t) {
    } else if EndsInStar(t) {
      StemParses(t[..|t| - 2]);
    } else if t != "" && (t[0] == '^' || t[0] == '~') {
      RestParses(t[1..]);
    } else {
      ComparisonParses(t);
    }
  }

  lemma StemParses(stem: string)
    requires XRange(stem).Some?
    ensures IsVersion(stem)
  {
    ParsesIff(stem);
    hide Parse, HasSuffix, IsVersion, DottedCount, Bumped;
  }

  lemma RestParses(rest: string)
    requires Caret(rest).Some? || Tilde(rest).Some?
    ensures IsVersion(rest)
  {
    ParsesIff(rest);
    hide Parse, IsVersion, Bumped, Floor, CaretPosition, TildePosition, DottedCount, Stem;
  }

  lemma OperatorParses(op: Op, text: string)
    requires Operator(op, text).Some?
    ensures IsVersion(text)
  {
    ParsesIff(Trim(text));
    hide Parse, Trim, IsVersion, HasSuffix;
    TrimmedIsVersion(text);
  }

  lemma ComparisonParses(t: string)
    requires ParseComparison(t).Some?
    ensures exists i, op :: 0 <= i <= |t| && Stands(t[..i], op) && IsVersion(t[i..])
  {
    hide Operator, IsVersion;
    if StartsWith(t, ">=") { AfterSign(t, 2, Ge); }
    else if StartsWith(t, "<=") { AfterSign(t, 2, Le); }
    else if StartsWith(t, "<>") || StartsWith(t, "!=") { AfterSign(t, 2, Ne); }
    else if StartsWith(t, ">") { AfterSign(t, 1, Gt); }
    else if StartsWith(t, "<") { AfterSign(t, 1, Lt); }
    else if StartsWith(t, "==") { AfterSign(t, 2, Eq); }
    else if StartsWith(t, "=") { AfterSign(t, 1, Eq); }
    else {
      assert t[0..] == t;
      AfterSign(t, 0, Eq);
    }
  }

  lemma AfterSign(t: string, i: nat, op: Op)
    requires i <= |t| && Stands(t[..i], op) && Operator(op, t[i..]).Some?
    ensures exists i, op :: 0 <= i <= |t| && Stands(t[..i], op) && IsVersion(t[i..])
  {
    OperatorParses(op, t[i..]);
    hide Operator, IsVersion;
  }

  // ----- bounds ---------------------------------------------------------------------------------------------------------

  /** `>=`, `==` and `>` bound from below, the last without its version; nothing else does. */
  lemma BoundIs(op: Op, v: Version, x: Version)
    ensures BoundOf(Any) == None && (op == Ne || op == Lt || op == Le ==> BoundOf(Cmp(op, v)) == None)
    ensures op == Ge || op == Eq || op == Gt ==>
              && BoundOf(Cmp(op, v)).Some? && BoundOf(Cmp(op, v)).value.version == v
              && (Reaches(x, BoundOf(Cmp(op, v)).value) <==> if op == Gt then !From(v, x) else From(x, v))
  {
    OrderIs(x, v);
    hide Compare, From;
  }

  /** Of two bounds the later version is the higher, and at one version the bound without it. */
  lemma HigherIs(a: LowerBound, b: LowerBound)
    ensures Higher(a, b) <==>
            (!From(b.version, a.version)) || (a.version == b.version && !a.inclusive && b.inclusive)
  {
    OrderIs(a.version, b.version);
    OrderIs(b.version, a.version);
    hide Compare, From;
  }

  predicate AllHold(group: seq<Simple>, x: Version) { forall j :: 0 <= j < |group| ==> Holds(group[j], x) }

  lemma GroupIff(group: seq<Simple>, x: Version)
    ensures MatchesGroup(group, x) <==> AllHold(group, x)
  {
    hide Holds;
    if AllHold(group, x) {
      forall c | c in group ensures Holds(c, x) {
        var j :| 0 <= j < |group| && group[j] == c;
      }
    }
  }

  /** A constraint admits what all the conditions of one of its groups admit. */
  lemma MatchesIff(c: Constraint, x: Version)
    ensures Matches(c, x) <==> exists i :: 0 <= i < |c| && AllHold(c[i], x)
  {
    hide MatchesGroup, AllHold;
    if Matches(c, x) {
      var group :| group in c && MatchesGroup(group, x);
      var i :| 0 <= i < |c| && c[i] == group;
      GroupIff(c[i], x);
    }
    if i :| 0 <= i < |c| && AllHold(c[i], x) {
      GroupIff(c[i], x);
      assert c[i] in c;
    }
  }
}
