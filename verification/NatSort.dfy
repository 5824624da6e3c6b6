/** Natural, case-insensitive comparison of package names (natsort.rs).

    The two-index scanner is proved to be the lexicographic comparison of a `Key`: a
    sequence of integers computed from each string alone. Every order law follows from
    that, on all byte strings. */
module NatSort {
  import opened Common

  predicate IsDigit(b: Byte) { 48 <= b <= 57 }

  /** `u8::is_ascii_whitespace`. */
  predicate IsSpace(b: Byte) { b == 32 || b == 9 || b == 10 || b == 12 || b == 13 }

  function ToUpper(b: Byte): Byte { if 97 <= b <= 122 then b - 32 else b }

  const ZERO: Byte := 48

  /** The digits a string begins with. */
  function DigitRun(s: seq<Byte>): (r: seq<Byte>)
    ensures r <= s
    ensures forall k :: 0 <= k < |r| ==> IsDigit(r[k])
    ensures |r| < |s| ==> !IsDigit(s[|r|])
  {
    if s != [] && IsDigit(s[0]) then [s[0]] + DigitRun(s[1..]) else []
  }

  function SkipSpaces(s: seq<Byte>): (r: seq<Byte>)
    ensures |r| <= |s|
    ensures r != [] ==> !IsSpace(r[0])
  {
    if s != [] && IsSpace(s[0]) then SkipSpaces(s[1..]) else s
  }

  /** Leading zeros count for nothing, as long as a digit follows them. */
  function StripZeros(s: seq<Byte>): seq<Byte> {
    if |s| > 1 && s[0] == ZERO && IsDigit(s[1]) then StripZeros(s[1..]) else s
  }

  const TRAILING: int := -1 // spaces at the very end: more than nothing, less than any byte
  const RUN_END: int := -2
  const FRACTION: int := 48 // digit runs sort where the digits do; those with a leading zero first
  const NUMBER: int := 49

  /** Code of one digit run followed by `rest`: fractions digit by digit, numbers by length
      and then by digits. */
  function RunCode(r: seq<Byte>, rest: seq<int>): seq<int>
    requires r != []
  {
    if r[0] == ZERO then [FRACTION] + (r + ([RUN_END] + rest)) else [NUMBER] + ([|r|] + (r + rest))
  }

  /** Code of `s` where the scanner stands between two tokens. `inside` is false only at the
      start of the string, where spaces up to the end weigh nothing. */
  function Code(s: seq<Byte>, inside: bool): seq<int>
    decreases |s|
  {
    var t := SkipSpaces(s);
    if t == [] then (if inside && s != [] then [TRAILING] else [])
    else if IsDigit(t[0]) then RunCode(DigitRun(t), Code(t[|DigitRun(t)|..], true))
    else [ToUpper(t[0]) as int] + Code(t[1..], true)
  }

  /** The sort key of a name. */
  function Key(s: seq<Byte>): seq<int> { Code(StripZeros(s), false) }

  // ----- the scanner ---------------------------------------------------------------------

  /** Two runs without a leading zero: the longer wins, then the first differing digit. */
  method CompareRight(a: seq<Byte>, b: seq<Byte>) returns (res: Ordering, i: nat, j: nat)
    ensures var ra, rb := DigitRun(a), DigitRun(b);
            && res == (if |ra| != |rb| then CompareInt(|ra|, |rb|) else LexCompare(ra, rb))
            && (res == Equal ==> i == j == |ra| == |rb|)
  {
    ghost var ra, rb := DigitRun(a), DigitRun(b);
    var bias := Equal;
    i, j := 0, 0;
    while true
      invariant i == j && i <= |ra| && i <= |rb|
      invariant bias == LexCompare(ra[..i], rb[..i])
      decreases |a| - i
    {
      var ca := i < |a| && IsDigit(a[i]);
      var cb := j < |b| && IsDigit(b[j]);
      assert ca <==> i < |ra|;
      assert cb <==> j < |rb|;
      if !ca && !cb {
        assert ra[..i] == ra && rb[..i] == rb;
        return bias, i, j;
      }
      if !ca { return Less, i, j; }
      if !cb { return Greater, i, j; }
      ExtendPrefix(ra, rb, i);
      if bias == Equal {
        bias := CompareInt(a[i], b[j]);
      }
      i := i + 1;
      j := j + 1;
    }
  }

  /** One more element changes the verdict only when it was still open. */
  lemma ExtendPrefix(p: seq<int>, q: seq<int>, i: nat)
    requires i < |p| && i < |q|
    ensures LexCompare(p[..i + 1], q[..i + 1]) ==
            (if LexCompare(p[..i], q[..i]) == Equal then CompareInt(p[i], q[i]) else LexCompare(p[..i], q[..i]))
  {
    if i > 0 {
      assert p[..i][1..] == p[1..][..i - 1] && q[..i][1..] == q[1..][..i - 1];
      assert p[..i + 1][1..] == p[1..][..i] && q[..i + 1][1..] == q[1..][..i];
      ExtendPrefix(p[1..], q[1..], i - 1);
    }
  }

  /** Runs where one has a leading zero: digit by digit. */
  method CompareLeft(a: seq<Byte>, b: seq<Byte>) returns (res: Ordering, i: nat, j: nat)
    ensures var ra, rb := DigitRun(a), DigitRun(b);
            res == LexCompare(ra, rb) && (res == Equal ==> i == j == |ra| == |rb|)
  {
    ghost var ra, rb := DigitRun(a), DigitRun(b);
    i, j := 0, 0;
    while true
      invariant i == j && i <= |ra| && i <= |rb|
      invariant LexCompare(ra, rb) == LexCompare(ra[i..], rb[i..])
      decreases |a| - i
    {
      var ca := i < |a| && IsDigit(a[i]);
      var cb := j < |b| && IsDigit(b[j]);
      assert ca <==> i < |ra|;
      assert cb <==> j < |rb|;
      if !ca && !cb { return Equal, i, j; }
      if !ca { return Less, i, j; }
      if !cb { return Greater, i, j; }
      if a[i] != b[j] { return CompareInt(a[i], b[j]), i, j; }
      assert ra[i..][1..] == ra[i + 1..] && rb[i..][1..] == rb[i + 1..];
      i := i + 1;
      j := j + 1;
    }
  }

  /** Verdict of the scanner on two digit runs. */
  function CompareRuns(ra: seq<Byte>, rb: seq<Byte>): Ordering
    requires ra != [] && rb != []
  {
    if ra[0] != ZERO && rb[0] != ZERO && |ra| != |rb| then CompareInt(|ra|, |rb|)
    else LexCompare(ra, rb)
  }

  /** Digits end with a terminator lower than any digit, so appending it decides nothing new. */
  lemma {:induction false} TerminatedRuns(ra: seq<Byte>, p: seq<int>, rb: seq<Byte>, q: seq<int>)
    requires ra != rb
    ensures LexCompare(ra + ([RUN_END] + p), rb + ([RUN_END] + q)) == LexCompare(ra, rb)
  {
    var x, y := ra + ([RUN_END] + p), rb + ([RUN_END] + q);
    if ra != [] && rb != [] && ra[0] == rb[0] {
      assert x[1..] == ra[1..] + ([RUN_END] + p) && y[1..] == rb[1..] + ([RUN_END] + q);
      assert ra == [ra[0]] + ra[1..] && rb == [rb[0]] + rb[1..];
      TerminatedRuns(ra[1..], p, rb[1..], q);
    }
  }

  /** Runs of one length, whatever follows them. */
  lemma {:induction false} SameLengthRuns(ra: seq<Byte>, p: seq<int>, rb: seq<Byte>, q: seq<int>)
    requires |ra| == |rb| && ra != rb
    ensures LexCompare(ra + p, rb + q) == LexCompare(ra, rb)
  {
    if ra[0] == rb[0] {
      assert (ra + p)[1..] == ra[1..] + p && (rb + q)[1..] == rb[1..] + q;
      assert ra == [ra[0]] + ra[1..] && rb == [rb[0]] + rb[1..];
      SameLengthRuns(ra[1..], p, rb[1..], q);
    }
  }

  lemma RunCodesDecide(ra: seq<Byte>, p: seq<int>, rb: seq<Byte>, q: seq<int>)
    requires ra != [] && rb != [] && IsDigit(ra[0]) && IsDigit(rb[0])
    ensures CompareRuns(ra, rb) == Equal <==> ra == rb
    ensures LexCompare(RunCode(ra, p), RunCode(rb, q)) ==
            if ra == rb then LexCompare(p, q) else CompareRuns(ra, rb)
  {
    LexEqual(ra, rb);
    if ra[0] == ZERO && rb[0] == ZERO {
      LexStep(FRACTION, ra + ([RUN_END] + p), FRACTION, rb + ([RUN_END] + q));
      if ra == rb {
        LexCommonPrefix(ra, [RUN_END] + p, [RUN_END] + q);
        LexStep(RUN_END, p, RUN_END, q);
      } else {
        TerminatedRuns(ra, p, rb, q);
      }
    } else if ra[0] != ZERO && rb[0] != ZERO {
      LexStep(NUMBER, [|ra|] + (ra + p), NUMBER, [|rb|] + (rb + q));
      LexStep(|ra|, ra + p, |rb|, rb + q);
      if ra == rb {
        LexCommonPrefix(ra, p, q);
      } else if |ra| == |rb| {
        SameLengthRuns(ra, p, rb, q);
      }
    } else {
      MixedRuns(ra, p, rb, q);
    }
  }

  lemma MixedRuns(ra: seq<Byte>, p: seq<int>, rb: seq<Byte>, q: seq<int>)
    requires ra != [] && rb != [] && (ra[0] == ZERO) != (rb[0] == ZERO)
    requires IsDigit(ra[0]) && IsDigit(rb[0])
    ensures LexCompare(RunCode(ra, p), RunCode(rb, q)) == CompareRuns(ra, rb)
  {
    if ra[0] == ZERO {
      LexStep(FRACTION, ra + ([RUN_END] + p), NUMBER, [|rb|] + (rb + q));
    } else {
      LexStep(NUMBER, [|ra|] + (ra + p), FRACTION, rb + ([RUN_END] + q));
    }
  }

  // The code of a token as its first number and what comes after it.
  function Lead(x: seq<Byte>): (lead: int)
    requires x != []
    ensures lead >= 0
  {
    if !IsDigit(x[0]) then ToUpper(x[0]) else if x[0] == ZERO then FRACTION else NUMBER
  }

  function Follow(x: seq<Byte>): seq<int>
    requires x != []
  {
    if !IsDigit(x[0]) then Code(x[1..], true)
    else
      var r := DigitRun(x);
      var rest := Code(x[|r|..], true);
      if x[0] == ZERO then r + ([RUN_END] + rest) else [|r|] + (r + rest)
  }

  lemma CodeShape(s: seq<Byte>, inside: bool)
    requires SkipSpaces(s) != []
    ensures Code(s, inside) == [Lead(SkipSpaces(s))] + Follow(SkipSpaces(s))
  {
  }

  /** What the scanner decides on the next two tokens, spaces already skipped. */
  function Verdict(x: seq<Byte>, y: seq<Byte>): Ordering {
    if x == [] then (if y == [] then Equal else Less)
    else if y == [] then Greater
    else if IsDigit(x[0]) && IsDigit(y[0]) then CompareRuns(DigitRun(x), DigitRun(y))
    else CompareInt(ToUpper(x[0]), ToUpper(y[0]))
  }

  /** How far a tie lets the scanner advance in `x`. */
  function TokenLength(x: seq<Byte>): (n: nat)
    requires x != []
    ensures 0 < n <= |x|
  {
    if IsDigit(x[0]) then |DigitRun(x)| else 1
  }

  lemma NextTokens(s: seq<Byte>, t: seq<Byte>, inside: bool)
    requires inside ==> s != [] && t != []
    ensures var x, y := SkipSpaces(s), SkipSpaces(t);
            LexCompare(Code(s, inside), Code(t, inside)) ==
            if Verdict(x, y) != Equal || x == [] || y == [] then Verdict(x, y)
            else LexCompare(Code(x[TokenLength(x)..], true), Code(y[TokenLength(y)..], true))
  {
    var x, y := SkipSpaces(s), SkipSpaces(t);
    if x == [] && y == [] {
      LexEqual(Code(s, inside), Code(t, inside));
    } else if x != [] && y != [] {
      CodeShape(s, inside);
      CodeShape(t, inside);
      LexStep(Lead(x), Follow(x), Lead(y), Follow(y));
      if IsDigit(x[0]) && IsDigit(y[0]) {
        var ra, rb := DigitRun(x), DigitRun(y);
        RunCodesDecide(ra, Code(x[|ra|..], true), rb, Code(y[|rb|..], true));
      }
    } else {
      TokenAgainstEnd(s, t, inside);
    }
  }

  lemma TokenAgainstEnd(s: seq<Byte>, t: seq<Byte>, inside: bool)
    requires inside ==> s != [] && t != []
    requires (SkipSpaces(s) == []) != (SkipSpaces(t) == [])
    ensures LexCompare(Code(s, inside), Code(t, inside)) == if SkipSpaces(s) == [] then Less else Greater
  {
    if SkipSpaces(s) == [] {
      CodeShape(t, inside);
      assert Code(s, inside) == if inside then [TRAILING] + [] else [];
      LexStep(TRAILING, [], Lead(SkipSpaces(t)), Follow(SkipSpaces(t)));
    } else {
      CodeShape(s, inside);
      assert Code(t, inside) == if inside then [TRAILING] + [] else [];
      LexStep(Lead(SkipSpaces(s)), Follow(SkipSpaces(s)), TRAILING, []);
    }
  }

  /** Only the exhausted string has the empty code. */
  lemma Exhausted(s: seq<Byte>, t: seq<Byte>)
    requires s == [] || t == []
    ensures LexCompare(Code(s, true), Code(t, true)) ==
            if s == t then Equal else if s == [] then Less else Greater
  {
    if s != [] && SkipSpaces(s) != [] { CodeShape(s, true); }
    if t != [] && SkipSpaces(t) != [] { CodeShape(t, true); }
  }

  method SkipZeroPrefix(a: seq<Byte>) returns (ai: nat)
    ensures ai <= |a| && a[ai..] == StripZeros(a)
  {
    ai := 0;
    while ai + 1 < |a| && a[ai] == ZERO && IsDigit(a[ai + 1])
      invariant ai <= |a| && StripZeros(a[ai..]) == StripZeros(a)
    {
      assert a[ai..][1..] == a[ai + 1..];
      ai := ai + 1;
    }
  }

  method CountSpaces(a: seq<Byte>) returns (ai: nat)
    ensures ai <= |a| && a[ai..] == SkipSpaces(a)
  {
    ai := 0;
    while ai < |a| && IsSpace(a[ai])
      invariant ai <= |a| && SkipSpaces(a[ai..]) == SkipSpaces(a)
    {
      assert a[ai..][1..] == a[ai + 1..];
      ai := ai + 1;
    }
  }

  /** Two digit runs, or two folded bytes, or the end of a string; and how far a tie advances. */
  method CompareTokens(x: seq<Byte>, y: seq<Byte>) returns (res: Ordering, da: nat, db: nat)
    ensures res == Verdict(x, y)
    ensures res == Equal && x != [] && y != [] ==> da == TokenLength(x) && db == TokenLength(y)
  {
    da, db := 1, 1;
    if x == [] && y == [] { return Equal, 0, 0; }
    if x == [] { return Less, 0, 0; }
    if y == [] { return Greater, 0, 0; }
    if IsDigit(x[0]) && IsDigit(y[0]) {
      if x[0] == ZERO || y[0] == ZERO {
        res, da, db := CompareLeft(x, y);
      } else {
        res, da, db := CompareRight(x, y);
      }
    } else {
      res := CompareInt(ToUpper(x[0]), ToUpper(y[0]));
    }
  }

  /** One round of the scanner at spaces-and-all suffixes `s` and `t`: a verdict, or how far to
      go on with the question unchanged. */
  method NextRound(s: seq<Byte>, t: seq<Byte>, ghost inside: bool)
    returns (verdict: Option<Ordering>, i: nat, j: nat)
    requires inside ==> s != [] && t != []
    ensures verdict.Some? ==> verdict.value == LexCompare(Code(s, inside), Code(t, inside))
    ensures verdict.None? ==> 0 < i < |s| && 0 < j < |t|
    ensures verdict.None? ==>
              LexCompare(Code(s, inside), Code(t, inside)) == LexCompare(Code(s[i..], true), Code(t[j..], true))
  {
    var x := CountSpaces(s);
    var y := CountSpaces(t);
    var res, da, db := CompareTokens(s[x..], t[y..]);
    NextTokens(s, t, inside);
    if res != Equal || (x == |s| && y == |t|) { return Some(res), x, y; }
    i, j := x + da, y + db;
    assert s[x..][da..] == s[i..] && t[y..][db..] == t[j..];
    verdict := ExhaustedCheck(s[i..], t[j..]);
  }

  /** The three-way exit on exhausted strings that ends both branches of the source's loop. */
  method ExhaustedCheck(s: seq<Byte>, t: seq<Byte>) returns (verdict: Option<Ordering>)
    ensures verdict.Some? ==> verdict.value == LexCompare(Code(s, true), Code(t, true))
    ensures verdict.None? <==> s != [] && t != []
  {
    if s == [] || t == [] { Exhausted(s, t); }
    if s == [] && t == [] { return Some(Equal); }
    if s == [] { return Some(Less); }
    if t == [] { return Some(Greater); }
    verdict := None;
  }

  /** `strnatcasecmp` compares the keys. (`s` and `t` are `a` and `b` from the scanner's two
      indices on.) */
  method StrNatCaseCmp(a: seq<Byte>, b: seq<Byte>) returns (res: Ordering)
    ensures res == LexCompare(Key(a), Key(b))
  {
    var ai := SkipZeroPrefix(a);
    var bi := SkipZeroPrefix(b);
    var s, t := a[ai..], b[bi..];
    ghost var inside := false;
    ghost var goal := LexCompare(Code(s, false), Code(t, false));
    while true
      invariant inside ==> s != [] && t != []
      invariant goal == LexCompare(Code(s, inside), Code(t, inside))
      decreases |s|
    {
      var verdict, i, j := NextRound(s, t, inside);
      if verdict.Some? { return verdict.value; }
      s, t, inside := s[i..], t[j..], true;
    }
  }

  // ----- the order laws ------------------------------------------------------------------

  function Compare(a: seq<Byte>, b: seq<Byte>): Ordering { LexCompare(Key(a), Key(b)) }

  /** The comparison is a total preorder on all byte strings, and two names tie exactly when
      their keys coincide. */
  lemma TotalPreorder(a: seq<Byte>, b: seq<Byte>, c: seq<Byte>)
    ensures Compare(a, a) == Equal
    ensures Compare(b, a) == Compare(a, b).Reverse()
    ensures Compare(a, b) != Greater && Compare(b, c) != Greater ==> Compare(a, c) != Greater
    ensures Compare(a, b) != Greater && Compare(b, c) != Greater && Compare(a, c) == Equal
            ==> Compare(a, b) == Equal && Compare(b, c) == Equal
    ensures Compare(a, b) == Equal <==> Key(a) == Key(b)
  {
    LexEqual(Key(a), Key(a));
    LexEqual(Key(a), Key(b));
    LexReverse(Key(a), Key(b));
    if Compare(a, b) != Greater && Compare(b, c) != Greater {
      LexTransitive(Key(a), Key(b), Key(c));
    }
  }

  // ----- what "natural" means --------------------------------------------------------------

  /** The number a digit run denotes. */
  function Value(r: seq<Byte>): int {
    if r == [] then 0 else 10 * Value(r[..|r| - 1]) + (r[|r| - 1] - ZERO)
  }

  predicate IsNumeral(r: seq<Byte>) {
    r != [] && r[0] != ZERO && DigitRun(r) == r
  }

  lemma {:induction false} RunOrderIsNumericOrder(ra: seq<Byte>, rb: seq<Byte>)
    requires forall k :: 0 <= k < |ra| ==> IsDigit(ra[k])
    requires forall k :: 0 <= k < |rb| ==> IsDigit(rb[k])
    requires ra != [] ==> ra[0] != ZERO
    requires rb != [] ==> rb[0] != ZERO
    ensures CompareInt(Value(ra), Value(rb)) ==
            if |ra| != |rb| then CompareInt(|ra|, |rb|) else LexCompare(ra, rb)
  {
    if ra == [] && rb == [] {
    } else if ra == [] {
      RunOrderIsNumericOrder(ra, rb[..|rb| - 1]);
    } else if rb == [] {
      RunOrderIsNumericOrder(ra[..|ra| - 1], rb);
    } else {
      RunOrderIsNumericOrder(ra[..|ra| - 1], rb[..|rb| - 1]);
      if |ra| == |rb| {
        ExtendPrefix(ra, rb, |ra| - 1);
        assert ra[..|ra|] == ra && rb[..|rb|] == rb;
      }
    }
  }

  /** A prefix that does not end inside a digit run is common to both keys. */
  lemma {:induction false} SharedPrefix(p: seq<Byte>, x: seq<Byte>, y: seq<Byte>, inside: bool)
    requires x != [] && y != [] && !IsSpace(x[0]) && !IsSpace(y[0])
    requires p != [] ==> !IsDigit(p[|p| - 1])
    ensures LexCompare(Code(p + x, inside), Code(p + y, inside)) ==
            LexCompare(Code(x, true), Code(y, true))
    decreases |p|
  {
    hide Code, LexCompare, Verdict, DigitRun, IsSpace;
    SpacesBefore(p, x);
    SpacesBefore(p, y);
    NextTokens(p + x, p + y, inside);
    NextTokens(x, y, true);
    var q := SkipSpaces(p);
    if q == [] {
      assert q + x == x && q + y == y;
    } else {
      var n := TokenLength(q);
      assert q[|q| - 1] == p[|p| - 1];
      SameToken(q, x, y);
      SharedPrefix(q[n..], x, y, true);
    }
  }

  /** The next token of `q` is not affected by what comes after `q`. */
  lemma SameToken(q: seq<Byte>, x: seq<Byte>, y: seq<Byte>)
    requires q != [] && !IsDigit(q[|q| - 1])
    ensures Verdict(q + x, q + y) == Equal
    ensures TokenLength(q + x) == TokenLength(q) == TokenLength(q + y)
    ensures (q + x)[TokenLength(q)..] == q[TokenLength(q)..] + x
    ensures (q + y)[TokenLength(q)..] == q[TokenLength(q)..] + y
    ensures var r := q[TokenLength(q)..]; r != [] ==> r[|r| - 1] == q[|q| - 1]
  {
    RunInside(q, x);
    RunInside(q, y);
    if IsDigit(q[0]) { RunCodesDecide(DigitRun(q), [], DigitRun(q), []); }
  }

  lemma {:induction false} SpacesBefore(p: seq<Byte>, x: seq<Byte>)
    requires x != [] && !IsSpace(x[0])
    ensures SkipSpaces(p + x) == SkipSpaces(p) + x
    ensures SkipSpaces(p) != [] ==> p != [] && SkipSpaces(p)[|SkipSpaces(p)| - 1] == p[|p| - 1]
  {
    if p != [] {
      assert (p + x)[1..] == p[1..] + x;
      if IsSpace(p[0]) { SpacesBefore(p[1..], x); }
    } else {
      assert p + x == x && SkipSpaces(x) == x;
    }
  }

  lemma {:induction false} RunInside(q: seq<Byte>, x: seq<Byte>)
    requires q != [] && !IsDigit(q[|q| - 1])
    ensures DigitRun(q + x) == DigitRun(q) && |DigitRun(q)| < |q|
  {
    if IsDigit(q[0]) {
      assert (q + x)[1..] == q[1..] + x;
      RunInside(q[1..], x);
    }
  }

  /** `polyfill-php80` comes before `polyfill-php82`, and `a9` before `a10`: after a common
      prefix, numerals sort by the numbers they denote. */
  lemma NumeralsSortByValue(p: seq<Byte>, m: seq<Byte>, n: seq<Byte>)
    requires p != [] && !IsDigit(p[|p| - 1]) && IsNumeral(m) && IsNumeral(n)
    ensures Compare(p + m, p + n) == CompareInt(Value(m), Value(n))
  {
    StripPrefix(p, m);
    StripPrefix(p, n);
    SharedPrefix(StripZeros(p), m, n, false);
    OneRun(m, n);
    RunOrderIsNumericOrder(m, n);
  }

  lemma OneRun(m: seq<Byte>, n: seq<Byte>)
    requires IsNumeral(m) && IsNumeral(n)
    ensures LexCompare(Code(m, true), Code(n, true)) == CompareRuns(m, n)
  {
    NextTokens(m, n, true);
    RunCodesDecide(m, [], n, []);
    assert SkipSpaces(m) == m && SkipSpaces(n) == n;
    if m == n { LexEqual(Code(m, true), Code(n, true)); }
  }

  lemma {:induction false} StripPrefix(p: seq<Byte>, m: seq<Byte>)
    requires p != [] && !IsDigit(p[|p| - 1]) && m != []
    ensures StripZeros(p + m) == StripZeros(p) + m
    ensures StripZeros(p) != [] && StripZeros(p)[|StripZeros(p)| - 1] == p[|p| - 1]
  {
    if |p| > 1 && p[0] == ZERO && IsDigit(p[1]) {
      assert (p + m)[1..] == p[1..] + m;
      StripPrefix(p[1..], m);
    }
  }
}
