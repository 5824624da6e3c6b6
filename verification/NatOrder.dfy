/** What natural order means byte by byte (natsort.rs), told by the values of bytes. */
module NatOrder {
  import opened Common
  import opened NatSort

  /** Digits, and bytes that are passed over. */
  predicate Digit(b: Byte) { b in {48, 49, 50, 51, 52, 53, 54, 55, 56, 57} }

  predicate Blank(b: Byte) { b in {9, 10, 12, 13, 32} }

  /** A letter in the other case. */
  predicate OtherCase(b: Byte, c: Byte) { (65 <= b <= 90 && c == b + 32) || (97 <= b <= 122 && c == b - 32) }

  predicate SameLetters(a: seq<Byte>, b: seq<Byte>) {
    |a| == |b| && forall k :: 0 <= k < |a| ==> a[k] == b[k] || OtherCase(a[k], b[k])
  }

  lemma SameBytes(b: Byte)
    ensures Digit(b) <==> IsDigit(b)
    ensures Blank(b) <==> IsSpace(b)
  {
  }

  // ----- the case of letters ------------------------------------------------------------------------------

  lemma {:induction false} SameRun(a: seq<Byte>, b: seq<Byte>)
    requires SameLetters(a, b)
    ensures DigitRun(a) == DigitRun(b)
  {
    if a != [] && IsDigit(a[0]) { SameRun(a[1..], b[1..]); }
  }

  lemma {:induction false} SameSkipped(a: seq<Byte>, b: seq<Byte>)
    requires SameLetters(a, b)
    ensures SameLetters(SkipSpaces(a), SkipSpaces(b))
  {
    if a != [] && IsSpace(a[0]) { SameSkipped(a[1..], b[1..]); }
  }

  lemma {:induction false} SameStripped(a: seq<Byte>, b: seq<Byte>)
    requires SameLetters(a, b)
    ensures SameLetters(StripZeros(a), StripZeros(b))
  {
    if |a| > 1 && a[0] == ZERO && IsDigit(a[1]) { SameStripped(a[1..], b[1..]); }
  }

  lemma {:induction false} SameCode(a: seq<Byte>, b: seq<Byte>, inside: bool)
    requires SameLetters(a, b)
    ensures Code(a, inside) == Code(b, inside)
    decreases |a|
  {
    SameSkipped(a, b);
    var s, t := SkipSpaces(a), SkipSpaces(b);
    if s != [] {
      SameRun(s, t);
      var n := TokenLength(s);
      SameCode(s[n..], t[n..], true);
    }
  }

  /** The case of letters never matters: a name in other cases ties with it, and compares with every
      third name as it does. */
  lemma CaseDoesNotMatter(a: seq<Byte>, a': seq<Byte>, b: seq<Byte>)
    requires SameLetters(a, a')
    ensures Compare(a, a') == Equal
    ensures Compare(a', b) == Compare(a, b) && Compare(b, a') == Compare(b, a)
  {
    SameStripped(a, a');
    SameCode(StripZeros(a), StripZeros(a'), false);
    LexEqual(Key(a), Key(a'));
  }

  // ----- the first byte that differs ------------------------------------------------------------------------

  /** What follows a common prefix decides, as if there were no prefix. */
  lemma BehindPrefix(p: seq<Byte>, x: seq<Byte>, y: seq<Byte>)
    requires p != [] && !IsDigit(p[|p| - 1]) && x != [] && y != [] && !IsSpace(x[0]) && !IsSpace(y[0])
    ensures Compare(p + x, p + y) == LexCompare(Code(x, true), Code(y, true))
  {
    StripPrefix(p, x);
    StripPrefix(p, y);
    SharedPrefix(StripZeros(p), x, y, false);
  }

  /** `c` is the byte itself, or the capital of a small letter. */
  predicate CountsAs(b: Byte, c: Byte) { if 97 <= b <= 122 then c + 32 == b else c == b }

  /** Behind a common prefix the first byte that differs decides: letters count as capitals, 65 to 90,
      all other bytes as themselves, so that `_` comes behind every letter. */
  lemma BytesDecide(p: seq<Byte>, x: Byte, u: seq<Byte>, y: Byte, v: seq<Byte>, cx: Byte, cy: Byte)
    requires p != [] && !Digit(p[|p| - 1]) && !Blank(x) && !Blank(y) && !(Digit(x) && Digit(y))
    requires CountsAs(x, cx) && CountsAs(y, cy) && cx != cy
    ensures Compare(p + ([x] + u), p + ([y] + v)) == if cx < cy then Less else Greater
  {
    SameBytes(p[|p| - 1]);
    SameBytes(x);
    SameBytes(y);
    var s, t := [x] + u, [y] + v;
    BehindPrefix(p, s, t);
    NextTokens(s, t, true);
  }

  lemma {:induction false} SkippedInside(p: seq<Byte>, u: seq<Byte>)
    requires p != [] && !IsSpace(p[|p| - 1])
    ensures SkipSpaces(p + u) == SkipSpaces(p) + u
    ensures SkipSpaces(p) != [] && SkipSpaces(p)[|SkipSpaces(p)| - 1] == p[|p| - 1]
  {
    if IsSpace(p[0]) {
      assert (p + u)[1..] == p[1..] + u;
      SkippedInside(p[1..], u);
    }
  }

  lemma RunCodeBoth(r: seq<Byte>, rest: seq<int>, more: seq<int>)
    requires r != []
    ensures RunCode(r, rest + more) == RunCode(r, rest) + more
  {
    assert r + ([RUN_END] + (rest + more)) == r + ([RUN_END] + rest) + more;
    assert r + (rest + more) == (r + rest) + more;
  }

  /** What begins a name does not depend on what follows, when no digits run over and no blanks are
      between. */
  lemma {:induction false} CodeBoth(p: seq<Byte>, u: seq<Byte>, inside: bool)
    requires p != [] && !IsSpace(p[|p| - 1]) && !IsDigit(p[|p| - 1])
    ensures Code(p + u, inside) == Code(p, inside) + Code(u, true)
    decreases |p|
  {
    hide *;
    SkippedInside(p, u);
    var q := SkipSpaces(p);
    EndsOutside(q, u);
    CodeStep(p, inside);
    CodeStep(p + u, inside);
    var n := TokenLength(q);
    assert (q + u)[n..] == q[n..] + u;
    if n < |q| {
      CodeBoth(q[n..], u, true);
    } else {
      assert q[n..] == [] && q[n..] + u == u;
      NoCode();
      assert Code(q[n..], true) + Code(u, true) == Code(u, true);
    }
    if IsDigit(q[0]) {
      RunCodeBoth(DigitRun(q), Code(q[n..], true), Code(u, true));
    } else {
      Glue([ToUpper(q[0]) as int], Code(q[n..], true), Code(u, true));
    }
  }

  lemma NoCode()
    ensures Code([], true) == []
  {
  }

  /** The code of a name is that of its first token and of the rest. */
  lemma CodeStep(s: seq<Byte>, inside: bool)
    requires SkipSpaces(s) != []
    ensures var t := SkipSpaces(s);
            var n := TokenLength(t);
            1 <= n <= |t| && Code(s, inside) ==
            if IsDigit(t[0]) then RunCode(DigitRun(t), Code(t[n..], true)) else [ToUpper(t[0]) as int] + Code(t[n..], true)
    ensures IsDigit(SkipSpaces(s)[0]) ==> DigitRun(SkipSpaces(s)) != []
  {
    hide SkipSpaces, RunCode, ToUpper;
  }

  /** The first token does not reach the end, or is a single byte there. */
  lemma EndsOutside(q: seq<Byte>, u: seq<Byte>)
    requires q != [] && !IsSpace(q[|q| - 1]) && !IsDigit(q[|q| - 1])
    ensures var n := TokenLength(q);
            1 <= n <= |q| && TokenLength(q + u) == n && DigitRun(q + u) == DigitRun(q)
            && (n < |q| ==> q[n..][|q[n..]| - 1] == q[|q| - 1])
  {
    if IsDigit(q[0]) { RunInside(q, u); }
  }

  /** A name comes before its continuations. */
  lemma ShorterFirst(p: seq<Byte>, u: seq<Byte>)
    requires p != [] && !Digit(p[|p| - 1]) && !Blank(p[|p| - 1]) && u != []
    ensures Compare(p, p + u) == Less
  {
    SameBytes(p[|p| - 1]);
    StripPrefix(p, u);
    var s := StripZeros(p);
    CodeBoth(s, u, false);
    LexCommonPrefix(Code(s, false), [], Code(u, true));
    assert Code(s, false) + [] == Code(s, false);
    assert Code(u, true) != [];
  }

  // ----- digits --------------------------------------------------------------------------------------------------

  predicate AllDigits(m: seq<Byte>) { m != [] && forall k :: 0 <= k < |m| ==> Digit(m[k]) }

  predicate RunEnds(u: seq<Byte>) { u != [] ==> !Digit(u[0]) }

  /** The first place where two runs differ, or the end of one. */
  predicate FirstDifference(m: seq<Byte>, n: seq<Byte>, k: nat) {
    k <= |m| && k <= |n| && m[..k] == n[..k] && (k < |m| || k < |n|) && (k < |m| && k < |n| ==> m[k] != n[k])
  }

  lemma {:induction false} RunIs(m: seq<Byte>, u: seq<Byte>)
    requires (forall k :: 0 <= k < |m| ==> Digit(m[k])) && RunEnds(u)
    ensures DigitRun(m + u) == m
  {
    if m == [] {
      assert m + u == u;
      if u != [] { SameBytes(u[0]); }
    } else {
      SameBytes(m[0]);
      assert (m + u)[1..] == m[1..] + u;
      RunIs(m[1..], u);
    }
  }

  lemma {:induction false} LexAt(p: seq<int>, q: seq<int>, k: nat)
    requires k <= |p| && k <= |q| && p[..k] == q[..k]
    ensures k == |p| && k < |q| ==> LexCompare(p, q) == Less
    ensures k < |p| && k == |q| ==> LexCompare(p, q) == Greater
    ensures k < |p| && k < |q| && p[k] != q[k] ==> LexCompare(p, q) == CompareInt(p[k], q[k])
  {
    if k > 0 {
      assert p[0] == p[..k][0] == q[..k][0] == q[0];
      assert p[1..][..k - 1] == p[..k][1..] && q[1..][..k - 1] == q[..k][1..];
      LexAt(p[1..], q[1..], k - 1);
    }
  }

  /** Two different runs of digits behind a common prefix: when neither begins with a zero the shorter
      comes first; otherwise, and for equal lengths, the first digit that differs decides, and a run
      comes before its continuations. */
  lemma RunsDecide(p: seq<Byte>, m: seq<Byte>, u: seq<Byte>, n: seq<Byte>, v: seq<Byte>, k: nat)
    requires p != [] && !Digit(p[|p| - 1]) && AllDigits(m) && AllDigits(n) && RunEnds(u) && RunEnds(v)
    requires FirstDifference(m, n, k)
    ensures Compare(p + (m + u), p + (n + v)) ==
            if m[0] != 48 && n[0] != 48 && |m| != |n| then (if |m| < |n| then Less else Greater)
            else if k == |m| then Less else if k == |n| then Greater
            else if m[k] < n[k] then Less else Greater
  {
    SameBytes(p[|p| - 1]);
    var s, t := m + u, n + v;
    SameBytes(m[0]);
    SameBytes(n[0]);
    BehindPrefix(p, s, t);
    NextTokens(s, t, true);
    RunIs(m, u);
    RunIs(n, v);
    LexAt(m, n, k);
    LexEqual(m, n);
  }

  /** Zeros that begin a name and are followed by a digit do not count. */
  lemma LeadingZeros(d: Byte, u: seq<Byte>, b: seq<Byte>)
    requires Digit(d)
    ensures Compare([48] + ([d] + u), b) == Compare([d] + u, b)
  {
    SameBytes(d);
    assert ([48] + ([d] + u))[1..] == [d] + u;
  }

  // ----- blanks ----------------------------------------------------------------------------------------------------

  /** Blanks behind a byte that is no digit do not count, nor do those that begin a name, unless a zero
      before a digit follows. */
  lemma BlanksDoNotMatter(p: seq<Byte>, w: Byte, u: seq<Byte>, b: seq<Byte>)
    requires Blank(w) && u != [] && !Blank(u[|u| - 1])
    ensures p != [] && !Digit(p[|p| - 1]) && !Blank(p[|p| - 1]) ==> Compare(p + ([w] + u), b) == Compare(p + u, b)
    ensures !(|u| > 1 && u[0] == 48 && Digit(u[1])) ==> Compare([w] + u, b) == Compare(u, b)
  {
    SameBytes(w);
    SameBytes(u[|u| - 1]);
    if p != [] && !Digit(p[|p| - 1]) && !Blank(p[|p| - 1]) {
      SameBytes(p[|p| - 1]);
      BlankBehind(p, w, u);
    }
    if !(|u| > 1 && u[0] == 48 && Digit(u[1])) {
      if |u| > 1 { SameBytes(u[1]); }
      assert StripZeros(u) == u && StripZeros([w] + u) == [w] + u;
      BlankFirst(w, u, false);
    }
    hide Code, StripZeros, LexCompare;
  }

  lemma BlankFirst(w: Byte, u: seq<Byte>, inside: bool)
    requires IsSpace(w) && u != [] && !IsSpace(u[|u| - 1])
    ensures Code([w] + u, inside) == Code(u, inside)
  {
    SkippedInside(u, []);
    assert u + [] == u && ([w] + u)[1..] == u;
  }

  lemma BlankBehind(p: seq<Byte>, w: Byte, u: seq<Byte>)
    requires p != [] && !IsDigit(p[|p| - 1]) && !IsSpace(p[|p| - 1]) && IsSpace(w) && u != [] && !IsSpace(u[|u| - 1])
    ensures Key(p + ([w] + u)) == Key(p + u)
  {
    StripPrefix(p, [w] + u);
    StripPrefix(p, u);
    BlankFirst(w, u, true);
    hide Code, StripZeros;
    CodeBoth(StripZeros(p), [w] + u, false);
    CodeBoth(StripZeros(p), u, false);
  }

  /** Blanks at the end count for more than nothing and less than any byte. */
  lemma TrailingBlanks(p: seq<Byte>, w: Byte, y: Byte, v: seq<Byte>)
    requires p != [] && !Digit(p[|p| - 1]) && !Blank(p[|p| - 1]) && Blank(w) && !Blank(y)
    ensures Compare(p, p + [w]) == Less && Compare(p + [w], p + ([y] + v)) == Less
  {
    SameBytes(w);
    SameBytes(y);
    SameBytes(p[|p| - 1]);
    ShorterFirst(p, [w]);
    StripPrefix(p, [w]);
    StripPrefix(p, [y] + v);
    var s := StripZeros(p);
    CodeBoth(s, [w], false);
    CodeBoth(s, [y] + v, false);
    LexCommonPrefix(Code(s, false), Code([w], true), Code([y] + v, true));
    assert [w][1..] == [] && Code([w], true) == [TRAILING] + [];
    CodeShape([y] + v, true);
    LexStep(TRAILING, [], Lead([y] + v), Follow([y] + v));
  }

  // ----- numbers -------------------------------------------------------------------------------------------------

  /** The number digits denote. */
  function Decimal(m: seq<Byte>): int {
    if m == [] then 0
    else
      var last: int := m[|m| - 1];
      10 * Decimal(m[..|m| - 1]) + (last - 48)
  }

  lemma {:induction false} ValueIs(m: seq<Byte>)
    ensures Value(m) == Decimal(m)
  {
    if m != [] { ValueIs(m[..|m| - 1]); }
  }

  /** Behind a common prefix numbers without leading zeros stand in their order. */
  lemma NumbersInOrder(p: seq<Byte>, m: seq<Byte>, n: seq<Byte>)
    requires p != [] && !Digit(p[|p| - 1]) && AllDigits(m) && AllDigits(n) && m[0] != 48 && n[0] != 48
    ensures Compare(p + m, p + n) == if Decimal(m) < Decimal(n) then Less else if Decimal(m) == Decimal(n) then Equal else Greater
  {
    SameBytes(p[|p| - 1]);
    IsANumeral(m);
    IsANumeral(n);
    ValueIs(m);
    ValueIs(n);
    hide Compare, Value, Decimal, IsNumeral, IsDigit;
    NumeralsSortByValue(p, m, n);
  }

  lemma IsANumeral(m: seq<Byte>)
    requires AllDigits(m) && m[0] != 48
    ensures IsNumeral(m)
  {
    RunIs(m, []);
    assert m + [] == m;
  }
}
