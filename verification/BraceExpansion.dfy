/** Brace expansion of a repository glob (glob.rs, `brace_expand`): `a{b,c}{d,e}` stands for
    the product of its alternatives, left to right. */
module BraceExpansion {
  import opened Common

  // ----- the expansion --------------------------------------------------------------------

  /** Index of the first `c` not behind a backslash. */
  function FindUnescaped(s: string, c: char): (r: Option<nat>)
    ensures r.Some? ==> r.value < |s|
  {
    if s == "" then None
    else if s[0] == '\\' then
      if |s| == 1 then None else Shift(FindUnescaped(s[2..], c), 2)
    else if s[0] == c then Some(0)
    else Shift(FindUnescaped(s[1..], c), 1)
  }

  function Shift(r: Option<nat>, n: nat): Option<nat> {
    if r.None? then None else Some(r.value + n)
  }

  /** The alternatives of a brace just opened, and what follows the brace that closes it. `s` is
      still to be read, `depth` braces are open, `cur` is the alternative read so far. */
  function Alternatives(s: string, depth: nat, cur: string): Option<(seq<string>, string)>
    requires depth >= 1
  {
    if s == "" then None
    else if s[0] == '\\' then
      if |s| == 1 then None else Alternatives(s[2..], depth, cur + s[..2])
    else if s[0] == '{' then Alternatives(s[1..], depth + 1, cur + [s[0]])
    else if s[0] == '}' then
      if depth == 1 then Some(([cur], s[1..])) else Alternatives(s[1..], depth - 1, cur + [s[0]])
    else if s[0] == ',' && depth == 1 then Prepend([cur], Alternatives(s[1..], 1, ""))
    else Alternatives(s[1..], depth, cur + [s[0]])
  }

  function Prepend(before: seq<string>, r: Option<(seq<string>, string)>): Option<(seq<string>, string)> {
    if r.None? then None else Some((before + r.value.0, r.value.1))
  }

  /** An alternative and the tail are shorter than what they were read from. */
  lemma {:induction false} AlternativesShrink(s: string, depth: nat, cur: string)
    requires depth >= 1 && Alternatives(s, depth, cur).Some?
    ensures var r := Alternatives(s, depth, cur).value;
            |r.1| < |s| && forall a :: a in r.0 ==> |a| + |r.1| < |cur| + |s|
  {
    if s[0] == '\\' {
      AlternativesShrink(s[2..], depth, cur + s[..2]);
    } else if s[0] == '{' {
      AlternativesShrink(s[1..], depth + 1, cur + [s[0]]);
    } else if s[0] == '}' {
      if depth > 1 { AlternativesShrink(s[1..], depth - 1, cur + [s[0]]); }
    } else if s[0] == ',' && depth == 1 {
      AlternativesShrink(s[1..], 1, "");
    } else {
      AlternativesShrink(s[1..], depth, cur + [s[0]]);
    }
  }

  function Expand(p: string): seq<string>
    decreases |p|, 1, 0
  {
    var open := FindUnescaped(p, '{');
    if open.None? then [p]
    else
      var r := Alternatives(p[open.value + 1..], 1, "");
      if r.None? then [p]
      else
        AlternativesShrink(p[open.value + 1..], 1, "");
        ExpandAll(p[..open.value], r.value.0, r.value.1, |p|)
  }

  function ExpandAll(head: string, alts: seq<string>, tail: string, bound: nat): seq<string>
    requires forall a :: a in alts ==> |head| + |a| + |tail| < bound
    decreases bound, 0, |alts|
  {
    if alts == [] then []
    else Expand(head + alts[0] + tail) + ExpandAll(head, alts[1..], tail, bound)
  }

  // ----- trees ----------------------------------------------------------------------------

  /** A pattern as a tree: literals, escaped characters and nested alternations. */
  datatype Word = End | Lit(c: char, rest: Word) | Esc(c: char, rest: Word) | Alt(alts: Alts, rest: Word)

  datatype Alts = One(w: Word) | More(w: Word, others: Alts)

  /** Inside braces a comma or a closing brace is not a literal. */
  predicate Wf(w: Word, top: bool) {
    match w
    case End => true
    case Lit(c, rest) => c != '{' && c != '\\' && (top || (c != '}' && c != ',')) && Wf(rest, top)
    case Esc(_, rest) => Wf(rest, top)
    case Alt(alts, rest) => WfAlts(alts) && Wf(rest, top)
  }

  predicate WfAlts(alts: Alts) {
    match alts
    case One(w) => Wf(w, false)
    case More(w, others) => Wf(w, false) && WfAlts(others)
  }

  /** The tree as text, followed by `k`. */
  function Print(w: Word, k: string): string {
    match w
    case End => k
    case Lit(c, rest) => [c] + Print(rest, k)
    case Esc(c, rest) => ['\\', c] + Print(rest, k)
    case Alt(alts, rest) => "{" + PrintAlts(alts, "}" + Print(rest, k))
  }

  function PrintAlts(alts: Alts, k: string): string {
    match alts
    case One(w) => Print(w, k)
    case More(w, others) => Print(w, "," + PrintAlts(others, k))
  }

  function PrintEach(alts: Alts): seq<string> {
    match alts
    case One(w) => [Print(w, "")]
    case More(w, others) => [Print(w, "")] + PrintEach(others)
  }

  /** What a tree stands for: every choice of alternatives, the leftmost choice varying slowest. */
  function Denote(w: Word): seq<string> {
    match w
    case End => [""]
    case Lit(c, rest) => Prefixed([c], Denote(rest))
    case Esc(c, rest) => Prefixed(['\\', c], Denote(rest))
    case Alt(alts, rest) => Product(DenoteAlts(alts), Denote(rest))
  }

  function DenoteAlts(alts: Alts): seq<string> {
    match alts
    case One(w) => Denote(w)
    case More(w, others) => Denote(w) + DenoteAlts(others)
  }

  function Prefixed(x: string, ys: seq<string>): seq<string> {
    if ys == [] then [] else [x + ys[0]] + Prefixed(x, ys[1..])
  }

  function Product(xs: seq<string>, ys: seq<string>): seq<string> {
    if xs == [] then [] else Prefixed(xs[0], ys) + Product(xs[1..], ys)
  }

  // ----- algebra of products --------------------------------------------------------------

  lemma {:induction false} PrefixedTwice(x: string, y: string, zs: seq<string>)
    ensures Prefixed(x, Prefixed(y, zs)) == Prefixed(x + y, zs)
  {
    if zs != [] {
      PrefixedTwice(x, y, zs[1..]);
      assert Prefixed(y, zs)[1..] == Prefixed(y, zs[1..]);
      assert x + (y + zs[0]) == (x + y) + zs[0];
    }
  }

  lemma {:induction false} PrefixedConcat(x: string, ys: seq<string>, zs: seq<string>)
    ensures Prefixed(x, ys + zs) == Prefixed(x, ys) + Prefixed(x, zs)
  {
    if ys == [] {
      assert ys + zs == zs;
    } else {
      assert (ys + zs)[1..] == ys[1..] + zs;
      PrefixedConcat(x, ys[1..], zs);
    }
  }

  lemma {:induction false} ProductConcat(xs: seq<string>, ys: seq<string>, zs: seq<string>)
    ensures Product(xs + ys, zs) == Product(xs, zs) + Product(ys, zs)
  {
    if xs == [] {
      assert xs + ys == ys;
    } else {
      assert (xs + ys)[1..] == xs[1..] + ys;
      ProductConcat(xs[1..], ys, zs);
    }
  }

  lemma {:induction false} PrefixedProduct(x: string, ys: seq<string>, zs: seq<string>)
    ensures Prefixed(x, Product(ys, zs)) == Product(Prefixed(x, ys), zs)
  {
    if ys != [] {
      PrefixedConcat(x, Prefixed(ys[0], zs), Product(ys[1..], zs));
      PrefixedTwice(x, ys[0], zs);
      PrefixedProduct(x, ys[1..], zs);
      assert Prefixed(x, ys)[1..] == Prefixed(x, ys[1..]);
    }
  }

  lemma {:induction false} ProductAssoc(xs: seq<string>, ys: seq<string>, zs: seq<string>)
    ensures Product(xs, Product(ys, zs)) == Product(Product(xs, ys), zs)
  {
    if xs != [] {
      PrefixedProduct(xs[0], ys, zs);
      ProductAssoc(xs[1..], ys, zs);
      ProductConcat(Prefixed(xs[0], ys), Product(xs[1..], ys), zs);
    }
  }

  lemma {:induction false} PrefixedEmpty(ys: seq<string>)
    ensures Prefixed("", ys) == ys
  {
    if ys != [] {
      PrefixedEmpty(ys[1..]);
      assert "" + ys[0] == ys[0] && ys == [ys[0]] + ys[1..];
    }
  }

  function Append(v: Word, w: Word): Word {
    match v
    case End => w
    case Lit(c, rest) => Lit(c, Append(rest, w))
    case Esc(c, rest) => Esc(c, Append(rest, w))
    case Alt(alts, rest) => Alt(alts, Append(rest, w))
  }

  lemma {:induction false} AppendDenotes(v: Word, w: Word)
    ensures Denote(Append(v, w)) == Product(Denote(v), Denote(w))
  {
    match v
    case End =>
      PrefixedEmpty(Denote(w));
      assert Product([""], Denote(w)) == Prefixed("", Denote(w)) + [];
    case Lit(c, rest) =>
      AppendDenotes(rest, w);
      PrefixedProduct([c], Denote(rest), Denote(w));
    case Esc(c, rest) =>
      AppendDenotes(rest, w);
      PrefixedProduct(['\\', c], Denote(rest), Denote(w));
    case Alt(alts, rest) =>
      AppendDenotes(rest, w);
      ProductAssoc(DenoteAlts(alts), Denote(rest), Denote(w));
  }

  lemma {:induction false} AppendPrints(v: Word, w: Word, k: string, top: bool)
    requires Wf(v, top) && Wf(w, top)
    ensures Wf(Append(v, w), top)
    ensures Print(Append(v, w), k) == Print(v, Print(w, k))
  {
    match v
    case End =>
    case Lit(c, rest) => AppendPrints(rest, w, k, top);
    case Esc(c, rest) => AppendPrints(rest, w, k, top);
    case Alt(alts, rest) => AppendPrints(rest, w, k, top);
  }

  lemma {:induction false} PrintThen(w: Word, k: string)
    ensures Print(w, k) == Print(w, "") + k
    decreases w
  {
    match w
    case End => assert "" + k == k;
    case Lit(c, rest) =>
      PrintThen(rest, k);
      Glue([c], Print(rest, ""), k);
    case Esc(c, rest) =>
      PrintThen(rest, k);
      Glue(['\\', c], Print(rest, ""), k);
    case Alt(alts, rest) =>
      PrintThen(rest, k);
      var r := Print(rest, "");
      PrintAltsThen(alts, "}" + r);
      PrintAltsThen(alts, "}" + (r + k));
      Glue("}", r, k);
      Glue("{", PrintAlts(alts, "") + ("}" + r), k);
      Glue(PrintAlts(alts, ""), "}" + r, k);
  }

  lemma {:induction false} PrintAltsThen(alts: Alts, k: string)
    ensures PrintAlts(alts, k) == PrintAlts(alts, "") + k
    decreases alts
  {
    match alts
    case One(w) => PrintThen(w, k);
    case More(w, others) =>
      PrintAltsThen(others, k);
      var o := PrintAlts(others, "");
      PrintThen(w, "," + o);
      PrintThen(w, "," + (o + k));
      Glue(",", o, k);
      Glue(Print(w, ""), "," + o, k);
  }

  /** Inside braces is stricter than outside. */
  lemma {:induction false} Loosen(w: Word)
    requires Wf(w, false)
    ensures Wf(w, true)
  {
    match w
    case End =>
    case Lit(_, rest) => Loosen(rest);
    case Esc(_, rest) => Loosen(rest);
    case Alt(_, rest) => Loosen(rest);
  }

  // ----- reading a printed tree -----------------------------------------------------------

  lemma ReadChar(c: char, more: string, depth: nat, cur: string)
    requires depth >= 1
    ensures var r := Alternatives([c] + more, depth, cur);
            if c == '{' then r == Alternatives(more, depth + 1, cur + [c])
            else if c == '}' then r == if depth == 1 then Some(([cur], more)) else Alternatives(more, depth - 1, cur + [c])
            else if c == ',' && depth == 1 then r == Prepend([cur], Alternatives(more, 1, ""))
            else c != '\\' ==> r == Alternatives(more, depth, cur + [c])
  {
    assert ([c] + more)[1..] == more;
  }

  lemma ReadEscape(c: char, more: string, depth: nat, cur: string)
    requires depth >= 1
    ensures Alternatives(['\\', c] + more, depth, cur) == Alternatives(more, depth, cur + ['\\', c])
  {
    var s := ['\\', c] + more;
    assert s[2..] == more && s[..2] == ['\\', c];
  }

  /** A nested word is read into the current alternative, whatever its own braces. */
  lemma {:induction false} ReadWord(w: Word, more: string, depth: nat, cur: string)
    requires Wf(w, false) && depth >= 1
    ensures Alternatives(Print(w, more), depth, cur) == Alternatives(more, depth, cur + Print(w, ""))
    decreases w
  {
    match w
    case End =>
      assert cur + "" == cur;
    case Lit(c, rest) =>
      ReadChar(c, Print(rest, more), depth, cur);
      ReadWord(rest, more, depth, cur + [c]);
      Glue(cur, [c], Print(rest, ""));
    case Esc(c, rest) =>
      ReadEscape(c, Print(rest, more), depth, cur);
      ReadWord(rest, more, depth, cur + ['\\', c]);
      Glue(cur, ['\\', c], Print(rest, ""));
    case Alt(alts, rest) =>
      ReadChar('{', PrintAlts(alts, "}" + Print(rest, more)), depth, cur);
      ReadNested(alts, Print(rest, more), depth, cur + "{");
      ReadWord(rest, more, depth, cur + "{" + PrintAlts(alts, "}"));
      PrintAltsThen(alts, "}" + Print(rest, ""));
      PrintAltsThen(alts, "}");
      Glue(PrintAlts(alts, ""), "}", Print(rest, ""));
      Glue(cur, "{", PrintAlts(alts, "}"));
      Glue(cur, "{" + PrintAlts(alts, "}"), Print(rest, ""));
      Glue("{", PrintAlts(alts, "}"), Print(rest, ""));
  }

  /** Below the first level, commas separate nothing. */
  lemma {:induction false} ReadNested(alts: Alts, after: string, depth: nat, cur: string)
    requires WfAlts(alts) && depth >= 1
    ensures Alternatives(PrintAlts(alts, "}" + after), depth + 1, cur) ==
            Alternatives(after, depth, cur + PrintAlts(alts, "}"))
    decreases alts
  {
    match alts
    case One(w) =>
      calc {
        Alternatives(PrintAlts(alts, "}" + after), depth + 1, cur);
        { ReadWord(w, "}" + after, depth + 1, cur); }
        Alternatives("}" + after, depth + 1, cur + Print(w, ""));
        { ReadChar('}', after, depth + 1, cur + Print(w, "")); }
        Alternatives(after, depth, cur + Print(w, "") + "}");
        { PrintThen(w, "}"); Glue(cur, Print(w, ""), "}"); }
        Alternatives(after, depth, cur + PrintAlts(alts, "}"));
      }
    case More(w, others) =>
      var more := PrintAlts(others, "}" + after);
      calc {
        Alternatives(PrintAlts(alts, "}" + after), depth + 1, cur);
        { ReadWord(w, "," + more, depth + 1, cur); }
        Alternatives("," + more, depth + 1, cur + Print(w, ""));
        { ReadChar(',', more, depth + 1, cur + Print(w, "")); }
        Alternatives(more, depth + 1, cur + Print(w, "") + ",");
        { ReadNested(others, after, depth, cur + Print(w, "") + ","); }
        Alternatives(after, depth, cur + Print(w, "") + "," + PrintAlts(others, "}"));
        { CommaText(w, others, cur); }
        Alternatives(after, depth, cur + PrintAlts(alts, "}"));
      }
  }

  lemma CommaText(w: Word, others: Alts, cur: string)
    ensures cur + Print(w, "") + "," + PrintAlts(others, "}") == cur + PrintAlts(More(w, others), "}")
  {
    PrintThen(w, "," + PrintAlts(others, "}"));
    Glue(cur + Print(w, ""), ",", PrintAlts(others, "}"));
    Glue(cur, Print(w, ""), "," + PrintAlts(others, "}"));
  }

  /** At the first level they separate the alternatives. */
  lemma {:induction false} ReadAlts(alts: Alts, after: string)
    requires WfAlts(alts)
    ensures Alternatives(PrintAlts(alts, "}" + after), 1, "") == Some((PrintEach(alts), after))
  {
    match alts
    case One(w) =>
      ReadWord(w, "}" + after, 1, "");
      assert "" + Print(w, "") == Print(w, "");
      ReadChar('}', after, 1, Print(w, ""));
    case More(w, others) =>
      ReadWord(w, "," + PrintAlts(others, "}" + after), 1, "");
      assert "" + Print(w, "") == Print(w, "");
      ReadChar(',', PrintAlts(others, "}" + after), 1, Print(w, ""));
      ReadAlts(others, after);
  }

  // ----- the main result ------------------------------------------------------------------

  /** What may follow a tree without being part of it: a lone backslash at the end, or a brace
      that is never closed and everything after it. */
  predicate IsTail(t: string) {
    t == "" || t == "\\" || (t[0] == '{' && Alternatives(t[1..], 1, "").None?)
  }

  predicate NoAlt(w: Word) {
    match w
    case End => true
    case Lit(_, rest) => NoAlt(rest)
    case Esc(_, rest) => NoAlt(rest)
    case Alt(_, _) => false
  }

  /** The literals before the first alternation. */
  function Head(w: Word): Word {
    match w
    case End => End
    case Lit(c, rest) => Lit(c, Head(rest))
    case Esc(c, rest) => Esc(c, Head(rest))
    case Alt(_, _) => End
  }

  function FromAlt(w: Word): (r: Word)
    requires !NoAlt(w)
    ensures r.Alt?
  {
    match w
    case Lit(_, rest) => FromAlt(rest)
    case Esc(_, rest) => FromAlt(rest)
    case Alt(_, _) => w
  }

  lemma {:induction false} SplitHead(w: Word)
    requires Wf(w, true) && !NoAlt(w)
    ensures w == Append(Head(w), FromAlt(w)) && NoAlt(Head(w)) && Wf(Head(w), true) && Wf(FromAlt(w), true)
  {
    match w
    case Lit(_, rest) => SplitHead(rest);
    case Esc(_, rest) => SplitHead(rest);
    case Alt(_, _) =>
  }

  lemma {:induction false} LiteralsDenote(w: Word)
    requires NoAlt(w)
    ensures Denote(w) == [Print(w, "")]
  {
    match w
    case End =>
    case Lit(c, rest) =>
      LiteralsDenote(rest);
      PrefixedOne([c], Print(rest, ""));
    case Esc(c, rest) =>
      LiteralsDenote(rest);
      PrefixedOne(['\\', c], Print(rest, ""));
  }

  lemma PrefixedOne(x: string, y: string)
    ensures Prefixed(x, [y]) == [x + y]
  {
    assert [y][1..] == [];
  }

  /** The scan for an opening brace passes over literals. */
  lemma {:induction false} SkipLiterals(w: Word, more: string)
    requires NoAlt(w) && Wf(w, true)
    ensures FindUnescaped(Print(w, more), '{') == Shift(FindUnescaped(more, '{'), |Print(w, "")|)
  {
    var s := Print(w, more);
    match w
    case End =>
    case Lit(c, rest) =>
      assert s[1..] == Print(rest, more);
      SkipLiterals(rest, more);
    case Esc(c, rest) =>
      assert s[2..] == Print(rest, more);
      SkipLiterals(rest, more);
  }

  /** On the printed form of a tree, followed by anything that is no tree, the expansion is the
      tree's product, in order and with duplicates kept. */
  lemma {:induction false} ExpandsToProduct(w: Word, tail: string)
    requires Wf(w, true) && IsTail(tail)
    ensures Expand(Print(w, tail)) == Product(Denote(w), [tail])
    decreases |Print(w, "")|, 2, w
  {
    if NoAlt(w) {
      ExpandLiterals(w, tail);
    } else {
      SplitHead(w);
      var head, alts, rest := Head(w), FromAlt(w).alts, FromAlt(w).rest;
      FirstBrace(head, alts, rest, tail);
      AppendPrints(head, FromAlt(w), tail, true);
      AppendPrints(head, FromAlt(w), "", true);
      Sizes(head, alts, rest);
      ExpandEach(head, alts, rest, tail, |Print(w, tail)|, |Print(w, "")|);
      LiteralsDenote(head);
      AppendDenotes(head, FromAlt(w));
      ProductOne(Print(head, ""), Denote(FromAlt(w)));
      PrefixedProduct(Print(head, ""), DenoteAlts(alts), Denote(rest));
    }
  }

  lemma ProductOne(x: string, ys: seq<string>)
    ensures Product([x], ys) == Prefixed(x, ys)
  {
    assert Product([x][1..], ys) == [];
  }

  lemma ExpandLiterals(w: Word, tail: string)
    requires NoAlt(w) && Wf(w, true) && IsTail(tail)
    ensures Expand(Print(w, tail)) == Product(Denote(w), [tail])
  {
    SkipLiterals(w, tail);
    PrintThen(w, tail);
    var p := Print(w, tail);
    if tail != "" && tail[0] == '{' { assert p[|Print(w, "")| + 1..] == tail[1..]; }
    assert Expand(p) == [p];
    hide *;
    LiteralsDenote(w);
    ProductOne(Print(w, ""), [tail]);
    PrefixedOne(Print(w, ""), tail);
  }

  /** One round of the expansion takes the first alternation apart. */
  lemma HeadOpens(head: Word, more: string)
    requires NoAlt(head) && Wf(head, true) && more != "" && more[0] == '{'
    ensures FindUnescaped(Print(head, more), '{') == Some(|Print(head, "")|)
  {
    hide Print, NoAlt, Wf;
    SkipLiterals(head, more);
  }

  lemma AltOpens(alts: Alts, rest: Word, tail: string)
    ensures Print(Alt(alts, rest), tail) == "{" + PrintAlts(alts, "}" + Print(rest, tail))
  {
  }

  lemma CutBehind(head: string, c: string, rest: string)
    requires |c| == 1
    ensures var p := head + (c + rest); p[..|head|] == head && p[|head| + 1..] == rest
  {
  }

  lemma ExpandAt(p: string, open: nat, alts: seq<string>, tail: string)
    requires FindUnescaped(p, '{') == Some(open) && Alternatives(p[open + 1..], 1, "") == Some((alts, tail))
    ensures (forall a :: a in alts ==> open + |a| + |tail| < |p|) && Expand(p) == ExpandAll(p[..open], alts, tail, |p|)
  {
    hide ExpandAll, Alternatives, FindUnescaped;
    AlternativesShrink(p[open + 1..], 1, "");
  }

  lemma FirstBrace(head: Word, alts: Alts, rest: Word, tail: string)
    requires NoAlt(head) && Wf(head, true) && WfAlts(alts)
    ensures var p := Print(head, Print(Alt(alts, rest), tail));
            && (forall a :: a in PrintEach(alts) ==> |Print(head, "")| + |a| + |Print(rest, tail)| < |p|)
            && Expand(p) == ExpandAll(Print(head, ""), PrintEach(alts), Print(rest, tail), |p|)
  {
    hide *;
    var after := Print(rest, tail);
    var more := Print(Alt(alts, rest), tail);
    AltOpens(alts, rest, tail);
    HeadOpens(head, more);
    PrintThen(head, more);
    CutBehind(Print(head, ""), "{", PrintAlts(alts, "}" + after));
    ReadAlts(alts, after);
    ExpandAt(Print(head, more), |Print(head, "")|, PrintEach(alts), after);
  }

  lemma Sizes(head: Word, alts: Alts, rest: Word)
    ensures |Print(head, Print(Alt(alts, rest), ""))| == |Print(head, "")| + |PrintAlts(alts, "")| + |Print(rest, "")| + 2
  {
    PrintThen(head, Print(Alt(alts, rest), ""));
    PrintAltsThen(alts, "}" + Print(rest, ""));
  }

  lemma {:induction false} ExpandEach(head: Word, alts: Alts, rest: Word, tail: string, bound: nat, size: nat)
    requires NoAlt(head) && Wf(head, true) && WfAlts(alts) && Wf(rest, true) && IsTail(tail)
    requires |Print(head, "")| + |PrintAlts(alts, "")| + |Print(rest, "")| < size
    requires forall a :: a in PrintEach(alts) ==> |Print(head, "")| + |a| + |Print(rest, tail)| < bound
    ensures ExpandAll(Print(head, ""), PrintEach(alts), Print(rest, tail), bound) ==
            Product(Product(Prefixed(Print(head, ""), DenoteAlts(alts)), Denote(rest)), [tail])
    decreases size, 1, alts
  {
    match alts
    case One(w) =>
      ExpandChoice(head, w, rest, tail, size);
      OneLeft(Print(head, ""), Print(w, ""), Print(rest, tail), bound);
    case More(w, others) =>
      PrintThen(w, "," + PrintAlts(others, ""));
      ExpandChoice(head, w, rest, tail, size);
      ExpandEach(head, others, rest, tail, bound, size);
      assert PrintEach(alts)[1..] == PrintEach(others);
      var h, x, y := Print(head, ""), Denote(w), DenoteAlts(others);
      PrefixedConcat(h, x, y);
      ProductConcat(Prefixed(h, x), Prefixed(h, y), Denote(rest));
      ProductConcat(Product(Prefixed(h, x), Denote(rest)), Product(Prefixed(h, y), Denote(rest)), [tail]);
  }

  lemma OneLeft(head: string, a: string, tail: string, bound: nat)
    requires |head| + |a| + |tail| < bound
    ensures ExpandAll(head, [a], tail, bound) == Expand(head + a + tail)
  {
    assert [a][1..] == [];
  }

  lemma {:induction false} ExpandChoice(head: Word, w: Word, rest: Word, tail: string, size: nat)
    requires NoAlt(head) && Wf(head, true) && Wf(w, false) && Wf(rest, true) && IsTail(tail)
    requires |Print(head, "")| + |Print(w, "")| + |Print(rest, "")| < size
    ensures Expand(Print(head, "") + Print(w, "") + Print(rest, tail)) ==
            Product(Product(Prefixed(Print(head, ""), Denote(w)), Denote(rest)), [tail])
    decreases size, 0, w
  {
    Loosen(w);
    var v := Append(w, rest);
    var u := Append(head, v);
    AppendPrints(w, rest, tail, true);
    AppendPrints(head, v, tail, true);
    PrintThen(w, Print(rest, tail));
    PrintThen(head, Print(v, tail));
    Glue(Print(head, ""), Print(w, ""), Print(rest, tail));
    AppendPrints(w, rest, "", true);
    AppendPrints(head, v, "", true);
    PrintThen(w, Print(rest, ""));
    PrintThen(head, Print(v, ""));
    ExpandsToProduct(u, tail);
    AppendDenotes(head, v);
    AppendDenotes(w, rest);
    LiteralsDenote(head);
    ProductOne(Print(head, ""), Denote(v));
    PrefixedProduct(Print(head, ""), Denote(w), Denote(rest));
  }

  // ----- every pattern is a tree and a tail -----------------------------------------------

  /** Reads one nested word, up to the comma or brace that ends it. */
  function ReadTree(s: string): (r: Option<(Word, string)>)
    ensures r.Some? ==> Wf(r.value.0, false) && s == Print(r.value.0, r.value.1)
    ensures r.Some? ==> r.value.1 != "" && (r.value.1[0] == ',' || r.value.1[0] == '}')
    ensures r.Some? ==> |r.value.1| <= |s|
    decreases |s|, 0
  {
    if s == "" then None
    else if s[0] == ',' || s[0] == '}' then Some((End, s))
    else if s[0] == '\\' then
      if |s| == 1 then None
      else
        match ReadTree(s[2..])
        case None => None
        case Some(r) => Some((Esc(s[1], r.0), r.1))
    else if s[0] == '{' then
      match ReadTrees(s[1..])
      case None => None
      case Some(a) =>
        match ReadTree(a.1)
        case None => None
        case Some(r) => Some((Alt(a.0, r.0), r.1))
    else
      match ReadTree(s[1..])
      case None => None
      case Some(r) => Some((Lit(s[0], r.0), r.1))
  }

  /** Reads the alternatives of an open brace, and drops the brace that closes it. */
  function ReadTrees(s: string): (r: Option<(Alts, string)>)
    ensures r.Some? ==> WfAlts(r.value.0) && s == PrintAlts(r.value.0, "}" + r.value.1)
    ensures r.Some? ==> |r.value.1| < |s|
    decreases |s|, 1
  {
    match ReadTree(s)
    case None => None
    case Some(r) =>
      assert r.1 == [r.1[0]] + r.1[1..];
      if r.1[0] == '}' then Some((One(r.0), r.1[1..]))
      else
        match ReadTrees(r.1[1..])
        case None => None
        case Some(a) => Some((More(r.0, a.0), a.1))
  }

  /** Where the reader gives up, the scan finds no closing brace either. */
  lemma {:induction false} UnreadUnclosed(s: string, depth: nat, cur: string)
    requires depth >= 1 && ReadTree(s).None?
    ensures Alternatives(s, depth, cur).None?
    decreases |s|, 0
  {
    if s == "" {
    } else if s[0] == '\\' {
      if |s| > 1 { UnreadUnclosed(s[2..], depth, cur + s[..2]); }
    } else if s[0] == '{' {
      if ReadTrees(s[1..]).None? {
        UnreadAltsUnclosed(s[1..], depth + 1, cur + [s[0]]);
      } else {
        var a := ReadTrees(s[1..]).value;
        ReadNested(a.0, a.1, depth, cur + [s[0]]);
        UnreadUnclosed(a.1, depth, cur + [s[0]] + PrintAlts(a.0, "}"));
      }
    } else {
      UnreadUnclosed(s[1..], depth, cur + [s[0]]);
    }
  }

  lemma {:induction false} UnreadAltsUnclosed(s: string, depth: nat, cur: string)
    requires depth >= 1 && ReadTrees(s).None?
    ensures Alternatives(s, depth, cur).None?
    decreases |s|, 1
  {
    if ReadTree(s).None? {
      UnreadUnclosed(s, depth, cur);
    } else {
      var r := ReadTree(s).value;
      ReadWord(r.0, r.1, depth, cur);
      assert r.1 == [r.1[0]] + r.1[1..];
      ReadChar(',', r.1[1..], depth, cur + Print(r.0, ""));
      UnreadAltsUnclosed(r.1[1..], depth, if depth == 1 then "" else cur + Print(r.0, "") + ",");
    }
  }

  /** So the product theorem speaks about every pattern there is. */
  lemma {:induction false} EveryPatternIsATree(s: string) returns (w: Word, tail: string)
    ensures Wf(w, true) && IsTail(tail) && s == Print(w, tail)
    decreases |s|
  {
    if s == "" || s == "\\" {
      w, tail := End, s;
    } else if s[0] == '\\' {
      w, tail := EveryPatternIsATree(s[2..]);
      w := Esc(s[1], w);
    } else if s[0] == '{' {
      if ReadTrees(s[1..]).None? {
        UnreadAltsUnclosed(s[1..], 1, "");
        w, tail := End, s;
      } else {
        var a := ReadTrees(s[1..]).value;
        w, tail := EveryPatternIsATree(a.1);
        w := Alt(a.0, w);
      }
    } else {
      w, tail := EveryPatternIsATree(s[1..]);
      w := Lit(s[0], w);
    }
  }

  // ----- the loops ------------------------------------------------------------------------

  method FindOpen(s: string, c: char) returns (r: Option<nat>)
    ensures r == FindUnescaped(s, c)
  {
    var i := 0;
    while i < |s|
      invariant 0 <= i <= |s| + 1
      invariant FindUnescaped(s, c) == if i <= |s| then Shift(FindUnescaped(s[i..], c), i) else None
    {
      if s[i] == '\\' {
        if i + 1 < |s| { assert s[i..][2..] == s[i + 2..]; }
        i := i + 2;
      } else {
        if s[i] == c { return Some(i); }
        assert s[i..][1..] == s[i + 1..];
        i := i + 1;
      }
    }
    r := None;
  }

  /** The alternatives between the brace at `open` and its match, and the index of the match. */
  method MatchBrace(s: string, open: nat) returns (alts: seq<string>, close: Option<nat>)
    requires open < |s|
    ensures close.Some? ==> close.value < |s|
    ensures Alternatives(s[open + 1..], 1, "") == if close.None? then None else Some((alts, s[close.value + 1..]))
  {
    alts, close := [], None;
    var depth: nat, start, i := 1, open + 1, open + 1;
    ghost var goal := Alternatives(s[open + 1..], 1, "");
    ScanStart(s, i);
    while i < |s|
      invariant open + 1 <= start <= i && start <= |s| && depth >= 1
      invariant goal == Prepend(alts, Here(s, i, start, depth))
    {
      HereStep(s, i, start, depth);
      if s[i] == '\\' {
        i := i + 1;
      } else if s[i] == '{' {
        depth := depth + 1;
      } else if s[i] == '}' {
        depth := depth - 1;
        if depth == 0 { return alts + [s[start..i]], Some(i); }
      } else if s[i] == ',' && depth == 1 {
        PrependTwice(alts, [s[start..i]], Here(s, i + 1, i + 1, 1));
        alts := alts + [s[start..i]];
        start := i + 1;
      }
      i := i + 1;
    }
    HereAtEnd(s, i, start, depth);
  }

  /** What is still to be found at index `i`, the current alternative having begun at `start`. */
  ghost function Here(s: string, i: nat, start: nat, depth: nat): Option<(seq<string>, string)>
    requires depth >= 1 && start <= i
  {
    if i <= |s| then Alternatives(s[i..], depth, s[start..i]) else None
  }

  lemma HereStep(s: string, i: nat, start: nat, depth: nat)
    requires start <= i < |s| && depth >= 1
    ensures Here(s, i, start, depth) ==
            if s[i] == '\\' then Here(s, i + 2, start, depth)
            else if s[i] == '{' then Here(s, i + 1, start, depth + 1)
            else if s[i] == '}' then
              if depth == 1 then Some(([s[start..i]], s[i + 1..])) else Here(s, i + 1, start, depth - 1)
            else if s[i] == ',' && depth == 1 then Prepend([s[start..i]], Here(s, i + 1, i + 1, 1))
            else Here(s, i + 1, start, depth)
  {
    FurtherBy(s, i, start, 1);
    assert s[i..][..1] == [s[i]] && s[i + 1..i + 1] == "";
    if i + 1 < |s| { FurtherBy(s, i, start, 2); }
  }

  lemma FurtherBy(s: string, i: nat, start: nat, n: nat)
    requires start <= i && i + n <= |s|
    ensures s[i..][n..] == s[i + n..] && s[start..i] + s[i..][..n] == s[start..i + n]
  {
  }

  lemma HereAtEnd(s: string, i: nat, start: nat, depth: nat)
    requires |s| <= i && start <= i && depth >= 1
    ensures Here(s, i, start, depth) == None
  {
  }

  lemma ScanStart(s: string, i: nat)
    requires i <= |s|
    ensures Prepend([], Here(s, i, i, 1)) == Alternatives(s[i..], 1, "")
  {
    var r := Alternatives(s[i..], 1, "");
    assert s[i..i] == "";
    if r.Some? { assert [] + r.value.0 == r.value.0; }
  }

  lemma PrependTwice(x: seq<string>, y: seq<string>, r: Option<(seq<string>, string)>)
    ensures Prepend(x, Prepend(y, r)) == Prepend(x + y, r)
  {
    if r.Some? { assert x + (y + r.value.0) == (x + y) + r.value.0; }
  }

  lemma NextAlternative(out: seq<string>, head: string, alts: seq<string>, tail: string, bound: nat, k: nat)
    requires k < |alts| && forall a :: a in alts ==> |head| + |a| + |tail| < bound
    ensures out + ExpandAll(head, alts[k..], tail, bound) ==
            out + Expand(head + alts[k] + tail) + ExpandAll(head, alts[k + 1..], tail, bound)
  {
    assert alts[k..][1..] == alts[k + 1..];
    hide Expand;
    Glue(out, Expand(head + alts[k] + tail), ExpandAll(head, alts[k + 1..], tail, bound));
  }

  /** `brace_expand`, which terminates on every string. */
  method BraceExpand(pattern: string) returns (out: seq<string>)
    ensures out == Expand(pattern)
    decreases |pattern|
  {
    var open := FindOpen(pattern, '{');
    if open.None? { return [pattern]; }
    var alts, close := MatchBrace(pattern, open.value);
    if close.None? { return [pattern]; }
    AlternativesShrink(pattern[open.value + 1..], 1, "");
    assert Expand(pattern) == ExpandAll(pattern[..open.value], alts, pattern[close.value + 1..], |pattern|);
    hide Alternatives, Expand, ExpandAll, FindUnescaped;
    var head, tail := pattern[..open.value], pattern[close.value + 1..];
    out := [];
    assert alts[0..] == alts;
    for k := 0 to |alts|
      invariant out + ExpandAll(head, alts[k..], tail, |pattern|) == ExpandAll(head, alts, tail, |pattern|)
    {
      NextAlternative(out, head, alts, tail, |pattern|, k);
      var some := BraceExpand(head + alts[k] + tail);
      out := out + some;
    }
    NoneLeft(head, alts, tail, |pattern|);
  }

  lemma NoneLeft(head: string, alts: seq<string>, tail: string, bound: nat)
    requires forall a :: a in alts ==> |head| + |a| + |tail| < bound
    ensures ExpandAll(head, alts[|alts|..], tail, bound) == []
  {
  }
}
