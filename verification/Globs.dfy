/** What a glob pattern means (glob.rs, `fnmatch`), sign by sign: stars, question marks, sets, escapes and
    literals. */
module Globs {
  import opened Common
  import opened Wildcards
  import Text

  /** One or a range of characters in a set, each perhaps written with a backslash. */
  datatype Member = Member(lo: char, hi: char, range: bool, escapedLo: bool, escapedHi: bool)

  datatype Sign = Star | Any | Set(negated: bool, mark: char, members: seq<Member>) | Escaped(c: char) | Literal(c: char)

  function MemberText(m: Member): string {
    (if m.escapedLo then "\\" else "") + [m.lo] + if m.range then "-" + (if m.escapedHi then "\\" else "") + [m.hi] else ""
  }

  function MembersText(members: seq<Member>): string {
    if members == [] then "" else MemberText(members[0]) + MembersText(members[1..])
  }

  function SignText(sign: Sign): string {
    match sign
    case Star => "*"
    case Any => "?"
    case Set(negated, mark, members) => "[" + (if negated then [mark] else "") + MembersText(members) + "]"
    case Escaped(c) => "\\" + [c]
    case Literal(c) => [c]
  }

  function PatternText(signs: seq<Sign>): string {
    if signs == [] then "" else SignText(signs[0]) + PatternText(signs[1..])
  }

  /** A member that reads as such where it stands: a closing bracket without a backslash only at the
      start, a hyphen only at the start or, alone, at the end. */
  predicate MemberFits(m: Member, first: bool, last: bool) {
    && (!m.escapedLo ==> m.lo != '\\' && (m.lo == ']' ==> first) && (m.lo == '-' ==> first || (last && !m.range)))
    && (m.range && !m.escapedHi ==> m.hi != '\\' && m.hi != ']')
    && (!m.range ==> m.hi == m.lo && !m.escapedHi)
  }

  predicate MembersFit(members: seq<Member>, first: bool) {
    forall k :: 0 <= k < |members| ==> MemberFits(members[k], first && k == 0, k == |members| - 1)
  }

  predicate SignFits(sign: Sign) {
    match sign
    case Star => true
    case Any => true
    case Set(negated, mark, members) =>
      members != [] && MembersFit(members, true) && (mark == '!' || mark == '^') &&
      (!negated && !members[0].escapedLo ==> members[0].lo != '!' && members[0].lo != '^')
    case Escaped(c) => true
    case Literal(c) => c != '*' && c != '?' && c != '[' && c != '\\'
  }

  predicate AllFit(signs: seq<Sign>) { forall k :: 0 <= k < |signs| ==> SignFits(signs[k]) }

  /** Does the text consist of what the signs stand for, one after the other? */
  predicate Means(signs: seq<Sign>, s: string)
    decreases |signs|
  {
    if signs == [] then s == ""
    else
      match signs[0]
      case Star => exists k :: 0 <= k <= |s| && Means(signs[1..], s[k..])
      case Any => s != "" && Means(signs[1..], s[1..])
      case Set(negated, _, members) => s != "" && InSet(members, s[0]) != negated && Means(signs[1..], s[1..])
      case Escaped(c) => s != "" && s[0] == c && Means(signs[1..], s[1..])
      case Literal(c) => s != "" && s[0] == c && Means(signs[1..], s[1..])
  }

  predicate InSet(members: seq<Member>, c: char) {
    exists k :: 0 <= k < |members| && members[k].lo <= c <= members[k].hi
  }

  // ----- sets ---------------------------------------------------------------------------------------------

  predicate Hit(matched: bool, members: seq<Member>, c: Option<char>) { c.Some? && (matched || InSet(members, c.value)) }

  lemma TextAt(pre: string, text: string, post: string, k: nat)
    requires k < |text|
    ensures (pre + text + post)[|pre| + k] == text[k]
  {
  }

  /** One turn of the loop over a set. */
  lemma BracketStep(p: string, i: nat, j: nat, hi: char, next: nat, first: bool, matched: bool, negate: bool, c: Option<char>)
    requires i < |p| && (p[i] == ']' ==> first)
    requires j == if p[i] == '\\' && i + 1 < |p| then i + 1 else i
    requires j < next <= |p|
    requires if j + 2 < |p| && p[j + 1] == '-' && p[j + 2] != ']'
             then if p[j + 2] == '\\' && j + 3 < |p| then hi == p[j + 3] && next == j + 4 else hi == p[j + 2] && next == j + 3
             else hi == p[j] && next == j + 1
    ensures BracketFrom(p, i, first, matched, negate, c) ==
            BracketFrom(p, next, false, matched || (c.Some? && p[j] <= c.value <= hi), negate, c)
  {
  }

  /** Reading one member. */
  lemma OneMember(pre: string, m: Member, post: string, first: bool, last: bool, matched: bool, negate: bool, c: Option<char>)
    requires MemberFits(m, first, last) && post != ""
    requires !m.range ==> post[0] != '-' || (|post| > 1 && post[1] == ']')
    ensures var p, text := pre + MemberText(m) + post, MemberText(m);
            BracketFrom(p, |pre|, first, matched, negate, c) ==
            BracketFrom(p, |pre| + |text|, false, matched || (c.Some? && m.lo <= c.value <= m.hi), negate, c)
  {
    hide MemberText, BracketFrom;
    var text := MemberText(m);
    var p, i := pre + text + post, |pre|;
    var j := if m.escapedLo then i + 1 else i;
    MemberChars(m);
    assert forall k :: 0 <= k < |text| ==> p[i + k] == text[k];
    assert forall k :: 0 <= k < |post| ==> p[i + |text| + k] == post[k];
    assert p[j] == text[j - i];
    if m.range {
      assert p[j + 1] == text[j + 1 - i] && p[j + 2] == text[j + 2 - i];
      if m.escapedHi { assert p[j + 3] == text[j + 3 - i]; }
    } else {
      assert p[j + 1] == post[0];
      if |post| > 1 { assert p[j + 2] == post[1]; }
    }
    BracketStep(p, i, j, m.hi, i + |text|, first, matched, negate, c);
  }

  lemma MemberChars(m: Member)
    ensures var text, j := MemberText(m), if m.escapedLo then 1 else 0;
            && |text| == j + 1 + (if !m.range then 0 else if m.escapedHi then 3 else 2)
            && (m.escapedLo ==> text[0] == '\\') && text[j] == m.lo
            && (m.range ==> text[j + 1] == '-')
            && (m.range && !m.escapedHi ==> text[j + 2] == m.hi)
            && (m.range && m.escapedHi ==> text[j + 2] == '\\' && text[j + 3] == m.hi)
  {
  }

  lemma {:induction false} AllMembers(pre: string, members: seq<Member>, post: string, first: bool, matched: bool, negate: bool, c: Option<char>)
    requires MembersFit(members, first) && "]" <= post && (first ==> members != [])
    ensures var p := pre + MembersText(members) + post;
            BracketFrom(p, |pre|, first, matched, negate, c) ==
            Some((c.Some? && ((matched || InSet(members, c.value)) != negate), |pre| + |MembersText(members)| + 1))
    decreases |members|
  {
    hide *;
    MembersStep(members);
    if members == [] {
      AtClose(pre, post, first, matched, negate, c);
    } else {
      var m, rest := members[0], members[1..];
      var text, more := MemberText(m), MembersText(rest) + post;
      Regrouped(pre, text, MembersText(rest), post);
      NextBegins(members, first, post);
      RestFits(members, first);
      if c.Some? { SetOrRest(members, c.value); }
      OneMember(pre, m, more, first, rest == [], matched, negate, c);
      AllMembers(pre + text, rest, post, false, matched || (c.Some? && m.lo <= c.value <= m.hi), negate, c);
    }
  }

  lemma MembersStep(members: seq<Member>)
    ensures MembersText(members) == if members == [] then "" else MemberText(members[0]) + MembersText(members[1..])
    ensures members == [] ==> forall c :: !InSet(members, c)
  {
  }

  lemma AtClose(pre: string, post: string, first: bool, matched: bool, negate: bool, c: Option<char>)
    requires "]" <= post && !first
    ensures BracketFrom(pre + "" + post, |pre|, first, matched, negate, c) == Some((c.Some? && matched != negate, |pre| + 1))
  {
    assert pre + "" + post == pre + post && (pre + post)[|pre|] == post[0];
  }

  lemma Regrouped(pre: string, text: string, rest: string, post: string)
    ensures pre + (text + rest) + post == pre + text + (rest + post) == (pre + text) + rest + post
  {
  }

  lemma RestFits(members: seq<Member>, first: bool)
    requires members != [] && MembersFit(members, first)
    ensures MembersFit(members[1..], false) && MemberFits(members[0], first, members[1..] == [])
  {
    var rest := members[1..];
    forall k | 0 <= k < |rest| ensures MemberFits(rest[k], false, k == |rest| - 1) {
      assert MemberFits(members[k + 1], first && k + 1 == 0, k + 1 == |members| - 1);
    }
  }

  lemma SetOrRest(members: seq<Member>, c: char)
    requires members != []
    ensures InSet(members, c) <==> members[0].lo <= c <= members[0].hi || InSet(members[1..], c)
  {
    if k :| 0 <= k < |members[1..]| && members[1..][k].lo <= c <= members[1..][k].hi { assert members[k + 1].lo <= c; }
  }

  /** What follows a single member does not make a range of it. */
  lemma NextBegins(members: seq<Member>, first: bool, post: string)
    requires members != [] && MembersFit(members, first) && "]" <= post
    ensures var more := MembersText(members[1..]) + post;
            more != "" && (more[0] == '-' ==> |more| > 1 && more[1] == ']')
  {
    if |members| > 1 {
      var next := members[1];
      assert MemberFits(next, false, 1 == |members| - 1);
      assert members[1..][0] == next;
      assert MembersText(members[1..]) == MemberText(next) + MembersText(members[2..]) by { assert members[1..][1..] == members[2..]; }
      if next.lo == '-' && !next.escapedLo {
        assert members[2..] == [];
        assert MemberText(next) == "-";
      }
    }
  }

  /** A set at the start of a pattern. */
  lemma SetRead(sign: Sign, rest: string, s: string)
    requires sign.Set? && SignFits(sign)
    ensures Bracket(SignText(sign) + rest, s) ==
            Some((s != "" && (InSet(sign.members, s[0]) != sign.negated), |SignText(sign)|))
  {
    var members := MembersText(sign.members);
    var pre := if sign.negated then "[" + [sign.mark] else "[";
    var p := SignText(sign) + rest;
    var c := if s == "" then None else Some(s[0]);
    assert SignText(sign) == pre + members + "]" by { assert "[" + "" == "["; }
    assert p == pre + members + ("]" + rest);
    MemberFirst(sign.members);
    assert p[|pre|] == members[0];
    hide BracketFrom, MembersText, InSet;
    AllMembers(pre, sign.members, "]" + rest, true, false, sign.negated, c);
  }

  lemma MemberFirst(members: seq<Member>)
    requires members != []
    ensures MembersText(members) != "" && MembersText(members)[0] == if members[0].escapedLo then '\\' else members[0].lo
  {
    MemberChars(members[0]);
  }

  // ----- patterns -----------------------------------------------------------------------------------------------

  /** A pattern matches exactly the texts its signs mean. */
  lemma {:induction false} FnMatchMeans(signs: seq<Sign>, s: string)
    requires AllFit(signs)
    ensures FnMatch(PatternText(signs), s) <==> Means(signs, s)
    decreases |signs|
  {
    if signs != [] {
      var sign, rest := signs[0], PatternText(signs[1..]);
      assert SignFits(sign) && AllFit(signs[1..]);
      FirstSign(sign, rest, s);
      hide FnMatch, SignText, InSet, AllFit, SignFits, PatternText;
      if sign.Star? {
        forall k | 0 <= k <= |s| ensures FnMatch(rest, s[k..]) <==> Means(signs[1..], s[k..]) { FnMatchMeans(signs[1..], s[k..]); }
      } else if s != "" {
        FnMatchMeans(signs[1..], s[1..]);
      }
      Unfolded(signs, s);
    }
  }

  lemma Unfolded(signs: seq<Sign>, s: string)
    requires signs != []
    ensures PatternText(signs) == SignText(signs[0]) + PatternText(signs[1..])
  {
  }

  /** Matching the first sign. */
  lemma FirstSign(sign: Sign, rest: string, s: string)
    requires SignFits(sign)
    ensures FnMatch(SignText(sign) + rest, s) <==>
            match sign
            case Star => exists k :: 0 <= k <= |s| && FnMatch(rest, s[k..])
            case Any => s != "" && FnMatch(rest, s[1..])
            case Set(negated, _, members) => s != "" && InSet(members, s[0]) != negated && FnMatch(rest, s[1..])
            case Escaped(c) => s != "" && s[0] == c && FnMatch(rest, s[1..])
            case Literal(c) => s != "" && s[0] == c && FnMatch(rest, s[1..])
  {
    var p := SignText(sign) + rest;
    assert p[|SignText(sign)|..] == rest;
    if sign.Set? {
      SetRead(sign, rest, s);
      hide Bracket, MembersText, InSet;
      assert p[0] == '[';
    } else {
      assert p[0] == SignText(sign)[0];
    }
  }

  // ----- stars -------------------------------------------------------------------------------------------------

  /** The same character, or a letter and its other case. */
  predicate Alike(c: char, d: char) {
    c == d || (65 <= c as int <= 90 && d as int == c as int + 32) || (97 <= c as int <= 122 && d as int == c as int - 32)
  }

  predicate SpeltAlike(s: string, t: string) { |s| == |t| && forall k :: 0 <= k < |s| ==> Alike(s[k], t[k]) }

  /** The pieces with something put where each star is. */
  function Filled(pieces: seq<string>, gaps: seq<string>): string
    requires |pieces| == |gaps| + 1
  {
    if gaps == [] then pieces[0] else pieces[0] + gaps[0] + Filled(pieces[1..], gaps[1..])
  }

  lemma LowerIff(s: string, t: string)
    ensures Text.ToLower(s) == Text.ToLower(t) <==> SpeltAlike(s, t)
  {
    if Text.ToLower(s) == Text.ToLower(t) {
      assert |Text.ToLower(s)| == |s| && |Text.ToLower(t)| == |t|;
      forall k | 0 <= k < |s| ensures Alike(s[k], t[k]) { assert Text.ToLower(s)[k] == Text.ToLower(t)[k]; }
    }
  }

  lemma LowerBoth(s: string, t: string)
    ensures Text.ToLower(s + t) == Text.ToLower(s) + Text.ToLower(t)
    ensures Text.ToLower(Text.ToLower(s)) == Text.ToLower(s)
  {
  }

  function AllLower(pieces: seq<string>): seq<string> {
    seq(|pieces|, i requires 0 <= i < |pieces| => Text.ToLower(pieces[i]))
  }

  lemma {:induction false} LowerFilled(pieces: seq<string>, gaps: seq<string>)
    requires |pieces| == |gaps| + 1
    ensures Text.ToLower(Filled(pieces, gaps)) == Filled(AllLower(pieces), AllLower(gaps))
  {
    hide Text.ToLower;
    if gaps != [] {
      LowerFilled(pieces[1..], gaps[1..]);
      assert AllLower(pieces)[1..] == AllLower(pieces[1..]) && AllLower(gaps)[1..] == AllLower(gaps[1..]);
      LowerBoth(pieces[0] + gaps[0], Filled(pieces[1..], gaps[1..]));
      LowerBoth(pieces[0], gaps[0]);
    }
  }

  lemma {:induction false} LowerJoined(pieces: seq<string>)
    ensures Text.ToLower(Text.Join(pieces, '*')) == Text.Join(AllLower(pieces), '*')
  {
    if pieces == [] {
      assert Text.ToLower("") == "";
    } else if |pieces| > 1 {
      LowerJoined(pieces[1..]);
      assert AllLower(pieces)[1..] == AllLower(pieces[1..]);
      LowerBoth(pieces[0] + "*", Text.Join(pieces[1..], '*'));
      LowerBoth(pieces[0], "*");
      assert Text.ToLower("*") == "*" && ['*'] == "*";
    }
  }

  lemma {:induction false} FitsFilled(pieces: seq<string>, gaps: seq<string>)
    requires |pieces| == |gaps| + 1
    ensures Fits(pieces, Filled(pieces, gaps))
  {
    if gaps != [] {
      var rest := Filled(pieces[1..], gaps[1..]);
      FitsFilled(pieces[1..], gaps[1..]);
      var s := pieces[0] + gaps[0] + rest;
      var k := |pieces[0]| + |gaps[0]|;
      assert s[k..] == rest && pieces[0] <= s;
    }
  }

  lemma {:induction false} FilledFits(pieces: seq<string>, s: string) returns (gaps: seq<string>)
    requires pieces != [] && Fits(pieces, s)
    ensures |pieces| == |gaps| + 1 && s == Filled(pieces, gaps)
    decreases |pieces|
  {
    if |pieces| == 1 {
      gaps := [];
    } else {
      var n := |pieces[0]|;
      var k: nat :| n <= k <= |s| && Fits(pieces[1..], s[k..]);
      var rest := FilledFits(pieces[1..], s[k..]);
      gaps := [s[n..k]] + rest;
      assert gaps[1..] == rest;
      assert s == pieces[0] + s[n..k] + s[k..];
    }
  }

  lemma {:induction false} GapsAreLower(pieces: seq<string>, gaps: seq<string>)
    requires |pieces| == |gaps| + 1 && Text.ToLower(Filled(pieces, gaps)) == Filled(pieces, gaps)
    ensures AllLower(gaps) == gaps
  {
    if gaps != [] {
      var rest := Filled(pieces[1..], gaps[1..]);
      LowerBoth(pieces[0] + gaps[0], rest);
      LowerBoth(pieces[0], gaps[0]);
      assert |Text.ToLower(pieces[0])| == |pieces[0]| && |Text.ToLower(gaps[0])| == |gaps[0]| && |Text.ToLower(rest)| == |rest|;
      hide Text.ToLower;
      SameThree(Text.ToLower(pieces[0]), Text.ToLower(gaps[0]), Text.ToLower(rest), pieces[0], gaps[0], rest);
      GapsAreLower(pieces[1..], gaps[1..]);
      assert AllLower(gaps) == [Text.ToLower(gaps[0])] + AllLower(gaps[1..]);
    }
  }

  lemma SameThree(a: string, b: string, c: string, x: string, y: string, z: string)
    requires a + b + c == x + y + z && |a| == |x| && |b| == |y|
    ensures b == y && c == z
  {
    assert (a + b + c)[|a|..|a| + |b|] == b && (x + y + z)[|a|..|a| + |b|] == y;
    assert (a + b + c)[|a| + |b|..] == c && (x + y + z)[|a| + |b|..] == z;
  }

  /** What a plugin rule is compared by: a name matches pieces with stars between them exactly when it spells,
      in any case, the pieces with something in place of each star. */
  lemma StarsMean(pieces: seq<string>, name: string)
    requires pieces != [] && forall k :: 0 <= k < |pieces| ==> '*' !in pieces[k]
    ensures Fits(Text.Split(Text.ToLower(Text.Join(pieces, '*')), '*'), Text.ToLower(name)) <==>
            exists gaps: seq<string> :: |pieces| == |gaps| + 1 && SpeltAlike(name, Filled(pieces, gaps))
  {
    var lower := AllLower(pieces);
    forall k | 0 <= k < |lower| ensures '*' !in lower[k] { LowerHasNoStar(pieces[k]); }
    LowerJoined(pieces);
    Text.SplitJoin(lower, '*');
    hide Fits, Text.Split, Text.Join, Filled, SpeltAlike;
    if Fits(lower, Text.ToLower(name)) {
      var gaps := FilledFits(lower, Text.ToLower(name));
      LowerBoth(name, "");
      GapsAreLower(lower, gaps);
      LowerFilled(pieces, gaps);
      LowerIff(name, Filled(pieces, gaps));
    }
    if gaps: seq<string> :| |pieces| == |gaps| + 1 && SpeltAlike(name, Filled(pieces, gaps)) {
      LowerIff(name, Filled(pieces, gaps));
      LowerFilled(pieces, gaps);
      FitsFilled(lower, AllLower(gaps));
    }
  }

  lemma LowerHasNoStar(s: string)
    requires '*' !in s
    ensures '*' !in Text.ToLower(s)
  {
    assert forall k :: 0 <= k < |s| ==> s[k] != '*';
  }
}
