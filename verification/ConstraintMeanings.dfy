/** What a whole constraint admits (constraint.rs), told by its alternatives and their conditions. */
module ConstraintMeanings {
  import opened Common
  import opened Versions
  import opened Constraints
  import opened ConstraintParser
  import opened VersionTexts
  import Text

  /** A condition: a word, a sign and a word behind it, or two words with a hyphen between them. */
  datatype Item = Word(w: string) | Signed(sign: string, w: string) | Range(from: string, to: string)

  /** No comma, blank or bar. */
  predicate IsWord(w: string) { w != "" && forall k :: 0 <= k < |w| ==> w[k] != ',' && w[k] != '|' && !Blank(w[k]) }

  predicate Stands(w: string) { w in {">=", ">", "<=", "<", "==", "=", "!=", "<>"} }

  predicate ItemFits(it: Item) {
    match it
    case Word(w) => IsWord(w) && !Stands(w) && w != "-"
    case Signed(sign, w) => Stands(sign) && IsWord(w)
    case Range(from, to) => IsWord(from) && !Stands(from) && from != "-" && IsWord(to)
  }

  function ItemWords(it: Item): seq<string> {
    match it
    case Word(w) => [w]
    case Signed(sign, w) => [sign, w]
    case Range(from, to) => [from, "-", to]
  }

  /** What is read as one condition. */
  function TokenOf(it: Item): string {
    match it
    case Word(w) => w
    case Signed(sign, w) => sign + w
    case Range(from, to) => from + " - " + to
  }

  function AllWords(items: seq<Item>): seq<string> {
    if items == [] then [] else ItemWords(items[0]) + AllWords(items[1..])
  }

  function Tokens(items: seq<Item>): seq<string> { seq(|items|, i requires 0 <= i < |items| => TokenOf(items[i])) }

  predicate AllFit(items: seq<Item>) { forall k :: 0 <= k < |items| ==> ItemFits(items[k]) }

  // ----- tokens ------------------------------------------------------------------------------------------------

  lemma SignIff(w: string)
    ensures IsSign(w) <==> Stands(w)
  {
  }

  lemma GluedOne(it: Item, rest: seq<string>, tokens: seq<string>)
    requires ItemFits(it)
    ensures Glued(ItemWords(it) + rest, tokens) == Glued(rest, tokens + [TokenOf(it)])
  {
    var words := ItemWords(it) + rest;
    match it
    case Word(w) =>
      SignIff(w);
      assert words[1..] == rest;
    case Signed(sign, w) =>
      SignIff(sign);
      assert words[2..] == rest;
    case Range(from, to) =>
      SignIff(from);
      SignIff("-");
      var after := tokens + [from];
      assert words[1..] == ["-", to] + rest && words[1..][2..] == rest;
      assert after[..|after| - 1] == tokens && after[|after| - 1] == from;
      assert Glued(words, tokens) == Glued(words[1..], after);
  }

  lemma {:induction false} GluedAll(items: seq<Item>, tokens: seq<string>)
    requires AllFit(items)
    ensures Glued(AllWords(items), tokens) == tokens + Tokens(items)
    decreases |items|
  {
    if items == [] {
      assert tokens + Tokens(items) == tokens;
    } else {
      GluedOne(items[0], AllWords(items[1..]), tokens);
      GluedAll(items[1..], tokens + [TokenOf(items[0])]);
      hide Glued;
      assert tokens + [TokenOf(items[0])] + Tokens(items[1..]) == tokens + Tokens(items);
    }
  }

  // ----- words --------------------------------------------------------------------------------------------------

  predicate AreGaps(s: string) { forall k :: 0 <= k < |s| ==> s[k] == ',' || s[k] == ' ' || s[k] == '\t' }

  /** Words with something between any two of them, and perhaps in front and behind. */
  function Spaced(words: seq<string>, gaps: seq<string>): string
    requires |gaps| == |words| + 1
  {
    if words == [] then gaps[0] else gaps[0] + words[0] + Spaced(words[1..], gaps[1..])
  }

  predicate GapsFit(gaps: seq<string>) {
    (forall k :: 0 <= k < |gaps| ==> AreGaps(gaps[k])) && forall k :: 0 < k < |gaps| - 1 ==> gaps[k] != ""
  }

  lemma {:induction false} WordRead(w: string, t: string, cur: string)
    requires forall k :: 0 <= k < |w| ==> !IsGap(w[k])
    ensures Words(w + t, cur) == Words(t, cur + w)
    decreases |w|
  {
    if w == "" {
      assert w + t == t && cur + w == cur;
    } else {
      assert (w + t)[1..] == w[1..] + t && cur + [w[0]] + w[1..] == cur + w;
      WordRead(w[1..], t, cur + [w[0]]);
    }
  }

  lemma {:induction false} GapRead(gap: string, t: string)
    requires AreGaps(gap)
    ensures Words(gap + t, "") == Words(t, "")
  {
    if gap == "" {
      assert gap + t == t;
    } else {
      assert (gap + t)[1..] == gap[1..] + t;
      assert IsGap(gap[0]) && Kept("") + Words(gap[1..] + t, "") == Words(gap[1..] + t, "");
      GapRead(gap[1..], t);
    }
  }

  lemma GapEnds(gap: string, t: string, cur: string)
    requires AreGaps(gap) && cur != "" && (gap == "" ==> t == "")
    ensures Words(gap + t, cur) == [cur] + Words(t, "")
  {
    if gap == "" {
      assert gap + t == "" && Words(t, "") == [];
    } else {
      assert (gap + t)[1..] == gap[1..] + t && IsGap(gap[0]);
      GapRead(gap[1..], t);
    }
  }

  lemma {:induction false} WordsAre(words: seq<string>, gaps: seq<string>)
    requires |gaps| == |words| + 1 && GapsFit(gaps) && forall k :: 0 <= k < |words| ==> IsWord(words[k])
    ensures Words(Spaced(words, gaps), "") == words
    decreases |words|
  {
    hide *;
    FirstGap(gaps);
    if words == [] {
      SpacedEnd(gaps);
      GapRead(gaps[0], "");
      assert gaps[0] + "" == gaps[0];
      NoWords();
    } else {
      var w, rest := words[0], Spaced(words[1..], gaps[1..]);
      SpacedStep(words, gaps);
      Glue(gaps[0], w, rest);
      GapRead(gaps[0], w + rest);
      WordHasNoGap(w);
      WordRead(w, rest, "");
      assert "" + w == w;
      WordEnds(words, gaps, w);
      WordsAre(words[1..], gaps[1..]);
    }
  }

  lemma NoWords()
    ensures Words("", "") == []
  {
  }

  lemma FirstGap(gaps: seq<string>)
    requires GapsFit(gaps) && gaps != []
    ensures AreGaps(gaps[0]) && GapsFit(gaps[1..])
  {
  }

  lemma SpacedEnd(gaps: seq<string>)
    requires |gaps| == 1
    ensures Spaced([], gaps) == gaps[0]
  {
  }

  lemma SpacedStep(words: seq<string>, gaps: seq<string>)
    requires |gaps| == |words| + 1 && words != []
    ensures Spaced(words, gaps) == gaps[0] + words[0] + Spaced(words[1..], gaps[1..])
  {
  }

  lemma WordHasNoGap(w: string)
    requires IsWord(w)
    ensures w != "" && forall k :: 0 <= k < |w| ==> !IsGap(w[k])
  {
  }

  /** A word ends where the gap behind it begins. */
  lemma WordEnds(words: seq<string>, gaps: seq<string>, w: string)
    requires |gaps| == |words| + 1 && GapsFit(gaps) && words != [] && w != ""
    ensures var rest := Spaced(words[1..], gaps[1..]); Words(rest, w) == [w] + Words(rest, "")
  {
    var gap := gaps[1];
    if |words| == 1 {
      assert Spaced(words[1..], gaps[1..]) == gap == gap + "";
      GapEnds(gap, "", w);
      GapRead(gap, "");
    } else {
      var tail := words[1] + Spaced(words[2..], gaps[2..]);
      assert words[1..][1..] == words[2..] && gaps[1..][1..] == gaps[2..];
      Glue(gap, words[1], Spaced(words[2..], gaps[2..]));
      GapEnds(gap, tail, w);
      GapRead(gap, tail);
    }
  }

  // ----- one alternative ------------------------------------------------------------------------------------------

  /** How an alternative is written. */
  ghost predicate IsWritten(items: seq<Item>, text: string) {
    AllFit(items) && exists gaps :: |gaps| == |AllWords(items)| + 1 && GapsFit(gaps) && text == Spaced(AllWords(items), gaps)
  }

  lemma SignIsWord(sign: string)
    requires Stands(sign) || sign == "-"
    ensures IsWord(sign)
  {
  }

  lemma ItemIsWords(it: Item)
    requires ItemFits(it)
    ensures forall k :: 0 <= k < |ItemWords(it)| ==> IsWord(ItemWords(it)[k])
  {
    SignIsWord("-");
    if it.Signed? { SignIsWord(it.sign); }
    hide IsWord, Stands;
  }

  lemma {:induction false} AllAreWords(items: seq<Item>)
    requires AllFit(items)
    ensures forall k :: 0 <= k < |AllWords(items)| ==> IsWord(AllWords(items)[k])
    decreases |items|
  {
    hide IsWord, ItemFits;
    if items != [] {
      ItemIsWords(items[0]);
      AllAreWords(items[1..]);
    }
  }

  lemma GluedItems(items: seq<Item>, text: string)
    requires IsWritten(items, text)
    ensures Glued(Words(text, ""), []) == Tokens(items)
  {
    var gaps :| |gaps| == |AllWords(items)| + 1 && GapsFit(gaps) && text == Spaced(AllWords(items), gaps);
    hide *;
    WrittenFits(items, text);
    AllAreWords(items);
    WordsAre(AllWords(items), gaps);
    GluedAll(items, []);
    assert [] + Tokens(items) == Tokens(items);
  }

  lemma WrittenFits(items: seq<Item>, text: string)
    requires IsWritten(items, text)
    ensures AllFit(items)
  {
  }

  /** All conditions can be read. */
  predicate Readable(items: seq<Item>) { forall k :: 0 <= k < |items| ==> ParseSimple(TokenOf(items[k])).Some? }

  /** What they admit together. */
  predicate Admits(items: seq<Item>, x: Version)
    requires Readable(items)
  {
    forall k :: 0 <= k < |items| ==> MatchesGroup(ParseSimple(TokenOf(items[k])).value, x)
  }

  lemma BothGroups(a: seq<Simple>, b: seq<Simple>, x: Version)
    ensures MatchesGroup(a + b, x) <==> MatchesGroup(a, x) && MatchesGroup(b, x)
    ensures MatchesGroup([], x)
  {
    hide Holds;
  }

  lemma ConditionsStep(items: seq<Item>)
    requires items != []
    ensures var n := |items| - 1;
            Conditions(Tokens(items)) ==
            match (Conditions(Tokens(items[..n])), ParseSimple(TokenOf(items[n])))
            case (Some(before), Some(last)) => Some(before + last)
            case _ => None
  {
    var n := |items| - 1;
    assert Tokens(items)[..n] == Tokens(items[..n]);
    hide ParseSimple, TokenOf;
  }

  lemma ReadableStep(items: seq<Item>, x: Version)
    requires items != []
    ensures var n := |items| - 1;
            && (Readable(items) <==> Readable(items[..n]) && ParseSimple(TokenOf(items[n])).Some?)
            && (Readable(items) ==> (Admits(items, x) <==> Admits(items[..n], x) && MatchesGroup(ParseSimple(TokenOf(items[n])).value, x)))
  {
    hide ParseSimple, TokenOf, MatchesGroup;
    var n := |items| - 1;
    forall k | 0 <= k < n ensures items[..n][k] == items[k] {}
    if Readable(items[..n]) && ParseSimple(TokenOf(items[n])).Some? {
      forall k | 0 <= k < |items| ensures ParseSimple(TokenOf(items[k])).Some? {
        if k < n { assert items[..n][k] == items[k]; }
      }
    }
    if Readable(items) {
      forall k | 0 <= k < n ensures items[..n][k] == items[k] && ParseSimple(TokenOf(items[..n][k])).Some? {}
      if Admits(items[..n], x) && MatchesGroup(ParseSimple(TokenOf(items[n])).value, x) {
        forall k | 0 <= k < |items| ensures MatchesGroup(ParseSimple(TokenOf(items[k])).value, x) {
          if k < n { assert items[..n][k] == items[k]; }
        }
      }
    }
  }

  lemma {:induction false} ConditionsAre(items: seq<Item>, x: Version)
    ensures Conditions(Tokens(items)).Some? <==> Readable(items)
    ensures Readable(items) ==> (MatchesGroup(Conditions(Tokens(items)).value, x) <==> Admits(items, x))
    ensures Readable(items) && items != [] ==> Conditions(Tokens(items)).value != []
    decreases |items|
  {
    hide *;
    if items == [] {
      NoItems(x);
    } else {
      var n := |items| - 1;
      ConditionsAre(items[..n], x);
      ConditionsStep(items);
      ReadableStep(items, x);
      SomethingRead(TokenOf(items[n]));
      if Readable(items) {
        BothGroups(Conditions(Tokens(items[..n])).value, ParseSimple(TokenOf(items[n])).value, x);
      }
    }
  }

  lemma NoItems(x: Version)
    ensures Conditions(Tokens([])) == Some([]) && Readable([]) && Admits([], x) && MatchesGroup([], x)
  {
    assert Tokens([]) == [];
  }

  /** A token that is read is at least one condition. */
  lemma SomethingRead(token: string)
    ensures ParseSimple(token).Some? ==> ParseSimple(token).value != []
  {
    hide Parse, Trim, FindHyphen, HasSuffix, Floor, Bumped, DottedCount, Stem, IsWildcard, EndsInStar, StartsWith;
  }

  lemma GroupMeans(items: seq<Item>, text: string, x: Version)
    requires IsWritten(items, text)
    ensures Group(text).Some? <==> items != [] && Readable(items)
    ensures Group(text).Some? ==> (MatchesGroup(Group(text).value, x) <==> Admits(items, x))
  {
    hide *;
    GluedItems(items, text);
    ConditionsAre(items, x);
    GroupIs(text, Tokens(items));
    if items == [] { NoItems(x); }
  }

  lemma GroupIs(text: string, tokens: seq<string>)
    requires Glued(Words(text, ""), []) == tokens
    ensures Group(text) == match Conditions(tokens) case None => None case Some(out) => if out == [] then None else Some(out)
  {
    hide Glued, Words, Conditions;
  }

  // ----- blanks around an alternative ---------------------------------------------------------------------------

  /** Whatever is blank lies between words, and there are no bars. */
  predicate NoLines(text: string) { forall k :: 0 <= k < |text| ==> text[k] != '|' && (IsBlank(text[k]) ==> IsGap(text[k])) }

  lemma {:induction false} SpacedHasNoLines(words: seq<string>, gaps: seq<string>)
    requires |gaps| == |words| + 1 && GapsFit(gaps) && forall k :: 0 <= k < |words| ==> IsWord(words[k])
    ensures NoLines(Spaced(words, gaps)) && (words != [] ==> Spaced(words, gaps) != "")
    decreases |words|
  {
    PartsHaveNoLines(gaps[0]);
    if words != [] {
      PartsHaveNoLines(words[0]);
      FirstGap(gaps);
      SpacedHasNoLines(words[1..], gaps[1..]);
      hide IsWord, AreGaps;
    }
  }

  lemma PartsHaveNoLines(s: string)
    ensures AreGaps(s) || IsWord(s) ==> NoLines(s)
  {
    if IsWord(s) { forall k | 0 <= k < |s| ensures !IsBlank(s[k]) { SameCharacters(s[k]); } }
  }

  lemma {:induction false} GapAtEnd(s: string, c: char, cur: string)
    requires IsGap(c)
    ensures Words(s + [c], cur) == Words(s, cur)
    decreases |s|
  {
    if s == "" {
      assert s + [c] == [c] && [c][1..] == "";
      assert Words("", "") == [];
    } else {
      assert (s + [c])[1..] == s[1..] + [c];
      GapAtEnd(s[1..], c, "");
      GapAtEnd(s[1..], c, cur + [s[0]]);
    }
  }

  lemma {:induction false} TrimStartKeeps(s: string)
    requires NoLines(s)
    ensures Words(TrimStart(s), "") == Words(s, "") && NoLines(TrimStart(s))
    decreases |s|
  {
    if s != "" && IsBlank(s[0]) {
      assert NoLines(s[1..]) && IsGap(s[0]);
      TrimStartKeeps(s[1..]);
      assert Kept("") + Words(s[1..], "") == Words(s[1..], "");
    }
  }

  lemma {:induction false} TrimEndKeeps(s: string)
    requires NoLines(s)
    ensures Words(TrimEnd(s), "") == Words(s, "")
    decreases |s|
  {
    if s != "" && IsBlank(s[|s| - 1]) {
      var n := |s| - 1;
      assert NoLines(s[..n]) && IsGap(s[n]) && s == s[..n] + [s[n]];
      TrimEndKeeps(s[..n]);
      GapAtEnd(s[..n], s[n], "");
    }
  }

  lemma TrimmedGroup(text: string)
    requires NoLines(text)
    ensures (if Trim(text) == "" then None else Group(Trim(text))) == Group(text)
  {
    TrimStartKeeps(text);
    TrimEndKeeps(TrimStart(text));
    SameGroup(Trim(text), text);
    hide *;
    if Trim(text) == "" { EmptyGroup(); }
  }

  lemma SameGroup(a: string, b: string)
    requires Words(a, "") == Words(b, "")
    ensures Group(a) == Group(b)
  {
    hide Words, Glued, Conditions;
  }

  lemma EmptyGroup()
    ensures Group("") == None
  {
    assert Words("", "") == [];
  }

  // ----- the whole text ---------------------------------------------------------------------------------------------

  /** Pieces with two bars between any two of them. */
  function JoinBars(texts: seq<string>): string
    requires texts != []
  {
    if |texts| == 1 then texts[0] else texts[0] + "||" + JoinBars(texts[1..])
  }

  lemma {:induction false} SplitBarsAt(a: string, b: string)
    requires '|' !in a
    ensures SplitBars(a + "||" + b) == [a] + SplitBars(b)
  {
    var s := a + "||" + b;
    if a == "" {
      assert s[2..] == b;
    } else {
      assert s[1..] == a[1..] + "||" + b && s[0] == a[0];
      SplitBarsAt(a[1..], b);
      assert a == [a[0]] + a[1..];
    }
  }

  lemma {:induction false} NoBarsSplit(a: string)
    requires '|' !in a
    ensures SplitBars(a) == [a]
  {
    if a != "" {
      NoBarsSplit(a[1..]);
      assert a == [a[0]] + a[1..];
    }
  }

  lemma {:induction false} SplitJoinedBars(texts: seq<string>)
    requires texts != [] && forall i :: 0 <= i < |texts| ==> '|' !in texts[i]
    ensures SplitBars(JoinBars(texts)) == texts
    ensures |texts| > 1 ==> HasBars(JoinBars(texts))
  {
    NoBarsSplit(texts[0]);
    if |texts| > 1 {
      SplitJoinedBars(texts[1..]);
      SplitBarsAt(texts[0], JoinBars(texts[1..]));
      var s, n := JoinBars(texts), |texts[0]|;
      assert s[n] == '|' && s[n + 1] == '|';
      assert texts == [texts[0]] + texts[1..];
    }
  }

  /** Pieces with one bar between any two of them have no two bars in a row. */
  lemma {:induction false} SingleBars(texts: seq<string>)
    requires texts != [] && forall i :: 0 <= i < |texts| ==> texts[i] != "" && '|' !in texts[i]
    ensures !HasBars(Text.Join(texts, '|')) && Text.Join(texts, '|') != "" && Text.Join(texts, '|')[0] != '|'
    ensures |texts| > 1 ==> '|' in Text.Join(texts, '|')
    ensures |texts| == 1 ==> '|' !in Text.Join(texts, '|')
  {
    var s, n := Text.Join(texts, '|'), |texts[0]|;
    assert forall k :: 0 <= k < n ==> texts[0][k] != '|';
    if |texts| > 1 {
      var rest := Text.Join(texts[1..], '|');
      SingleBars(texts[1..]);
      assert s == texts[0] + ['|'] + rest && s[n] == '|';
      forall k | 0 <= k < |s| - 1 ensures !(s[k] == '|' && s[k + 1] == '|') {
        assert k > n ==> s[k] == rest[k - n - 1] && s[k + 1] == rest[k - n];
        assert k < n ==> s[k] == texts[0][k];
      }
    }
  }

  function Joined(texts: seq<string>, double: bool): string
    requires texts != []
  {
    if double then JoinBars(texts) else Text.Join(texts, '|')
  }

  lemma SplitJoined(texts: seq<string>, double: bool)
    requires texts != [] && forall i :: 0 <= i < |texts| ==> texts[i] != "" && '|' !in texts[i]
    ensures SplitOr(Joined(texts, double)) == texts
  {
    SplitJoinedBars(texts);
    SingleBars(texts);
    Text.SplitJoin(texts, '|');
    hide SplitBars, Text.Split, HasBars;
    if |texts| == 1 { assert texts == [texts[0]]; }
  }

  lemma GroupsStep(texts: seq<string>)
    requires texts != [] && NoLines(texts[|texts| - 1])
    ensures var n := |texts| - 1;
            Groups(texts) == match (Groups(texts[..n]), Group(texts[n]))
                             case (Some(before), Some(group)) => Some(before + [group])
                             case _ => None
  {
    TrimmedGroup(texts[|texts| - 1]);
    hide Trim, Group;
  }

  /** Every alternative has conditions, and all of them can be read. */
  predicate AllReadable(parts: seq<seq<Item>>) { forall i :: 0 <= i < |parts| ==> parts[i] != [] && Readable(parts[i]) }

  predicate OneAdmits(parts: seq<seq<Item>>, x: Version)
    requires AllReadable(parts)
  {
    exists i :: 0 <= i < |parts| && Admits(parts[i], x)
  }

  ghost predicate AllWritten(parts: seq<seq<Item>>, texts: seq<string>) {
    |parts| == |texts| && forall i :: 0 <= i < |parts| ==> IsWritten(parts[i], texts[i])
  }

  lemma WrittenText(items: seq<Item>, text: string)
    requires IsWritten(items, text)
    ensures NoLines(text) && '|' !in text && (items != [] ==> text != "")
  {
    var gaps :| |gaps| == |AllWords(items)| + 1 && GapsFit(gaps) && text == Spaced(AllWords(items), gaps);
    AllAreWords(items);
    SpacedHasNoLines(AllWords(items), gaps);
    if items != [] { assert ItemWords(items[0]) != []; }
  }

  lemma OneStep(parts: seq<seq<Item>>, x: Version)
    requires parts != []
    ensures var n := |parts| - 1;
            && (AllReadable(parts) <==> AllReadable(parts[..n]) && parts[n] != [] && Readable(parts[n]))
            && (AllReadable(parts) ==> (OneAdmits(parts, x) <==> OneAdmits(parts[..n], x) || Admits(parts[n], x)))
  {
    hide Readable, Admits;
    var n := |parts| - 1;
    forall i | 0 <= i < n ensures parts[..n][i] == parts[i] {}
    if AllReadable(parts[..n]) && parts[n] != [] && Readable(parts[n]) {
      forall i | 0 <= i < |parts| ensures parts[i] != [] && Readable(parts[i]) {
        if i < n { assert parts[..n][i] == parts[i]; }
      }
    }
    if AllReadable(parts) {
      assert AllReadable(parts[..n]);
      if i :| 0 <= i < |parts| && Admits(parts[i], x) { assert i < n ==> Admits(parts[..n][i], x); }
      if i :| 0 <= i < n && Admits(parts[..n][i], x) { assert Admits(parts[i], x); }
    }
  }

  lemma MatchesStep(before: Constraint, group: seq<Simple>, x: Version)
    ensures Matches(before + [group], x) <==> Matches(before, x) || MatchesGroup(group, x)
    ensures !Matches([], x)
  {
    hide MatchesGroup;
    assert (before + [group])[|before|] == group;
    if g :| g in before && MatchesGroup(g, x) { assert g in before + [group]; }
  }

  lemma {:induction false} GroupsMean(parts: seq<seq<Item>>, texts: seq<string>, x: Version)
    requires AllWritten(parts, texts)
    ensures Groups(texts).Some? <==> AllReadable(parts)
    ensures AllReadable(parts) ==> (Matches(Groups(texts).value, x) <==> OneAdmits(parts, x))
    decreases |parts|
  {
    hide *;
    WrittenStep(parts, texts);
    if parts == [] {
      NoParts(x);
    } else {
      var n := |parts| - 1;
      GroupsMean(parts[..n], texts[..n], x);
      WrittenText(parts[n], texts[n]);
      GroupsStep(texts);
      GroupMeans(parts[n], texts[n], x);
      OneStep(parts, x);
      if AllReadable(parts) { MatchesStep(Groups(texts[..n]).value, Group(texts[n]).value, x); }
    }
  }

  lemma WrittenStep(parts: seq<seq<Item>>, texts: seq<string>)
    requires AllWritten(parts, texts)
    ensures |parts| == |texts|
    ensures parts != [] ==> var n := |parts| - 1; AllWritten(parts[..n], texts[..n]) && IsWritten(parts[n], texts[n])
  {
    hide IsWritten;
  }

  lemma NoParts(x: Version)
    ensures Groups([]) == Some([]) && AllReadable([]) && !OneAdmits([], x) && !Matches([], x)
  {
  }

  /** A constraint is read when every condition of every alternative is, and admits what all conditions of one
      alternative admit; the alternatives may stand between double bars or between single ones. */
  lemma TextMeans(parts: seq<seq<Item>>, texts: seq<string>, double: bool, x: Version)
    requires parts != [] && AllWritten(parts, texts) && forall i :: 0 <= i < |texts| ==> texts[i] != ""
    ensures ParseText(Joined(texts, double)).Some? <==> AllReadable(parts)
    ensures AllReadable(parts) ==> (Matches(ParseText(Joined(texts, double)).value, x) <==> OneAdmits(parts, x))
  {
    hide *;
    forall i | 0 <= i < |texts| ensures '|' !in texts[i] {
      WrittenAt(parts, texts, i);
      WrittenText(parts[i], texts[i]);
    }
    WrittenStep(parts, texts);
    SplitJoined(texts, double);
    GroupsMean(parts, texts, x);
    TextIs(Joined(texts, double));
  }

  lemma WrittenAt(parts: seq<seq<Item>>, texts: seq<string>, i: nat)
    requires AllWritten(parts, texts) && i < |texts|
    ensures |parts| == |texts| && IsWritten(parts[i], texts[i])
  {
    hide IsWritten;
  }

  lemma TextIs(s: string)
    ensures ParseText(s) == Groups(SplitOr(s))
  {
    hide Groups, SplitOr;
  }
}
