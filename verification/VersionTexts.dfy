/** Which texts are versions (version.rs), character by character, and how two versions compare, part by
    part. */
module VersionTexts {
  import opened Common
  import opened Versions
  import Text

  // ----- the order ----------------------------------------------------------------------------------------

  /** The first part that differs decides. */
  lemma PartsDecide(v: Version, w: Version, k: nat)
    requires k < 4 && v.parts[k] != w.parts[k] && forall j :: 0 <= j < k ==> v.parts[j] == w.parts[j]
    ensures Compare(v, w) == if v.parts[k] < w.parts[k] then Less else Greater
  {
    LexFirst(v.parts, w.parts, k);
  }

  lemma {:induction false} LexFirst(p: seq<int>, q: seq<int>, k: nat)
    requires k < |p| && k < |q| && p[k] != q[k] && forall j :: 0 <= j < k ==> p[j] == q[j]
    ensures LexCompare(p, q) == if p[k] < q[k] then Less else Greater
  {
    if k > 0 { LexFirst(p[1..], q[1..], k - 1); }
  }

  /** With equal parts development versions come first, then alpha, beta and release candidates, the
      stable version and patches. */
  lemma StabilitiesDecide(p: Parts, m: nat, n: nat)
    ensures Compare(Version(p, Dev, m), Version(p, Alpha, n)) == Less
    ensures Compare(Version(p, Alpha, m), Version(p, Beta, n)) == Less
    ensures Compare(Version(p, Beta, m), Version(p, Rc, n)) == Less
    ensures Compare(Version(p, Rc, m), Version(p, Stable, n)) == Less
    ensures Compare(Version(p, Stable, m), Version(p, Patch, n)) == Less
  {
    LexEqual(p, p);
  }

  /** And then the number behind the stability. */
  lemma NumbersDecide(p: Parts, s: Stability, m: nat, n: nat)
    ensures m < n ==> Compare(Version(p, s, m), Version(p, s, n)) == Less
    ensures m == n ==> Compare(Version(p, s, m), Version(p, s, n)) == Equal
  {
    LexEqual(p, p);
  }

  // ----- the parts of a text ---------------------------------------------------------------------------------

  predicate Digit(c: char) { 48 <= c as int <= 57 }

  predicate Blank(c: char) { c as int == 32 || c as int == 9 || c as int == 10 || c as int == 13 }

  /** A hyphen, a dot or an underscore. */
  predicate Mark(c: char) { c as int == 45 || c as int == 46 || c as int == 95 }

  predicate Digits(s: string) { forall k :: 0 <= k < |s| ==> Digit(s[k]) }

  predicate Blanks(s: string) { forall k :: 0 <= k < |s| ==> Blank(s[k]) }

  predicate Marks(s: string) { forall k :: 0 <= k < |s| ==> Mark(s[k]) }

  /** The number digits denote, read from the left. */
  function Read(s: string, before: nat): nat
    requires Digits(s)
  {
    if s == "" then before else Read(s[1..], 10 * before + (s[0] as int - 48))
  }

  /** The same letters, capital or small. */
  predicate Spells(s: string, word: string) {
    |s| == |word| && forall k :: 0 <= k < |s| ==> s[k] == word[k] || (65 <= s[k] as int <= 90 && s[k] as int + 32 == word[k] as int)
  }

  predicate SpellsStability(s: string, st: Stability) {
    match st
    case Dev => Spells(s, "dev")
    case Alpha => Spells(s, "alpha") || Spells(s, "a")
    case Beta => Spells(s, "beta") || Spells(s, "b")
    case Rc => Spells(s, "rc")
    case Stable => Spells(s, "stable") || s == ""
    case Patch => Spells(s, "patch") || Spells(s, "pl") || Spells(s, "p")
  }

  /** A suffix: marks, a word for the stability, perhaps more marks, perhaps a number. */
  datatype Suffix = Suffix(marks: string, word: string, more: string, digits: string)

  predicate SuffixFits(f: Suffix, st: Stability, pre: nat) {
    && Marks(f.marks) && Marks(f.more) && Digits(f.digits) && SpellsStability(f.word, st) && pre == Read(f.digits, 0)
    && (f.marks != "" ==> f.marks[0] != '.')
    && (f.word == "" ==> f.more == "" && (f.marks == "" ==> f.digits == ""))
  }

  function SuffixText(f: Suffix): string { f.marks + (f.word + (f.more + f.digits)) }

  /** One to four numbers. */
  predicate Numbers(pieces: seq<string>, parts: Parts) {
    && 1 <= |pieces| <= 4 && (forall k :: 0 <= k < |pieces| ==> pieces[k] != "" && Digits(pieces[k]))
    && forall k :: 0 <= k < 4 ==> parts[k] == if k < |pieces| then Read(pieces[k], 0) else 0
  }

  /** A text that is a version: blanks around, perhaps a `v`, numbers with dots between, a suffix. */
  ghost predicate IsText(s: string, v: Version) {
    exists left, lead, pieces, f, right ::
      && Blanks(left) && Blanks(right) && (lead == "" || lead == "v" || lead == "V")
      && Numbers(pieces, v.parts) && SuffixFits(f, v.stability, v.pre)
      && s == left + (lead + (Text.Join(pieces, '.') + SuffixText(f)) + right)
  }

  lemma SameCharacters(c: char)
    ensures Digit(c) <==> IsDigit(c)
    ensures Blank(c) <==> IsBlank(c)
    ensures Mark(c) <==> IsMark(c)
  {
  }

  // ----- numbers ------------------------------------------------------------------------------------------------

  lemma {:induction false} ReadBoth(s: string, t: string, before: nat)
    requires Digits(s) && Digits(t)
    ensures Digits(s + t) && Read(s + t, before) == Read(t, Read(s, before))
    decreases |s|
  {
    if s == "" {
      assert s + t == t;
    } else {
      assert (s + t)[1..] == s[1..] + t;
      ReadBoth(s[1..], t, 10 * before + (s[0] as int - 48));
    }
  }

  /** Digits, and nothing else, are numbers. */
  lemma {:induction false} NumberIff(s: string)
    ensures Number(s).Some? <==> s != "" && Digits(s)
    ensures Number(s).Some? ==> Number(s).value == Read(s, 0)
    decreases |s|
  {
    if s != "" {
      var n := |s| - 1;
      SameCharacters(s[n]);
      NumberIff(s[..n]);
      assert s == s[..n] + [s[n]];
      if Digits(s) {
        ReadBoth(s[..n], [s[n]], 0);
        assert [s[n]][1..] == "";
        if n == 0 { assert s[..n] == ""; }
      }
    }
  }

  lemma {:induction false} PiecesIff(pieces: seq<string>)
    ensures ParsePieces(pieces).Some? <==> forall k :: 0 <= k < |pieces| ==> pieces[k] != "" && Digits(pieces[k])
    ensures ParsePieces(pieces).Some? ==>
              |ParsePieces(pieces).value| == |pieces| && forall k :: 0 <= k < |pieces| ==> ParsePieces(pieces).value[k] == Read(pieces[k], 0)
  {
    if pieces != [] {
      PiecesIff(pieces[1..]);
      NumberIff(pieces[0]);
      hide Number, Digits, Read;
      if ParsePieces(pieces[1..]).Some? {
        forall k | 0 <= k < |pieces| ensures k > 0 ==> pieces[k] != "" && Digits(pieces[k]) {
          if k > 0 { assert pieces[1..][k - 1] == pieces[k]; }
        }
      }
    }
  }

  // ----- suffixes -------------------------------------------------------------------------------------------------

  predicate NoCapitals(s: string) { forall k :: 0 <= k < |s| ==> !(65 <= s[k] as int <= 90) }

  lemma LoweredIs(s: string, word: string)
    requires NoCapitals(word)
    ensures Text.ToLower(s) == word <==> Spells(s, word)
  {
    var lower := Text.ToLower(s);
    forall k | 0 <= k < |s| ensures lower[k] == if 65 <= s[k] as int <= 90 then (s[k] as int + 32) as char else s[k] {}
  }

  lemma LoweredBoth(s: string, t: string)
    ensures Text.ToLower(s + t) == Text.ToLower(s) + Text.ToLower(t)
    ensures |Text.ToLower(s)| == |s| && NoCapitals(Text.ToLower(s))
  {
  }

  lemma LoweredPlain(s: string)
    requires NoCapitals(s)
    ensures Text.ToLower(s) == s
  {
  }

  lemma {:induction false} SkipMarksBoth(marks: string, s: string)
    requires Marks(marks) && (s != "" ==> !Mark(s[0]))
    ensures SkipMarks(marks + s) == s
  {
    if marks == "" {
      assert marks + s == s;
      if s != "" { SameCharacters(s[0]); }
    } else {
      SameCharacters(marks[0]);
      assert (marks + s)[1..] == marks[1..] + s;
      SkipMarksBoth(marks[1..], s);
    }
  }

  lemma {:induction false} SkippedMarks(s: string) returns (marks: string)
    ensures Marks(marks) && s == marks + SkipMarks(s) && (SkipMarks(s) != "" ==> !Mark(SkipMarks(s)[0]))
  {
    if s == "" || !IsMark(s[0]) {
      marks := "";
      if s != "" { SameCharacters(s[0]); }
    } else {
      SameCharacters(s[0]);
      marks := SkippedMarks(s[1..]);
      marks := [s[0]] + marks;
    }
  }

  lemma {:induction false} DropMarksBoth(s: string, marks: string)
    requires Marks(marks) && (s != "" ==> !Mark(s[|s| - 1])) && (s == "" ==> marks == "")
    ensures DropMarks(s + marks) == s
    decreases |marks|
  {
    if marks == "" {
      assert s + marks == s;
      if s != "" { SameCharacters(s[|s| - 1]); }
    } else {
      var n := |marks| - 1;
      SameCharacters(marks[n]);
      assert (s + marks)[..|s + marks| - 1] == s + marks[..n];
      DropMarksBoth(s, marks[..n]);
    }
  }

  lemma {:induction false} DroppedMarks(s: string) returns (marks: string)
    ensures Marks(marks) && s == DropMarks(s) + marks
    decreases |s|
  {
    if s == "" || !IsMark(s[|s| - 1]) {
      marks := "";
    } else {
      var n := |s| - 1;
      SameCharacters(s[n]);
      marks := DroppedMarks(s[..n]);
      assert s == s[..n] + [s[n]];
      marks := marks + [s[n]];
    }
  }

  predicate NoDigits(s: string) { forall k :: 0 <= k < |s| ==> !Digit(s[k]) }

  lemma {:induction false} LettersBoth(s: string, digits: string)
    requires NoDigits(s) && Digits(digits)
    ensures Letters(s + digits) == s
  {
    if s == "" {
      assert s + digits == digits;
      if digits != "" { SameCharacters(digits[0]); }
    } else {
      SameCharacters(s[0]);
      assert (s + digits)[1..] == s[1..] + digits;
      LettersBoth(s[1..], digits);
    }
  }

  lemma {:induction false} LettersHasNone(s: string)
    ensures NoDigits(Letters(s))
  {
    if s != "" && !IsDigit(s[0]) {
      SameCharacters(s[0]);
      LettersHasNone(s[1..]);
    }
  }

  /** The words of the table. */
  lemma TableWord(w: string, st: Stability)
    requires WordStability(w) == Some(st)
    ensures NoDigits(w) && NoCapitals(w) && (w != "" ==> !Mark(w[0]) && !Mark(w[|w| - 1]))
    ensures forall s :: Spells(s, w) ==> SpellsStability(s, st)
  {
    TableLetters(w, st);
    TableSpells(w, st);
    hide WordStability, Spells, SpellsStability;
  }

  lemma TableLetters(w: string, st: Stability)
    requires WordStability(w) == Some(st)
    ensures forall k :: 0 <= k < |w| ==> 97 <= w[k] as int <= 122
  {
  }

  lemma TableSpells(w: string, st: Stability)
    requires WordStability(w) == Some(st)
    ensures forall s :: Spells(s, w) ==> SpellsStability(s, st)
  {
    forall s | Spells(s, w) ensures SpellsStability(s, st) { assert w == "" ==> s == ""; }
    hide Spells;
  }

  /** What spells a stability is read as it. */
  lemma SpelledWord(s: string, st: Stability)
    requires SpellsStability(s, st)
    ensures WordStability(Text.ToLower(s)) == Some(st)
  {
    hide Text.ToLower, Spells;
    match st
    case Dev => LoweredIs(s, "dev");
    case Alpha => LoweredIs(s, "alpha"); LoweredIs(s, "a");
    case Beta => LoweredIs(s, "beta"); LoweredIs(s, "b");
    case Rc => LoweredIs(s, "rc");
    case Stable => LoweredIs(s, "stable"); EmptySpells(s);
    case Patch => LoweredIs(s, "patch"); LoweredIs(s, "pl"); LoweredIs(s, "p");
  }

  lemma EmptySpells(s: string)
    ensures s == "" ==> Text.ToLower(s) == ""
  {
  }

  lemma LowerMark(s: string, k: nat)
    requires k < |s|
    ensures Mark(s[k]) <==> Mark(Text.ToLower(s)[k])
    ensures Digit(s[k]) <==> Digit(Text.ToLower(s)[k])
    ensures !(65 <= s[k] as int <= 90) ==> Text.ToLower(s)[k] == s[k]
  {
  }

  /** A suffix behind its marks. */
  lemma CoreParses(f: Suffix, st: Stability, pre: nat)
    requires SuffixFits(f, st, pre)
    ensures ParseStability(f.word + (f.more + f.digits)) == Some((st, pre))
    ensures var core := f.word + (f.more + f.digits); core != "" ==> !Mark(core[0])
  {
    var core := f.word + (f.more + f.digits);
    var w, tail := Text.ToLower(f.word), f.more + f.digits;
    SpelledWord(f.word, st);
    TableWord(w, st);
    assert |w| == |f.word|;
    if f.word != "" {
      LowerMark(f.word, 0);
      assert core[0] == f.word[0];
    }
    if core == "" {
      assert f.word == "" && f.digits == "";
      EmptySpells(f.word);
    } else {
      CoreLower(f, w);
      DigitsValue(f.digits);
    }
  }

  lemma DigitsValue(digits: string)
    requires Digits(digits)
    ensures digits != "" ==> Number(digits) == Some(Read(digits, 0))
    ensures digits == "" ==> Read(digits, 0) == 0
  {
    NumberIff(digits);
  }

  lemma CoreLower(f: Suffix, w: string)
    requires Marks(f.more) && Digits(f.digits) && w == Text.ToLower(f.word) && NoDigits(w)
    requires (w != "" ==> !Mark(w[|w| - 1])) && (w == "" ==> f.more == "")
    ensures var lower := Text.ToLower(f.word + (f.more + f.digits));
            && lower == w + f.more + f.digits && Letters(lower) == w + f.more && lower[|w + f.more|..] == f.digits
            && DropMarks(w + f.more) == w
  {
    assert NoCapitals(f.more + f.digits) && NoDigits(w + f.more);
    assert w + f.more + f.digits == w + (f.more + f.digits);
    hide *;
    LoweredBoth(f.word, f.more + f.digits);
    LoweredPlain(f.more + f.digits);
    LettersBoth(w + f.more, f.digits);
    DropMarksBoth(w, f.more);
  }

  /** Every suffix is read as its stability and its number ... */
  lemma SuffixParses(f: Suffix, st: Stability, pre: nat)
    requires SuffixFits(f, st, pre)
    ensures ParseStability(SkipMarks(SuffixText(f))) == Some((st, pre))
  {
    CoreParses(f, st, pre);
    SkipMarksBoth(f.marks, f.word + (f.more + f.digits));
  }

  /** ... and nothing else is. */
  lemma SuffixOf(r: string) returns (f: Suffix)
    requires ParseStability(SkipMarks(r)).Some? && (r != "" ==> !Digit(r[0]) && r[0] != '.')
    ensures r == SuffixText(f) && SuffixFits(f, ParseStability(SkipMarks(r)).value.0, ParseStability(SkipMarks(r)).value.1)
  {
    var marks := SkippedMarks(r);
    var core := SkipMarks(r);
    if core == "" {
      f := Suffix(marks, "", "", "");
      assert marks == r && SuffixText(f) == marks;
    } else {
      f := CoreOf(marks, core);
    }
  }

  lemma CoreOf(marks: string, core: string) returns (f: Suffix)
    requires core != "" && !Mark(core[0]) && ParseStability(core).Some? && Marks(marks)
    ensures f.marks == marks && core == f.word + (f.more + f.digits)
    ensures Marks(f.more) && Digits(f.digits) && SpellsStability(f.word, ParseStability(core).value.0)
    ensures ParseStability(core).value.1 == Read(f.digits, 0) && (f.word == "" ==> f.more == "" && Digit(core[0]))
  {
    hide *;
    var lower := Text.ToLower(core);
    var letters := Letters(lower);
    var w := DropMarks(letters);
    var n, m := |letters|, |w|;
    LoweredBoth(core, "");
    WordOfCore(core);
    WordPart(core, ParseStability(core).value.0);
    MarksPart(core);
    NumberIff(lower[n..]);
    EmptyDigits(lower[n..]);
    SameTail(core, lower, n);
    f := Suffix(marks, core[..m], core[m..n], core[n..]);
    assert core == core[..m] + (core[m..n] + core[n..]);
    FirstDigit(core[n..]);
    if m == 0 { assert core[n..] == core && core[m..n] == ""; }
  }

  lemma FirstDigit(s: string)
    ensures Digits(s) && s != "" ==> Digit(s[0])
  {
  }

  lemma EmptyDigits(s: string)
    ensures s == "" ==> Digits(s) && Read(s, 0) == 0
  {
  }

  /** The word a suffix begins with. */
  lemma WordPart(core: string, st: Stability)
    requires WordStability(DropMarks(Letters(Text.ToLower(core)))) == Some(st)
    ensures var m := |DropMarks(Letters(Text.ToLower(core)))|; m <= |core| && SpellsStability(core[..m], st)
  {
    var lower := Text.ToLower(core);
    var letters := Letters(lower);
    var w := DropMarks(letters);
    var dropped := DroppedMarks(letters);
    hide DropMarks, WordStability, Letters, SpellsStability;
    LowerPrefix(core, |w|);
    assert letters[..|w|] == w && lower[..|w|] == letters[..|w|];
    TableWord(w, st);
    LoweredIs(core[..|w|], w);
  }

  /** The marks behind it. */
  lemma MarksPart(core: string)
    requires core != "" && !Mark(core[0])
    ensures var letters := Letters(Text.ToLower(core));
            var n, m := |letters|, |DropMarks(letters)|;
            m <= n <= |core| && Marks(core[m..n]) && (m == 0 ==> n == 0)
  {
    var lower := Text.ToLower(core);
    var letters := Letters(lower);
    var w := DropMarks(letters);
    var dropped := DroppedMarks(letters);
    var n, m := |letters|, |w|;
    hide DropMarks, Letters, Text.ToLower;
    LoweredBoth(core, "");
    assert letters == w + dropped && core + "" == core;
    forall k | m <= k < n ensures Mark(core[k]) {
      assert letters[k] == dropped[k - m] && lower[k] == letters[k];
      LowerMark(core, k);
    }
  }

  lemma LowerPrefix(core: string, m: nat)
    requires m <= |core|
    ensures Text.ToLower(core[..m]) == Text.ToLower(core)[..m]
  {
  }

  lemma WordOfCore(core: string)
    requires core != "" && ParseStability(core).Some?
    ensures var lower := Text.ToLower(core);
            var n := |Letters(lower)|;
            var (st, pre) := ParseStability(core).value;
            && WordStability(DropMarks(Letters(lower))) == Some(st)
            && (lower[n..] == "" ==> pre == 0) && (lower[n..] != "" ==> Number(lower[n..]) == Some(pre))
  {
    hide WordStability, DropMarks, Letters, Number, Text.ToLower;
  }

  lemma SameTail(core: string, lower: string, n: nat)
    requires lower == Text.ToLower(core) && n <= |core| && Digits(lower[n..])
    ensures core[n..] == lower[n..]
  {
    forall k | n <= k < |core| ensures core[k] == lower[k] {
      assert lower[n..][k - n] == lower[k];
      LowerMark(core, k);
    }
  }

  // ----- whole texts -----------------------------------------------------------------------------------------------

  lemma {:induction false} TrimStartBoth(left: string, s: string)
    requires Blanks(left) && (s != "" ==> !Blank(s[0]))
    ensures TrimStart(left + s) == s
  {
    if left == "" {
      assert left + s == s;
      if s != "" { SameCharacters(s[0]); }
    } else {
      SameCharacters(left[0]);
      assert (left + s)[1..] == left[1..] + s;
      TrimStartBoth(left[1..], s);
    }
  }

  lemma {:induction false} TrimEndBoth(s: string, right: string)
    requires Blanks(right) && (s != "" ==> !Blank(s[|s| - 1]))
    ensures TrimEnd(s + right) == s
    decreases |right|
  {
    if right == "" {
      assert s + right == s;
      if s != "" { SameCharacters(s[|s| - 1]); }
    } else {
      var n := |right| - 1;
      SameCharacters(right[n]);
      assert (s + right)[..|s + right| - 1] == s + right[..n];
      TrimEndBoth(s, right[..n]);
    }
  }

  lemma {:induction false} TrimmedStart(s: string) returns (left: string)
    ensures Blanks(left) && s == left + TrimStart(s)
  {
    if s == "" || !IsBlank(s[0]) {
      left := "";
    } else {
      SameCharacters(s[0]);
      left := TrimmedStart(s[1..]);
      left := [s[0]] + left;
    }
  }

  lemma {:induction false} TrimmedEnd(s: string) returns (right: string)
    ensures Blanks(right) && s == TrimEnd(s) + right
    decreases |s|
  {
    if s == "" || !IsBlank(s[|s| - 1]) {
      right := "";
    } else {
      var n := |s| - 1;
      SameCharacters(s[n]);
      right := TrimmedEnd(s[..n]);
      assert s == s[..n] + [s[n]];
      right := right + [s[n]];
    }
  }

  predicate DigitsAndDots(s: string) { forall k :: 0 <= k < |s| ==> Digit(s[k]) || s[k] == '.' }

  lemma {:induction false} NumericBoth(num: string, rest: string)
    requires DigitsAndDots(num) && (rest != "" ==> !Digit(rest[0]) && rest[0] != '.')
    ensures Numeric(num + rest) == num
  {
    if num == "" {
      assert num + rest == rest;
      if rest != "" { SameCharacters(rest[0]); }
    } else {
      SameCharacters(num[0]);
      assert (num + rest)[1..] == num[1..] + rest;
      NumericBoth(num[1..], rest);
    }
  }

  lemma {:induction false} JoinedNumbers(pieces: seq<string>)
    requires forall k :: 0 <= k < |pieces| ==> pieces[k] != "" && Digits(pieces[k])
    ensures DigitsAndDots(Text.Join(pieces, '.'))
    ensures pieces != [] ==> Text.Join(pieces, '.') != "" && Digit(Text.Join(pieces, '.')[0])
  {
    if |pieces| > 1 { JoinedNumbers(pieces[1..]); }
  }

  lemma SuffixEnds(f: Suffix, st: Stability, pre: nat)
    requires SuffixFits(f, st, pre)
    ensures var r := SuffixText(f); r != "" ==> !Digit(r[0]) && r[0] != '.' && !Blank(r[|r| - 1])
  {
    var r := SuffixText(f);
    if r != "" {
      SpelledWord(f.word, st);
      TableWord(Text.ToLower(f.word), st);
      forall k | 0 <= k < |f.word| ensures !Digit(f.word[k]) && !Blank(f.word[k]) {
        LowerMark(f.word, k);
        assert !Blank(f.word[k]) by { TableLetters(Text.ToLower(f.word), st); }
      }
      if f.word != "" { LowerMark(f.word, 0); }
    }
  }

  /** The text without the blanks around it. */
  lemma BodyParses(lead: string, pieces: seq<string>, f: Suffix, v: Version)
    requires lead == "" || lead == "v" || lead == "V"
    requires Numbers(pieces, v.parts) && SuffixFits(f, v.stability, v.pre)
    ensures var body := lead + (Text.Join(pieces, '.') + SuffixText(f));
            && body != "" && !Blank(body[0]) && !Blank(body[|body| - 1])
            && (Trim(body) == body ==> Parse(body) == Some(v))
  {
    hide *;
    var num, rest := Text.Join(pieces, '.'), SuffixText(f);
    var body := lead + (num + rest);
    NumbersMean(pieces, v.parts);
    JoinedNumbers(pieces);
    SuffixEnds(f, v.stability, v.pre);
    BodyEdges(lead, num, rest);
    StripsTo(lead, num, rest);
    NumericBoth(num, rest);
    assert (num + rest)[|num|..] == rest;
    SplitPieces(pieces);
    SuffixParses(f, v.stability, v.pre);
    PiecesIff(pieces);
    if Trim(body) == body {
      PartsOf(pieces, v.parts);
      ParsesAs(body, num + rest, num, pieces, v);
    }
  }

  lemma NumbersMean(pieces: seq<string>, parts: Parts)
    requires Numbers(pieces, parts)
    ensures 1 <= |pieces| <= 4 && forall k :: 0 <= k < |pieces| ==> pieces[k] != "" && Digits(pieces[k])
  {
  }

  lemma StripsTo(lead: string, num: string, rest: string)
    requires (lead == "" || lead == "v" || lead == "V") && num != "" && Digit(num[0])
    ensures StripV(lead + (num + rest)) == num + rest
  {
    var body := lead + (num + rest);
    assert body[|lead|..] == num + rest;
    assert lead == "" ==> body[0] == num[0];
  }

  lemma ParsesAs(s: string, u: string, num: string, pieces: seq<string>, v: Version)
    requires Trim(s) == s && StripV(s) == u && Numeric(u) == num && Text.Split(num, '.') == pieces && |num| <= |u|
    requires ParseStability(SkipMarks(u[|num|..])) == Some((v.stability, v.pre))
    requires ParsePieces(pieces).Some? && |ParsePieces(pieces).value| <= 4
    requires var ns := ParsePieces(pieces).value; v.parts == seq(4, i requires 0 <= i < 4 => if i < |ns| then ns[i] else 0)
    ensures Parse(s) == Some(v)
  {
    hide Trim, StripV, Numeric, Text.Split, ParseStability, SkipMarks, ParsePieces;
  }

  lemma BodyEdges(lead: string, num: string, rest: string)
    requires (lead == "" || lead == "v" || lead == "V") && num != "" && Digit(num[0]) && DigitsAndDots(num)
    requires rest != "" ==> !Blank(rest[|rest| - 1])
    ensures var body := lead + (num + rest); body != "" && !Blank(body[0]) && !Blank(body[|body| - 1])
  {
    var body := lead + (num + rest);
    assert body[|body| - 1] == if rest == "" then num[|num| - 1] else rest[|rest| - 1];
    assert body[0] == if lead == "" then num[0] else lead[0];
  }

  lemma SplitPieces(pieces: seq<string>)
    requires pieces != [] && forall k :: 0 <= k < |pieces| ==> pieces[k] != "" && Digits(pieces[k])
    ensures Text.Split(Text.Join(pieces, '.'), '.') == pieces
  {
    forall k | 0 <= k < |pieces| ensures '.' !in pieces[k] {
      assert forall i :: 0 <= i < |pieces[k]| ==> Digit(pieces[k][i]);
    }
    Text.SplitJoin(pieces, '.');
  }

  lemma PartsOf(pieces: seq<string>, parts: Parts)
    requires Numbers(pieces, parts) && ParsePieces(pieces).Some?
    requires |ParsePieces(pieces).value| == |pieces| && forall k :: 0 <= k < |pieces| ==> ParsePieces(pieces).value[k] == Read(pieces[k], 0)
    ensures var ns := ParsePieces(pieces).value; parts == seq(4, i requires 0 <= i < 4 => if i < |ns| then ns[i] else 0)
  {
    hide ParsePieces, Read;
    var ns := ParsePieces(pieces).value;
    var read := seq(4, i requires 0 <= i < 4 => if i < |ns| then ns[i] else 0);
    forall k | 0 <= k < 4 ensures parts[k] == read[k] {}
  }

  /** A text is read as a version exactly when it has that form. */
  lemma ParseIff(s: string, v: Version)
    ensures Parse(s) == Some(v) <==> IsText(s, v)
  {
    if IsText(s, v) {
      var left, lead, pieces, f, right :|
        && Blanks(left) && Blanks(right) && (lead == "" || lead == "v" || lead == "V")
        && Numbers(pieces, v.parts) && SuffixFits(f, v.stability, v.pre)
        && s == left + (lead + (Text.Join(pieces, '.') + SuffixText(f)) + right);
      TextParses(left, lead, pieces, f, right, v);
    }
    if Parse(s) == Some(v) {
      ParsedText(s, v);
    }
  }

  lemma TextParses(left: string, lead: string, pieces: seq<string>, f: Suffix, right: string, v: Version)
    requires Blanks(left) && Blanks(right) && (lead == "" || lead == "v" || lead == "V")
    requires Numbers(pieces, v.parts) && SuffixFits(f, v.stability, v.pre)
    ensures Parse(left + (lead + (Text.Join(pieces, '.') + SuffixText(f)) + right)) == Some(v)
  {
    var body := lead + (Text.Join(pieces, '.') + SuffixText(f));
    hide *;
    BodyParses(lead, pieces, f, v);
    TrimsTo(left, body, right);
    SameParse(left + (body + right), body);
  }

  lemma TrimsTo(left: string, body: string, right: string)
    requires Blanks(left) && Blanks(right) && body != "" && !Blank(body[0]) && !Blank(body[|body| - 1])
    ensures Trim(left + (body + right)) == body && Trim(body) == body
  {
    assert (body + right)[0] == body[0];
    TrimStartBoth(left, body + right);
    TrimEndBoth(body, right);
    TrimStartBoth("", body);
    TrimEndBoth(body, "");
    assert "" + body == body && body + "" == body;
  }

  lemma SameParse(s: string, t: string)
    requires Trim(s) == Trim(t)
    ensures Parse(s) == Parse(t)
  {
  }

  lemma ParsedText(s: string, v: Version)
    requires Parse(s) == Some(v)
    ensures IsText(s, v)
  {
    var left := TrimmedStart(s);
    var right := TrimmedEnd(TrimStart(s));
    hide *;
    ParseMeans(s, v);
    var t, u := Trim(s), StripV(Trim(s));
    var num := Numeric(u);
    var pieces := Text.Split(num, '.');
    var lead := StrippedLead(t);
    Text.JoinSplit(num, '.');
    NumericEnds(u);
    var f := SuffixOf(u[|num|..]);
    PiecesIff(pieces);
    ReadNumbers(pieces, v.parts);
    assert u == num + u[|num|..];
    TextIs(s, left, lead, pieces, f, right, v);
  }

  lemma StrippedLead(t: string) returns (lead: string)
    ensures (lead == "" || lead == "v" || lead == "V") && t == lead + StripV(t)
  {
    lead := t[..|t| - |StripV(t)|];
  }

  lemma NumericEnds(u: string)
    ensures |Numeric(u)| < |u| ==> !Digit(u[|Numeric(u)|]) && u[|Numeric(u)|] != '.'
  {
    if |Numeric(u)| < |u| { SameCharacters(u[|Numeric(u)|]); }
  }

  lemma ReadNumbers(pieces: seq<string>, parts: Parts)
    requires 1 <= |pieces| <= 4 && forall k :: 0 <= k < |pieces| ==> pieces[k] != "" && Digits(pieces[k])
    requires ParsePieces(pieces).Some? && |ParsePieces(pieces).value| == |pieces|
    requires forall k :: 0 <= k < |pieces| ==> ParsePieces(pieces).value[k] == Read(pieces[k], 0)
    requires forall k :: 0 <= k < 4 ==> parts[k] == if k < |pieces| then ParsePieces(pieces).value[k] else 0
    ensures Numbers(pieces, parts)
  {
    hide ParsePieces, Read, Digits;
  }

  lemma TextIs(s: string, left: string, lead: string, pieces: seq<string>, f: Suffix, right: string, v: Version)
    requires Blanks(left) && Blanks(right) && (lead == "" || lead == "v" || lead == "V")
    requires Numbers(pieces, v.parts) && SuffixFits(f, v.stability, v.pre)
    requires s == left + (lead + (Text.Join(pieces, '.') + SuffixText(f)) + right)
    ensures IsText(s, v)
  {
    hide Numbers, SuffixFits, SuffixText, Blanks, Text.Join;
  }

  lemma ParseMeans(s: string, v: Version)
    requires Parse(s) == Some(v)
    ensures var u := StripV(Trim(s));
            var num := Numeric(u);
            var pieces := Text.Split(num, '.');
            && ParseStability(SkipMarks(u[|num|..])) == Some((v.stability, v.pre))
            && ParsePieces(pieces).Some? && |ParsePieces(pieces).value| <= 4
            && forall k :: 0 <= k < 4 ==> v.parts[k] == if k < |ParsePieces(pieces).value| then ParsePieces(pieces).value[k] else 0
    ensures Trim(s) == TrimEnd(TrimStart(s))
  {
    hide Numeric, Text.Split, ParseStability, SkipMarks, ParsePieces, TrimStart, TrimEnd;
  }
}
