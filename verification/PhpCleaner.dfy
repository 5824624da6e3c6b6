/** Blanking of PHP sources before class detection (classmap.rs, `clean` without its early
    exit): strings and heredocs become `null`, comments disappear. A `char` stands for a byte. */
module PhpCleaner {
  import opened Common

  predicate IsNewline(c: char) { c == '\n' || c == '\r' }

  predicate IsBlank(c: char) { c == ' ' || c == '\t' }

  predicate IsIdentStart(c: char) { 'a' <= c <= 'z' || 'A' <= c <= 'Z' || c == '_' || c as int >= 0x80 }

  predicate IsIdent(c: char) { IsIdentStart(c) || '0' <= c <= '9' }

  predicate IsQuote(c: char) { c == '"' || c == '\'' }

  // ----- the reference: a lexer that looks at one byte at a time ---------------------------

  datatype Mode =
    | Html                                    // before `<?`
    | Code
    | Quoted(delim: char)
    | Line                                    // `//` and `#`
    | Block
    | Heredoc(name: string, atStart: bool)    // `atStart`: only blanks since the line began

  function SkipBlanks(s: string): string {
    if s != "" && IsBlank(s[0]) then SkipBlanks(s[1..]) else s
  }

  /** The identifier characters a text begins with. */
  function Word(s: string): string {
    if s != "" && IsIdent(s[0]) then [s[0]] + Word(s[1..]) else ""
  }

  lemma {:induction false} WordIsPrefix(s: string)
    ensures Word(s) <= s
  {
    if s != "" && IsIdent(s[0]) { WordIsPrefix(s[1..]); }
  }

  /** After `<<<`, blanks and an opening quote: the name, its closing quote and one newline. */
  function HeredocName(s: string, quote: Option<char>): Option<(string, string)> {
    if s == "" || !IsIdentStart(s[0]) then None
    else
      WordIsPrefix(s);
      var name := Word(s);
      var t := s[|name|..];
      if quote.Some? && (t == "" || t[0] != quote.value) then None
      else
        match AfterNewline(if quote.Some? then t[1..] else t)
        case None => None
        case Some(rest) => Some((name, rest))
  }

  /** `\r\n`, `\n` or `\r`, and what follows. */
  function AfterNewline(u: string): Option<string> {
    if u == "" then None
    else if u[0] == '\n' then Some(u[1..])
    else if u[0] == '\r' then Some(if |u| > 1 && u[1] == '\n' then u[2..] else u[1..])
    else None
  }

  /** `<<<[ \t]*(['"]?)(ident)\1(\r\n|\n|\r)`: the name, and what follows the newline. */
  function HeredocOpen(s: string): Option<(string, string)> {
    if |s| < 3 || s[0] != '<' || s[1] != '<' || s[2] != '<' then None
    else
      var t := SkipBlanks(s[3..]);
      if t != "" && IsQuote(t[0]) then HeredocName(t[1..], Some(t[0])) else HeredocName(t, None)
  }

  lemma {:induction false} SkipBlanksShorter(s: string)
    ensures |SkipBlanks(s)| <= |s|
  {
    if s != "" && IsBlank(s[0]) { SkipBlanksShorter(s[1..]); }
  }

  lemma NameShorter(s: string, quote: Option<char>)
    ensures HeredocName(s, quote).Some? ==> |HeredocName(s, quote).value.1| < |s| && IsName(HeredocName(s, quote).value.0)
  {
    WordIsPrefix(s);
  }

  lemma HeredocShorter(s: string)
    ensures HeredocOpen(s).Some? ==> |HeredocOpen(s).value.1| < |s| && IsName(HeredocOpen(s).value.0)
  {
    if |s| >= 3 {
      SkipBlanksShorter(s[3..]);
      var t := SkipBlanks(s[3..]);
      NameShorter(t, None);
      if t != "" { NameShorter(t[1..], Some(t[0])); }
    }
  }

  /** Does the heredoc end here? Its name must not run on. */
  predicate Closes(s: string, name: string) {
    name != "" && name <= s && (|s| > |name| ==> !IsIdent(s[|name|]))
  }

  function Lex(mode: Mode, s: string): string
    decreases |s|, if mode.Line? then 1 else 0
  {
    match mode
    case Html =>
      if s == "" then "<?"
      else if |s| > 1 && s[0] == '<' && s[1] == '?' then "<?" + Lex(Code, s[2..])
      else Lex(Html, s[1..])
    case Code =>
      HeredocShorter(s);
      if s == "" then ""
      else if |s| > 1 && s[0] == '?' && s[1] == '>' then
        "?>" + if |s| == 2 then "" else Lex(Html, s[2..])
      else if IsQuote(s[0]) then "null" + Lex(Quoted(s[0]), s[1..])
      else if HeredocOpen(s).Some? then
        "null" + Lex(Heredoc(HeredocOpen(s).value.0, true), HeredocOpen(s).value.1)
      else if |s| > 1 && s[0] == '/' && s[1] == '/' then Lex(Line, s[1..])
      else if |s| > 1 && s[0] == '/' && s[1] == '*' then Lex(Block, s[2..])
      else if s[0] == '#' && !(|s| > 1 && s[1] == '[') then Lex(Line, s[1..])
      else [s[0]] + Lex(Code, s[1..])
    case Quoted(delim) =>
      if s == "" then ""
      else if s[0] == '\\' && |s| > 1 && (s[1] == '\\' || s[1] == delim) then Lex(mode, s[2..])
      else if s[0] == delim then Lex(Code, s[1..])
      else Lex(mode, s[1..])
    case Line =>
      if s == "" || IsNewline(s[0]) then Lex(Code, s) else Lex(Line, s[1..])
    case Block =>
      if s == "" then ""
      else if |s| > 1 && s[0] == '*' && s[1] == '/' then Lex(Code, s[2..])
      else Lex(Block, s[1..])
    case Heredoc(name, atStart) =>
      if s == "" then ""
      else if atStart && IsBlank(s[0]) then Lex(mode, s[1..])
      else if atStart && Closes(s, name) then Lex(Code, s[|name|..])
      else Lex(Heredoc(name, IsNewline(s[0])), s[1..])
  }

  /** What cleaning a whole file means. */
  function Cleaned(s: string): string { if s == "" then "" else Lex(Html, s) }

  // ----- the fast lexer -------------------------------------------------------------------

  method SkipString(contents: string, start: nat, delim: char) returns (i: nat)
    requires start < |contents|
    ensures start < i <= |contents|
    ensures Lex(Quoted(delim), contents[start + 1..]) == Lex(Code, contents[i..])
  {
    i := start + 1;
    while i < |contents|
      invariant start < i <= |contents|
      invariant Lex(Quoted(delim), contents[start + 1..]) == Lex(Quoted(delim), contents[i..])
    {
      var c := contents[i];
      assert contents[i..][1..] == contents[i + 1..];
      if c == '\\' && i + 1 < |contents| && (contents[i + 1] == '\\' || contents[i + 1] == delim) {
        assert contents[i..][2..] == contents[i + 2..];
        i := i + 2;
      } else {
        i := i + 1;
        if c == delim { return; }
      }
    }
    assert contents[i..] == "";
  }

  method SkipComment(contents: string, start: nat) returns (i: nat)
    requires start + 2 <= |contents|
    ensures start < i <= |contents|
    ensures Lex(Block, contents[start + 2..]) == Lex(Code, contents[i..])
  {
    hide Lex;
    i := start + 2;
    while i < |contents|
      invariant start + 2 <= i <= |contents|
      invariant Lex(Block, contents[start + 2..]) == Lex(Block, contents[i..])
    {
      BlockStep(contents[i..]);
      assert contents[i..][1..] == contents[i + 1..];
      if contents[i] == '*' && i + 1 < |contents| && contents[i + 1] == '/' {
        assert contents[i..][2..] == contents[i + 2..];
        return i + 2;
      }
      i := i + 1;
    }
    assert contents[i..] == "";
    BlockStep("");
  }

  lemma BlockStep(s: string)
    ensures Lex(Block, s) == if s == "" then Lex(Code, s)
                             else if |s| > 1 && s[0] == '*' && s[1] == '/' then Lex(Code, s[2..]) else Lex(Block, s[1..])
  {
  }

  method SkipToNewline(contents: string, start: nat) returns (i: nat)
    requires start <= |contents|
    ensures start <= i <= |contents|
    ensures Lex(Line, contents[start..]) == Lex(Code, contents[i..])
    ensures i < |contents| ==> IsNewline(contents[i])
    ensures forall k :: start <= k < i ==> !IsNewline(contents[k])
  {
    i := start;
    while i < |contents| && !IsNewline(contents[i])
      invariant start <= i <= |contents|
      invariant Lex(Line, contents[start..]) == Lex(Line, contents[i..])
      invariant forall k :: start <= k < i ==> !IsNewline(contents[k])
    {
      assert contents[i..][1..] == contents[i + 1..];
      i := i + 1;
    }
  }

  predicate IsName(name: string) { name != "" && IsIdentStart(name[0]) }

  /** An empty line is part of the heredoc. */
  lemma NewlineInHeredoc(name: string, s: string)
    requires s != "" && IsNewline(s[0]) && IsName(name)
    ensures Lex(Heredoc(name, true), s) == Lex(Heredoc(name, true), s[1..])
  {
  }

  /** Inside a heredoc line nothing happens until the newline. */
  lemma {:induction false} RestOfLine(name: string, s: string, k: nat)
    requires k <= |s| && forall j :: 0 <= j < k ==> !IsNewline(s[j])
    ensures Lex(Heredoc(name, false), s) == Lex(Heredoc(name, false), s[k..])
  {
    if k > 0 {
      RestOfLine(name, s[1..], k - 1);
      assert s[1..][k - 1..] == s[k..];
    }
  }

  method SkipHeredoc(contents: string, start: nat, name: string) returns (i: nat)
    requires start <= |contents| && IsName(name)
    ensures start <= i <= |contents|
    ensures Lex(Heredoc(name, true), contents[start..]) == Lex(Code, contents[i..])
  {
    hide Lex, Closes;
    i := start;
    while i < |contents|
      invariant start <= i <= |contents|
      invariant Lex(Heredoc(name, true), contents[start..]) == Lex(Heredoc(name, true), contents[i..])
    {
      ghost var s := contents[i..];
      LineStartStep(name, s);
      assert s[1..] == contents[i + 1..];
      if IsBlank(contents[i]) {
        i := i + 1;
        continue;
      }
      if contents[i] == name[0] && Closes(contents[i..], name) {
        assert s[|name|..] == contents[i + |name|..];
        return i + |name|;
      }
      var j := SkipToNewline(contents, i);
      i := SkipLine(contents, i, j, name);
    }
    assert contents[i..] == "";
    LineStartStep(name, "");
  }

  /** Blanks and the closing name at the start of a line. */
  lemma LineStartStep(name: string, s: string)
    requires IsName(name)
    ensures s == "" ==> Lex(Heredoc(name, true), s) == Lex(Code, s)
    ensures s != "" && IsBlank(s[0]) ==> Lex(Heredoc(name, true), s) == Lex(Heredoc(name, true), s[1..])
    ensures Closes(s, name) ==> s != "" && s[0] == name[0] && name <= s
    ensures Closes(s, name) && !IsBlank(s[0]) ==> Lex(Heredoc(name, true), s) == Lex(Code, s[|name|..])
  {
  }

  /** A line that neither starts with a blank nor closes the heredoc, and its newlines. */
  method SkipLine(contents: string, start: nat, j: nat, ghost name: string) returns (i: nat)
    requires start < |contents| && start <= j <= |contents| && IsName(name)
    requires !IsBlank(contents[start]) && !Closes(contents[start..], name)
    requires j < |contents| ==> IsNewline(contents[j])
    requires forall k :: start <= k < j ==> !IsNewline(contents[k])
    ensures start < i <= |contents|
    ensures Lex(Heredoc(name, true), contents[start..]) == Lex(Heredoc(name, true), contents[i..])
  {
    ghost var s := contents[start..];
    ghost var goal := Lex(Heredoc(name, true), s);
    assert s[1..] == contents[start + 1..];
    i := j;
    if j > start {
      RestOfLine(name, s[1..], j - start - 1);
      assert s[1..][j - start - 1..] == contents[j..];
      assert goal == Lex(Heredoc(name, false), contents[j..]);
    }
    if j < |contents| {
      assert contents[j..][1..] == contents[j + 1..];
      assert goal == Lex(Heredoc(name, true), contents[j + 1..]);
      i := j + 1;
      while i < |contents| && IsNewline(contents[i])
        invariant j < i <= |contents|
        invariant goal == Lex(Heredoc(name, true), contents[i..])
      {
        assert contents[i..][1..] == contents[i + 1..];
        NewlineInHeredoc(name, contents[i..]);
        i := i + 1;
      }
    } else {
      assert contents[j..] == "";
    }
  }

  method PassBlanks(contents: string, start: nat) returns (j: nat)
    requires start <= |contents|
    ensures start <= j <= |contents| && contents[j..] == SkipBlanks(contents[start..])
  {
    j := start;
    while j < |contents| && IsBlank(contents[j])
      invariant start <= j <= |contents|
      invariant SkipBlanks(contents[start..]) == SkipBlanks(contents[j..])
    {
      assert contents[j..][1..] == contents[j + 1..];
      j := j + 1;
    }
  }

  method PassWord(contents: string, start: nat) returns (j: nat)
    requires start <= |contents|
    ensures start <= j <= |contents| && contents[start..j] == Word(contents[start..])
  {
    j := start;
    while j < |contents| && IsIdent(contents[j])
      invariant start <= j <= |contents|
      invariant Word(contents[start..]) == contents[start..j] + Word(contents[j..])
    {
      assert contents[j..][1..] == contents[j + 1..];
      Glue(contents[start..j], [contents[j]], Word(contents[j + 1..]));
      assert contents[start..j + 1] == contents[start..j] + [contents[j]];
      j := j + 1;
    }
  }

  /** `heredoc_start`: the name, and the index after the newline. */
  method HeredocStart(contents: string, i: nat) returns (r: Option<(string, nat)>)
    requires i <= |contents|
    ensures match HeredocOpen(contents[i..])
            case None => r.None?
            case Some(h) => r.Some? && r.value.0 == h.0 && i < r.value.1 <= |contents| && contents[r.value.1..] == h.1
  {
    if !(i + 2 < |contents| && contents[i] == '<' && contents[i + 1] == '<' && contents[i + 2] == '<') { return None; }
    assert contents[i..][3..] == contents[i + 3..];
    var j := PassBlanks(contents, i + 3);
    if j < |contents| && IsQuote(contents[j]) {
      assert contents[j..][1..] == contents[j + 1..];
      r := HeredocTail(contents, j + 1, Some(contents[j]));
    } else {
      r := HeredocTail(contents, j, None);
    }
  }

  method HeredocTail(contents: string, start: nat, quote: Option<char>) returns (r: Option<(string, nat)>)
    requires start <= |contents|
    ensures match HeredocName(contents[start..], quote)
            case None => r.None?
            case Some(h) => r.Some? && r.value.0 == h.0 && start < r.value.1 <= |contents| && contents[r.value.1..] == h.1
  {
    if !(start < |contents| && IsIdentStart(contents[start])) { return None; }
    var j := PassWord(contents, start);
    var name := contents[start..j];
    assert contents[start..][|name|..] == contents[j..];
    if quote.Some? {
      if !(j < |contents| && contents[j] == quote.value) { return None; }
      assert contents[j..][1..] == contents[j + 1..];
      j := j + 1;
    }
    var end := HeredocNewline(contents, j);
    r := if end.None? then None else Some((name, end.value));
  }

  method HeredocNewline(contents: string, j: nat) returns (end: Option<nat>)
    requires j <= |contents|
    ensures match AfterNewline(contents[j..])
            case None => end.None?
            case Some(rest) => end.Some? && j < end.value <= |contents| && contents[end.value..] == rest
  {
    if j == |contents| { return None; }
    assert contents[j..][1..] == contents[j + 1..];
    if contents[j] == '\n' { return Some(j + 1); }
    if contents[j] != '\r' { return None; }
    if j + 1 < |contents| && contents[j + 1] == '\n' {
      assert contents[j..][2..] == contents[j + 2..];
      return Some(j + 2);
    }
    end := Some(j + 1);
  }

  /** The characters the bulk copy stops at. */
  predicate IsReject(c: char) {
    c == '?' || c == '"' || c == '\'' || c == '<' || c == '/' || c == '#' || c == 'c' || c == 'i' || c == 't' || c == 'e'
  }

  /** Whatever the bulk copy runs over would have been copied one by one. */
  lemma {:induction false} BulkCopy(s: string, k: nat)
    requires k <= |s| && forall j :: 0 <= j < k ==> !IsReject(s[j])
    ensures Lex(Code, s) == s[..k] + Lex(Code, s[k..])
  {
    if k > 0 {
      BulkCopy(s[1..], k - 1);
      assert s[1..][k - 1..] == s[k..] && [s[0]] + s[1..][..k - 1] == s[..k];
    }
  }

  /** One `php` section, up to `?>` or the end. */
  method CleanPhp(contents: string, start: nat) returns (out: string, i: nat)
    requires start <= |contents|
    ensures start <= i <= |contents|
    ensures out + Cleaned(contents[i..]) == Lex(Code, contents[start..])
  {
    out, i := "", start;
    while i < |contents|
      invariant start <= i <= |contents|
      invariant out + Lex(Code, contents[i..]) == Lex(Code, contents[start..])
    {
      var closed, text, next := CleanStep(contents, i);
      Glue(out, text, if closed then Cleaned(contents[next..]) else Lex(Code, contents[next..]));
      out, i := out + text, next;
      if closed { return; }
    }
    assert contents[i..] == "";
  }

  /** One round of the inner loop. */
  method CleanStep(contents: string, i: nat) returns (closed: bool, text: string, next: nat)
    requires i < |contents|
    ensures i < next <= |contents|
    ensures Lex(Code, contents[i..]) ==
            text + if closed then Cleaned(contents[next..]) else Lex(Code, contents[next..])
  {
    var c := contents[i];
    ghost var s := contents[i..];
    assert s[1..] == contents[i + 1..];
    closed := false;
    if c == '?' && i + 1 < |contents| && contents[i + 1] == '>' {
      assert s[2..] == contents[i + 2..];
      return true, "?>", i + 2;
    }
    if IsQuote(c) {
      next := SkipString(contents, i, c);
      return false, "null", next;
    }
    if c == '<' && i + 1 < |contents| && contents[i + 1] == '<' {
      var h := HeredocStart(contents, i);
      if h.Some? {
        HeredocShorter(s);
        next := SkipHeredoc(contents, h.value.1, h.value.0);
        return false, "null", next;
      }
    }
    if c == '/' && i + 1 < |contents| && contents[i + 1] == '/' {
      next := SkipToNewline(contents, i + 1);
      return false, "", next;
    }
    if c == '/' && i + 1 < |contents| && contents[i + 1] == '*' {
      assert s[2..] == contents[i + 2..];
      next := SkipComment(contents, i);
      return false, "", next;
    }
    if c == '#' && !(i + 1 < |contents| && contents[i + 1] == '[') {
      next := SkipToNewline(contents, i + 1);
      return false, "", next;
    }
    text, next := CopyRun(contents, i + 1);
    Glue([c], text, Lex(Code, contents[next..]));
    text := [c] + text;
  }

  /** The bulk copy, up to the next byte that might be something else. */
  method CopyRun(contents: string, i: nat) returns (text: string, next: nat)
    requires i <= |contents|
    ensures i <= next <= |contents|
    ensures Lex(Code, contents[i..]) == text + Lex(Code, contents[next..])
  {
    hide Lex;
    next := i;
    while next < |contents| && !IsReject(contents[next])
      invariant i <= next <= |contents|
      invariant forall k :: i <= k < next ==> !IsReject(contents[k])
    {
      next := next + 1;
    }
    ghost var t := contents[i..];
    BulkCopy(t, next - i);
    assert t[..next - i] == contents[i..next] && t[next - i..] == contents[next..];
    text := contents[i..next];
  }

  /** `skipToPhp`: past the next `<?`, or to the end. */
  method SkipToPhp(contents: string, start: nat) returns (i: nat)
    requires start < |contents|
    ensures start < i <= |contents|
    ensures Lex(Html, contents[start..]) == "<?" + Lex(Code, contents[i..])
  {
    hide Lex;
    i := start;
    while i < |contents|
      invariant start <= i <= |contents|
      invariant Lex(Html, contents[start..]) == Lex(Html, contents[i..])
    {
      ghost var s := contents[i..];
      HtmlStep(s);
      assert s[1..] == contents[i + 1..];
      if contents[i] == '<' && i + 1 < |contents| && contents[i + 1] == '?' {
        assert s[2..] == contents[i + 2..];
        return i + 2;
      }
      i := i + 1;
    }
    assert contents[i..] == "";
    HtmlStep("");
  }

  lemma HtmlStep(s: string)
    ensures Lex(Html, s) == if s == "" then "<?" + Lex(Code, s)
                            else if |s| > 1 && s[0] == '<' && s[1] == '?' then "<?" + Lex(Code, s[2..]) else Lex(Html, s[1..])
  {
  }

  /** `clean`, with its early exit left out, is the byte-at-a-time lexer. */
  method Clean(contents: string) returns (out: string)
    ensures out == Cleaned(contents)
  {
    out := "";
    var i := 0;
    assert contents[0..] == contents;
    while i < |contents|
      invariant 0 <= i <= |contents|
      invariant out + Cleaned(contents[i..]) == Cleaned(contents)
    {
      var text, next := CleanSection(contents, i);
      Glue(out, text, Cleaned(contents[next..]));
      out, i := out + text, next;
    }
    assert contents[i..] == "";
  }

  /** Html up to `<?`, and the section it opens. */
  method CleanSection(contents: string, start: nat) returns (text: string, i: nat)
    requires start < |contents|
    ensures start < i <= |contents|
    ensures Cleaned(contents[start..]) == text + Cleaned(contents[i..])
  {
    var j := SkipToPhp(contents, start);
    var section;
    section, i := CleanPhp(contents, j);
    Glue("<?", section, Cleaned(contents[i..]));
    text := "<?" + section;
  }
}
