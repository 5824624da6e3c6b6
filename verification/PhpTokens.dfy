/** What the cleaner keeps and what it cannot see: a PHP section written out as a list of tokens
    is cleaned token by token, and the bodies of strings, comments and heredocs never show. */
module PhpTokens {
  import opened Common
  import opened PhpCleaner

  datatype Token =
    | Plain(c: char)
    | Text(delim: char, body: string)
    | Remark(opening: string, body: string)     // `//` or `#`, up to the newline
    | Comment(body: string)                     // `/* */`
    | Here(blanks: string, quote: string, name: string, newline: string, lines: seq<string>, indent: string)

  function Source(t: Token): string {
    match t
    case Plain(c) => [c]
    case Text(delim, body) => [delim] + (body + [delim])
    case Remark(opening, body) => opening + body
    case Comment(body) => "/*" + (body + "*/")
    case Here(blanks, quote, name, newline, lines, indent) =>
      Opening(blanks, quote, name, newline) + Lines(lines, indent + name)
  }

  /** The first line of a heredoc, or with quotes of a nowdoc. */
  function Opening(blanks: string, quote: string, name: string, newline: string): string {
    "<<<" + (blanks + (quote + (name + (quote + newline))))
  }

  function Sources(tokens: seq<Token>, rest: string): string {
    if tokens == [] then rest else Source(tokens[0]) + Sources(tokens[1..], rest)
  }

  /** What is left of a token. No body occurs here. */
  function Kept(t: Token): string {
    match t
    case Plain(c) => [c]
    case Text(_, _) => "null"
    case Remark(_, _) => ""
    case Comment(_) => ""
    case Here(_, _, _, _, _, _) => "null"
  }

  function AllKept(tokens: seq<Token>): string {
    if tokens == [] then "" else Kept(tokens[0]) + AllKept(tokens[1..])
  }

  function Lines(lines: seq<string>, end: string): string {
    if lines == [] then end else lines[0] + Lines(lines[1..], end)
  }

  // ----- which bodies a token may have ------------------------------------------------------

  /** No unescaped delimiter, and no backslash left over to escape the closing one. */
  predicate StringBody(body: string, delim: char) {
    body == "" ||
    if body[0] == '\\' then
      if |body| > 1 && (body[1] == '\\' || body[1] == delim) then StringBody(body[2..], delim)
      else |body| > 1 && StringBody(body[1..], delim)
    else body[0] != delim && StringBody(body[1..], delim)
  }

  predicate OneLine(body: string) { forall k :: 0 <= k < |body| ==> body[k] != '\n' && body[k] != '\r' }

  predicate CommentBody(body: string) { forall k :: 0 <= k < |body| - 1 ==> !(body[k] == '*' && body[k + 1] == '/') }

  predicate AllBlank(s: string) { forall k :: 0 <= k < |s| ==> s[k] == ' ' || s[k] == '\t' }

  predicate StartsLine(u: string) { "\n" <= u || "\r" <= u || u == "" }

  /** A letter, an underscore or a byte of a longer character. */
  predicate MayBegin(c: char) {
    var b := c as int;
    65 <= b <= 90 || 97 <= b <= 122 || b == 95 || b >= 128
  }

  predicate MayGoOn(c: char) { MayBegin(c) || 48 <= c as int <= 57 }

  predicate IdentifierName(name: string) {
    name != "" && MayBegin(name[0]) && forall k :: 0 <= k < |name| ==> MayGoOn(name[k])
  }

  /** Blanks, the name, and nothing that would make it longer. */
  ghost predicate ClosesHere(s: string, name: string) {
    exists n :: 0 <= n <= |s| && ClosesBehind(s, n, name)
  }

  predicate ClosesBehind(s: string, n: nat, name: string)
    requires n <= |s|
  {
    AllBlank(s[..n]) && name <= s[n..] && (|s| > n + |name| ==> !MayGoOn(s[n + |name|]))
  }

  /** One whole line, which does not begin with the closing name. */
  ghost predicate HereLine(line: string, name: string) {
    line != "" && (line[|line| - 1] == '\n' || line[|line| - 1] == '\r') && OneLine(line[..|line| - 1]) && !ClosesHere(line, name)
  }

  /** The parts of a first line: no quotes, or the same before and behind the name. */
  predicate OpeningParts(blanks: string, quote: string, name: string, newline: string, u: string) {
    AllBlank(blanks) && (quote == "" || quote == "'" || quote == "\"") && IdentifierName(name) &&
    (newline == "\n" || newline == "\r\n" || (newline == "\r" && !("\n" <= u)))
  }

  ghost predicate OpensHere(s: string, name: string, u: string) {
    exists blanks, quote, newline ::
      OpeningParts(blanks, quote, name, newline, u) && s == Opening(blanks, quote, name, newline) + u
  }

  /** The token is what a reader of the text `u` behind it would see. */
  ghost predicate Fits(t: Token, u: string) {
    match t
    case Plain(c) => Ordinary([c] + u)
    case Text(delim, body) => (delim == '"' || delim == '\'') && StringBody(body, delim)
    case Remark(opening, body) =>
      (opening == "//" || (opening == "#" && !("[" <= body + u))) && OneLine(body) && StartsLine(u)
    case Comment(body) => CommentBody(body)
    case Here(blanks, quote, name, newline, lines, indent) =>
      OpeningParts(blanks, quote, name, newline, Lines(lines, indent + name) + u) && AllBlank(indent) &&
      (u != "" ==> !MayGoOn(u[0])) && (forall l :: l in lines ==> HereLine(l, name))
  }

  /** The next character stands for itself. */
  ghost predicate Ordinary(s: string)
    requires s != ""
  {
    !("?>" <= s) && s[0] != '"' && s[0] != '\'' && (forall name, u :: !OpensHere(s, name, u)) &&
    !("//" <= s) && !("/*" <= s) && (s[0] == '#' ==> "#[" <= s)
  }

  ghost predicate AllFit(tokens: seq<Token>, rest: string) {
    tokens == [] || (Fits(tokens[0], Sources(tokens[1..], rest)) && AllFit(tokens[1..], rest))
  }

  // ----- which texts open a heredoc -------------------------------------------------------------

  lemma SameCharacters(c: char)
    ensures MayBegin(c) <==> IsIdentStart(c)
    ensures MayGoOn(c) <==> IsIdent(c)
  {
  }

  lemma {:induction false} WordEnds(name: string, v: string)
    requires (forall k :: 0 <= k < |name| ==> IsIdent(name[k])) && (v != "" ==> !IsIdent(v[0]))
    ensures Word(name + v) == name
  {
    if name == "" {
      assert name + v == v;
    } else {
      assert (name + v)[1..] == name[1..] + v;
      WordEnds(name[1..], v);
    }
  }

  lemma NewlineEnds(newline: string, u: string)
    requires newline == "\n" || newline == "\r\n" || (newline == "\r" && !("\n" <= u))
    ensures AfterNewline(newline + u) == Some(u)
  {
    var v := newline + u;
    assert v[|newline|..] == u;
    FirstIs('\n', u);
  }

  lemma FirstIs(c: char, u: string)
    ensures [c] <= u <==> u != "" && u[0] == c
  {
    assert u != "" ==> u[..1] == [u[0]];
  }

  lemma NameEnds(quote: string, name: string, newline: string, u: string)
    requires OpeningParts("", quote, name, newline, u)
    ensures HeredocName(name + (quote + (newline + u)), if quote == "" then None else Some(quote[0])) == Some((name, u))
  {
    var v := quote + (newline + u);
    forall k | 0 <= k < |name| ensures IsIdent(name[k]) { SameCharacters(name[k]); }
    SameCharacters(name[0]);
    WordEnds(name, v);
    NewlineEnds(newline, u);
    assert (name + v)[|name|..] == v;
    assert v[|quote|..] == newline + u;
  }

  lemma HeredocStep(blanks: string, t: string)
    requires AllBlank(blanks) && t != "" && !IsBlank(t[0])
    ensures HeredocOpen("<<<" + (blanks + t)) == if IsQuote(t[0]) then HeredocName(t[1..], Some(t[0])) else HeredocName(t, None)
  {
    var s := "<<<" + (blanks + t);
    assert s[3..] == blanks + t;
    hide SkipBlanks, HeredocName;
    IndentSkipped(blanks, t);
  }

  lemma OpeningText(blanks: string, quote: string, name: string, newline: string, u: string)
    ensures Opening(blanks, quote, name, newline) + u == "<<<" + (blanks + (quote + (name + (quote + (newline + u)))))
  {
    assert quote + newline + u == quote + (newline + u);
    assert name + (quote + newline) + u == name + (quote + (newline + u));
    assert quote + (name + (quote + newline)) + u == quote + (name + (quote + (newline + u)));
    assert blanks + (quote + (name + (quote + newline))) + u == blanks + (quote + (name + (quote + (newline + u))));
  }

  /** Every first line of a heredoc is recognised, with its name and what follows. */
  lemma Opens(blanks: string, quote: string, name: string, newline: string, u: string)
    requires OpeningParts(blanks, quote, name, newline, u)
    ensures HeredocOpen(Opening(blanks, quote, name, newline) + u) == Some((name, u))
  {
    var t := quote + (name + (quote + (newline + u)));
    assert t[0] == if quote == "" then name[0] else quote[0];
    assert t[|quote|..] == name + (quote + (newline + u));
    assert !IsBlank(t[0]) && (quote == "" <==> !IsQuote(t[0]));
    assert AllBlank("");
    hide HeredocOpen, HeredocName, Opening, SkipBlanks, AllBlank, IdentifierName;
    OpeningText(blanks, quote, name, newline, u);
    HeredocStep(blanks, t);
    NameEnds(quote, name, newline, u);
  }

  lemma NewlineParts(v: string) returns (newline: string)
    requires AfterNewline(v).Some?
    ensures var u := AfterNewline(v).value;
            v == newline + u && (newline == "\n" || newline == "\r\n" || (newline == "\r" && !("\n" <= u)))
  {
    newline := v[..|v| - |AfterNewline(v).value|];
  }

  lemma NameParts(s: string, quote: string) returns (newline: string)
    requires quote == "" || quote == "'" || quote == "\""
    requires HeredocName(s, if quote == "" then None else Some(quote[0])).Some?
    ensures var (name, u) := HeredocName(s, if quote == "" then None else Some(quote[0])).value;
            s == name + (quote + (newline + u)) && OpeningParts("", quote, name, newline, u)
  {
    var name := WordParts(s);
    var t := s[|name|..];
    hide HeredocName, Word, AfterNewline, IdentifierName;
    NameStep(s, if quote == "" then None else Some(quote[0]));
    newline := NewlineParts(t[|quote|..]);
    assert s == name + t && t == quote + t[|quote|..];
    assert AllBlank("");
  }

  lemma NameStep(s: string, quote: Option<char>)
    requires HeredocName(s, quote).Some?
    ensures Word(s) <= s && HeredocName(s, quote).value.0 == Word(s)
    ensures var t := s[|Word(s)|..];
            && (quote.Some? ==> t != "" && t[0] == quote.value)
            && AfterNewline(t[(if quote.Some? then 1 else 0)..]) == Some(HeredocName(s, quote).value.1)
  {
    hide Word;
    WordIsPrefix(s);
  }

  lemma WordParts(s: string) returns (name: string)
    requires s != "" && IsIdentStart(s[0])
    ensures name == Word(s) && name <= s && IdentifierName(name)
  {
    name := Word(s);
    WordIsPrefix(s);
    WordIsIdent(s);
    forall k | 0 <= k < |name| ensures MayGoOn(name[k]) { SameCharacters(name[k]); }
    SameCharacters(s[0]);
  }

  lemma OpenParts(s: string) returns (blanks: string, quote: string, newline: string)
    requires HeredocOpen(s).Some?
    ensures var (name, u) := HeredocOpen(s).value;
            OpeningParts(blanks, quote, name, newline, u) && s == Opening(blanks, quote, name, newline) + u
  {
    blanks := BlanksAreAPrefix(s[3..]);
    var t := SkipBlanks(s[3..]);
    quote := if t != "" && IsQuote(t[0]) then [t[0]] else "";
    var (name, u) := HeredocOpen(s).value;
    assert HeredocName(t[|quote|..], if quote == "" then None else Some(quote[0])) == Some((name, u));
    assert s == "<<<" + s[3..] && t == quote + t[|quote|..];
    hide HeredocOpen, HeredocName, Opening, SkipBlanks, AllBlank, IdentifierName;
    newline := NameParts(t[|quote|..], quote);
    OpeningText(blanks, quote, name, newline, u);
  }

  /** A text opens a heredoc exactly when it begins with such a line. */
  lemma OpensIff(s: string, name: string, u: string)
    ensures HeredocOpen(s) == Some((name, u)) <==> OpensHere(s, name, u)
  {
    if HeredocOpen(s) == Some((name, u)) {
      var blanks, quote, newline := OpenParts(s);
    }
    if OpensHere(s, name, u) {
      var blanks, quote, newline :| OpeningParts(blanks, quote, name, newline, u) && s == Opening(blanks, quote, name, newline) + u;
      Opens(blanks, quote, name, newline, u);
    }
  }

  /** So a text opens none when it begins with no such line. */
  lemma OpensNone(s: string)
    ensures HeredocOpen(s).None? <==> forall name, u :: !OpensHere(s, name, u)
  {
    if HeredocOpen(s).Some? { OpensIff(s, HeredocOpen(s).value.0, HeredocOpen(s).value.1); }
    forall name, u { OpensIff(s, name, u); }
  }

  /** Whether a heredoc ends is settled behind the blanks. */
  lemma ClosesIff(s: string, name: string)
    requires IdentifierName(name)
    ensures ClosesHere(s, name) <==> Closes(SkipBlanks(s), name)
  {
    var indent := BlanksAreAPrefix(s);
    hide *;
    var m, t := |indent|, SkipBlanks(s);
    assert s[..m] == indent && s[m..] == t;
    if ClosesHere(s, name) {
      var n := ClosedBehind(s, name);
      assert s == s[..n] + s[n..];
      IndentSkipped(s[..n], s[n..]);
    }
    if Closes(t, name) { ClosesAt(s, m, name); }
  }

  lemma ClosedBehind(s: string, name: string) returns (n: nat)
    requires ClosesHere(s, name) && IdentifierName(name)
    ensures n <= |s| && AllBlank(s[..n]) && Closes(s[n..], name) && s[n..] != "" && !IsBlank(s[n..][0])
  {
    n :| 0 <= n <= |s| && ClosesBehind(s, n, name);
    SameCharacters(name[0]);
    if |s| > n + |name| { SameCharacters(s[n + |name|]); }
  }

  lemma ClosesAt(s: string, m: nat, name: string)
    requires m <= |s| && AllBlank(s[..m]) && Closes(s[m..], name)
    ensures ClosesHere(s, name)
  {
    if |s| > m + |name| { SameCharacters(s[m + |name|]); }
    assert ClosesBehind(s, m, name);
  }

  // ----- one token ------------------------------------------------------------------------------

  lemma {:induction false} StringSkipped(body: string, delim: char, u: string)
    requires IsQuote(delim) && StringBody(body, delim)
    ensures Lex(Quoted(delim), body + ([delim] + u)) == Lex(Code, u)
  {
    var s := body + ([delim] + u);
    if body == "" {
      assert s == [delim] + u && s[1..] == u;
    } else if body[0] == '\\' && |body| > 1 && (body[1] == '\\' || body[1] == delim) {
      assert s[2..] == body[2..] + ([delim] + u);
      StringSkipped(body[2..], delim, u);
    } else {
      assert s[1..] == body[1..] + ([delim] + u);
      StringSkipped(body[1..], delim, u);
    }
  }

  lemma {:induction false} RemarkSkipped(body: string, u: string)
    requires OneLine(body) && StartsLine(u)
    ensures Lex(Line, body + u) == Lex(Code, u)
  {
    if body == "" {
      assert body + u == u;
    } else {
      assert (body + u)[1..] == body[1..] + u;
      RemarkSkipped(body[1..], u);
    }
  }

  lemma {:induction false} CommentSkipped(body: string, u: string)
    requires CommentBody(body)
    ensures Lex(Block, body + ("*/" + u)) == Lex(Code, u)
  {
    var s := body + ("*/" + u);
    if body == "" {
      assert s == "*/" + u && s[2..] == u;
    } else {
      assert s[1..] == body[1..] + ("*/" + u);
      assert |body| == 1 ==> s[1] == '*';
      CommentSkipped(body[1..], u);
    }
  }

  lemma {:induction false} BlanksSkipped(name: string, s: string)
    ensures Lex(Heredoc(name, true), s) == Lex(Heredoc(name, true), SkipBlanks(s))
  {
    if s != "" && IsBlank(s[0]) { BlanksSkipped(name, s[1..]); }
  }

  lemma {:induction false} IndentSkipped(indent: string, s: string)
    requires AllBlank(indent) && (s != "" ==> !IsBlank(s[0]))
    ensures SkipBlanks(indent + s) == s
  {
    if indent == "" {
      assert indent + s == s;
    } else {
      assert (indent + s)[1..] == indent[1..] + s;
      IndentSkipped(indent[1..], s);
    }
  }

  /** Blanks end before a newline does. */
  lemma {:induction false} BlanksOfLine(line: string, u: string)
    requires line != "" && IsNewline(line[|line| - 1])
    ensures SkipBlanks(line) != "" && SkipBlanks(line + u) == SkipBlanks(line) + u
    ensures |SkipBlanks(line)| <= |line| && SkipBlanks(line) == line[|line| - |SkipBlanks(line)|..]
  {
    if IsBlank(line[0]) {
      assert (line + u)[1..] == line[1..] + u;
      BlanksOfLine(line[1..], u);
    }
  }

  /** Whether a line closes the heredoc is settled before its newline. */
  lemma ClosesInLine(line: string, u: string, name: string)
    requires line != "" && IsNewline(line[|line| - 1]) && IdentifierName(name)
    ensures Closes(line + u, name) == Closes(line, name)
  {
    var last := line[|line| - 1];
    if |name| < |line| {
      assert (line + u)[..|name|] == line[..|name|];
    } else {
      SameCharacters(name[|line| - 1]);
      assert IsIdent(name[|line| - 1]) && !IsIdent(last);
      assert (line + u)[|line| - 1] == last;
    }
  }

  lemma HereLineSkipped(line: string, name: string, u: string)
    requires HereLine(line, name) && IdentifierName(name)
    ensures Lex(Heredoc(name, true), line + u) == Lex(Heredoc(name, true), u)
  {
    var t := SkipBlanks(line);
    HereLineIs(line, name);
    hide *;
    BlanksSkipped(name, line + u);
    BlanksOfLine(line, u);
    ClosesIff(line, name);
    ClosesInLine(t, u, name);
    FirstIsNotBlank(line);
    forall j | 0 <= j < |t| - 1 ensures !IsNewline(t[j]) { assert t[j] == line[|line| - |t| + j]; }
    LineSkipped(t, name, u);
  }

  lemma HereLineIs(line: string, name: string)
    requires HereLine(line, name)
    ensures line != "" && IsNewline(line[|line| - 1]) && !ClosesHere(line, name)
    ensures forall j :: 0 <= j < |line| - 1 ==> !IsNewline(line[j])
  {
    hide ClosesHere;
    forall j | 0 <= j < |line| - 1 ensures !IsNewline(line[j]) { assert line[..|line| - 1][j] == line[j]; }
  }

  /** The line behind its blanks. */
  lemma LineSkipped(t: string, name: string, u: string)
    requires t != "" && IsNewline(t[|t| - 1]) && !IsBlank(t[0]) && !Closes(t + u, name)
    requires forall j :: 0 <= j < |t| - 1 ==> !IsNewline(t[j])
    ensures Lex(Heredoc(name, true), t + u) == Lex(Heredoc(name, true), u)
  {
    hide *;
    var s, k := t + u, |t| - 1;
    HereStep(name, s);
    if k == 0 {
      assert s[1..] == u;
    } else {
      RestOfLine(name, s[1..], k - 1);
      assert s[1..][k - 1..] == [t[k]] + u;
      LineEnds(name, t[k], u);
    }
  }

  lemma HereStep(name: string, s: string)
    requires s != "" && !IsBlank(s[0]) && !Closes(s, name)
    ensures Lex(Heredoc(name, true), s) == Lex(Heredoc(name, IsNewline(s[0])), s[1..])
  {
    hide Closes, IsBlank, IsNewline;
  }

  lemma LineEnds(name: string, c: char, u: string)
    requires IsNewline(c)
    ensures Lex(Heredoc(name, false), [c] + u) == Lex(Heredoc(name, true), u)
  {
    hide IsNewline, Closes;
    assert ([c] + u)[1..] == u;
  }

  lemma {:induction false} FirstIsNotBlank(s: string)
    ensures SkipBlanks(s) != "" ==> !IsBlank(SkipBlanks(s)[0])
  {
    if s != "" && IsBlank(s[0]) { FirstIsNotBlank(s[1..]); }
  }

  lemma {:induction false} HereSkipped(lines: seq<string>, indent: string, name: string, u: string)
    requires IdentifierName(name) && AllBlank(indent) && (u != "" ==> !MayGoOn(u[0]))
    requires forall l :: l in lines ==> HereLine(l, name)
    ensures Lex(Heredoc(name, true), Lines(lines, indent + name) + u) == Lex(Code, u)
  {
    var s := Lines(lines, indent + name) + u;
    if lines == [] {
      assert s == indent + (name + u);
      BlanksSkipped(name, s);
      SameCharacters(name[0]);
      IndentSkipped(indent, name + u);
      if u != "" { SameCharacters(u[0]); }
      assert (name + u)[..|name|] == name && (name + u)[|name|..] == u;
    } else {
      Glue(lines[0], Lines(lines[1..], indent + name), u);
      HereLineSkipped(lines[0], name, Lines(lines[1..], indent + name) + u);
      HereSkipped(lines[1..], indent, name, u);
    }
  }

  lemma TextToken(delim: char, body: string, u: string)
    requires IsQuote(delim) && StringBody(body, delim)
    ensures Lex(Code, [delim] + (body + [delim]) + u) == "null" + Lex(Code, u)
  {
    var s := [delim] + (body + [delim]) + u;
    assert s[1..] == body + ([delim] + u);
    StringSkipped(body, delim, u);
    assert s[0] == delim;
  }

  lemma RemarkToken(opening: string, body: string, u: string)
    requires OneLine(body) && StartsLine(u) && (opening == "//" || (opening == "#" && !("[" <= body + u)))
    ensures Lex(Code, opening + body + u) == Lex(Code, u)
  {
    var s := opening + body + u;
    hide StartsLine, OneLine;
    FirstIs('[', body + u);
    if opening == "//" {
      assert s[1..] == ("/" + body) + u;
      OneLineBehind(body);
      RemarkSkipped("/" + body, u);
    } else {
      assert s[1..] == body + u;
      RemarkSkipped(body, u);
    }
  }

  lemma OneLineBehind(body: string)
    ensures OneLine(body) ==> OneLine("/" + body)
  {
  }

  lemma CommentToken(body: string, u: string)
    requires CommentBody(body)
    ensures Lex(Code, "/*" + (body + "*/") + u) == Lex(Code, u)
  {
    var s := "/*" + (body + "*/") + u;
    assert s[2..] == body + ("*/" + u);
    CommentSkipped(body, u);
  }

  lemma HereToken(t: Token, u: string)
    requires t.Here? && Fits(t, u)
    ensures Lex(Code, Source(t) + u) == "null" + Lex(Code, u)
  {
    var opening, text := Opening(t.blanks, t.quote, t.name, t.newline), Lines(t.lines, t.indent + t.name);
    Glue(opening, text, u);
    Opens(t.blanks, t.quote, t.name, t.newline, text + u);
    HereSkipped(t.lines, t.indent, t.name, u);
  }

  lemma PlainToken(c: char, u: string)
    requires Ordinary([c] + u)
    ensures Lex(Code, [c] + u) == [c] + Lex(Code, u)
  {
    var s := [c] + u;
    OpensNone(s);
    hide HeredocOpen, OpensHere;
    assert s[1..] == u;
    assert |s| > 1 ==> s[..2] == [s[0], s[1]];
  }

  lemma OneToken(t: Token, u: string)
    requires Fits(t, u)
    ensures Lex(Code, Source(t) + u) == Kept(t) + Lex(Code, u)
  {
    match t
    case Plain(c) => PlainToken(c, u);
    case Text(delim, body) => TextToken(delim, body, u);
    case Remark(opening, body) => RemarkToken(opening, body, u);
    case Comment(body) => CommentToken(body, u);
    case Here(_, _, _, _, _, _) => HereToken(t, u);
  }

  // ----- whole sections --------------------------------------------------------------------------

  /** Cleaning a section keeps exactly the kept part of each token, in order. */
  lemma {:induction false} CleanedTokenByToken(tokens: seq<Token>, rest: string)
    requires AllFit(tokens, rest)
    ensures Lex(Code, Sources(tokens, rest)) == AllKept(tokens) + Lex(Code, rest)
  {
    if tokens != [] {
      var u := Sources(tokens[1..], rest);
      OneToken(tokens[0], u);
      CleanedTokenByToken(tokens[1..], rest);
      Glue(Kept(tokens[0]), AllKept(tokens[1..]), Lex(Code, rest));
    }
  }

  /** The same token up to its body. */
  predicate SameShape(t: Token, t': Token) {
    match t
    case Plain(_) => t == t'
    case Text(_, _) => t'.Text? || t'.Here?
    case Here(_, _, _, _, _, _) => t'.Text? || t'.Here?
    case Remark(_, _) => t'.Remark? || t'.Comment?
    case Comment(_) => t'.Remark? || t'.Comment?
  }

  /** Strings, comments and heredocs can be rewritten at will without the cleaned text changing. */
  lemma {:induction false} BodiesDoNotShow(tokens: seq<Token>, tokens': seq<Token>, rest: string)
    requires |tokens| == |tokens'| && forall k :: 0 <= k < |tokens| ==> SameShape(tokens[k], tokens'[k])
    requires AllFit(tokens, rest) && AllFit(tokens', rest)
    ensures Lex(Code, Sources(tokens, rest)) == Lex(Code, Sources(tokens', rest))
  {
    CleanedTokenByToken(tokens, rest);
    CleanedTokenByToken(tokens', rest);
    SameKept(tokens, tokens');
  }

  lemma {:induction false} SameKept(tokens: seq<Token>, tokens': seq<Token>)
    requires |tokens| == |tokens'| && forall k :: 0 <= k < |tokens| ==> SameShape(tokens[k], tokens'[k])
    ensures AllKept(tokens) == AllKept(tokens')
  {
    if tokens != [] {
      assert SameShape(tokens[0], tokens'[0]);
      SameKept(tokens[1..], tokens'[1..]);
    }
  }

  // ----- every section is such a list --------------------------------------------------------------

  /** Where a list of tokens may stop: the end, `?>`, or a last piece that leaves at most one `null`. */
  predicate Stops(rest: string) {
    rest == "" || "?>" <= rest || Lex(Code, rest) == "null" || Lex(Code, rest) == ""
  }

  lemma {:induction false} FindStringEnd(s: string, delim: char) returns (closed: bool, body: string, u: string)
    requires IsQuote(delim)
    ensures closed ==> StringBody(body, delim) && s == body + ([delim] + u)
    ensures !closed ==> Lex(Quoted(delim), s) == ""
  {
    if s == "" {
      closed, body, u := false, "", "";
    } else if s[0] == '\\' && |s| > 1 && (s[1] == '\\' || s[1] == delim) {
      closed, body, u := FindStringEnd(s[2..], delim);
      body := s[..2] + body;
      assert closed ==> body[2..] + ([delim] + u) == s[2..];
    } else if s[0] == delim {
      closed, body, u := true, "", s[1..];
    } else {
      closed, body, u := FindStringEnd(s[1..], delim);
      if closed { assert s[1..] == body + ([delim] + u); }
      assert ([s[0]] + body)[1..] == body;
      body := [s[0]] + body;
    }
  }

  lemma {:induction false} FindLineEnd(s: string) returns (body: string, u: string)
    ensures OneLine(body) && StartsLine(u) && s == body + u
  {
    if s == "" || IsNewline(s[0]) {
      body, u := "", s;
    } else {
      body, u := FindLineEnd(s[1..]);
      body := [s[0]] + body;
    }
  }

  lemma {:induction false} FindCommentEnd(s: string) returns (closed: bool, body: string, u: string)
    ensures closed ==> CommentBody(body) && s == body + ("*/" + u)
    ensures !closed ==> Lex(Block, s) == ""
  {
    if s == "" {
      closed, body, u := false, "", "";
    } else if |s| > 1 && s[0] == '*' && s[1] == '/' {
      closed, body, u := true, "", s[2..];
    } else {
      closed, body, u := FindCommentEnd(s[1..]);
      if closed {
        assert |body| > 0 ==> s[1] == body[0];
        body := [s[0]] + body;
      }
    }
  }

  lemma {:induction false} BlanksAreAPrefix(s: string) returns (indent: string)
    ensures s == indent + SkipBlanks(s) && AllBlank(indent)
  {
    if s == "" || !IsBlank(s[0]) {
      indent := "";
    } else {
      indent := BlanksAreAPrefix(s[1..]);
      indent := [s[0]] + indent;
    }
  }

  /** A heredoc line that does not close it, together with its newline. */
  lemma TakeLine(s: string, name: string) returns (found: bool, line: string, u: string)
    requires IdentifierName(name) && SkipBlanks(s) != "" && !Closes(SkipBlanks(s), name)
    ensures found ==> s == line + u && HereLine(line, name)
    ensures !found ==> Lex(Heredoc(name, true), s) == ""
  {
    line, u := FindLineEnd(s);
    found := u != "";
    if found {
      line, u := line + [u[0]], u[1..];
      assert line[..|line| - 1] == s[..|line| - 1];
      assert s == line + u;
      hide SkipBlanks, Closes, ClosesHere, Lex;
      BlanksOfLine(line, u);
      ClosesInLine(SkipBlanks(line), u, name);
      ClosesIff(line, name);
    } else {
      LastLine(s, name);
    }
  }

  /** Without a newline the heredoc does not end. */
  lemma LastLine(s: string, name: string)
    requires SkipBlanks(s) != "" && !Closes(SkipBlanks(s), name) && forall k :: 0 <= k < |s| ==> !IsNewline(s[k])
    ensures Lex(Heredoc(name, true), s) == ""
  {
    var indent := BlanksAreAPrefix(s);
    var t := SkipBlanks(s);
    assert forall k :: 0 <= k < |t| ==> t[k] == s[|indent| + k];
    hide SkipBlanks, Closes;
    BlanksSkipped(name, s);
    FirstIsNotBlank(s);
    RestOfLine(name, t[1..], |t| - 1);
  }

  lemma NoMoreLines(s: string, name: string) returns (indent: string, u: string)
    requires Closes(SkipBlanks(s), name)
    ensures s == Lines([], indent + name) + u && AllBlank(indent) && (u != "" ==> !MayGoOn(u[0]))
  {
    var t := SkipBlanks(s);
    indent := BlanksAreAPrefix(s);
    u := t[|name|..];
    if u != "" { SameCharacters(u[0]); }
    assert t == name + u && s == indent + name + u;
  }

  lemma {:induction false} FindHereEnd(s: string, name: string)
      returns (closed: bool, lines: seq<string>, indent: string, u: string)
    requires IdentifierName(name)
    ensures closed ==> s == Lines(lines, indent + name) + u && AllBlank(indent) && (u != "" ==> !MayGoOn(u[0]))
    ensures closed ==> forall l :: l in lines ==> HereLine(l, name)
    ensures !closed ==> Lex(Heredoc(name, true), s) == ""
    decreases |s|
  {
    closed, lines, indent, u := false, [], "", "";
    BlanksSkipped(name, s);
    var t := SkipBlanks(s);
    if t == "" { return; }
    if Closes(t, name) {
      closed, lines := true, [];
      indent, u := NoMoreLines(s, name);
      return;
    }
    hide SkipBlanks, Closes, HereLine, Lex;
    var found, line, v := TakeLine(s, name);
    if !found { return; }
    closed, lines, indent, u := FindHereEnd(v, name);
    HereLineSkipped(line, name, v);
    if closed {
      Glue(line, Lines(lines, indent + name), u);
      assert ([line] + lines)[1..] == lines;
      lines := [line] + lines;
    }
  }

  lemma {:induction false} WordIsIdent(s: string)
    ensures forall k :: 0 <= k < |Word(s)| ==> IsIdent(Word(s)[k])
  {
    if s != "" && IsIdent(s[0]) { WordIsIdent(s[1..]); }
  }

  /** The token a section begins with, unless it stops here. */
  lemma FirstToken(s: string) returns (t: Token, u: string)
    requires !Stops(s)
    ensures Fits(t, u) && s == Source(t) + u && |u| < |s|
  {
    if IsQuote(s[0]) {
      t, u := FirstString(s);
    } else if HeredocOpen(s).Some? {
      t, u := FirstHeredoc(s);
    } else if "//" <= s {
      t, u := FirstRemark(s, "//");
    } else if "/*" <= s {
      t, u := FirstComment(s);
    } else if s[0] == '#' && !("#[" <= s) {
      t, u := FirstRemark(s, "#");
    } else {
      OpensNone(s);
      assert s == [s[0]] + s[1..];
      t, u := Plain(s[0]), s[1..];
    }
  }

  lemma FirstString(s: string) returns (t: Token, u: string)
    requires !Stops(s) && IsQuote(s[0])
    ensures Fits(t, u) && s == Source(t) + u && |u| < |s|
  {
    var closed, body, v := FindStringEnd(s[1..], s[0]);
    t, u := Text(s[0], body), v;
    assert s == [s[0]] + s[1..];
  }

  lemma FirstComment(s: string) returns (t: Token, u: string)
    requires !Stops(s) && "/*" <= s && HeredocOpen(s).None?
    ensures Fits(t, u) && s == Source(t) + u && |u| < |s|
  {
    var closed, body, v := FindCommentEnd(s[2..]);
    t, u := Comment(body), v;
    assert s == "/*" + s[2..];
  }

  lemma FirstRemark(s: string, opening: string) returns (t: Token, u: string)
    requires opening <= s && (opening == "//" || (opening == "#" && !("#[" <= s)))
    ensures Fits(t, u) && s == Source(t) + u && |u| < |s|
  {
    var tail := s[|opening|..];
    var body, v := FindLineEnd(tail);
    t, u := Remark(opening, body), v;
    Glue(opening, body, v);
    assert s == opening + tail;
    AttributeOpening(s);
  }

  lemma AttributeOpening(s: string)
    ensures "#[" <= s <==> |s| > 1 && s[0] == '#' && s[1] == '['
  {
    assert |s| > 1 ==> s[..2] == [s[0], s[1]];
  }

  lemma FirstHeredoc(s: string) returns (t: Token, u: string)
    requires !Stops(s) && !IsQuote(s[0]) && HeredocOpen(s).Some?
    ensures Fits(t, u) && s == Source(t) + u && |u| < |s|
  {
    var name, tail := HeredocOpen(s).value.0, HeredocOpen(s).value.1;
    OpensIff(s, name, tail);
    var blanks, quote, newline :| OpeningParts(blanks, quote, name, newline, tail) && s == Opening(blanks, quote, name, newline) + tail;
    var closed, lines, indent, v := FindHereEnd(tail, name);
    HeredocShorter(s);
    assert closed;
    Glue(Opening(blanks, quote, name, newline), Lines(lines, indent + name), v);
    t, u := Here(blanks, quote, name, newline, lines, indent), v;
  }

  /** Every section text is a list of tokens, up to where it stops. */
  lemma {:induction false} EverySectionIsTokens(s: string) returns (tokens: seq<Token>, rest: string)
    ensures s == Sources(tokens, rest) && AllFit(tokens, rest) && Stops(rest)
    decreases |s|
  {
    if Stops(s) {
      tokens, rest := [], s;
    } else {
      var t, u := FirstToken(s);
      tokens, rest := EverySectionIsTokens(u);
      assert ([t] + tokens)[1..] == tokens;
      tokens := [t] + tokens;
    }
  }

  // ----- whole files --------------------------------------------------------------------------------

  predicate NoOpening(html: string) { forall k :: 0 <= k < |html| - 1 ==> !(html[k] == '<' && html[k + 1] == '?') }

  lemma {:induction false} HtmlSkipped(html: string, s: string)
    requires NoOpening(html)
    ensures Lex(Html, html + ("<?" + s)) == "<?" + Lex(Code, s)
    ensures Lex(Html, html) == "<?"
  {
    var all := html + ("<?" + s);
    if html == "" {
      assert all == "<?" + s && all[2..] == s;
    } else {
      assert all[1..] == html[1..] + ("<?" + s);
      assert |html| == 1 ==> all[1] == '<';
      HtmlSkipped(html[1..], s);
    }
  }

  /** A file is text up to the first opening tag, of which nothing stays, then a section, then the
      rest. */
  lemma CleanedFile(html: string, tokens: seq<Token>, more: string)
    requires NoOpening(html)
    ensures Cleaned(html) == if html == "" then "" else "<?"
    ensures AllFit(tokens, "") ==> Cleaned(html + ("<?" + Sources(tokens, ""))) == "<?" + AllKept(tokens)
    ensures AllFit(tokens, "?>" + more) ==>
              Cleaned(html + ("<?" + Sources(tokens, "?>" + more))) == "<?" + (AllKept(tokens) + ("?>" + Cleaned(more)))
  {
    HtmlSkipped(html, Sources(tokens, ""));
    HtmlSkipped(html, Sources(tokens, "?>" + more));
    SectionEnds(more);
    hide Lex, Sources, AllFit;
    if AllFit(tokens, "") { CleanedTokenByToken(tokens, ""); }
    if AllFit(tokens, "?>" + more) { CleanedTokenByToken(tokens, "?>" + more); }
  }

  lemma SectionEnds(more: string)
    ensures Lex(Code, "?>" + more) == "?>" + Cleaned(more) && Lex(Code, "") == ""
  {
    assert ("?>" + more)[2..] == more;
  }
}
