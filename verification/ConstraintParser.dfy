/** How a constraint is cut into alternatives and conditions (constraint.rs, `Constraint::parse`), and what the
    whole text admits. */
module ConstraintParser {
  import opened Common
  import opened Versions
  import opened Constraints
  import Text

  // ----- alternatives ----------------------------------------------------------------------------------------

  predicate HasBars(s: string) { exists k :: 0 <= k < |s| - 1 && s[k] == '|' && s[k + 1] == '|' }

  /** The pieces between the leftmost double bars. */
  function SplitBars(s: string): (r: seq<string>)
    ensures r != []
  {
    if s == "" then [""]
    else if |s| >= 2 && s[0] == '|' && s[1] == '|' then [""] + SplitBars(s[2..])
    else
      var rest := SplitBars(s[1..]);
      [[s[0]] + rest[0]] + rest[1..]
  }

  /** `split_or`: at double bars, if there are any, or else at single ones. */
  function SplitOr(s: string): (r: seq<string>)
    ensures r != []
  {
    if HasBars(s) then SplitBars(s) else if '|' in s then Text.Split(s, '|') else [s]
  }

  // ----- words and tokens --------------------------------------------------------------------------------------

  predicate IsGap(c: char) { c == ',' || c == ' ' || c == '\t' }

  /** The words between commas, spaces and tabs; `cur` is the word being read. */
  function Words(s: string, cur: string): seq<string> {
    if s == "" then Kept(cur)
    else if IsGap(s[0]) then Kept(cur) + Words(s[1..], "")
    else Words(s[1..], cur + [s[0]])
  }

  function Kept(cur: string): seq<string> { if cur == "" then [] else [cur] }

  predicate IsSign(w: string) {
    w == ">=" || w == ">" || w == "<=" || w == "<" || w == "==" || w == "=" || w == "!=" || w == "<>"
  }

  /** Signs are put in front of the next word, and hyphens between the token before and the next word. */
  function Glued(words: seq<string>, tokens: seq<string>): seq<string>
    decreases |words|
  {
    if words == [] then tokens
    else if IsSign(words[0]) && |words| > 1 then Glued(words[2..], tokens + [words[0] + words[1]])
    else if words[0] == "-" && tokens != [] && |words| > 1 then
      Glued(words[2..], tokens[..|tokens| - 1] + [tokens[|tokens| - 1] + " - " + words[1]])
    else Glued(words[1..], tokens + [words[0]])
  }

  /** The loop of `parse_and_group`. */
  method GlueTokens(raw: seq<string>) returns (tokens: seq<string>)
    ensures tokens == Glued(raw, [])
  {
    tokens := [];
    var i := 0;
    assert raw[0..] == raw;
    while i < |raw|
      invariant i <= |raw|
      invariant Glued(raw[i..], tokens) == Glued(raw, [])
    {
      var t := raw[i];
      assert raw[i..][0] == t && raw[i..][1..] == raw[i + 1..];
      if i + 1 < |raw| { assert raw[i..][1] == raw[i + 1] && raw[i..][2..] == raw[i + 2..]; }
      if IsSign(t) && i + 1 < |raw| {
        tokens := tokens + [t + raw[i + 1]];
        i := i + 2;
      } else if t == "-" && tokens != [] && i + 1 < |raw| {
        var from := tokens[|tokens| - 1];
        tokens := tokens[..|tokens| - 1] + [from + " - " + raw[i + 1]];
        i := i + 2;
      } else {
        tokens := tokens + [t];
        i := i + 1;
      }
    }
  }

  /** The conditions of all tokens, in order. */
  function Conditions(tokens: seq<string>): Option<seq<Simple>>
    decreases |tokens|
  {
    if tokens == [] then Some([])
    else
      match (Conditions(tokens[..|tokens| - 1]), ParseSimple(tokens[|tokens| - 1]))
      case (Some(before), Some(last)) => Some(before + last)
      case _ => None
  }

  /** `parse_and_group`. */
  function Group(part: string): Option<seq<Simple>> {
    match Conditions(Glued(Words(part, ""), []))
    case None => None
    case Some(out) => if out == [] then None else Some(out)
  }

  method ParseGroup(part: string) returns (group: Option<seq<Simple>>)
    ensures group == Group(part)
  {
    var tokens := GlueTokens(Words(part, ""));
    var out: seq<Simple> := [];
    for i := 0 to |tokens|
      invariant Conditions(tokens[..i]) == Some(out)
    {
      assert tokens[..i + 1][..i] == tokens[..i];
      var next := ParseSimple(tokens[i]);
      if next.None? {
        NoConditions(tokens, i);
        return None;
      }
      out := out + next.value;
    }
    assert tokens[..|tokens|] == tokens;
    group := if out == [] then None else Some(out);
  }

  lemma {:induction false} NoConditions(tokens: seq<string>, i: nat)
    requires i < |tokens| && ParseSimple(tokens[i]).None?
    ensures Conditions(tokens).None?
    decreases |tokens|
  {
    if i < |tokens| - 1 { NoConditions(tokens[..|tokens| - 1], i); }
  }

  function Groups(parts: seq<string>): Option<Constraint>
    decreases |parts|
  {
    if parts == [] then Some([])
    else
      var part := Trim(parts[|parts| - 1]);
      match (Groups(parts[..|parts| - 1]), if part == "" then None else Group(part))
      case (Some(before), Some(group)) => Some(before + [group])
      case _ => None
  }

  /** `Constraint::parse`. */
  function ParseText(input: string): Option<Constraint> { Groups(SplitOr(input)) }

  method ParseConstraint(input: string) returns (r: Option<Constraint>)
    ensures r == ParseText(input)
  {
    var parts := SplitOr(input);
    var groups: Constraint := [];
    for i := 0 to |parts|
      invariant Groups(parts[..i]) == Some(groups)
    {
      assert parts[..i + 1][..i] == parts[..i];
      var part := Trim(parts[i]);
      var group := None;
      if part != "" { group := ParseGroup(part); }
      if group.None? {
        NoGroups(parts, i);
        return None;
      }
      groups := groups + [group.value];
    }
    assert parts[..|parts|] == parts;
    r := Some(groups);
  }

  lemma {:induction false} NoGroups(parts: seq<string>, i: nat)
    requires i < |parts| && (Trim(parts[i]) == "" || Group(Trim(parts[i])).None?)
    ensures Groups(parts).None?
    decreases |parts|
  {
    hide Trim, Group;
    if i < |parts| - 1 { NoGroups(parts[..|parts| - 1], i); }
  }
}
