/** Versions and their order (version.rs): four numeric parts and a stability. */
module Versions {
  import opened Common
  import Text

  datatype Stability = Dev | Alpha | Beta | Rc | Stable | Patch {
    function Rank(): nat {
      match this
      case Dev => 0
      case Alpha => 1
      case Beta => 2
      case Rc => 3
      case Stable => 4
      case Patch => 5
    }
  }

  type Parts = p: seq<nat> | |p| == 4 witness [0, 0, 0, 0]

  datatype Version = Version(parts: Parts, stability: Stability, pre: nat)

  /** Parts first, then stability, then the pre-release number. */
  function Compare(v: Version, w: Version): Ordering {
    match LexCompare(v.parts, w.parts)
    case Less => Less
    case Greater => Greater
    case Equal =>
      if v.stability != w.stability then CompareInt(v.stability.Rank(), w.stability.Rank())
      else CompareInt(v.pre, w.pre)
  }

  lemma TotalOrder(u: Version, v: Version, w: Version)
    ensures Compare(u, v) == Equal <==> u == v
    ensures Compare(v, u) == Compare(u, v).Reverse()
    ensures Compare(u, v) != Greater && Compare(v, w) != Greater ==> Compare(u, w) != Greater
    ensures Compare(u, v) != Greater && Compare(v, w) == Less ==> Compare(u, w) == Less
    ensures Compare(u, v) == Less && Compare(v, w) != Greater ==> Compare(u, w) == Less
  {
    LexEqual(u.parts, v.parts);
    LexEqual(v.parts, w.parts);
    LexEqual(u.parts, w.parts);
    LexReverse(u.parts, v.parts);
    if LexCompare(u.parts, v.parts) != Greater && LexCompare(v.parts, w.parts) != Greater {
      LexTransitive(u.parts, v.parts, w.parts);
    }
  }

  // ----- parsing --------------------------------------------------------------------------

  predicate IsDigit(c: char) { '0' <= c <= '9' }

  predicate IsBlank(c: char) { c == ' ' || c == '\t' || c == '\n' || c == '\r' }

  function TrimStart(s: string): string {
    if s != "" && IsBlank(s[0]) then TrimStart(s[1..]) else s
  }

  function TrimEnd(s: string): string {
    if s != "" && IsBlank(s[|s| - 1]) then TrimEnd(s[..|s| - 1]) else s
  }

  function Trim(s: string): string { TrimEnd(TrimStart(s)) }

  function StripV(s: string): string {
    if s != "" && (s[0] == 'v' || s[0] == 'V') then s[1..] else s
  }

  /** The longest prefix of digits and dots. */
  function Numeric(s: string): (r: string)
    ensures r <= s
    ensures forall k :: 0 <= k < |r| ==> IsDigit(r[k]) || r[k] == '.'
    ensures |r| < |s| ==> !IsDigit(s[|r|]) && s[|r|] != '.'
  {
    if s != "" && (IsDigit(s[0]) || s[0] == '.') then [s[0]] + Numeric(s[1..]) else ""
  }

  predicate IsMark(c: char) { c == '-' || c == '_' || c == '.' }

  function SkipMarks(s: string): string {
    if s != "" && IsMark(s[0]) then SkipMarks(s[1..]) else s
  }

  function DropMarks(s: string): string {
    if s != "" && IsMark(s[|s| - 1]) then DropMarks(s[..|s| - 1]) else s
  }

  /** Everything before the first digit. */
  function Letters(s: string): (r: string)
    ensures r <= s
  {
    if s != "" && !IsDigit(s[0]) then [s[0]] + Letters(s[1..]) else ""
  }

  function Number(s: string): Option<nat> {
    if s == "" then None
    else if !IsDigit(s[|s| - 1]) then None
    else if |s| == 1 then Some((s[0] - '0') as nat)
    else
      match Number(s[..|s| - 1])
      case None => None
      case Some(n) => Some(10 * n + (s[|s| - 1] - '0') as nat)
  }

  function WordStability(word: string): Option<Stability> {
    if word == "dev" then Some(Dev)
    else if word == "alpha" || word == "a" then Some(Alpha)
    else if word == "beta" || word == "b" then Some(Beta)
    else if word == "rc" then Some(Rc)
    else if word == "patch" || word == "pl" || word == "p" then Some(Patch)
    else if word == "stable" || word == "" then Some(Stable)
    else None
  }

  function ParseStability(suffix: string): Option<(Stability, nat)> {
    if suffix == "" then Some((Stable, 0))
    else
      var lower := Text.ToLower(suffix);
      var letters := Letters(lower);
      var digits := lower[|letters|..];
      var word := DropMarks(letters);
      var stability := WordStability(word);
      if stability.None? then None
      else if digits == "" then Some((stability.value, 0))
      else
        match Number(digits)
        case None => None
        case Some(n) => Some((stability.value, n))
  }

  function ParsePieces(pieces: seq<string>): Option<seq<nat>> {
    if pieces == [] then Some([])
    else
      match (Number(pieces[0]), ParsePieces(pieces[1..]))
      case (Some(n), Some(rest)) => Some([n] + rest)
      case _ => None
  }

  lemma {:induction false} ParsePiecesLength(pieces: seq<string>)
    ensures ParsePieces(pieces).Some? ==> |ParsePieces(pieces).value| == |pieces|
  {
    if pieces != [] { ParsePiecesLength(pieces[1..]); }
  }

  /** Up to four dotted numbers, padded with zeros, and an optional stability suffix. */
  function Parse(input: string): Option<Version> {
    var s := StripV(Trim(input));
    var num := Numeric(s);
    var pieces := Text.Split(num, '.');
    match (ParseStability(SkipMarks(s[|num|..])), ParsePieces(pieces))
    case (Some(st), Some(ns)) =>
      if |ns| > 4 then None
      else Some(Version(seq(4, i requires 0 <= i < 4 => if i < |ns| then ns[i] else 0), st.0, st.1))
    case _ => None
  }
}
