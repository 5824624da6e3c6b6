/** PHP literals written into the generated autoloader (templates.rs `var_export`, pathutil.rs
    `php_str_bytes`), and a reader for them. A `char` stands for one byte. */
module PhpExport {
  import opened Common

  datatype PhpKey = IntKey(i: int) | StrKey(s: string)

  /** A PHP array is a list of entries in insertion order. */
  datatype PhpVal = Int(i: int) | Str(s: string) | Arr(entries: Entries)

  datatype Entries = Nil | Cons(key: PhpKey, val: PhpVal, rest: Entries)

  // ----- the text of a value, followed by `k` ---------------------------------------------

  function Digits(n: nat, k: string): string {
    var d := ['0' + (n % 10) as char];
    if n < 10 then d + k else Digits(n / 10, d + k)
  }

  function IntText(i: int, k: string): string {
    if i < 0 then "-" + Digits(-i, k) else Digits(i, k)
  }

  /** The body of a single-quoted string: only quote and backslash are escaped. */
  function Escaped(s: string, k: string): string {
    if s == "" then k
    else if s[0] == '\'' || s[0] == '\\' then ['\\', s[0]] + Escaped(s[1..], k)
    else [s[0]] + Escaped(s[1..], k)
  }

  function Quoted(s: string, k: string): string { "'" + Escaped(s, "'" + k) }

  function Pad(indent: nat, k: string): string {
    if indent == 0 then k else " " + Pad(indent - 1, k)
  }

  function KeyText(key: PhpKey, k: string): string {
    match key
    case IntKey(i) => IntText(i, k)
    case StrKey(s) => Quoted(s, k)
  }

  function Export(v: PhpVal, indent: nat, k: string): string {
    match v
    case Int(i) => IntText(i, k)
    case Str(s) => Quoted(s, k)
    case Arr(entries) => "array (\n" + ExportEntries(entries, indent, Pad(indent, ")" + k))
  }

  /** One line per entry; a nested array starts on a line of its own, at the key's indentation. */
  function ExportEntries(entries: Entries, indent: nat, k: string): string {
    match entries
    case Nil => k
    case Cons(key, val, rest) =>
      var value := Export(val, indent + 2, "," + ("\n" + ExportEntries(rest, indent, k)));
      Pad(indent + 2, KeyText(key, " => " + if val.Arr? then "\n" + Pad(indent + 2, value) else value))
  }

  // ----- the reader: PHP's own grammar for these literals, blind to the layout -------------

  predicate IsSpace(c: char) { c == ' ' || c == '\n' || c == '\t' || c == '\r' }

  predicate IsDigit(c: char) { '0' <= c <= '9' }

  function SkipSpace(s: string): (r: string)
    ensures |r| <= |s|
  {
    if s != "" && IsSpace(s[0]) then SkipSpace(s[1..]) else s
  }

  function ReadDigits(s: string, n: nat): (r: (nat, string))
    ensures |r.1| <= |s|
  {
    if s != "" && IsDigit(s[0]) then ReadDigits(s[1..], 10 * n + (s[0] - '0') as nat) else (n, s)
  }

  function ReadInt(s: string): (r: Option<(int, string)>)
    ensures r.Some? ==> |r.value.1| < |s|
  {
    if s == "" then None
    else if IsDigit(s[0]) then
      var r := ReadDigits(s[1..], (s[0] - '0') as nat);
      Some((r.0, r.1))
    else if s[0] == '-' && |s| > 1 && IsDigit(s[1]) then
      var r := ReadDigits(s[2..], (s[1] - '0') as nat);
      var magnitude: int := r.0;
      Some((-magnitude, r.1))
    else None
  }

  /** Inside single quotes a backslash escapes a quote or a backslash, and is itself otherwise. */
  function ReadQuoted(s: string): (r: Option<(string, string)>)
    ensures r.Some? ==> |r.value.1| < |s|
  {
    if s == "" then None
    else if s[0] == '\'' then Some(("", s[1..]))
    else
      var escape := s[0] == '\\' && |s| > 1 && (s[1] == '\'' || s[1] == '\\');
      var n := if escape then 2 else 1;
      match ReadQuoted(s[n..])
      case None => None
      case Some(r) => Some(([s[n - 1]] + r.0, r.1))
  }

  function ReadKey(s: string): (r: Option<(PhpKey, string)>)
    ensures r.Some? ==> |r.value.1| < |s|
  {
    if s != "" && s[0] == '\'' then
      match ReadQuoted(s[1..])
      case None => None
      case Some(r) => Some((StrKey(r.0), r.1))
    else
      match ReadInt(s)
      case None => None
      case Some(r) => Some((IntKey(r.0), r.1))
  }

  /** `array` and an opening parenthesis. */
  function ReadArrayOpen(s: string): (r: Option<string>)
    ensures r.Some? ==> |r.value| < |s|
  {
    if |s| >= 5 && s[0] == 'a' && s[1] == 'r' && s[2] == 'r' && s[3] == 'a' && s[4] == 'y' then
      var t := SkipSpace(s[5..]);
      if t != "" && t[0] == '(' then Some(t[1..]) else None
    else None
  }

  function ReadArrow(s: string): (r: Option<string>)
    ensures r.Some? ==> |r.value| < |s|
  {
    var t := SkipSpace(s);
    if |t| >= 2 && t[0] == '=' && t[1] == '>' then Some(t[2..]) else None
  }

  function ReadVal(s: string): (r: Option<(PhpVal, string)>)
    ensures r.Some? ==> |r.value.1| < |s|
    decreases |s|, 1
  {
    var t := SkipSpace(s);
    if t != "" && t[0] == '\'' then
      match ReadQuoted(t[1..])
      case None => None
      case Some(r) => Some((Str(r.0), r.1))
    else
      match ReadArrayOpen(t)
      case Some(u) =>
        (match ReadEntries(u)
         case None => None
         case Some(r) => Some((Arr(r.0), r.1)))
      case None =>
        match ReadInt(t)
        case None => None
        case Some(r) => Some((Int(r.0), r.1))
  }

  function ReadEntries(s: string): (r: Option<(Entries, string)>)
    ensures r.Some? ==> |r.value.1| < |s|
    decreases |s|, 0
  {
    var t := SkipSpace(s);
    if t != "" && t[0] == ')' then Some((Nil, t[1..]))
    else
      match ReadKey(t)
      case None => None
      case Some(key) =>
        match ReadArrow(key.1)
        case None => None
        case Some(u) =>
          match ReadVal(u)
          case None => None
          case Some(val) =>
            var w := SkipSpace(val.1);
            if w != "" && w[0] == ')' then Some((Cons(key.0, val.0, Nil), w[1..]))
            else if w != "" && w[0] == ',' then
              match ReadEntries(w[1..])
              case None => None
              case Some(rest) => Some((Cons(key.0, val.0, rest.0), rest.1))
            else None
  }

  // ----- reading back ---------------------------------------------------------------------

  predicate NoDigit(k: string) { k == "" || !IsDigit(k[0]) }

  lemma {:induction false} DigitsReadBack(n: nat, k: string)
    ensures Digits(n, k) != "" && IsDigit(Digits(n, k)[0])
    ensures ReadDigits(Digits(n, k), 0) == ReadDigits(k, n)
  {
    var d := ['0' + (n % 10) as char];
    assert (d + k)[1..] == k;
    if n >= 10 { DigitsReadBack(n / 10, d + k); }
  }

  lemma IntReadBack(i: int, k: string)
    requires NoDigit(k)
    ensures ReadInt(IntText(i, k)) == Some((i, k))
  {
    DigitsReadBack(if i < 0 then -i else i, k);
    var t := Digits(if i < 0 then -i else i, k);
    if i < 0 { assert ("-" + t)[1] == t[0] && ("-" + t)[2..] == t[1..]; }
  }

  lemma {:induction false} QuotedReadBack(s: string, k: string)
    ensures ReadQuoted(Escaped(s, "'" + k)) == Some((s, k))
  {
    if s == "" {
      assert ("'" + k)[1..] == k;
    } else {
      QuotedReadBack(s[1..], k);
      var t := Escaped(s[1..], "'" + k);
      assert s == [s[0]] + s[1..];
      if s[0] == '\'' || s[0] == '\\' {
        assert (['\\', s[0]] + t)[2..] == t;
      } else {
        assert ([s[0]] + t)[1..] == t;
      }
    }
  }

  lemma {:induction false} PadSkipped(indent: nat, k: string)
    ensures SkipSpace(Pad(indent, k)) == SkipSpace(k)
  {
    if indent > 0 {
      assert (" " + Pad(indent - 1, k))[1..] == Pad(indent - 1, k);
      PadSkipped(indent - 1, k);
    }
  }

  lemma KeyReadBack(key: PhpKey, k: string)
    requires NoDigit(k)
    ensures KeyText(key, k) != "" && KeyText(key, k)[0] != ')'
    ensures SkipSpace(KeyText(key, k)) == KeyText(key, k)
    ensures ReadKey(KeyText(key, k)) == Some((key, k))
  {
    match key
    case IntKey(i) =>
      IntReadBack(i, k);
      IntStarts(i, k);
    case StrKey(s) =>
      QuotedReadBack(s, k);
      QuotedStarts(s, k);
  }

  lemma IntStarts(i: int, k: string)
    ensures IntText(i, k) != "" && (IntText(i, k)[0] == '-' || IsDigit(IntText(i, k)[0]))
  {
    DigitsReadBack(if i < 0 then -i else i, k);
  }

  lemma QuotedStarts(s: string, k: string)
    ensures Quoted(s, k)[0] == '\'' && Quoted(s, k)[1..] == Escaped(s, "'" + k)
  {
  }

  lemma ArrowReadBack(k: string)
    ensures ReadArrow(" => " + k) == Some(" " + k)
  {
    var t := "=> " + k;
    assert (" => " + k)[1..] == t;
    assert SkipSpace(" => " + k) == SkipSpace(t) == t;
    assert t[2..] == " " + k;
  }

  lemma SpaceSkipped(c: char, k: string)
    requires IsSpace(c)
    ensures SkipSpace([c] + k) == SkipSpace(k)
  {
    assert ([c] + k)[1..] == k;
  }

  lemma ArrayOpenReadBack(k: string)
    ensures SkipSpace("array (\n" + k) == "array (\n" + k
    ensures ReadArrayOpen("array (\n" + k) == Some("\n" + k)
  {
    var s := "array (\n" + k;
    var t := "(\n" + k;
    assert s[5..] == " " + t;
    SpaceSkipped(' ', t);
    assert SkipSpace(s[5..]) == SkipSpace(t) == t;
    assert t[1..] == "\n" + k;
  }

  /** Reading an exported value back gives the value and what follows it, at every indent. */
  lemma {:induction false} ReadBack(v: PhpVal, indent: nat, k: string)
    requires NoDigit(k)
    ensures ReadVal(Export(v, indent, k)) == Some((v, k))
    decreases v
  {
    match v
    case Int(i) =>
      IntReadBack(i, k);
      IntStarts(i, k);
    case Str(s) =>
      QuotedReadBack(s, k);
      QuotedStarts(s, k);
    case Arr(entries) =>
      var body := ExportEntries(entries, indent, Pad(indent, ")" + k));
      ArrayOpenReadBack(body);
      EntriesReadBack(entries, indent, k);
      SameAfterSpace("\n" + body, body);
  }

  lemma SameAfterSpace(s: string, t: string)
    requires s == "\n" + t
    ensures ReadEntries(s) == ReadEntries(t)
  {
    SpaceSkipped('\n', t);
  }

  lemma {:induction false} EntriesReadBack(entries: Entries, indent: nat, k: string)
    ensures ReadEntries(ExportEntries(entries, indent, Pad(indent, ")" + k))) == Some((entries, k))
    decreases entries
  {
    var end := Pad(indent, ")" + k);
    match entries
    case Nil =>
      PadSkipped(indent, ")" + k);
      assert (")" + k)[1..] == k;
    case Cons(key, val, rest) =>
      var more := ExportEntries(rest, indent, end);
      var value := Export(val, indent + 2, "," + ("\n" + more));
      var spaced := if val.Arr? then "\n" + Pad(indent + 2, value) else value;
      ReadBack(val, indent + 2, "," + ("\n" + more));
      EntriesReadBack(rest, indent, k);
      ValueAfterSpace(val, value, spaced, indent);
      SameAfterSpace("\n" + more, more);
      FieldReadBack(key, spaced, indent + 2);
      OneEntry(Pad(indent + 2, KeyText(key, " => " + spaced)), key, " => " + spaced, " " + spaced, val, "\n" + more, rest, k);
  }

  lemma FieldReadBack(key: PhpKey, spaced: string, indent: nat)
    ensures var s := SkipSpace(Pad(indent, KeyText(key, " => " + spaced)));
            s != "" && s[0] != ')' && ReadKey(s) == Some((key, " => " + spaced))
    ensures ReadArrow(" => " + spaced) == Some(" " + spaced)
  {
    PadSkipped(indent, KeyText(key, " => " + spaced));
    KeyReadBack(key, " => " + spaced);
    ArrowReadBack(spaced);
  }

  /** The reader on one entry, given what it makes of the entry's pieces. */
  lemma OneEntry(s: string, key: PhpKey, afterKey: string, afterArrow: string, val: PhpVal, more: string, rest: Entries, k: string)
    requires SkipSpace(s) != "" && SkipSpace(s)[0] != ')'
    requires ReadKey(SkipSpace(s)) == Some((key, afterKey)) && ReadArrow(afterKey) == Some(afterArrow)
    requires ReadVal(afterArrow) == Some((val, "," + more)) && ReadEntries(more) == Some((rest, k))
    ensures ReadEntries(s) == Some((Cons(key, val, rest), k))
  {
    assert ("," + more)[1..] == more;
    assert SkipSpace("," + more) == "," + more;
  }

  lemma ValueAfterSpace(val: PhpVal, value: string, spaced: string, indent: nat)
    requires spaced == if val.Arr? then "\n" + Pad(indent + 2, value) else value
    ensures ReadVal(" " + spaced) == ReadVal(value)
  {
    SpaceSkipped(' ', spaced);
    if val.Arr? {
      SpaceSkipped('\n', Pad(indent + 2, value));
      PadSkipped(indent + 2, value);
    }
  }

  /** No two values have the same text. */
  lemma ExportIsInjective(v: PhpVal, w: PhpVal, indent: nat, indent': nat)
    requires Export(v, indent, "") == Export(w, indent', "")
    ensures v == w
  {
    ReadBack(v, indent, "");
    ReadBack(w, indent', "");
  }

  // ----- the buffers ----------------------------------------------------------------------

  lemma {:induction false} DigitsThen(n: nat, j: string, k: string)
    ensures Digits(n, j + k) == Digits(n, j) + k
  {
    var d := ['0' + (n % 10) as char];
    Glue(d, j, k);
    if n >= 10 { DigitsThen(n / 10, d + j, k); }
  }

  lemma IntThen(i: int, k: string)
    ensures IntText(i, k) == IntText(i, "") + k
  {
    DigitsThen(if i < 0 then -i else i, "", k);
    assert "" + k == k;
    if i < 0 { Glue("-", Digits(-i, ""), k); }
  }

  lemma {:induction false} EscapedThen(s: string, j: string, k: string)
    ensures Escaped(s, j + k) == Escaped(s, j) + k
  {
    if s != "" {
      EscapedThen(s[1..], j, k);
      Glue(['\\', s[0]], Escaped(s[1..], j), k);
      Glue([s[0]], Escaped(s[1..], j), k);
    }
  }

  lemma QuotedThen(s: string, k: string)
    ensures Quoted(s, k) == Quoted(s, "") + k
  {
    assert "'" + "" == "'";
    EscapedThen(s, "'", k);
    Glue("'", Escaped(s, "'"), k);
  }

  lemma KeyThen(key: PhpKey, k: string)
    ensures KeyText(key, k) == KeyText(key, "") + k
  {
    match key
    case IntKey(i) => IntThen(i, k);
    case StrKey(s) => QuotedThen(s, k);
  }

  lemma {:induction false} PadThen(n: nat, k: string)
    ensures Pad(n, k) == Pad(n, "") + k
  {
    if n > 0 {
      PadThen(n - 1, k);
      Glue(" ", Pad(n - 1, ""), k);
    }
  }

  lemma {:induction false} PadTwice(n: nat, k: string)
    ensures Pad(n + 2, k) == Pad(n, "") + ("  " + k)
  {
    if n > 0 {
      PadTwice(n - 1, k);
      Glue(" ", Pad(n - 1, ""), "  " + k);
    } else {
      assert Pad(2, k) == " " + Pad(1, k) && Pad(1, k) == " " + Pad(0, k);
      assert " " + (" " + k) == "" + ("  " + k);
    }
  }

  lemma {:induction false} ExportThen(v: PhpVal, indent: nat, k: string)
    ensures Export(v, indent, k) == Export(v, indent, "") + k
    decreases v, 0
  {
    match v
    case Int(i) => IntThen(i, k);
    case Str(s) => QuotedThen(s, k);
    case Arr(entries) =>
      PadThen(indent, ")" + k);
      PadThen(indent, ")");
      Glue(Pad(indent, ""), ")", k);
      EntriesThen(entries, indent, Pad(indent, ")"), k);
      Glue("array (\n", ExportEntries(entries, indent, Pad(indent, ")")), k);
      assert ")" + "" == ")";
  }

  /** The text of one entry. */
  function Field(key: PhpKey, val: PhpVal, indent: nat): string {
    var value := Export(val, indent + 2, "");
    Pad(indent + 2, KeyText(key, " => " + if val.Arr? then "\n" + Pad(indent + 2, value) else value))
  }

  lemma {:induction false} EntriesThen(entries: Entries, indent: nat, j: string, k: string)
    ensures ExportEntries(entries, indent, j + k) == ExportEntries(entries, indent, j) + k
    decreases entries
  {
    if entries.Cons? {
      var Cons(key, val, rest) := entries;
      EntriesThen(rest, indent, j, k);
      var r := ExportEntries(rest, indent, j);
      FieldThen(key, val, indent, "," + ("\n" + r));
      FieldThen(key, val, indent, "," + ("\n" + (r + k)));
      Glue("\n", r, k);
      Glue(",", "\n" + r, k);
      Glue(Field(key, val, indent), "," + ("\n" + r), k);
    }
  }

  lemma {:induction false} FieldThen(key: PhpKey, val: PhpVal, indent: nat, k: string)
    ensures var value := Export(val, indent + 2, k);
            Pad(indent + 2, KeyText(key, " => " + if val.Arr? then "\n" + Pad(indent + 2, value) else value)) ==
            Field(key, val, indent) + k
    decreases val, 1
  {
    ExportThen(val, indent + 2, k);
    var value, value' := Export(val, indent + 2, ""), Export(val, indent + 2, k);
    PadThen(indent + 2, value);
    PadThen(indent + 2, value');
    Glue(Pad(indent + 2, ""), value, k);
    Glue("\n", Pad(indent + 2, value), k);
    var spaced := if val.Arr? then "\n" + Pad(indent + 2, value) else value;
    Glue(" => ", spaced, k);
    KeyThen(key, " => " + spaced);
    KeyThen(key, " => " + (spaced + k));
    Glue(KeyText(key, ""), " => " + spaced, k);
    PadThen(indent + 2, KeyText(key, " => " + spaced));
    PadThen(indent + 2, KeyText(key, " => " + spaced) + k);
    Glue(Pad(indent + 2, ""), KeyText(key, " => " + spaced), k);
  }

  method PhpStrBytes(s: string) returns (out: string)
    ensures out == Quoted(s, "")
  {
    out := "'";
    assert s[0..] == s && "'" + "" == "'";
    for i := 0 to |s|
      invariant out + Escaped(s[i..], "'") == Quoted(s, "")
    {
      var rest := s[i + 1..];
      assert s[i..][1..] == rest;
      if s[i] == '\'' || s[i] == '\\' {
        Glue(out, ['\\', s[i]], Escaped(rest, "'"));
        out := out + ['\\', s[i]];
      } else {
        Glue(out, [s[i]], Escaped(rest, "'"));
        out := out + [s[i]];
      }
    }
    out := out + "'";
  }

  /** `var_export`: whatever follows the text, reading it gives the value back. */
  method VarExport(v: PhpVal, indent: nat) returns (out: string)
    ensures out == Export(v, indent, "")
    ensures forall k :: NoDigit(k) ==> ReadVal(out + k) == Some((v, k))
    decreases v
  {
    match v {
      case Int(i) =>
        out := IntText(i, "");
      case Str(s) =>
        out := PhpStrBytes(s);
      case Arr(entries) =>
        out := ExportArray(entries, indent);
    }
    forall k | NoDigit(k)
      ensures ReadVal(out + k) == Some((v, k))
    {
      ExportThen(v, indent, k);
      ReadBack(v, indent, k);
    }
  }

  lemma FieldText(key: PhpKey, val: PhpVal, indent: nat)
    ensures var text := Export(val, indent + 2, "");
            var pad := Pad(indent, "");
            Field(key, val, indent) ==
            pad + ("  " + (KeyText(key, "") + (" => " + if val.Arr? then "\n" + (pad + ("  " + text)) else text)))
  {
    var text := Export(val, indent + 2, "");
    PadTwice(indent, text);
    var spaced := if val.Arr? then "\n" + Pad(indent + 2, text) else text;
    KeyThen(key, " => " + spaced);
    PadTwice(indent, KeyText(key, " => " + spaced));
  }

  lemma FirstField(todo: Entries, indent: nat, end: string)
    requires todo.Cons?
    ensures ExportEntries(todo, indent, end) ==
            Field(todo.key, todo.val, indent) + ("," + ("\n" + ExportEntries(todo.rest, indent, end)))
  {
    hide Export, Pad, KeyText, Field;
    FieldThen(todo.key, todo.val, indent, "," + ("\n" + ExportEntries(todo.rest, indent, end)));
  }

  lemma NextField(out: string, todo: Entries, indent: nat, end: string)
    requires todo.Cons?
    ensures out + ExportEntries(todo, indent, end) ==
            out + Field(todo.key, todo.val, indent) + ",\n" + ExportEntries(todo.rest, indent, end)
  {
    hide *;
    var field, rest := Field(todo.key, todo.val, indent), ExportEntries(todo.rest, indent, end);
    FirstField(todo, indent, end);
    assert "," + ("\n" + rest) == ",\n" + rest;
    Glue(out, field, ",\n" + rest);
    Glue(out + field, ",\n", rest);
  }

  method ExportArray(entries: Entries, indent: nat) returns (out: string)
    ensures out == Export(Arr(entries), indent, "")
    decreases entries, 1
  {
    var pad := Pad(indent, "");
    out := "array (\n";
    var todo := entries;
    ghost var end := Pad(indent, ")");
    while todo.Cons?
      invariant todo == entries || todo < entries
      invariant out + ExportEntries(todo, indent, end) == "array (\n" + ExportEntries(entries, indent, end)
      decreases todo
    {
      var key, val := todo.key, todo.val;
      var text := VarExport(val, indent + 2);
      FieldText(key, val, indent);
      NextField(out, todo, indent, end);
      out := out + (pad + ("  " + (KeyText(key, "") + (" => " + if val.Arr? then "\n" + (pad + ("  " + text)) else text))));
      out := out + ",\n";
      todo := todo.rest;
    }
    PadThen(indent, ")");
    out := out + (pad + ")");
    assert ")" + "" == ")";
  }
}
