/** The layout of exported PHP values (templates.rs `var_export`), line by line. */
module ExportLayout {
  import opened Common
  import opened PhpExport
  import Text

  // ----- numbers and strings --------------------------------------------------------------------------------

  /** The number digits denote, read from the left. */
  function ValueOf(s: string, before: nat): nat {
    if s == "" then before else if 48 <= s[0] as int <= 57 then ValueOf(s[1..], 10 * before + (s[0] as int - 48)) else 0
  }

  predicate IsNumeral(s: string) {
    s != "" && (forall k :: 0 <= k < |s| ==> 48 <= s[k] as int <= 57) && (s[0] as int == 48 ==> |s| == 1)
  }

  lemma {:induction false} DigitsAre(n: nat, k: string)
    ensures var d := Digits(n, "");
            Digits(n, k) == d + k && (forall i :: 0 <= i < |d| ==> 48 <= d[i] as int <= 57) && d != ""
            && (d[0] as int == 48 ==> n == 0) && (n == 0 ==> |d| == 1) && ValueOf(d + k, 0) == ValueOf(k, n)
  {
    var last := [(48 + n % 10) as char];
    assert last == ['0' + (n % 10) as char];
    assert (last + k)[1..] == k && last + "" == last;
    DigitsThen(n, "", k);
    assert "" + k == k;
    if n < 10 {
      assert ValueOf(last + k, 0) == ValueOf(k, n);
    } else {
      DigitsAre(n / 10, last + k);
      DigitsAre(n / 10, last);
      Glue(Digits(n / 10, ""), last, k);
      assert ValueOf(last + k, n / 10) == ValueOf(k, n);
    }
  }

  /** Integers in decimal, without leading zeros. */
  lemma IntIs(i: int)
    ensures i >= 0 ==> IsNumeral(IntText(i, "")) && ValueOf(IntText(i, ""), 0) == i
    ensures i < 0 ==> IntText(i, "") == "-" + IntText(-i, "")
  {
    if i >= 0 {
      DigitsAre(i, "");
      assert Digits(i, "") + "" == Digits(i, "");
    }
  }

  /** Strings between quotes; a backslash stands before every quote and every backslash, and nowhere else. */
  lemma {:induction false} QuotedIs(plain: string, c: char, rest: string)
    requires forall k :: 0 <= k < |plain| ==> plain[k] as int != 39 && plain[k] as int != 92
    requires c as int == 39 || c as int == 92
    ensures Quoted(plain, "") == "'" + plain + "'"
    ensures exists text :: Quoted(rest, "") == "'" + text + "'" && Quoted(plain + [c] + rest, "") == "'" + plain + ['\\', c] + text + "'"
  {
    hide *;
    QuotedText(rest);
    QuotedText(plain + [c] + rest);
    QuotedText(plain);
    PlainFirst(plain, [c] + rest);
    PlainFirst(plain, "");
    EscapedFirst(c, rest);
    assert plain + "" == plain && plain + ([c] + rest) == plain + [c] + rest;
    var text := Escaped(rest, "");
    assert "'" + (plain + (['\\', c] + text)) + "'" == "'" + plain + ['\\', c] + text + "'";
  }

  lemma QuotedText(s: string)
    ensures Quoted(s, "") == "'" + Escaped(s, "") + "'"
    ensures Escaped("", "") == ""
  {
    EscapedThen(s, "", "'");
    assert "" + "'" == "'" && "'" + "" == "'";
  }

  lemma EscapedFirst(c: char, rest: string)
    requires c as int == 39 || c as int == 92
    ensures Escaped([c] + rest, "") == ['\\', c] + Escaped(rest, "")
  {
    assert ([c] + rest)[1..] == rest;
  }

  lemma {:induction false} PlainFirst(plain: string, rest: string)
    requires forall k :: 0 <= k < |plain| ==> plain[k] as int != 39 && plain[k] as int != 92
    ensures Escaped(plain + rest, "") == plain + Escaped(rest, "")
  {
    if plain == "" {
      assert plain + rest == rest;
    } else {
      assert (plain + rest)[1..] == plain[1..] + rest;
      PlainFirst(plain[1..], rest);
      assert plain == [plain[0]] + plain[1..];
    }
  }

  // ----- lines --------------------------------------------------------------------------------------------------

  function Spaces(n: nat): string { seq(n, i => ' ') }

  function KeyIs(key: PhpKey): string {
    match key
    case IntKey(i) => IntText(i, "")
    case StrKey(s) => Quoted(s, "")
  }

  function Indented(n: nat, lines: seq<string>): seq<string> { seq(|lines|, i requires 0 <= i < |lines| => Spaces(n) + lines[i]) }

  function WithComma(lines: seq<string>): seq<string>
    requires lines != []
  {
    lines[..|lines| - 1] + [lines[|lines| - 1] + ","]
  }

  /** The lines of a value: an array opens on one line and closes on another, with its entries two columns
      further in; an entry is a line, or the line of its key and the lines of an array; each ends in a comma. */
  function Lines(v: PhpVal): (r: seq<string>)
    ensures r != []
  {
    match v
    case Int(i) => [IntText(i, "")]
    case Str(s) => [Quoted(s, "")]
    case Arr(entries) => ["array ("] + Indented(2, EntryLines(entries)) + [")"]
  }

  function EntryLines(entries: Entries): seq<string> {
    match entries
    case Nil => []
    case Cons(key, val, rest) =>
      var value := Lines(val);
      (if val.Arr? then [KeyIs(key) + " => "] + WithComma(value) else [KeyIs(key) + " => " + value[0] + ","]) + EntryLines(rest)
  }

  /** Lines, each ended. */
  function Block(lines: seq<string>): string {
    if lines == [] then "" else lines[0] + "\n" + Block(lines[1..])
  }

  lemma {:induction false} BlockBoth(a: seq<string>, b: seq<string>)
    ensures Block(a + b) == Block(a) + Block(b)
  {
    if a == [] {
      assert a + b == b;
    } else {
      assert (a + b)[1..] == a[1..] + b;
      BlockBoth(a[1..], b);
    }
  }

  lemma {:induction false} JoinIsBlock(lines: seq<string>)
    requires lines != []
    ensures Text.Join(lines, '\n') == Block(lines[..|lines| - 1]) + lines[|lines| - 1]
  {
    if |lines| > 1 {
      JoinIsBlock(lines[1..]);
      assert lines[..|lines| - 1][1..] == lines[1..][..|lines| - 2];
      assert lines[1..][|lines| - 2] == lines[|lines| - 1];
      assert ['\n'] == "\n";
    } else {
      assert lines[..0] == [];
    }
  }

  lemma {:induction false} PadIs(n: nat, k: string)
    ensures Pad(n, k) == Spaces(n) + k
  {
    if n > 0 {
      PadIs(n - 1, k);
      assert Spaces(n) == " " + Spaces(n - 1);
    } else {
      assert Spaces(0) == "";
    }
  }

  lemma IndentedBoth(n: nat, a: seq<string>, b: seq<string>)
    ensures Indented(n, a + b) == Indented(n, a) + Indented(n, b)
  {
  }

  lemma IndentedTwice(n: nat, m: nat, lines: seq<string>)
    ensures Indented(n, Indented(m, lines)) == Indented(n + m, lines)
  {
    assert Spaces(n) + Spaces(m) == Spaces(n + m);
    forall i | 0 <= i < |lines| ensures Spaces(n) + (Spaces(m) + lines[i]) == Spaces(n + m) + lines[i] {
      Glue(Spaces(n), Spaces(m), lines[i]);
    }
  }

  /** Lines at a cursor that stands at column `n`: all but the first are indented. */
  function AtColumn(n: nat, lines: seq<string>): string
    requires lines != []
  {
    Text.Join([lines[0]] + Indented(n, lines[1..]), '\n')
  }

  lemma ColumnBlock(n: nat, lines: seq<string>)
    requires lines != []
    ensures Spaces(n) + AtColumn(n, lines) + ",\n" == Block(Indented(n, WithComma(lines)))
  {
    var all := Indented(n, lines);
    var m := |lines| - 1;
    IndentedEnds(n, lines);
    hide *;
    var at := [lines[0]] + all[1..];
    ColumnIs(n, lines);
    JoinIsBlock(at);
    BlockBoth(all[..m], [all[m] + ","]);
    LastLine(all[m] + ",");
    if m > 0 {
      FirstLine(lines[0], all[1..m]);
      FirstLine(all[0], all[1..m]);
      assert at[..m] == [lines[0]] + all[1..m] && all[..m] == [all[0]] + all[1..m] && at[m] == all[m];
      ColumnText(Spaces(n), lines[0], Block(all[1..m]), all[m]);
    } else {
      assert at[..0] == [] && all[..0] == [];
      NoLines();
      assert Spaces(n) + ("" + lines[0]) + ",\n" == "" + (all[0] + "," + "\n");
    }
  }

  lemma NoLines()
    ensures Block([]) == ""
  {
  }

  lemma LastLine(line: string)
    ensures Block([line]) == line + "\n"
  {
    assert [line][1..] == [];
  }

  lemma FirstLine(line: string, rest: seq<string>)
    ensures Block([line] + rest) == line + "\n" + Block(rest)
  {
    assert ([line] + rest)[1..] == rest;
  }

  lemma ColumnText(pad: string, first: string, middle: string, last: string)
    ensures pad + (first + "\n" + middle + last) + ",\n" == (pad + first) + "\n" + middle + (last + "," + "\n")
  {
  }

  lemma ColumnIs(n: nat, lines: seq<string>)
    requires lines != [] && Indented(n, lines)[1..] == Indented(n, lines[1..])
    ensures AtColumn(n, lines) == Text.Join([lines[0]] + Indented(n, lines)[1..], '\n')
  {
    hide Indented;
  }

  lemma IndentedEnds(n: nat, lines: seq<string>)
    requires lines != []
    ensures var all, m := Indented(n, lines), |lines| - 1;
            && |all| == |lines| && all[1..] == Indented(n, lines[1..]) && all[0] == Spaces(n) + lines[0]
            && Indented(n, WithComma(lines)) == all[..m] + [all[m] + ","]
  {
    Glue(Spaces(n), lines[|lines| - 1], ",");
  }

  /** The text of a value is its lines. */
  lemma {:induction false} ExportIs(v: PhpVal, indent: nat)
    ensures Export(v, indent, "") == AtColumn(indent, Lines(v))
    decreases v
  {
    match v
    case Int(i) =>
      assert Lines(v)[1..] == [];
    case Str(s) =>
      assert Lines(v)[1..] == [];
    case Arr(entries) =>
      var body := EntryLines(entries);
      EntriesAre(entries, indent, Pad(indent, ")" + ""));
      PadIs(indent, ")" + "");
      ArrayLines(indent, body);
      hide EntryLines, ExportEntries, Indented, Block;
      assert ")" + "" == ")";
  }

  lemma ArrayLines(indent: nat, body: seq<string>)
    ensures AtColumn(indent, ["array ("] + Indented(2, body) + [")"]) ==
            "array (\n" + (Block(Indented(indent + 2, body)) + (Spaces(indent) + ")"))
  {
    var lines := ["array ("] + Indented(2, body) + [")"];
    var inner := Indented(indent + 2, body);
    assert lines[1..] == Indented(2, body) + [")"];
    IndentedBoth(indent, Indented(2, body), [")"]);
    IndentedTwice(indent, 2, body);
    assert Indented(indent, [")"]) == [Spaces(indent) + ")"];
    hide Indented, Spaces;
    var at := ["array ("] + (inner + [Spaces(indent) + ")"]);
    JoinIsBlock(at);
    assert at[..|at| - 1] == ["array ("] + inner;
    BlockBoth(["array ("], inner);
    assert ["array ("][1..] == [];
    assert "array (" + "\n" == "array (\n";
    Glue("array (\n", Block(inner), Spaces(indent) + ")");
  }

  lemma {:induction false} EntriesAre(entries: Entries, indent: nat, k: string)
    ensures ExportEntries(entries, indent, k) == Block(Indented(indent + 2, EntryLines(entries))) + k
    decreases entries
  {
    hide *;
    if entries.Nil? {
      NoEntry(indent, k);
    } else {
      var Cons(key, val, rest) := entries;
      EntriesAre(rest, indent, k);
      ExportIs(val, indent + 2);
      FirstField(entries, indent, k);
      FieldIs(key, val, indent + 2);
      EntryLinesStep(key, val, rest);
      IndentedBoth(indent + 2, FieldLines(key, val), EntryLines(rest));
      BlockBoth(Indented(indent + 2, FieldLines(key, val)), Indented(indent + 2, EntryLines(rest)));
      EntryThen(Field(key, val, indent), Block(Indented(indent + 2, EntryLines(rest))), k);
    }
  }

  lemma NoEntry(indent: nat, k: string)
    ensures ExportEntries(Nil, indent, k) == Block(Indented(indent + 2, EntryLines(Nil))) + k
  {
  }

  lemma EntryThen(field: string, more: string, k: string)
    ensures field + ("," + ("\n" + (more + k))) == (field + ",\n" + more) + k
  {
  }

  /** The lines of one entry. */
  function FieldLines(key: PhpKey, val: PhpVal): seq<string> {
    var value := Lines(val);
    if val.Arr? then [KeyIs(key) + " => "] + WithComma(value) else [KeyIs(key) + " => " + value[0] + ","]
  }

  lemma EntryLinesStep(key: PhpKey, val: PhpVal, rest: Entries)
    ensures EntryLines(Cons(key, val, rest)) == FieldLines(key, val) + EntryLines(rest)
  {
    hide Lines, WithComma, KeyIs;
  }

  lemma KeyIsText(key: PhpKey, k: string)
    ensures KeyText(key, k) == KeyIs(key) + k
  {
    KeyThen(key, k);
  }

  lemma FieldIs(key: PhpKey, val: PhpVal, n: nat)
    requires n >= 2 && Export(val, n, "") == AtColumn(n, Lines(val))
    ensures Field(key, val, n - 2) + ",\n" == Block(Indented(n, FieldLines(key, val)))
  {
    hide *;
    var value := Export(val, n, "");
    FieldUnfolds(key, val, n);
    PadIs(n, value);
    var spaced := if val.Arr? then "\n" + Pad(n, value) else value;
    KeyIsText(key, " => " + spaced);
    PadIs(n, KeyText(key, " => " + spaced));
    FieldLinesOf(key, val);
    var pad, head := Spaces(n), KeyIs(key) + " => ";
    if val.Arr? {
      ColumnBlock(n, Lines(val));
      ArrayField(n, head, Lines(val));
      ArrayText(pad, KeyIs(key), value);
    } else {
      ScalarLine(val, n);
      OneLine(n, head + value + ",");
      ScalarText(pad, KeyIs(key), value);
    }
  }

  lemma ArrayText(pad: string, key: string, value: string)
    ensures pad + (key + (" => " + ("\n" + (pad + value)))) + ",\n" == pad + (key + " => ") + "\n" + (pad + value + ",\n")
  {
  }

  lemma ScalarText(pad: string, key: string, value: string)
    ensures pad + (key + (" => " + value)) + ",\n" == pad + (key + " => " + value + ",") + "\n"
  {
  }

  lemma FieldUnfolds(key: PhpKey, val: PhpVal, n: nat)
    requires n >= 2
    ensures var value := Export(val, n, "");
            Field(key, val, n - 2) == Pad(n, KeyText(key, " => " + if val.Arr? then "\n" + Pad(n, value) else value))
  {
  }

  lemma FieldLinesOf(key: PhpKey, val: PhpVal)
    ensures FieldLines(key, val) ==
            if val.Arr? then [KeyIs(key) + " => "] + WithComma(Lines(val)) else [KeyIs(key) + " => " + Lines(val)[0] + ","]
  {
  }

  lemma OneLine(n: nat, line: string)
    ensures Block(Indented(n, [line])) == Spaces(n) + line + "\n"
  {
    assert Indented(n, [line]) == [Spaces(n) + line];
    assert [Spaces(n) + line][1..] == [];
  }

  lemma ArrayField(n: nat, head: string, lines: seq<string>)
    requires lines != []
    ensures Block(Indented(n, [head] + WithComma(lines))) == Spaces(n) + head + "\n" + Block(Indented(n, WithComma(lines)))
  {
    IndentedBoth(n, [head], WithComma(lines));
    OneLine(n, head);
    BlockBoth(Indented(n, [head]), Indented(n, WithComma(lines)));
  }

  lemma ScalarLine(val: PhpVal, n: nat)
    requires !val.Arr?
    ensures Lines(val)[0] == AtColumn(n, Lines(val))
  {
    assert Lines(val)[1..] == [];
  }

  /** At the outermost level the text is just the lines. */
  lemma WholeText(v: PhpVal)
    ensures Export(v, 0, "") == Text.Join(Lines(v), '\n')
  {
    ExportIs(v, 0);
    var lines := Lines(v);
    forall i | 0 <= i < |lines[1..]| ensures Spaces(0) + lines[1..][i] == lines[1..][i] { assert Spaces(0) == ""; }
    assert Indented(0, lines[1..]) == lines[1..];
    assert [lines[0]] + lines[1..] == lines;
  }
}
