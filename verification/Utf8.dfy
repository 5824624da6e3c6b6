/** UTF-8 (section 3 of RFC 3629), told from the encoder: which bytes a reader of the cache file takes for
    text, and what the first character of a namespace is. */
module Utf8 {
  import opened Common
  import Cache = ClassMapCache
  import opened StaticCompiler

  /** A Unicode scalar value. */
  type Scalar = n: int | 0 <= n < 0xD800 || 0xE000 <= n < 0x110000

  /** The bytes of a character: seven bits in one, or six in every byte but the first. */
  function Encoded(n: Scalar): seq<Byte> {
    if n < 0x80 then [n]
    else if n < 0x800 then [0xC0 + n / 64, 0x80 + n % 64]
    else if n < 0x10000 then [0xE0 + n / 4096, 0x80 + n / 64 % 64, 0x80 + n % 64]
    else [0xF0 + n / 262144, 0x80 + n / 4096 % 64, 0x80 + n / 64 % 64, 0x80 + n % 64]
  }

  function AllEncoded(text: seq<Scalar>): seq<Byte> {
    if text == [] then [] else Encoded(text[0]) + AllEncoded(text[1..])
  }

  /** Two bytes are a character when it needs two, and so on. */
  lemma TwoBytes(a: int, b: int) returns (n: Scalar)
    requires 0xC2 <= a <= 0xDF && 0x80 <= b <= 0xBF
    ensures Encoded(n) == [a, b]
  {
    n := (a - 0xC0) * 64 + (b - 0x80);
    assert n / 64 == a - 0xC0 && n % 64 == b - 0x80;
  }

  lemma ThreeBytes(a: int, b: int, c: int) returns (n: Scalar)
    requires 0xE0 <= a <= 0xEF && 0x80 <= b <= 0xBF && 0x80 <= c <= 0xBF
    requires (a == 0xE0 ==> b >= 0xA0) && (a == 0xED ==> b <= 0x9F)
    ensures Encoded(n) == [a, b, c]
  {
    var m := (a - 0xE0) * 64 + (b - 0x80);
    n := m * 64 + (c - 0x80);
    assert n / 64 == m && n % 64 == c - 0x80 && m / 64 == a - 0xE0 && m % 64 == b - 0x80;
    assert n / 4096 == m / 64;
  }

  lemma FourBytes(a: int, b: int, c: int, d: int) returns (n: Scalar)
    requires 0xF0 <= a <= 0xF4 && 0x80 <= b <= 0xBF && 0x80 <= c <= 0xBF && 0x80 <= d <= 0xBF
    requires (a == 0xF0 ==> b >= 0x90) && (a == 0xF4 ==> b <= 0x8F)
    ensures Encoded(n) == [a, b, c, d]
  {
    var l := (a - 0xF0) * 64 + (b - 0x80);
    var m := l * 64 + (c - 0x80);
    n := m * 64 + (d - 0x80);
    assert n / 64 == m && n % 64 == d - 0x80 && m / 64 == l && m % 64 == c - 0x80 && l / 64 == a - 0xF0 && l % 64 == b - 0x80;
    assert n / 4096 == m / 64 && n / 262144 == n / 4096 / 64;
  }

  /** A character in front of text makes text. */
  lemma OneMore(n: Scalar, rest: seq<Byte>)
    ensures Cache.IsUtf8(Encoded(n) + rest) <==> Cache.IsUtf8(rest)
  {
    var s := Encoded(n) + rest;
    assert s[|Encoded(n)|..] == rest;
    if n >= 0x10000 {
      assert n / 262144 <= 4 && (n / 262144 == 0 ==> n / 4096 % 64 >= 16) && (n / 262144 == 4 ==> n / 4096 % 64 < 16);
    } else if n >= 0x800 {
      assert n / 4096 <= 15 && (n / 4096 == 0 ==> n / 64 % 64 >= 32) && (n / 4096 == 13 ==> n / 64 % 64 < 32);
    } else if n >= 0x80 {
      assert 2 <= n / 64 <= 31;
    }
  }

  /** Text begins with a character. */
  lemma FirstOfText(s: seq<Byte>) returns (n: Scalar)
    requires s != [] && Cache.IsUtf8(s)
    ensures Encoded(n) <= s && Cache.IsUtf8(s[|Encoded(n)|..])
  {
    var a: int := s[0];
    if a < 0x80 {
      n := a;
    } else if a <= 0xDF {
      n := TwoBytes(a, s[1]);
    } else if a <= 0xEF {
      n := ThreeBytes(a, s[1], s[2]);
    } else {
      n := FourBytes(a, s[1], s[2], s[3]);
    }
  }

  lemma {:induction false} EncodedIsText(text: seq<Scalar>)
    ensures Cache.IsUtf8(AllEncoded(text))
  {
    if text != [] {
      EncodedIsText(text[1..]);
      OneMore(text[0], AllEncoded(text[1..]));
    }
  }

  lemma {:induction false} TextIsEncoded(s: seq<Byte>) returns (text: seq<Scalar>)
    requires Cache.IsUtf8(s)
    ensures AllEncoded(text) == s
    decreases |s|
  {
    if s == [] {
      text := [];
    } else {
      var n := FirstOfText(s);
      EncodedLength(n);
      hide Cache.IsUtf8, Encoded;
      var rest := TextIsEncoded(s[|Encoded(n)|..]);
      text := [n] + rest;
      assert text[1..] == rest;
    }
  }

  lemma EncodedLength(n: Scalar)
    ensures |Encoded(n)| == if n < 0x80 then 1 else if n < 0x800 then 2 else if n < 0x10000 then 3 else 4
  {
  }

  /** What a relative path in the cache has to be: the encoding of some text. */
  lemma Utf8Iff(s: seq<Byte>)
    ensures Cache.IsUtf8(s) <==> exists text: seq<Scalar> :: s == AllEncoded(text)
  {
    if Cache.IsUtf8(s) {
      var text := TextIsEncoded(s);
    }
    if text: seq<Scalar> :| s == AllEncoded(text) { EncodedIsText(text); }
  }

  /** Bytes as characters, as namespaces hold them. */
  function Chars(s: seq<Byte>): string { seq(|s|, i requires 0 <= i < |s| => (s[i] as int) as char) }

  /** The key of a namespace in the arrays is its first character, with all its bytes. */
  lemma FirstCharIsEncoded(n: Scalar, rest: string)
    ensures var ns := Chars(Encoded(n)) + rest; IsText(ns) && FirstChar(ns) == Chars(Encoded(n))
  {
    var first := Chars(Encoded(n));
    var ns := first + rest;
    EncodedLength(n);
    FirstByte(n);
    assert ns[0] == first[0] && ns[..|first|] == first;
  }

  lemma FirstByte(n: Scalar)
    ensures CharLength((Encoded(n)[0] as int) as char) == |Encoded(n)|
  {
    if n >= 0x10000 { assert n / 262144 <= 4; }
    else if n >= 0x800 { assert n / 4096 <= 15; }
    else if n >= 0x80 { assert n / 64 <= 31; }
  }
}
