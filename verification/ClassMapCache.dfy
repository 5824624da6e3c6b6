/** The class-map cache file (classmap.rs, `CacheSlot::store` and `load`): a length-prefixed
    binary format and the reader that must reject everything else. */
module ClassMapCache {
  import opened Common

  type Bytes = seq<Byte>

  /** Relative path of a file, and the raw class names found in it. */
  datatype Entry = Entry(rel: Bytes, classes: seq<Bytes>)

  const LIMIT: nat := 0x1_0000_0000

  // ----- writing; every piece is followed by `k` ------------------------------------------

  /** `n as u32`, little-endian: what does not fit is cut off. */
  function U32(n: nat): Bytes {
    var q1 := n / 256;
    var q2 := q1 / 256;
    var q3 := q2 / 256;
    [n % 256, q1 % 256, q2 % 256, q3 % 256]
  }

  function SliceBytes(s: Bytes, k: Bytes): Bytes { U32(|s|) + (s + k) }

  function ClassesBytes(classes: seq<Bytes>, k: Bytes): Bytes {
    if classes == [] then k else SliceBytes(classes[0], ClassesBytes(classes[1..], k))
  }

  function EntryBytes(e: Entry, k: Bytes): Bytes {
    SliceBytes(e.rel, U32(|e.classes|) + ClassesBytes(e.classes, k))
  }

  function EntriesBytes(files: seq<Entry>, k: Bytes): Bytes {
    if files == [] then k else EntryBytes(files[0], EntriesBytes(files[1..], k))
  }

  function Encode(files: seq<Entry>): Bytes { U32(|files|) + EntriesBytes(files, []) }

  // ----- reading --------------------------------------------------------------------------

  predicate Between(b: Byte, lo: Byte, hi: Byte) { lo <= b <= hi }

  /** `String::from_utf8` accepts exactly the well-formed sequences. */
  predicate IsUtf8(s: Bytes) {
    if s == [] then true
    else if s[0] < 0x80 then IsUtf8(s[1..])
    else if Between(s[0], 0xC2, 0xDF) then |s| >= 2 && Between(s[1], 0x80, 0xBF) && IsUtf8(s[2..])
    else if Between(s[0], 0xE0, 0xEF) then
      && |s| >= 3
      && Between(s[1], if s[0] == 0xE0 then 0xA0 else 0x80, if s[0] == 0xED then 0x9F else 0xBF)
      && Between(s[2], 0x80, 0xBF) && IsUtf8(s[3..])
    else if Between(s[0], 0xF0, 0xF4) then
      && |s| >= 4
      && Between(s[1], if s[0] == 0xF0 then 0x90 else 0x80, if s[0] == 0xF4 then 0x8F else 0xBF)
      && Between(s[2], 0x80, 0xBF) && Between(s[3], 0x80, 0xBF) && IsUtf8(s[4..])
    else false
  }

  function Value(b: Bytes): nat
    requires |b| == 4
  {
    var b0: int, b1: int, b2: int, b3: int := b[0], b[1], b[2], b[3];
    b0 + 0x100 * b1 + 0x1_0000 * b2 + 0x100_0000 * b3
  }

  function ReadU32(s: Bytes): Option<(nat, Bytes)> {
    if |s| < 4 then None else Some((Value(s[..4]), s[4..]))
  }

  function ReadSlice(s: Bytes): Option<(Bytes, Bytes)> {
    match ReadU32(s)
    case None => None
    case Some(r) => if |r.1| < r.0 then None else Some((r.1[..r.0], r.1[r.0..]))
  }

  function ReadClasses(s: Bytes, n: nat): Option<(seq<Bytes>, Bytes)>
    decreases n
  {
    if n == 0 then Some(([], s))
    else
      match ReadSlice(s)
      case None => None
      case Some(c) =>
        match ReadClasses(c.1, n - 1)
        case None => None
        case Some(more) => Some(([c.0] + more.0, more.1))
  }

  function ReadEntry(s: Bytes): Option<(Entry, Bytes)> {
    match ReadSlice(s)
    case None => None
    case Some(rel) =>
      if !IsUtf8(rel.0) then None
      else
        match ReadU32(rel.1)
        case None => None
        case Some(count) =>
          match ReadClasses(count.1, count.0)
          case None => None
          case Some(classes) => Some((Entry(rel.0, classes.0), classes.1))
  }

  function ReadEntries(s: Bytes, n: nat): Option<(seq<Entry>, Bytes)>
    decreases n
  {
    if n == 0 then Some(([], s))
    else
      match ReadEntry(s)
      case None => None
      case Some(e) =>
        match ReadEntries(e.1, n - 1)
        case None => None
        case Some(more) => Some(([e.0] + more.0, more.1))
  }

  function Decode(s: Bytes): Option<seq<Entry>> {
    match ReadU32(s)
    case None => None
    case Some(count) =>
      match ReadEntries(count.1, count.0)
      case None => None
      case Some(files) => if files.1 != [] then None else Some(files.0)
  }

  // ----- the codec is canonical -----------------------------------------------------------

  predicate Fits(e: Entry) {
    && IsUtf8(e.rel) && |e.rel| < LIMIT && |e.classes| < LIMIT
    && forall c :: c in e.classes ==> |c| < LIMIT
  }

  /** Valid relative paths, and every length below 2^32. */
  predicate Storable(files: seq<Entry>) {
    |files| < LIMIT && forall e :: e in files ==> Fits(e)
  }

  lemma U32Value(n: nat)
    requires n < LIMIT
    ensures Value(U32(n)) == n
  {
    var q1 := n / 256;
    var q2 := q1 / 256;
    var q3 := q2 / 256;
    assert n == 256 * q1 + n % 256 && q1 == 256 * q2 + q1 % 256 && q2 == 256 * q3 + q2 % 256;
    assert q3 < 256;
  }

  lemma ValueU32(b: Bytes)
    requires |b| == 4
    ensures Value(b) < LIMIT && U32(Value(b)) == b
  {
    var b0: int, b1: int, b2: int, b3: int := b[0], b[1], b[2], b[3];
    var r2 := b2 + 0x100 * b3;
    var r1 := b1 + 0x100 * r2;
    var n := b0 + 0x100 * r1;
    assert n == Value(b);
    assert n % 256 == b0 && n / 256 == r1;
    assert r1 % 256 == b1 && r1 / 256 == r2;
    assert r2 % 256 == b2 && r2 / 256 == b3;
  }

  lemma U32Canonical(n: nat, k: Bytes, s: Bytes)
    ensures n < LIMIT ==> ReadU32(U32(n) + k) == Some((n, k))
    ensures ReadU32(s).Some? ==> s == U32(ReadU32(s).value.0) + ReadU32(s).value.1 && ReadU32(s).value.0 < LIMIT
  {
    var t := U32(n) + k;
    assert t[..4] == U32(n) && t[4..] == k;
    if n < LIMIT { U32Value(n); }
    if |s| >= 4 {
      ValueU32(s[..4]);
      assert s == s[..4] + s[4..];
    }
  }

  lemma SliceCanonical(b: Bytes, k: Bytes, s: Bytes)
    ensures |b| < LIMIT ==> ReadSlice(SliceBytes(b, k)) == Some((b, k))
    ensures ReadSlice(s).Some? ==> s == SliceBytes(ReadSlice(s).value.0, ReadSlice(s).value.1) && |ReadSlice(s).value.0| < LIMIT
  {
    U32Canonical(|b|, b + k, s);
    assert (b + k)[..|b|] == b && (b + k)[|b|..] == k;
    if ReadSlice(s).Some? {
      var r := ReadU32(s).value;
      assert r.1 == r.1[..r.0] + r.1[r.0..];
    }
  }

  lemma {:induction false} ClassesEncoded(classes: seq<Bytes>, k: Bytes)
    requires forall c :: c in classes ==> |c| < LIMIT
    ensures ReadClasses(ClassesBytes(classes, k), |classes|) == Some((classes, k))
  {
    if classes != [] {
      SliceCanonical(classes[0], ClassesBytes(classes[1..], k), []);
      ClassesEncoded(classes[1..], k);
      assert classes == [classes[0]] + classes[1..];
    }
  }

  lemma SliceShrinks(s: Bytes)
    requires ReadSlice(s).Some?
    ensures 4 + |ReadSlice(s).value.1| <= |s|
  {
  }

  lemma OneMoreClass(s: Bytes, n: nat)
    requires n > 0 && ReadClasses(s, n).Some?
    requires var r := ReadClasses(ReadSlice(s).value.1, n - 1).value;
             ReadSlice(s).value.1 == ClassesBytes(r.0, r.1) && forall c :: c in r.0 ==> |c| < LIMIT
    ensures var r := ReadClasses(s, n).value;
            s == ClassesBytes(r.0, r.1) && forall c :: c in r.0 ==> |c| < LIMIT
  {
    SliceCanonical([], [], s);
    var r := ReadClasses(s, n).value;
    assert r.0[1..] == ReadClasses(ReadSlice(s).value.1, n - 1).value.0;
  }

  lemma {:induction false} ClassesDecoded(s: Bytes, n: nat)
    requires ReadClasses(s, n).Some?
    ensures var r := ReadClasses(s, n).value;
            |r.0| == n && s == ClassesBytes(r.0, r.1) && forall c :: c in r.0 ==> |c| < LIMIT
    ensures 4 * n + |ReadClasses(s, n).value.1| <= |s|
    decreases n
  {
    if n > 0 {
      var c := ReadSlice(s).value;
      SliceShrinks(s);
      ClassesDecoded(c.1, n - 1);
      OneMoreClass(s, n);
    }
  }

  lemma EntryEncoded(e: Entry, k: Bytes)
    requires Fits(e)
    ensures ReadEntry(EntryBytes(e, k)) == Some((e, k))
  {
    var rest := ClassesBytes(e.classes, k);
    SliceCanonical(e.rel, U32(|e.classes|) + rest, []);
    U32Canonical(|e.classes|, rest, []);
    ClassesEncoded(e.classes, k);
  }

  lemma EntryDecoded(s: Bytes)
    requires ReadEntry(s).Some?
    ensures var r := ReadEntry(s).value; Fits(r.0) && s == EntryBytes(r.0, r.1) && 8 + |r.1| <= |s|
  {
    SliceCanonical([], [], s);
    var rel := ReadSlice(s).value;
    U32Canonical(0, [], rel.1);
    var count := ReadU32(rel.1).value;
    ClassesDecoded(count.1, count.0);
  }

  lemma {:induction false} EntriesEncoded(files: seq<Entry>, k: Bytes)
    requires forall e :: e in files ==> Fits(e)
    ensures ReadEntries(EntriesBytes(files, k), |files|) == Some((files, k))
  {
    if files != [] {
      EntryEncoded(files[0], EntriesBytes(files[1..], k));
      EntriesEncoded(files[1..], k);
      assert files == [files[0]] + files[1..];
    }
  }

  lemma FirstEntryBytes(e: Entry, files: seq<Entry>, k: Bytes)
    ensures EntriesBytes([e] + files, k) == EntryBytes(e, EntriesBytes(files, k))
  {
    hide EntryBytes;
    assert ([e] + files)[1..] == files;
  }

  lemma FirstEntryRead(s: Bytes, n: nat)
    requires n > 0 && ReadEntries(s, n).Some?
    ensures ReadEntry(s).Some? && ReadEntries(ReadEntry(s).value.1, n - 1).Some?
    ensures var e := ReadEntry(s).value;
            var more := ReadEntries(e.1, n - 1).value;
            ReadEntries(s, n).value == ([e.0] + more.0, more.1)
  {
    hide ReadEntry;
  }

  ghost predicate AllFit(files: seq<Entry>) { forall e :: e in files ==> Fits(e) }

  lemma NoEntries(s: Bytes)
    ensures ReadEntries(s, 0) == Some(([], s)) && EntriesBytes([], s) == s && AllFit([])
  {
  }

  lemma {:induction false} EntriesDecoded(s: Bytes, n: nat)
    requires ReadEntries(s, n).Some?
    ensures var r := ReadEntries(s, n).value;
            |r.0| == n && s == EntriesBytes(r.0, r.1) && AllFit(r.0) && 8 * n + |r.1| <= |s|
    decreases n
  {
    hide *;
    if n == 0 {
      NoEntries(s);
    } else {
      FirstEntryRead(s, n);
      EntryDecoded(s);
      var e := ReadEntry(s).value;
      var more := ReadEntries(e.1, n - 1).value;
      EntriesDecoded(e.1, n - 1);
      FirstEntryBytes(e.0, more.0, more.1);
      FirstFits(e.0, more.0);
    }
  }

  lemma FirstFits(e: Entry, files: seq<Entry>)
    requires Fits(e) && AllFit(files)
    ensures AllFit([e] + files)
  {
    hide Fits;
  }

  /** The reader accepts exactly what the writer writes for storable entries, and reads it as
      those entries. So round trips hold, and every truncated, extended or otherwise different
      file is rejected. */
  lemma Canonical(files: seq<Entry>, s: Bytes)
    ensures Decode(s) == Some(files) <==> Storable(files) && s == Encode(files)
  {
    if Storable(files) {
      U32Canonical(|files|, EntriesBytes(files, []), []);
      EntriesEncoded(files, []);
    }
    if Decode(s) == Some(files) {
      U32Canonical(0, [], s);
      var count := ReadU32(s).value;
      EntriesDecoded(count.1, count.0);
    }
  }

  /** A stored file with anything after it is rejected. */
  lemma NothingMayFollow(files: seq<Entry>, extra: Bytes)
    requires Storable(files)
    ensures Decode(Encode(files) + extra) == if extra == [] then Some(files) else None
  {
    EntriesThen(files, [], extra);
    assert [] + extra == extra;
    Glue(U32(|files|), EntriesBytes(files, []), extra);
    U32Canonical(|files|, EntriesBytes(files, extra), []);
    EntriesEncoded(files, extra);
  }

  /** So no stored file is the beginning of another one: what a truncation leaves is rejected. */
  lemma NothingMayBeMissing(files: seq<Entry>, n: nat)
    requires Storable(files) && n < |Encode(files)|
    ensures Decode(Encode(files)[..n]) == None
  {
    if Decode(Encode(files)[..n]).Some? {
      var fewer := Decode(Encode(files)[..n]).value;
      Canonical(fewer, Encode(files)[..n]);
      Canonical(files, Encode(files));
      Truncated(fewer, Encode(files), n);
    }
  }

  lemma Truncated(fewer: seq<Entry>, s: Bytes, n: nat)
    requires n < |s| && s[..n] == Encode(fewer) && Storable(fewer)
    ensures Decode(s) == None
  {
    assert s == s[..n] + s[n..];
    NothingMayFollow(fewer, s[n..]);
  }

  lemma {:induction false} ClassesThen(classes: seq<Bytes>, j: Bytes, k: Bytes)
    ensures ClassesBytes(classes, j + k) == ClassesBytes(classes, j) + k
  {
    if classes != [] {
      ClassesThen(classes[1..], j, k);
      SliceThen(classes[0], ClassesBytes(classes[1..], j), k);
    }
  }

  lemma SliceThen(s: Bytes, j: Bytes, k: Bytes)
    ensures SliceBytes(s, j + k) == SliceBytes(s, j) + k
  {
    Glue(s, j, k);
    Glue(U32(|s|), s + j, k);
  }

  lemma EntryThen(e: Entry, j: Bytes, k: Bytes)
    ensures EntryBytes(e, j + k) == EntryBytes(e, j) + k
  {
    ClassesThen(e.classes, j, k);
    Glue(U32(|e.classes|), ClassesBytes(e.classes, j), k);
    SliceThen(e.rel, U32(|e.classes|) + ClassesBytes(e.classes, j), k);
  }

  lemma {:induction false} EntriesThen(files: seq<Entry>, j: Bytes, k: Bytes)
    ensures EntriesBytes(files, j + k) == EntriesBytes(files, j) + k
  {
    if files != [] {
      EntriesThen(files[1..], j, k);
      EntryThen(files[0], EntriesBytes(files[1..], j), k);
    }
  }

  /** The pre-allocations are clamped to what the remaining bytes could hold. On a file that is
      accepted, the clamp never bites. */
  lemma CapacityIsExact(s: Bytes, n: nat)
    ensures ReadEntries(s, n).Some? ==> n <= |s| / 8
    ensures ReadClasses(s, n).Some? ==> n <= |s| / 4
  {
    if ReadEntries(s, n).Some? { EntriesDecoded(s, n); }
    if ReadClasses(s, n).Some? { ClassesDecoded(s, n); }
  }

  // ----- the loops ------------------------------------------------------------------------

  /** Reads forward, and fails cleanly on any truncation. */
  class ByteReader {
    const bytes: Bytes
    var pos: nat

    ghost predicate Valid()
      reads this
    {
      pos <= |bytes|
    }

    /** What is left to read. */
    ghost function Rest(): Bytes
      reads this
      requires Valid()
    {
      bytes[pos..]
    }

    constructor (bytes: Bytes)
      ensures this.bytes == bytes && Valid() && Rest() == bytes
    {
      this.bytes, pos := bytes, 0;
    }

    method U32() returns (r: Option<nat>)
      requires Valid()
      modifies this
      ensures Valid()
      ensures match ReadU32(old(Rest()))
              case None => r.None?
              case Some(x) => r == Some(x.0) && Rest() == x.1
    {
      var end := pos + 4;
      if end > |bytes| { return None; }
      var raw := bytes[pos..end];
      assert bytes[pos..][..4] == raw && bytes[pos..][4..] == bytes[end..];
      pos := end;
      r := Some(Value(raw));
    }

    method Slice() returns (r: Option<Bytes>)
      requires Valid()
      modifies this
      ensures Valid()
      ensures match ReadSlice(old(Rest()))
              case None => r.None?
              case Some(x) => r == Some(x.0) && Rest() == x.1
    {
      var len := U32();
      if len.None? { return None; }
      var end := pos + len.value;
      if end > |bytes| { return None; }
      assert bytes[pos..][..len.value] == bytes[pos..end] && bytes[pos..][len.value..] == bytes[end..];
      r := Some(bytes[pos..end]);
      pos := end;
    }

    method IsEmpty() returns (r: bool)
      requires Valid()
      ensures r <==> Rest() == []
    {
      r := pos == |bytes|;
    }
  }

  method LoadClasses(r: ByteReader, n: nat) returns (classes: Option<seq<Bytes>>)
    requires r.Valid()
    modifies r
    ensures r.Valid()
    ensures match ReadClasses(old(r.Rest()), n)
            case None => classes.None?
            case Some(x) => classes == Some(x.0) && r.Rest() == x.1
  {
    var out: seq<Bytes> := [];
    NoClassesYet(ReadClasses(r.Rest(), n));
    for i := 0 to n
      invariant r.Valid()
      invariant ReadClasses(old(r.Rest()), n) == AfterClasses(out, ReadClasses(r.Rest(), n - i))
    {
      ghost var rest := r.Rest();
      var c := r.Slice();
      if c.None? { return None; }
      MoreClasses(out, rest, n - i);
      out := out + [c.value];
    }
    classes := Some(out);
    assert out + [] == out;
  }

  function AfterClasses(out: seq<Bytes>, r: Option<(seq<Bytes>, Bytes)>): Option<(seq<Bytes>, Bytes)> {
    if r.None? then None else Some((out + r.value.0, r.value.1))
  }

  lemma NoClassesYet(r: Option<(seq<Bytes>, Bytes)>)
    ensures AfterClasses([], r) == r
  {
    if r.Some? { assert [] + r.value.0 == r.value.0; }
  }

  lemma MoreClasses(out: seq<Bytes>, s: Bytes, n: nat)
    requires n > 0 && ReadSlice(s).Some?
    ensures AfterClasses(out, ReadClasses(s, n)) ==
            AfterClasses(out + [ReadSlice(s).value.0], ReadClasses(ReadSlice(s).value.1, n - 1))
  {
    var c := ReadSlice(s).value;
    if ReadClasses(c.1, n - 1).Some? {
      assert out + ([c.0] + ReadClasses(c.1, n - 1).value.0) == (out + [c.0]) + ReadClasses(c.1, n - 1).value.0;
    }
  }

  method LoadEntry(r: ByteReader) returns (e: Option<Entry>)
    requires r.Valid()
    modifies r
    ensures r.Valid()
    ensures match ReadEntry(old(r.Rest()))
            case None => e.None?
            case Some(x) => e == Some(x.0) && r.Rest() == x.1
  {
    var rel := r.Slice();
    if rel.None? || !IsUtf8(rel.value) { return None; }
    var count := r.U32();
    if count.None? { return None; }
    var classes := LoadClasses(r, count.value);
    if classes.None? { return None; }
    e := Some(Entry(rel.value, classes.value));
  }

  function AfterEntries(out: seq<Entry>, r: Option<(seq<Entry>, Bytes)>): Option<(seq<Entry>, Bytes)> {
    if r.None? then None else Some((out + r.value.0, r.value.1))
  }

  lemma NoEntriesYet(r: Option<(seq<Entry>, Bytes)>)
    ensures AfterEntries([], r) == r
  {
    if r.Some? { assert [] + r.value.0 == r.value.0; }
  }

  lemma MoreEntries(out: seq<Entry>, s: Bytes, n: nat)
    requires n > 0 && ReadEntry(s).Some?
    ensures AfterEntries(out, ReadEntries(s, n)) ==
            AfterEntries(out + [ReadEntry(s).value.0], ReadEntries(ReadEntry(s).value.1, n - 1))
  {
    var e := ReadEntry(s).value;
    if ReadEntries(e.1, n - 1).Some? {
      assert out + ([e.0] + ReadEntries(e.1, n - 1).value.0) == (out + [e.0]) + ReadEntries(e.1, n - 1).value.0;
    }
  }

  method LoadEntries(r: ByteReader, n: nat) returns (files: Option<seq<Entry>>)
    requires r.Valid()
    modifies r
    ensures r.Valid()
    ensures match ReadEntries(old(r.Rest()), n)
            case None => files.None?
            case Some(x) => files == Some(x.0) && r.Rest() == x.1
  {
    var out: seq<Entry> := [];
    NoEntriesYet(ReadEntries(r.Rest(), n));
    for i := 0 to n
      invariant r.Valid()
      invariant ReadEntries(old(r.Rest()), n) == AfterEntries(out, ReadEntries(r.Rest(), n - i))
    {
      ghost var rest := r.Rest();
      var e := LoadEntry(r);
      if e.None? { return None; }
      MoreEntries(out, rest, n - i);
      out := out + [e.value];
    }
    files := Some(out);
    assert out + [] == out;
  }

  /** `CacheSlot::load`. */
  method Load(bytes: Bytes) returns (files: Option<seq<Entry>>)
    ensures files == Decode(bytes)
  {
    var r := new ByteReader(bytes);
    var n := r.U32();
    if n.None? { return None; }
    files := LoadEntries(r, n.value);
    if files.None? { return; }
    var done := r.IsEmpty();
    if !done { files := None; } // trailing bytes: a corrupt file
  }

  /** `push_slice`. */
  method PushSlice(buf: Bytes, s: Bytes) returns (r: Bytes)
    ensures forall k :: r + k == buf + SliceBytes(s, k)
  {
    r := buf + U32(|s|) + s;
  }

  /** `CacheSlot::store`, up to the file it renames into place. */
  method Store(files: seq<Entry>) returns (buf: Bytes)
    ensures buf == Encode(files)
  {
    buf := U32(|files|);
    for i := 0 to |files|
      invariant buf + EntriesBytes(files[i..], []) == Encode(files)
    {
      ghost var rest := EntriesBytes(files[i + 1..], []);
      assert files[i..][1..] == files[i + 1..];
      buf := StoreEntry(buf, files[i], rest);
    }
    assert buf + [] == buf;
  }

  method StoreEntry(start: Bytes, e: Entry, ghost rest: Bytes) returns (buf: Bytes)
    ensures buf + rest == start + EntryBytes(e, rest)
  {
    buf := PushSlice(start, e.rel);
    ghost var tail := ClassesBytes(e.classes, rest);
    Glue(buf, U32(|e.classes|), tail);
    buf := buf + U32(|e.classes|);
    for j := 0 to |e.classes|
      invariant buf + ClassesBytes(e.classes[j..], rest) == start + EntryBytes(e, rest)
    {
      assert e.classes[j..][1..] == e.classes[j + 1..];
      buf := PushSlice(buf, e.classes[j]);
    }
  }
}
