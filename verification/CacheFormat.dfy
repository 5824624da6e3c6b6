/** The cache file byte for byte (classmap.rs, `CacheSlot::store` and `load`): what it holds for given files,
    and which files are read back. */
module CacheFormat {
  import opened Common
  import opened ClassMapCache
  import opened Utf8

  /** A number in four bytes, the least significant first. */
  function Little(n: nat): seq<Byte> { [n % 256, n / 0x100 % 256, n / 0x1_0000 % 256, n / 0x100_0000 % 256] }

  function Strings(list: seq<seq<Byte>>): seq<Byte> {
    if list == [] then [] else Little(|list[0]|) + list[0] + Strings(list[1..])
  }

  /** A file: its path, and how many classes it has, and which. */
  function File(e: Entry): seq<Byte> { Little(|e.rel|) + e.rel + Little(|e.classes|) + Strings(e.classes) }

  function Files(files: seq<Entry>): seq<Byte> {
    if files == [] then [] else File(files[0]) + Files(files[1..])
  }

  lemma LittleIs(n: nat)
    ensures U32(n) == Little(n)
  {
    var q1 := n / 256;
    assert q1 / 256 == n / 0x1_0000 && q1 / 256 / 256 == n / 0x100_0000;
  }

  lemma {:induction false} StringsAre(list: seq<seq<Byte>>, k: seq<Byte>)
    ensures ClassesBytes(list, k) == Strings(list) + k
  {
    if list != [] {
      StringsAre(list[1..], k);
      LittleIs(|list[0]|);
      Glue(Little(|list[0]|) + list[0], Strings(list[1..]), k);
      Glue(Little(|list[0]|), list[0], Strings(list[1..]) + k);
    }
  }

  lemma FileIs(e: Entry, k: seq<Byte>)
    ensures EntryBytes(e, k) == File(e) + k
  {
    LittleIs(|e.rel|);
    LittleIs(|e.classes|);
    StringsAre(e.classes, k);
    hide Little, Strings, ClassesBytes, U32;
    var a, b, c, d := Little(|e.rel|), e.rel, Little(|e.classes|), Strings(e.classes);
    assert a + (b + (c + (d + k))) == a + b + c + d + k;
  }

  lemma {:induction false} FilesAre(files: seq<Entry>, k: seq<Byte>)
    ensures EntriesBytes(files, k) == Files(files) + k
  {
    if files != [] {
      FilesAre(files[1..], k);
      FileIs(files[0], Files(files[1..]) + k);
      hide EntryBytes, File;
      Glue(File(files[0]), Files(files[1..]), k);
    }
  }

  /** The file that is stored. */
  lemma StoredIs(files: seq<Entry>)
    ensures Encode(files) == Little(|files|) + Files(files)
  {
    FilesAre(files, []);
    LittleIs(|files|);
    assert Files(files) + [] == Files(files);
  }

  /** Everything fits into four bytes, and the paths are text. */
  ghost predicate CanBeStored(files: seq<Entry>) {
    && |files| < 0x1_0000_0000
    && forall i :: 0 <= i < |files| ==>
         && |files[i].rel| < 0x1_0000_0000 && (exists text: seq<Scalar> :: files[i].rel == AllEncoded(text))
         && |files[i].classes| < 0x1_0000_0000
         && forall j :: 0 <= j < |files[i].classes| ==> |files[i].classes[j]| < 0x1_0000_0000
  }

  lemma FitsIff(e: Entry)
    ensures Fits(e) <==>
            && |e.rel| < 0x1_0000_0000 && (exists text: seq<Scalar> :: e.rel == AllEncoded(text))
            && |e.classes| < 0x1_0000_0000 && forall j :: 0 <= j < |e.classes| ==> |e.classes[j]| < 0x1_0000_0000
  {
    Utf8Iff(e.rel);
    hide IsUtf8, AllEncoded;
  }

  lemma StorableIff(files: seq<Entry>)
    ensures Storable(files) <==> CanBeStored(files)
  {
    forall i | 0 <= i < |files|
      ensures Fits(files[i]) <==>
            && |files[i].rel| < 0x1_0000_0000 && (exists text: seq<Scalar> :: files[i].rel == AllEncoded(text))
            && |files[i].classes| < 0x1_0000_0000
            && forall j :: 0 <= j < |files[i].classes| ==> |files[i].classes[j]| < 0x1_0000_0000
    {
      FitsIff(files[i]);
    }
    hide Fits, AllEncoded;
    assert Storable(files) <==> |files| < LIMIT && forall i :: 0 <= i < |files| ==> Fits(files[i]);
  }

  /** Bytes are read as files exactly when they are what is stored for them, and these can be stored. */
  lemma ReadIff(files: seq<Entry>, s: seq<Byte>)
    ensures Decode(s) == Some(files) <==> CanBeStored(files) && s == Little(|files|) + Files(files)
  {
    hide *;
    Canonical(files, s);
    StoredIs(files);
    StorableIff(files);
  }
}
