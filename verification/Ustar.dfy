/**
 A concrete header codec in the layout of the "ustar Interchange Format" (pax utility, IEEE Std
 1003.1), with the GNU magic and a GNU long-name record for paths over 100 bytes. It shows that the round-trip
 theorems are about something: the encoder and the accessors agree.
 */
module Ustar {
  import opened Base
  import opened Errors
  import opened F = Framing
  import opened Parser
  import opened Open
  import opened Pack
  import opened RoundTrip
  import W = Writers
  import Compress
  import Paths
  import Pax

  // ----- Octal fields -----

  predicate IsOctal(s: Bytes) {
    forall i :: 0 <= i < |s| ==> 48 <= s[i] <= 55
  }

  function Pow8(w: nat): nat {
    if w == 0 then 1 else 8 * Pow8(w - 1)
  }

  /** `w` octal digits. */
  function Digits(n: nat, w: nat): (s: Bytes)
    ensures |s| == w && IsOctal(s)
  {
    if w == 0 then [] else Digits(n / 8, w - 1) + [48 + n % 8]
  }

  function Value(s: Bytes): nat
    requires IsOctal(s)
  {
    if s == [] then 0 else 8 * Value(s[..|s| - 1]) + (s[|s| - 1] - 48)
  }

  lemma {:induction false} ValueOfDigits(n: nat, w: nat)
    requires n < Pow8(w)
    ensures Value(Digits(n, w)) == n
  {
    if w > 0 {
      ValueOfDigits(n / 8, w - 1);
      assert Digits(n, w)[..w - 1] == Digits(n / 8, w - 1);
    }
  }

  /** A numeric field of `w` digits and a NUL. */
  function Field(n: nat, w: nat): (s: Bytes)
    ensures |s| == w + 1
  {
    Digits(n, w) + [0]
  }

  function ReadField(s: Bytes): Option<nat> {
    if s == [] || s[|s| - 1] != 0 || !IsOctal(s[..|s| - 1]) then None else Some(Value(s[..|s| - 1]))
  }

  lemma FieldReads(n: nat, w: nat)
    requires n < Pow8(w)
    ensures ReadField(Field(n, w)) == Some(n)
  {
    assert Field(n, w)[..w] == Digits(n, w);
    ValueOfDigits(n, w);
  }

  // ----- Text fields -----

  /** Text padded with NULs to `w` bytes. */
  function TextField(s: Bytes, w: nat): (f: Bytes)
    requires |s| <= w
    ensures |f| == w
  {
    s + Zeros(w - |s|)
  }

  /** The text before the first NUL. */
  function ReadText(s: Bytes): Bytes {
    if s == [] || s[0] == 0 then [] else [s[0]] + ReadText(s[1..])
  }

  lemma {:induction false} TextReads(s: Bytes, n: nat)
    requires 0 !in s
    ensures ReadText(s + Zeros(n)) == s
  {
    var f := s + Zeros(n);
    if s != [] {
      assert s[0] in s && f[1..] == s[1..] + Zeros(n);
      TextReads(s[1..], n);
    }
  }

  // ----- The header block -----

  function Sum(s: Bytes): nat {
    if s == [] then 0 else Sum(s[..|s| - 1]) + s[|s| - 1]
  }

  lemma {:induction false} SumBound(s: Bytes)
    ensures Sum(s) <= 255 * |s|
  {
    if s != [] {
      SumBound(s[..|s| - 1]);
    }
  }

  const SPACES := 256

  /** The fields before the checksum: name, mode, owner, group, size, time. */
  function Front(name: Bytes, mode: nat, uid: nat, gid: nat, size: nat, mtime: nat): (s: Bytes)
    requires |name| <= 100
    ensures |s| == 148
  {
    TextField(name, 100) + (Field(mode, 7) + (Field(uid, 7) + (Field(gid, 7) + (Field(size, 11) + Field(mtime, 11)))))
  }

  /** `ustar`, two spaces and a NUL: the magic and version of a GNU header. */
  const MAGIC: Bytes := [117, 115, 116, 97, 114, 32, 32, 0]

  /** The fields behind the checksum: type, link target, magic and version, and the unused rest. */
  function Back(kind: byte, link: Bytes): (s: Bytes)
    requires |link| <= 100
    ensures |s| == 356
  {
    [kind] + (TextField(link, 100) + (MAGIC + Zeros(247)))
  }

  /** The checksum sums all bytes, its own field counted as eight spaces. */
  function Checksum(front: Bytes, back: Bytes): nat {
    Sum(front) + SPACES + Sum(back)
  }

  function Block(front: Bytes, back: Bytes): (b: Bytes)
    requires |front| == 148 && |back| == 356
    ensures |b| == BLOCK
  {
    front + (Field(Checksum(front, back), 6) + [32]) + back
  }

  function ChecksumOk(block: Bytes): bool {
    |block| == BLOCK && ReadField(block[148..155]) == Some(Checksum(block[..148], block[156..]))
  }

  lemma BlockReads(front: Bytes, back: Bytes)
    requires |front| == 148 && |back| == 356
    ensures var b := Block(front, back);
      b[..148] == front && b[156..] == back && ChecksumOk(b) && b[KIND_OFFSET] == back[0]
  {
    var b := Block(front, back);
    var sum := Checksum(front, back);
    assert b[148..155] == Field(sum, 6);
    SumBound(front);
    SumBound(back);
    assert Pow8(6) == 262144 by {
      assert Pow8(3) == 512 && Pow8(6) == 8 * (8 * (8 * Pow8(3)));
    }
    FieldReads(sum, 6);
  }

  // ----- The accessors -----

  function Narrow64(n: Option<nat>): Option<u64> {
    if n.Some? && n.value <= U64_MAX then Some(n.value) else None
  }

  function Narrow32(n: Option<nat>): Option<u32> {
    if n.Some? && n.value <= U32_MAX then Some(n.value) else None
  }

  /** The numeric field at `at`, or nothing for a short block. */
  function NumberAt(block: Bytes, at: nat, w: nat): Option<nat> {
    if at + w <= |block| then ReadField(block[at..at + w]) else None
  }

  function TextAt(block: Bytes, at: nat): Bytes {
    if at + 100 <= |block| then ReadText(block[at..at + 100]) else []
  }

  function Size(block: Bytes): Option<u64> { Narrow64(NumberAt(block, 124, 12)) }

  function Mode(block: Bytes, m: Member): Option<u32> { Narrow32(NumberAt(block, 100, 8)) }

  function Uid(block: Bytes, m: Member): Option<u64> { Narrow64(NumberAt(block, 108, 8)) }

  function Gid(block: Bytes, m: Member): Option<u64> { Narrow64(NumberAt(block, 116, 8)) }

  function Mtime(block: Bytes, m: Member): Option<u64> { Narrow64(NumberAt(block, 136, 12)) }

  /** The path: a preceding long name, or the name field. */
  function PathOf(block: Bytes, m: Member): Option<Bytes> {
    match m.longName
    case Some(name) => Some(ReadText(name))
    case None => Some(TextAt(block, 0))
  }

  function LinkOf(block: Bytes, m: Member): Option<Option<Bytes>> {
    var text := TextAt(block, 157);
    Some(if text == [] then None else Some(text))
  }

  /** PAX bodies are read as the record grammar has it. */
  function PaxOf(body: Bytes): Option<Option<u64>> {
    match Pax.Read(body)
    case Err(_) => None
    case Ok(size) => Some(size)
  }

  function UstarCodec(): Codec {
    Codec(ChecksumOk, Size, PaxOf, PathOf, LinkOf, Mode, Uid, Gid, Mtime)
  }

  // ----- The encoder -----

  const LONG_LINK_NAME: Bytes := [46, 47, 46, 47, 64, 76, 111, 110, 103, 76, 105, 110, 107]

  function LinkText(kind: Kind): Bytes {
    match kind
    case File => []
    case Dir => []
    case Symlink(target) => target
    case Hardlink(target) => target
  }

  /** What fits the fields: octal numbers, NUL-free text, and a non-empty target on links. */
  predicate Encodable(path: Bytes, meta: Meta, n: nat) {
    && 0 !in path && |path| + 1 < Pow8(11)
    && meta.mode < Pow8(7) && meta.uid < Pow8(7) && meta.gid < Pow8(7) && n < Pow8(11) && meta.mtime < Pow8(11)
    && 0 !in LinkText(meta.kind) && |LinkText(meta.kind)| <= 100
    && (meta.kind.Symlink? || meta.kind.Hardlink? ==> LinkText(meta.kind) != [])
  }

  function Header(path: Bytes, meta: Meta, n: u64): Option<Head> {
    if !Encodable(path, meta, n) then None
    else
      var block := Block(
        Front(path[..Min(100, |path|)], meta.mode, meta.uid, meta.gid, n, meta.mtime),
        Back(KindByte(meta.kind), LinkText(meta.kind)));
      Some(Head(if |path| > 100 then Some(path) else None, block))
  }

  function LongHeader(n: nat): Bytes {
    Block(Front(LONG_LINK_NAME, 0, 0, 0, n, 0), Back(LONG_NAME, []))
  }

  function UstarEncoding(): Encoding {
    Encoding(Header, LongHeader)
  }

  /** This encoder stores paths as they are. */
  function Unchanged(path: Bytes): Bytes {
    path
  }

  // ----- They agree -----

  lemma FrontReads(name: Bytes, mode: nat, uid: nat, gid: nat, size: nat, mtime: nat)
    requires |name| <= 100
    ensures var f := Front(name, mode, uid, gid, size, mtime);
      && f[..100] == TextField(name, 100) && f[100..108] == Field(mode, 7) && f[108..116] == Field(uid, 7)
      && f[116..124] == Field(gid, 7) && f[124..136] == Field(size, 11) && f[136..148] == Field(mtime, 11)
  {
    hide Field, TextField;
  }

  /** A slice of a block's front part is a slice of the block, and so is one of its back part. */
  lemma BlockSlices(front: Bytes, back: Bytes, i: nat, j: nat)
    requires |front| == 148 && |back| == 356
    ensures i <= j <= 148 ==> Block(front, back)[i..j] == front[i..j]
    ensures i <= j <= 356 ==> Block(front, back)[156 + i..156 + j] == back[i..j]
  {
    var b := Block(front, back);
    BlockReads(front, back);
    hide Block, ChecksumOk;
    if i <= j <= 148 { SliceOfSlice(b, 0, 148, i, j); }
    assert b[156..] == b[156..BLOCK];
    if i <= j <= 356 { SliceOfSlice(b, 156, BLOCK, i, j); }
  }

  /** A numeric field of the front part reads back from the block, when its number fits. */
  lemma NumberReads(front: Bytes, back: Bytes, at: nat, n: nat, w: nat)
    requires |front| == 148 && |back| == 356 && at + w + 1 <= 148
    requires front[at..at + w + 1] == Field(n, w) && n < Pow8(w)
    ensures NumberAt(Block(front, back), at, w + 1) == Some(n)
  {
    BlockSlices(front, back, at, at + w + 1);
    FieldReads(n, w);
    hide Block, Field, ReadField;
  }

  /** Every field of a block reads back, when its number fits. */
  lemma BlockFields(name: Bytes, mode: nat, uid: nat, gid: nat, size: nat, mtime: nat, kind: byte, link: Bytes)
    requires |name| <= 100 && |link| <= 100 && 0 !in link
    requires mode < Pow8(7) && uid < Pow8(7) && gid < Pow8(7) && size < Pow8(11) && mtime < Pow8(11)
    ensures var b := Block(Front(name, mode, uid, gid, size, mtime), Back(kind, link));
      && |b| == BLOCK && ChecksumOk(b) && b[KIND_OFFSET] == kind
      && NumberAt(b, 100, 8) == Some(mode) && NumberAt(b, 108, 8) == Some(uid) && NumberAt(b, 116, 8) == Some(gid)
      && NumberAt(b, 124, 12) == Some(size) && NumberAt(b, 136, 12) == Some(mtime)
      && b[..100] == TextField(name, 100) && TextAt(b, 157) == link && b[257..265] == MAGIC
  {
    hide Field, TextField, ReadText, ChecksumOk, Front, Back, Block, Pow8, NumberAt;
    var front, back := Front(name, mode, uid, gid, size, mtime), Back(kind, link);
    BlockReads(front, back);
    FrontReads(name, mode, uid, gid, size, mtime);
    BackLink(kind, link);
    TextReads(link, 100 - |link|);
    BlockSlices(front, back, 0, 100);
    BlockSlices(front, back, 1, 101);
    BlockSlices(front, back, 101, 109);
    NumberReads(front, back, 100, mode, 7);
    NumberReads(front, back, 108, uid, 7);
    NumberReads(front, back, 116, gid, 7);
    NumberReads(front, back, 124, size, 11);
    NumberReads(front, back, 136, mtime, 11);
  }

  lemma BackLink(kind: byte, link: Bytes)
    requires |link| <= 100
    ensures Back(kind, link)[0] == kind
    ensures Back(kind, link)[1..101] == TextField(link, 100) == link + Zeros(100 - |link|)
    ensures Back(kind, link)[101..109] == MAGIC
  {
  }

  lemma PowersFit()
    ensures Pow8(7) <= U32_MAX && Pow8(11) <= U64_MAX
  {
    assert Pow8(3) == 512 && Pow8(7) == 8 * (8 * (8 * (8 * Pow8(3)))) && Pow8(11) == 8 * (8 * (8 * (8 * Pow8(7))));
  }

  /** The name field and the long name together give the path back. */
  lemma PathReads(path: Bytes, block: Bytes)
    requires 0 !in path && |block| == BLOCK && block[..100] == TextField(path[..Min(100, |path|)], 100)
    ensures PathOf(block, Preceding(Head(if |path| > 100 then Some(path) else None, block))) == Some(path)
  {
    if |path| <= 100 {
      assert path[..|path|] == path;
      TextReads(path, 100 - |path|);
      assert block[0..0 + 100] == block[..100];
    } else {
      assert path + [0] == path + Zeros(1);
      TextReads(path, 1);
    }
  }

  lemma UstarReadsBack(path: Bytes, meta: Meta, n: u64)
    ensures ReadsBack(UstarEncoding(), Size, UstarCodec(), Unchanged, path, meta, n)
  {
    hide Block, Front, Back, ChecksumOk, NumberAt, TextAt, TextField, Pow8, ReadText, PathOf;
    if Encodable(path, meta, n) {
      var name, link := path[..Min(100, |path|)], LinkText(meta.kind);
      BlockFields(name, meta.mode, meta.uid, meta.gid, n, meta.mtime, KindByte(meta.kind), link);
      PathReads(path, Header(path, meta, n).value.block);
      PowersFit();
      if |path| > 100 {
        assert Pow8(7) > 0 by { PowersPositive(7); }
        BlockFields(LONG_LINK_NAME, 0, 0, 0, |path| + 1, 0, LONG_NAME, []);
      }
    }
  }

  lemma {:induction false} PowersPositive(w: nat)
    ensures 0 < Pow8(w)
  {
    if w > 0 { PowersPositive(w - 1); }
  }

  /** The concrete codec meets the law the round-trip theorems ask for. */
  lemma UstarIsFaithful()
    ensures Faithful(UstarEncoding(), Size, UstarCodec(), Unchanged)
  {
    forall path: Bytes, meta: Meta, n: u64
      ensures ReadsBack(UstarEncoding(), Size, UstarCodec(), Unchanged, path, meta, n)
    {
      UstarReadsBack(path, meta, n);
    }
    forall path: Bytes
      ensures KeepsSafe(Unchanged, path)
    {
    }
  }

  // ----- The plain round trip, decided by the first path -----

  /** What a caller can check: the first entry's path is short and starts with the zstd magic. */
  predicate Mistakable(entries: seq<W.Stored>) {
    && entries != [] && |entries[0].path.bytes| <= 100
    && Compress.ZSTD_MAGIC <= entries[0].path.bytes
  }

  /** A block starts with the first bytes of its name field. */
  lemma MagicInName(name: Bytes, block: Bytes)
    requires |name| <= 100 && |block| == BLOCK && block[..100] == TextField(name, 100)
    ensures Compress.ZSTD_MAGIC <= block <==> Compress.ZSTD_MAGIC <= name
  {
    var field, magic := TextField(name, 100), Compress.ZSTD_MAGIC;
    assert block[..4] == block[..100][..4];
    assert magic <= block <==> block[..4] == magic;
    assert field[..4] == magic <==>
      (field[0] == magic[0] && field[1] == magic[1] && field[2] == magic[2] && field[3] == magic[3]);
    assert |name| < 4 ==> field[3] == 0;
    assert |name| >= 4 ==> field[..4] == name[..4];
  }

  /** The first block of a non-empty archive is that of its first record. */
  lemma FirstBlock(entries: seq<W.Stored>)
    requires W.AllStorable(UstarEncoding(), entries) && entries != []
    ensures var s := entries[0];
      var head := HeadOf(UstarEncoding(), s);
      && |head.block| == BLOCK
      && (if head.longName.Some? then LongHeader(|s.path.bytes| + 1) else head.block)
        <= W.TarOf(UstarEncoding(), entries)
  {
    hide UstarEncoding, W.StoredRecord, HeadOf, W.Storable, W.TarOf, LongHeader, Zeros, Block;
    RecordFront(entries[0]);
    FirstRecord(UstarEncoding(), entries);
  }

  /** The first block of a record is its header, or that of its long name. */
  lemma RecordFront(s: W.Stored)
    requires W.Storable(UstarEncoding(), s)
    ensures var head := HeadOf(UstarEncoding(), s);
      && |head.block| == BLOCK
      && (if head.longName.Some? then LongHeader(|s.path.bytes| + 1) else head.block)
        <= W.StoredRecord(UstarEncoding(), s)
  {
    hide LongHeader, Header, Block, Encodable, TextField, ReadText;
    HeaderName(s);
    hide W.Storable;
    var head := HeadOf(UstarEncoding(), s);
    assert W.StoredRecord(UstarEncoding(), s) == Preamble(UstarEncoding(), head) + Padded(s.body);
  }

  lemma HeaderName(s: W.Stored)
    requires W.Storable(UstarEncoding(), s)
    ensures var head := HeadOf(UstarEncoding(), s);
      && head.longName == (if |s.path.bytes| > 100 then Some(s.path.bytes) else None)
      && |head.block| == BLOCK && (|s.path.bytes| <= 100 ==> head.block[..100] == TextField(s.path.bytes, 100))
  {
    hide Block, Front, Back, NumberAt, TextAt, ChecksumOk;
    var path, meta := s.path.bytes, s.meta;
    BlockFields(
      path[..Min(100, |path|)], meta.mode, meta.uid, meta.gid, |s.body|, meta.mtime,
      KindByte(meta.kind), LinkText(meta.kind));
    if |path| <= 100 { assert path[..|path|] == path; }
  }

  lemma PrefixOfPrefix(a: Bytes, b: Bytes, c: Bytes)
    requires b <= c && |a| <= |b|
    ensures a <= b <==> a <= c
  {
    assert a <= c ==> a == c[..|a|] == b[..|a|];
  }

  lemma MagicIffMistakable(entries: seq<W.Stored>)
    requires W.AllStorable(UstarEncoding(), entries)
    ensures Compress.ZSTD_MAGIC <= W.TarOf(UstarEncoding(), entries) <==> Mistakable(entries)
  {
    var tar, magic := W.TarOf(UstarEncoding(), entries), Compress.ZSTD_MAGIC;
    if entries == [] {
      assert tar[0] == 0;
    } else {
      hide Block, Front, Header, TextField, LongHeader, W.TarOf, Encodable, W.Storable, HeadOf, ReadText, Field;
      var s := entries[0];
      FirstBlock(entries);
      HeaderName(s);
      var first := if |s.path.bytes| > 100 then LongHeader(|s.path.bytes| + 1) else HeadOf(UstarEncoding(), s).block;
      PrefixOfPrefix(magic, first, tar);
      if |s.path.bytes| > 100 {
        LongHeaderName(|s.path.bytes| + 1);
        MagicInName(LONG_LINK_NAME, first);
      } else {
        MagicInName(s.path.bytes, first);
      }
    }
  }

  lemma LongHeaderName(n: nat)
    ensures |LongHeader(n)| == BLOCK && LongHeader(n)[..100] == TextField(LONG_LINK_NAME, 100)
  {
    var front, back := Front(LONG_LINK_NAME, 0, 0, 0, n, 0), Back(LONG_NAME, []);
    BlockSlices(front, back, 0, 100);
    FrontReads(LONG_LINK_NAME, 0, 0, 0, n, 0);
  }

  /**
   With this codec, an archive written as plain tar comes back entry by entry, whatever
   zstd decoder the reader carries, if and only if its first path is not one that a
   reader mistakes for a zstd frame.
   */
  lemma UstarRoundTrip(limits: Limits, entries: seq<W.Stored>)
    requires W.AllStorable(UstarEncoding(), entries) && AllWithin(UstarEncoding(), limits, Unchanged, entries)
    requires |W.TarOf(UstarEncoding(), entries)| <= U64_MAX
    ensures (forall zstd :: Compress.Lawful(zstd) ==>
        SeesAll(W.TarOf(UstarEncoding(), entries), zstd, Size, UstarCodec(), Unchanged, limits, entries))
      <==> !Mistakable(entries)
  {
    UstarIsFaithful();
    MagicIffMistakable(entries);
    PlainRoundTrip(UstarEncoding(), Size, UstarCodec(), Unchanged, limits, entries);
  }

  // ----- A path that breaks the plain round trip -----

  /** `(`, 0xB5, `/`, 0xFD: a safe relative path of two components. */
  const MAGIC_PATH: Bytes := [0x28, 0xB5, 0x2F, 0xFD]

  function MagicEntry(): W.Stored {
    W.Stored(Paths.SafePath(MAGIC_PATH), Meta(0, 0, 0, 0, File), [])
  }

  /** The path is accepted, the entry is encodable, and its archive starts like a zstd frame. */
  lemma MagicPathIsMistaken()
    ensures Paths.New(MAGIC_PATH) == Ok(Paths.SafePath(MAGIC_PATH))
    ensures W.AllStorable(UstarEncoding(), [MagicEntry()])
    ensures Mistakable([MagicEntry()]) && Compress.ZSTD_MAGIC <= W.TarOf(UstarEncoding(), [MagicEntry()])
  {
    hide Block, Front, Back, TextField, W.TarOf, Paths.New;
    MagicPathIsSafe();
    assert Pow8(7) > 0 && Pow8(11) > 5 by { assert Pow8(11) == 8 * Pow8(10) && Pow8(10) == 8 * Pow8(9); }
    assert Encodable(MAGIC_PATH, MagicEntry().meta, 0);
    assert W.Storable(UstarEncoding(), MagicEntry());
    hide UstarEncoding, Pow8, W.Storable, Encodable;
    MagicIffMistakable([MagicEntry()]);
  }

  lemma MagicPathIsSafe()
    ensures Paths.New(MAGIC_PATH) == Ok(Paths.SafePath(MAGIC_PATH))
  {
    Paths.Undotted(MAGIC_PATH);
  }
}
