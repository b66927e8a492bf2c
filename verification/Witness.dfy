/** Concrete archives on which the code does less than one would expect of it. */
module Witnesses {
  import opened Base
  import opened Errors
  import opened F = Framing
  import opened Parser
  import opened Open
  import opened Listings
  import opened RoundTrip
  import opened Ustar
  import Compress
  import Paths
  import Pax
  import R = Readers
  import W = Writers

  /** The guard's settings for these archives, under any limit on extension records. */
  function Cfg(maxMetadata: u64): Config {
    Config(Size, Pax.Read, maxMetadata)
  }

  /** A header block of the given kind and size, with everything else left at zero. */
  function Plain(name: Bytes, kind: byte, size: nat): Bytes
    requires |name| <= 100
  {
    Block(Front(name, 0, 0, 0, size, 0), Back(kind, []))
  }

  lemma PlainReads(name: Bytes, kind: byte, size: nat)
    requires |name| <= 100 && size <= BLOCK
    ensures var b := Plain(name, kind, size);
      && |b| == BLOCK && ChecksumOk(b) && b[KIND_OFFSET] == kind && Size(b) == Some(size)
      && b[..100] == TextField(name, 100) && TextAt(b, 157) == []
      && forall m: Member ::
           Mode(b, m) == Some(0) && Uid(b, m) == Some(0) && Gid(b, m) == Some(0) && Mtime(b, m) == Some(0)
  {
    PowersPositive(7);
    assert Pow8(11) > BLOCK by {
      assert Pow8(11) == 8 * (8 * (8 * (8 * Pow8(7))));
    }
    BlockFields(name, 0, 0, 0, size, 0, kind, []);
    hide Block, Front, Back, ChecksumOk, NumberAt, TextAt, TextField, Pow8;
  }

  /** An archive that starts with a PAX record of one block. */
  function WithPax(body: Bytes, rest: Bytes): Bytes
    requires |body| <= BLOCK
  {
    Plain([], PAX, |body|) + ((body + Zeros(BLOCK - |body|)) + rest)
  }

  lemma WithPaxParts(body: Bytes, rest: Bytes)
    requires 0 < |body| <= BLOCK
    ensures var input := WithPax(body, rest);
      && |input| == 2 * BLOCK + |rest| && input[..BLOCK] == Plain([], PAX, |body|)
      && input[BLOCK..BLOCK + |body|] == body && input[2 * BLOCK..] == rest
  {
    PlainReads([], PAX, |body|);
    hide Plain;
    var head, data := Plain([], PAX, |body|), body + Zeros(BLOCK - |body|);
    Three(head, data, rest);
    var input := WithPax(body, rest);
    assert data[..|body|] == body;
    SliceOfSlice(input, BLOCK, 2 * BLOCK, 0, |body|);
  }

  lemma Three(a: Bytes, b: Bytes, c: Bytes)
    ensures var s := a + (b + c);
      && s[..|a|] == a && s[|a|..|a| + |b|] == b && s[|a| + |b|..] == c
  {
  }

  lemma RestSlice(input: Bytes, rest: Bytes, i: nat, j: nat)
    requires i <= j <= |rest| && |input| == 2 * BLOCK + |rest| && input[2 * BLOCK..] == rest
    ensures input[2 * BLOCK + i..2 * BLOCK + j] == rest[i..j]
  {
    assert input[2 * BLOCK..] == input[2 * BLOCK..|input|];
    SliceOfSlice(input, 2 * BLOCK, |input|, i, j);
  }

  /** An input that starts with a PAX record of one block is framed, and scanned, as that and then the rest. */
  lemma PaxRecordFirst(cfg: Config, codec: Codec, input: Bytes, body: Bytes)
    requires 2 * BLOCK <= |input| && 0 < |body| <= BLOCK && |body| <= cfg.maxMetadata
    requires input[BLOCK..BLOCK + |body|] == body && input[KIND_OFFSET] == PAX
    requires cfg.size(input[0..BLOCK]) == Some(|body|) && codec.checksum(input[0..BLOCK])
    ensures cfg.pax(body).Err? ==> Frame(cfg, input, 0, None).stop == Fault(2 * BLOCK, cfg.pax(body).error)
    ensures cfg.pax(body).Ok? ==>
      && Frame(cfg, input, 0, None).stop == Frame(cfg, input, 2 * BLOCK, cfg.pax(body).value).stop
      && Scan(cfg, codec, input, 0, NO_EXTENSIONS)
        == Scan(cfg, codec, input, 2 * BLOCK, NO_EXTENSIONS.(pax := Some(body)))
  {
    var r := Record(0, PAX, |body|, |body|);
    assert input[0..BLOCK][KIND_OFFSET] == PAX;
    assert Inspect(cfg, input[0..BLOCK], None) == Framed(PAX, |body|, |body|);
    assert r.End() == 2 * BLOCK;
    assert Frame(cfg, input, 0, None) == Prepend([r], After(cfg, input, r, None));
    hide F.Inspect;
  }

  lemma PaxFirst(maxMetadata: u64, body: Bytes, rest: Bytes)
    requires 0 < |body| <= BLOCK && |body| <= maxMetadata
    ensures var cfg, input, read := Cfg(maxMetadata), WithPax(body, rest), Pax.Read(body);
      && (read.Err? ==> Frame(cfg, input, 0, None).stop == Fault(2 * BLOCK, read.error))
      && (read.Ok? ==>
        && Frame(cfg, input, 0, None).stop == Frame(cfg, input, 2 * BLOCK, read.value).stop
        && Scan(cfg, UstarCodec(), input, 0, NO_EXTENSIONS)
          == Scan(cfg, UstarCodec(), input, 2 * BLOCK, NO_EXTENSIONS.(pax := Some(body))))
  {
    hide Frame, After, Scan, Pax.Read, Plain, WithPax, ChecksumOk, Size;
    PlainReads([], PAX, |body|);
    WithPaxParts(body, rest);
    var input := WithPax(body, rest);
    assert input[0..BLOCK] == input[..BLOCK] && input[..BLOCK][KIND_OFFSET] == input[KIND_OFFSET];
    PaxRecordFirst(Cfg(maxMetadata), UstarCodec(), input, body);
  }

  lemma TrailerAt(cfg: Config, codec: Codec, input: Bytes, at: nat, pending: Option<u64>)
    requires at + BLOCK <= |input| && AllZero(input[at..at + BLOCK])
    ensures Frame(cfg, input, at, pending) == Framing([], Trailer(at + BLOCK))
    ensures Scan(cfg, codec, input, at, NO_EXTENSIONS) == EndBlock(at + BLOCK)
    ensures !Final(cfg, input, at, pending)
  {
  }

  // ----- The guard's errors are not final -----

  /** A PAX record with the largest size, an empty file, and the two zero blocks. */
  function Overflowing(): Bytes {
    WithPaxText(Pax.Text(Pax.LargestSize()), Plain([102], REGULAR, 0) + Zeros(2 * BLOCK))
  }

  function WithPaxText(body: Bytes, rest: Bytes): Bytes {
    if |body| <= BLOCK then WithPax(body, rest) else []
  }

  /**
   A rejection that is not final. The file's header is rejected because the size it is given
   overflows when rounded up; inspected again, without that size, it frames to the trailer.
   */
  lemma RejectedOnceOnly(maxMetadata: u64)
    requires 29 <= maxMetadata
    ensures var cfg, input := Cfg(maxMetadata), Overflowing();
      && Frame(cfg, input, 0, None).stop == Fault(2 * BLOCK, MalformedIo()) && |input| == 5 * BLOCK
      && Inspect(cfg, input[2 * BLOCK..3 * BLOCK], Some(U64_MAX)) == Reject(MalformedIo())
      && Leftover(cfg, input[2 * BLOCK..3 * BLOCK], Some(U64_MAX)) == None
      && !Final(cfg, input, 2 * BLOCK, None) && Frame(cfg, input, 2 * BLOCK, None).stop == Trailer(4 * BLOCK)
  {
    hide Frame, After, Scan, Pax.Read, Pax.Text, Pax.LargestSize, Plain, WithPax, ChecksumOk, Size, TextField, TextAt;
    var body, file := Pax.Text(Pax.LargestSize()), Plain([102], REGULAR, 0);
    var rest, cfg, input := file + Zeros(2 * BLOCK), Cfg(maxMetadata), Overflowing();
    Pax.LargestSizeIsRead();
    PlainReads([102], REGULAR, 0);
    PaxFirst(maxMetadata, body, rest);
    WithPaxParts(body, rest);
    RestSlice(input, rest, 0, BLOCK);
    RestSlice(input, rest, BLOCK, 2 * BLOCK);
    assert rest[0..BLOCK] == file && rest[BLOCK..2 * BLOCK] == Zeros(2 * BLOCK)[..BLOCK];
    TrailerAt(cfg, UstarCodec(), input, 3 * BLOCK, None);
    EmptyFile(cfg, input, 2 * BLOCK);
  }

  /** A complete header of an empty regular file is rejected under the largest override, and only under it. */
  lemma EmptyFile(cfg: Config, input: Bytes, at: nat)
    requires at + BLOCK <= |input| && input[at..at + BLOCK][KIND_OFFSET] == REGULAR
    requires cfg.size(input[at..at + BLOCK]) == Some(0)
    ensures Inspect(cfg, input[at..at + BLOCK], Some(U64_MAX)) == Reject(MalformedIo())
    ensures Leftover(cfg, input[at..at + BLOCK], Some(U64_MAX)) == None && !Final(cfg, input, at, None)
    ensures Frame(cfg, input, at, Some(U64_MAX)).stop == Fault(at, MalformedIo())
    ensures Frame(cfg, input, at, None).stop == Frame(cfg, input, at + BLOCK, None).stop
  {
    var block := input[at..at + BLOCK];
    assert Inspect(cfg, block, None) == Framed(REGULAR, 0, 0);
    assert Record(at, REGULAR, 0, 0).End() == at + BLOCK;
  }

  /** The PAX body of one letter has no length in it. */
  lemma LetterIsBad()
    ensures Pax.Read([120]) == Err(MalformedIo())
  {
    assert Pax.SPACE !in [120];
    assert Pax.ReadHead([120]) == Pax.Bad;
  }

  /** A PAX error that is not final: behind the bad body the next header is the zero block. */
  lemma BadPaxOnceOnly(maxMetadata: u64)
    requires 1 <= maxMetadata
    ensures var cfg, input := Cfg(maxMetadata), WithPax([120], Zeros(2 * BLOCK));
      && Frame(cfg, input, 0, None).stop == Fault(2 * BLOCK, MalformedIo())
      && !Final(cfg, input, 2 * BLOCK, None) && Frame(cfg, input, 2 * BLOCK, None).stop == Trailer(3 * BLOCK)
  {
    hide Frame, After, Scan, Pax.Read, Plain, WithPax;
    var rest := Zeros(2 * BLOCK);
    var input := WithPax([120], rest);
    LetterIsBad();
    PaxFirst(maxMetadata, [120], rest);
    WithPaxParts([120], rest);
    RestSlice(input, rest, 0, BLOCK);
    TrailerAt(Cfg(maxMetadata), UstarCodec(), input, 2 * BLOCK, None);
  }

  // ----- A directory with a body -----

  const NINE_SIZE_FIVE: Bytes := [57, 32, 115, 105, 122, 101, 61, 53, 10]

  /** A PAX record that sets size 5, a directory of size 0, one block of data, and the two zero blocks. */
  function FullDirectory(): Bytes {
    WithPax(NINE_SIZE_FIVE, Plain([100], DIRECTORY, 0) + Zeros(3 * BLOCK))
  }

  function DirectoryHeader(): EntryHeader {
    EntryHeader(Paths.SafePath([100]), Meta(0, 0, 0, 0, Dir), 0)
  }

  lemma DirectoryIsSafe()
    ensures Paths.New([100]) == Ok(Paths.SafePath([100]))
  {
    Paths.Undotted([100]);
  }

  lemma NineSizeFiveIsRead()
    ensures Pax.Read(NINE_SIZE_FIVE) == Ok(Some(5))
  {
    hide Pax.Read;
    Pax.BothLengths();
    assert Pax.Text(Pax.Record([57], Pax.SIZE_KEY + [53])) == NINE_SIZE_FIVE;
  }

  /** A directory header in the input is found as an entry of the overriding size. */
  lemma DirectoryFound(cfg: Config, codec: Codec, input: Bytes, at: nat, m: Member)
    requires at + BLOCK <= |input| && input[at..at + BLOCK][KIND_OFFSET] == DIRECTORY
    requires cfg.size(input[at..at + BLOCK]) == Some(0) && codec.checksum(input[at..at + BLOCK])
    requires Override(cfg, m) == Some(5)
    ensures Scan(cfg, codec, input, at, m) == Found(Item(input[at..at + BLOCK], m, Record(at, DIRECTORY, 0, 5)))
  {
    assert Inspect(cfg, input[at..at + BLOCK], Some(5)) == Framed(DIRECTORY, 0, 5);
  }

  /** How an archive is listed that scans as one admitted entry and then the end. */
  lemma ListOne(x: Context, item: Item, header: EntryHeader, end: nat)
    requires Scan(x.cfg, x.codec, x.input, 0, NO_EXTENSIONS) == Found(item) && Admit(x, item, 0) == Ok(header)
    requires Scan(x.cfg, x.codec, x.input, item.record.End(), NO_EXTENSIONS) == EndBlock(end)
    requires end <= |x.input| && Tail(x.input, end) == Finished
    ensures R.Listed(x) == Listing([Entry(header, BodyOf(x.input, item.record))], Finished)
  {
    hide Scan, Admit, Tail, BodyOf;
    ScanInside(x.cfg, x.codec, x.input, 0, NO_EXTENSIONS);
    assert FromScan(x, EndBlock(end), 1) == Listing([], Finished);
  }

  lemma BehindBlock(block: Bytes, zeros: Bytes, i: nat, j: nat)
    requires |block| == BLOCK && AllZero(zeros) && i <= j <= |zeros|
    ensures (block + zeros)[BLOCK + i..BLOCK + j] == Zeros(j - i)
  {
    assert (block + zeros)[BLOCK + i..BLOCK + j] == zeros[i..j];
  }

  /** The blocks of the archive behind its PAX record. */
  lemma FullDirectoryBlocks()
    ensures var input := FullDirectory();
      && |input| == 6 * BLOCK && input[2 * BLOCK..3 * BLOCK] == Plain([100], DIRECTORY, 0)
      && input[3 * BLOCK..3 * BLOCK + 5] == Zeros(5)
      && AllZero(input[4 * BLOCK..5 * BLOCK]) && AllZero(input[5 * BLOCK..])
  {
    hide Plain, WithPax;
    var block, zeros, input := Plain([100], DIRECTORY, 0), Zeros(3 * BLOCK), FullDirectory();
    var rest := block + zeros;
    PlainReads([100], DIRECTORY, 0);
    WithPaxParts(NINE_SIZE_FIVE, rest);
    hide FullDirectory;
    RestSlice(input, rest, 0, BLOCK);
    RestSlice(input, rest, BLOCK, BLOCK + 5);
    RestSlice(input, rest, 2 * BLOCK, 3 * BLOCK);
    RestSlice(input, rest, 3 * BLOCK, 4 * BLOCK);
    assert rest[0..BLOCK] == block;
    BehindBlock(block, zeros, 0, 5);
    BehindBlock(block, zeros, BLOCK, 2 * BLOCK);
    BehindBlock(block, zeros, 2 * BLOCK, 3 * BLOCK);
    assert input[5 * BLOCK..] == input[5 * BLOCK..6 * BLOCK];
  }

  /**
   An accepted directory with a body. The whole archive is listed as one directory that
   claims no size and carries five bytes, and it ends cleanly.
   */
  lemma DirectoryCarriesBytes(limits: Limits)
    requires 9 <= limits.maxMetadataBytes && 1 <= limits.maxPathLen && 1 <= limits.maxEntries
    ensures var x := Context(Cfg(limits.maxMetadataBytes), UstarCodec(), limits, FullDirectory());
      R.Listed(x) == Listing([Entry(DirectoryHeader(), Zeros(5))], Finished)
  {
    hide Frame, Scan, List, OpenEntry, Plain, WithPax, FullDirectory, Pax.Read, ChecksumOk, Size, TextField, TextAt;
    var x := Context(Cfg(limits.maxMetadataBytes), UstarCodec(), limits, FullDirectory());
    var m, r := NO_EXTENSIONS.(pax := Some(NINE_SIZE_FIVE)), Record(2 * BLOCK, DIRECTORY, 0, 5);
    NineSizeFiveIsRead();
    FullDirectoryBlocks();
    PlainReads([100], DIRECTORY, 0);
    FullDirectoryScan(limits.maxMetadataBytes);
    DirectoryFound(x.cfg, x.codec, x.input, 2 * BLOCK, m);
    DirectoryOpens(limits, Item(x.input[2 * BLOCK..3 * BLOCK], m, r));
    assert r.End() == 4 * BLOCK;
    TrailerAt(x.cfg, x.codec, x.input, 4 * BLOCK, None);
    ListOne(x, Item(x.input[2 * BLOCK..3 * BLOCK], m, r), DirectoryHeader(), 5 * BLOCK);
  }

  lemma FullDirectoryScan(maxMetadata: u64)
    requires 9 <= maxMetadata
    ensures var cfg, m := Cfg(maxMetadata), NO_EXTENSIONS.(pax := Some(NINE_SIZE_FIVE));
      Scan(cfg, UstarCodec(), FullDirectory(), 0, NO_EXTENSIONS)
        == Scan(cfg, UstarCodec(), FullDirectory(), 2 * BLOCK, m)
  {
    hide Scan, Frame, Pax.Read, Plain, WithPax;
    NineSizeFiveIsRead();
    PaxFirst(maxMetadata, NINE_SIZE_FIVE, Plain([100], DIRECTORY, 0) + Zeros(3 * BLOCK));
  }

  lemma DirectoryOpens(limits: Limits, item: Item)
    requires item.block == Plain([100], DIRECTORY, 0) && item.member.longName == None
    requires item.record.kind == DIRECTORY && item.record.raw == 0 && 1 <= limits.maxPathLen
    ensures OpenEntry(UstarCodec(), item, limits) == Ok(DirectoryHeader())
  {
    hide Plain, Paths.New, ReadText, ChecksumOk, Size, NumberAt;
    var codec := UstarCodec();
    PlainReads([100], DIRECTORY, 0);
    DirectoryIsSafe();
    DirectoryName(item.block);
    assert codec.path(item.block, item.member) == Some([100]);
    assert ValidatePath(codec, item, limits) == Ok(Paths.SafePath([100])) && Classify(codec, item, limits) == Ok(Dir);
    assert codec.mode(item.block, item.member) == Some(0) && codec.mtime(item.block, item.member) == Some(0);
    assert codec.uid(item.block, item.member) == Some(0) && codec.gid(item.block, item.member) == Some(0);
    assert ReadMeta(codec, item, Dir) == Ok(Meta(0, 0, 0, 0, Dir));
    hide ValidatePath, Classify, ReadMeta, UstarCodec;
  }

  lemma DirectoryName(block: Bytes)
    requires |block| == BLOCK && block[..100] == TextField([100], 100)
    ensures TextAt(block, 0) == [100]
  {
    assert [100] + Zeros(99) == TextField([100], 100) == block[0..0 + 100];
    TextReads([100], 99);
    hide TextField, ReadText;
  }

  // ----- A plain archive that does not come back -----

  /** The archive whose first path starts like a zstd frame is within the limits, and a lawful decoder loses it. */
  lemma MagicEntryIsLost(limits: Limits)
    requires 4 <= limits.maxPathLen && 1 <= limits.maxEntries
    ensures W.AllStorable(UstarEncoding(), [MagicEntry()])
      && AllWithin(UstarEncoding(), limits, Unchanged, [MagicEntry()]) && Compress.Lawful(Refuser())
      && !SeesAll(
        W.TarOf(UstarEncoding(), [MagicEntry()]), Refuser(), Size, UstarCodec(), Unchanged, limits, [MagicEntry()])
  {
    MagicPathIsMistaken();
    MagicEntryWithin(limits);
    hide W.TarOf, Size, Block, Header, AllWithin, W.AllStorable, List, Frame;
    EmptyIsRefused(R.Meaning(W.TarOf(UstarEncoding(), [MagicEntry()]), Refuser(), Size, UstarCodec(), limits));
  }

  lemma EmptyIsRefused(x: Context)
    requires x.input == []
    ensures R.Listed(x) == Listing([], Fail(Malformed))
  {
  }

  lemma MagicEntryWithin(limits: Limits)
    requires 4 <= limits.maxPathLen && 1 <= limits.maxEntries && W.AllStorable(UstarEncoding(), [MagicEntry()])
    ensures AllWithin(UstarEncoding(), limits, Unchanged, [MagicEntry()])
  {
    MagicPathIsSafe();
    HeaderName(MagicEntry());
    hide Paths.New, Block, TextField;
    assert WithinLimits(UstarEncoding(), limits, Unchanged, MagicEntry());
  }
}
