/** Writer to reader: what is packed is what is listed. */
module RoundTrip {
  import opened Base
  import opened Errors
  import opened F = Framing
  import opened Parser
  import opened Open
  import opened Listings
  import opened Pack
  import opened W = Writers
  import Caps
  import Compress
  import Output
  import Paths
  import R = Readers
  import S = Streams

  /** The type byte the builder writes for a kind. */
  function KindByte(kind: Kind): byte {
    match kind
    case File => REGULAR
    case Dir => DIRECTORY
    case Symlink(_) => SYMBOLIC_LINK
    case Hardlink(_) => HARD_LINK
  }

  function Target(kind: Kind): Option<Bytes> {
    match kind
    case File => None
    case Dir => None
    case Symlink(target) => Some(target)
    case Hardlink(target) => Some(target)
  }

  /** The extensions a reader has collected when it reaches an entry's header. */
  function Preceding(head: Head): Member {
    match head.longName
    case None => NO_EXTENSIONS
    case Some(name) => NO_EXTENSIONS.(longName := Some(name + [0]))
  }

  /** A header block the guard accepts, of the given kind and size. */
  ghost predicate WellFormed(size: Bytes -> Option<u64>, codec: Codec, block: Bytes, kind: byte, n: nat) {
    |block| == BLOCK && block[KIND_OFFSET] == kind && kind != 0 && codec.checksum(block) && size(block) == Some(n)
  }

  /** Reading back what the encoder writes for one entry gives the entry, with the path as the builder stores it. */
  ghost predicate ReadsBack(
    enc: Encoding, size: Bytes -> Option<u64>, codec: Codec, stored: Bytes -> Bytes, path: Bytes, meta: Meta, n: u64)
  {
    enc.header(path, meta, n).Some? ==>
      var head := enc.header(path, meta, n).value;
      && WellFormed(size, codec, head.block, KindByte(meta.kind), n)
      && codec.path(head.block, Preceding(head)) == Some(stored(path))
      && codec.link(head.block, Preceding(head)) == Some(Target(meta.kind))
      && codec.mode(head.block, Preceding(head)) == Some(meta.mode)
      && codec.mtime(head.block, Preceding(head)) == Some(meta.mtime)
      && codec.uid(head.block, Preceding(head)) == Some(meta.uid)
      && codec.gid(head.block, Preceding(head)) == Some(meta.gid)
      && match head.longName
         case None => true
         case Some(name) => WellFormed(size, codec, enc.longHeader(|name| + 1), LONG_NAME, |name| + 1)
  }

  /** The builder's path normalisation keeps safe paths safe. */
  ghost predicate KeepsSafe(stored: Bytes -> Bytes, path: Bytes) {
    Paths.New(path).Ok? ==> Paths.New(stored(path)).Ok?
  }

  /** The header encoder of the builder and the header accessors of the parser agree. */
  ghost predicate Faithful(enc: Encoding, size: Bytes -> Option<u64>, codec: Codec, stored: Bytes -> Bytes) {
    && (forall path, meta, n :: ReadsBack(enc, size, codec, stored, path, meta, n))
    && (forall path :: KeepsSafe(stored, path))
    && R.SameReadings(size, codec)
  }

  /** The entry is within the reader's limits. */
  ghost predicate WithinLimits(enc: Encoding, limits: Limits, stored: Bytes -> Bytes, s: Stored)
    requires Storable(enc, s)
  {
    var head := enc.header(s.path.bytes, s.meta, |s.body|).value;
    && Paths.New(s.path.bytes) == Ok(s.path)
    && |stored(s.path.bytes)| <= limits.maxPathLen && |s.body| <= limits.maxEntryBytes
    && (s.meta.kind.Symlink? ==> limits.allowSymlinks) && (s.meta.kind.Hardlink? ==> limits.allowHardlinks)
    && (head.longName.Some? ==> |head.longName.value| + 1 <= limits.maxMetadataBytes)
  }

  ghost predicate AllWithin(enc: Encoding, limits: Limits, stored: Bytes -> Bytes, entries: seq<Stored>)
    requires AllStorable(enc, entries)
  {
    |entries| <= limits.maxEntries && forall i :: 0 <= i < |entries| ==> WithinLimits(enc, limits, stored, entries[i])
  }

  /** What a reader should see of a stored entry. */
  function Expected(stored: Bytes -> Bytes, s: Stored): Entry
    requires |s.body| <= U64_MAX
  {
    Entry(EntryHeader(Paths.SafePath(stored(s.path.bytes)), s.meta, |s.body|), s.body)
  }

  function AllExpected(stored: Bytes -> Bytes, entries: seq<Stored>): seq<Entry>
    requires forall i :: 0 <= i < |entries| ==> |entries[i].body| <= U64_MAX
  {
    seq(|entries|, i requires 0 <= i < |entries| => Expected(stored, entries[i]))
  }

  /** The setting of a round trip: an encoder and a reader context that agree. */
  ghost predicate Agreeing(enc: Encoding, x: Context, stored: Bytes -> Bytes) {
    && Faithful(enc, x.cfg.size, x.codec, stored) && x.cfg.maxMetadata == x.limits.maxMetadataBytes
    && |x.input| <= U64_MAX
  }

  function HeadOf(enc: Encoding, s: Stored): Head
    requires Storable(enc, s)
  {
    enc.header(s.path.bytes, s.meta, |s.body|).value
  }

  /** The record the guard frames for an entry whose header is at `at`. */
  function RecordAt(s: Stored, at: nat): Record
    requires |s.body| <= U64_MAX
  {
    Record(at, KindByte(s.meta.kind), |s.body|, |s.body|)
  }

  /**
   The type bytes the writer stores: '0' for a file, '5' for a directory, '2' for a symbolic
   and '1' for a hard link in the last block before the body, and 'L' in a long-name record.
   */
  lemma TypeBytes(enc: Encoding, size: Bytes -> Option<u64>, codec: Codec, stored: Bytes -> Bytes, s: Stored)
    requires Faithful(enc, size, codec, stored) && Storable(enc, s)
    ensures var record, at := StoredRecord(enc, s), |StoredRecord(enc, s)| - (|s.body| + 511) / 512 * 512 - 512;
      && at >= 0
      && (s.meta.kind.File? ==> record[at + 156] == 48) && (s.meta.kind.Dir? ==> record[at + 156] == 53)
      && (s.meta.kind.Symlink? ==> record[at + 156] == 50) && (s.meta.kind.Hardlink? ==> record[at + 156] == 49)
      && (at > 0 ==> record[156] == 76)
  {
    assert ReadsBack(enc, size, codec, stored, s.path.bytes, s.meta, |s.body|);
    var head := HeadOf(enc, s);
    assert StoredRecord(enc, s) == Preamble(enc, head) + Padded(s.body);
    assert |Padded(s.body)| == (|s.body| + 511) / 512 * 512;
    var preamble := Preamble(enc, head);
    assert preamble[|preamble| - BLOCK..] == head.block;
    assert preamble[|preamble| - BLOCK + 156] == head.block[156];
    if head.longName.Some? {
      assert preamble[156] == enc.longHeader(|head.longName.value| + 1)[156];
    }
  }

  /** A finished archive ends in 1024 zero bytes behind its records. */
  lemma TrailerBytes(enc: Encoding, entries: seq<Stored>)
    requires AllStorable(enc, entries)
    ensures var n := |Records(enc, entries)|;
      && |TarOf(enc, entries)| == n + 1024 && TarOf(enc, entries)[..n] == Records(enc, entries)
      && forall i :: n <= i < n + 1024 ==> TarOf(enc, entries)[i] == 0
  {
    hide Records;
  }

  /** A header that reads back is framed as its entry. */
  lemma HeaderFrames(cfg: Config, codec: Codec, block: Bytes, kind: byte, n: u64)
    requires WellFormed(cfg.size, codec, block, kind, n) && Allowed(kind) && n + 511 <= U64_MAX
    requires Extension(kind) ==> n <= cfg.maxMetadata
    ensures Inspect(cfg, block, None) == Framed(kind, n, n)
  {
    assert block[KIND_OFFSET] != 0;
  }

  lemma SafeKeepsBytes(path: Bytes)
    requires Paths.New(path).Ok?
    ensures Paths.New(path) == Ok(Paths.SafePath(path))
  {
    Paths.NewIff(path);
  }

  /** A header that reads back is opened as its entry. */
  lemma HeaderOpens(enc: Encoding, x: Context, stored: Bytes -> Bytes, s: Stored, at: nat)
    requires Agreeing(enc, x, stored) && Storable(enc, s) && WithinLimits(enc, x.limits, stored, s)
    ensures var head := HeadOf(enc, s);
      OpenEntry(x.codec, Item(head.block, Preceding(head), RecordAt(s, at)), x.limits) == Ok(Expected(stored, s).header)
  {
    assert ReadsBack(enc, x.cfg.size, x.codec, stored, s.path.bytes, s.meta, |s.body|);
    assert KeepsSafe(stored, s.path.bytes);
    SafeKeepsBytes(stored(s.path.bytes));
    hide Paths.New;
  }

  /** The header of an entry is framed, sound, and opened as the entry. */
  lemma HeaderReads(enc: Encoding, x: Context, stored: Bytes -> Bytes, s: Stored, at: nat)
    requires Agreeing(enc, x, stored) && Storable(enc, s) && WithinLimits(enc, x.limits, stored, s)
    requires |s.body| + 511 <= U64_MAX
    ensures var head := HeadOf(enc, s);
      && |head.block| == BLOCK && x.codec.checksum(head.block)
      && Inspect(x.cfg, head.block, Override(x.cfg, Preceding(head)))
        == Framed(KindByte(s.meta.kind), |s.body|, |s.body|)
      && OpenEntry(x.codec, Item(head.block, Preceding(head), RecordAt(s, at)), x.limits)
        == Ok(Expected(stored, s).header)
  {
    assert ReadsBack(enc, x.cfg.size, x.codec, stored, s.path.bytes, s.meta, |s.body|);
    HeaderFrames(x.cfg, x.codec, HeadOf(enc, s).block, KindByte(s.meta.kind), |s.body|);
    HeaderOpens(enc, x, stored, s, at);
    hide OpenEntry, F.Inspect, Faithful, WithinLimits;
  }

  /** An ordinary record is listed as its entry. */
  lemma OrdinaryRead(enc: Encoding, x: Context, stored: Bytes -> Bytes, s: Stored, at: nat, seen: nat)
    requires Agreeing(enc, x, stored) && Storable(enc, s) && WithinLimits(enc, x.limits, stored, s)
    requires seen < x.limits.maxEntries && at + BLOCK + RoundUp(|s.body|) + BLOCK <= |x.input|
    requires x.input[at..at + BLOCK] == HeadOf(enc, s).block
    requires x.input[at + BLOCK..at + BLOCK + |s.body|] == s.body
    ensures List(x, at, Preceding(HeadOf(enc, s)), seen)
      == Cons(Expected(stored, s), List(x, at + BLOCK + RoundUp(|s.body|), NO_EXTENSIONS, seen + 1))
  {
    hide OpenEntry, F.Inspect, ReadsBack, Faithful, WithinLimits, List, HeadOf, Storable, Override, Preceding;
    HeaderReads(enc, x, stored, s, at);
    assert BodyOf(x.input, RecordAt(s, at)) == s.body;
    ListOrdinary(x, at, Preceding(HeadOf(enc, s)), seen, RecordAt(s, at), Expected(stored, s).header);
  }

  /** A long-name record is collected for the entry behind it. */
  lemma LongNameRead(enc: Encoding, x: Context, name: Bytes, at: nat, seen: nat)
    requires WellFormed(x.cfg.size, x.codec, enc.longHeader(|name| + 1), LONG_NAME, |name| + 1)
    requires |name| + 1 <= x.cfg.maxMetadata && |x.input| <= U64_MAX
    requires at + BLOCK + RoundUp(|name| + 1) <= |x.input|
    requires x.input[at..at + BLOCK] == enc.longHeader(|name| + 1)
    requires x.input[at + BLOCK..at + BLOCK + |name| + 1] == name + [0]
    ensures List(x, at, NO_EXTENSIONS, seen)
      == List(x, at + BLOCK + RoundUp(|name| + 1), NO_EXTENSIONS.(longName := Some(name + [0])), seen)
  {
    hide List, F.Inspect;
    HeaderFrames(x.cfg, x.codec, enc.longHeader(|name| + 1), LONG_NAME, |name| + 1);
    ListExtension(x, at, NO_EXTENSIONS, seen, Record(at, LONG_NAME, |name| + 1, |name| + 1), name + [0]);
  }

  /** Two adjacent pieces of the input, read separately. */
  lemma SplitAt(input: Bytes, at: nat, a: Bytes, b: Bytes)
    requires at + |a| + |b| <= |input| && input[at..at + |a| + |b|] == a + b
    ensures input[at..at + |a|] == a && input[at + |a|..at + |a| + |b|] == b
  {
    var both := input[at..at + |a| + |b|];
    assert both[..|a|] == a && both[|a|..] == b;
    SliceOfSlice(input, at, at + |a| + |b|, 0, |a|);
    SliceOfSlice(input, at, at + |a| + |b|, |a|, |a| + |b|);
  }

  lemma HeadIsBlock(enc: Encoding, x: Context, stored: Bytes -> Bytes, s: Stored)
    requires Agreeing(enc, x, stored) && Storable(enc, s) && WithinLimits(enc, x.limits, stored, s)
    ensures |HeadOf(enc, s).block| == BLOCK
    ensures HeadOf(enc, s).longName.Some? ==>
      var n := |HeadOf(enc, s).longName.value| + 1;
      && n <= x.cfg.maxMetadata && WellFormed(x.cfg.size, x.codec, enc.longHeader(n), LONG_NAME, n)
      && |enc.longHeader(n)| == BLOCK
  {
    assert ReadsBack(enc, x.cfg.size, x.codec, stored, s.path.bytes, s.meta, |s.body|);
  }

  /** The preamble of a record leads to its header, with the long name collected. */
  lemma PreambleRead(enc: Encoding, x: Context, head: Head, at: nat, seen: nat)
    requires |head.block| == BLOCK && |x.input| <= U64_MAX
    requires head.longName.Some? ==>
      var n := |head.longName.value| + 1;
      && n <= x.cfg.maxMetadata && WellFormed(x.cfg.size, x.codec, enc.longHeader(n), LONG_NAME, n)
      && |enc.longHeader(n)| == BLOCK
    requires var n := |Preamble(enc, head)|; at + n <= |x.input| && x.input[at..at + n] == Preamble(enc, head)
    ensures var next := at + |Preamble(enc, head)| - BLOCK;
      && next >= at && x.input[next..next + BLOCK] == head.block
      && List(x, at, NO_EXTENSIONS, seen) == List(x, next, Preceding(head), seen)
  {
    hide List, WellFormed;
    if head.longName.Some? {
      var name := head.longName.value;
      var long, text := enc.longHeader(|name| + 1), Padded(name + [0]);
      assert Preamble(enc, head) == long + (text + head.block);
      SplitAt(x.input, at, long, text + head.block);
      SplitAt(x.input, at + BLOCK, text, head.block);
      SplitAt(x.input, at + BLOCK, name + [0], text[|name| + 1..]);
      LongNameRead(enc, x, name, at, seen);
    }
  }

  /** A whole record, with its long name if it has one, is listed as its entry. */
  lemma RecordRead(enc: Encoding, x: Context, stored: Bytes -> Bytes, s: Stored, at: nat, seen: nat)
    requires Agreeing(enc, x, stored) && Storable(enc, s) && WithinLimits(enc, x.limits, stored, s)
    requires seen < x.limits.maxEntries
    requires var n := |StoredRecord(enc, s)|; at + n + BLOCK <= |x.input| && x.input[at..at + n] == StoredRecord(enc, s)
    ensures List(x, at, NO_EXTENSIONS, seen)
      == Cons(Expected(stored, s), List(x, at + |StoredRecord(enc, s)|, NO_EXTENSIONS, seen + 1))
  {
    hide List, FromScan, Scan, Faithful, WithinLimits, Expected, WellFormed, Storable, Preamble, ReadsBack;
    var head := HeadOf(enc, s);
    var preamble, body := Preamble(enc, head), Padded(s.body);
    assert StoredRecord(enc, s) == preamble + body && |body| == RoundUp(|s.body|) && |s.body| <= |body|;
    assert body == s.body + body[|s.body|..];
    hide StoredRecord, Padded, RoundUp;
    SplitAt(x.input, at, preamble, body);
    HeadIsBlock(enc, x, stored, s);
    PreambleRead(enc, x, head, at, seen);
    SplitAt(x.input, at + |preamble|, s.body, body[|s.body|..]);
    OrdinaryRead(enc, x, stored, s, at + |preamble| - BLOCK, seen);
  }

  lemma {:induction false} RecordsPrefix(enc: Encoding, entries: seq<Stored>, k: nat)
    requires AllStorable(enc, entries) && k <= |entries|
    ensures Records(enc, entries[..k]) <= Records(enc, entries)
    decreases |entries|
  {
    var n := |entries|;
    if k < n {
      assert entries[..n - 1][..k] == entries[..k];
      RecordsPrefix(enc, entries[..n - 1], k);
    } else {
      assert entries[..k] == entries;
    }
  }

  lemma FirstRecord(enc: Encoding, entries: seq<Stored>)
    requires AllStorable(enc, entries) && entries != []
    ensures StoredRecord(enc, entries[0]) <= TarOf(enc, entries)
  {
    hide StoredRecord, Storable;
    RecordsPrefix(enc, entries, 1);
    assert entries[..1] == [entries[0]] && [entries[0]][..0] == [];
    assert Records(enc, [entries[0]]) == [] + StoredRecord(enc, entries[0]);
  }

  /** The zeros behind the last record end the listing cleanly. */
  lemma TerminatorRead(x: Context, at: nat, seen: nat)
    requires at <= |x.input| && x.input[at..] == Zeros(TERMINATOR)
    ensures List(x, at, NO_EXTENSIONS, seen) == Listing([], Finished)
  {
    var zeros := Zeros(TERMINATOR);
    assert x.input[at..at + BLOCK] == zeros[..BLOCK];
    assert x.input[at + BLOCK..] == zeros[BLOCK..];
    assert AllZero(x.input[at..at + BLOCK]) && Tail(x.input, at + BLOCK) == Finished;
    hide Tail, AllZero;
    assert Scan(x.cfg, x.codec, x.input, at, NO_EXTENSIONS) == EndBlock(at + BLOCK);
    hide Scan;
    assert FromScan(x, EndBlock(at + BLOCK), seen) == Listing([], Finished);
  }

  /** From the `k`-th record on, a finished archive is listed as the entries from the `k`-th on. */
  lemma {:induction false} RecordsRead(enc: Encoding, x: Context, stored: Bytes -> Bytes, entries: seq<Stored>, k: nat)
    requires Agreeing(enc, x, stored) && AllStorable(enc, entries) && AllWithin(enc, x.limits, stored, entries)
    requires x.input == TarOf(enc, entries) && k <= |entries|
    ensures List(x, |Records(enc, entries[..k])|, NO_EXTENSIONS, k)
      == Listing(AllExpected(stored, entries)[k..], Finished)
    decreases |entries| - k
  {
    hide List, FromScan, Scan, Faithful, WithinLimits, Expected, StoredRecord;
    var at := |Records(enc, entries[..k])|;
    if k == |entries| {
      assert entries[..k] == entries;
      assert x.input[at..] == Zeros(TERMINATOR);
      TerminatorRead(x, at, k);
    } else {
      var s, upTo := entries[k], entries[..k + 1];
      assert upTo[..k] == entries[..k] && upTo[k] == s;
      RecordsPrefix(enc, entries, k + 1);
      assert Records(enc, upTo) <= x.input;
      assert x.input[at..at + |StoredRecord(enc, s)|] == StoredRecord(enc, s);
      RecordRead(enc, x, stored, s, at, k);
      RecordsRead(enc, x, stored, entries, k + 1);
      ExpectedFrom(enc, stored, entries, k);
    }
  }

  lemma ExpectedFrom(enc: Encoding, stored: Bytes -> Bytes, entries: seq<Stored>, k: nat)
    requires AllStorable(enc, entries) && k < |entries|
    ensures AllExpected(stored, entries)[k..]
      == [Expected(stored, entries[k])] + AllExpected(stored, entries)[k + 1..]
  {
    hide Expected;
  }

  /** A finished archive, read as tar bytes, lists exactly the entries appended, in order, and ends cleanly. */
  lemma TarReads(enc: Encoding, x: Context, stored: Bytes -> Bytes, entries: seq<Stored>)
    requires Agreeing(enc, x, stored) && AllStorable(enc, entries) && AllWithin(enc, x.limits, stored, entries)
    requires x.input == TarOf(enc, entries)
    ensures R.Listed(x) == Listing(AllExpected(stored, entries), Finished)
  {
    RecordsRead(enc, x, stored, entries, 0);
    assert AllExpected(stored, entries)[0..] == AllExpected(stored, entries);
  }

  // ----- Through the encoded stream -----

  /** A decoder that refuses everything. It is lawful, so no theorem about all decoders may ignore it. */
  function Refuser(): (c: Compress.Coder)
    ensures Compress.Lawful(c)
  {
    Compress.Coder((s: Bytes) => [], (s: Bytes) => false, (s: Bytes) => false)
  }

  /** The setting of a whole round trip. */
  ghost predicate Setting(
    enc: Encoding, size: Bytes -> Option<u64>, codec: Codec, stored: Bytes -> Bytes, limits: Limits,
    entries: seq<Stored>)
  {
    && Faithful(enc, size, codec, stored) && AllStorable(enc, entries) && AllWithin(enc, limits, stored, entries)
    && |TarOf(enc, entries)| <= U64_MAX
  }

  /** The archive this source decodes to is listed as exactly the entries, in order, and a clean end. */
  ghost predicate SeesAll(
    content: Bytes, zstd: Compress.Coder, size: Bytes -> Option<u64>, codec: Codec, stored: Bytes -> Bytes,
    limits: Limits, entries: seq<Stored>)
    requires forall i :: 0 <= i < |entries| ==> |entries[i].body| <= U64_MAX
  {
    R.Listed(R.Meaning(content, zstd, size, codec, limits)) == Listing(AllExpected(stored, entries), Finished)
  }

  /** An archive written as plain tar and not mistaken for zstd reads back whole. */
  lemma PlainReads(
    enc: Encoding, size: Bytes -> Option<u64>, codec: Codec, stored: Bytes -> Bytes, limits: Limits,
    entries: seq<Stored>,
    zstd: Compress.Coder)
    requires Setting(enc, size, codec, stored, limits, entries) && !(Compress.ZSTD_MAGIC <= TarOf(enc, entries))
    ensures SeesAll(TarOf(enc, entries), zstd, size, codec, stored, limits, entries)
  {
    hide Faithful, List, TarOf;
    TarReads(enc, R.Meaning(TarOf(enc, entries), zstd, size, codec, limits), stored, entries);
  }

  /**
   The plain-tar round trip, and exactly when it holds. A reader sniffs the magic of a
   zstd frame in the first four bytes, and a plain archive starts with its first header.
   So the entries come back whatever decoder the reader carries if and only if those
   four bytes are not the magic.
   */
  lemma PlainRoundTrip(
    enc: Encoding, size: Bytes -> Option<u64>, codec: Codec, stored: Bytes -> Bytes, limits: Limits,
    entries: seq<Stored>)
    requires Setting(enc, size, codec, stored, limits, entries)
    ensures (forall zstd :: Compress.Lawful(zstd) ==>
        SeesAll(TarOf(enc, entries), zstd, size, codec, stored, limits, entries))
      <==> !(Compress.ZSTD_MAGIC <= TarOf(enc, entries))
  {
    hide Faithful, TarOf, AllExpected;
    if Compress.ZSTD_MAGIC <= TarOf(enc, entries) {
      var x := R.Meaning(TarOf(enc, entries), Refuser(), size, codec, limits);
      assert R.Listed(x) == Listing([], Fail(Malformed));
      assert !SeesAll(TarOf(enc, entries), Refuser(), size, codec, stored, limits, entries);
    } else {
      forall zstd: Compress.Coder | Compress.Lawful(zstd)
        ensures SeesAll(TarOf(enc, entries), zstd, size, codec, stored, limits, entries)
      {
        PlainReads(enc, size, codec, stored, limits, entries, zstd);
      }
    }
  }

  /** The decoder undoes the encoder on whole streams, which carry the magic. */
  ghost predicate Undoes(zstd: Compress.Coder, encoder: Output.Encoder, tar: Bytes) {
    var stream := encoder.whole(tar);
    Compress.ZSTD_MAGIC <= stream && zstd.decode(stream) == tar && zstd.complete(stream)
  }

  /** The compressed round trip holds for every archive, whatever its first entry is called. */
  lemma CompressedRoundTrip(
    enc: Encoding, size: Bytes -> Option<u64>, codec: Codec, stored: Bytes -> Bytes, limits: Limits,
    entries: seq<Stored>,
    zstd: Compress.Coder, encoder: Output.Encoder)
    requires Setting(enc, size, codec, stored, limits, entries) && Undoes(zstd, encoder, TarOf(enc, entries))
    ensures SeesAll(encoder.whole(TarOf(enc, entries)), zstd, size, codec, stored, limits, entries)
  {
    hide Faithful, List, TarOf;
    TarReads(enc, R.Meaning(encoder.whole(TarOf(enc, entries)), zstd, size, codec, limits), stored, entries);
  }

  /** Every body fits, so a listing of the expected entries is sound for validation. */
  lemma ExpectedIsSound(
    enc: Encoding, x: Context, stored: Bytes -> Bytes, entries: seq<Stored>)
    requires AllStorable(enc, entries) && AllWithin(enc, x.limits, stored, entries)
    requires R.Listed(x) == Listing(AllExpected(stored, entries), Finished)
    ensures R.Sound(x) && forall e :: !R.Invalidates(x, e)
  {
    hide List;
    forall e
      ensures !R.Invalidates(x, e)
    {
      R.SoundIsNeverInvalid(x, e);
    }
    forall e | e in R.Listed(x).entries
      ensures |e.body| <= x.limits.maxEntryBytes
    {
      var i :| 0 <= i < |entries| && e == AllExpected(stored, entries)[i];
      assert WithinLimits(enc, x.limits, stored, entries[i]);
    }
  }

  /** Read back by its magic, the stream decodes to the archive and is within the limits. */
  ghost predicate Recovers(zstd: Compress.Coder, content: Bytes, tar: Bytes, limits: Limits) {
    var coder := Compress.Choose(content, zstd);
    && coder.decode(content) == tar
    && Caps.FitsWithin(coder, content, limits.maxTotalBytes, limits.maxCompressionRatio)
  }

  /** A plain archive within the total cap is recovered as soon as it is not mistaken for zstd. */
  lemma PlainRecovers(zstd: Compress.Coder, tar: Bytes, limits: Limits)
    requires |tar| <= limits.maxTotalBytes && 0 < limits.maxCompressionRatio
    ensures !(Compress.ZSTD_MAGIC <= tar) ==> Recovers(zstd, tar, tar, limits)
  {
    Caps.RawFits(tar, limits.maxTotalBytes, limits.maxCompressionRatio);
  }

  /** A compressed archive is recovered when the decoder undoes the encoder within the caps. */
  lemma CompressedRecovers(zstd: Compress.Coder, encoder: Output.Encoder, tar: Bytes, limits: Limits)
    requires Undoes(zstd, encoder, tar)
    requires Caps.FitsWithin(zstd, encoder.whole(tar), limits.maxTotalBytes, limits.maxCompressionRatio)
    ensures Recovers(zstd, encoder.whole(tar), tar, limits)
  {
  }

  /** A reader with this decoder and these limits can be given the stream, and recovers the archive. */
  ghost predicate Legible(content: Bytes, tar: Bytes, zstd: Compress.Coder, limits: Limits) {
    && |content| <= U64_MAX && Recovers(zstd, content, tar, limits)
    && Compress.Lawful(zstd) && |zstd.decode(content)| <= U64_MAX
  }

  /**
   When an archive as it leaves a writer is legible. In plain format it is, within the caps,
   unless it is mistaken for zstd; compressed, it is when the decoder undoes the encoder.
   */
  lemma LegibleWhen(format: Output.Format, encoder: Output.Encoder, tar: Bytes, zstd: Compress.Coder, limits: Limits)
    requires Compress.Lawful(zstd) && |tar| <= U64_MAX && |Output.Encoded(format, encoder, tar)| <= U64_MAX
    ensures
      (&& format == Output.Tar && !(Compress.ZSTD_MAGIC <= tar) && |zstd.decode(tar)| <= U64_MAX
       && |tar| <= limits.maxTotalBytes && 0 < limits.maxCompressionRatio)
      ==> Legible(Output.Encoded(format, encoder, tar), tar, zstd, limits)
    ensures
      (&& format == Output.TarZstd && Undoes(zstd, encoder, tar)
       && Caps.FitsWithin(zstd, encoder.whole(tar), limits.maxTotalBytes, limits.maxCompressionRatio))
      ==> Legible(Output.Encoded(format, encoder, tar), tar, zstd, limits)
  {
    hide Caps.FitsWithin;
    if format == Output.Tar {
      if |tar| <= limits.maxTotalBytes && 0 < limits.maxCompressionRatio {
        PlainRecovers(zstd, tar, limits);
      }
    } else if Undoes(zstd, encoder, tar)
      && Caps.FitsWithin(zstd, encoder.whole(tar), limits.maxTotalBytes, limits.maxCompressionRatio) {
      CompressedRecovers(zstd, encoder, tar, limits);
    }
  }

  /** The listing of a recovered archive is the entries appended, and gives no reason to refuse it. */
  lemma RecoveredReads(
    enc: Encoding, size: Bytes -> Option<u64>, codec: Codec, stored: Bytes -> Bytes, limits: Limits,
    entries: seq<Stored>,
    zstd: Compress.Coder, content: Bytes)
    requires Setting(enc, size, codec, stored, limits, entries)
    requires Recovers(zstd, content, TarOf(enc, entries), limits)
    ensures SeesAll(content, zstd, size, codec, stored, limits, entries)
    ensures forall e :: !R.Invalidates(R.Meaning(content, zstd, size, codec, limits), e)
    ensures R.Meaning(content, zstd, size, codec, limits).input == TarOf(enc, entries) && R.SameReadings(size, codec)
  {
    hide List, TarOf, Caps.WithinRatio, ReadsBack, R.SameReadings;
    var x := R.Meaning(content, zstd, size, codec, limits);
    TarReads(enc, x, stored, entries);
    ExpectedIsSound(enc, x, stored, entries);
  }

  /** A recovered stream fails for nothing but its transport. */
  lemma OnlyTheTransport(source: S.Source, zstd: Compress.Coder, tar: Bytes, limits: Limits, e: Error)
    requires Recovers(zstd, source.content, tar, limits) && R.NotTheArchive(source, zstd, limits, e)
    ensures exists kind :: e == Io(Transport(kind))
  {
    hide Caps.WithinRatio;
  }

  /** Finish an archive and turn to reading what the sink then holds. */
  method FinishAndReopen(writer: W.Writer, stalls: nat) returns (w: W.WriteOutput, source: S.Source?)
    requires writer.Valid() && AllStorable(writer.enc, writer.entries) && writer.stream.out.base == []
    requires |writer.stream.Encode(TarOf(writer.enc, writer.entries))| <= U64_MAX
    modifies writer.Footprint()
    ensures source != null <==> w.Finalized?
    ensures source != null ==> fresh(source) && source.Valid() && source.taken == 0 && source.stalls == stalls
    ensures source != null ==>
      && source.content == writer.stream.Encode(TarOf(writer.enc, old(writer.entries)))
      && w.encodedBytes == |source.content|
  {
    hide TarOf;
    w := writer.Finish();
    if !w.Finalized? { return w, null; }
    source := new S.Source(w.sink.accepted, stalls);
  }

  /**
   From writer to validator, in either format: finish an archive, then validate what the
   sink holds. Whatever the chunking on either side, the report counts the appended
   entries, the decoded bytes are the archive's, and the encoded bytes are the writer's own
   count; the only other outcomes are a failing sink or source, or a call given up while pending.
   */
  method FinishAndValidate(
    writer: W.Writer, zstd: Compress.Coder, size: Bytes -> Option<u64>, codec: Codec, limits: Limits, stalls: nat,
    ghost stored: Bytes -> Bytes) returns (w: W.WriteOutput, v: Option<R.Validation>)
    requires writer.Valid() && Setting(writer.enc, size, codec, stored, limits, writer.entries)
    requires writer.stream.out.base == []
    requires var tar := TarOf(writer.enc, writer.entries); Legible(writer.stream.Encode(tar), tar, zstd, limits)
    modifies writer.Footprint()
    ensures v.Some? <==> w.Finalized?
    ensures v.Some? && v.value.Report? ==>
      && v.value.entries == |old(writer.entries)|
      && v.value.decodedBytes == |TarOf(writer.enc, old(writer.entries))|
      && v.value.encodedBytes == w.encodedBytes == |writer.stream.Encode(TarOf(writer.enc, old(writer.entries)))|
    ensures v.Some? && v.value.Invalid? ==> exists kind :: v.value.error == Io(Transport(kind))
    ensures v.Some? && v.value.Unfinished? ==> stalls > 0
  {
    ghost var appended, tar := writer.entries, TarOf(writer.enc, writer.entries);
    var source;
    w, source := FinishAndReopen(writer, stalls);
    if source == null { return w, None; }
    RecoveredReads(writer.enc, size, codec, stored, limits, appended, zstd, source.content);
    hide List, TarOf, Faithful, Frame, Recovers, R.NotTheArchive, R.Invalidates;
    var report := R.Validate(source, zstd, size, codec, limits);
    if report.Invalid? { OnlyTheTransport(source, zstd, tar, limits, report.error); }
    return w, Some(report);
  }

  /**
   From writer to reader, in either format: finish an archive, then read every entry of
   what the sink holds. Whatever the chunking on either side, the paths, metadata and
   bodies read are those appended, in order, up to a failing transport or a call given up
   while pending; and a clean end comes only behind the last of them.
   */
  method FinishAndRead(
    writer: W.Writer, zstd: Compress.Coder, size: Bytes -> Option<u64>, codec: Codec, limits: Limits, stalls: nat,
    ghost stored: Bytes -> Bytes) returns (w: W.WriteOutput, o: Option<R.Outcome>, entries: seq<Entry>)
    requires writer.Valid() && Setting(writer.enc, size, codec, stored, limits, writer.entries)
    requires writer.stream.out.base == []
    requires var tar := TarOf(writer.enc, writer.entries); Legible(writer.stream.Encode(tar), tar, zstd, limits)
    modifies writer.Footprint()
    ensures o.Some? <==> w.Finalized?
    ensures entries <= AllExpected(stored, old(writer.entries))
    ensures o.Some? && o.value.AllRead? ==> entries == AllExpected(stored, old(writer.entries))
    ensures o.Some? && o.value.ReadFailed? ==> exists kind :: o.value.error == Io(Transport(kind))
    ensures o.Some? && o.value.ReadGivenUp? ==> stalls > 0
  {
    ghost var appended, tar := writer.entries, TarOf(writer.enc, writer.entries);
    var source;
    w, source := FinishAndReopen(writer, stalls);
    if source == null { return w, None, []; }
    RecoveredReads(writer.enc, size, codec, stored, limits, appended, zstd, source.content);
    hide List, TarOf, Faithful, Frame, Recovers, R.NotTheArchive, R.Invalidates;
    var outcome, read := R.ReadAll(source, zstd, size, codec, limits);
    if outcome.ReadFailed? { OnlyTheTransport(source, zstd, tar, limits, outcome.error); }
    return w, Some(outcome), read;
  }

  /**
   The whole way round, from what a caller puts in to what a caller gets out, in either
   format: append a list of entries to a new writer, finish, and read back. If the writer
   finishes, every append has succeeded, and what is read is the paths, metadata and bodies
   of the list, in order, up to a failing transport or a call given up while pending.
   */
  method PackAndRead(
    jobs: seq<PackEntry>, format: Output.Format, encoder: Output.Encoder, enc: Encoding, sinkStalls: nat,
    zstd: Compress.Coder, size: Bytes -> Option<u64>, codec: Codec, limits: Limits, stalls: nat,
    ghost stored: Bytes -> Bytes)
    returns (w: W.WriteOutput, o: Option<R.Outcome>, entries: seq<Entry>)
    requires Output.Lawful(encoder) && W.Ready(jobs)
    requires AllStorable(enc, W.Items(jobs)) ==>
      && Setting(enc, size, codec, stored, limits, W.Items(jobs))
      && var tar := TarOf(enc, W.Items(jobs)); Legible(Output.Encoded(format, encoder, tar), tar, zstd, limits)
    modifies W.Bodies(jobs)
    ensures o.Some? <==> w.Finalized?
    ensures o.Some? ==> forall i :: 0 <= i < |jobs| ==> Packable(enc, jobs[i], old(W.Items(jobs))[i].body)
    ensures o.Some? ==> AllStorable(enc, old(W.Items(jobs))) && entries <= AllExpected(stored, old(W.Items(jobs)))
    ensures o.Some? && o.value.AllRead? ==> entries == AllExpected(stored, old(W.Items(jobs)))
    ensures o.Some? && o.value.ReadFailed? ==> exists kind :: o.value.error == Io(Transport(kind))
    ensures o.Some? && o.value.ReadGivenUp? ==> stalls > 0
  {
    hide TarOf, Faithful, W.Ready, Recovers, Packable, Compress.Lawful, Output.Lawful, Setting, AllExpected;
    hide W.Writer.Valid, W.Records, AllStorable;
    ghost var items := W.Items(jobs);
    var sink := new S.Sink([], sinkStalls);
    var writer := new W.Writer(sink, format, encoder, enc);
    var answers, states := W.AppendAll(writer, jobs);
    if writer.failed {
      w := writer.Finish();
      return w, None, [];
    }
    assert writer.entries == items;
    writer.HoldsStorable();
    w, o, entries := FinishAndRead(writer, zstd, size, codec, limits, stalls, stored);
    if o.None? { entries := []; }
  }
}
