/** Accepting one raw entry: path, kind, size and metadata checks, and the body bound. */
module Open {
  import opened Base
  import opened Errors
  import opened Streams
  import opened F = Framing
  import opened Parser
  import Caps
  import G = Guard
  import Paths

  datatype Kind = File | Dir | Symlink(target: Bytes) | Hardlink(target: Bytes)

  datatype Meta = Meta(mode: u32, uid: u32, gid: u32, mtime: u64, kind: Kind)

  datatype Limits = Limits(
    maxEntries: u64,
    maxTotalBytes: u64,
    maxEntryBytes: u64,
    maxPathLen: u64,
    maxMetadataBytes: u64,
    maxCompressionRatio: u64,
    allowSymlinks: bool,
    allowHardlinks: bool)

  /** What a caller sees of an accepted entry. `sizeBytes` is the header's claim, advisory only. */
  datatype EntryHeader = EntryHeader(path: Paths.SafePath, meta: Meta, sizeBytes: u64)

  const REGULAR: byte := 48
  const HARD_LINK: byte := 49
  const SYMBOLIC_LINK: byte := 50
  const DIRECTORY: byte := 53
  const CONTINUOUS: byte := 55

  function ValidatePath(codec: Codec, item: Item, limits: Limits): Result<Paths.SafePath, Error> {
    match codec.path(item.block, item.member)
    case None => Err(Malformed)
    case Some(raw) =>
      if |raw| > limits.maxPathLen then Err(LimitExceeded("max_path_len")) else Paths.New(raw)
  }

  function Link(codec: Codec, item: Item): Result<Bytes, Error> {
    match codec.link(item.block, item.member)
    case None => Err(Malformed)
    case Some(None) => Err(Malformed)
    case Some(Some(target)) => Ok(target)
  }

  function Classify(codec: Codec, item: Item, limits: Limits): Result<Kind, Error> {
    var kind := item.record.kind;
    if kind == 0 || kind == REGULAR || kind == CONTINUOUS then Ok(File)
    else if kind == DIRECTORY then Ok(Dir)
    else if kind == SYMBOLIC_LINK && limits.allowSymlinks then
      match Link(codec, item) case Ok(target) => Ok(Symlink(target)) case Err(e) => Err(e)
    else if kind == HARD_LINK && limits.allowHardlinks then
      match Link(codec, item) case Ok(target) => Ok(Hardlink(target)) case Err(e) => Err(e)
    else Err(DisallowedEntryType)
  }

  /** A tar uid or gid narrowed to 32 bits. */
  function SmallId(id: Option<u64>): Result<u32, Error> {
    if id.Some? && id.value <= U32_MAX then Ok(id.value) else Err(Malformed)
  }

  function ReadMeta(codec: Codec, item: Item, kind: Kind): Result<Meta, Error> {
    var mode, mtime := codec.mode(item.block, item.member), codec.mtime(item.block, item.member);
    var uid, gid := SmallId(codec.uid(item.block, item.member)), SmallId(codec.gid(item.block, item.member));
    if mode.None? || uid.Err? || gid.Err? || mtime.None? then Err(Malformed)
    else Ok(Meta(mode.value, uid.value, gid.value, mtime.value, kind))
  }

  /**
   `open_entry`. Only safe paths within the length limit, permitted kinds, and claimed
   sizes within the entry limit get through, and only files may claim a size.
   */
  function OpenEntry(codec: Codec, item: Item, limits: Limits): (r: Result<EntryHeader, Error>)
    ensures r.Ok? ==>
      && Paths.New(r.value.path.bytes) == Ok(r.value.path) && |r.value.path.bytes| <= limits.maxPathLen
      && r.value.sizeBytes <= limits.maxEntryBytes
      && (!r.value.meta.kind.File? ==> r.value.sizeBytes == 0)
      && (r.value.meta.kind.File? ==> item.record.kind in {0, 48, 55})
      && (r.value.meta.kind.Dir? ==> item.record.kind == 53)
      && (r.value.meta.kind.Symlink? ==> item.record.kind == 50 && limits.allowSymlinks)
      && (r.value.meta.kind.Hardlink? ==> item.record.kind == 49 && limits.allowHardlinks)
  {
    match ValidatePath(codec, item, limits)
    case Err(e) => Err(e)
    case Ok(path) =>
      match Classify(codec, item, limits)
      case Err(e) => Err(e)
      case Ok(kind) =>
        var size := item.record.raw;
        if !kind.File? && size != 0 then Err(NonFilePayload)
        else if size > limits.maxEntryBytes then Err(LimitExceeded("max_entry_bytes"))
        else
          match ReadMeta(codec, item, kind)
          case Err(e) => Err(e)
          case Ok(meta) => Ok(EntryHeader(path, meta, size))
  }

  /** The path can be read, is not too long, and is a safe one. */
  ghost predicate SafelyNamed(codec: Codec, item: Item, limits: Limits) {
    && codec.path(item.block, item.member).Some?
    && var p := codec.path(item.block, item.member).value;
    && |p| <= limits.maxPathLen && Paths.New(p).Ok?
  }

  /** The type bytes of a file: NUL, '0' and '7'. */
  predicate FileKind(kind: byte) {
    kind in {0, 48, 55}
  }

  /** A symbolic link, '2', or a hard link, '1', that the limits allow. */
  predicate LinkKind(kind: byte, limits: Limits) {
    (kind == 50 && limits.allowSymlinks) || (kind == 49 && limits.allowHardlinks)
  }

  /** The codec finds a link target. */
  ghost predicate HasTarget(codec: Codec, item: Item) {
    codec.link(item.block, item.member).Some? && codec.link(item.block, item.member).value.Some?
  }

  ghost predicate Permitted(codec: Codec, item: Item, limits: Limits) {
    var kind := item.record.kind;
    FileKind(kind) || kind == 53 || (LinkKind(kind, limits) && HasTarget(codec, item))
  }

  /** Mode, time and owners can be read, and the owners fit 32 bits. */
  ghost predicate Owned(codec: Codec, item: Item) {
    var uid, gid := codec.uid(item.block, item.member), codec.gid(item.block, item.member);
    && codec.mode(item.block, item.member).Some? && codec.mtime(item.block, item.member).Some?
    && uid.Some? && uid.value <= 0xFFFF_FFFF && gid.Some? && gid.value <= 0xFFFF_FFFF
  }

  /** Exactly which raw entries are opened, and exactly when each error is reported. */
  lemma OpensIff(codec: Codec, item: Item, limits: Limits)
    ensures OpenEntry(codec, item, limits).Ok? <==>
      (&& SafelyNamed(codec, item, limits) && Permitted(codec, item, limits) && Owned(codec, item)
       && item.record.raw <= limits.maxEntryBytes && (item.record.raw == 0 || FileKind(item.record.kind)))
    ensures OpenEntry(codec, item, limits) == Err(NonFilePayload) <==>
      (&& SafelyNamed(codec, item, limits) && Permitted(codec, item, limits)
       && !FileKind(item.record.kind) && item.record.raw != 0)
    ensures OpenEntry(codec, item, limits) == Err(LimitExceeded("max_entry_bytes")) <==>
      (&& SafelyNamed(codec, item, limits) && FileKind(item.record.kind) && item.record.raw > limits.maxEntryBytes)
    ensures OpenEntry(codec, item, limits) == Err(DisallowedEntryType) <==>
      (&& SafelyNamed(codec, item, limits) && !FileKind(item.record.kind)
       && item.record.kind != 53 && !LinkKind(item.record.kind, limits))
    ensures OpenEntry(codec, item, limits) == Err(LimitExceeded("max_path_len")) <==>
      (&& codec.path(item.block, item.member).Some?
       && |codec.path(item.block, item.member).value| > limits.maxPathLen)
    ensures var path := codec.path(item.block, item.member);
      path.Some? && |path.value| <= limits.maxPathLen && Paths.New(path.value).Err? ==>
        OpenEntry(codec, item, limits) == Err(Paths.New(path.value).error)
    ensures OpenEntry(codec, item, limits) == Err(Malformed) <==>
      || codec.path(item.block, item.member).None?
      || (SafelyNamed(codec, item, limits) && LinkKind(item.record.kind, limits) && !HasTarget(codec, item))
      || (&& SafelyNamed(codec, item, limits) && Permitted(codec, item, limits) && !Owned(codec, item)
          && item.record.raw <= limits.maxEntryBytes && (item.record.raw == 0 || FileKind(item.record.kind)))
  {
    if codec.path(item.block, item.member).Some? {
      Paths.NewIff(codec.path(item.block, item.member).value);
    }
    hide Paths.New, Paths.Segments;
    assert "max_entry_bytes"[4] != "max_path_len"[4];
  }

  /**
   What an opened entry is: its kind is told by the type byte alone, and everything else by
   the accessors. A link is opened only if links of its own kind are allowed, and given that
   nothing else is wrong with it, it is refused only if they are not.
   */
  lemma KindsInNumbers(codec: Codec, item: Item, limits: Limits)
    ensures OpenEntry(codec, item, limits).Ok? ==>
      var (h, kind) := (OpenEntry(codec, item, limits).value, item.record.kind);
      && (h.meta.kind.File? <==> kind in {0, 48, 55}) && (h.meta.kind.Dir? <==> kind == 53)
      && (h.meta.kind.Symlink? <==> kind == 50) && (h.meta.kind.Hardlink? <==> kind == 49)
      && (h.meta.kind.Symlink? ==> codec.link(item.block, item.member) == Some(Some(h.meta.kind.target)))
      && (h.meta.kind.Hardlink? ==> codec.link(item.block, item.member) == Some(Some(h.meta.kind.target)))
      && codec.path(item.block, item.member) == Some(h.path.bytes) && h.sizeBytes == item.record.raw
      && codec.mode(item.block, item.member) == Some(h.meta.mode)
      && codec.mtime(item.block, item.member) == Some(h.meta.mtime)
      && codec.uid(item.block, item.member) == Some(h.meta.uid)
      && codec.gid(item.block, item.member) == Some(h.meta.gid)
    ensures SafelyNamed(codec, item, limits) && HasTarget(codec, item) && Owned(codec, item) && item.record.raw == 0 ==>
      && (item.record.kind == 50 ==> (OpenEntry(codec, item, limits).Ok? <==> limits.allowSymlinks))
      && (item.record.kind == 49 ==> (OpenEntry(codec, item, limits).Ok? <==> limits.allowHardlinks))
      && (item.record.kind in {49, 50} && OpenEntry(codec, item, limits).Err? ==>
        OpenEntry(codec, item, limits) == Err(DisallowedEntryType))
  {
    OpensIff(codec, item, limits);
    if codec.path(item.block, item.member).Some? {
      Paths.NewIff(codec.path(item.block, item.member).value);
    }
    hide Paths.New;
  }

  /** Caps one entry's body, and fails every read once the body has exceeded its cap. */
  class Bounded {
    const inner: Entries
    var remaining: u64
    var failed: bool
    ghost const cap: u64
    /** Body bytes handed to the caller and not withdrawn. */
    ghost var delivered: nat

    ghost function Footprint(): set<object> {
      inner.Footprint() + {this}
    }

    ghost predicate Valid()
      reads this
    {
      delivered + remaining == cap
    }

    constructor (inner: Entries, cap: u64)
      ensures Valid() && this.inner == inner && this.cap == cap && delivered == 0 && !failed
    {
      this.inner, this.cap := inner, cap;
      remaining, failed, delivered := cap, false, 0;
    }

    /** One poll of the body, with the parser's own answer unless the cap is exceeded. */
    method PollRead(buf: ReadBuf) returns (p: Poll)
      requires Valid() && buf.Valid() && inner.Steady()
      modifies inner.guard.Footprint(), inner`bodyLeft, this, buf
      ensures Valid() && buf.Valid() && inner.Steady() && old(delivered) <= delivered <= cap
      ensures |buf.filled| - |old(buf.filled)| == delivered - old(delivered)
      ensures old(failed) ==> failed && p == Failed(CapError("aborted entry body")) && buf.filled == old(buf.filled)
      // a breach withdraws the read
      ensures failed && !old(failed) ==> p == Failed(CapError("max_entry_bytes")) && buf.filled == old(buf.filled)
      ensures failed && !old(failed) ==>
        inner.guard.taken - old(inner.guard.taken) > remaining && remaining == old(remaining)
      ensures var g := inner.guard;
        && old(g.taken) <= g.taken <= |g.input| && g.taken + inner.bodyLeft == old(g.taken + inner.bodyLeft)
        && (!failed ==> buf.filled == old(buf.filled) + g.input[old(g.taken)..g.taken])
      ensures p.Pending? ==> buf.filled == old(buf.filled)
      ensures p.Ready? && buf.filled == old(buf.filled) ==>
        |buf.filled| == buf.capacity || inner.bodyLeft == 0 || (inner.guard.AtEof() && inner.guard.inner.AtEnd())
      ensures inner.guard.Source().stalls <= old(inner.guard.Source().stalls)
      ensures p.Pending? ==> inner.guard.Source().stalls < old(inner.guard.Source().stalls)
      ensures !p.Failed? ==> !failed && (old(inner.guard.Clean()) ==> inner.guard.Clean())
      ensures p.Failed? && !failed && old(inner.guard.Clean()) ==> inner.BodyLost(p.error)
    {
      hide Frame, After, Scan, G.HeaderGuard.Valid, G.HeaderGuard.AtEof, Caps.Cap.Failure, Caps.Cap.AtEnd;
      if failed {
        inner.guard.TakenWithinInput();
        return Failed(CapError("aborted entry body"));
      }
      var before := |buf.filled|;
      p := inner.PollBody(buf);
      var read := |buf.filled| - before;
      if read > remaining {
        buf.SetFilled(before);
        failed := true;
        return Failed(CapError("max_entry_bytes"));
      }
      remaining := remaining - read;
      delivered := delivered + read;
    }
  }
}
