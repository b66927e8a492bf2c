/** Tar record emission: exact-length bodies, metadata records, and the builder they go through. */
module Pack {
  import opened Base
  import opened Errors
  import opened Streams
  import opened Output
  import Open
  import Paths

  /**
   A declared model of the header encoder of the tar builder (the `tokio_tar` dependency,
   whose source is not part of this model). For a path, metadata and size it yields a
   header block, preceded by the long name when the path does not fit, or it refuses.
   */
  datatype Head = Head(longName: Option<Bytes>, block: Bytes)

  datatype Encoding = Encoding(
    header: (Bytes, Open.Meta, u64) -> Option<Head>,
    longHeader: nat -> Bytes)

  /** A body padded to whole blocks. */
  function Padded(body: Bytes): Bytes {
    body + Zeros(RoundUp(|body|) - |body|)
  }

  /** What the builder writes before the body: the long-name record, if any, then the header. */
  function Preamble(enc: Encoding, head: Head): Bytes {
    match head.longName
    case None => head.block
    case Some(name) => enc.longHeader(|name| + 1) + Padded(name + [0]) + head.block
  }

  function RecordBytes(enc: Encoding, head: Head, body: Bytes): Bytes {
    Preamble(enc, head) + Padded(body)
  }

  /** One entry to pack. A file carries a body; its size must be the body's exact length. */
  datatype PackEntry = PackEntry(path: Paths.SafePath, meta: Open.Meta, size: u64, body: Source?)

  datatype Appended = Packed | Rejected(error: Error) | PackDropped

  function LengthMismatch(): IoError {
    Plain(InvalidData)
  }

  /** Yields exactly `remaining` more bytes, and flags a body that is shorter or longer. */
  class Exact {
    const inner: Source
    var remaining: u64
    var mismatch: bool
    /** Where the body began, the declared length, and how much has been passed on. */
    ghost const start: nat
    ghost const length: nat
    ghost var delivered: nat
    /** Whether a mismatch was flagged for want of room in the caller's buffer. */
    ghost var cramped: bool

    ghost function Body(): Bytes
      requires start <= |inner.content|
    {
      inner.content[start..]
    }

    ghost predicate Valid()
      reads this, inner
    {
      && inner.Valid() && start <= inner.taken
      && delivered + remaining == length && start + delivered <= inner.taken
      && (!mismatch ==> inner.taken == start + delivered)
      && (mismatch ==> |Body()| != length || cramped) && (cramped ==> mismatch)
    }

    constructor (inner: Source, length: u64)
      requires inner.Valid()
      ensures Valid() && this.inner == inner && this.length == length && start == inner.taken
      ensures delivered == 0 && !mismatch && !cramped
    {
      this.inner, this.length, remaining, mismatch := inner, length, length, false;
      this.start, delivered, cramped := inner.taken, 0, false;
    }

    /**
     One poll of the body. Whatever went before, it hands on the next bytes of the source, and
     no more of them than are still wanted. A mismatch is flagged for a body that is too
     short or too long, and also, whatever the body, for a poll that more is wanted from into
     a full buffer; it stays flagged.
     */
    method PollRead(buf: ReadBuf) returns (p: Poll)
      requires Valid() && buf.Valid()
      modifies this, inner, buf
      ensures Valid() && buf.Valid() && old(inner.taken) <= inner.taken && old(delivered) <= delivered
      ensures var passed := Min(inner.taken - old(inner.taken), old(remaining));
        && buf.filled == old(buf.filled) + inner.content[old(inner.taken)..old(inner.taken) + passed]
        && (!p.Failed? ==> delivered == old(delivered) + passed)
      ensures !p.Ready? ==> delivered == old(delivered)
      ensures p.Ready? && delivered == old(delivered) ==> remaining == 0
      ensures old(mismatch) ==> mismatch
      ensures mismatch && !old(mismatch) ==> p == Failed(LengthMismatch())
      ensures p.Failed? ==>
        (mismatch && p.error == LengthMismatch()) || (inner.failure.Some? && p.error == Plain(inner.failure.value))
      ensures mismatch && !old(mismatch) ==> (cramped <==> old(buf.Remaining()) == 0)
      ensures mismatch == old(mismatch) ==> cramped == old(cramped)
      ensures old(buf.Remaining()) == 0 && old(remaining) > 0 ==> !p.Ready?
      ensures inner.stalls <= old(inner.stalls) && (p.Pending? ==> inner.stalls < old(inner.stalls))
      ensures !p.Failed? ==> inner.failure == old(inner.failure)
    {
      ghost var full, was, from := buf.Remaining() == 0, buf.filled, inner.taken;
      assert was + inner.content[from..from] == was;
      if remaining == 0 {
        return Ready;
      }
      var before := |buf.filled|;
      p := inner.PollRead(buf);
      var read := |buf.filled| - before;
      if p.Ready? {
        if read == 0 {
          mismatch, cramped := true, if mismatch then cramped else full;
          return Failed(LengthMismatch());
        }
        if read > remaining {
          SliceOfSlice(inner.content, from, inner.taken, 0, remaining);
          Cut(was, inner.content[from..inner.taken], remaining);
          buf.SetFilled(before + remaining);
          mismatch := true;
          return Failed(LengthMismatch());
        }
        remaining := remaining - read;
        delivered := delivered + read;
      }
    }
  }

  lemma Cut(a: Bytes, b: Bytes, n: nat)
    requires n <= |b|
    ensures (a + b)[..|a| + n] == a + b[..n]
  {
  }

  /** What the builder reports for a path or link target it cannot encode. */
  function Unencodable(): IoError {
    Plain(OtherKind(0))
  }

  /** How often the sink and the body may still answer pending. */
  ghost function Stalls(out: Stream, body: Source?): nat
    reads out.out.inner, body
  {
    out.Stalls() + if body == null then 0 else body.stalls
  }

  /** One turn of the copy loop: a poll of the body, and what it yields goes to the output. */
  method CopyTurn(out: Stream, exact: Exact) returns (w: Written, bytes: Bytes, ended: bool)
    requires out.Valid() && exact.Valid() && !exact.mismatch
    modifies out.Footprint(), exact, exact.inner
    ensures exact.Valid() && exact.cramped == old(exact.cramped) && (!w.WriteFailed? ==> !exact.mismatch)
    ensures w.Done? ==>
      && out.Valid() && out.plain == old(out.plain) + bytes
      && old(exact.delivered) <= exact.delivered && bytes == exact.Body()[old(exact.delivered)..exact.delivered]
    ensures w.Done? && ended ==> exact.remaining == 0 && bytes == []
    ensures w.Done? && !ended && bytes == [] ==> exact.inner.stalls < old(exact.inner.stalls)
    ensures w.WriteFailed? ==> exact.mismatch || Broken(out, exact.inner, w.error)
    ensures Stalls(out, exact.inner) <= old(Stalls(out, exact.inner))
    ensures w.WriteDropped? ==> Stalls(out, exact.inner) < old(Stalls(out, exact.inner))
  {
    hide Lawful, Stream.Valid;
    bytes, ended := [], false;
    assert exact.Body()[exact.delivered..exact.delivered] == [] && out.plain + [] == out.plain;
    var room: nat :| 0 < room;
    var buf := new ReadBuf(room);
    var p := exact.PollRead(buf);
    match p
    case Failed(e) => w := WriteFailed(e);
    case Pending =>
      w := Done;
      if * { w := WriteDropped; }
    case Ready =>
      ended, bytes := buf.filled == [], buf.filled;
      w := Done;
      if !ended {
        w := out.Write(bytes);
      }
  }

  /** The copy loop of the builder: everything the exact body yields goes to the output. */
  method CopyExact(out: Stream, exact: Exact) returns (w: Written, copied: nat)
    requires out.Valid() && exact.Valid() && !exact.mismatch && exact.delivered == 0
    modifies out.Footprint(), exact, exact.inner
    ensures exact.Valid() && !exact.cramped
    ensures w.Done? ==> out.Valid() && !exact.mismatch && exact.remaining == 0 && copied == exact.length
    ensures w.Done? ==> out.plain == old(out.plain) + exact.Body()[..exact.length]
    ensures w.WriteFailed? ==> exact.mismatch || Broken(out, exact.inner, w.error)
    ensures !w.WriteFailed? ==> !exact.mismatch
    ensures Stalls(out, exact.inner) <= old(Stalls(out, exact.inner))
    ensures w.WriteDropped? ==> Stalls(out, exact.inner) < old(Stalls(out, exact.inner))
  {
    hide Lawful, Stream.Valid;
    copied := 0;
    assert out.plain + exact.Body()[..0] == out.plain;
    while true
      invariant out.Valid() && exact.Valid() && !exact.mismatch && !exact.cramped && copied == exact.delivered
      invariant out.plain == old(out.plain) + exact.Body()[..exact.delivered]
      invariant Stalls(out, exact.inner) <= old(Stalls(out, exact.inner))
      decreases exact.remaining, exact.inner.stalls
    {
      var bytes, ended;
      w, bytes, ended := CopyTurn(out, exact);
      if !w.Done? || ended { return; }
      Join(exact.Body(), 0, copied, exact.delivered);
      copied := copied + |bytes|;
    }
  }

  /** `Builder::append_data`: the preamble, the body, and its padding. */
  method AppendData(out: Stream, preamble: Bytes, exact: Exact) returns (w: Written)
    requires out.Valid() && exact.Valid() && !exact.mismatch && exact.delivered == 0
    modifies out.Footprint(), exact, exact.inner
    ensures exact.Valid() && !exact.cramped
    ensures w.Done? ==> out.Valid() && !exact.mismatch && exact.remaining == 0
    ensures w.Done? ==> out.plain == old(out.plain) + (preamble + Padded(exact.Body()[..exact.length]))
    ensures w.WriteFailed? ==> exact.mismatch || Broken(out, exact.inner, w.error)
    ensures !w.WriteFailed? ==> !exact.mismatch
    ensures Stalls(out, exact.inner) <= old(Stalls(out, exact.inner))
    ensures w.WriteDropped? ==> Stalls(out, exact.inner) < old(Stalls(out, exact.inner))
  {
    w := out.Write(preamble);
    if !w.Done? { return; }
    var copied;
    w, copied := CopyExact(out, exact);
    if !w.Done? { return; }
    w := out.Write(Zeros(RoundUp(copied) - copied));
  }

  /** A failure of the sink or of the body's own transport. */
  ghost predicate Broken(out: Stream, body: Source?, e: IoError)
    reads out.out.inner, body
  {
    out.Failure(e) || (body != null && body.failure.Some? && e == Plain(body.failure.value))
  }

  /** The one-byte probe for a body that goes on past its declared length. */
  method Probe(body: Source) returns (more: bool, w: Written)
    requires body.Valid()
    modifies body
    ensures body.Valid()
    ensures w.Done? ==> (more <==> old(body.taken) < |body.content|)
    ensures w.WriteFailed? ==> body.failure.Some? && w.error == Plain(body.failure.value)
    ensures body.stalls <= old(body.stalls) && (w.WriteDropped? ==> body.stalls < old(body.stalls))
  {
    more := false;
    while true
      invariant body.Valid() && body.taken == old(body.taken)
      invariant body.stalls <= old(body.stalls)
      decreases body.stalls
    {
      var extra := new ReadBuf(1);
      var p := body.PollRead(extra);
      match p
      case Failed(e) => return false, WriteFailed(e);
      case Pending => if * { return false, WriteDropped; }
      case Ready => return extra.filled != [], Done;
    }
  }

  /** The bytes a body still has to give. */
  ghost function Supplied(body: Source?): Bytes
    requires body != null ==> body.Valid()
    reads body
  {
    if body == null then [] else body.content[body.taken..]
  }

  /** The record an entry with this body becomes. */
  ghost function RecordOf(enc: Encoding, entry: PackEntry, body: Bytes): Bytes
    requires enc.header(entry.path.bytes, entry.meta, entry.size).Some?
  {
    RecordBytes(enc, enc.header(entry.path.bytes, entry.meta, entry.size).value, body)
  }

  /** What it takes to be packed: a body of exactly the declared size on files, none elsewhere. */
  ghost predicate Packable(enc: Encoding, entry: PackEntry, supplied: Bytes) {
    && enc.header(entry.path.bytes, entry.meta, entry.size).Some?
    && if entry.meta.kind.File? then entry.body != null && |supplied| == entry.size
       else entry.body == null && entry.size == 0
  }

  /** The entry's own reason for being rejected. */
  ghost predicate Refuses(enc: Encoding, entry: PackEntry, supplied: Bytes, e: Error) {
    var file := entry.meta.kind.File?;
    || (!file && (entry.size != 0 || entry.body != null) && e == NonFilePayload)
    || (file && entry.body == null && e == MissingBody)
    || (enc.header(entry.path.bytes, entry.meta, entry.size).None? && e == Io(Unencodable()))
    || (file && entry.body != null && |supplied| != entry.size && e == BodyLengthMismatch)
  }

  /**
   `append_file`. Apart from failures of the sink and of the body's transport, it succeeds
   exactly when the body has the declared length, however the body is chunked, and then
   the record written holds exactly those bytes.
   */
  method AppendFile(out: Stream, enc: Encoding, entry: PackEntry) returns (r: Appended)
    requires out.Valid() && entry.meta.kind.File? && (entry.body != null ==> entry.body.Valid())
    modifies out.Footprint(), entry.body
    ensures entry.body == null ==> r == Rejected(MissingBody)
    ensures r.Packed? ==> out.Valid() && Packable(enc, entry, old(Supplied(entry.body)))
    ensures r.Packed? ==> out.plain == old(out.plain) + RecordOf(enc, entry, old(Supplied(entry.body)))
    ensures r.Rejected? ==>
      Refuses(enc, entry, old(Supplied(entry.body)), r.error) || (r.error.Io? && Broken(out, entry.body, r.error.cause))
    ensures Stalls(out, entry.body) <= old(Stalls(out, entry.body))
    ensures r.PackDropped? ==> Stalls(out, entry.body) < old(Stalls(out, entry.body))
  {
    var body := entry.body;
    if body == null { return Rejected(MissingBody); }
    var head := enc.header(entry.path.bytes, entry.meta, entry.size);
    if head.None? { return Rejected(Io(Unencodable())); }
    var exact := new Exact(body, entry.size);
    var w := AppendData(out, Preamble(enc, head.value), exact);
    if exact.mismatch { return Rejected(BodyLengthMismatch); }
    if w.WriteFailed? { return Rejected(Io(w.error)); }
    if w.WriteDropped? { return PackDropped; }
    var more;
    more, w := Probe(body);
    if w.WriteFailed? { return Rejected(Io(w.error)); }
    if w.WriteDropped? { return PackDropped; }
    if more { return Rejected(BodyLengthMismatch); }
    assert exact.Body()[..exact.length] == exact.Body();
    return Packed;
  }

  /** `append_meta`: a record without a body. */
  method AppendMeta(out: Stream, enc: Encoding, entry: PackEntry) returns (r: Appended)
    requires out.Valid() && !entry.meta.kind.File? && entry.size == 0 && entry.body == null
    modifies out.Footprint()
    ensures r.Packed? ==> out.Valid() && Packable(enc, entry, [])
    ensures r.Packed? ==> out.plain == old(out.plain) + RecordOf(enc, entry, [])
    ensures r.Rejected? ==> Refuses(enc, entry, [], r.error) || (r.error.Io? && Broken(out, null, r.error.cause))
    ensures out.Stalls() <= old(out.Stalls()) && (r.PackDropped? ==> out.Stalls() < old(out.Stalls()))
  {
    var head := enc.header(entry.path.bytes, entry.meta, 0);
    if head.None? { return Rejected(Io(Unencodable())); }
    var w := out.Write(Preamble(enc, head.value));
    assert Padded([]) == [];
    match w
    case Done => r := Packed;
    case WriteFailed(e) => r := Rejected(Io(e));
    case WriteDropped => r := PackDropped;
  }

  /**
   `pack::append`. A body on anything but a file, and a file without one, are refused
   outright; a length is complained about only when it is wrong.
   */
  method Append(out: Stream, enc: Encoding, entry: PackEntry) returns (r: Appended)
    requires out.Valid() && (entry.body != null ==> entry.body.Valid())
    modifies out.Footprint(), entry.body
    ensures r.Packed? ==> out.Valid() && Packable(enc, entry, old(Supplied(entry.body)))
    ensures r.Packed? ==> out.plain == old(out.plain) + RecordOf(enc, entry, old(Supplied(entry.body)))
    ensures r.Rejected? ==>
      Refuses(enc, entry, old(Supplied(entry.body)), r.error) || (r.error.Io? && Broken(out, entry.body, r.error.cause))
    ensures r == Rejected(NonFilePayload) <==> !entry.meta.kind.File? && (entry.size != 0 || entry.body != null)
    ensures r == Rejected(MissingBody) <==> entry.meta.kind.File? && entry.body == null
    ensures r == Rejected(BodyLengthMismatch) ==>
      entry.meta.kind.File? && entry.body != null && |old(Supplied(entry.body))| != entry.size
    ensures Stalls(out, entry.body) <= old(Stalls(out, entry.body))
    ensures r.PackDropped? ==> Stalls(out, entry.body) < old(Stalls(out, entry.body))
  {
    if !entry.meta.kind.File? && (entry.size != 0 || entry.body != null) {
      return Rejected(NonFilePayload);
    }
    match entry.meta.kind
    case File => r := AppendFile(out, enc, entry);
    case Dir => r := AppendMeta(out, enc, entry);
    case Symlink(_) => r := AppendMeta(out, enc, entry);
    case Hardlink(_) => r := AppendMeta(out, enc, entry);
  }
}
