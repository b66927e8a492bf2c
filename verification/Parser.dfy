/**
 A declared model of the tar parser the reader drives (the `tokio_tar` dependency,
 whose source is not part of this model), reading through the header guard.

 The parser keeps its own idea of where the next header is. It joins long-name,
 long-link and PAX records to the entry they precede, refuses a second one of the
 same kind, verifies the header checksum, and ends at the first zero block. Header
 fields are arbitrary functions of the header and its extensions. The parser has its own
 readings of a header's size and of a PAX body; `ReadsAlike` says that they are the guard's.
 */
module Parser {
  import opened Base
  import opened Errors
  import opened F = Framing
  import opened Streams
  import opened Guard
  import Caps
  import Pax

  /** The extension bodies collected for one entry. */
  datatype Member = Member(longName: Option<Bytes>, longLink: Option<Bytes>, pax: Option<Bytes>)

  const NO_EXTENSIONS := Member(None, None, None)

  datatype Codec = Codec(
    checksum: Bytes -> bool,
    size: Bytes -> Option<u64>,
    pax: Bytes -> Option<Option<u64>>,
    path: (Bytes, Member) -> Option<Bytes>,
    link: (Bytes, Member) -> Option<Option<Bytes>>,
    mode: (Bytes, Member) -> Option<u32>,
    uid: (Bytes, Member) -> Option<u64>,
    gid: (Bytes, Member) -> Option<u64>,
    mtime: (Bytes, Member) -> Option<u64>)

  /** The override a PAX body carries, or none when the body cannot be read. */
  function PaxSize(cfg: Config, body: Bytes): Option<Option<u64>> {
    match cfg.pax(body)
    case Err(_) => None
    case Ok(size) => Some(size)
  }

  /** The parser and the guard read the same sizes in headers and in PAX bodies. */
  ghost predicate ReadsAlike(cfg: Config, codec: Codec) {
    && (forall block :: codec.size(block) == cfg.size(block))
    && forall body :: codec.pax(body) == PaxSize(cfg, body)
  }

  /** One raw entry: its header block, what preceded it, and its framing. */
  datatype Item = Item(block: Bytes, member: Member, record: Record)

  datatype Scanned = Found(item: Item) | EndBlock(at: nat) | Bad(error: Error)

  /** Whether the extension slot for `kind` is still free. */
  predicate Free(m: Member, kind: byte) {
    if kind == LONG_NAME then m.longName.None?
    else if kind == LONG_LINK then m.longLink.None?
    else m.pax.None?
  }

  function Extend(m: Member, kind: byte, body: Bytes): Member {
    if kind == LONG_NAME then m.(longName := Some(body))
    else if kind == LONG_LINK then m.(longLink := Some(body))
    else m.(pax := Some(body))
  }

  /** The size override carried by the collected PAX body, if any. */
  function Override(cfg: Config, m: Member): Option<u64> {
    match m.pax
    case None => None
    case Some(body) =>
      match cfg.pax(body)
      case Err(_) => None
      case Ok(size) => size
  }

  /** The body length the parser takes an ordinary header to announce. */
  function EntrySize(codec: Codec, m: Member, raw: u64): u64 {
    match m.pax
    case None => raw
    case Some(body) => codec.pax(body).GetOr(None).GetOr(raw)
  }

  /** The next entry of the whole input from offset `at`, read in one go. */
  function Scan(cfg: Config, codec: Codec, input: Bytes, at: nat, m: Member): Scanned
    decreases |input| - at
  {
    if |input| < at + BLOCK then Bad(Malformed)
    else
      var block := input[at..at + BLOCK];
      match Inspect(cfg, block, Override(cfg, m))
      case Zero => EndBlock(at + BLOCK)
      case Reject(e) => Bad(Describe(e))
      case Framed(kind, raw, size) =>
        var r := Record(at, kind, raw, size);
        if !codec.checksum(block) then Bad(Malformed)
        else if !Extension(kind) then Found(Item(block, m, r))
        else if !Free(m, kind) || |input| < r.End() then Bad(Malformed)
        else
          var body := input[r.Data()..r.Data() + raw];
          if kind == PAX && cfg.pax(body).Err? then Bad(Malformed)
          else Scan(cfg, codec, input, r.End(), Extend(m, kind, body))
  }

  /** Every extension collected is within the limit on extension records. */
  predicate Modest(cfg: Config, m: Member) {
    && (m.longName.Some? ==> |m.longName.value| <= cfg.maxMetadata)
    && (m.longLink.Some? ==> |m.longLink.value| <= cfg.maxMetadata)
    && (m.pax.Some? ==> |m.pax.value| <= cfg.maxMetadata)
  }

  /** What the guard is for: no entry comes with an extension body above the limit. */
  lemma {:induction false} ExtensionsAreModest(cfg: Config, codec: Codec, input: Bytes, at: nat, m: Member)
    requires Modest(cfg, m) && Scan(cfg, codec, input, at, m).Found?
    ensures Modest(cfg, Scan(cfg, codec, input, at, m).item.member)
    decreases |input| - at
  {
    var verdict := Inspect(cfg, input[at..at + BLOCK], Override(cfg, m));
    if Extension(verdict.kind) {
      var r := Record(at, verdict.kind, verdict.raw, verdict.size);
      hide F.Inspect, Override;
      ExtensionsAreModest(cfg, codec, input, r.End(), Extend(m, r.kind, input[r.Data()..r.Data() + r.raw]));
    }
  }

  datatype Chunk = Full(bytes: Bytes) | Short(bytes: Bytes) | Lost(error: IoError) | Dropped

  datatype Next = Got(item: Item) | NoMore | Broken(error: IoError) | Cancelled

  datatype Turn = More(member: Member) | Stop(result: Next)

  /** What the parser reports for a header or an extension it cannot use. */
  function Unusable(): IoError {
    Plain(OtherKind(0))
  }

  /** What the parser reports when its input ends where more was needed. */
  function Eof(): IoError {
    Plain(UnexpectedEof)
  }

  class Entries {
    const guard: HeaderGuard
    const codec: Codec
    /** Where the next header starts, how much of the current body is unread, and the gap between. */
    var next: nat
    var bodyLeft: nat
    var padding: nat
    /** The records already behind `next`. */
    ghost var passed: seq<Record>

    ghost function Footprint(): set<object> {
      guard.Footprint() + {this}
    }

    /** How often the source may still answer pending. */
    ghost function Stalls(): nat
      reads guard.Source()
    {
      guard.Source().stalls
    }

    ghost predicate Valid()
      reads Footprint()
    {
      Steady() && guard.Clean() && Aligned(NO_EXTENSIONS) && ReadsAlike(guard.cfg, codec)
    }

    /** What body reads keep even after an error. */
    ghost predicate Steady()
      reads Footprint()
    {
      guard.Valid() && guard.taken + bodyLeft + padding == next
    }

    /** The parser's next header is where the guard's framing has its next header. */
    ghost predicate Aligned(m: Member)
      reads this
    {
      && guard.goal == Prepend(passed, Frame(guard.cfg, guard.input, next, Override(guard.cfg, m)))
      && forall r :: r in passed ==> r.End() <= next
    }

    constructor (guard: HeaderGuard, codec: Codec)
      requires guard.Valid() && guard.taken == 0 && guard.Clean() && ReadsAlike(guard.cfg, codec)
      ensures Valid() && this.guard == guard && this.codec == codec
      ensures next == 0 && passed == []
    {
      this.guard, this.codec := guard, codec;
      next, bodyLeft, padding, passed := 0, 0, 0, [];
      guard.TakenWithinInput();
      hide Frame, After, F.Inspect, InForce, HeaderGuard.Valid;
      new;
      assert this !in guard.Footprint();
      PrependNothing(guard.goal);
    }

    /** One poll for at most `room` bytes; a pending answer counts as a dropped call. */
    method Attempt(room: nat) returns (c: Chunk)
      requires guard.Valid() && guard.Clean() && 0 < room
      modifies guard.Footprint()
      ensures guard.Valid() && old(guard.taken) <= guard.taken <= Min(|guard.input|, old(guard.taken) + room)
      ensures !c.Lost? ==> guard.Clean()
      ensures c.Full? ==> c.bytes != [] && c.bytes == guard.input[old(guard.taken)..guard.taken]
      ensures !c.Full? && !c.Lost? ==> guard.taken == old(guard.taken)
      ensures c.Short? ==> c.bytes == [] && guard.AtEof() && guard.inner.AtEnd()
      ensures c.Lost? ==> LostTo(c.error, old(guard.taken))
      ensures Stalls() <= old(Stalls()) && (c.Dropped? ==> Stalls() < old(Stalls()))
    {
      guard.TakenWithinInput();
      hide Frame, After, F.Inspect, InForce, LeavesBehind, HeaderGuard.Valid, HeaderGuard.AtEof, Caps.Cap.Failure;
      hide HeaderGuard.Raised, HeaderGuard.PaxEndsHere, Caps.Cap.AtEnd, Entries.LostTo;
      ghost var logged, pending, before := guard.log, guard.paxSize, guard.taken;
      var p, bytes := guard.ReadSome(room);
      match p
      case Failed(e) =>
        LostHere(e, before, logged, pending);
        c := Lost(e);
      case Ready => c := if bytes == [] then Short([]) else Full(bytes);
      case Pending => c := Dropped;
    }

    /** Await one chunk of at most `room` bytes; a pending poll may be the caller's last. */
    method Await(room: nat) returns (c: Chunk)
      requires guard.Valid() && guard.Clean() && 0 < room
      modifies guard.Footprint()
      ensures guard.Valid() && old(guard.taken) <= guard.taken <= Min(|guard.input|, old(guard.taken) + room)
      ensures !c.Lost? ==> guard.Clean()
      ensures c.Full? ==> c.bytes != [] && c.bytes == guard.input[old(guard.taken)..guard.taken]
      ensures !c.Full? && !c.Lost? ==> guard.taken == old(guard.taken)
      ensures c.Short? ==> c.bytes == [] && guard.AtEof() && guard.inner.AtEnd()
      ensures c.Lost? ==> LostTo(c.error, old(guard.taken))
      ensures Stalls() <= old(Stalls()) && (c.Dropped? ==> Stalls() < old(Stalls()))
    {
      guard.TakenWithinInput();
      hide Frame, HeaderGuard.Valid, HeaderGuard.AtEof, Caps.Cap.AtEnd, Entries.LostTo;
      while true
        invariant guard.Valid() && guard.Clean() && guard.taken == old(guard.taken) <= |guard.input|
        invariant Stalls() <= old(Stalls())
        decreases Stalls()
      {
        c := Attempt(room);
        if !c.Dropped? { return; }
        if * { return; }
      }
    }

    /**
     Why a read that had got to `before` failed: underneath, or by the guard's own fault.
     A fault that came with bytes ended the data of a PAX record around `before`.
     */
    ghost predicate LostTo(e: IoError, before: nat)
      reads guard.Footprint()
    {
      if guard.errors > 0 then
        && guard.goal.stop == Fault(guard.taken, e)
        && (guard.taken == before || exists r :: r in guard.goal.records && EndsHere(r, before))
      else
        guard.inner.Failure(e)
    }

    lemma LostHere(e: IoError, before: nat, logged: seq<Record>, pending: Option<u64>)
      requires guard.Valid()
      requires guard.errors == 0 ==> guard.inner.Failure(e)
      requires guard.errors > 0 ==> guard.Raised(e, logged, guard.goal, pending, 0)
      requires guard.errors > 0 && guard.taken != before ==> guard.PaxEndsHere(guard.goal, before)
      ensures LostTo(e, before)
    {
      hide Frame, F.Inspect, InForce, HeaderGuard.Valid, HeaderGuard.Restarted, Caps.Cap.Failure;
      if guard.errors > 0 && guard.taken != before {
        assert guard.goal.records[|guard.goal.records| - 1] in guard.goal.records;
      }
    }

    ghost predicate EndsHere(r: Record, before: nat)
      reads guard
    {
      r.kind == PAX && r.Data() <= before && r.End() == guard.taken
    }

    /** Await exactly `n` bytes; `before` is how far the read had got at its last poll. */
    method ReadExact(n: nat) returns (c: Chunk, ghost before: nat)
      requires guard.Valid() && guard.Clean()
      modifies guard.Footprint()
      ensures guard.Valid() && old(guard.taken) <= guard.taken <= Min(|guard.input|, old(guard.taken) + n)
      ensures !c.Lost? ==> guard.Clean()
      ensures c.Full? || c.Short? ==> c.bytes == guard.input[old(guard.taken)..guard.taken]
      ensures c.Full? ==> guard.taken == old(guard.taken) + n
      ensures c.Short? ==> guard.taken < old(guard.taken) + n && guard.AtEof() && guard.inner.AtEnd()
      ensures c.Lost? ==> old(guard.taken) <= before < old(guard.taken) + n && LostTo(c.error, before)
      ensures Stalls() <= old(Stalls()) && (c.Dropped? ==> Stalls() < old(Stalls()))
    {
      guard.TakenWithinInput();
      hide Frame;
      ghost var start := guard.taken;
      before := start;
      var bytes: Bytes := [];
      while |bytes| < n
        invariant guard.Valid() && guard.Clean() && |bytes| <= n
        invariant guard.taken == start + |bytes| <= |guard.input|
        invariant bytes == guard.input[start..guard.taken] && Stalls() <= old(Stalls())
      {
        before := guard.taken;
        c := Await(n - |bytes|);
        if c.Short? { c := Short(bytes); }
        if !c.Full? { return; }
        bytes := bytes + c.bytes;
        Join(guard.input, start, before, guard.taken);
      }
      c := Full(bytes);
    }

    /** What a result of the parser must be when the whole input, read in one go, says `s`. */
    ghost predicate Agrees(r: Next, s: Scanned)
      reads Footprint()
    {
      match r
      case Got(item) =>
        && Valid() && s == Found(item) && next == item.record.End()
        && guard.taken == item.record.Data() && bodyLeft == item.record.size
      case NoMore =>
        && guard.Clean()
        && (s == EndBlock(guard.taken) || (s == Bad(Malformed) && guard.AtEof() && guard.inner.AtEnd()))
      case Broken(e) => s == Bad(Describe(e)) || guard.inner.Failure(e)
      case Cancelled => true
    }

    ghost predicate AtHeader(m: Member)
      reads Footprint()
    {
      && guard.Valid() && guard.Clean() && guard.taken == next && bodyLeft == padding == 0 && Aligned(m)
      && ReadsAlike(guard.cfg, codec)
    }

    ghost function Rest(m: Member): Scanned
      reads this
    {
      Scan(guard.cfg, codec, guard.input, next, m)
    }

    /** A header read that is lost to the guard's own fault is lost to the rejection of that header. */
    lemma HeaderLost(m: Member, e: IoError, before: nat)
      requires guard.Valid() && Aligned(m) && guard.errors > 0 && next <= before < next + BLOCK && LostTo(e, before)
      requires guard.taken <= next + BLOCK
      ensures Rest(m) == Bad(Describe(e))
    {
      var cfg, pending := guard.cfg, Override(guard.cfg, m);
      if guard.taken == next + BLOCK {
        var r :| r in guard.goal.records && EndsHere(r, before);
        OffsetsFrom(cfg, guard.input, next, pending);
        assert false;
      }
      FaultAtHeader(cfg, guard.input, next, pending);
    }

    lemma HeaderShort(m: Member)
      requires guard.Valid() && guard.Clean() && Aligned(m) && guard.AtEof() && guard.taken < next + BLOCK
      ensures Rest(m) == Bad(Malformed)
    {
      CutAtHeader(guard.cfg, guard.input, next, Override(guard.cfg, m));
    }

    /** The accepted extension record at `next`, whose data is about to be read. */
    ghost predicate Opened(m: Member, r: Record)
      reads this
    {
      && next + BLOCK <= |guard.input| && r.offset == next && Extension(r.kind) && Free(m, r.kind)
      && codec.checksum(guard.input[next..next + BLOCK]) && Aligned(m)
      && Inspect(guard.cfg, guard.input[next..next + BLOCK], Override(guard.cfg, m)) == Framed(r.kind, r.raw, r.size)
    }

    ghost function Body(r: Record): Bytes
      requires r.Data() + r.raw <= |guard.input|
    {
      guard.input[r.Data()..r.Data() + r.raw]
    }

    lemma DataShort(m: Member, r: Record)
      requires guard.Valid() && guard.Clean() && Opened(m, r) && guard.AtEof() && guard.taken < r.End()
      ensures Rest(m) == Bad(Malformed)
    {
      AfterBounds(guard.cfg, guard.input, r, Override(guard.cfg, m));
    }

    /** Step over an extension whose data is sound: the parser stays aligned with the framing. */
    lemma DataSound(m: Member, r: Record)
      requires guard.Valid() && Opened(m, r) && r.End() <= |guard.input|
      requires r.kind == PAX ==> guard.cfg.pax(Body(r)).Ok?
      ensures guard.goal == Prepend(passed + [r],
        Frame(guard.cfg, guard.input, r.End(), Override(guard.cfg, Extend(m, r.kind, Body(r)))))
      ensures Rest(m) == Scan(guard.cfg, codec, guard.input, r.End(), Extend(m, r.kind, Body(r)))
    {
      hide F.Inspect, HeaderGuard.Valid, Describe;
      HeaderStep(guard.cfg, guard.input, passed, next, Override(guard.cfg, m));
      DataStep(guard.cfg, guard.input, passed + [r], r, Override(guard.cfg, m));
    }

    /** Extension data lost to the guard's own fault: a bad PAX body, or the rejection of the next header. */
    lemma DataLost(m: Member, r: Record, e: IoError)
      requires guard.Valid() && Opened(m, r) && guard.errors > 0 && guard.goal.stop == Fault(guard.taken, e)
      requires guard.taken <= r.End()
      ensures Rest(m) == Bad(Describe(e))
    {
      hide F.Inspect, HeaderGuard.Valid, Describe;
      AfterBounds(guard.cfg, guard.input, r, Override(guard.cfg, m));
      HeaderStep(guard.cfg, guard.input, passed, next, Override(guard.cfg, m));
      if |guard.input| < r.End() {
        CutInData(guard.cfg, guard.input, r, Override(guard.cfg, m));
      } else if r.kind == PAX && guard.cfg.pax(Body(r)).Err? {
        BadPax(m, r, e);
      } else {
        DataSound(m, r);
        FaultAtHeader(guard.cfg, guard.input, r.End(), Override(guard.cfg, Extend(m, r.kind, Body(r))));
      }
    }

    lemma BadPax(m: Member, r: Record, e: IoError)
      requires guard.Valid() && Opened(m, r) && r.Data() + r.raw <= |guard.input| && r.kind == PAX
      requires guard.cfg.pax(Body(r)) == Err(e)
      ensures Rest(m) == Bad(Malformed) == Bad(Describe(e))
    {
      Pax.ErrorIsMalformed(Body(r), None);
      assert guard.cfg.pax(Body(r)) == Pax.Read(Body(r));
    }

    /** Read `n` bytes of an extension's data, or say how the parser fails. */
    method ReadPart(n: nat, m: Member, ghost r: Record) returns (part: Option<Bytes>, failure: Next)
      requires guard.Valid() && guard.Clean() && Opened(m, r) && guard.taken + n <= r.End()
      modifies guard.Footprint()
      ensures guard.Valid()
      ensures part.Some? ==>
        && guard.Clean() && guard.taken == old(guard.taken) + n <= |guard.input|
        && part.value == guard.input[old(guard.taken)..guard.taken]
      ensures part.None? ==> Agrees(failure, Rest(m))
      ensures Stalls() <= old(Stalls()) && (part.None? && failure.Cancelled? ==> Stalls() < old(Stalls()))
    {
      hide Scan, Frame, After, F.Inspect, HeaderGuard.Valid, HeaderGuard.AtEof, Caps.Cap.Failure;
      var c, before := ReadExact(n);
      if c.Full? {
        return Some(c.bytes), Cancelled;
      }
      failure := GiveUp(c, m, r);
      part := None;
    }

    /** Read the body of an extension record, join it to the entry, and read its padding. */
    method ReadExtension(m: Member, kind: byte, raw: u64, ghost r: Record) returns (t: Turn)
      requires guard.Valid() && guard.Clean() && bodyLeft == padding == 0
      requires Opened(m, r) && r.kind == kind && r.raw == raw
      requires guard.taken == r.Data() && ReadsAlike(guard.cfg, codec)
      modifies Footprint()
      ensures raw <= guard.cfg.maxMetadata && (t.More? && Modest(guard.cfg, m) ==> Modest(guard.cfg, t.member))
      ensures t.More? ==> AtHeader(t.member) && next > old(next) && Rest(t.member) == old(Rest(m))
      ensures t.Stop? ==> guard.Valid() && Agrees(t.result, old(Rest(m)))
      ensures Stalls() <= old(Stalls()) && (t == Stop(Cancelled) ==> Stalls() < old(Stalls()))
    {
      hide Scan, Frame, After, F.Inspect, HeaderGuard.Valid, HeaderGuard.AtEof;
      assert this !in guard.Footprint();
      guard.TakenWithinInput();
      var body, failure := ReadPart(raw, m, r);
      if body.None? { return Stop(failure); }
      assert body.value == Body(r);
      if kind == PAX && codec.pax(body.value).None? {
        BadPax(m, r, guard.cfg.pax(Body(r)).error);
        return Stop(Broken(Unusable()));
      }
      var padding;
      padding, failure := ReadPart(RoundUp(raw) - raw, m, r);
      if padding.None? { return Stop(failure); }
      Attach(m, kind, raw, body.value, r);
      return More(Extend(m, kind, body.value));
    }

    /** The extension is read: the parser's next header is the one behind it. */
    method Attach(m: Member, kind: byte, raw: u64, body: Bytes, ghost r: Record)
      requires guard.Valid() && guard.Clean() && bodyLeft == padding == 0
      requires Opened(m, r) && r.kind == kind && r.raw == raw
      requires guard.taken == r.End() <= |guard.input| && body == Body(r)
      requires (kind == PAX ==> guard.cfg.pax(body).Ok?) && ReadsAlike(guard.cfg, codec)
      modifies this`next, this`passed
      ensures AtHeader(Extend(m, kind, body)) && next == r.End() && Rest(Extend(m, kind, body)) == old(Rest(m))
    {
      hide Scan, Frame, After, F.Inspect, HeaderGuard.Valid;
      DataSound(m, r);
      assert this !in guard.Footprint() && r.End() == next + BLOCK + RoundUp(raw);
      next := next + BLOCK + RoundUp(raw);
      passed := passed + [r];
    }

    /** What the parser makes of extension data it did not get. */
    method GiveUp(c: Chunk, m: Member, ghost r: Record) returns (failure: Next)
      requires guard.Valid() && Opened(m, r) && !c.Full? && guard.taken <= r.End()
      requires !c.Lost? ==> guard.Clean()
      requires c.Short? ==> guard.AtEof() && guard.taken < r.End()
      requires c.Lost? && guard.errors > 0 ==> guard.goal.stop == Fault(guard.taken, c.error)
      requires c.Lost? && guard.errors == 0 ==> guard.inner.Failure(c.error)
      ensures Agrees(failure, Rest(m)) && (failure.Cancelled? <==> c.Dropped?)
    {
      match c
      case Dropped => failure := Cancelled;
      case Short(_) =>
        DataShort(m, r);
        failure := Broken(Eof());
      case Lost(e) =>
        if guard.errors > 0 { DataLost(m, r, e); }
        failure := Broken(e);
    }

    /** Read the header block at `next`, or say how the parser ends or fails. */
    method ReadHeader(m: Member) returns (block: Option<Bytes>, failure: Next)
      requires AtHeader(m)
      modifies guard.Footprint()
      ensures guard.Valid()
      ensures block.Some? ==>
        && guard.Clean() && guard.taken == next + BLOCK <= |guard.input|
        && block.value == guard.input[next..next + BLOCK]
        && !Inspect(guard.cfg, block.value, Override(guard.cfg, m)).Reject?
      ensures block.None? ==> Agrees(failure, Rest(m))
      ensures Stalls() <= old(Stalls()) && (block.None? && failure.Cancelled? ==> Stalls() < old(Stalls()))
    {
      hide Scan, Frame, After, F.Inspect, HeaderGuard.Valid, HeaderGuard.AtEof;
      var c, before := ReadExact(BLOCK);
      block := None;
      match c
      case Full(bytes) =>
        guard.TakenWithinInput();
        guard.TakenWithinReach();
        HeaderThrough(guard.cfg, guard.input, next, Override(guard.cfg, m));
        return Some(bytes), Cancelled;
      case Dropped => failure := Cancelled;
      case Short(bytes) =>
        HeaderShort(m);
        failure := if bytes == [] then NoMore else Broken(Eof());
      case Lost(e) =>
        if guard.errors > 0 { HeaderLost(m, e, before); }
        failure := Broken(e);
    }

    /** What an ordinary header means: an entry, and the next header behind its data. */
    lemma EntryFound(m: Member, block: Bytes, r: Record)
      requires Arrived(m, block) && !Extension(r.kind) && codec.checksum(block) && r.offset == next
      requires Inspect(guard.cfg, block, Override(guard.cfg, m)) == Framed(r.kind, r.raw, r.size)
      ensures Rest(m) == Found(Item(block, m, r))
      ensures guard.goal == Prepend(passed + [r], Frame(guard.cfg, guard.input, r.End(), None))
    {
      HeaderStep(guard.cfg, guard.input, passed, next, Override(guard.cfg, m));
      DataStep(guard.cfg, guard.input, passed + [r], r, None);
    }

    /** Hand out an ordinary entry: its body is next, and the next header is behind it. */
    method Surrender(block: Bytes, m: Member, kind: byte, raw: u64, size: u64) returns (item: Item)
      requires Arrived(m, block) && !Extension(kind) && codec.checksum(block) && ReadsAlike(guard.cfg, codec)
      requires Inspect(guard.cfg, block, Override(guard.cfg, m)) == Framed(kind, raw, size)
      modifies this
      ensures Agrees(Got(item), old(Rest(m)))
    {
      hide Scan, Frame, After, F.Inspect, HeaderGuard.Valid;
      item := Item(block, m, Record(next, kind, raw, size));
      EntryFound(m, block, item.record);
      assert this !in guard.Footprint() && item.record.End() == next + BLOCK + RoundUp(size);
      passed := passed + [item.record];
      next, bodyLeft, padding := next + BLOCK + RoundUp(size), size, RoundUp(size) - size;
    }

    /** The header block at `next` has just been read. */
    ghost predicate Arrived(m: Member, block: Bytes)
      reads Footprint()
    {
      && guard.Valid() && guard.Clean() && Aligned(m) && bodyLeft == padding == 0
      && guard.taken == next + BLOCK <= |guard.input| && block == guard.input[next..next + BLOCK]
    }

    /** One header of the parser's loop: an entry, an extension joined to the next one, or the end. */
    method Advance(m: Member) returns (t: Turn)
      requires AtHeader(m)
      modifies Footprint()
      ensures t.More? ==> AtHeader(t.member) && next > old(next) && Rest(t.member) == old(Rest(m))
      ensures t.Stop? ==> guard.Valid() && Agrees(t.result, old(Rest(m)))
      ensures Stalls() <= old(Stalls()) && (t == Stop(Cancelled) ==> Stalls() < old(Stalls()))
    {
      hide Frame, After, HeaderGuard.Valid, HeaderGuard.AtEof;
      assert this !in guard.Footprint();
      var header, failure := ReadHeader(m);
      if header.None? { return Stop(failure); }
      var block := header.value;
      if AllZero(block) { return Stop(NoMore); }
      if !codec.checksum(block) { return Stop(Broken(Unusable())); }
      var kind, parsed := block[KIND_OFFSET], codec.size(block);
      if parsed.None? { return Stop(Broken(Unusable())); }
      var raw := parsed.value;
      if !Extension(kind) {
        var item := Surrender(block, m, kind, raw, EntrySize(codec, m, raw));
        return Stop(Got(item));
      }
      if !Free(m, kind) { return Stop(Broken(Unusable())); }
      t := ReadExtension(m, kind, raw, Record(next, kind, raw, raw));
    }

    lemma SkipLost(e: IoError)
      requires guard.Valid() && Aligned(NO_EXTENSIONS) && guard.errors > 0
      requires guard.goal.stop == Fault(guard.taken, e) && guard.taken <= next
      ensures Rest(NO_EXTENSIONS) == Bad(Describe(e))
    {
      StopBounds(guard.cfg, guard.input, next, None);
      FaultAtHeader(guard.cfg, guard.input, next, None);
    }

    lemma SkipShort()
      requires guard.Valid() && guard.Clean() && Aligned(NO_EXTENSIONS) && guard.AtEof() && guard.taken < next
      ensures Rest(NO_EXTENSIONS) == Bad(Malformed)
    {
      StopBounds(guard.cfg, guard.input, next, None);
    }

    /** Discard what is left of the previous entry's data and padding. */
    method Skip() returns (skipped: bool, failure: Next)
      requires Valid()
      modifies guard.Footprint(), this`bodyLeft, this`padding
      ensures skipped ==> AtHeader(NO_EXTENSIONS)
      ensures !skipped ==> guard.Valid() && Agrees(failure, Rest(NO_EXTENSIONS))
      ensures Stalls() <= old(Stalls()) && (!skipped && failure.Cancelled? ==> Stalls() < old(Stalls()))
    {
      hide Scan, Frame, After, F.Inspect, HeaderGuard.Valid, HeaderGuard.AtEof, Caps.Cap.Failure;
      assert this !in guard.Footprint();
      var n := bodyLeft + padding;
      bodyLeft, padding := 0, 0;
      var c, before := ReadExact(n);
      skipped := false;
      match c
      case Full(_) => return true, Cancelled;
      case Dropped => failure := Cancelled;
      case Short(_) =>
        SkipShort();
        failure := Broken(Eof());
      case Lost(e) =>
        if guard.errors > 0 { SkipLost(e); }
        failure := Broken(e);
    }

    /**
     `entries.next()`: the next entry, the end, or an error. Whatever the chunking, the
     answer is the one-go scan of the whole input from the parser's position, except
     where the stream underneath the guard fails or the caller gives up waiting.
     */
    method Next() returns (r: Next)
      requires Valid()
      modifies Footprint()
      ensures guard.Valid() && Agrees(r, old(Rest(NO_EXTENSIONS)))
      ensures r.Got? ==> Modest(guard.cfg, r.item.member)
      ensures Stalls() <= old(Stalls()) && (r.Cancelled? ==> Stalls() < old(Stalls()))
    {
      hide Scan, Frame, After;
      ghost var goal := Rest(NO_EXTENSIONS);
      if goal.Found? { ExtensionsAreModest(guard.cfg, codec, guard.input, next, NO_EXTENSIONS); }
      var skipped, failure := Skip();
      if !skipped { return failure; }
      var m := NO_EXTENSIONS;
      while true
        invariant AtHeader(m) && Rest(m) == goal && Stalls() <= old(Stalls())
        decreases |guard.input| - next
      {
        guard.TakenWithinInput();
        var t := Advance(m);
        match t
        case Stop(result) => return result;
        case More(more) => m := more;
      }
    }

    /** One poll of the current entry's body. */
    method PollBody(buf: ReadBuf) returns (p: Poll)
      requires Steady() && buf.Valid()
      modifies guard.Footprint(), this`bodyLeft, buf
      ensures Steady() && buf.Valid() && old(guard.taken) <= guard.taken <= |guard.input|
      ensures buf.filled == old(buf.filled) + guard.input[old(guard.taken)..guard.taken]
      ensures guard.taken + bodyLeft == old(guard.taken + bodyLeft)
      ensures p.Pending? ==> guard.taken == old(guard.taken)
      ensures Stalls() <= old(Stalls()) && (p.Pending? ==> Stalls() < old(Stalls()))
      ensures p.Ready? && guard.taken == old(guard.taken) ==>
        |buf.filled| == buf.capacity || bodyLeft == 0 || (guard.AtEof() && guard.inner.AtEnd())
      ensures old(guard.Clean()) && !p.Failed? ==> guard.Clean()
      ensures old(guard.Clean()) && p.Failed? ==> BodyLost(p.error)
    {
      hide Scan, Frame, After, HeaderGuard.Valid, HeaderGuard.AtEof, Caps.Cap.Failure, Caps.Cap.AtEnd;
      guard.TakenWithinInput();
      var room := Min(buf.Remaining(), bodyLeft);
      if room == 0 { return Ready; }
      var bytes;
      p, bytes := guard.ReadSome(room);
      buf.Put(bytes);
      bodyLeft := bodyLeft - |bytes|;
    }

    /** Where the guard ends before the next header, the input itself ends. */
    lemma EndInBody()
      requires Valid() && guard.AtEof() && guard.taken < next
      ensures guard.taken == |guard.input|
    {
      StopBounds(guard.cfg, guard.input, next, None);
    }

    /** Why a body read failed: underneath, or by the guard's own fault. */
    ghost predicate BodyLost(e: IoError)
      reads guard.Footprint()
    {
      if guard.errors > 0 then guard.goal.stop == Fault(guard.taken, e) else guard.inner.Failure(e)
    }
  }
}
