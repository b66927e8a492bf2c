/** The stateful reader: entries, lent bodies, the end-of-archive check, and validation. */
module Readers {
  import opened Base
  import opened Errors
  import opened Streams
  import opened F = Framing
  import opened Parser
  import opened Open
  import opened Listings
  import Caps
  import Compress
  import G = Guard
  import Pax
  import Runs = ReaderRuns

  const DRAIN_BLOCK := 8192

  /** What a `next_entry` call came back with; a dropped call was abandoned while pending. */
  datatype NextEntry = Lent(entry: ReadEntry) | End | Refused(error: Error) | CallDropped

  datatype EndCheck = Clean | Unclean(error: Error) | Abandoned

  function AnswerOf(r: NextEntry): Runs.Answer {
    match r
    case Lent(_) => Runs.Yielded
    case End => Runs.Ended
    case Refused(_) => Runs.Refused
    case CallDropped => Runs.Dropped
  }

  class Reader {
    const entries: Entries
    const limits: Limits
    var bodyFailed: bool
    var seen: u64
    var done: bool
    /** Whether the end check has taken the parser away. */
    var drained: bool
    /** The entries handed out so far, and the listing of the whole archive. */
    ghost var yielded: seq<Entry>
    ghost const whole: Listing

    ghost function Footprint(): set<object> {
      entries.Footprint() + {this}
    }

    /** The shared byte counters and caps live in the layer under the guard. */
    function Cap(): Caps.Cap {
      entries.guard.inner
    }

    /** How often the source may still answer pending. */
    ghost function Stalls(): nat
      reads Cap().Source()
    {
      Cap().Source().stalls
    }

    ghost function X(): Context {
      Context(entries.guard.cfg, entries.codec, limits, entries.guard.input)
    }

    ghost function Control(): Runs.Control
      reads this
    {
      Runs.Control(bodyFailed, done, seen, |yielded|)
    }

    ghost predicate Valid()
      reads Footprint()
    {
      && Cap().max == limits.maxTotalBytes && entries.guard.Valid()
      && Bookkeeping()
      && (!bodyFailed && !done ==> entries.Valid() && !drained && OnTrack())
      && (done ==> Cap().AtEnd())
    }

    ghost predicate Bookkeeping()
      reads this
    {
      && |yielded| <= limits.maxEntries && yielded <= whole.entries
      && (!bodyFailed ==> seen == |yielded|) && !(bodyFailed && done)
      && (done ==> whole == Listing(yielded, Finished))
    }

    /** What is still to come is the listing from the parser's position. */
    ghost predicate OnTrack()
      reads this, entries
    {
      && whole == Append(yielded, List(X(), entries.next, NO_EXTENSIONS, seen))
      && BLOCK * seen <= entries.next
    }

    /** A failure that came from underneath: the transport, an incomplete stream, or a breached cap. */
    ghost predicate Excused(e: Error)
      reads Cap().Footprint()
    {
      || (Cap().Source().failure.Some? && e == Io(Transport(Cap().Source().failure.value)))
      || (!Cap().inner.coder.complete(Cap().Encoded()) && e == Malformed)
      || (Cap().failed && e == LimitExceeded(Cap().Reason()))
    }

    constructor (entries: Entries, limits: Limits)
      requires entries.Valid() && entries.next == 0 && entries.guard.inner.max == limits.maxTotalBytes
      ensures Valid() && this.entries == entries && this.limits == limits
      ensures Control() == Runs.START && whole == List(X(), 0, NO_EXTENSIONS, 0)
    {
      hide List, FromScan, Frame, After, Scan, Caps.WithinRatio, G.HeaderGuard.Valid, Caps.Cap.AtEnd;
      this.entries, this.limits := entries, limits;
      bodyFailed, seen, done, drained, yielded := false, 0, false, false, [];
      whole := List(Context(entries.guard.cfg, entries.codec, limits, entries.guard.input), 0, NO_EXTENSIONS, 0);
      new;
      assert [] + whole.entries == whole.entries && this !in entries.Footprint();
    }

    /** How `read_error` reports a failed read of the guarded stream. */
    lemma ErrorsExplained(e: IoError)
      requires entries.guard.Valid() && Cap().max == limits.maxTotalBytes
      ensures Cap().Failure(e) ==> Excused(ReadError(e, Cap().total, limits.maxTotalBytes))
      ensures !Excused(ReadError(e, Cap().total, limits.maxTotalBytes)) ==>
        ReadError(e, Cap().total, limits.maxTotalBytes) == Describe(e)
      ensures Cap().total > limits.maxTotalBytes ==>
        ReadError(e, Cap().total, limits.maxTotalBytes) == LimitExceeded("max_total_bytes")
    {
    }

    /** Short of a breach the decoded bytes are within the total cap. */
    lemma CleanIsWithin()
      requires entries.guard.Valid() && entries.guard.Clean() && Cap().max == limits.maxTotalBytes
      ensures Cap().total <= limits.maxTotalBytes
    {
    }

    /** Await one block behind the zero block; the guard itself has nothing left to object to. */
    method DrainBlock() returns (c: Chunk)
      requires entries.guard.Valid() && entries.guard.Clean() && !entries.guard.goal.stop.Fault?
      modifies entries.guard.Footprint()
      ensures var g := entries.guard;
        g.Valid() && (!c.Lost? ==> g.Clean()) && old(g.taken) <= g.taken <= |g.input|
      ensures c.Full? ==> c.bytes != [] && c.bytes == entries.guard.input[old(entries.guard.taken)..entries.guard.taken]
      ensures c.Full? ==>
        old(entries.guard.taken) < entries.guard.taken <= Deliverable(entries.guard.goal.stop, entries.guard.input)
      ensures c.Short? ==> entries.guard.taken == old(entries.guard.taken) && Cap().AtEnd()
      ensures c.Short? ==> entries.guard.taken == Deliverable(entries.guard.goal.stop, entries.guard.input)
      ensures c.Lost? ==> Cap().Failure(c.error)
      ensures Stalls() <= old(Stalls()) && (c.Dropped? ==> Stalls() < old(Stalls()))
    {
      hide Frame, After;
      c := entries.Await(DRAIN_BLOCK);
      entries.guard.TakenWithinInput();
      if c.Full? { entries.guard.TakenWithinReach(); }
    }

    /**
     `verify_end`: read what is left in blocks of 8192. Clean means that only zeros, and
     at least 512 of them, followed the zero block, up to the end of the input.
     */
    method VerifyEnd(ghost s: Scanned) returns (r: EndCheck)
      requires entries.guard.Valid() && Cap().max == limits.maxTotalBytes && entries.Agrees(Parser.NoMore, s)
      requires s.EndBlock? ==> entries.guard.goal.stop == Trailer(s.at)
      modifies this`drained, entries.guard.Footprint()
      ensures drained && entries.guard.Valid()
      ensures s.EndBlock? ==> s.at <= |entries.guard.input|
      ensures r.Clean? ==> s.EndBlock? && Tail(entries.guard.input, s.at) == Finished && Cap().AtEnd()
      ensures r.Clean? ==>
        && s.at + 512 <= |entries.guard.input|
        && forall i :: s.at <= i < |entries.guard.input| ==> entries.guard.input[i] == 0
      ensures r.Unclean? && !Excused(r.error) ==> r.error == Malformed
      ensures r.Unclean? && Cap().total > limits.maxTotalBytes ==> r.error == LimitExceeded("max_total_bytes")
      ensures r.Unclean? && !Excused(r.error) && s.EndBlock? ==>
        || |entries.guard.input| < s.at + 512
        || exists i :: s.at <= i < |entries.guard.input| && entries.guard.input[i] != 0
      ensures r.Unclean? && !Excused(r.error) && s.EndBlock? ==> Tail(entries.guard.input, s.at) == Fail(Malformed)
      ensures Stalls() <= old(Stalls()) && (r.Abandoned? ==> Stalls() < old(Stalls()))
    {
      hide Frame, After, Scan, G.HeaderGuard.Valid, AllZero, ReadError;
      drained := true;
      var trailing := 0;
      ghost var input, start := entries.guard.input, entries.guard.taken;
      entries.guard.TakenWithinInput();
      NoZeros(input, start);
      assert input[start..|input|] == input[start..];
      while true
        invariant drained && entries.guard.Valid() && entries.guard.Clean() && !entries.guard.goal.stop.Fault?
        invariant start <= entries.guard.taken <= |input| && Stalls() <= old(Stalls())
        invariant AllZero(input[start..entries.guard.taken])
        invariant trailing == Min(entries.guard.taken - start, U64_MAX)
        invariant s.Bad? ==> entries.guard.taken == start == Deliverable(entries.guard.goal.stop, input)
        decreases |input| - entries.guard.taken
      {
        ghost var before := entries.guard.taken;
        var c := DrainBlock();
        match c
        case Lost(e) =>
          ErrorsExplained(e);
          return Unclean(ReadError(e, Cap().total, limits.maxTotalBytes));
        case Dropped => return Abandoned;
        case Short(_) => break;
        case Full(block) =>
          CleanIsWithin();
          JoinZeros(input, start, before, entries.guard.taken);
          JoinZeros(input, start, entries.guard.taken, |input|);
          if s.EndBlock? { ZerosInNumbers(input, s.at); }
          if !AllZero(block) { return Unclean(Malformed); }
          trailing := SatAdd(trailing, |block|);
      }
      if s.EndBlock? { ZerosInNumbers(input, s.at); }
      CleanIsWithin();
      if trailing < BLOCK { return Unclean(Malformed); }
      return Clean;
    }

    lemma NoZeros(input: Bytes, at: nat)
      requires at <= |input|
      ensures AllZero(input[at..at])
    {
    }

    /** What the parser's next answer will mean for the listing, worked out beforehand. */
    lemma Foresee()
      requires entries.Valid() && OnTrack()
      ensures var s := entries.Rest(NO_EXTENSIONS);
        && InInput(entries.guard.input, s) && whole == Append(yielded, FromScan(X(), s, seen))
        && (s.EndBlock? ==> entries.guard.goal.stop == Trailer(s.at))
        && (s.Found? ==>
          entries.next <= s.item.record.offset && s.item.record.Data() <= |entries.guard.input| <= U64_MAX)
    {
      ScanInside(entries.guard.cfg, entries.codec, entries.guard.input, entries.next, NO_EXTENSIONS);
      if entries.Rest(NO_EXTENSIONS).EndBlock? {
        ScanEndIsTrailer(entries.guard.cfg, entries.codec, entries.guard.input, entries.next, NO_EXTENSIONS);
      }
    }

    /** A fault of the guard inside or right behind a body is the error that ends the listing. */
    lemma FaultEndsListing(e: IoError)
      requires entries.guard.Valid() && entries.Aligned(NO_EXTENSIONS) && OnTrack()
      requires entries.guard.errors > 0 && entries.guard.goal.stop == Fault(entries.guard.taken, e)
      requires entries.guard.taken <= entries.next
      ensures whole == Listing(yielded, Fail(Describe(e)))
    {
      hide Describe;
      entries.SkipLost(e);
      assert yielded + [] == yielded;
    }

    /** `accept`: count the entry, then open it. */
    method Accept(item: Item) returns (r: Result<EntryHeader, Error>)
      requires seen < U64_MAX
      modifies this`seen
      ensures seen == old(seen) + 1
      ensures r == Admit(X(), item, old(seen))
    {
      seen := seen + 1;
      if seen > limits.maxEntries {
        return Err(LimitExceeded("max_entries"));
      }
      r := OpenEntry(entries.codec, item, limits);
    }

    /** Hand out the entry just accepted. */
    method Lend(header: EntryHeader, item: Item) returns (r: NextEntry)
      requires entries.Valid() && !drained && !bodyFailed && !done && Cap().max == limits.maxTotalBytes
      requires seen == |yielded| + 1 <= limits.maxEntries && BLOCK * seen <= entries.next
      requires entries.Agrees(Got(item), Found(item))
      requires whole == Append(yielded,
        Cons(Entry(header, BodyOf(entries.guard.input, item.record)), List(X(), entries.next, NO_EXTENSIONS, seen)))
      modifies this`yielded
      ensures Valid() && r.Lent? && fresh(r.entry) && fresh(r.entry.body) && r.entry.reader == this
      ensures r.entry.Live() && r.entry.header == header && r.entry.item == item
      ensures r.entry.body.delivered == 0 && r.entry.body.cap == limits.maxEntryBytes
      ensures yielded == old(yielded) + [Entry(header, BodyOf(entries.guard.input, item.record))]
    {
      hide Frame, After, Scan, List, G.HeaderGuard.Valid, OpenEntry, Describe, ReadError;
      ghost var next := Entry(header, BodyOf(entries.guard.input, item.record));
      ghost var rest := List(X(), entries.next, NO_EXTENSIONS, seen).entries;
      assert yielded + ([next] + rest) == (yielded + [next]) + rest;
      assert this !in entries.Footprint();
      yielded := yielded + [next];
      var body := new Bounded(entries, limits.maxEntryBytes);
      var entry := new ReadEntry(this, header, body, item);
      r := Lent(entry);
    }

    /** Accept the parser's entry and lend it, or refuse it. */
    method Offer(item: Item) returns (r: NextEntry)
      requires entries.Valid() && !drained && !bodyFailed && !done && Cap().max == limits.maxTotalBytes
      requires Bookkeeping() && seen < U64_MAX && BLOCK * (seen + 1) <= entries.next && !bodyFailed
      requires entries.Agrees(Got(item), Found(item))
      requires InInput(entries.guard.input, Found(item)) && whole == Append(yielded, FromScan(X(), Found(item), seen))
      modifies this`seen, this`yielded
      ensures r.Lent? ==> Valid() && seen == old(seen) + 1
      ensures r.Lent? ==> fresh(r.entry) && fresh(r.entry.body) && r.entry.reader == this
      ensures r.Lent? ==> r.entry.Live() && r.entry.body.delivered == 0 && r.entry.body.cap == limits.maxEntryBytes
      ensures r.Lent? ==>
        yielded == old(yielded) + [Entry(r.entry.header, BodyOf(entries.guard.input, r.entry.item.record))]
      ensures !r.Lent? ==> yielded == old(yielded) && r.Refused? && whole == Listing(yielded, Fail(r.error))
    {
      hide Frame, After, Scan, G.HeaderGuard.Valid, OpenEntry, Describe, ReadError;
      assert this !in entries.Footprint();
      assert yielded + [] == yielded;
      var accepted := Accept(item);
      match accepted {
        case Ok(header) => r := Lend(header, item);
        case Err(e) => r := Refused(e);
      }
    }

    /** The parser found the end: check what follows it. */
    method Finish(ghost s: Scanned) returns (r: NextEntry)
      requires entries.guard.Valid() && entries.Agrees(Parser.NoMore, s)
      requires !bodyFailed && !done && Cap().max == limits.maxTotalBytes && Bookkeeping()
      requires s.EndBlock? ==> entries.guard.goal.stop == Trailer(s.at)
      requires InInput(entries.guard.input, s) && whole == Append(yielded, FromScan(X(), s, seen))
      modifies this`drained, this`done, entries.guard.Footprint()
      ensures entries.guard.Valid() && (r.End? ==> Valid() && done)
      ensures !r.End? ==> !done && (r.CallDropped? || r.Refused?)
      ensures r.Refused? ==> whole == Listing(yielded, Fail(r.error)) || Excused(r.error)
      ensures r.Refused? && Cap().total > limits.maxTotalBytes ==> r.error == LimitExceeded("max_total_bytes")
      ensures Stalls() <= old(Stalls()) && (r.CallDropped? ==> Stalls() < old(Stalls()))
    {
      hide Frame, After, Scan, List, G.HeaderGuard.Valid, Describe, ReadError;
      assert yielded + [] == yielded;
      var check := VerifyEnd(s);
      match check {
        case Clean =>
          done := true;
          r := End;
        case Unclean(e) => r := Refused(e);
        case Abandoned => r := CallDropped;
      }
    }

    /** The awaited part of `next_entry`: ask the parser, then accept its entry or check the end. */
    method Fetch() returns (r: NextEntry)
      requires Valid() && !bodyFailed && !done
      modifies Footprint()
      ensures !bodyFailed && (done <==> r.End?) && |yielded| <= limits.maxEntries && yielded <= whole.entries
      ensures entries.guard.Valid() && (r.Lent? || r.End? ==> Valid())
      ensures r.Lent? ==> fresh(r.entry) && fresh(r.entry.body) && r.entry.Live() && r.entry.reader == this
      ensures r.Lent? ==>
        r.entry.body.delivered == 0 && r.entry.body.cap == limits.maxEntryBytes && seen == old(seen) + 1
      ensures r.Lent? ==>
        yielded == old(yielded) + [Entry(r.entry.header, BodyOf(entries.guard.input, r.entry.item.record))]
      ensures !r.Lent? ==> yielded == old(yielded)
      ensures r.End? ==> seen == old(seen)
      ensures r.Refused? ==> whole == Listing(yielded, Fail(r.error)) || Excused(r.error)
      ensures r.Refused? && Cap().total > limits.maxTotalBytes ==> r.error == LimitExceeded("max_total_bytes")
      ensures Stalls() <= old(Stalls()) && (r.CallDropped? ==> Stalls() < old(Stalls()))
    {
      hide Frame, After, Scan, List, G.HeaderGuard.Valid, Admit, Describe, ReadError, BodyOf, Tail;
      hide Caps.WithinRatio, Caps.Cap.AtEnd, G.HeaderGuard.AtEof;
      Foresee();
      ghost var s := entries.Rest(NO_EXTENSIONS);
      var next := entries.Next();
      match next {
        case Got(item) =>
          CleanIsWithin();
          r := Offer(item);
        case Broken(e) =>
          ErrorsExplained(e);
          r := Refused(ReadError(e, Cap().total, limits.maxTotalBytes));
        case NoMore => r := Finish(s);
        case Cancelled => r := CallDropped;
      }
    }

    /**
     `next_entry`. Whatever the chunking, the answers are, one by one, the entries of the
     listing of the whole archive, then its end or its error; only a failure underneath or
     an abandoned call can change that. Every exit but success leaves the reader poisoned.
     */
    method NextEntry() returns (r: NextEntry)
      requires Valid()
      modifies Footprint()
      ensures Valid()
      ensures Runs.Step(limits.maxEntries, old(Control()), Runs.Next(AnswerOf(r)), Control())
      ensures r.Lent? ==> fresh(r.entry) && fresh(r.entry.body) && r.entry.Live() && r.entry.reader == this
      ensures r.Lent? ==> r.entry.body.delivered == 0 && r.entry.body.cap == limits.maxEntryBytes
      ensures r.Lent? ==>
        yielded == old(yielded) + [Entry(r.entry.header, BodyOf(entries.guard.input, r.entry.item.record))]
      ensures !r.Lent? ==> yielded == old(yielded)
      ensures r.Refused? && !old(bodyFailed) ==> whole == Listing(yielded, Fail(r.error)) || Excused(r.error)
      // a breach of the total cap is reported as such, whatever it looked like from above
      ensures r.Refused? && !old(bodyFailed) && Cap().total > limits.maxTotalBytes ==>
        r.error == LimitExceeded("max_total_bytes")
      ensures old(bodyFailed) ==> r == Refused(Aborted)
      // nothing but a failure underneath hides the error of the header at hand
      ensures forall e :: !old(bodyFailed || done) && EndsWith(X().cfg, X().input, old(entries.next), e) ==>
        !r.Lent? && !r.End? && (r.Refused? ==> r.error == e || Excused(r.error))
      ensures Stalls() <= old(Stalls()) && (r.CallDropped? ==> Stalls() < old(Stalls()))
    {
      hide Frame, After, Scan, List, G.HeaderGuard.Valid, Admit, Describe, ReadError, BodyOf, Tail;
      hide Caps.WithinRatio, Caps.Cap.AtEnd, G.HeaderGuard.AtEof, EndsWith;
      if bodyFailed { return Refused(Aborted); }
      if done { return End; }
      var armed := true;
      ghost var front, at, counted := yielded, entries.next, seen;
      r := Fetch();
      if r.Lent? || r.End? { armed := false; }
      if armed { bodyFailed := true; }
      forall e | EndsWith(X().cfg, X().input, at, e)
        ensures whole == Listing(front, Fail(e))
      {
        EndsListing(X(), whole, front, at, NO_EXTENSIONS, counted, e);
      }
    }
  }

  /** One entry body, lent until the next call. */
  class ReadEntry {
    const reader: Reader
    const header: EntryHeader
    const body: Bounded
    ghost const item: Item

    constructor (reader: Reader, header: EntryHeader, body: Bounded, ghost item: Item)
      ensures this.reader == reader && this.header == header && this.body == body && this.item == item
    {
      this.reader, this.header, this.body, this.item := reader, header, body, item;
    }

    ghost function Footprint(): set<object> {
      reader.Footprint() + {this, body}
    }

    /** The whole body that is lent. */
    ghost function Text(): Bytes {
      BodyOf(reader.entries.guard.input, item.record)
    }

    ghost function Stalls(): nat
      reads reader.Cap().Source()
    {
      reader.Stalls()
    }

    /** The body is still on loan: the reader has not moved on, and reading continues where it stopped. */
    ghost predicate Live()
      reads Footprint()
    {
      && reader.Valid() && !reader.done && reader.entries.Steady()
      && body.inner == reader.entries && body.Valid() && (body.failed ==> reader.bodyFailed)
      && (!reader.bodyFailed ==>
        && reader.entries.next == item.record.End()
        && reader.entries.guard.taken == item.record.Data() + body.delivered
        && reader.entries.bodyLeft == item.record.size - body.delivered)
    }

    /** A piece of the body is a piece of the input behind the entry's header. */
    lemma TextSlice(from: nat, to: nat)
      requires from <= to <= item.record.size && item.record.Data() + to <= |reader.entries.guard.input|
      ensures |Text()| == Min(item.record.size, |reader.entries.guard.input| - item.record.Data())
      ensures Text()[from..to] == reader.entries.guard.input[item.record.Data() + from..item.record.Data() + to]
    {
      var input, r := reader.entries.guard.input, item.record;
      SliceOfSlice(input, r.Data(), Min(r.Data() + r.size, |input|), from, to);
    }

    /**
     One poll of a lent body. The bytes are the next of the body in order, at most
     `max_entry_bytes` of them, and any error poisons the reader.
     */
    method PollRead(buf: ReadBuf) returns (p: Poll)
      requires Live() && buf.Valid()
      modifies reader.entries.guard.Footprint(), reader.entries`bodyLeft, body, reader`bodyFailed, buf
      ensures Live() && buf.Valid()
      ensures Runs.Step(reader.limits.maxEntries, old(reader.Control()), Runs.Body(p.Failed?), reader.Control())
      ensures !reader.bodyFailed ==>
        && old(body.delivered) <= body.delivered <= |Text()|
        && buf.filled == old(buf.filled) + Text()[old(body.delivered)..body.delivered]
      ensures p.Pending? && !reader.bodyFailed ==> body.delivered == old(body.delivered)
      ensures p.Ready? && !reader.bodyFailed && body.delivered == old(body.delivered) ==>
        |buf.filled| == buf.capacity || body.delivered == |Text()|
      ensures Stalls() <= old(Stalls()) && (p.Pending? ==> Stalls() < old(Stalls()))
      ensures p.Failed? && !old(reader.bodyFailed) ==> Explained(p.error)
    {
      hide Frame, After, Scan, List, G.HeaderGuard.Valid, G.HeaderGuard.AtEof;
      hide Describe, Caps.Cap.AtEnd, Caps.Cap.Failure, BodyOf;
      ghost var before := body.delivered;
      p := body.PollRead(buf);
      if p.Failed? {
        reader.bodyFailed := true;
      }
      if !old(reader.bodyFailed) {
        TextSlice(before, reader.entries.guard.taken - item.record.Data());
      }
      if !reader.bodyFailed && reader.entries.guard.AtEof() && reader.entries.bodyLeft > 0 {
        reader.entries.EndInBody();
      }
      if p.Failed? && !old(reader.bodyFailed) && !body.failed && reader.entries.guard.errors > 0 {
        reader.FaultEndsListing(p.error);
      }
    }

    /** Why the first failed read of a body failed: underneath, too long a body, or a fault of the archive. */
    ghost predicate Explained(e: IoError)
      reads Footprint()
    {
      || reader.Cap().Failure(e)
      || (e == CapError("max_entry_bytes") && |Text()| > body.cap)
      || reader.whole == Listing(reader.yielded, Fail(Describe(e)))
    }
  }

  /** What a whole-archive validation came back with. */
  datatype Validation =
    | Report(entries: nat, encodedBytes: u64, decodedBytes: u64)
    | Invalid(error: Error)
    | Unfinished

  datatype Copy = Copied | CopyFailed(error: IoError) | CopyDropped

  /** What a source means under a choice of limits and foreign codecs. */
  function Meaning(
    content: Bytes, zstd: Compress.Coder, size: Bytes -> Option<u64>, codec: Codec, limits: Limits): Context
  {
    Context(
      Config(size, Pax.Read, limits.maxMetadataBytes), codec, limits,
      Compress.Choose(content, zstd).decode(content))
  }

  /** The listing of the whole archive. */
  function Listed(x: Context): Listing {
    List(x, 0, NO_EXTENSIONS, 0)
  }

  /**
   A failure that the decoded archive itself does not explain: the transport's, an
   incomplete stream, too many decoded bytes, or too many for the encoded ones.
   */
  ghost predicate NotTheArchive(source: Source, zstd: Compress.Coder, limits: Limits, e: Error)
    reads source
  {
    var coder := Compress.Choose(source.content, zstd);
    || (source.failure.Some? && e == Io(Transport(source.failure.value)))
    || (!coder.complete(source.content) && e == Malformed)
    || (|coder.decode(source.content)| > limits.maxTotalBytes && e == LimitExceeded("max_total_bytes"))
    || (!Caps.WithinRatio(coder, source.content, limits.maxCompressionRatio)
        && e == LimitExceeded("max_compression_ratio"))
  }

  /** What excuses a reader's failure comes from the source and its encoding. */
  lemma ExcuseIsNotTheArchive(reader: Reader, zstd: Compress.Coder, e: Error)
    requires reader.Valid() && reader.Excused(e) && reader.Cap().maxRatio == reader.limits.maxCompressionRatio
    requires reader.Cap().inner.coder == Compress.Choose(reader.Cap().Encoded(), zstd)
    ensures NotTheArchive(reader.Cap().Source(), zstd, reader.limits, e)
  {
    hide Caps.WithinRatio, Compress.Choose, List, Frame;
  }

  /** How opening an archive ended; a dropped call was abandoned while pending. */
  datatype Opening = Opened(reader: Reader) | OpenFailed(error: Error) | OpenDropped

  /** The parser's own readings of headers and PAX bodies are those the guard is set up with. */
  ghost predicate SameReadings(size: Bytes -> Option<u64>, codec: Codec) {
    ReadsAlike(Config(size, Pax.Read, 0), codec)
  }

  lemma SameUnderAnyLimit(size: Bytes -> Option<u64>, codec: Codec, limit: u64)
    requires SameReadings(size, codec)
    ensures ReadsAlike(Config(size, Pax.Read, limit), codec)
  {
    hide Pax.Read;
    var cfg := Config(size, Pax.Read, limit);
    forall body
      ensures codec.pax(body) == PaxSize(cfg, body)
    {
      assert codec.pax(body) == PaxSize(Config(size, Pax.Read, 0), body);
    }
  }

  /** `Reader::open`: meter, sniff, cap, guard and parse the source. */
  method OpenReader(source: Source, zstd: Compress.Coder, size: Bytes -> Option<u64>, codec: Codec, limits: Limits)
    returns (r: Opening)
    requires source.Valid() && source.taken == 0 && SameReadings(size, codec)
    requires Compress.Lawful(zstd) && |zstd.decode(source.content)| <= U64_MAX
    modifies source
    ensures r.Opened? ==> r.reader.Valid() && fresh(r.reader.Footprint() - {source}) && r.reader.Control() == Runs.START
    ensures r.Opened? ==> r.reader.X() == Meaning(source.content, zstd, size, codec, limits)
    ensures r.Opened? ==> r.reader.whole == Listed(r.reader.X()) && r.reader.limits == limits
    ensures r.Opened? ==>
      && r.reader.Cap().Source() == source
      && r.reader.Cap().inner.coder == Compress.Choose(source.content, zstd)
      && r.reader.Cap().maxRatio == limits.maxCompressionRatio
    ensures r.OpenDropped? ==> source.stalls < old(source.stalls)
    ensures r.OpenFailed? ==> source.failure.Some? && r.error == Io(Transport(source.failure.value))
    ensures source.stalls <= old(source.stalls)
  {
    hide List, Frame, Pax.Read, Caps.WithinRatio, Compress.Choose, Compress.Identity;
    var meter := new Compress.Meter(source);
    var sniffed := Compress.Decoded(meter, zstd);
    if sniffed.PeekFailed? { return OpenFailed(Io(sniffed.error)); }
    if sniffed.PeekDropped? { return OpenDropped; }
    SameUnderAnyLimit(size, codec, limits.maxMetadataBytes);
    var cap := new Caps.Cap(sniffed.decoder, limits.maxTotalBytes, limits.maxCompressionRatio);
    assert fresh(cap.Footprint() - {source});
    var guard := new G.HeaderGuard(cap, Config(size, Pax.Read, limits.maxMetadataBytes));
    assert fresh(guard.Footprint() - {source});
    var entries := new Entries(guard, codec);
    assert fresh(entries.Footprint() - {source});
    var reader := new Reader(entries, limits);
    return Opened(reader);
  }

  const COPY_BLOCK := 8192

  /** `tokio::io::copy` of a lent body into a sink that takes everything. */
  method CopyBody(entry: ReadEntry) returns (c: Copy, bytes: Bytes)
    requires entry.Live() && !entry.reader.bodyFailed && entry.body.delivered == 0
    modifies entry.reader.Footprint(), entry.body
    ensures entry.Live() && entry.reader.yielded == old(entry.reader.yielded)
    ensures c.Copied? ==> !entry.reader.bodyFailed && bytes == entry.Text() && |bytes| <= entry.body.cap
    ensures c.CopyFailed? ==> entry.Explained(c.error)
    ensures entry.Stalls() <= old(entry.Stalls()) && (c.CopyDropped? ==> entry.Stalls() < old(entry.Stalls()))
  {
    hide Frame, After, Scan, List, G.HeaderGuard.Valid, BodyOf;
    bytes := [];
    while true
      invariant entry.Live() && !entry.reader.bodyFailed && entry.reader.yielded == old(entry.reader.yielded)
      invariant entry.body.delivered <= |entry.Text()| && bytes == entry.Text()[..entry.body.delivered]
      invariant entry.Stalls() <= old(entry.Stalls())
      decreases |entry.Text()| - entry.body.delivered, entry.Stalls()
    {
      ghost var before := entry.body.delivered;
      var buf := new ReadBuf(COPY_BLOCK);
      var p := entry.PollRead(buf);
      match p
      case Failed(e) => return CopyFailed(e), bytes;
      case Pending => if * { return CopyDropped, bytes; }
      case Ready =>
        if buf.filled == [] { return Copied, bytes; }
        Join(entry.Text(), 0, before, entry.body.delivered);
        bytes := bytes + buf.filled;
    }
  }

  /** The archive finishes, and no body is larger than an entry may be. */
  ghost predicate Sound(x: Context) {
    Listed(x).ending == Finished && forall e :: e in Listed(x).entries ==> |e.body| <= x.limits.maxEntryBytes
  }

  /** The archive's own reason for being refused. */
  ghost predicate Invalidates(x: Context, e: Error) {
    || Listed(x).ending == Fail(e)
    || (e == LimitExceeded("max_entry_bytes")
        && exists i :: i in Listed(x).entries && |i.body| > x.limits.maxEntryBytes)
  }

  /** The two verdicts exclude each other: a sound archive gives no reason to refuse it. */
  lemma SoundIsNeverInvalid(x: Context, e: Error)
    ensures Sound(x) ==> !Invalidates(x, e)
  {
  }

  /** An archive whose first header ends it is refused for that header and for nothing else. */
  lemma FirstHeaderDecides(x: Context, first: Error, e: Error)
    requires EndsWith(x.cfg, x.input, 0, first)
    ensures !Sound(x) && (Invalidates(x, e) <==> e == first)
  {
    hide EndsWith, List;
    assert Listed(x) == Append([], List(x, 0, NO_EXTENSIONS, 0)) by {
      assert [] + Listed(x).entries == Listed(x).entries;
    }
    EndsListing(x, Listed(x), [], 0, NO_EXTENSIONS, 0, first);
  }

  lemma CopyFailureExplained(entry: ReadEntry, e: IoError)
    requires entry.Live() && entry.Explained(e)
    requires entry.reader.whole == Listed(entry.reader.X()) && entry.body.cap == entry.reader.limits.maxEntryBytes
    requires entry.reader.yielded != [] && entry.reader.yielded[|entry.reader.yielded| - 1].body == entry.Text()
    ensures var r := entry.reader;
      var error := ReadError(e, r.Cap().total, r.limits.maxTotalBytes);
      Invalidates(r.X(), error) || r.Excused(error)
  {
    hide List, G.HeaderGuard.Valid, BodyOf;
    var r := entry.reader;
    r.ErrorsExplained(e);
    var last := r.yielded[|r.yielded| - 1];
    assert r.yielded <= r.whole.entries && last in r.yielded;
    assert last in r.whole.entries;
  }

  /**
   `validate`: open, read every body, and report. A report is exact: all source bytes, all
   decoded bytes, and one entry for every visible record of an acceptable archive. Unless
   the transport or a cap fails, a refusal is the archive's own.
   */
  method Validate(source: Source, zstd: Compress.Coder, size: Bytes -> Option<u64>, codec: Codec, limits: Limits)
    returns (v: Validation)
    requires source.Valid() && source.taken == 0 && SameReadings(size, codec)
    requires Compress.Lawful(zstd) && |zstd.decode(source.content)| <= U64_MAX
    modifies source
    ensures var x := Meaning(source.content, zstd, size, codec, limits);
      match v
      case Report(entries, encoded, decoded) =>
        && Sound(x) && Acceptable(x, Frame(x.cfg, x.input, 0, None), NO_EXTENSIONS, 0)
        && entries == |Listed(x).entries| == Visible(Frame(x.cfg, x.input, 0, None).records) <= limits.maxEntries
        && encoded == |source.content| && decoded == |x.input|
        && Compress.Choose(source.content, zstd).complete(source.content)
      case Invalid(e) => Invalidates(x, e) || NotTheArchive(source, zstd, limits, e)
      case Unfinished => source.stalls < old(source.stalls)
  {
    hide Frame, After, Scan, List, G.HeaderGuard.Valid, BodyOf, Describe, Caps.WithinRatio, Compress.Choose;
    hide Pax.Read, Reader.Excused;
    var attempt := OpenReader(source, zstd, size, codec, limits);
    if attempt.OpenDropped? { return Unfinished; }
    if attempt.OpenFailed? {
      assert NotTheArchive(source, zstd, limits, attempt.error);
      return Invalid(attempt.error);
    }
    hide NotTheArchive;
    var reader := attempt.reader;
    ghost var x := reader.X();
    var entries := 0;
    while true
      invariant reader.Valid() && fresh(reader.Footprint() - {source}) && !reader.bodyFailed && !reader.done
      invariant entries == |reader.yielded| && source.stalls <= old(source.stalls)
      invariant forall e :: e in reader.yielded ==> |e.body| <= limits.maxEntryBytes
      decreases |reader.whole.entries| - |reader.yielded|
    {
      var next := reader.NextEntry();
      match next
      case Lent(entry) =>
        var copy, _ := CopyBody(entry);
        match copy {
          case Copied => entries := entries + 1;
          case CopyFailed(e) =>
            CopyFailureExplained(entry, e);
            var error := ReadError(e, reader.Cap().total, limits.maxTotalBytes);
            if reader.Excused(error) { ExcuseIsNotTheArchive(reader, zstd, error); }
            return Invalid(error);
          case CopyDropped => return Unfinished;
        }
      case End =>
        AcceptedIffFramed(x, 0, NO_EXTENSIONS, 0);
        return Report(entries, reader.Cap().inner.meter.count, reader.Cap().total);
      case Refused(e) =>
        if reader.Excused(e) { ExcuseIsNotTheArchive(reader, zstd, e); }
        return Invalid(e);
      case CallDropped => return Unfinished;
    }
  }

  /** What reading a whole archive came back with. */
  datatype Outcome = AllRead | ReadFailed(error: Error) | ReadGivenUp

  /**
   A caller that reads every entry and every body to the end. What it has collected at the
   end is the archive's listing; before that it is a first part of it, and a failure is the
   archive's own reason, the transport's, or that of a cap the stream exceeds.
   */
  method ReadAll(source: Source, zstd: Compress.Coder, size: Bytes -> Option<u64>, codec: Codec, limits: Limits)
    returns (o: Outcome, entries: seq<Entry>)
    requires source.Valid() && source.taken == 0 && SameReadings(size, codec)
    requires Compress.Lawful(zstd) && |zstd.decode(source.content)| <= U64_MAX
    modifies source
    ensures var x := Meaning(source.content, zstd, size, codec, limits);
      && entries <= Listed(x).entries
      && match o
         case AllRead => Listed(x) == Listing(entries, Finished)
         case ReadFailed(e) => Invalidates(x, e) || NotTheArchive(source, zstd, limits, e)
         case ReadGivenUp => source.stalls < old(source.stalls)
  {
    hide Frame, After, Scan, List, G.HeaderGuard.Valid, BodyOf, Describe, Caps.WithinRatio, Compress.Choose;
    hide Pax.Read, Reader.Excused;
    entries := [];
    var attempt := OpenReader(source, zstd, size, codec, limits);
    if attempt.OpenDropped? { return ReadGivenUp, entries; }
    if attempt.OpenFailed? {
      assert NotTheArchive(source, zstd, limits, attempt.error);
      return ReadFailed(attempt.error), entries;
    }
    hide NotTheArchive;
    var reader := attempt.reader;
    while true
      invariant reader.Valid() && fresh(reader.Footprint() - {source}) && !reader.bodyFailed && !reader.done
      invariant entries == reader.yielded && source.stalls <= old(source.stalls)
      decreases |reader.whole.entries| - |reader.yielded|
    {
      var next := reader.NextEntry();
      match next
      case Lent(entry) =>
        var copy, bytes := CopyBody(entry);
        match copy {
          case Copied => entries := entries + [Entry(entry.header, bytes)];
          case CopyFailed(e) =>
            CopyFailureExplained(entry, e);
            var error := ReadError(e, reader.Cap().total, limits.maxTotalBytes);
            if reader.Excused(error) { ExcuseIsNotTheArchive(reader, zstd, error); }
            return ReadFailed(error), entries;
          case CopyDropped => return ReadGivenUp, entries;
        }
      case End => return AllRead, entries;
      case Refused(e) =>
        if reader.Excused(e) { ExcuseIsNotTheArchive(reader, zstd, e); }
        return ReadFailed(e), entries;
      case CallDropped => return ReadGivenUp, entries;
    }
  }

  // ----- Whole runs -----

  /**
   A caller that makes `n` calls in any order it likes: asking for the next entry, polling the
   body it was last lent into a buffer of any size, or letting that body go. Whatever it
   does, the answers are a run of the reader's protocol, so the promises about runs hold of
   the reader itself, and the entries it was lent are the first ones of the archive.
   */
  method Drive(reader: Reader, n: nat) returns (es: seq<Runs.Event>, ghost cs: seq<Runs.Control>)
    requires reader.Valid() && reader.Control() == Runs.START
    modifies reader.Footprint()
    ensures reader.Valid() && |es| == n && Runs.Run(reader.limits.maxEntries, cs, es) && cs[n] == reader.Control()
    ensures reader.yielded <= reader.whole.entries && |reader.yielded| == Runs.Yields(es) <= reader.limits.maxEntries
    // a failed or abandoned call, and a failed body poll, are followed by refusals only
    ensures forall i, j :: 0 <= i < j < n && es[j].Next? ==>
      (es[i] in {Runs.Next(Runs.Refused), Runs.Next(Runs.Dropped), Runs.Body(true)} ==> es[j].answer == Runs.Refused)
    ensures forall i, j :: 0 <= i < j < n && es[j].Next? && es[i] == Runs.Next(Runs.Ended) ==>
      es[j].answer == Runs.Ended
    ensures (exists i :: 0 <= i < n && es[i] == Runs.Next(Runs.Ended)) ==>
      reader.whole == Listing(reader.yielded, Finished)
  {
    hide Frame, After, Scan, List, G.HeaderGuard.Valid, BodyOf, Runs.Step;
    es, cs := [], [reader.Control()];
    var current: ReadEntry? := null;
    while |es| < n
      invariant reader.Valid() && |es| <= n
      invariant Runs.Run(reader.limits.maxEntries, cs, es) && cs[|es|] == reader.Control()
      invariant current != null ==> fresh(current) && fresh(current.body) && current.Live() && current.reader == reader
      decreases n - |es|
    {
      var e: Runs.Event;
      var read: bool := *;
      if current != null && read {
        var room: nat := *;
        var buf := new ReadBuf(room);
        var p := current.PollRead(buf);
        e := Runs.Body(p.Failed?);
      } else {
        var r := reader.NextEntry();
        e := Runs.Next(AnswerOf(r));
        current := if r.Lent? then r.entry else null;
      }
      Runs.RunSnoc(reader.limits.maxEntries, cs, es, e, reader.Control());
      es, cs := es + [e], cs + [reader.Control()];
    }
    Runs.AllPromises(reader.limits.maxEntries, cs, es);
  }
}
