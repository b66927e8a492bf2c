/** The sequential writer: appends, poisoning, and finalization. */
module Writers {
  import opened Base
  import opened Errors
  import opened Streams
  import opened Output
  import opened Pack
  import Open
  import Paths
  import Runs = WriterRuns

  /** `WriteEntry::file`: only file metadata may come with a body. */
  function FileEntry(path: Paths.SafePath, meta: Open.Meta, size: u64, body: Source): (r: Result<PackEntry, Error>)
    ensures r == if meta.kind.File? then Ok(PackEntry(path, meta, size, body)) else Err(InvalidEntryKind)
  {
    if !meta.kind.File? then Err(InvalidEntryKind) else Ok(PackEntry(path, meta, size, body))
  }

  /** `WriteEntry::metadata`: anything but a file, without a body. */
  function MetadataEntry(path: Paths.SafePath, meta: Open.Meta): (r: Result<PackEntry, Error>)
    ensures r == if meta.kind.File? then Err(InvalidEntryKind) else Ok(PackEntry(path, meta, 0, null))
  {
    if meta.kind.File? then Err(InvalidEntryKind) else Ok(PackEntry(path, meta, 0, null))
  }

  /**
   What the constructors are for: an entry either of them returns is packed exactly when its
   header can be encoded and its body has the declared length, and is never refused for
   a missing or a misplaced body.
   */
  lemma BuiltEntriesFit(enc: Encoding, path: Paths.SafePath, meta: Open.Meta, size: u64, body: Source, supplied: Bytes)
    ensures var r := FileEntry(path, meta, size, body);
      r.Ok? ==>
        && (Packable(enc, r.value, supplied) <==> enc.header(path.bytes, meta, size).Some? && |supplied| == size)
        && forall e :: Refuses(enc, r.value, supplied, e) ==> e == Io(Unencodable()) || e == BodyLengthMismatch
    ensures var r := MetadataEntry(path, meta);
      r.Ok? ==>
        && (Packable(enc, r.value, []) <==> enc.header(path.bytes, meta, 0).Some?)
        && forall e :: Refuses(enc, r.value, [], e) ==> e == Io(Unencodable())
    ensures FileEntry(path, meta, size, body).Ok? <==> MetadataEntry(path, meta).Err?
  {
  }

  /** What an appended entry leaves in the archive. */
  datatype Stored = Stored(path: Paths.SafePath, meta: Open.Meta, body: Bytes)

  predicate Storable(enc: Encoding, s: Stored) {
    && |s.body| <= U64_MAX && enc.header(s.path.bytes, s.meta, |s.body|).Some?
    && (!s.meta.kind.File? ==> s.body == [])
  }

  predicate AllStorable(enc: Encoding, entries: seq<Stored>) {
    forall i :: 0 <= i < |entries| ==> Storable(enc, entries[i])
  }

  function StoredRecord(enc: Encoding, s: Stored): Bytes
    requires Storable(enc, s)
  {
    RecordBytes(enc, enc.header(s.path.bytes, s.meta, |s.body|).value, s.body)
  }

  /** The records of the entries, in append order. */
  function Records(enc: Encoding, entries: seq<Stored>): Bytes
    requires AllStorable(enc, entries)
  {
    if entries == [] then []
    else Records(enc, entries[..|entries| - 1]) + StoredRecord(enc, entries[|entries| - 1])
  }

  const TERMINATOR := 1024

  /** A finished tar archive: the records, then two zero blocks. */
  function TarOf(enc: Encoding, entries: seq<Stored>): Bytes
    requires AllStorable(enc, entries)
  {
    Records(enc, entries) + Zeros(TERMINATOR)
  }

  datatype AppendResult = Appended | AppendError(error: Error) | AppendDropped

  datatype WriteOutput = Finalized(sink: Sink, encodedBytes: u64) | FinishError(error: Error) | FinishDropped

  function AnswerOf(r: AppendResult): Runs.Answer {
    match r
    case Appended => Runs.Succeeded
    case AppendError(_) => Runs.Failed
    case AppendDropped => Runs.Dropped
  }

  function FinishAnswer(r: WriteOutput): Runs.Answer {
    match r
    case Finalized(_, _) => Runs.Succeeded
    case FinishError(_) => Runs.Failed
    case FinishDropped => Runs.Dropped
  }

  class Writer {
    const stream: Stream
    const enc: Encoding
    var failed: bool
    ghost var entries: seq<Stored>

    ghost function Footprint(): set<object> {
      stream.Footprint() + {this}
    }

    ghost predicate Valid()
      reads Footprint()
    {
      !failed ==>
        && stream.Valid() && AllStorable(enc, entries) && stream.plain == Records(enc, entries)
    }

    lemma HoldsStorable()
      requires Valid() && !failed
      ensures AllStorable(enc, entries)
    {
    }

    constructor (sink: Sink, format: Format, encoder: Encoder, enc: Encoding)
      requires Lawful(encoder)
      ensures Valid() && !failed && entries == [] && this.enc == enc
      ensures stream.format == format && stream.encoder == encoder
      ensures stream.out.inner == sink && stream.out.base == sink.accepted
      ensures fresh(stream) && fresh(stream.out)
    {
      var counted := new Counted(sink);
      stream := new Stream(counted, format, encoder);
      this.enc, failed, entries := enc, false, [];
    }

    /**
     `Writer::append`. Success adds exactly the entry's record behind those already there;
     any other outcome poisons the writer, and a poisoned writer only ever refuses.
     */
    method Append(entry: PackEntry) returns (r: AppendResult)
      requires Valid() && (entry.body != null ==> entry.body.Valid())
      modifies Footprint(), entry.body
      ensures Valid()
      ensures Runs.Step(old(failed), Runs.Append(AnswerOf(r)), failed)
      ensures old(failed) ==> r == AppendError(Aborted)
      ensures r.Appended? ==> Packable(enc, entry, old(Supplied(entry.body)))
      ensures !r.Appended? ==> entries == old(entries)
      ensures !old(failed) && !entry.meta.kind.File? && (entry.size != 0 || entry.body != null) ==>
        r == AppendError(NonFilePayload)
      ensures !old(failed) && entry.meta.kind.File? && entry.body == null ==> r == AppendError(MissingBody)
      ensures r.Appended? ==>
        entries == old(entries) + [Stored(entry.path, entry.meta, old(Supplied(entry.body)))]
      ensures r.AppendError? && !old(failed) ==>
        || Refuses(enc, entry, old(Supplied(entry.body)), r.error)
        || (r.error.Io? && Broken(stream, entry.body, r.error.cause))
      ensures r.AppendDropped? ==> Stalls(stream, entry.body) < old(Stalls(stream, entry.body))
    {
      if failed { return AppendError(Aborted); }
      var armed := true;
      ghost var stored := Stored(entry.path, entry.meta, Supplied(entry.body));
      var packed := Pack.Append(stream, enc, entry);
      match packed {
        case Packed =>
          r := Appended;
          armed := false;
          entries := entries + [stored];
          assert entries[..|entries| - 1] == old(entries);
        case Rejected(e) => r := AppendError(e);
        case PackDropped => r := AppendDropped;
      }
      if armed { failed := true; }
    }

    /**
     `Writer::finish`. A sink comes back only if no append failed or was abandoned, and it
     then holds what it held before followed by the encoding of exactly the appended
     records and the terminator; the count is the number of bytes it accepted.
     */
    method Finish() returns (r: WriteOutput)
      requires Valid()
      modifies Footprint()
      ensures r.Finalized? ==> !old(failed) && AllStorable(enc, old(entries)) && r.sink == stream.out.inner
      ensures r.Finalized? ==> r.sink.accepted == stream.out.base + stream.Encode(TarOf(enc, old(entries)))
      ensures r.Finalized? ==> r.encodedBytes == Min(|stream.Encode(TarOf(enc, old(entries)))|, U64_MAX)
      ensures old(failed) ==> r == FinishError(Aborted)
      ensures Runs.Step(old(failed), Runs.Finish(FinishAnswer(r)), failed)
      ensures r.FinishError? && !old(failed) ==> r.error.Io? && stream.Failure(r.error.cause)
      ensures r.FinishDropped? ==> stream.Stalls() < old(stream.Stalls())
    {
      if failed { return FinishError(Aborted); }
      var w := stream.Write(Zeros(TERMINATOR));
      if w.Done? {
        w := stream.Shutdown();
      }
      match w
      case WriteFailed(e) => return FinishError(Io(e));
      case WriteDropped => return FinishDropped;
      case Done => return Finalized(stream.out.inner, stream.out.bytes);
    }
  }

  // ----- Whole runs -----

  /** The bodies that come with a list of entries. Each belongs to one entry alone. */
  ghost function Bodies(jobs: seq<PackEntry>): set<Source> {
    set job: PackEntry | job in jobs && job.body != null :: job.body
  }

  ghost predicate Ready(jobs: seq<PackEntry>)
    reads Bodies(jobs)
  {
    && (forall i :: 0 <= i < |jobs| && jobs[i].body != null ==> jobs[i].body.Valid())
    && forall i, j :: 0 <= i < j < |jobs| && jobs[i].body != null ==> jobs[i].body != jobs[j].body
  }

  /** What the entries leave in the archive if all of them are appended. */
  ghost function Items(jobs: seq<PackEntry>): seq<Stored>
    requires Ready(jobs)
    reads Bodies(jobs)
  {
    seq(|jobs|, i requires 0 <= i < |jobs| reads Bodies(jobs) requires Ready(jobs) =>
      Stored(jobs[i].path, jobs[i].meta, Supplied(jobs[i].body)))
  }

  function Appends(answers: seq<Runs.Answer>): seq<Runs.Event> {
    seq(|answers|, i requires 0 <= i < |answers| => Runs.Append(answers[i]))
  }

  lemma OneMore(front: seq<Stored>, items: seq<Stored>, n: nat)
    requires n < |items|
    ensures front + items[..n] + [items[n]] == front + items[..n + 1]
  {
  }

  /**
   A caller that appends every entry of a list, whatever becomes of the ones before. The
   answers are a run of the writer's protocol, and a writer that is not poisoned at the
   end holds exactly the entries of the list behind those it had.
   */
  method AppendAll(writer: Writer, jobs: seq<PackEntry>) returns (answers: seq<Runs.Answer>, ghost states: seq<bool>)
    requires writer.Valid() && Ready(jobs)
    modifies writer.Footprint(), Bodies(jobs)
    ensures writer.Valid() && |answers| == |jobs| && |states| == |jobs| + 1
    ensures states[0] == old(writer.failed) && states[|jobs|] == writer.failed
    ensures forall i :: 0 <= i < |jobs| ==> Runs.Step(states[i], Runs.Append(answers[i]), states[i + 1])
    ensures !writer.failed ==> writer.entries == old(writer.entries) + old(Items(jobs))
    ensures !writer.failed ==> forall i :: 0 <= i < |jobs| ==> Packable(writer.enc, jobs[i], old(Items(jobs))[i].body)
  {
    hide Records, Packable, Refuses, Broken, AllStorable, Writer.Valid, Runs.Step, Supplied, Stalls, Source.Valid;
    ghost var items := Items(jobs);
    answers, states := [], [writer.failed];
    for n := 0 to |jobs|
      invariant writer.Valid() && |answers| == n && |states| == n + 1
      invariant states[0] == old(writer.failed) && states[n] == writer.failed
      invariant forall i :: 0 <= i < n ==> Runs.Step(states[i], Runs.Append(answers[i]), states[i + 1])
      invariant forall i :: n <= i < |jobs| && jobs[i].body != null ==>
        jobs[i].body.Valid() && Supplied(jobs[i].body) == items[i].body
      invariant !writer.failed ==> writer.entries == old(writer.entries) + items[..n]
      invariant !writer.failed ==> forall i :: 0 <= i < n ==> Packable(writer.enc, jobs[i], items[i].body)
    {
      var job := jobs[n];
      var r := writer.Append(job);
      answers, states := answers + [AnswerOf(r)], states + [writer.failed];
      OneMore(old(writer.entries), items, n);
    }
    assert items[..|jobs|] == items;
  }

  /**
   A whole life of a writer: append every entry of a list, then finish. The calls are a run
   of the protocol; a sink comes back only if every append succeeded, and it then holds
   the encoding of exactly the entries of the list.
   */
  method AppendAndFinish(writer: Writer, jobs: seq<PackEntry>)
    returns (answers: seq<Runs.Answer>, w: WriteOutput, ghost states: seq<bool>)
    requires writer.Valid() && !writer.failed && writer.entries == [] && Ready(jobs)
    modifies writer.Footprint(), Bodies(jobs)
    ensures Runs.Run(states, Appends(answers) + [Runs.Finish(FinishAnswer(w))]) && |answers| == |jobs|
    ensures w.Finalized? ==>
      && (forall i :: 0 <= i < |jobs| ==> answers[i] == Runs.Succeeded) && AllStorable(writer.enc, old(Items(jobs)))
      && w.sink == writer.stream.out.inner
      && w.sink.accepted == writer.stream.out.base + writer.stream.Encode(TarOf(writer.enc, old(Items(jobs))))
  {
    hide Records, Packable, TarOf, Ready, AllStorable;
    ghost var items := Items(jobs);
    answers, states := AppendAll(writer, jobs);
    assert [] + items == items;
    w := writer.Finish();
    states := states + [writer.failed];
    ghost var es := Appends(answers) + [Runs.Finish(FinishAnswer(w))];
    assert Runs.Run(states, es);
    if w.Finalized? {
      Runs.FinishMeansAllSucceeded(states, es);
      forall i | 0 <= i < |jobs|
        ensures answers[i] == Runs.Succeeded
      {
        assert es[i] == Runs.Append(answers[i]);
      }
    }
  }
}
