/**
 What a whole decoded archive means to a caller: the entries it yields and how it ends,
 read in one go. The incremental reader is proved against this listing, and the listing
 is characterised by the framing of the stream.
 */
module Listings {
  import opened Base
  import opened Errors
  import opened F = Framing
  import opened Parser
  import opened Open

  datatype Entry = Entry(header: EntryHeader, body: Bytes)

  datatype Ending = Finished | Fail(error: Error)

  datatype Listing = Listing(entries: seq<Entry>, ending: Ending)

  /** What stays fixed while one archive is read. */
  datatype Context = Context(cfg: Config, codec: Codec, limits: Limits, input: Bytes)

  /** What may follow the zero block that ends at `at`: a second block's worth of zeros, and only zeros. */
  function Tail(input: Bytes, at: nat): Ending
    requires at <= |input|
  {
    if |input| - at >= BLOCK && AllZero(input[at..]) then Finished else Fail(Malformed)
  }

  /** The body of a record, as far as the input goes. */
  function BodyOf(input: Bytes, r: Record): Bytes {
    input[Min(r.Data(), |input|)..Min(r.Data() + r.size, |input|)]
  }

  function Cons(e: Entry, rest: Listing): Listing {
    Listing([e] + rest.entries, rest.ending)
  }

  function Append(front: seq<Entry>, rest: Listing): Listing {
    Listing(front + rest.entries, rest.ending)
  }

  /** `accept`: count the entry, then open it. */
  function Admit(x: Context, item: Item, seen: nat): Result<EntryHeader, Error> {
    if seen + 1 > x.limits.maxEntries then Err(LimitExceeded("max_entries"))
    else OpenEntry(x.codec, item, x.limits)
  }

  /** A scan result that lies inside the input. */
  predicate InInput(input: Bytes, s: Scanned) {
    match s
    case Bad(_) => true
    case EndBlock(end) => end <= |input|
    case Found(item) => item.record.Data() <= |input|
  }

  /** What a scan finds lies at or behind the place it began, inside the input. */
  lemma {:induction false} ScanInside(cfg: Config, codec: Codec, input: Bytes, at: nat, m: Member)
    ensures var s := Scan(cfg, codec, input, at, m);
      InInput(input, s) && (s.Found? ==> at <= s.item.record.offset && !Extension(s.item.record.kind))
    decreases |input| - at
  {
    hide F.Inspect, Override, Describe;
    if at + BLOCK <= |input| {
      match Inspect(cfg, input[at..at + BLOCK], Override(cfg, m))
      case Zero =>
      case Reject(_) =>
      case Framed(kind, raw, size) =>
        var r := Record(at, kind, raw, size);
        if Extension(kind) && r.End() <= |input| {
          ScanInside(cfg, codec, input, r.End(), Extend(m, kind, input[r.Data()..r.Data() + raw]));
        }
    }
  }

  /** The listing a scan result leads to: its entry, if it is admitted, and then the next scan's. */
  function FromScan(x: Context, s: Scanned, seen: nat): Listing
    requires InInput(x.input, s)
    decreases if s.Found? then |x.input| - s.item.record.offset else 0
  {
    match s
    case Bad(e) => Listing([], Fail(e))
    case EndBlock(end) => Listing([], Tail(x.input, end))
    case Found(item) =>
      match Admit(x, item, seen)
      case Err(e) => Listing([], Fail(e))
      case Ok(header) =>
        ScanInside(x.cfg, x.codec, x.input, item.record.End(), NO_EXTENSIONS);
        var next := Scan(x.cfg, x.codec, x.input, item.record.End(), NO_EXTENSIONS);
        Cons(Entry(header, BodyOf(x.input, item.record)), FromScan(x, next, seen + 1))
  }

  /** The listing from offset `at`, with extensions `m` collected and `seen` entries behind. */
  function List(x: Context, at: nat, m: Member, seen: nat): Listing {
    ScanInside(x.cfg, x.codec, x.input, at, m);
    FromScan(x, Scan(x.cfg, x.codec, x.input, at, m), seen)
  }

  /** Where the scan finds the end, framing finds the trailer. */
  lemma {:induction false} ScanEndIsTrailer(cfg: Config, codec: Codec, input: Bytes, at: nat, m: Member)
    requires Scan(cfg, codec, input, at, m).EndBlock?
    ensures Frame(cfg, input, at, Override(cfg, m)).stop == Trailer(Scan(cfg, codec, input, at, m).at)
    ensures Scan(cfg, codec, input, at, m).at <= |input|
    decreases |input| - at
  {
    hide Describe, F.Inspect;
    var verdict := Inspect(cfg, input[at..at + BLOCK], Override(cfg, m));
    if verdict.Framed? {
      var r := Record(at, verdict.kind, verdict.raw, verdict.size);
      ScanEndIsTrailer(cfg, codec, input, r.End(), Extend(m, r.kind, input[r.Data()..r.Data() + r.raw]));
    }
  }

  /** The body length of a found entry is the override in force, or else the header's own size. */
  lemma {:induction false} FoundSize(cfg: Config, codec: Codec, input: Bytes, at: nat, m: Member)
    requires Scan(cfg, codec, input, at, m).Found?
    ensures var item := Scan(cfg, codec, input, at, m).item;
      item.record.size == Override(cfg, item.member).GetOr(item.record.raw)
    decreases |input| - at
  {
    hide Override, Describe;
    var verdict := Inspect(cfg, input[at..at + BLOCK], Override(cfg, m));
    if Extension(verdict.kind) {
      var r := Record(at, verdict.kind, verdict.raw, verdict.size);
      hide F.Inspect;
      FoundSize(cfg, codec, input, r.End(), Extend(m, r.kind, input[r.Data()..r.Data() + r.raw]));
    }
  }

  /**
   The refusal of payloads on directories and links looks at the header's own size. So an
   accepted entry of such a kind has a body exactly when a PAX record gives it one.
   */
  lemma NonFileBody(cfg: Config, codec: Codec, limits: Limits, input: Bytes, at: nat)
    requires Scan(cfg, codec, input, at, NO_EXTENSIONS).Found?
    requires var item := Scan(cfg, codec, input, at, NO_EXTENSIONS).item;
      OpenEntry(codec, item, limits).Ok? && !OpenEntry(codec, item, limits).value.meta.kind.File?
    ensures var item := Scan(cfg, codec, input, at, NO_EXTENSIONS).item;
      item.record.size > 0 <==> Override(cfg, item.member).Some? && Override(cfg, item.member).value > 0
  {
    FoundSize(cfg, codec, input, at, NO_EXTENSIONS);
    hide Scan, Override;
  }

  // ----- Which archives are accepted -----

  /** The header block of a record. */
  function HeaderOf(input: Bytes, r: Record): Bytes
    requires r.Data() <= |input|
  {
    input[r.offset..r.Data()]
  }

  ghost predicate Within(input: Bytes, rs: seq<Record>) {
    forall r :: r in rs ==> r.Data() <= |input| && (Extension(r.kind) ==> r.Data() + r.raw <= |input|)
  }

  /**
   A run of framed records is usable: checksums hold, no entry has two extensions of a
   kind, and every ordinary record is admitted within the entry limit.
   */
  ghost predicate Usable(x: Context, rs: seq<Record>, m: Member, seen: nat)
    requires Within(x.input, rs)
  {
    rs == [] ||
    var r := rs[0];
    && x.codec.checksum(HeaderOf(x.input, r))
    && if Extension(r.kind)
       then Free(m, r.kind)
            && Usable(x, rs[1..], Extend(m, r.kind, x.input[r.Data()..r.Data() + r.raw]), seen)
       else Admit(x, Item(HeaderOf(x.input, r), m, r), seen).Ok?
            && Usable(x, rs[1..], NO_EXTENSIONS, seen + 1)
  }

  /** How many of the records are entries a user sees. */
  function Visible(rs: seq<Record>): nat {
    if rs == [] then 0 else (if Extension(rs[0].kind) then 0 else 1) + Visible(rs[1..])
  }

  /** A stream whose framing reaches the trailer holds all the data of its extension records. */
  lemma {:induction false} TrailerMeansWithin(cfg: Config, input: Bytes, at: nat, pending: Option<u64>)
    requires Frame(cfg, input, at, pending).stop.Trailer?
    ensures Within(input, Frame(cfg, input, at, pending).records)
    decreases |input| - at
  {
    match Inspect(cfg, input[at..at + BLOCK], pending)
    case Zero =>
    case Framed(kind, raw, size) =>
      var r := Record(at, kind, raw, size);
      var left := if Extension(kind) then pending else None;
      if |input| < r.End() {
        CutInData(cfg, input, r, left);
      }
      var next := if kind != PAX then left else cfg.pax(input[r.Data()..r.Data() + raw]).value;
      assert After(cfg, input, r, left) == Frame(cfg, input, r.End(), next);
      TrailerMeansWithin(cfg, input, r.End(), next);
      assert Frame(cfg, input, at, pending).records == [r] + Frame(cfg, input, r.End(), next).records;
  }

  /** Zeros to the end, said byte by byte. */
  lemma ZerosInNumbers(input: Bytes, at: nat)
    requires at <= |input|
    ensures AllZero(input[at..]) <==> forall i :: at <= i < |input| ==> input[i] == 0
    ensures Tail(input, at) == Finished <==> at + 512 <= |input| && forall i :: at <= i < |input| ==> input[i] == 0
    ensures Tail(input, at) != Finished ==> Tail(input, at) == Fail(Malformed)
  {
    if AllZero(input[at..]) {
      assert forall i :: at <= i < |input| ==> input[i] == input[at..][i - at];
    }
  }

  /**
   The framing stops at a zero block, at least 512 more bytes follow it, all zero up to the
   end of the input, and the records in front of it are usable.
   */
  ghost predicate Acceptable(x: Context, f: Framing, m: Member, seen: nat) {
    && f.stop.Trailer? && f.stop.at + 512 <= |x.input|
    && (forall i :: f.stop.at <= i < |x.input| ==> x.input[i] == 0)
    && Within(x.input, f.records) && Usable(x, f.records, m, seen)
  }

  lemma UsableCons(x: Context, r: Record, rs: seq<Record>, m: Member, seen: nat)
    requires Within(x.input, rs) && r.Data() <= |x.input| && (Extension(r.kind) ==> r.Data() + r.raw <= |x.input|)
    ensures Within(x.input, [r] + rs) && Visible([r] + rs) == (if Extension(r.kind) then 0 else 1) + Visible(rs)
    ensures Usable(x, [r] + rs, m, seen) <==>
      (&& x.codec.checksum(HeaderOf(x.input, r))
       && if Extension(r.kind)
          then Free(m, r.kind) && Usable(x, rs, Extend(m, r.kind, x.input[r.Data()..r.Data() + r.raw]), seen)
          else Admit(x, Item(HeaderOf(x.input, r), m, r), seen).Ok? && Usable(x, rs, NO_EXTENSIONS, seen + 1))
  {
    hide Admit;
    assert ([r] + rs)[1..] == rs;
  }

  lemma WithinTail(input: Bytes, r: Record, rs: seq<Record>)
    requires Within(input, [r] + rs)
    ensures Within(input, rs)
    ensures r.Data() <= |input| && (Extension(r.kind) ==> r.Data() + r.raw <= |input|)
  {
    assert r in [r] + rs;
    forall s | s in rs
      ensures s in [r] + rs
    {
    }
  }

  /** The listing from `at` finishes exactly when the framing from `at` is acceptable. */
  ghost predicate Agreement(x: Context, at: nat, m: Member, seen: nat) {
    var f := Frame(x.cfg, x.input, at, Override(x.cfg, m));
    && (List(x, at, m, seen).ending == Finished <==> Acceptable(x, f, m, seen))
    && (Acceptable(x, f, m, seen) ==> |List(x, at, m, seen).entries| == Visible(f.records))
  }

  /** The header at `at` is framed as `r` when `m` has been collected. */
  ghost predicate FramedAt(x: Context, at: nat, m: Member, r: Record) {
    && at + BLOCK <= |x.input| && r.offset == at
    && Inspect(x.cfg, x.input[at..at + BLOCK], Override(x.cfg, m)) == Framed(r.kind, r.raw, r.size)
  }

  /** One admitted entry comes off the front of a listing. */
  lemma ListOrdinary(x: Context, at: nat, m: Member, seen: nat, r: Record, header: EntryHeader)
    requires FramedAt(x, at, m, r) && !Extension(r.kind) && x.codec.checksum(x.input[at..at + BLOCK])
    requires Admit(x, Item(x.input[at..at + BLOCK], m, r), seen) == Ok(header)
    ensures List(x, at, m, seen)
      == Cons(Entry(header, BodyOf(x.input, r)), List(x, r.End(), NO_EXTENSIONS, seen + 1))
  {
    hide Admit, BodyOf, F.Inspect;
    assert r == Record(at, r.kind, r.raw, r.size);
    assert Scan(x.cfg, x.codec, x.input, at, m) == Found(Item(x.input[at..at + BLOCK], m, r));
  }

  lemma ListExtension(x: Context, at: nat, m: Member, seen: nat, r: Record, body: Bytes)
    requires FramedAt(x, at, m, r) && Extension(r.kind) && x.codec.checksum(x.input[at..at + BLOCK])
    requires Free(m, r.kind) && r.End() <= |x.input| && body == x.input[r.Data()..r.Data() + r.raw]
    requires r.kind == PAX ==> x.cfg.pax(body).Ok?
    ensures List(x, at, m, seen) == List(x, r.End(), Extend(m, r.kind, body), seen)
  {
    hide Admit, BodyOf, F.Inspect, Override, Free, Extend;
    assert r == Record(at, r.kind, r.raw, r.size);
  }

  lemma ListRefused(x: Context, at: nat, m: Member, seen: nat, r: Record)
    requires FramedAt(x, at, m, r)
    requires !x.codec.checksum(x.input[at..at + BLOCK]) || (Extension(r.kind) && !Free(m, r.kind))
    ensures List(x, at, m, seen) == Listing([], Fail(Malformed))
  {
    hide F.Inspect, Free;
    assert Scan(x.cfg, x.codec, x.input, at, m) == Bad(Malformed);
  }

  lemma TakeRecord(x: Context, at: nat, m: Member, r: Record)
    requires FramedAt(x, at, m, r)
    ensures var left := if Extension(r.kind) then Override(x.cfg, m) else None;
      && Frame(x.cfg, x.input, at, Override(x.cfg, m)) == Prepend([r], After(x.cfg, x.input, r, left))
      && (r.kind != PAX ==> After(x.cfg, x.input, r, left) == Frame(x.cfg, x.input, r.End(), left))
  {
    assert r == Record(at, r.kind, r.raw, r.size);
  }

  lemma OrdinaryStep(x: Context, at: nat, m: Member, seen: nat, r: Record)
    requires FramedAt(x, at, m, r) && !Extension(r.kind)
    requires Agreement(x, r.End(), NO_EXTENSIONS, seen + 1)
    ensures Agreement(x, at, m, seen)
  {
    hide Admit, Tail, BodyOf, Describe;
    var rest := Frame(x.cfg, x.input, r.End(), None);
    var f := Frame(x.cfg, x.input, at, Override(x.cfg, m));
    TakeRecord(x, at, m, r);
    assert f == Prepend([r], rest);
    if Within(x.input, f.records) { WithinTail(x.input, r, rest.records); }
    if Within(x.input, rest.records) { UsableCons(x, r, rest.records, m, seen); }
  }

  lemma ExtensionStep(x: Context, at: nat, m: Member, seen: nat, r: Record)
    requires FramedAt(x, at, m, r) && Extension(r.kind) && r.End() <= |x.input|
    requires var body := x.input[r.Data()..r.Data() + r.raw];
      && (r.kind == PAX ==> x.cfg.pax(body).Ok?)
      && (Free(m, r.kind) ==> Agreement(x, r.End(), Extend(m, r.kind, body), seen))
    ensures Agreement(x, at, m, seen)
  {
    hide Admit, Tail, BodyOf, Describe, F.Inspect, List;
    var body := x.input[r.Data()..r.Data() + r.raw];
    if x.codec.checksum(x.input[at..at + BLOCK]) && Free(m, r.kind) {
      ListExtension(x, at, m, seen, r, body);
    } else {
      ListRefused(x, at, m, seen, r);
    }
    hide Scan;
    var next := if r.kind == PAX then x.cfg.pax(body).value else Override(x.cfg, m);
    var rest := Frame(x.cfg, x.input, r.End(), next);
    var f := Frame(x.cfg, x.input, at, Override(x.cfg, m));
    TakeRecord(x, at, m, r);
    assert f == Prepend([r], rest);
    if Within(x.input, f.records) { WithinTail(x.input, r, rest.records); }
    if Within(x.input, rest.records) { UsableCons(x, r, rest.records, m, seen); }
  }

  lemma BrokenStep(x: Context, at: nat, m: Member, seen: nat, r: Record)
    requires FramedAt(x, at, m, r) && Extension(r.kind)
    requires r.End() <= |x.input| ==> r.kind == PAX && x.cfg.pax(x.input[r.Data()..r.Data() + r.raw]).Err?
    ensures Agreement(x, at, m, seen)
  {
    hide Admit, Tail, BodyOf, Describe;
    TakeRecord(x, at, m, r);
    if |x.input| < r.End() {
      CutInData(x.cfg, x.input, r, Override(x.cfg, m));
    }
  }

  /**
   The acceptance language. A reader that starts at `at` finishes cleanly exactly when
   the stream frames as records, then one zero block, then at least 512 further bytes
   that are all zero up to the end, and the records are usable; it then yields one entry
   for every record that is not an extension.
   */
  lemma {:induction false} AcceptedIffFramed(x: Context, at: nat, m: Member, seen: nat)
    ensures Agreement(x, at, m, seen)
    decreases |x.input| - at
  {
    hide Admit, Describe;
    if at + BLOCK <= |x.input| {
      match Inspect(x.cfg, x.input[at..at + BLOCK], Override(x.cfg, m))
      case Zero => ZerosInNumbers(x.input, at + BLOCK);
      case Reject(_) =>
      case Framed(kind, raw, size) =>
        hide List, Frame, After, Usable;
        var r := Record(at, kind, raw, size);
        if !Extension(kind) {
          AcceptedIffFramed(x, r.End(), NO_EXTENSIONS, seen + 1);
          OrdinaryStep(x, at, m, seen, r);
        } else if |x.input| < r.End() || (kind == PAX && x.cfg.pax(x.input[r.Data()..r.Data() + raw]).Err?) {
          BrokenStep(x, at, m, seen, r);
        } else {
          if Free(m, kind) {
            AcceptedIffFramed(x, r.End(), Extend(m, kind, x.input[r.Data()..r.Data() + raw]), seen);
          }
          ExtensionStep(x, at, m, seen, r);
        }
    }
  }

  // ----- Listings in plain numbers -----

  /**
   How an archive is listed from an offset where no entry can be found, in bytes and numbers,
   whatever has been collected or seen: cut short, at its end, or with the error of the
   header that stands there.
   */
  lemma EndInNumbers(x: Context, at: nat, m: Member, seen: nat)
    ensures |x.input| < at + 512 ==> List(x, at, m, seen) == Listing([], Fail(Malformed))
    ensures at + 512 <= |x.input| && (forall i :: at <= i < at + 512 ==> x.input[i] == 0) ==>
      List(x, at, m, seen) == Listing([],
        if at + 1024 <= |x.input| && forall i :: at + 512 <= i < |x.input| ==> x.input[i] == 0
        then Finished else Fail(Malformed))
    ensures at + 512 <= |x.input| && !(forall i :: at <= i < at + 512 ==> x.input[i] == 0) ==>
      var kind, raw := x.input[at + 156], x.cfg.size(x.input[at..at + 512]);
      && (kind !in {0, 48, 49, 50, 53, 55, 120, 76, 75} ==>
        List(x, at, m, seen) == Listing([], Fail(DisallowedEntryType)))
      && (kind in {120, 76, 75} && raw.Some? && raw.value > x.cfg.maxMetadata ==>
        List(x, at, m, seen) == Listing([], Fail(LimitExceeded("max_metadata_bytes"))))
      && (kind in {0, 48, 49, 50, 53, 55, 120, 76, 75} && raw.None? ==>
        List(x, at, m, seen) == Listing([], Fail(Malformed)))
      && (kind in {0, 48, 49, 50, 53, 55} && raw.Some?
          && Override(x.cfg, m).GetOr(raw.value) + 511 >= 0x1_0000_0000_0000_0000 ==>
        List(x, at, m, seen) == Listing([], Fail(Malformed)))
  {
    hide Tail, Admit, BodyOf;
    if at + 512 <= |x.input| {
      var block := x.input[at..at + 512];
      assert block[156] == x.input[at + 156];
      BlockInNumbers(x.input, at);
      ZerosInNumbers(x.input, at + 512);
      hide AllZero;
    }
  }

  /**
   The header at `at` ends whatever is read there with error `e`: its type byte is none of the
   nine that are let through, or it is an extension above the metadata limit.
   */
  ghost predicate EndsWith(cfg: Config, input: Bytes, at: nat, e: Error) {
    && at + 512 <= |input| && (exists i :: at <= i < at + 512 && input[i] != 0)
    && var kind, raw := input[at + 156], cfg.size(input[at..at + 512]);
    || (e == DisallowedEntryType && kind !in {0, 48, 49, 50, 53, 55, 120, 76, 75})
    || (e == LimitExceeded("max_metadata_bytes") && kind in {120, 76, 75} && raw.Some? && raw.value > cfg.maxMetadata)
  }

  /** No listing gets past such a header, nor reports anything else. */
  lemma EndsListing(x: Context, whole: Listing, front: seq<Entry>, at: nat, m: Member, seen: nat, e: Error)
    requires whole == Append(front, List(x, at, m, seen)) && EndsWith(x.cfg, x.input, at, e)
    ensures whole == Listing(front, Fail(e))
  {
    EndInNumbers(x, at, m, seen);
    assert front + [] == front;
    hide List;
  }

  lemma BlockInNumbers(input: Bytes, at: nat)
    requires at + 512 <= |input|
    ensures AllZero(input[at..at + 512]) <==> forall i :: at <= i < at + 512 ==> input[i] == 0
  {
    var block := input[at..at + 512];
    if AllZero(block) {
      assert forall i :: at <= i < at + 512 ==> input[i] == block[i - at];
    } else {
      var i :| 0 <= i < 512 && block[i] != 0;
      assert input[at + i] == block[i];
    }
  }

  /**
   What an ordinary header does: with a bad checksum it ends the listing. Else it is one entry
   too many when the limit is reached, or ends the listing with the reason it is not opened
   for, or is listed with its body, as far as that goes, and the rest of the archive.
   */
  lemma EntryInNumbers(x: Context, at: nat, m: Member, seen: nat, r: Record)
    requires FramedAt(x, at, m, r) && r.kind !in {120, 76, 75}
    ensures var block := x.input[at..at + 512];
      var accepted := OpenEntry(x.codec, Item(block, m, r), x.limits);
      List(x, at, m, seen) ==
        if !x.codec.checksum(block) then Listing([], Fail(Malformed))
        else if seen >= x.limits.maxEntries then Listing([], Fail(LimitExceeded("max_entries")))
        else if accepted.Err? then Listing([], Fail(accepted.error))
        else
          var end := if at + 512 + r.size <= |x.input| then at + 512 + r.size else |x.input|;
          var rest := List(x, r.End(), NO_EXTENSIONS, seen + 1);
          Listing([Entry(accepted.value, x.input[at + 512..end])] + rest.entries, rest.ending)
  {
    hide F.Inspect, OpenEntry, Override, List, Record.End;
    var item := Item(x.input[at..at + 512], m, r);
    if !x.codec.checksum(item.block) {
      ListRefused(x, at, m, seen, r);
    } else {
      match Admit(x, item, seen)
      case Err(e) => ListNotAdmitted(x, at, m, seen, r, e);
      case Ok(header) => ListOrdinary(x, at, m, seen, r, header);
    }
  }

  lemma ListNotAdmitted(x: Context, at: nat, m: Member, seen: nat, r: Record, e: Error)
    requires FramedAt(x, at, m, r) && !Extension(r.kind) && x.codec.checksum(x.input[at..at + BLOCK])
    requires Admit(x, Item(x.input[at..at + BLOCK], m, r), seen) == Err(e)
    ensures List(x, at, m, seen) == Listing([], Fail(e))
  {
    hide Admit, F.Inspect, Override;
    assert r == Record(at, r.kind, r.raw, r.size);
    assert Scan(x.cfg, x.codec, x.input, at, m) == Found(Item(x.input[at..at + BLOCK], m, r));
  }

  /**
   What an extension does: its body joins the next header in the slot its type byte names,
   76 for a long name, 75 for a long link, 120 for PAX; a second one of its kind is refused.
   */
  lemma CollectedInNumbers(x: Context, at: nat, m: Member, seen: nat, r: Record)
    requires FramedAt(x, at, m, r) && r.kind in {120, 76, 75} && x.codec.checksum(x.input[at..at + 512])
    ensures r.End() == at + 512 + (r.raw + 511) / 512 * 512
    ensures var taken :=
        if r.kind == 76 then m.longName.Some? else if r.kind == 75 then m.longLink.Some? else m.pax.Some?;
      List(x, at, m, seen) ==
        if taken || |x.input| < r.End() then Listing([], Fail(Malformed))
        else
          var body := x.input[at + 512..at + 512 + r.raw];
          if r.kind == 120 && x.cfg.pax(body).Err? then Listing([], Fail(Malformed))
          else if r.kind == 76 then List(x, r.End(), m.(longName := Some(body)), seen)
          else if r.kind == 75 then List(x, r.End(), m.(longLink := Some(body)), seen)
          else List(x, r.End(), m.(pax := Some(body)), seen)
  {
    hide F.Inspect, List, RoundUp, Record.End, Override, AllZero;
    Collected(x, at, m, seen, r);
  }

  lemma Collected(x: Context, at: nat, m: Member, seen: nat, r: Record)
    requires FramedAt(x, at, m, r) && Extension(r.kind) && x.codec.checksum(x.input[at..at + BLOCK])
    ensures r.End() == at + 512 + (r.raw + 511) / 512 * 512
    ensures List(x, at, m, seen) ==
      if !Free(m, r.kind) || |x.input| < r.End() then Listing([], Fail(Malformed))
      else
        var body := x.input[r.Data()..r.Data() + r.raw];
        if r.kind == PAX && x.cfg.pax(body).Err? then Listing([], Fail(Malformed))
        else List(x, r.End(), Extend(m, r.kind, body), seen)
  {
    assert r.size == r.raw;
    hide F.Inspect, List, Free, Extend;
    if !Free(m, r.kind) || |x.input| < r.End() {
      ListBroken(x, at, m, seen, r);
    } else {
      var body := x.input[r.Data()..r.Data() + r.raw];
      if r.kind == PAX && x.cfg.pax(body).Err? {
        ListBroken(x, at, m, seen, r);
      } else {
        ListExtension(x, at, m, seen, r, body);
      }
    }
  }

  /** An extension that is a second one of its kind, cut short or not understood ends the listing. */
  lemma ListBroken(x: Context, at: nat, m: Member, seen: nat, r: Record)
    requires FramedAt(x, at, m, r) && Extension(r.kind) && x.codec.checksum(x.input[at..at + BLOCK])
    requires Free(m, r.kind) && r.End() <= |x.input| ==>
      r.kind == PAX && x.cfg.pax(x.input[r.Data()..r.Data() + r.raw]).Err?
    ensures List(x, at, m, seen) == Listing([], Fail(Malformed))
  {
    hide F.Inspect, Free, Override;
    assert r == Record(at, r.kind, r.raw, r.size);
    assert Scan(x.cfg, x.codec, x.input, at, m) == Bad(Malformed);
  }
}
