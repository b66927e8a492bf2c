/**
 What it means to frame a whole decoded tar stream: a one-shot recursive reading of
 headers, bodies and PAX size overrides, against which the incremental guard is proved.
 */
module Framing {
  import opened Base
  import opened Errors
  import Pax

  const KIND_OFFSET := 156
  const PAX: byte := 120
  const LONG_NAME: byte := 76
  const LONG_LINK: byte := 75

  predicate Extension(kind: byte) {
    kind == PAX || kind == LONG_NAME || kind == LONG_LINK
  }

  /** NUL, '0', '1', '2', '5', '7' and the three extension kinds. */
  predicate Allowed(kind: byte) {
    kind == 0 || kind == 48 || kind == 49 || kind == 50 || kind == 53 || kind == 55 || Extension(kind)
  }

  /**
   What framing is parametric in: the header's size accessor, the reading of a PAX
   body, and the ceiling on extension records.
   */
  datatype Config = Config(size: Bytes -> Option<u64>, pax: Bytes -> Pax.Outcome, maxMetadata: u64)

  /** The PAX reading is the one `parse_pax_size` implements; the size accessor stays arbitrary. */
  ghost predicate ReadsPax(cfg: Config) {
    forall body {:trigger Pax.Read(body)} :: cfg.pax(body) == Pax.Read(body)
  }

  /** One framed header: where it starts, what it says, and the body length in force. */
  datatype Record = Record(offset: nat, kind: byte, raw: u64, size: u64)
  {
    function Data(): nat { offset + BLOCK }

    function Skip(): nat { RoundUp(size) }

    function End(): nat { Data() + Skip() }
  }

  datatype Verdict = Zero | Reject(error: IoError) | Framed(kind: byte, raw: u64, size: u64)

  /** The decision on one complete header block under the override `pending`. */
  function Inspect(cfg: Config, block: Bytes, pending: Option<u64>): (v: Verdict)
    requires |block| == BLOCK
    ensures v.Framed? ==> v.size + 511 <= U64_MAX && (Extension(v.kind) ==> v.size == v.raw <= cfg.maxMetadata)
  {
    if AllZero(block) then Zero
    else
      var kind := block[KIND_OFFSET];
      if !Allowed(kind) then Reject(Wrapped(InvalidData, DisallowedEntryType))
      else
        match cfg.size(block)
        case None => Reject(MalformedIo())
        case Some(raw) =>
          if Extension(kind) && raw > cfg.maxMetadata then Reject(CapError("max_metadata_bytes"))
          else
            var size := if Extension(kind) then raw else pending.GetOr(raw);
            if size + 511 > U64_MAX then Reject(MalformedIo()) else Framed(kind, raw, size)
  }

  /** The override the guard is left with once it has inspected `block`, accepted or not. */
  function Leftover(cfg: Config, block: Bytes, pending: Option<u64>): Option<u64>
    requires |block| == BLOCK
  {
    if AllZero(block) || !Allowed(block[KIND_OFFSET]) || cfg.size(block) == None || Extension(block[KIND_OFFSET])
    then pending else None
  }

  /**
   The complete header at `at` is rejected under the override `left`, and again under the
   override that leaves: no later poll gets past it.
   */
  predicate Final(cfg: Config, input: Bytes, at: nat, left: Option<u64>) {
    && at + BLOCK <= |input|
    && var block := input[at..at + BLOCK];
    && Inspect(cfg, block, left).Reject? && Inspect(cfg, block, Leftover(cfg, block, left)).Reject?
  }

  /** Inspecting a rejected header once more leaves the override as the first time. */
  lemma LeftoverTwice(cfg: Config, block: Bytes, pending: Option<u64>)
    requires |block| == BLOCK
    ensures Leftover(cfg, block, Leftover(cfg, block, pending)) == Leftover(cfg, block, pending)
  {
  }

  /** Inspection opens the capture of a PAX body, whether or not it then accepts the header. */
  predicate OpensCapture(cfg: Config, block: Bytes)
    requires |block| == BLOCK
  {
    && !AllZero(block) && block[KIND_OFFSET] == PAX
    && cfg.size(block).Some? && cfg.size(block).value <= cfg.maxMetadata
  }

  /**
   The guard's own errors are not final. The override is consumed before the overflow
   check, so a header rejected because of an overflowing override, and only such a
   header, is accepted when the same block is inspected again.
   */
  lemma RejectionIsNotFinal(cfg: Config, block: Bytes, pending: Option<u64>)
    requires |block| == BLOCK && Inspect(cfg, block, pending).Reject?
    ensures !Inspect(cfg, block, Leftover(cfg, block, pending)).Reject? <==>
      (&& Allowed(block[KIND_OFFSET]) && !Extension(block[KIND_OFFSET])
       && pending.Some? && pending.value + 511 > U64_MAX
       && cfg.size(block).Some? && cfg.size(block).value + 511 <= U64_MAX)
  {
  }

  /**
   Why framing stopped. `at` counts the input bytes that get through: an input cut
   short, a trailer whose zero block ends at `at`, or a fault raised after `at` bytes.
   */
  datatype Stop = Cut(at: nat) | Trailer(at: nat) | Fault(at: nat, error: IoError)

  datatype Framing = Framing(records: seq<Record>, stop: Stop)

  function Prepend(records: seq<Record>, f: Framing): Framing {
    Framing(records + f.records, f.stop)
  }

  function Frame(cfg: Config, input: Bytes, at: nat, pending: Option<u64>): Framing
    decreases |input| - at
  {
    if |input| < at + BLOCK then Framing([], Cut(Min(at, |input|)))
    else
      match Inspect(cfg, input[at..at + BLOCK], pending)
      case Zero => Framing([], Trailer(at + BLOCK))
      case Reject(e) => Framing([], Fault(at, e))
      case Framed(kind, raw, size) =>
        var r := Record(at, kind, raw, size);
        Prepend([r], After(cfg, input, r, if Extension(kind) then pending else None))
  }

  /** What follows record `r`, when `pending` is the override left over by it. */
  function After(cfg: Config, input: Bytes, r: Record, pending: Option<u64>): Framing
    requires r.Data() <= |input| && (r.kind == PAX ==> r.size == r.raw)
    decreases |input| - r.offset - 1
  {
    if r.kind != PAX then Frame(cfg, input, r.End(), pending)
    else if |input| < r.End() then Framing([], Cut(|input|))
    else
      match cfg.pax(input[r.Data()..r.Data() + r.raw])
      case Err(e) => Framing([], Fault(r.End(), e))
      case Ok(size) => Frame(cfg, input, r.End(), size)
  }

  /** How many input bytes get through to a reader before the end or the fault. */
  function Deliverable(stop: Stop, input: Bytes): nat {
    if stop.Trailer? then |input| else stop.at
  }

  lemma PrependAssoc(a: seq<Record>, b: seq<Record>, f: Framing)
    ensures Prepend(a, Prepend(b, f)) == Prepend(a + b, f)
  {
    assert a + (b + f.records) == (a + b) + f.records;
  }

  lemma PrependNothing(f: Framing)
    ensures Prepend([], f) == f
  {
    assert [] + f.records == f.records;
  }

  /** Taking one header off the front of what is left to frame. */
  lemma HeaderStep(cfg: Config, input: Bytes, log: seq<Record>, at: nat, pending: Option<u64>)
    requires at + BLOCK <= |input|
    ensures var whole := Prepend(log, Frame(cfg, input, at, pending));
      match Inspect(cfg, input[at..at + BLOCK], pending)
      case Zero => whole == Framing(log, Trailer(at + BLOCK))
      case Reject(e) => whole == Framing(log, Fault(at, e))
      case Framed(kind, raw, size) =>
        var r := Record(at, kind, raw, size);
        whole == Prepend(log + [r], After(cfg, input, r, if Extension(kind) then pending else None))
  {
    match Inspect(cfg, input[at..at + BLOCK], pending)
    case Zero =>
    case Reject(_) =>
    case Framed(kind, raw, size) =>
      var r := Record(at, kind, raw, size);
      PrependAssoc(log, [r], After(cfg, input, r, if Extension(kind) then pending else None));
  }

  /** Taking the data of record `r` off the front of what is left to frame. */
  lemma DataStep(cfg: Config, input: Bytes, log: seq<Record>, r: Record, pending: Option<u64>)
    requires r.Data() <= |input| && (r.kind == PAX ==> r.size == r.raw && r.End() <= |input|)
    ensures var whole := Prepend(log, After(cfg, input, r, pending));
      if r.kind != PAX then whole == Prepend(log, Frame(cfg, input, r.End(), pending))
      else
        match cfg.pax(input[r.Data()..r.Data() + r.raw])
        case Err(e) => whole == Framing(log, Fault(r.End(), e))
        case Ok(size) => whole == Prepend(log, Frame(cfg, input, r.End(), size))
  {
  }

  /** A record whose data the input does not hold ends the framing. */
  lemma CutInData(cfg: Config, input: Bytes, r: Record, pending: Option<u64>)
    requires r.Data() <= |input| < r.End() && (r.kind == PAX ==> r.size == r.raw)
    ensures After(cfg, input, r, pending) == Framing([], Cut(|input|))
  {
    assert Frame(cfg, input, r.End(), pending) == Framing([], Cut(|input|));
  }

  /** Framing never stops before the point it has reached, nor beyond the input. */
  lemma {:induction false} StopBounds(cfg: Config, input: Bytes, at: nat, pending: Option<u64>)
    ensures Min(at, |input|) <= Deliverable(Frame(cfg, input, at, pending).stop, input) <= |input|
    ensures Frame(cfg, input, at, pending).stop.Trailer? ==>
      at + BLOCK <= Frame(cfg, input, at, pending).stop.at <= |input|
    decreases |input| - at
  {
    if at + BLOCK <= |input| {
      match Inspect(cfg, input[at..at + BLOCK], pending)
      case Zero =>
      case Reject(_) =>
      case Framed(kind, raw, size) =>
        AfterBounds(cfg, input, Record(at, kind, raw, size), if Extension(kind) then pending else None);
    }
  }

  lemma {:induction false} AfterBounds(cfg: Config, input: Bytes, r: Record, pending: Option<u64>)
    requires r.Data() <= |input| && (r.kind == PAX ==> r.size == r.raw)
    ensures var stop := After(cfg, input, r, pending).stop;
      Min(r.End(), |input|) <= Deliverable(stop, input) <= |input|
      && (stop.Trailer? ==> r.End() + BLOCK <= stop.at <= |input|)
    decreases |input| - r.offset - 1
  {
    if r.kind != PAX {
      StopBounds(cfg, input, r.End(), pending);
    } else if r.End() <= |input| {
      match cfg.pax(input[r.Data()..r.Data() + r.raw])
      case Err(_) =>
      case Ok(size) => StopBounds(cfg, input, r.End(), size);
    }
  }

  /** A fault before the end of the header block at `at` is the rejection of that block. */
  lemma FaultAtHeader(cfg: Config, input: Bytes, at: nat, pending: Option<u64>)
    requires var stop := Frame(cfg, input, at, pending).stop; stop.Fault? && stop.at < at + BLOCK
    ensures var stop := Frame(cfg, input, at, pending).stop;
      at + BLOCK <= |input| && stop.at == at && Inspect(cfg, input[at..at + BLOCK], pending) == Reject(stop.error)
  {
    match Inspect(cfg, input[at..at + BLOCK], pending)
    case Zero =>
    case Reject(_) =>
    case Framed(kind, raw, size) =>
      AfterBounds(cfg, input, Record(at, kind, raw, size), if Extension(kind) then pending else None);
  }

  /** When less than a header block gets through at `at` and nothing is wrong, the input is that short. */
  lemma CutAtHeader(cfg: Config, input: Bytes, at: nat, pending: Option<u64>)
    requires var stop := Frame(cfg, input, at, pending).stop;
      !stop.Fault? && Deliverable(stop, input) < at + BLOCK
    ensures |input| < at + BLOCK
    ensures Deliverable(Frame(cfg, input, at, pending).stop, input) == Min(at, |input|)
  {
    if at + BLOCK <= |input| {
      match Inspect(cfg, input[at..at + BLOCK], pending)
      case Zero =>
      case Reject(_) =>
      case Framed(kind, raw, size) =>
        AfterBounds(cfg, input, Record(at, kind, raw, size), if Extension(kind) then pending else None);
    }
  }

  /** A header block that gets through was not rejected. */
  lemma HeaderThrough(cfg: Config, input: Bytes, at: nat, pending: Option<u64>)
    requires at + BLOCK <= Deliverable(Frame(cfg, input, at, pending).stop, input)
    ensures at + BLOCK <= |input| && !Inspect(cfg, input[at..at + BLOCK], pending).Reject?
  {
    StopBounds(cfg, input, at, pending);
  }

  lemma {:induction false} OffsetsFrom(cfg: Config, input: Bytes, at: nat, pending: Option<u64>)
    ensures forall r :: r in Frame(cfg, input, at, pending).records ==> at <= r.offset
    decreases |input| - at
  {
    if at + BLOCK <= |input| {
      match Inspect(cfg, input[at..at + BLOCK], pending)
      case Zero =>
      case Reject(_) =>
      case Framed(kind, raw, size) =>
        OffsetsAfter(cfg, input, Record(at, kind, raw, size), if Extension(kind) then pending else None);
    }
  }

  lemma {:induction false} OffsetsAfter(cfg: Config, input: Bytes, r: Record, pending: Option<u64>)
    requires r.Data() <= |input| && (r.kind == PAX ==> r.size == r.raw)
    ensures forall s :: s in After(cfg, input, r, pending).records ==> r.End() <= s.offset
    decreases |input| - r.offset - 1
  {
    if r.kind != PAX {
      OffsetsFrom(cfg, input, r.End(), pending);
    } else if r.End() <= |input| {
      match cfg.pax(input[r.Data()..r.Data() + r.raw])
      case Err(_) =>
      case Ok(size) => OffsetsFrom(cfg, input, r.End(), size);
    }
  }

  // ----- Override alignment -----

  /** The last `size` in a PAX record's body, when the body is all there and can be read. */
  function SizeIn(cfg: Config, input: Bytes, r: Record): Option<u64> {
    if r.Data() + r.raw > |input| then None
    else
      match cfg.pax(input[r.Data()..r.Data() + r.raw])
      case Err(_) => None
      case Ok(size) => size
  }

  predicate Inside(input: Bytes, rs: seq<Record>) {
    forall i :: 0 <= i < |rs| && rs[i].kind == PAX ==> rs[i].Data() + rs[i].raw <= |input|
  }

  /**
   The override in force before record `k`, looking back over the records alone:
   long-name and long-link records are transparent, a PAX record decides, and an
   ordinary record leaves none.
   */
  function InForce(cfg: Config, input: Bytes, rs: seq<Record>, k: nat, before: Option<u64>): Option<u64>
    requires k <= |rs|
  {
    if k == 0 then before
    else
      var r := rs[k - 1];
      if r.kind == PAX then SizeIn(cfg, input, r)
      else if Extension(r.kind) then InForce(cfg, input, rs, k - 1, before)
      else None
  }

  /** Only the records looked back over matter. */
  lemma {:induction false} InForceOfFront(
    cfg: Config, input: Bytes, rs: seq<Record>, r: Record, k: nat, before: Option<u64>)
    requires k <= |rs|
    ensures InForce(cfg, input, rs + [r], k, before) == InForce(cfg, input, rs, k, before)
  {
    if k > 0 {
      InForceOfFront(cfg, input, rs, r, k - 1, before);
    }
  }

  /** What one more record does to the override in force. */
  lemma InForceStep(cfg: Config, input: Bytes, rs: seq<Record>, r: Record, before: Option<u64>)
    ensures InForce(cfg, input, rs + [r], |rs|, before) == InForce(cfg, input, rs, |rs|, before)
    ensures InForce(cfg, input, rs + [r], |rs| + 1, before) ==
      if r.kind == PAX then SizeIn(cfg, input, r)
      else if Extension(r.kind) then InForce(cfg, input, rs, |rs|, before)
      else None
  {
    InForceOfFront(cfg, input, rs, r, |rs|, before);
  }

  lemma {:induction false} InForceTail(cfg: Config, input: Bytes, rs: seq<Record>, k: nat, before: Option<u64>)
    requires 1 <= k <= |rs|
    ensures InForce(cfg, input, rs, k, before)
      == InForce(cfg, input, rs[1..], k - 1, InForce(cfg, input, rs, 1, before))
  {
    if k > 1 {
      InForceTail(cfg, input, rs, k - 1, before);
      assert rs[1..][k - 2] == rs[k - 1];
    }
  }

  /**
   The override an error at offset `at` leaves behind the records `rs`: behind a PAX record
   with a bad body, the one in force before that record; behind a rejected header, the
   one in force there, as that inspection leaves it.
   */
  ghost predicate LeavesBehind(
    cfg: Config, input: Bytes, rs: seq<Record>, at: nat, e: IoError, left: Option<u64>)
  {
    || (&& rs != []
        && var r := rs[|rs| - 1];
        && r.kind == PAX && r.End() == at && r.Data() + r.raw <= |input|
        && cfg.pax(input[r.Data()..r.Data() + r.raw]) == Err(e)
        && left == InForce(cfg, input, rs, |rs| - 1, None))
    || (&& at + BLOCK <= |input|
        && var block, pending := input[at..at + BLOCK], InForce(cfg, input, rs, |rs|, None);
        && Inspect(cfg, block, pending) == Reject(e) && left == Leftover(cfg, block, pending))
  }

  /** Record `k` of a framing: contiguous with its predecessor and true to its header block. */
  ghost predicate TrueTo(cfg: Config, input: Bytes, rs: seq<Record>, k: nat, at: nat, before: Option<u64>)
    requires k < |rs|
  {
    var r := rs[k];
    && r.offset == (if k == 0 then at else rs[k - 1].End())
    && r.Data() <= |input|
    && !AllZero(input[r.offset..r.Data()])
    && Allowed(r.kind) && r.kind == input[r.offset + KIND_OFFSET]
    && cfg.size(input[r.offset..r.Data()]) == Some(r.raw)
    && Inside(input, rs[..k])
    && r.size == if Extension(r.kind) then r.raw else InForce(cfg, input, rs, k, before).GetOr(r.raw)
  }

  /** A record true to the tail of a list, under the override the head leaves, is true to the list. */
  lemma TrueToTail(
    cfg: Config, input: Bytes, r: Record, tail: seq<Record>, k: nat, at: nat, before: Option<u64>, carried: Option<u64>)
    requires 0 < k <= |tail| && TrueTo(cfg, input, tail, k - 1, r.End(), carried) && r.offset == at
    requires r.kind == PAX ==> r.Data() + r.raw <= |input|
    requires carried == (if r.kind == PAX then SizeIn(cfg, input, r) else if Extension(r.kind) then before else None)
    ensures TrueTo(cfg, input, [r] + tail, k, at, before)
  {
    var rs := [r] + tail;
    assert rs[1..] == tail && rs[k] == tail[k - 1];
    assert k > 1 ==> rs[k - 1] == tail[k - 2];
    assert Inside(input, rs[..k]) by {
      forall i | 0 <= i < k && rs[..k][i].kind == PAX
        ensures rs[..k][i].Data() + rs[..k][i].raw <= |input|
      {
        if i > 0 { assert rs[..k][i] == tail[..k - 1][i - 1]; }
      }
    }
    InForceTail(cfg, input, rs, k, before);
    assert InForce(cfg, input, rs, 1, before) == carried by {
      if r.kind != PAX && Extension(r.kind) { assert InForce(cfg, input, rs, 0, before) == before; }
    }
  }

  /**
   Override alignment: in every framed stream, the length skipped after an ordinary
   header is the last `size` of the most recent completed PAX record since the
   previous ordinary header, and otherwise the header's own size. Long-name and
   long-link records never consume an override, a later PAX record without `size`
   clears it, and it is used at most once. Records are contiguous from `at`.
   */
  lemma {:induction false} Overrides(cfg: Config, input: Bytes, at: nat, pending: Option<u64>, k: nat)
    requires k < |Frame(cfg, input, at, pending).records|
    ensures TrueTo(cfg, input, Frame(cfg, input, at, pending).records, k, at, pending)
    decreases k
  {
    var rs := Frame(cfg, input, at, pending).records;
    var r := rs[0];
    assert input[at..at + BLOCK][KIND_OFFSET] == input[at + KIND_OFFSET];
    if k == 0 {
      assert rs[..0] == [];
    } else {
      var left := if Extension(r.kind) then pending else None;
      var carried := if r.kind == PAX then SizeIn(cfg, input, r) else left;
      var tail := Frame(cfg, input, r.End(), carried).records;
      assert rs == [r] + tail by { assert After(cfg, input, r, left).records == tail; }
      hide Frame, After, Inspect;
      Overrides(cfg, input, r.End(), carried, k - 1);
      TrueToTail(cfg, input, r, tail, k, at, pending, carried);
    }
  }

  // ----- Framing decisions depend only on bytes already seen -----

  predicate Extends(short: Framing, long: Framing) {
    && short.records <= long.records
    && (!short.stop.Cut? ==> long == short)
  }

  /** Every decision made on a prefix of the input stands when more input arrives. */
  lemma {:induction false} FramePrefix(cfg: Config, part: Bytes, whole: Bytes, at: nat, pending: Option<u64>)
    requires part <= whole
    ensures Extends(Frame(cfg, part, at, pending), Frame(cfg, whole, at, pending))
    decreases |part| - at
  {
    if at + BLOCK <= |part| {
      assert part[at..at + BLOCK] == whole[at..at + BLOCK];
      match Inspect(cfg, part[at..at + BLOCK], pending)
      case Zero =>
      case Reject(_) =>
      case Framed(kind, raw, size) =>
        var r := Record(at, kind, raw, size);
        AfterPrefix(cfg, part, whole, r, if Extension(kind) then pending else None);
    }
  }

  lemma {:induction false} AfterPrefix(cfg: Config, part: Bytes, whole: Bytes, r: Record, pending: Option<u64>)
    requires part <= whole
    requires r.Data() <= |part| && (r.kind == PAX ==> r.size == r.raw)
    ensures Extends(After(cfg, part, r, pending), After(cfg, whole, r, pending))
    decreases |part| - r.offset - 1
  {
    if r.kind != PAX {
      FramePrefix(cfg, part, whole, r.End(), pending);
    } else if r.End() <= |part| {
      assert part[r.Data()..r.Data() + r.raw] == whole[r.Data()..r.Data() + r.raw];
      match cfg.pax(part[r.Data()..r.Data() + r.raw])
      case Err(_) =>
      case Ok(size) => FramePrefix(cfg, part, whole, r.End(), size);
    }
  }

  // ----- Framing in plain numbers -----

  /**
   What becomes of the 512 bytes at `at`, in bytes and numbers. A zero block ends the
   framing. Any other is refused for its type byte, for the size of an extension, or because
   its size cannot be read or rounded up; and if none of these apply, it is framed.
   */
  lemma HeaderInNumbers(cfg: Config, input: Bytes, at: nat, pending: Option<u64>)
    requires at + 512 <= |input|
    ensures var f, kind, raw := Frame(cfg, input, at, pending), input[at + 156], cfg.size(input[at..at + 512]);
      var zero := forall i :: at <= i < at + 512 ==> input[i] == 0;
      var known := kind in {0, 48, 49, 50, 53, 55, 120, 76, 75};
      var extra := kind in {120, 76, 75};
      var size := if raw.None? then 0 else if extra || pending.None? then raw.value else pending.value;
      var large := extra && raw.Some? && raw.value > cfg.maxMetadata;
      var unusable := known && !large && (raw.None? || size + 511 >= 0x1_0000_0000_0000_0000);
      && (f == Framing([], Trailer(at + 512)) <==> zero)
      && (f == Framing([], Fault(at, Wrapped(InvalidData, DisallowedEntryType))) <==> !zero && !known)
      && (f == Framing([], Fault(at, Wrapped(InvalidData, LimitExceeded("max_metadata_bytes")))) <==> !zero && large)
      && (f == Framing([], Fault(at, Wrapped(InvalidData, Malformed))) <==> !zero && unusable)
      && (!zero && known && !large && !unusable ==>
        f.records != [] && f.records[0] == Record(at, kind, raw.value, size))
  {
    var block := input[at..at + 512];
    assert block[156] == input[at + 156];
    assert AllZero(block) <==> forall i :: at <= i < at + 512 ==> input[i] == 0 by {
      if AllZero(block) {
        assert forall i :: at <= i < at + 512 ==> input[i] == block[i - at];
      } else {
        var i :| 0 <= i < 512 && block[i] != 0;
        assert input[at + i] == block[i];
      }
    }
  }

  /** Less than 512 bytes are not a header: framing is cut there, or at the end if data is missing too. */
  lemma ShortInNumbers(cfg: Config, input: Bytes, at: nat, pending: Option<u64>)
    requires |input| < at + 512
    ensures Frame(cfg, input, at, pending)
      == Framing([], Cut(if at <= |input| then at else |input|))
  {
  }

  /** What an error tells of the bytes where it is raised. */
  ghost predicate FaultTells(cfg: Config, input: Bytes, q: nat, e: IoError) {
    && e.Wrapped? && e.kind == InvalidData
    && (e.payload == Malformed || e.payload == DisallowedEntryType || e.payload == LimitExceeded("max_metadata_bytes"))
    && (e.payload == DisallowedEntryType ==>
      q + 512 <= |input| && input[q + 156] !in {0, 48, 49, 50, 53, 55, 120, 76, 75})
    && (e.payload == LimitExceeded("max_metadata_bytes") ==>
      && q + 512 <= |input| && input[q + 156] in {120, 76, 75}
      && cfg.size(input[q..q + 512]).Some? && cfg.size(input[q..q + 512]).value > cfg.maxMetadata)
  }

  lemma {:induction false} FaultTold(cfg: Config, input: Bytes, at: nat, pending: Option<u64>)
    requires ReadsPax(cfg) && Frame(cfg, input, at, pending).stop.Fault?
    ensures var stop := Frame(cfg, input, at, pending).stop; FaultTells(cfg, input, stop.at, stop.error)
    decreases |input| - at
  {
    hide Pax.Read, FaultTells, Allowed;
    match Inspect(cfg, input[at..at + BLOCK], pending)
    case Reject(_) => RejectTells(cfg, input, at, pending);
    case Framed(kind, raw, size) =>
      var r := Record(at, kind, raw, size);
      if kind != PAX {
        FaultTold(cfg, input, r.End(), if Extension(kind) then pending else None);
      } else if r.End() <= |input| {
        var body := input[r.Data()..r.Data() + raw];
        assert cfg.pax(body) == Pax.Read(body);
        match cfg.pax(body)
        case Err(_) =>
          Pax.ReadIffGrammar(body);
          MalformedTells(cfg, input, r.End());
        case Ok(next) => FaultTold(cfg, input, r.End(), next);
      }
  }

  lemma RejectTells(cfg: Config, input: Bytes, at: nat, pending: Option<u64>)
    requires at + BLOCK <= |input| && Inspect(cfg, input[at..at + BLOCK], pending).Reject?
    ensures FaultTells(cfg, input, at, Inspect(cfg, input[at..at + BLOCK], pending).error)
  {
    assert input[at..at + BLOCK][KIND_OFFSET] == input[at + 156];
  }

  lemma MalformedTells(cfg: Config, input: Bytes, q: nat)
    ensures FaultTells(cfg, input, q, MalformedIo())
  {
  }

  /**
   Which error a framing ends with, at the offset it ends. It is one of three; a refused type
   byte, or an extension above the limit, stands at that very offset.
   */
  lemma FaultInNumbers(cfg: Config, input: Bytes, at: nat, pending: Option<u64>)
    requires ReadsPax(cfg) && Frame(cfg, input, at, pending).stop.Fault?
    ensures var stop := Frame(cfg, input, at, pending).stop; var (q, e) := (stop.at, stop.error);
      && (|| e == Wrapped(InvalidData, Malformed) || e == Wrapped(InvalidData, DisallowedEntryType)
          || e == Wrapped(InvalidData, LimitExceeded("max_metadata_bytes")))
      && (e == Wrapped(InvalidData, DisallowedEntryType) ==>
        q + 512 <= |input| && input[q + 156] !in {0, 48, 49, 50, 53, 55, 120, 76, 75})
      && (e == Wrapped(InvalidData, LimitExceeded("max_metadata_bytes")) ==>
        && q + 512 <= |input| && input[q + 156] in {120, 76, 75}
        && cfg.size(input[q..q + 512]).Some? && cfg.size(input[q..q + 512]).value > cfg.maxMetadata)
  {
    FaultTold(cfg, input, at, pending);
    hide Frame;
  }

  /** When an input is cut short, what does not get through is less than a header block. */
  lemma {:induction false} CutInNumbers(cfg: Config, input: Bytes, at: nat, pending: Option<u64>)
    requires Frame(cfg, input, at, pending).stop.Cut?
    ensures var q := Frame(cfg, input, at, pending).stop.at; q <= |input| < q + 512
    decreases |input| - at
  {
    if at + BLOCK <= |input| {
      match Inspect(cfg, input[at..at + BLOCK], pending)
      case Framed(kind, raw, size) =>
        var r := Record(at, kind, raw, size);
        if kind != PAX {
          CutInNumbers(cfg, input, r.End(), if Extension(kind) then pending else None);
        } else if r.End() <= |input| {
          CutInNumbers(cfg, input, r.End(), cfg.pax(input[r.Data()..r.Data() + raw]).value);
        }
    }
  }

  /**
   Override alignment without looking back step by step. When only `L` and `K` records stand
   from `i` up to an ordinary record `k`, that one has the size which a PAX record before `i`
   sets, and its own when that record sets none, is ordinary, or is not there.
   */
  lemma OverridesInNumbers(cfg: Config, input: Bytes, i: nat, k: nat)
    requires var rs := Frame(cfg, input, 0, None).records;
      && i <= k < |rs| && rs[k].kind !in {120, 76, 75}
      && (forall j :: i <= j < k ==> rs[j].kind in {76, 75})
    ensures var rs := Frame(cfg, input, 0, None).records;
      && (i == 0 || rs[i - 1].kind !in {120, 76, 75} ==> rs[k].size == rs[k].raw)
      && (i > 0 && rs[i - 1].kind == 120 ==>
        var r := rs[i - 1];
        && r.offset + 512 + r.raw <= |input|
        && var read := cfg.pax(input[r.offset + 512..r.offset + 512 + r.raw]);
        && rs[k].size == if read.Ok? && read.value.Some? then read.value.value else rs[k].raw)
  {
    var rs := Frame(cfg, input, 0, None).records;
    Overrides(cfg, input, 0, None, k);
    Transparent(cfg, input, rs, i, k);
    if i > 0 && rs[i - 1].kind == 120 { assert rs[..k][i - 1] == rs[i - 1]; }
    hide Frame;
  }

  lemma {:induction false} Transparent(cfg: Config, input: Bytes, rs: seq<Record>, i: nat, k: nat)
    requires i <= k <= |rs| && forall j :: i <= j < k ==> rs[j].kind in {76, 75}
    ensures InForce(cfg, input, rs, k, None) == InForce(cfg, input, rs, i, None)
  {
    if i < k { Transparent(cfg, input, rs, i, k - 1); }
  }
}
