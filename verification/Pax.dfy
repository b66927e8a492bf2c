/**
 The PAX extended-header record parser.

 A record is `<length> <content>\n`, where the decimal length counts the whole
 record, itself included ("pax Extended Header" of the pax utility, IEEE Std
 1003.1-2017). Only the `size` keyword matters to the guard.
 */
module Pax {
  import opened Base
  import opened Errors
  import Decimal

  const SPACE: byte := 32
  const NEWLINE: byte := 10
  const SIZE_KEY: Bytes := [115, 105, 122, 101, 61]

  type Outcome = Result<Option<u64>, IoError>

  /** The index of the first occurrence of `b`. */
  function Position(s: Bytes, b: byte): (p: Option<nat>)
    ensures p.None? <==> b !in s
    ensures p.Some? ==> p.value < |s| && s[p.value] == b && b !in s[..p.value]
  {
    if s == [] then None
    else if s[0] == b then Some(0)
    else
      match Position(s[1..], b)
      case None => None
      case Some(i) =>
        assert s[..i + 1] == [s[0]] + s[1..][..i];
        Some(i + 1)
  }

  /** What one record at the head of `body` means: its length and the size it sets, if any. */
  datatype Head = Bad | Head(length: nat, size: Option<u64>)

  /** A record of stated length, whose content and final newline are `text`. */
  function HeadOf(length: nat, text: Bytes): (h: Head)
    requires text != []
    ensures h.Head? ==> h.length == length
  {
    if text[|text| - 1] != NEWLINE then Bad
    else if SIZE_KEY <= text then
      match Decimal.Parse(text[5..|text| - 1])
      case None => Bad
      case Some(size) => Head(length, Some(size))
    else Head(length, None)
  }

  function ReadHead(body: Bytes): (h: Head)
    ensures h.Head? ==> 3 <= h.length <= |body|
  {
    match Position(body, SPACE)
    case None => Bad
    case Some(space) =>
      match Decimal.Parse(body[..space])
      case None => Bad
      case Some(length) =>
        if length <= space + 2 || length > |body| then Bad else HeadOf(length, body[space + 1..length])
  }

  /** The recursive reading of the record loop, carrying the last size seen. */
  function ReadFrom(body: Bytes, size: Option<u64>): Outcome
    decreases |body|
  {
    if body == [] then Ok(size)
    else
      match ReadHead(body)
      case Bad => Err(MalformedIo())
      case Head(length, found) => ReadFrom(body[length..], if found.Some? then found else size)
  }

  function Read(body: Bytes): Outcome {
    ReadFrom(body, None)
  }

  /** One record off the front of the reading. */
  lemma ReadStep(body: Bytes, size: Option<u64>)
    requires body != []
    ensures var h := ReadHead(body);
      ReadFrom(body, size)
        == if h.Bad? then Err(MalformedIo()) else ReadFrom(body[h.length..], if h.size.Some? then h.size else size)
  {
    hide ReadHead;
  }

  /** `parse_pax_size`: the loop over `body` and `size`. Every turn drops at least three bytes. */
  method ParsePaxSize(input: Bytes) returns (r: Outcome)
    ensures r == Read(input)
  {
    hide Position, Decimal.Parse, ReadFrom;
    var body, size: Option<u64> := input, None;
    assert ReadFrom(body, size) == Read(input);
    hide Read;
    while body != []
      invariant ReadFrom(body, size) == Read(input)
      decreases |body|
    {
      ghost var head := ReadHead(body);
      ReadStep(body, size);
      var position := Position(body, SPACE);
      if position.None? { assert head == Bad; return Err(MalformedIo()); }
      var space := position.value;
      var parsed := Decimal.Parse(body[..space]);
      if parsed.None? { assert head == Bad; return Err(MalformedIo()); }
      var length := parsed.value;
      if length <= space + 2 || length > |body| { assert head == Bad; return Err(MalformedIo()); }
      var record := body[space + 1..length];
      assert head == HeadOf(length, record);
      hide ReadHead;
      if record[|record| - 1] != NEWLINE { return Err(MalformedIo()); }
      if SIZE_KEY <= record {
        var value := record[5..];
        assert value[..|value| - 1] == record[5..|record| - 1];
        var found := Decimal.Parse(value[..|value| - 1]);
        if found.None? { return Err(MalformedIo()); }
        size := found;
      }
      body := body[length..];
    }
    ReadNothing(size);
    return Ok(size);
  }

  lemma ReadNothing(size: Option<u64>)
    ensures ReadFrom([], size) == Ok(size)
  {
  }

  // ----- The grammar, stated without a parser -----

  /** One record as a producer prints it: a length numeral, a space, the content, a newline. */
  datatype Record = Record(numeral: Bytes, content: Bytes)

  function Text(r: Record): Bytes {
    r.numeral + [SPACE] + r.content + [NEWLINE]
  }

  predicate SetsSize(r: Record) {
    SIZE_KEY <= r.content
  }

  /** The numeral states the record's own length, and a `size` value is a 64-bit decimal. */
  predicate Good(r: Record) {
    && r.numeral != [] && Decimal.AllDigits(r.numeral)
    && Decimal.Value(r.numeral) == |Text(r)| <= U64_MAX
    && r.content != []
    && (SetsSize(r) ==> Decimal.Parse(r.content[5..]).Some?)
  }

  predicate AllGood(rs: seq<Record>) {
    forall i :: 0 <= i < |rs| ==> Good(rs[i])
  }

  function Print(rs: seq<Record>): Bytes {
    if rs == [] then [] else Text(rs[0]) + Print(rs[1..])
  }

  /** The value of the last record that sets `size`, or `before` when none does. */
  function LastSize(rs: seq<Record>, before: Option<u64>): Option<u64>
    requires AllGood(rs)
  {
    if rs == [] then before
    else if SetsSize(rs[|rs| - 1]) then Decimal.Parse(rs[|rs| - 1].content[5..])
    else LastSize(rs[..|rs| - 1], before)
  }

  lemma {:induction false} LastSizeCons(r: Record, rs: seq<Record>, before: Option<u64>)
    requires Good(r) && AllGood(rs)
    ensures AllGood([r] + rs)
    ensures LastSize([r] + rs, before)
         == LastSize(rs, if SetsSize(r) then Decimal.Parse(r.content[5..]) else before)
    decreases |rs|
  {
    var all := [r] + rs;
    if rs == [] {
      assert all == [r] && all[..0] == [];
    } else {
      var last := |rs| - 1;
      assert all[|all| - 1] == rs[last];
      assert all[..|all| - 1] == [r] + rs[..last];
      LastSizeCons(r, rs[..last], before);
    }
  }

  lemma {:induction false} PositionAt(s: Bytes, b: byte, n: nat)
    requires n < |s| && s[n] == b && b !in s[..n]
    ensures Position(s, b) == Some(n)
  {
    if n > 0 {
      assert s[0] in s[..n];
      assert s[1..][..n - 1] == s[..n][1..];
      PositionAt(s[1..], b, n - 1);
    }
  }

  /** The key has no newline in it, so the trailing newline never completes it. */
  lemma KeyInContent(content: Bytes)
    ensures SIZE_KEY <= content + [NEWLINE] <==> SIZE_KEY <= content
    ensures SIZE_KEY <= content ==> (content + [NEWLINE])[5..|content|] == content[5..]
  {
    var record := content + [NEWLINE];
    assert SIZE_KEY <= record ==> record[|content|] == NEWLINE && forall i :: 0 <= i < 5 ==> record[i] == SIZE_KEY[i];
    assert SIZE_KEY <= content ==> forall i :: 0 <= i < 5 ==> content[i] == SIZE_KEY[i];
  }

  /** A good record at the head of the input is read back whole, whatever follows it. */
  lemma HeadOfText(r: Record, rest: Bytes)
    requires Good(r)
    ensures ReadHead(Text(r) + rest)
         == Head(|Text(r)|, if SetsSize(r) then Decimal.Parse(r.content[5..]) else None)
  {
    var body := Text(r) + rest;
    var n := |r.numeral|;
    assert body[..n] == r.numeral && body[n] == SPACE;
    PositionAt(body, SPACE, n);
    Decimal.ParseIsValue(r.numeral);
    var record := body[n + 1..|Text(r)|];
    assert record == r.content + [NEWLINE];
    KeyInContent(r.content);
    assert SetsSize(r) ==> record[5..|record| - 1] == r.content[5..];
  }

  /** The pieces of a record the parser takes off the head. */
  lemma HeadParts(body: Bytes) returns (numeral: Bytes, record: Bytes)
    requires ReadHead(body).Head?
    ensures var length := ReadHead(body).length;
      && numeral != [] && Decimal.Parse(numeral) == Some(length) && |record| >= 2
      && ReadHead(body) == HeadOf(length, record) && body[..length] == numeral + [SPACE] + record
  {
    hide Decimal.Parse, Position, HeadOf;
    var space, length := Position(body, SPACE).value, ReadHead(body).length;
    numeral, record := body[..space], body[space + 1..length];
    Decimal.ParseIsValue(numeral);
    hide ReadHead;
    assert body[..length] == numeral + [SPACE] + record;
  }

  /** Whatever the parser takes off the head is the text of a good record. */
  lemma TextOfHead(body: Bytes) returns (r: Record)
    requires ReadHead(body).Head?
    ensures Good(r) && Text(r) == body[..ReadHead(body).length]
    ensures ReadHead(body).size == if SetsSize(r) then Decimal.Parse(r.content[5..]) else None
  {
    hide Decimal.Parse, ReadHead;
    var numeral, record := HeadParts(body);
    Decimal.ParseIsValue(numeral);
    var content := record[..|record| - 1];
    r := Record(numeral, content);
    assert record == content + [NEWLINE];
    assert Text(r) == numeral + [SPACE] + record;
    KeyInContent(content);
    hide Text;
  }

  lemma {:induction false} ReadPrintFrom(rs: seq<Record>, before: Option<u64>)
    requires AllGood(rs)
    ensures ReadFrom(Print(rs), before) == Ok(LastSize(rs, before))
    decreases |rs|
  {
    if rs != [] {
      var r, rest := rs[0], rs[1..];
      assert rs == [r] + rest;
      HeadOfText(r, Print(rest));
      assert Print(rs)[|Text(r)|..] == Print(rest);
      LastSizeCons(r, rest, before);
      ReadPrintFrom(rest, if SetsSize(r) then Decimal.Parse(r.content[5..]) else before);
    }
  }

  lemma {:induction false} Recover(body: Bytes, before: Option<u64>) returns (rs: seq<Record>)
    requires ReadFrom(body, before).Ok?
    ensures AllGood(rs) && Print(rs) == body
    decreases |body|
  {
    rs := [];
    if body == [] { return; }
    hide ReadHead, ReadFrom, Good, AllGood, Text, Print, SetsSize, Decimal.Parse;
    ReadStep(body, before);
    var h := ReadHead(body);
    var head, tail := body[..h.length], body[h.length..];
    assert body == head + tail;
    var r := TextOfHead(body);
    rs := Recover(tail, if h.size.Some? then h.size else before);
    rs := PrintCons(r, rs, tail);
  }

  lemma PrintCons(r: Record, rest: seq<Record>, tail: Bytes) returns (rs: seq<Record>)
    requires Good(r) && AllGood(rest) && Print(rest) == tail
    ensures AllGood(rs) && Print(rs) == Text(r) + tail
  {
    rs := [r] + rest;
    assert rs[1..] == rest;
  }

  /**
   Parsing the print of any good record list gives back its last size: values may
   hold spaces and newlines, and a numeral may use any self-consistent length.
   */
  lemma ReadPrint(rs: seq<Record>)
    requires AllGood(rs)
    ensures Read(Print(rs)) == Ok(LastSize(rs, None))
  {
    ReadPrintFrom(rs, None);
  }

  /**
   A body is accepted exactly when it is the print of a good record list, and then
   the result is the last size of that list.
   */
  lemma ReadIffGrammar(body: Bytes)
    ensures Read(body).Ok? <==> exists rs :: AllGood(rs) && Print(rs) == body
    ensures forall rs :: AllGood(rs) && Print(rs) == body ==> Read(body) == Ok(LastSize(rs, None))
    ensures Read(body).Err? ==> Read(body).error == MalformedIo()
  {
    if Read(body).Ok? {
      var rs := Recover(body, None);
    }
    forall rs | AllGood(rs) && Print(rs) == body
      ensures Read(body) == Ok(LastSize(rs, None))
    {
      ReadPrint(rs);
    }
    ErrorIsMalformed(body, None);
  }

  lemma {:induction false} ErrorIsMalformed(body: Bytes, size: Option<u64>)
    ensures ReadFrom(body, size).Err? ==> ReadFrom(body, size).error == MalformedIo()
    decreases |body|
  {
    if body != [] {
      match ReadHead(body)
      case Bad =>
      case Head(length, found) => ErrorIsMalformed(body[length..], if found.Some? then found else size);
    }
  }

  lemma ReadOne(r: Record)
    requires Good(r)
    ensures Read(Text(r)) == Ok(if SetsSize(r) then Decimal.Parse(r.content[5..]) else None)
  {
    assert Text(r) + [] == Text(r);
    LastSizeCons(r, [], None);
    ReadPrint([r]);
    assert Print([r]) == Text(r) by { assert [r][1..] == []; }
  }

  /** A size record is read back under any numeral that states its length. */
  lemma OneSize(numeral: Bytes, digits: Bytes)
    requires Good(Record(numeral, SIZE_KEY + digits))
    ensures Read(Text(Record(numeral, SIZE_KEY + digits))) == Ok(Decimal.Parse(digits))
  {
    assert (SIZE_KEY + digits)[5..] == digits;
    ReadOne(Record(numeral, SIZE_KEY + digits));
  }

  function Pow10(k: nat): nat {
    if k == 0 then 1 else 10 * Pow10(k - 1)
  }

  lemma {:induction false} PrintLength(n: nat, k: nat)
    requires 0 < k && (if k == 1 then n < 10 else Pow10(k - 1) <= n < Pow10(k))
    ensures |Decimal.Print(n)| == k
  {
    if k > 1 {
      assert Pow10(k) == 10 * Pow10(k - 1) && Pow10(k - 1) == 10 * Pow10(k - 2);
      PowersPositive(k - 2);
      PrintLength(n / 10, k - 1);
    }
  }

  lemma {:induction false} PowersPositive(k: nat)
    ensures 0 < Pow10(k)
  {
    if k > 0 { PowersPositive(k - 1); }
  }

  /** The record that sets the largest size there is, 29 bytes long. */
  function LargestSize(): Record {
    Record([50, 57], SIZE_KEY + Decimal.Print(U64_MAX))
  }

  lemma LargestSizeIsRead()
    ensures |Text(LargestSize())| == 29 && Read(Text(LargestSize())) == Ok(Some(U64_MAX))
  {
    assert Pow10(5) == 100000 && Pow10(10) == 100000 * Pow10(5) && Pow10(15) == 100000 * Pow10(10);
    assert Pow10(19) == 10000 * Pow10(15);
    PrintLength(U64_MAX, 20);
    assert Decimal.Print(29) == Decimal.Print(2) + [57] == [50, 57];
    Decimal.ValueOfPrint(29);
    Decimal.PrintParse(U64_MAX);
    assert LargestSize().content[5..] == Decimal.Print(U64_MAX);
    OneSize([50, 57], Decimal.Print(U64_MAX));
  }

  /** Both self-consistent spellings of the record `size=5` are read: `9 size=5` and `10 size=5`. */
  lemma BothLengths()
    ensures Read(Text(Record([57], SIZE_KEY + [53]))) == Ok(Some(5))
    ensures Read(Text(Record([49, 48], SIZE_KEY + [53]))) == Ok(Some(5))
  {
    assert Decimal.Print(5) == [53] && Decimal.Print(9) == [57];
    assert Decimal.Print(10) == Decimal.Print(1) + [48] == [49, 48];
    Decimal.PrintParse(5);
    Decimal.ValueOfPrint(9);
    Decimal.ValueOfPrint(10);
    assert (SIZE_KEY + [53])[5..] == [53];
    OneSize([57], [53]);
    OneSize([49, 48], [53]);
  }
}
