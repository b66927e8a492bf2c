/** Checked decimal parsing, as the PAX reader does it. */
module Decimal {
  import opened Base

  predicate IsDigit(b: byte) {
    48 <= b <= 57
  }

  predicate AllDigits(s: Bytes) {
    forall i :: 0 <= i < |s| ==> IsDigit(s[i])
  }

  /** One step of the fold: `None` on a non-digit or when the checked arithmetic overflows. */
  function Step(value: u64, b: byte): Option<u64> {
    if !IsDigit(b) then None
    else if value * 10 > U64_MAX then None
    else if value * 10 + (b - 48) > U64_MAX then None
    else Some(value * 10 + (b - 48))
  }

  /** `try_fold` from the left, stopping at the first `None`. */
  function Fold(s: Bytes, value: u64): Option<u64> {
    if s == [] then Some(value)
    else
      match Step(value, s[0])
      case None => None
      case Some(next) => Fold(s[1..], next)
  }

  function Parse(s: Bytes): Option<u64> {
    if s == [] then None else Fold(s, 0)
  }

  /** The number a digit string denotes, by place value from the right. */
  function Value(s: Bytes): nat
    requires AllDigits(s)
  {
    if s == [] then 0 else Value(s[..|s| - 1]) * 10 + (s[|s| - 1] - 48)
  }

  /** The canonical decimal numeral of `n`. */
  function Print(n: nat): (s: Bytes)
    ensures s != [] && AllDigits(s)
  {
    if n < 10 then [48 + n] else Print(n / 10) + [48 + n % 10]
  }

  lemma {:induction false} FoldSnoc(s: Bytes, b: byte, value: u64)
    ensures Fold(s + [b], value)
         == (match Fold(s, value) case None => None case Some(v) => Step(v, b))
  {
    if s == [] {
      assert (s + [b])[1..] == [];
    } else {
      assert (s + [b])[1..] == s[1..] + [b];
      match Step(value, s[0])
      case None =>
      case Some(next) => FoldSnoc(s[1..], b, next);
    }
  }

  /** The fold succeeds exactly on digit strings whose whole value fits. */
  lemma {:induction false} FoldIsValue(s: Bytes)
    ensures Fold(s, 0) == if AllDigits(s) && Value(s) <= U64_MAX then Some(Value(s)) else None
  {
    if s != [] {
      var front, last := s[..|s| - 1], s[|s| - 1];
      assert s == front + [last];
      FoldIsValue(front);
      FoldSnoc(front, last, 0);
      assert AllDigits(s) <==> AllDigits(front) && IsDigit(last);
    }
  }

  /**
   `decimal` returns the mathematical value exactly when the bytes are a non-empty
   digit string whose value fits in 64 bits: an overflow partway through implies
   that the whole numeral overflows, and leading zeros are harmless.
   */
  lemma ParseIsValue(s: Bytes)
    ensures Parse(s) == if s != [] && AllDigits(s) && Value(s) <= U64_MAX then Some(Value(s)) else None
  {
    FoldIsValue(s);
  }

  lemma {:induction false} ValueOfPrint(n: nat)
    ensures Value(Print(n)) == n
  {
    if n >= 10 {
      ValueOfPrint(n / 10);
      var s := Print(n);
      assert s[..|s| - 1] == Print(n / 10);
    } else {
      assert Print(n)[..0] == [];
    }
  }

  /** Printing any 64-bit number and parsing it back is the identity. */
  lemma PrintParse(n: u64)
    ensures Parse(Print(n)) == Some(n)
  {
    ValueOfPrint(n);
    ParseIsValue(Print(n));
  }

  /** Leading zeros never change the verdict or the value. */
  lemma {:induction false} LeadingZeros(k: nat, s: Bytes)
    requires s != []
    ensures Parse(seq(k, i => 48) + s) == Parse(s)
  {
    var zeros: Bytes := seq(k, i => 48);
    if k == 0 {
      assert zeros + s == s;
    } else {
      var fewer: Bytes := seq(k - 1, i => 48);
      assert (zeros + s)[1..] == fewer + s;
      LeadingZeros(k - 1, s);
    }
  }
}
