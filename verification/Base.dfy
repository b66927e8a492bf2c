/** Bytes, machine integers and the small vocabulary every other module shares. */
module Base {
  type byte = b: int | 0 <= b < 256
  type Bytes = seq<byte>

  const U64_MAX: int := 0xFFFF_FFFF_FFFF_FFFF
  const U32_MAX: int := 0xFFFF_FFFF
  type u64 = n: int | 0 <= n <= U64_MAX
  type u32 = n: int | 0 <= n <= U32_MAX

  datatype Option<+T> = None | Some(value: T)
  {
    function GetOr(default: T): T {
      if Some? then value else default
    }
  }

  datatype Result<+T, +E> = Ok(value: T) | Err(error: E)

  const BLOCK := 512

  predicate AllZero(s: Bytes) {
    forall i :: 0 <= i < |s| ==> s[i] == 0
  }

  function Zeros(n: nat): (s: Bytes)
    ensures |s| == n && AllZero(s)
  {
    seq(n, i => 0)
  }

  function Min(a: int, b: int): int {
    if a <= b then a else b
  }

  /** The least multiple of the block size that is at least `n`. */
  function RoundUp(n: nat): (r: nat)
    ensures n <= r < n + BLOCK && r % BLOCK == 0
  {
    (n + 511) / 512 * 512
  }

  /** `u64::saturating_mul`. */
  function SatMul(a: nat, b: nat): nat {
    Min(a * b, U64_MAX)
  }

  /** `u64::saturating_add`. */
  function SatAdd(a: nat, b: nat): nat {
    Min(a + b, U64_MAX)
  }

  /** Two adjacent slices make one. */
  lemma Join<T>(s: seq<T>, a: nat, b: nat, c: nat)
    requires a <= b <= c <= |s|
    ensures s[a..b] + s[b..c] == s[a..c]
  {
  }

  lemma SliceOfSlice<T>(s: seq<T>, a: nat, b: nat, i: nat, j: nat)
    requires a <= b <= |s| && i <= j <= b - a
    ensures s[a..b][i..j] == s[a + i..a + j]
  {
    forall k | 0 <= k < j - i
      ensures s[a..b][i..j][k] == s[a + i..a + j][k]
    {
      assert s[a..b][i + k] == s[a + i + k];
    }
  }

  lemma JoinZeros(s: Bytes, a: nat, b: nat, c: nat)
    requires a <= b <= c <= |s|
    ensures AllZero(s[a..c]) <==> AllZero(s[a..b]) && AllZero(s[b..c])
  {
    assert forall i :: 0 <= i < b - a ==> s[a..b][i] == s[a..c][i];
    assert forall i :: 0 <= i < c - b ==> s[b..c][i] == s[a..c][b - a + i];
    assert forall i :: b - a <= i < c - a ==> s[a..c][i] == s[b..c][i - (b - a)];
  }
}
