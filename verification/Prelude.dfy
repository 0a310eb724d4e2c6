/** Shared vocabulary: optional values, bytes and a few facts about sequences. */
module Prelude {

  datatype Option<+T> = None | Some(value: T)

  /** An unsigned 8-bit value. */
  type Byte = b: int | 0 <= b < 256

  const TWO_32: nat := 0x1_0000_0000
  const TWO_64: nat := 0x1_0000_0000_0000_0000

  type U32 = x: int | 0 <= x < 0x1_0000_0000
  type U64 = x: int | 0 <= x < 0x1_0000_0000_0000_0000

  function Min(a: int, b: int): int {
    if a <= b then a else b
  }

  function Repeat<T>(x: T, n: nat): (s: seq<T>)
    ensures |s| == n
    ensures forall i :: 0 <= i < n ==> s[i] == x
  {
    seq(n, i => x)
  }

  function Pow2(k: nat): (p: nat)
    ensures p > 0
  {
    if k == 0 then 1 else 2 * Pow2(k - 1)
  }

  /** The next multiple of 64: records and segment entries are padded to it. */
  function RoundUp64(n: nat): (r: nat)
    ensures n <= r < n + 64 && r % 64 == 0
  {
    (n + 63) / 64 * 64
  }

  /** The first n naturals, of which there are n. */
  function Below(n: nat): (r: set<nat>)
    ensures forall i: nat :: i in r <==> i < n
    ensures |r| == n
  {
    if n == 0 then {} else Below(n - 1) + {n - 1}
  }
}
