/** Little-endian integers in byte sequences, as memcpy of fixed-width fields lays them out. */
module Bytes {
  import opened Prelude

  function Pow256(w: nat): (p: nat)
    ensures p > 0
  {
    if w == 0 then 1 else 256 * Pow256(w - 1)
  }

  function LE(n: nat, w: nat): (b: seq<Byte>)
    ensures |b| == w
    decreases w
  {
    if w == 0 then [] else [n % 256] + LE(n / 256, w - 1)
  }

  function FromLE(b: seq<Byte>): (n: nat)
    ensures n < Pow256(|b|)
  {
    if |b| == 0 then 0 else b[0] + 256 * FromLE(b[1..])
  }

  lemma {:induction false} LERoundTrip(n: nat, w: nat)
    requires n < Pow256(w)
    ensures FromLE(LE(n, w)) == n
    decreases w
  {
    if w > 0 {
      LERoundTrip(n / 256, w - 1);
      assert LE(n, w)[1..] == LE(n / 256, w - 1);
    }
  }

  lemma Widths()
    ensures Pow256(4) == TWO_32 && Pow256(8) == TWO_64
  {
    assert Pow256(2) == 0x1_0000;
    assert Pow256(3) == 0x100_0000;
    assert Pow256(4) == 0x1_0000_0000;
    assert Pow256(5) == 0x100_0000_0000;
    assert Pow256(6) == 0x1_0000_0000_0000;
    assert Pow256(7) == 0x100_0000_0000_0000;
  }

  function U32At(b: seq<Byte>, off: nat): (x: U32)
    requires off + 4 <= |b|
  {
    Widths();
    FromLE(b[off..off + 4])
  }

  function U64At(b: seq<Byte>, off: nat): (x: U64)
    requires off + 8 <= |b|
  {
    Widths();
    FromLE(b[off..off + 8])
  }

  /** The bytes d lie in b at offset off. */
  predicate Lies(b: seq<Byte>, off: nat, d: seq<Byte>) {
    off + |d| <= |b| && b[off..off + |d|] == d
  }

  lemma LiesConcat(b: seq<Byte>, off: nat, x: seq<Byte>, y: seq<Byte>)
    ensures Lies(b, off, x + y) <==> Lies(b, off, x) && Lies(b, off + |x|, y)
  {
    var n, m := |x|, |x + y|;
    if off + m <= |b| {
      var whole := b[off..off + m];
      assert whole == b[off..off + n] + b[off + n..off + m];
      if whole == x + y {
        assert b[off..off + n] == whole[..n] == x;
        assert b[off + n..off + m] == whole[n..] == y;
      }
    }
  }

  lemma LiesFits(b: seq<Byte>, off: nat, d: seq<Byte>)
    requires Lies(b, off, d)
    ensures off + |d| <= |b|
  {
  }

  lemma LiesInPart(b: seq<Byte>, off: nat, whole: seq<Byte>, i: nat, d: seq<Byte>)
    requires Lies(b, off, whole) && Lies(whole, i, d)
    ensures Lies(b, off + i, d)
  {
    assert whole == whole[..i] + (d + whole[i + |d|..]);
    LiesConcat(b, off, whole[..i], d + whole[i + |d|..]);
    LiesConcat(b, off + i, d, whole[i + |d|..]);
  }

  /** Reading back a field that was written at an offset. */
  lemma U32ReadsBack(b: seq<Byte>, off: nat, x: U32)
    requires Lies(b, off, LE(x, 4))
    ensures off + 4 <= |b| && U32At(b, off) == x
  {
    Widths();
    LERoundTrip(x, 4);
  }

  lemma U64ReadsBack(b: seq<Byte>, off: nat, x: U64)
    requires Lies(b, off, LE(x, 8))
    ensures off + 8 <= |b| && U64At(b, off) == x
  {
    Widths();
    LERoundTrip(x, 8);
  }
}
