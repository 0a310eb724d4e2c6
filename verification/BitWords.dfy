/** Single bits of a word, setting one, and the population count. */
module BitWords {
  import opened Prelude

  predicate Bit(w: nat, k: nat) {
    if k == 0 then w % 2 == 1 else Bit(w / 2, k - 1)
  }

  /** w | (1 << k). */
  function SetBit(w: nat, k: nat): nat
    decreases k
  {
    if k == 0 then (if w % 2 == 1 then w else w + 1) else w % 2 + 2 * SetBit(w / 2, k - 1)
  }

  lemma {:induction false} SetBitSets(w: nat, k: nat, j: nat)
    ensures Bit(SetBit(w, k), j) <==> j == k || Bit(w, j)
    decreases k
  {
    if k > 0 && j > 0 {
      SetBitSets(w / 2, k - 1, j - 1);
    }
  }

  lemma {:induction false} ZeroHasNoBits(k: nat)
    ensures !Bit(0, k)
    decreases k
  {
    if k > 0 {
      ZeroHasNoBits(k - 1);
    }
  }

  /** The portable population count: add the low bit, shift right, until nothing is left. */
  function Pop(w: nat): nat {
    if w == 0 then 0 else w % 2 + Pop(w / 2)
  }

  function CountBits(w: nat, lo: nat, hi: nat): nat
    requires lo <= hi
    decreases hi - lo
  {
    if lo == hi then 0 else (if Bit(w, lo) then 1 else 0) + CountBits(w, lo + 1, hi)
  }

  lemma {:induction false} CountShift(w: nat, lo: nat, hi: nat)
    requires lo <= hi
    ensures CountBits(w, lo + 1, hi + 1) == CountBits(w / 2, lo, hi)
    decreases hi - lo
  {
    if lo < hi {
      CountShift(w, lo + 1, hi);
    }
  }

  lemma {:induction false} PopCounts(w: nat, m: nat)
    requires w < Pow2(m)
    ensures Pop(w) == CountBits(w, 0, m)
    decreases m
  {
    if m > 0 {
      PopCounts(w / 2, m - 1);
      CountShift(w, 0, m - 1);
    }
  }

  lemma {:induction false} SetBitBound(w: nat, k: nat, m: nat)
    requires w < Pow2(m) && k < m
    ensures SetBit(w, k) < Pow2(m)
    decreases k
  {
    var p := Pow2(m - 1);
    assert Pow2(m) == 2 * p;
    assert w / 2 < p;
    if k > 0 {
      SetBitBound(w / 2, k - 1, m - 1);
      assert SetBit(w, k) == w % 2 + 2 * SetBit(w / 2, k - 1);
    }
  }

  lemma {:induction false} PopOfOnes(m: nat)
    ensures Pop(Pow2(m) - 1) == m
    decreases m
  {
    if m > 0 {
      PopOfOnes(m - 1);
      assert (Pow2(m) - 1) / 2 == Pow2(m - 1) - 1;
    }
  }
}
