/**
 One-bit quantization: a code keeps the sign of each coordinate, and the distance
 kernels count signs with exclusive-or and population count.
 */
module BitDistance {
  import opened Prelude
  import opened BitWords

  // ---------------------------------------------------------------- exclusive or of bytes

  function XorBits(a: nat, b: nat): nat
    decreases a + b
  {
    if a == 0 && b == 0 then 0 else (a + b) % 2 + 2 * XorBits(a / 2, b / 2)
  }

  lemma XorParts(a: nat, b: nat)
    ensures XorBits(a, b) % 2 == (a + b) % 2 && XorBits(a, b) / 2 == XorBits(a / 2, b / 2)
  {
    hide XorBits;
    XorStep(a, b);
    Digits((a + b) % 2, XorBits(a / 2, b / 2));
  }

  lemma XorStep(a: nat, b: nat)
    ensures XorBits(a, b) == (a + b) % 2 + 2 * XorBits(a / 2, b / 2)
  {
    if a == 0 && b == 0 {
      assert XorBits(0, 0) == 0;
    }
  }

  lemma Digits(p: nat, r: nat)
    requires p < 2
    ensures (p + 2 * r) % 2 == p && (p + 2 * r) / 2 == r
  {
  }

  lemma BitStep(w: nat, k: nat)
    ensures Bit(w, k) <==> if k == 0 then w % 2 == 1 else Bit(w / 2, k - 1)
  {
  }

  lemma OddSum(a: nat, b: nat)
    ensures (a + b) % 2 == 1 <==> (a % 2 == 1) != (b % 2 == 1)
  {
  }

  lemma {:induction false} XorBit(a: nat, b: nat, k: nat)
    ensures Bit(XorBits(a, b), k) <==> Bit(a, k) != Bit(b, k)
    decreases k
  {
    hide Bit, XorBits;
    XorParts(a, b);
    BitStep(XorBits(a, b), k);
    BitStep(a, k);
    BitStep(b, k);
    if k == 0 {
      OddSum(a, b);
    } else {
      XorBit(a / 2, b / 2, k - 1);
    }
  }

  lemma {:induction false} XorBound(a: nat, b: nat, m: nat)
    requires a < Pow2(m) && b < Pow2(m)
    ensures XorBits(a, b) < Pow2(m)
    decreases m
  {
    if m > 0 && (a > 0 || b > 0) {
      XorBound(a / 2, b / 2, m - 1);
    }
  }

  // ---------------------------------------------------------------- codes

  /** Bit i of a code, lowest bit of the first byte first. */
  predicate Sign(codes: seq<nat>, i: nat) {
    i / 8 < |codes| && Bit(codes[i / 8], i % 8)
  }

  ghost predicate BytesOk(codes: seq<nat>) {
    forall j :: 0 <= j < |codes| ==> codes[j] < Pow2(8)
  }

  /** codes holds the signs of the first n coordinates of v, in as few bytes as hold |v| bits, and no other bit. */
  ghost predicate HoldsSigns(codes: seq<nat>, v: seq<real>, n: nat)
    requires n <= |v|
  {
    && |codes| == (|v| + 7) / 8 && BytesOk(codes)
    && forall i: nat :: Sign(codes, i) <==> i < n && v[i] > 0.0
  }

  lemma SetSign(codes: seq<nat>, i: nat, j: nat)
    requires i / 8 < |codes|
    ensures Sign(codes[i / 8 := SetBit(codes[i / 8], i % 8)], j) <==> j == i || Sign(codes, j)
  {
    hide Bit, SetBit;
    if i / 8 == j / 8 {
      SetBitSets(codes[i / 8], i % 8, j % 8);
    }
  }

  lemma SetSignOk(codes: seq<nat>, i: nat)
    requires i / 8 < |codes| && BytesOk(codes)
    ensures BytesOk(codes[i / 8 := SetBit(codes[i / 8], i % 8)])
  {
    hide SetBit, Pow2;
    SetBitBound(codes[i / 8], i % 8, 8);
  }

  lemma NoSigns(codes: seq<nat>, i: nat)
    requires forall j :: 0 <= j < |codes| ==> codes[j] == 0
    ensures !Sign(codes, i)
  {
    hide Bit;
    ZeroHasNoBits(i % 8);
  }

  // ---------------------------------------------------------------- counting

  function CountDiffering(a: seq<nat>, b: seq<nat>, lo: nat, hi: nat): nat
    requires lo <= hi
    decreases hi - lo
  {
    if lo == hi then 0 else (if Sign(a, lo) != Sign(b, lo) then 1 else 0) + CountDiffering(a, b, lo + 1, hi)
  }

  function CountAgreeing(u: seq<real>, v: seq<real>, lo: nat): nat
    requires lo <= |u| == |v|
    decreases |u| - lo
  {
    if lo == |u| then 0 else (if (u[lo] > 0.0) == (v[lo] > 0.0) then 1 else 0) + CountAgreeing(u, v, lo + 1)
  }

  lemma {:induction false} CountJoin(a: seq<nat>, b: seq<nat>, lo: nat, mid: nat, hi: nat)
    requires lo <= mid <= hi
    ensures CountDiffering(a, b, lo, hi) == CountDiffering(a, b, lo, mid) + CountDiffering(a, b, mid, hi)
    decreases mid - lo
  {
    hide Sign;
    if lo < mid {
      CountJoin(a, b, lo + 1, mid, hi);
    }
  }

  lemma {:induction false} CountInByte(a: seq<nat>, b: seq<nat>, j: nat, k: nat)
    requires j < |a| && j < |b| && k <= 8
    ensures CountDiffering(a, b, 8 * j + k, 8 * j + 8) == CountBits(XorBits(a[j], b[j]), k, 8)
    decreases 8 - k
  {
    hide Bit, XorBits;
    if k < 8 {
      var i := 8 * j + k;
      assert i / 8 == j && i % 8 == k;
      XorBit(a[j], b[j], k);
      CountInByte(a, b, j, k + 1);
    }
  }

  /** The population of a byte's exclusive or is the number of signs in it that differ. */
  lemma ByteCounts(a: seq<nat>, b: seq<nat>, j: nat)
    requires j < |a| && j < |b| && BytesOk(a) && BytesOk(b)
    ensures Pop(XorBits(a[j], b[j])) == CountDiffering(a, b, 8 * j, 8 * j + 8)
  {
    hide *;
    BytesAt(a, j);
    BytesAt(b, j);
    XorBound(a[j], b[j], 8);
    PopCounts(XorBits(a[j], b[j]), 8);
    CountInByte(a, b, j, 0);
  }

  lemma BytesAt(a: seq<nat>, j: nat)
    requires j < |a| && BytesOk(a)
    ensures a[j] < Pow2(8)
  {
    hide Pow2;
  }

  // ---------------------------------------------------------------- the code's loops

  method BitQuantize(v: seq<real>) returns (codes: seq<nat>)
    ensures HoldsSigns(codes, v, |v|)
  {
    hide HoldsSigns, SetBit;
    codes := Repeat(0, (|v| + 7) / 8);
    AllZero(codes, v);
    var i := 0;
    while i < |v|
      invariant i <= |v| && |codes| == (|v| + 7) / 8 && HoldsSigns(codes, v, i)
    {
      OneSign(codes, v, i);
      if v[i] > 0.0 {
        codes := codes[i / 8 := SetBit(codes[i / 8], i % 8)];
      }
      i := i + 1;
    }
  }

  lemma OneSign(codes: seq<nat>, v: seq<real>, i: nat)
    requires i < |v| && i / 8 < |codes| && HoldsSigns(codes, v, i)
    ensures HoldsSigns(if v[i] > 0.0 then codes[i / 8 := SetBit(codes[i / 8], i % 8)] else codes, v, i + 1)
  {
    hide Sign, SetBit, Pow2;
    var next := codes[i / 8 := SetBit(codes[i / 8], i % 8)];
    if v[i] > 0.0 {
      SetSignOk(codes, i);
      forall j: nat ensures Sign(next, j) <==> j < i + 1 && v[j] > 0.0 {
        SetSign(codes, i, j);
      }
    }
  }

  lemma AllZero(codes: seq<nat>, v: seq<real>)
    requires |codes| == (|v| + 7) / 8 && forall j :: 0 <= j < |codes| ==> codes[j] == 0
    ensures HoldsSigns(codes, v, 0)
  {
    hide Sign, Pow2;
    forall i: nat ensures !Sign(codes, i) {
      NoSigns(codes, i);
    }
  }

  method Hamming(a: seq<nat>, b: seq<nat>) returns (dist: nat)
    requires BytesOk(a) && BytesOk(b)
    ensures dist == CountDiffering(a, b, 0, 8 * Min(|a|, |b|))
  {
    hide CountDiffering, XorBits, Pop, BytesOk;
    NoneDiffer(a, b);
    dist := 0;
    var n := Min(|a|, |b|);
    var i := 0;
    while i < n
      invariant i <= n && dist == CountDiffering(a, b, 0, 8 * i)
    {
      ByteCounts(a, b, i);
      CountJoin(a, b, 0, 8 * i, 8 * i + 8);
      dist := dist + Pop(XorBits(a[i], b[i]));
      i := i + 1;
    }
  }

  lemma NoneDiffer(a: seq<nat>, b: seq<nat>)
    ensures CountDiffering(a, b, 0, 0) == 0
  {
  }

  lemma {:induction false} CountPadding(a: seq<nat>, b: seq<nat>, u: seq<real>, v: seq<real>, lo: nat, hi: nat)
    requires |u| == |v| <= lo <= hi && HoldsSigns(a, u, |u|) && HoldsSigns(b, v, |v|)
    ensures CountDiffering(a, b, lo, hi) == 0
    decreases hi - lo
  {
    hide Sign, BytesOk;
    if lo < hi {
      CountPadding(a, b, u, v, lo + 1, hi);
    }
  }

  lemma {:induction false} CountCoordinates(a: seq<nat>, b: seq<nat>, u: seq<real>, v: seq<real>, lo: nat)
    requires |u| == |v| && lo <= |u| && HoldsSigns(a, u, |u|) && HoldsSigns(b, v, |v|)
    ensures CountDiffering(a, b, lo, |u|) + CountAgreeing(u, v, lo) == |u| - lo
    decreases |u| - lo
  {
    hide Sign, BytesOk;
    if lo < |u| {
      CountCoordinates(a, b, u, v, lo + 1);
    }
  }

  /** Against the code of a vector of its own length, a query scores one for every coordinate whose sign agrees. */
  lemma ScoreCountsSigns(a: seq<nat>, b: seq<nat>, u: seq<real>, v: seq<real>)
    requires |u| == |v| && HoldsSigns(a, u, |u|) && HoldsSigns(b, v, |v|)
    ensures |u| - CountDiffering(a, b, 0, 8 * Min(|a|, |b|)) == CountAgreeing(u, v, 0)
  {
    hide Sign, BytesOk, CountDiffering, CountAgreeing;
    var all := 8 * Min(|a|, |b|);
    CountJoin(a, b, 0, |u|, all);
    CountPadding(a, b, u, v, |u|, all);
    CountCoordinates(a, b, u, v, 0);
  }

  /** Against any code, its own code's differences; against the code of a vector, the signs that agree. */
  method DotBit(query: seq<real>, codes: seq<nat>) returns (score: int)
    requires BytesOk(codes)
    ensures forall signs :: HoldsSigns(signs, query, |query|) ==>
              score == |query| - CountDiffering(signs, codes, 0, 8 * Min(|signs|, |codes|))
    ensures forall v :: |v| == |query| && HoldsSigns(codes, v, |v|) ==> score == CountAgreeing(query, v, 0)
  {
    hide CountDiffering, CountAgreeing, HoldsSigns, BytesOk;
    var q := BitQuantize(query);
    SignsParts(q, query);
    var d := Hamming(q, codes);
    score := |query| - d;
    forall signs | HoldsSigns(signs, query, |query|)
      ensures score == |query| - CountDiffering(signs, codes, 0, 8 * Min(|signs|, |codes|))
    {
      SignsParts(signs, query);
      SameSigns(q, signs, codes, query, 0, 8 * Min(|q|, |codes|));
    }
    forall v | |v| == |query| && HoldsSigns(codes, v, |v|) ensures score == CountAgreeing(query, v, 0) {
      ScoreCountsSigns(q, codes, query, v);
    }
  }

  lemma SignsParts(codes: seq<nat>, v: seq<real>)
    requires HoldsSigns(codes, v, |v|)
    ensures BytesOk(codes) && |codes| == (|v| + 7) / 8
  {
    hide Sign;
  }

  /** The count depends on the signs only. */
  lemma {:induction false} SameSigns(a: seq<nat>, b: seq<nat>, c: seq<nat>, v: seq<real>, lo: nat, hi: nat)
    requires lo <= hi && HoldsSigns(a, v, |v|) && HoldsSigns(b, v, |v|)
    ensures CountDiffering(a, c, lo, hi) == CountDiffering(b, c, lo, hi)
    decreases hi - lo
  {
    hide Sign, BytesOk;
    if lo < hi {
      assert Sign(a, lo) == Sign(b, lo);
      SameSigns(a, b, c, v, lo + 1, hi);
    }
  }
}
