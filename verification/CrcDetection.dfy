/** Which corruptions a CRC-32C cannot miss, and how it is computed in pieces. */
module CrcDetection {
  import opened Crc32c
  import opened CrcPolynomial

  // ---------------------------------------------------------------- in pieces

  lemma {:induction false} RegisterConcat(c: bv32, a: seq<bv8>, b: seq<bv8>)
    ensures Register(c, a + b) == Register(Register(c, a), b)
    decreases |b|
  {
    hide ByteStep;
    if |b| == 0 {
      assert a + b == a;
    } else {
      var n := |b| - 1;
      assert (a + b)[..|a| + n] == a + b[..n];
      RegisterConcat(c, a, b[..n]);
    }
  }

  /** The checksum of a whole is that of its second part, seeded with the checksum of its first. */
  lemma ChecksumInPieces(a: seq<bv8>, b: seq<bv8>, seed: bv32)
    ensures Crc(a + b, seed) == Crc(b, Crc(a, seed))
  {
    hide Register, Not;
    RegisterConcat(Not(seed), a, b);
    NotNot(Register(Not(seed), a));
  }

  // ---------------------------------------------------------------- bursts

  lemma {:induction false} FeedKeepsApart(a: bv32, b: bv32, m: seq<bool>)
    requires Feed(a, m) == Feed(b, m)
    ensures a == b
    decreases |m|
  {
    hide Step, Xor, Low;
    if |m| > 0 {
      var l := Low(m[0]);
      FeedKeepsApart(Step(Xor(a, l)), Step(Xor(b, l)), m[1..]);
      StepInjective(Xor(a, l), Xor(b, l));
      XorKeepsApart(a, b, l);
    }
  }

  lemma XorKeepsApart(a: bv32, b: bv32, l: bv32)
    ensures Xor(a, l) == Xor(b, l) ==> a == b
  {
  }

  function Join(x: bv32, p: bool): bv32 { (x << 1) | Low(p) }

  /** The word whose lowest bits are w. */
  function Word(w: seq<bool>): bv32 {
    if |w| == 0 then 0 else Join(Word(w[1..]), w[0])
  }

  lemma {:induction false} HalvesAdd(c: bv32, n: nat, k: nat)
    ensures Halves(c, n + k) == Halves(Halves(c, n), k)
    decreases n
  {
    hide Half;
    if n > 0 {
      HalvesAdd(Half(c), n - 1, k);
    }
  }

  lemma {:induction false} HalvesOfZero(n: nat)
    ensures Halves(0, n) == 0
    decreases n
  {
    if n > 0 {
      assert Half(0) == 0;
      HalvesOfZero(n - 1);
    }
  }

  lemma TopOf(a: bv32, b: bv32, c: bv32, d: bv32, e: bv32)
    requires b == Half8(a) && c == Half8(b) && d == Half8(c) && e == Half4(d)
    requires Half(Half(Half(e))) == 0
    ensures a <= 0x7FFFFFFF
  {
  }

  lemma ThreeHalves(c: bv32)
    ensures Halves(c, 3) == Half(Half(Half(c)))
  {
    hide Half;
  }

  /** A word that 31 shifts clear has its top bit clear. */
  lemma TopClear(a: bv32)
    requires Halves(a, 31) == 0
    ensures a <= 0x7FFFFFFF
  {
    hide *;
    var b := Half8(a);
    var c := Half8(b);
    var d := Half8(c);
    var e := Half4(d);
    HalvesByEight(a, 31);
    HalvesByEight(b, 23);
    HalvesByEight(c, 15);
    HalvesByFour(d, 7);
    ThreeHalves(e);
    TopOf(a, b, c, d, e);
  }

  lemma JoinParts(x: bv32, p: bool)
    requires x <= 0x7FFFFFFF
    ensures Half(Join(x, p)) == x && Odd(Join(x, p)) == p
  {
  }

  /** Up to 32 bits fit a word. */
  lemma {:induction false} WordFits(w: seq<bool>)
    requires |w| <= 32
    ensures Halves(Word(w), |w|) == 0 && Bits(Word(w), |w|) == w
    decreases |w|
  {
    hide Join, Half, Odd;
    if |w| > 0 {
      var x, n := Word(w[1..]), |w| - 1;
      WordFits(w[1..]);
      HalvesAdd(x, n, 31 - n);
      HalvesOfZero(31 - n);
      TopClear(x);
      JoinParts(x, w[0]);
    }
  }

  /** Feeding up to 32 bits tells them apart. */
  lemma FeedTellsApart(c: bv32, w: seq<bool>, v: seq<bool>)
    requires |w| == |v| <= 32 && Feed(c, w) == Feed(c, v)
    ensures w == v
  {
    hide *;
    WordFits(w);
    WordFits(v);
    FeedWord(c, Word(w), |w|);
    FeedWord(c, Word(v), |v|);
    StepsInjective(Xor(c, Word(w)), Xor(c, Word(v)), |w|);
    XorSame(c, Word(w), Word(v));
  }

  /**
   Every burst of up to 32 bits is detected: two messages of the same length that
   differ only within 32 consecutive bits have different checksums.
   */
  lemma DetectsBursts(a: seq<bv8>, b: seq<bv8>, seed: bv32, front: seq<bool>, w: seq<bool>, v: seq<bool>, back: seq<bool>)
    requires MessageBits(a) == front + w + back && MessageBits(b) == front + v + back
    requires |w| == |v| <= 32 && w != v
    ensures Crc(a, seed) != Crc(b, seed)
  {
    hide Register, Feed, Not;
    RegisterIsFeed(Not(seed), a);
    RegisterIsFeed(Not(seed), b);
    var c := Feed(Not(seed), front);
    FeedThree(Not(seed), front, w, back);
    FeedThree(Not(seed), front, v, back);
    if Crc(a, seed) == Crc(b, seed) {
      SameComplement(Register(Not(seed), a), Register(Not(seed), b));
      FeedKeepsApart(Feed(c, w), Feed(c, v), back);
      FeedTellsApart(c, w, v);
    }
  }

  lemma FeedThree(c: bv32, front: seq<bool>, w: seq<bool>, back: seq<bool>)
    ensures Feed(c, front + w + back) == Feed(Feed(Feed(c, front), w), back)
  {
    hide Feed;
    FeedConcat(c, front + w, back);
    FeedConcat(c, front, w);
  }

  lemma SameComplement(a: bv32, b: bv32)
    requires Not(a) == Not(b)
    ensures a == b
  {
  }

  // ---------------------------------------------------------------- bursts in bytes

  lemma {:induction false} MessageConcat(a: seq<bv8>, b: seq<bv8>)
    ensures MessageBits(a + b) == MessageBits(a) + MessageBits(b)
    decreases |b|
  {
    hide Bits;
    if |b| == 0 {
      assert a + b == a;
    } else {
      var n := |b| - 1;
      assert (a + b)[..|a| + n] == a + b[..n];
      MessageConcat(a, b[..n]);
    }
  }

  lemma {:induction false} MessageLength(a: seq<bv8>)
    ensures |MessageBits(a)| == 8 * |a|
    decreases |a|
  {
    hide Bits;
    if |a| > 0 {
      MessageLength(a[..|a| - 1]);
    }
  }

  lemma SameHalves(w: bv32, v: bv32)
    ensures Half(w) == Half(v) && Odd(w) == Odd(v) ==> w == v
  {
  }

  lemma {:induction false} SameBits(w: bv32, v: bv32, n: nat)
    requires Halves(w, n) == 0 && Halves(v, n) == 0 && Bits(w, n) == Bits(v, n)
    ensures w == v
    decreases n
  {
    hide Half, Odd;
    if n > 0 {
      assert Bits(w, n)[0] == Odd(w) && Bits(v, n)[0] == Odd(v);
      assert Bits(w, n)[1..] == Bits(Half(w), n - 1) && Bits(v, n)[1..] == Bits(Half(v), n - 1);
      SameBits(Half(w), Half(v), n - 1);
      SameHalves(w, v);
    }
  }

  lemma SameWide(a: bv8, b: bv8)
    ensures Wide(a) == Wide(b) ==> a == b
  {
  }

  /** Different bytes are different bits. */
  lemma {:induction false} MessageTellsApart(x: seq<bv8>, y: seq<bv8>)
    requires |x| == |y| && MessageBits(x) == MessageBits(y)
    ensures x == y
    decreases |x|
  {
    hide Bits, Wide;
    if |x| > 0 {
      var n := |x| - 1;
      var p, q := MessageBits(x[..n]), MessageBits(y[..n]);
      MessageLength(x[..n]);
      MessageLength(y[..n]);
      assert MessageBits(x)[..8 * n] == p && MessageBits(y)[..8 * n] == q;
      assert MessageBits(x)[8 * n..] == Bits(Wide(x[n]), 8) && MessageBits(y)[8 * n..] == Bits(Wide(y[n]), 8);
      MessageTellsApart(x[..n], y[..n]);
      ByteFits(x[n]);
      ByteFits(y[n]);
      SameBits(Wide(x[n]), Wide(y[n]), 8);
      SameWide(x[n], y[n]);
      assert x == x[..n] + [x[n]] && y == y[..n] + [y[n]];
    }
  }

  /** Two messages that differ only within four consecutive bytes have different checksums. */
  lemma DetectsByteBursts(front: seq<bv8>, x: seq<bv8>, y: seq<bv8>, back: seq<bv8>, seed: bv32)
    requires |x| == |y| <= 4 && x != y
    ensures Crc(front + x + back, seed) != Crc(front + y + back, seed)
  {
    hide MessageBits, Crc;
    MessageConcat(front + x, back);
    MessageConcat(front, x);
    MessageConcat(front + y, back);
    MessageConcat(front, y);
    MessageLength(x);
    MessageLength(y);
    if MessageBits(x) == MessageBits(y) {
      MessageTellsApart(x, y);
    }
    DetectsBursts(front + x + back, front + y + back, seed,
                  MessageBits(front), MessageBits(x), MessageBits(y), MessageBits(back));
  }

  // ---------------------------------------------------------------- odd errors

  predicate OddOnes(s: seq<bool>) {
    |s| > 0 && (s[0] != OddOnes(s[1..]))
  }

  lemma {:induction false} OnesConcat(a: seq<bool>, b: seq<bool>)
    ensures OddOnes(a + b) == (OddOnes(a) != OddOnes(b))
    decreases |a|
  {
    if |a| == 0 {
      assert a + b == b;
    } else {
      assert (a + b)[1..] == a[1..] + b;
      OnesConcat(a[1..], b);
    }
  }

  lemma {:induction false} OnesAdd(a: seq<bool>, b: seq<bool>)
    requires |a| == |b|
    ensures OddOnes(AddBits(a, b)) == (OddOnes(a) != OddOnes(b))
    decreases |a|
  {
    if |a| > 0 {
      assert AddBits(a, b)[1..] == AddBits(a[1..], b[1..]);
      OnesAdd(a[1..], b[1..]);
    }
  }

  lemma {:induction false} OnesOfZeros(n: nat)
    ensures !OddOnes(Zeros(n))
    decreases n
  {
    if n > 0 {
      assert Zeros(n)[1..] == Zeros(n - 1);
      OnesOfZeros(n - 1);
    }
  }

  lemma OneOne(p: bool)
    ensures OddOnes([p]) == p
  {
    assert !OddOnes([]);
  }

  lemma FourOnes(p: bool, q: bool, r: bool, t: bool, s: seq<bool>)
    ensures OddOnes([p, q, r, t] + s) == ((p != q) != ((r != t) != OddOnes(s)))
  {
    OnesConcat([p, q, r, t], s);
    assert [p, q, r, t] == [p] + ([q] + ([r] + [t]));
    OnesConcat([p], [q] + ([r] + [t]));
    OnesConcat([q], [r] + [t]);
    OnesConcat([r], [t]);
    OneOne(p);
    OneOne(q);
    OneOne(r);
    OneOne(t);
  }

  /** Without its leading term the polynomial has seventeen terms. */
  lemma OnesOfPoly()
    ensures OddOnes(PolyBits())
  {
    hide OddOnes, PolyLow, PolyHigh;
    OnesConcat(PolyLow(), PolyHigh());
    OnesOfLow();
    OnesOfHigh();
  }

  lemma OnesOfLow()
    ensures OddOnes(PolyLow())
  {
    hide OddOnes;
    var q1, q2, q3, q4 :=
      [false, false, false, true], [true, true, true, false], [true, true, false, true], [true, true, false, false];
    assert PolyLow() == q1 + (q2 + (q3 + (q4 + [])));
    FourOnes(false, false, false, true, q2 + (q3 + (q4 + [])));
    FourOnes(true, true, true, false, q3 + (q4 + []));
    FourOnes(true, true, false, true, q4 + []);
    FourOnes(true, true, false, false, []);
    OnesOfNothing();
  }

  lemma OnesOfHigh()
    ensures !OddOnes(PolyHigh())
  {
    hide OddOnes;
    var q1, q2, q3, q4 :=
      [false, true, true, false], [true, true, true, true], [false, true, false, false], [false, false, false, true];
    assert PolyHigh() == q1 + (q2 + (q3 + (q4 + [])));
    FourOnes(false, true, true, false, q2 + (q3 + (q4 + [])));
    FourOnes(true, true, true, true, q3 + (q4 + []));
    FourOnes(false, true, false, false, q4 + []);
    FourOnes(false, false, false, true, []);
    OnesOfNothing();
  }

  lemma OnesOfNothing()
    ensures !OddOnes([])
  {
  }

  lemma FirstOnes(b: seq<bool>)
    requires |b| > 0
    ensures OddOnes(b) == (b[0] != OddOnes(b[1..]))
  {
  }

  /** A step keeps the parity of the register: the polynomial is divisible by x + 1. */
  lemma StepKeepsParity(x: bv32)
    ensures OddOnes(Bits(Step(x), 32)) == OddOnes(Bits(x, 32))
  {
    hide Bits, Step, OddOnes, PolyBits;
    var b := Bits(x, 32);
    PolyLength();
    StepBits(x);
    OnesAdd(b[1..] + [false], if b[0] then PolyBits() else Zeros(32));
    OnesConcat(b[1..], [false]);
    OneOne(false);
    OnesOfPoly();
    OnesOfZeros(32);
    FirstOnes(b);
  }

  lemma PolyLength()
    ensures |PolyBits()| == 32
  {
  }

  lemma {:induction false} FeedParity(c: bv32, m: seq<bool>)
    ensures OddOnes(Bits(Feed(c, m), 32)) == (OddOnes(Bits(c, 32)) != OddOnes(m))
    decreases |m|
  {
    hide Bits, Step, Xor, Low;
    if |m| > 0 {
      var x := Xor(c, Low(m[0]));
      FeedParity(Step(x), m[1..]);
      StepKeepsParity(x);
      FedBits(c, m[0]);
      var b := Bits(c, 32);
      assert ([b[0] != m[0]] + b[1..])[1..] == b[1..];
    }
  }

  /** Every error in an odd number of bits is detected. */
  lemma DetectsOddErrors(a: seq<bv8>, b: seq<bv8>, seed: bv32)
    requires |a| == |b| && OddOnes(MessageBits(a)) != OddOnes(MessageBits(b))
    ensures Crc(a, seed) != Crc(b, seed)
  {
    hide Register, Feed, Bits, OddOnes, MessageBits, Not;
    RegisterIsFeed(Not(seed), a);
    RegisterIsFeed(Not(seed), b);
    FeedParity(Not(seed), MessageBits(a));
    FeedParity(Not(seed), MessageBits(b));
    if Crc(a, seed) == Crc(b, seed) {
      SameComplement(Register(Not(seed), a), Register(Not(seed), b));
    }
  }
}
