/** What the checksum means: the remainder of a division of polynomials over GF(2). */
module CrcPolynomial {
  import opened Crc32c

  // ---------------------------------------------------------------- polynomials, highest power first

  /** The Castagnoli polynomial. */
  predicate Term(power: int) {
    power in {32, 28, 27, 26, 25, 23, 22, 20, 19, 18, 14, 13, 11, 10, 9, 8, 6, 0}
  }

  function Divisor(): (d: seq<bool>)
    ensures |d| == 33
  {
    seq(33, i => Term(32 - i))
  }

  function Zeros(n: nat): seq<bool> {
    seq(n, _ => false)
  }

  /** Adds d to the leading terms of m. */
  function AddLeading(m: seq<bool>, d: seq<bool>): (r: seq<bool>)
    requires |d| <= |m|
    ensures |r| == |m|
  {
    seq(|m|, i requires 0 <= i < |m| => if i < |d| then m[i] != d[i] else m[i])
  }

  /** Long division by the Castagnoli polynomial; what is left has 32 terms. */
  function Remainder(m: seq<bool>): seq<bool>
    decreases |m|
  {
    if |m| <= 32 then m
    else if m[0] then Remainder(AddLeading(m, Divisor())[1..])
    else Remainder(m[1..])
  }

  // ---------------------------------------------------------------- registers and messages as polynomials

  function Bits(c: bv32, n: nat): (b: seq<bool>)
    ensures |b| == n
    decreases n
  {
    if n == 0 then [] else [Odd(c)] + Bits(Half(c), n - 1)
  }

  /** A message in the order its bits are divided: byte by byte, lowest bit first. */
  function MessageBits(data: seq<bv8>): seq<bool>
    decreases |data|
  {
    if |data| == 0 then []
    else MessageBits(data[..|data| - 1]) + Bits(Wide(data[|data| - 1]), 8)
  }

  /** One message bit at a time through the register. */
  function Feed(c: bv32, m: seq<bool>): bv32
    decreases |m|
  {
    if |m| == 0 then c else Feed(Step(Xor(c, Low(m[0]))), m[1..])
  }

  lemma {:induction false} FeedConcat(c: bv32, a: seq<bool>, b: seq<bool>)
    ensures Feed(c, a + b) == Feed(Feed(c, a), b)
    decreases |a|
  {
    hide Step, Xor, Low;
    if |a| == 0 {
      assert a + b == b;
    } else {
      assert (a + b)[1..] == a[1..] + b;
      FeedConcat(Step(Xor(c, Low(a[0]))), a[1..], b);
    }
  }

  // ---------------------------------------------------------------- a word is fed by adding it at once

  lemma LowParts(p: bool)
    ensures Half(Low(p)) == 0 && Odd(Low(p)) == p
  {
  }

  lemma XorZero(c: bv32)
    ensures Xor(c, 0) == c && Xor(0, c) == c
  {
  }

  lemma XorSwap(a: bv32, b: bv32, p: bv32)
    ensures Xor(Xor(a, b), p) == Xor(Xor(a, p), b)
  {
    XorPairs(a, b, p, 0);
    XorZero(p);
    XorZero(b);
  }

  lemma FeedFirst(c: bv32, w: bv32)
    ensures Step(Xor(c, w)) == Xor(Step(Xor(c, Low(Odd(w)))), Half(w))
  {
    hide *;
    var l := Low(Odd(w));
    LowParts(Odd(w));
    StepPicks(Xor(c, w));
    StepPicks(Xor(c, l));
    XorParts(c, w);
    XorParts(c, l);
    XorZero(Half(c));
    XorSwap(Half(c), Half(w), Pick(Odd(c) != Odd(w)));
  }

  lemma {:induction false} FeedWord(c: bv32, w: bv32, n: nat)
    requires Halves(w, n) == 0
    ensures Feed(c, Bits(w, n)) == Steps(Xor(c, w), n)
    decreases n
  {
    hide Step, Xor, Low, Half, Odd;
    if n == 0 {
      XorZero(c);
    } else {
      FeedFirst(c, w);
      var d := Step(Xor(c, Low(Odd(w))));
      assert Bits(w, n)[1..] == Bits(Half(w), n - 1);
      FeedWord(d, Half(w), n - 1);
    }
  }

  lemma ByteShift(b: bv8)
    ensures Half4(Half4(Wide(b))) == 0
  {
  }

  lemma ByteFits(b: bv8)
    ensures Halves(Wide(b), 8) == 0
  {
    hide *;
    HalvesByFour(Wide(b), 8);
    HalvesByFour(Half4(Wide(b)), 4);
    ByteShift(b);
    NoHalves(0);
  }

  /** The table-driven register is the one fed bit by bit. */
  lemma {:induction false} RegisterIsFeed(c: bv32, data: seq<bv8>)
    ensures Register(c, data) == Feed(c, MessageBits(data))
    decreases |data|
  {
    hide ByteStep, Wide, Bits, Feed, Steps, Xor;
    if |data| == 0 {
      FeedNone(c);
    } else {
      var n := |data| - 1;
      var r := Register(c, data[..n]);
      RegisterIsFeed(c, data[..n]);
      FeedConcat(c, MessageBits(data[..n]), Bits(Wide(data[n]), 8));
      ByteFits(data[n]);
      FeedWord(r, Wide(data[n]), 8);
      TableIsEightSteps(r, data[n]);
    }
  }

  lemma FeedNone(c: bv32)
    ensures Feed(c, []) == c
  {
  }

  // ---------------------------------------------------------------- registers bit by bit

  function AddBits(a: seq<bool>, b: seq<bool>): (r: seq<bool>)
    requires |a| == |b|
    ensures |r| == |a|
  {
    seq(|a|, i requires 0 <= i < |a| => a[i] != b[i])
  }

  lemma {:induction false} BitsXor(a: bv32, b: bv32, n: nat)
    ensures Bits(Xor(a, b), n) == AddBits(Bits(a, n), Bits(b, n))
    decreases n
  {
    hide Xor, Half, Odd;
    if n > 0 {
      XorParts(a, b);
      BitsXor(Half(a), Half(b), n - 1);
    }
  }

  lemma {:induction false} BitsZero(n: nat)
    ensures Bits(0, n) == Zeros(n)
    decreases n
  {
    if n > 0 {
      assert Half(0) == 0;
      BitsZero(n - 1);
    }
  }

  lemma {:induction false} BitsSnoc(c: bv32, n: nat)
    ensures Bits(c, n + 1) == Bits(c, n) + [Odd(Halves(c, n))]
    decreases n
  {
    hide Half, Odd;
    if n > 0 {
      BitsSnoc(Half(c), n - 1);
    }
  }

  lemma Half4Twice(c: bv32)
    ensures Half4(Half4(c)) == Half8(c)
  {
  }

  lemma HalvesByEight(c: bv32, n: nat)
    requires n >= 8
    ensures Halves(c, n) == Halves(Half8(c), n - 8)
  {
    hide *;
    HalvesByFour(c, n);
    HalvesByFour(Half4(c), n - 4);
    Half4Twice(c);
  }

  lemma AllShifted(a: bv32, b: bv32, c: bv32, d: bv32)
    requires b == Half8(a) && c == Half8(b) && d == Half8(c)
    ensures Half8(d) == 0
  {
  }

  lemma Halves32(a: bv32)
    ensures Halves(a, 32) == 0
  {
    hide *;
    var b := Half8(a);
    var c := Half8(b);
    var d := Half8(c);
    HalvesByEight(a, 32);
    HalvesByEight(b, 24);
    HalvesByEight(c, 16);
    HalvesByEight(d, 8);
    AllShifted(a, b, c, d);
    NoHalves(0);
  }

  lemma OddZero()
    ensures !Odd(0)
  {
  }

  /** Shifting a register drops its highest power. */
  lemma BitsHalf(c: bv32, n: nat)
    requires n > 0 && Halves(c, n) == 0
    ensures Bits(Half(c), n) == Bits(c, n)[1..] + [false]
  {
    hide Half, Odd;
    BitsSnoc(c, n);
    OddZero();
    assert Bits(c, n + 1) == [Odd(c)] + Bits(Half(c), n);
    assert Bits(Half(c), n) == (Bits(c, n) + [false])[1..];
  }

  function PolyLow(): seq<bool> {
    [false, false, false, true, true, true, true, false, true, true, false, true, true, true, false, false]
  }

  function PolyHigh(): seq<bool> {
    [false, true, true, false, true, true, true, true, false, true, false, false, false, false, false, true]
  }

  function PolyBits(): seq<bool> {
    PolyLow() + PolyHigh()
  }

  lemma BitsNibble(c: bv32, next: bv32, p: bool, q: bool, r: bool, t: bool, n: nat)
    requires n >= 4 && Half4(c) == next
    requires Odd(c) == p && Odd(Half(c)) == q && Odd(Half(Half(c))) == r && Odd(Half(Half(Half(c)))) == t
    ensures Bits(c, n) == [p, q, r, t] + Bits(next, n - 4)
  {
    hide *;
    var a := Half(c);
    var b := Half(a);
    var d := Half(b);
    Chain(c, a, b, d, Half(d));
    BitsCons(c, n);
    BitsCons(a, n - 1);
    BitsCons(b, n - 2);
    BitsCons(d, n - 3);
    Associate(p, q, r, t, Bits(next, n - 4));
  }

  lemma BitsCons(c: bv32, n: nat)
    requires n > 0
    ensures Bits(c, n) == [Odd(c)] + Bits(Half(c), n - 1)
  {
  }

  lemma Associate(p: bool, q: bool, r: bool, t: bool, s: seq<bool>)
    ensures [p] + ([q] + ([r] + ([t] + s))) == [p, q, r, t] + s
  {
  }

  lemma BitsNone(c: bv32)
    ensures Bits(c, 0) == []
  {
  }

  lemma LowHalfOfPoly()
    ensures Bits(POLY, 32) == PolyLow() + Bits(0x82F6, 16)
  {
    hide Bits;
    BitsNibble(POLY, 0x082F63B7, false, false, false, true, 32);
    BitsNibble(0x082F63B7, 0x0082F63B, true, true, true, false, 28);
    BitsNibble(0x0082F63B, 0x00082F63, true, true, false, true, 24);
    BitsNibble(0x00082F63, 0x000082F6, true, true, false, false, 20);
  }

  lemma HighHalfOfPoly()
    ensures Bits(0x82F6, 16) == PolyHigh()
  {
    hide Bits;
    BitsNibble(0x000082F6, 0x0000082F, false, true, true, false, 16);
    BitsNibble(0x0000082F, 0x00000082, true, true, true, true, 12);
    BitsNibble(0x00000082, 0x00000008, false, true, false, false, 8);
    BitsNibble(0x00000008, 0, false, false, false, true, 4);
    BitsNone(0);
  }

  lemma PolySize()
    ensures |PolyBits()| == 32
  {
  }

  lemma PolyTermsBelow(i: nat)
    ensures i < 16 ==> PolyBits()[i] == Term(31 - i)
  {
  }

  lemma PolyTermsAbove(i: nat)
    ensures 16 <= i < 32 ==> PolyBits()[i] == Term(31 - i)
  {
  }

  lemma PolyTerms()
    ensures PolyBits() == Divisor()[1..]
  {
    hide PolyBits, Term;
    PolySize();
    var p, d := PolyBits(), Divisor();
    forall i | 0 <= i < 32 ensures p[i] == d[1 + i] {
      PolyTermsBelow(i);
      PolyTermsAbove(i);
    }
  }

  /** The constant in the code is the Castagnoli polynomial. */
  lemma PolyIsDivisor()
    ensures Bits(POLY, 32) == PolyBits() == Divisor()[1..]
  {
    hide Bits, Term, PolyLow, PolyHigh;
    LowHalfOfPoly();
    HighHalfOfPoly();
    PolyTerms();
  }

  // ---------------------------------------------------------------- feeding is dividing

  /** The register after a step: shifted, with the polynomial added when the dropped term was set. */
  lemma StepBits(x: bv32)
    ensures var b := Bits(x, 32);
            Bits(Step(x), 32) == AddBits(b[1..] + [false], if b[0] then PolyBits() else Zeros(32))
  {
    hide *;
    StepPicks(x);
    BitsXor(Half(x), Pick(Odd(x)), 32);
    Halves32(x);
    BitsHalf(x, 32);
    FirstBit(x, 32);
    PickBits(Odd(x));
  }

  lemma FirstBit(x: bv32, n: nat)
    requires n > 0
    ensures Bits(x, n)[0] == Odd(x)
  {
  }

  lemma PickBits(p: bool)
    ensures Bits(Pick(p), 32) == if p then PolyBits() else Zeros(32)
  {
    hide Bits;
    PolyIsDivisor();
    BitsZero(32);
  }

  lemma LowBits(p: bool, n: nat)
    requires n > 0
    ensures Bits(Low(p), n) == [p] + Zeros(n - 1)
  {
    hide Low, Half, Odd;
    LowParts(p);
    BitsZero(n - 1);
  }

  /** The register with a message bit added to its highest power. */
  lemma FedBits(c: bv32, p: bool)
    ensures var b := Bits(c, 32);
            Bits(Xor(c, Low(p)), 32) == [b[0] != p] + b[1..]
  {
    hide Bits, Xor, Low;
    BitsXor(c, Low(p), 32);
    LowBits(p, 32);
  }

  /** One round of long division is one step of the register. */
  lemma DivideOne(c: bv32, m: seq<bool>)
    requires |m| > 0
    ensures var x := AddLeading(m + Zeros(32), Bits(c, 32));
            var d := Step(Xor(c, Low(m[0])));
            Remainder(x) == Remainder(AddLeading(m[1..] + Zeros(32), Bits(d, 32)))
  {
    hide Bits, Step, Xor, Low, Term, Remainder, AddLeading, AddBits, PolyBits, Divisor;
    var b := Bits(c, 32);
    var x := AddLeading(m + Zeros(32), b);
    var y := Xor(c, Low(m[0]));
    FedBits(c, m[0]);
    StepBits(y);
    PolyTermsOf();
    RemainderStep(x);
    var z := [b[0] != m[0]] + b[1..];
    assert z[0] == (b[0] != m[0]) && z[1..] == b[1..];
    LeadingTerm(m + Zeros(32), b);
    assert m[1..] + Zeros(32) == (m + Zeros(32))[1..];
    if x[0] {
      CancelLeading(m + Zeros(32), b, Divisor());
    } else {
      DropLeading(m + Zeros(32), b);
    }
  }

  lemma LeadingTerm(m: seq<bool>, b: seq<bool>)
    requires 0 < |b| <= |m|
    ensures AddLeading(m, b)[0] == (m[0] != b[0])
  {
  }

  /** A leading term 1 is cancelled by the divisor's. */
  lemma CancelLeading(m: seq<bool>, b: seq<bool>, d: seq<bool>)
    requires |m| > 32 && |b| == 32 && |d| == 33
    ensures AddLeading(AddLeading(m, b), d)[1..] == AddLeading(m[1..], AddBits(b[1..] + [false], d[1..]))
  {
  }

  lemma DropLeading(m: seq<bool>, b: seq<bool>)
    requires |m| > 32 && |b| == 32
    ensures AddLeading(m, b)[1..] == AddLeading(m[1..], AddBits(b[1..] + [false], Zeros(32)))
  {
  }

  lemma RemainderStep(x: seq<bool>)
    requires |x| > 32
    ensures Remainder(x) == if x[0] then Remainder(AddLeading(x, Divisor())[1..]) else Remainder(x[1..])
  {
  }

  lemma PolyTermsOf()
    ensures PolyBits() == Divisor()[1..] && Divisor()[0]
  {
    PolyTerms();
  }

  /** Feeding a message leaves the remainder of the message, shifted by 32 powers, with the register added in front. */
  lemma {:induction false} FeedDivides(c: bv32, m: seq<bool>)
    ensures Remainder(AddLeading(m + Zeros(32), Bits(c, 32))) == Bits(Feed(c, m), 32)
    decreases |m|
  {
    hide Bits, Step, Xor, Low, AddLeading;
    if |m| == 0 {
      FeedNone(c);
      NothingToDivide(c);
      assert m + Zeros(32) == Zeros(32);
    } else {
      DivideOne(c, m);
      FeedDivides(Step(Xor(c, Low(m[0]))), m[1..]);
    }
  }

  lemma NothingToDivide(c: bv32)
    ensures Remainder(AddLeading(Zeros(32), Bits(c, 32))) == Bits(c, 32)
  {
    hide Bits;
    assert AddLeading(Zeros(32), Bits(c, 32)) == Bits(c, 32);
  }

  lemma NotNot(c: bv32)
    ensures Not(Not(c)) == c
  {
  }

  /**
   CRC-32C of a message is the complement of the remainder of the message
   polynomial times x^32, with the complemented seed added to its leading terms.
   */
  lemma ChecksumIsRemainder(data: seq<bv8>, seed: bv32)
    ensures Bits(Not(Crc(data, seed)), 32) == Remainder(AddLeading(MessageBits(data) + Zeros(32), Bits(Not(seed), 32)))
  {
    hide Bits, Register, Remainder, AddLeading, Not;
    NotNot(Register(Not(seed), data));
    RegisterIsFeed(Not(seed), data);
    FeedDivides(Not(seed), MessageBits(data));
  }
}
