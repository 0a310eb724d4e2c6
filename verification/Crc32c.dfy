/**
 CRC-32C: the table-driven checksum of the repository, against division of
 polynomials over GF(2) by the Castagnoli polynomial (section 12.1 of RFC 3720).

 Words are bit vectors.  A register's bit 0 is its highest power of x.
 */
module Crc32c {

  /** The Castagnoli polynomial without its leading term, reflected. */
  const POLY: bv32 := 0x82F63B78

  function Step(c: bv32): bv32 {
    (c >> 1) ^ (POLY & (!(c & 1) + 1))
  }

  function Steps(c: bv32, n: nat): bv32
    decreases n
  {
    if n == 0 then c else Steps(Step(c), n - 1)
  }

  function Wide(b: bv8): bv32 { b as bv32 }

  function Index(c: bv32, b: bv8): bv8 { ((c ^ Wide(b)) & 0xFF) as bv8 }

  /** What the table holds at i. */
  function Entry(i: bv8): bv32 { Steps(Wide(i), 8) }

  /** One byte through the table. */
  function ByteStep(c: bv32, b: bv8): bv32 {
    Entry(Index(c, b)) ^ (c >> 8)
  }

  function Register(c: bv32, data: seq<bv8>): bv32
    decreases |data|
  {
    if |data| == 0 then c else ByteStep(Register(c, data[..|data| - 1]), data[|data| - 1])
  }

  function Not(c: bv32): bv32 { !c }

  function Crc(data: seq<bv8>, seed: bv32): bv32 {
    Not(Register(Not(seed), data))
  }

  // ---------------------------------------------------------------- the code's loops

  lemma IndexInTable(i: bv8)
    ensures 0 <= i as int < 256 && (i as int) as bv8 == i
  {
  }

  /** The static table, filled on first use. */
  class Checksum {
    const table: array<bv32>
    var inited: bool

    ghost predicate Filled(n: int)
      reads this, table
    {
      0 <= n <= table.Length == 256 && forall i :: 0 <= i < n ==> table[i] == Entry(i as bv8)
    }

    ghost predicate Valid()
      reads this, table
    {
      table.Length == 256 && (inited ==> Filled(256))
    }

    constructor ()
      ensures Valid() && !inited && fresh(table)
    {
      table, inited := new bv32[256], false;
    }

    method TableAt(i: bv8) returns (crc: bv32)
      ensures crc == Entry(i)
    {
      crc := Wide(i);
      var k := 0;
      while k < 8
        invariant k <= 8 && Steps(crc, 8 - k) == Entry(i)
      {
        crc := (crc >> 1) ^ (POLY & (!(crc & 1) + 1));
        k := k + 1;
      }
    }

    method FillTable()
      requires Valid()
      modifies table, `inited
      ensures Valid() && inited
    {
      hide Entry;
      var i := 0;
      while i < 256
        invariant i <= 256 && Filled(i)
      {
        table[i] := TableAt(i as bv8);
        i := i + 1;
      }
      inited := true;
    }

    method Compute(data: seq<bv8>, seed: bv32) returns (r: bv32)
      requires Valid()
      modifies table, `inited
      ensures Valid() && inited && r == Crc(data, seed)
    {
      hide Entry, Index, ByteStep, Xor, Half8, Not;
      if !inited {
        FillTable();
      }
      var crc := Not(seed);
      var i := 0;
      while i < |data|
        invariant i <= |data| && crc == Register(Not(seed), data[..i])
        invariant Valid() && inited
      {
        var at := Index(crc, data[i]);
        IndexInTable(at);
        ByteStepIs(crc, data[i]);
        crc := Xor(table[at as int], Half8(crc));
        assert data[..i + 1][..i] == data[..i];
        i := i + 1;
      }
      assert data[..i] == data;
      r := Not(crc);
    }
  }

  // ---------------------------------------------------------------- words

  function Xor(a: bv32, b: bv32): bv32 { a ^ b }
  function Half(c: bv32): bv32 { c >> 1 }
  predicate Odd(c: bv32) { c & 1 == 1 }
  function Pick(p: bool): bv32 { if p then POLY else 0 }
  function Low(p: bool): bv32 { if p then 1 else 0 }

  /** The arithmetic form of the step picks the polynomial by the lowest bit. */
  lemma StepPicks(c: bv32)
    ensures Step(c) == Xor(Half(c), Pick(Odd(c)))
  {
  }

  lemma XorFour(a: bv32, b: bv32, p: bv32, q: bv32, ab: bv32, pq: bv32, ap: bv32, bq: bv32)
    requires ab == a ^ b && pq == p ^ q && ap == a ^ p && bq == b ^ q
    ensures ab ^ pq == ap ^ bq
  {
  }

  lemma XorIs(a: bv32, b: bv32)
    ensures Xor(a, b) == a ^ b
  {
  }

  lemma XorPairs(a: bv32, b: bv32, p: bv32, q: bv32)
    ensures Xor(Xor(a, b), Xor(p, q)) == Xor(Xor(a, p), Xor(b, q))
  {
    hide Xor;
    var ab, pq, ap, bq := Xor(a, b), Xor(p, q), Xor(a, p), Xor(b, q);
    XorIs(a, b);
    XorIs(p, q);
    XorIs(a, p);
    XorIs(b, q);
    XorFour(a, b, p, q, ab, pq, ap, bq);
    XorIs(ab, pq);
    XorIs(ap, bq);
  }

  lemma XorParts(a: bv32, b: bv32)
    ensures Half(Xor(a, b)) == Xor(Half(a), Half(b))
    ensures Odd(Xor(a, b)) == (Odd(a) != Odd(b))
  {
  }

  lemma PickXor(p: bool, q: bool)
    ensures Pick(p != q) == Xor(Pick(p), Pick(q))
  {
  }

  lemma XorSame(a: bv32, b: bv32, c: bv32)
    ensures Xor(a, b) == Xor(a, c) ==> b == c
  {
  }

  // ---------------------------------------------------------------- the step is linear and loses nothing

  lemma StepLinear(a: bv32, b: bv32)
    ensures Step(Xor(a, b)) == Xor(Step(a), Step(b))
  {
    hide *;
    StepPicks(a);
    StepPicks(b);
    StepPicks(Xor(a, b));
    XorParts(a, b);
    PickXor(Odd(a), Odd(b));
    XorPairs(Half(a), Half(b), Pick(Odd(a)), Pick(Odd(b)));
  }

  /** The polynomial has a constant term, so no step forgets the bit it shifts out. */
  lemma StepInjective(a: bv32, b: bv32)
    requires Step(a) == Step(b)
    ensures a == b
  {
    assert Step(a) & 0x80000000 == if a & 1 == 1 then 0x80000000 else 0;
    assert Step(b) & 0x80000000 == if b & 1 == 1 then 0x80000000 else 0;
  }

  lemma {:induction false} StepsLinear(a: bv32, b: bv32, n: nat)
    ensures Steps(Xor(a, b), n) == Xor(Steps(a, n), Steps(b, n))
    decreases n
  {
    hide Step, Xor;
    if n > 0 {
      StepLinear(a, b);
      StepsLinear(Step(a), Step(b), n - 1);
    }
  }

  lemma {:induction false} StepsInjective(a: bv32, b: bv32, n: nat)
    requires Steps(a, n) == Steps(b, n)
    ensures a == b
    decreases n
  {
    hide Step;
    if n > 0 {
      StepsInjective(Step(a), Step(b), n - 1);
      StepInjective(a, b);
    }
  }

  // ---------------------------------------------------------------- the table does eight steps at once

  function LowByte(c: bv32): bv32 { c & 0xFF }
  function HighBytes(c: bv32): bv32 { c & 0xFFFFFF00 }
  function Half8(c: bv32): bv32 { c >> 8 }
  function Half4(c: bv32): bv32 { c >> 4 }

  lemma SplitWord(x: bv32)
    ensures x == Xor(LowByte(x), HighBytes(x)) && LowByte(HighBytes(x)) == 0
  {
  }

  lemma WideFits(b: bv8)
    ensures Wide(b) <= 0xFF
  {
  }

  lemma HighOfXor(c: bv32, w: bv32, x: bv32)
    requires w <= 0xFF && x == Xor(c, w)
    ensures Half8(HighBytes(x)) == Half8(c)
  {
  }

  lemma IndexIs(c: bv32, b: bv8)
    ensures Wide(Index(c, b)) == LowByte(Xor(c, Wide(b)))
  {
  }

  lemma EntryIs(i: bv8)
    ensures Entry(i) == Steps(Wide(i), 8)
  {
  }

  lemma ByteStepIs(c: bv32, b: bv8)
    ensures ByteStep(c, b) == Xor(Entry(Index(c, b)), Half8(c))
  {
  }

  /** One byte through the table is eight steps of the register with the byte added. */
  lemma TableIsEightSteps(c: bv32, b: bv8)
    ensures ByteStep(c, b) == Steps(Xor(c, Wide(b)), 8)
  {
    hide *;
    var x := Xor(c, Wide(b));
    SplitWord(x);
    WideFits(b);
    HighOfXor(c, Wide(b), x);
    IndexIs(c, b);
    EntryIs(Index(c, b));
    ByteStepIs(c, b);
    StepsLinear(LowByte(x), HighBytes(x), 8);
    HighEight(HighBytes(x));
  }

  function Halves(c: bv32, n: nat): bv32
    decreases n
  {
    if n == 0 then c else Halves(Half(c), n - 1)
  }

  /** The lowest n bits are zero. */
  predicate LowZero(c: bv32, n: nat)
    decreases n
  {
    n == 0 || (!Odd(c) && LowZero(Half(c), n - 1))
  }

  lemma EvenStep(c: bv32)
    requires !Odd(c)
    ensures Step(c) == Half(c)
  {
  }

  /** While the lowest bit is zero, a step only shifts. */
  lemma {:induction false} EvenSteps(c: bv32, n: nat)
    requires LowZero(c, n)
    ensures Steps(c, n) == Halves(c, n)
    decreases n
  {
    hide Step, Half, Odd;
    if n > 0 {
      EvenStep(c);
      EvenSteps(Half(c), n - 1);
    }
  }

  lemma Chain(c: bv32, a: bv32, b: bv32, d: bv32, e: bv32)
    requires a == Half(c) && b == Half(a) && d == Half(b) && e == Half(d)
    ensures e == Half4(c)
    ensures c & 0xF == 0 ==> !Odd(c) && !Odd(a) && !Odd(b) && !Odd(d)
  {
  }

  lemma HalvesByFour(c: bv32, n: nat)
    requires n >= 4
    ensures Halves(c, n) == Halves(Half4(c), n - 4)
    ensures c & 0xF == 0 ==> LowZero(c, n) == LowZero(Half4(c), n - 4)
  {
    hide Half, Odd, Half4;
    var a := Half(c);
    var b := Half(a);
    var d := Half(b);
    var e := Half(d);
    Chain(c, a, b, d, e);
    assert Halves(c, n) == Halves(a, n - 1) == Halves(b, n - 2);
    assert Halves(b, n - 2) == Halves(d, n - 3) == Halves(e, n - 4);
    if c & 0xF == 0 {
      assert LowZero(c, n) == LowZero(a, n - 1) == LowZero(b, n - 2);
      assert LowZero(b, n - 2) == LowZero(d, n - 3) == LowZero(e, n - 4);
    }
  }

  lemma LowByteParts(c: bv32)
    requires LowByte(c) == 0
    ensures c & 0xF == 0 && Half4(c) & 0xF == 0 && Half4(Half4(c)) == Half8(c)
  {
  }

  lemma HighEight(c: bv32)
    requires LowByte(c) == 0
    ensures Steps(c, 8) == Half8(c)
  {
    hide *;
    LowByteParts(c);
    HalvesByFour(c, 8);
    HalvesByFour(Half4(c), 4);
    NoHalves(Half4(Half4(c)));
    EvenSteps(c, 8);
  }

  lemma NoHalves(c: bv32)
    ensures Halves(c, 0) == c && LowZero(c, 0)
  {
  }
}
