/**
 Eight-bit scalar quantization over the reals: how far a stored vector can drift,
 and the distance kernels that work on codes without decoding them first.
 */
module Sq8 {
  import opened Prelude

  const FLAT := 0.000000001

  // ---------------------------------------------------------------- storing and reading a coordinate

  /** The quantization step; a vector whose coordinates are all but equal has none. */
  function Unit(lo: real, hi: real): (s: real)
    ensures lo <= hi ==> s >= 0.0
  {
    if hi - lo <= FLAT then 0.0 else (hi - lo) / 255.0
  }

  function Scale(lo: real, hi: real): real {
    if hi - lo <= FLAT then 0.0 else 255.0 / (hi - lo)
  }

  function Times(a: real, b: real): real { a * b }

  function Clamp(f: real): (r: real)
    ensures 0.0 <= r <= 255.0
  {
    if f < 0.0 then 0.0 else if f > 255.0 then 255.0 else f
  }

  /** The code of x: scaled, rounded by adding a half, clamped, truncated. */
  function Encode(x: real, lo: real, hi: real): (q: nat)
    ensures q <= 255
  {
    Clamp(Times(x - lo, Scale(lo, hi)) + 0.5).Floor
  }

  function Coordinate(q: nat, lo: real, unit: real): real {
    lo + Times(q as real, unit)
  }

  function Decode(q: nat, lo: real, hi: real): real {
    Coordinate(q, lo, Unit(lo, hi))
  }

  function Abs(x: real): real { if x < 0.0 then -x else x }

  lemma Reciprocal(d: real)
    requires d > 0.0
    ensures 255.0 / d > 0.0 && d / 255.0 > 0.0
    ensures Times(d, 255.0 / d) == 255.0 && Times(255.0, d / 255.0) == d && Times(255.0 / d, d / 255.0) == 1.0
  {
  }

  /** Scale and step undo each other. */
  lemma StepFacts(lo: real, hi: real)
    requires hi - lo > FLAT
    ensures Unit(lo, hi) > 0.0 && Scale(lo, hi) > 0.0 && Times(Scale(lo, hi), Unit(lo, hi)) == 1.0
    ensures Times(hi - lo, Scale(lo, hi)) == 255.0 && Times(255.0, Unit(lo, hi)) == hi - lo
  {
    hide Times;
    Reciprocal(hi - lo);
  }

  lemma FlatUnit(lo: real, hi: real)
    requires hi - lo <= FLAT
    ensures Unit(lo, hi) == 0.0 && Scale(lo, hi) == 0.0
  {
  }

  lemma TimesZero(a: real)
    ensures Times(a, 0.0) == 0.0 && Times(0.0, a) == 0.0
  {
  }

  lemma Unscale(x: real, a: real, b: real)
    requires Times(a, b) == 1.0
    ensures Times(Times(x, a), b) == x && Times(Times(x, b), a) == x
  {
    assert x * a * b == x * (a * b);
    assert x * b * a == x * (a * b);
  }

  lemma TimesMinus(a: real, b: real, u: real)
    ensures Times(a - b, u) == Times(a, u) - Times(b, u)
  {
  }

  lemma TimesSign(a: real, u: real)
    requires a >= 0.0 && u >= 0.0
    ensures Times(a, u) >= 0.0
  {
  }

  lemma TimesMonotone(a: real, b: real, u: real)
    requires a <= b && u >= 0.0
    ensures Times(a, u) <= Times(b, u)
  {
    hide Times;
    TimesMinus(b, a, u);
    TimesSign(b - a, u);
  }

  lemma TimesHalf(u: real)
    ensures Times(0.5, u) == u / 2.0 && Times(-0.5, u) == -(u / 2.0)
  {
  }

  lemma InScale(x: real, lo: real, hi: real)
    requires lo <= x <= hi && hi - lo > FLAT
    ensures 0.0 <= Times(x - lo, Scale(lo, hi)) <= 255.0
  {
    hide *;
    StepFacts(lo, hi);
    TimesSign(x - lo, Scale(lo, hi));
    TimesMonotone(x - lo, hi - lo, Scale(lo, hi));
  }

  /** In units of the step, a code is within a half of what it stands for. */
  lemma CodeNear(f: real)
    requires 0.0 <= f <= 255.0
    ensures -0.5 <= Clamp(f + 0.5).Floor as real - f <= 0.5
  {
  }

  lemma HalfStep(q: real, f: real, u: real)
    requires -0.5 <= q - f <= 0.5 && u > 0.0
    ensures -(u / 2.0) <= Times(q, u) - Times(f, u) <= u / 2.0
  {
    hide *;
    TimesMonotone(q - f, 0.5, u);
    TimesMonotone(-0.5, q - f, u);
    TimesHalf(u);
    TimesMinus(q, f, u);
  }

  /** A stored coordinate comes back within half a step; a flat vector's within the flatness bound. */
  lemma DecodeError(x: real, lo: real, hi: real)
    requires lo <= x <= hi
    ensures Abs(Decode(Encode(x, lo, hi), lo, hi) - x) <= if hi - lo <= FLAT then FLAT else Unit(lo, hi) / 2.0
  {
    hide Clamp, Unit, Scale, Times;
    var q := Encode(x, lo, hi) as real;
    if hi - lo > FLAT {
      var u, f := Unit(lo, hi), Times(x - lo, Scale(lo, hi));
      InScale(x, lo, hi);
      CodeNear(f);
      StepFacts(lo, hi);
      Unscale(x - lo, Scale(lo, hi), u);
      HalfStep(q, f, u);
    } else {
      FlatUnit(lo, hi);
      TimesZero(q);
    }
  }

  lemma CodeOf(q: nat)
    requires q <= 255
    ensures Clamp(q as real + 0.5).Floor == q
  {
  }

  /** Reading a code and storing it again gives the code: a stored vector is a fixed point. */
  lemma CodeReadsBack(q: nat, lo: real, hi: real)
    requires q <= 255 && hi - lo > FLAT
    ensures Encode(Decode(q, lo, hi), lo, hi) == q
  {
    hide Clamp, Unit, Scale, Times;
    StepFacts(lo, hi);
    Unscale(q as real, Scale(lo, hi), Unit(lo, hi));
    assert Decode(q, lo, hi) - lo == Times(q as real, Unit(lo, hi));
    CodeOf(q);
  }

  /** The ends of the range are kept exactly. */
  lemma EndsAreExact(lo: real, hi: real)
    requires hi - lo > FLAT
    ensures Decode(Encode(lo, lo, hi), lo, hi) == lo && Decode(Encode(hi, lo, hi), lo, hi) == hi
  {
    hide Clamp, Unit, Scale, Times;
    StepFacts(lo, hi);
    CodeOf(0);
    CodeOf(255);
    assert lo - lo == 0.0;
    TimesZero(Scale(lo, hi));
    TimesZero(Unit(lo, hi));
  }

  lemma ClampMonotone(f: real, g: real)
    requires f <= g
    ensures Clamp(f).Floor <= Clamp(g).Floor
  {
  }

  /** Quantization keeps the order of coordinates. */
  lemma EncodeKeepsOrder(x: real, y: real, lo: real, hi: real)
    requires x <= y
    ensures Encode(x, lo, hi) <= Encode(y, lo, hi)
  {
    hide Clamp, Unit, Scale, Times;
    var s := Scale(lo, hi);
    if hi - lo > FLAT {
      StepFacts(lo, hi);
    } else {
      FlatUnit(lo, hi);
    }
    TimesMonotone(x - lo, y - lo, s);
    ClampMonotone(Times(x - lo, s) + 0.5, Times(y - lo, s) + 0.5);
  }

  // ---------------------------------------------------------------- whole vectors

  ghost predicate Bounds(v: seq<real>, lo: real, hi: real) {
    |v| > 0 && lo in v && hi in v && forall x :: x in v ==> lo <= x <= hi
  }

  function EncodeAll(v: seq<real>, lo: real, hi: real): (c: seq<nat>)
    ensures |c| == |v| && forall i :: 0 <= i < |v| ==> c[i] == Encode(v[i], lo, hi)
  {
    seq(|v|, i requires 0 <= i < |v| => Encode(v[i], lo, hi))
  }

  function DecodeAll(c: seq<nat>, lo: real, unit: real): (v: seq<real>)
    ensures |v| == |c| && forall i :: 0 <= i < |c| ==> v[i] == Coordinate(c[i], lo, unit)
  {
    seq(|c|, i requires 0 <= i < |c| => Coordinate(c[i], lo, unit))
  }

  function Sum(q: seq<real>, n: nat): real
    requires n <= |q|
  {
    if n == 0 then 0.0 else Sum(q, n - 1) + q[n - 1]
  }

  function Dot(a: seq<real>, b: seq<real>, n: nat): real
    requires n <= |a| && n <= |b|
  {
    if n == 0 then 0.0 else Dot(a, b, n - 1) + a[n - 1] * b[n - 1]
  }

  function Square(x: real): real { x * x }

  function L2Sq(a: seq<real>, b: seq<real>, n: nat): real
    requires n <= |a| && n <= |b|
  {
    if n == 0 then 0.0 else L2Sq(a, b, n - 1) + Square(a[n - 1] - b[n - 1])
  }

  lemma SquareBound(d: real, e: real)
    requires -e <= d <= e
    ensures Square(d) <= Square(e)
  {
    if d >= 0.0 {
      assert d * d <= d * e <= e * e;
    } else {
      assert (-d) * (-d) <= (-d) * e <= e * e;
    }
  }

  lemma OneMore(n: nat, e: real)
    requires n > 0
    ensures Times(n as real, e) == Times((n - 1) as real, e) + e
  {
    assert n as real == (n - 1) as real + 1.0;
  }

  /** A stored vector moves by at most half a step in each coordinate: a bound on its squared distance from itself. */
  lemma {:induction false} DriftBound(v: seq<real>, w: seq<real>, lo: real, hi: real, n: nat)
    requires Bounds(v, lo, hi) && hi - lo > FLAT && n <= |v|
    requires w == DecodeAll(EncodeAll(v, lo, hi), lo, Unit(lo, hi))
    ensures L2Sq(v, w, n) <= Times(n as real, Square(Unit(lo, hi) / 2.0))
    decreases n
  {
    hide Unit, Encode, Square, Times, DecodeAll;
    var e := Square(Unit(lo, hi) / 2.0);
    if n > 0 {
      DriftBound(v, w, lo, hi, n - 1);
      DriftOne(v, w, lo, hi, n - 1);
      OneMore(n, e);
    } else {
      TimesZero(e);
    }
  }

  lemma DriftOne(v: seq<real>, w: seq<real>, lo: real, hi: real, i: nat)
    requires Bounds(v, lo, hi) && hi - lo > FLAT && i < |v|
    requires w == DecodeAll(EncodeAll(v, lo, hi), lo, Unit(lo, hi))
    ensures Square(v[i] - w[i]) <= Square(Unit(lo, hi) / 2.0)
  {
    hide Unit, Encode, DecodeAll, Square;
    assert v[i] in v;
    DecodeError(v[i], lo, hi);
    assert w[i] == Decode(Encode(v[i], lo, hi), lo, hi);
    SquareBound(v[i] - w[i], Unit(lo, hi) / 2.0);
  }

  // ---------------------------------------------------------------- the code's loops

  method Range(v: seq<real>) returns (lo: real, hi: real)
    requires |v| > 0
    ensures Bounds(v, lo, hi)
  {
    lo, hi := v[0], v[0];
    var i := 1;
    while i < |v|
      invariant 1 <= i <= |v| && Bounds(v[..i], lo, hi)
    {
      if v[i] < lo {
        lo := v[i];
      }
      if v[i] > hi {
        hi := v[i];
      }
      assert v[..i + 1] == v[..i] + [v[i]];
      i := i + 1;
    }
    assert v[..i] == v;
  }

  /** The dot product of a query with codes, decoded once at the end. */
  method DotSq8(q: seq<real>, c: seq<nat>, lo: real, unit: real, qSum: real) returns (r: real)
    requires |c| >= |q|
    ensures r == Dot(q, DecodeAll(c, lo, unit), |q|) + (qSum - Sum(q, |q|)) * lo
    ensures r == Dot(q, DecodeAll(c, lo, unit), |q|) <==> qSum == Sum(q, |q|) || lo == 0.0
  {
    hide Split, Sum, Dot;
    var sum := 0.0;
    var i := 0;
    ghost var w := DecodeAll(c, lo, unit);
    NothingYet(q, w, unit, lo);
    while i < |q|
      invariant i <= |q| && Split(sum, unit, Sum(q, i), lo) == Dot(q, w, i)
    {
      DotStep(q, c, w, i, sum, lo, unit);
      sum := sum + q[i] * c[i] as real;
      i := i + 1;
    }
    r := sum * unit + qSum * lo;
    Collect(sum, unit, Sum(q, |q|), lo, qSum);
    ExactIff(Dot(q, w, |q|), Sum(q, |q|), qSum, lo);
  }

  lemma DotStep(q: seq<real>, c: seq<nat>, w: seq<real>, i: nat, sum: real, lo: real, unit: real)
    requires i < |q| <= |c| && w == DecodeAll(c, lo, unit) && Split(sum, unit, Sum(q, i), lo) == Dot(q, w, i)
    ensures Split(sum + q[i] * c[i] as real, unit, Sum(q, i + 1), lo) == Dot(q, w, i + 1)
  {
    hide Split;
    Distribute(sum, q[i], c[i] as real, unit, Sum(q, i), lo);
    assert w[i] == Coordinate(c[i], lo, unit);
  }

  function Split(s: real, unit: real, t: real, lo: real): real {
    s * unit + t * lo
  }

  lemma NothingYet(q: seq<real>, w: seq<real>, unit: real, lo: real)
    ensures Split(0.0, unit, Sum(q, 0), lo) == Dot(q, w, 0)
  {
  }

  lemma Collect(s: real, unit: real, t: real, lo: real, qSum: real)
    ensures s * unit + qSum * lo == Split(s, unit, t, lo) + (qSum - t) * lo
  {
    assert (qSum - t) * lo == qSum * lo - t * lo;
  }

  lemma Distribute(s: real, x: real, c: real, unit: real, t: real, lo: real)
    ensures Split(s + x * c, unit, t + x, lo) == Split(s, unit, t, lo) + x * (lo + c * unit)
  {
  }

  /** The kernel is decode-then-multiply exactly when the caller's sum is the query's sum, or the minimum is zero. */
  lemma ExactIff(d: real, sum: real, qSum: real, lo: real)
    ensures d + (qSum - sum) * lo == d <==> qSum == sum || lo == 0.0
  {
    if (qSum - sum) * lo == 0.0 && lo != 0.0 {
      assert (qSum - sum) * lo / lo == qSum - sum;
    }
  }

  const CHUNK := 32

  lemma {:induction false} L2SqSlice(a: seq<real>, b: seq<real>, i: nat, c: seq<real>, k: nat)
    requires k <= |c| && i + k <= |a| && i + k <= |b|
    requires forall j :: 0 <= j < k ==> c[j] == b[i + j]
    ensures L2Sq(a, b, i + k) == L2Sq(a, b, i) + L2Sq(a[i..], c, k)
    decreases k
  {
    if k > 0 {
      L2SqSlice(a, b, i, c, k - 1);
    }
  }

  method FillChunk(buf: array<real>, data: seq<nat>, i: nat, k: nat, lo: real, unit: real)
    requires k <= buf.Length && i + k <= |data|
    modifies buf
    ensures forall j :: 0 <= j < k ==> buf[j] == Coordinate(data[i + j], lo, unit)
  {
    hide Coordinate;
    var j := 0;
    while j < k
      invariant j <= k && forall m :: 0 <= m < j ==> buf[m] == Coordinate(data[i + m], lo, unit)
    {
      buf[j] := Coordinate(data[i + j], lo, unit);
      j := j + 1;
    }
  }

  /** Squared distance to codes, decoding 32 coordinates at a time. */
  method L2SqSq8(query: seq<real>, data: seq<nat>, lo: real, hi: real) returns (sum: real)
    ensures |data| != |query| ==> sum == 0.0
    ensures |data| == |query| ==> sum == L2Sq(query, DecodeAll(data, lo, Unit(lo, hi)), |query|)
  {
    hide L2Sq, Unit;
    var n := |query|;
    sum := 0.0;
    NothingApart(query, []);
    if n == 0 || |data| != n {
      if |data| == n {
        NothingApart(query, DecodeAll(data, lo, Unit(lo, hi)));
      }
      return;
    }
    var unit := Unit(lo, hi);
    ghost var w := DecodeAll(data, lo, unit);
    NothingApart(query, w);
    var i := 0;
    var buf := new real[CHUNK];
    while i + CHUNK <= n
      invariant i <= n && sum == L2Sq(query, w, i)
    {
      FillChunk(buf, data, i, CHUNK, lo, unit);
      L2SqSlice(query, w, i, buf[..], CHUNK);
      sum := sum + L2Sq(query[i..], buf[..], CHUNK);
      i := i + CHUNK;
    }
    if i < n {
      FillChunk(buf, data, i, n - i, lo, unit);
      L2SqSlice(query, w, i, buf[..], n - i);
      sum := sum + L2Sq(query[i..], buf[..], n - i);
    }
  }

  lemma NothingApart(a: seq<real>, b: seq<real>)
    ensures L2Sq(a, b, 0) == 0.0
  {
  }

  // ---------------------------------------------------------------- the memtable's variant truncates

  function EncodeDown(x: real, lo: real, hi: real): (q: nat)
    ensures q <= 255
  {
    if hi - lo > 0.0 then Clamp((x - lo) / (hi - lo) * 255.0).Floor else 0
  }

  function DecodeDown(q: nat, lo: real, hi: real): real {
    if hi - lo > 0.0 then lo + Times(q as real, 1.0 / (255.0 / (hi - lo))) else lo
  }

  /** Without the added half a coordinate only moves down, by less than a whole step. */
  lemma TruncatedError(x: real, lo: real, hi: real)
    requires lo <= x <= hi
    ensures var e := x - DecodeDown(EncodeDown(x, lo, hi), lo, hi);
            if hi > lo then 0.0 <= e < (hi - lo) / 255.0 else e == 0.0
  {
    if hi > lo {
      var d := hi - lo;
      var f := (x - lo) / d * 255.0;
      var u := d / 255.0;
      assert 1.0 / (255.0 / d) == u;
      assert Times(f, u) == x - lo;
      hide Times, Clamp;
      Ratio(x - lo, d);
      var q := EncodeDown(x, lo, hi) as real;
      FloorNear(f);
      Stretch(q, f, u, x - lo);
    }
  }

  lemma FloorNear(f: real)
    requires 0.0 <= f <= 255.0
    ensures Clamp(f).Floor as real <= f < Clamp(f).Floor as real + 1.0
  {
  }

  lemma TimesBelow(e: real, u: real)
    requires e < 1.0 && u > 0.0
    ensures Times(e, u) < u
  {
    assert (1.0 - e) * u > 0.0;
  }

  lemma Stretch(q: real, f: real, u: real, y: real)
    requires q <= f < q + 1.0 && u > 0.0 && Times(f, u) == y
    ensures 0.0 <= y - Times(q, u) < u
  {
    hide *;
    TimesSign(f - q, u);
    TimesBelow(f - q, u);
    TimesMinus(f, q, u);
  }

  lemma Ratio(a: real, d: real)
    requires 0.0 <= a <= d && d > 0.0
    ensures 0.0 <= a / d * 255.0 <= 255.0
  {
    assert 0.0 <= a / d <= 1.0;
  }
}
