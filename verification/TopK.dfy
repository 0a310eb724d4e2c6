/**
 Top-k collection of search hits behind the C interface: a bounded priority
 queue whose top is the hit to give up next.

 Two orders meet here.  The queue keeps at its top the lowest score and, among
 equal scores, the LOWEST id; a hit is better when its score is higher or, among
 equal scores, its id is LOWER.  The queue therefore gives up the better of two
 tied hits.  The scores it keeps are right whatever the order of the pushes; when
 the ids are is the subject of TopKTies.

 Scores are reals: the model has no NaN.
 */
module TopK {
  import opened Prelude

  datatype Hit = Hit(id: U64, score: real)

  /** a is given up before b. */
  predicate Before(a: Hit, b: Hit) {
    a.score < b.score || (a.score == b.score && a.id < b.id)
  }

  /** IsBetterHit: a higher score or, on a tie, a lower id. */
  predicate IsBetter(a: Hit, b: Hit) {
    a.score > b.score || (a.score == b.score && a.id < b.id)
  }

  // ---------------------------------------------------------------- the queue, top first

  ghost predicate Queue(q: seq<Hit>) {
    forall i, j :: 0 <= i < j < |q| ==> !Before(q[j], q[i])
  }

  function Place(q: seq<Hit>, h: Hit): (i: nat)
    ensures i <= |q|
    ensures forall j :: 0 <= j < i ==> Before(q[j], h)
    ensures i < |q| ==> !Before(q[i], h)
  {
    if |q| == 0 || !Before(q[0], h) then 0 else 1 + Place(q[1..], h)
  }

  function Insert(q: seq<Hit>, h: Hit): (r: seq<Hit>)
    ensures |r| == |q| + 1
  {
    var i := Place(q, h);
    q[..i] + [h] + q[i..]
  }

  function Push(k: nat, q: seq<Hit>, h: Hit): seq<Hit> {
    if k == 0 then q
    else if |q| < k then Insert(q, h)
    else if IsBetter(h, q[0]) then Insert(q[1..], h)
    else q
  }

  function Collect(k: nat, hits: seq<Hit>): seq<Hit>
    decreases |hits|
  {
    if |hits| == 0 then [] else Push(k, Collect(k, hits[..|hits| - 1]), hits[|hits| - 1])
  }

  // ---------------------------------------------------------------- counting

  function Count(s: seq<Hit>, f: Hit -> bool): (n: nat)
    ensures n <= |s|
  {
    if |s| == 0 then 0 else (if f(s[0]) then 1 else 0) + Count(s[1..], f)
  }

  function Above(t: real): Hit -> bool { (h: Hit) => h.score > t }
  function AtLeast(t: real): Hit -> bool { (h: Hit) => h.score >= t }
  function Beating(x: Hit): Hit -> bool { (h: Hit) => IsBetter(h, x) }

  lemma {:induction false} CountConcat(a: seq<Hit>, b: seq<Hit>, f: Hit -> bool)
    ensures Count(a + b, f) == Count(a, f) + Count(b, f)
    decreases |a|
  {
    if |a| == 0 {
      assert a + b == b;
    } else {
      assert (a + b)[1..] == a[1..] + b;
      CountConcat(a[1..], b, f);
    }
  }

  lemma CountOne(h: Hit, f: Hit -> bool)
    ensures Count([h], f) == if f(h) then 1 else 0
  {
    assert Count([], f) == 0;
  }

  lemma CountSnoc(a: seq<Hit>, h: Hit, f: Hit -> bool)
    ensures Count(a + [h], f) == Count(a, f) + if f(h) then 1 else 0
  {
    hide Count;
    CountConcat(a, [h], f);
    CountOne(h, f);
  }

  lemma CountInsert(q: seq<Hit>, h: Hit, f: Hit -> bool)
    ensures Count(Insert(q, h), f) == Count(q, f) + if f(h) then 1 else 0
  {
    hide Count, Place;
    var i := Place(q, h);
    CountSnoc(q[..i], h, f);
    CountConcat(q[..i] + [h], q[i..], f);
    CountConcat(q[..i], q[i..], f);
    assert q[..i] + q[i..] == q;
  }

  lemma {:induction false} CountSame(a: seq<Hit>, f: Hit -> bool, g: Hit -> bool)
    requires forall h :: h in a ==> f(h) == g(h)
    ensures Count(a, f) == Count(a, g)
    decreases |a|
  {
    if |a| > 0 {
      assert a[0] in a;
      forall h | h in a[1..] ensures f(h) == g(h) {
        assert h in a;
      }
      CountSame(a[1..], f, g);
    }
  }

  lemma {:induction false} CountMore(a: seq<Hit>, f: Hit -> bool, g: Hit -> bool)
    requires forall h :: h in a && f(h) ==> g(h)
    ensures Count(a, f) <= Count(a, g)
    decreases |a|
  {
    if |a| > 0 {
      assert a[0] in a;
      forall h | h in a[1..] && f(h) ensures g(h) {
        assert h in a;
      }
      CountMore(a[1..], f, g);
    }
  }

  lemma CountAll(a: seq<Hit>, f: Hit -> bool)
    requires forall h :: h in a ==> f(h)
    ensures Count(a, f) == |a|
  {
    if |a| > 0 {
      assert a[0] in a;
      CountAll(a[1..], f);
    }
  }

  /** Counting does not see the order. */
  lemma {:induction false} CountOrderFree(a: seq<Hit>, b: seq<Hit>, f: Hit -> bool)
    requires multiset(a) == multiset(b)
    ensures Count(a, f) == Count(b, f)
    decreases |a|
  {
    if |a| == 0 {
      assert |multiset(b)| == 0;
    } else {
      var h := a[0];
      assert h in multiset(b);
      var i :| 0 <= i < |b| && b[i] == h;
      var c := b[..i] + b[i + 1..];
      assert b == b[..i] + ([h] + b[i + 1..]);
      assert a == [h] + a[1..];
      assert multiset(a[1..]) == multiset(a) - multiset{h};
      assert multiset(c) == multiset(b) - multiset{h};
      CountOrderFree(a[1..], c, f);
      CountAround(b[..i], h, b[i + 1..], f);
    }
  }

  lemma CountAround(a: seq<Hit>, h: Hit, b: seq<Hit>, f: Hit -> bool)
    ensures Count(a + ([h] + b), f) == Count(a + b, f) + if f(h) then 1 else 0
  {
    hide Count;
    CountConcat(a, [h] + b, f);
    CountConcat([h], b, f);
    CountOne(h, f);
    CountConcat(a, b, f);
  }

  // ---------------------------------------------------------------- the queue stays a queue

  lemma InsertKeepsQueue(q: seq<Hit>, h: Hit)
    requires Queue(q)
    ensures Queue(Insert(q, h))
  {
    var p := Place(q, h);
    var r := Insert(q, h);
    forall i, j | 0 <= i < j < |r| ensures !Before(r[j], r[i]) {
      var a := if i < p then i else i - 1;
      var b := if j < p then j else j - 1;
      assert i < p ==> r[i] == q[i];
      assert i > p ==> r[i] == q[i - 1];
      assert j < p ==> r[j] == q[j];
      assert j > p ==> r[j] == q[j - 1] && (j - 1 == p || !Before(q[j - 1], q[p]));
      assert i != p && j != p ==> !Before(q[b], q[a]);
    }
  }

  lemma InsertCounts(q: seq<Hit>, h: Hit)
    ensures multiset(Insert(q, h)) == multiset(q) + multiset{h}
  {
    var i := Place(q, h);
    hide Place;
    assert q == q[..i] + q[i..];
  }

  /** The queue holds min(k, n) of the hits pushed. */
  lemma {:induction false} CollectHolds(k: nat, hits: seq<Hit>)
    ensures Queue(Collect(k, hits)) && |Collect(k, hits)| == Min(k, |hits|)
    ensures multiset(Collect(k, hits)) <= multiset(hits)
    decreases |hits|
  {
    hide Insert, IsBetter, Before;
    if |hits| > 0 {
      var n := |hits| - 1;
      var q := Collect(k, hits[..n]);
      var h := hits[n];
      CollectHolds(k, hits[..n]);
      assert hits == hits[..n] + [h];
      InsertKeepsQueue(q, h);
      InsertCounts(q, h);
      if |q| > 0 {
        assert q == [q[0]] + q[1..];
        InsertKeepsQueue(q[1..], h);
        InsertCounts(q[1..], h);
      }
    }
  }

  /** The top of a queue has the lowest score. */
  lemma TopIsLowest(q: seq<Hit>, h: Hit)
    requires Queue(q) && h in q
    ensures q[0].score <= h.score
    ensures h != q[0] ==> Before(q[0], h)
  {
    var i :| 0 <= i < |q| && q[i] == h;
    assert i > 0 ==> !Before(q[i], q[0]);
  }

  // ---------------------------------------------------------------- scores

  /** f picks a hit whenever it picks one with a lower score. */
  ghost predicate Upward(f: Hit -> bool) {
    forall a: Hit, b: Hit :: f(a) && a.score <= b.score ==> f(b)
  }

  lemma PushCounts(k: nat, q: seq<Hit>, h: Hit, f: Hit -> bool, n: nat, size: nat)
    requires Upward(f) && Queue(q)
    requires Count(q, f) == Min(k, n) && |q| == Min(k, size) && n <= size
    ensures Count(Push(k, q, h), f) == Min(k, n + if f(h) then 1 else 0)
  {
    hide Insert, Upward, Queue;
    if k == 0 {
    } else if |q| < k {
      CountInsert(q, h, f);
    } else {
      FullCounts(k, q, h, f, n);
    }
  }

  lemma FullCounts(k: nat, q: seq<Hit>, h: Hit, f: Hit -> bool, n: nat)
    requires Upward(f) && Queue(q) && |q| == k > 0 && Count(q, f) == Min(k, n)
    ensures Count(Push(k, q, h), f) == Min(k, n + if f(h) then 1 else 0)
  {
    hide Insert, Before;
    CountInsert(q[1..], h, f);
    assert f(q[0]) && q[0].score <= h.score ==> f(h);
    assert f(h) && h.score <= q[0].score ==> f(q[0]);
    if f(q[0]) {
      forall x | x in q ensures f(x) {
        TopIsLowest(q, x);
      }
      CountAll(q, f);
    }
  }

  /**
   Whatever the order of the pushes, and wherever the scores are cut, the queue
   holds as many hits above the cut as the whole input has, up to k: it holds
   the k best scores.
   */
  lemma {:induction false} KeepsBestScores(k: nat, hits: seq<Hit>, f: Hit -> bool)
    requires Upward(f)
    ensures Count(Collect(k, hits), f) == Min(k, Count(hits, f))
    decreases |hits|
  {
    hide Upward, Push, Queue;
    if |hits| > 0 {
      var n := |hits| - 1;
      KeepsBestScores(k, hits[..n], f);
      CollectHolds(k, hits[..n]);
      assert hits == hits[..n] + [hits[n]];
      CountSnoc(hits[..n], hits[n], f);
      PushCounts(k, Collect(k, hits[..n]), hits[n], f, Count(hits[..n], f), n);
    } else {
      assert Count(hits, f) == 0 && Count([], f) == 0;
    }
  }

  lemma CutsAreUpward(t: real)
    ensures Upward(Above(t)) && Upward(AtLeast(t))
  {
  }

  /** Two orders of the same hits leave the same scores. */
  lemma ScoresOrderFree(k: nat, a: seq<Hit>, b: seq<Hit>, t: real)
    requires multiset(a) == multiset(b)
    ensures Count(Collect(k, a), AtLeast(t)) == Count(Collect(k, b), AtLeast(t))
  {
    hide Collect, Count, AtLeast;
    CutsAreUpward(t);
    KeepsBestScores(k, a, AtLeast(t));
    KeepsBestScores(k, b, AtLeast(t));
    CountOrderFree(a, b, AtLeast(t));
  }

  // ---------------------------------------------------------------- ids

  /** A hit whose whole score class fits above the cut is kept. */
  lemma {:induction false} RoomMeansKept(k: nat, hits: seq<Hit>, x: Hit)
    requires Count(hits, AtLeast(x.score)) <= k
    ensures multiset(Collect(k, hits))[x] == multiset(hits)[x]
    decreases |hits|
  {
    hide Count, Push, AtLeast;
    if |hits| > 0 {
      var n := |hits| - 1;
      var q := Collect(k, hits[..n]);
      CountSnoc(hits[..n], hits[n], AtLeast(x.score));
      assert hits == hits[..n] + [hits[n]];
      RoomMeansKept(k, hits[..n], x);
      CollectHolds(k, hits[..n]);
      CutsAreUpward(x.score);
      KeepsBestScores(k, hits[..n], AtLeast(x.score));
      PushKeeps(k, q, hits[n], x, Count(hits[..n], AtLeast(x.score)));
    }
  }

  lemma PushKeeps(k: nat, q: seq<Hit>, h: Hit, x: Hit, n: nat)
    requires Queue(q) && |q| <= k && Count(q, AtLeast(x.score)) == Min(k, n)
    requires n + (if AtLeast(x.score)(h) then 1 else 0) <= k
    ensures multiset(Push(k, q, h))[x] == multiset(q)[x] + multiset{h}[x]
  {
    hide Insert, Count, Queue;
    InsertCounts(q, h);
    if |q| == k && k > 0 {
      assert q == [q[0]] + q[1..];
      InsertCounts(q[1..], h);
      if q[0].score >= x.score {
        forall y | y in q ensures AtLeast(x.score)(y) {
          TopIsLowest(q, y);
        }
        CountAll(q, AtLeast(x.score));
      }
    }
  }

  // ---------------------------------------------------------------- the sink as an object

  class Sink {
    const k: nat
    var heap: seq<Hit>
    ghost var pushed: seq<Hit>

    ghost predicate Valid()
      reads this
    {
      heap == Collect(k, pushed) && Queue(heap) && |heap| == Min(k, |pushed|)
    }

    constructor (k: nat)
      ensures Valid() && this.k == k && pushed == []
    {
      this.k, heap, pushed := k, [], [];
    }

    method PushHit(h: Hit)
      requires Valid()
      modifies this
      ensures Valid() && pushed == old(pushed) + [h]
    {
      hide Insert, Queue, IsBetter;
      pushed := pushed + [h];
      CollectHolds(k, pushed);
      assert pushed[..|pushed| - 1] == old(pushed);
      if k == 0 {
        return;
      }
      if |heap| < k {
        heap := Insert(heap, h);
      } else if IsBetter(h, heap[0]) {
        heap := heap[1..];
        heap := Insert(heap, h);
      }
    }

    /** Empties the queue from the back of the answer to its front: best score first. */
    method Finalize() returns (ids: array<U64>, scores: array<real>)
      requires Valid()
      modifies `heap
      ensures heap == []
      ensures ids.Length == scores.Length == |Collect(k, pushed)|
      ensures forall i :: 0 <= i < ids.Length ==> Hit(ids[i], scores[i]) == Collect(k, pushed)[ids.Length - 1 - i]
      ensures forall i, j :: 0 <= i < j < ids.Length ==> scores[i] >= scores[j]
    {
      var n := |heap|;
      ids, scores := new U64[n], new real[n];
      var i := n;
      while i > 0
        invariant i <= n && heap == old(heap)[n - i..]
        invariant forall j :: i <= j < n ==> Hit(ids[j], scores[j]) == old(heap)[n - 1 - j]
      {
        i := i - 1;
        var top := heap[0];
        ids[i], scores[i] := top.id, top.score;
        heap := heap[1..];
      }
      forall i, j | 0 <= i < j < n ensures scores[i] >= scores[j] {
        assert !Before(old(heap)[n - 1 - i], old(heap)[n - 1 - j]);
      }
    }
  }
}
