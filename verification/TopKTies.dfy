/**
 Which hits the top-k sink keeps when scores tie: every order of pushing the
 same hits leaves the k best of them, copies included, exactly when no score
 class is contested at the cut.
 */
module TopKTies {
  import opened Prelude
  import opened TopK

  function Copies(s: seq<Hit>, x: Hit): nat { multiset(s)[x] }

  /** How many copies of x belong among the k best: those that fewer than k hits beat, as many as there is room for. */
  function Share(k: nat, hits: seq<Hit>, x: Hit): nat {
    var beaten := Count(hits, Beating(x));
    if beaten >= k then 0 else Min(Copies(hits, x), k - beaten)
  }

  /** The sink keeps exactly the k best hits. */
  ghost predicate KeepsBest(k: nat, hits: seq<Hit>) {
    forall x :: Copies(Collect(k, hits), x) == Share(k, hits, x)
  }

  /** No hit with the score of w has a higher id. */
  ghost predicate LastOfScore(hits: seq<Hit>, w: Hit) {
    forall h :: h in hits && h.score == w.score ==> h.id <= w.id
  }

  /**
   The score class of its highest-id hit w is cut in two, holds other hits than
   w, and at least two hits altogether beat w.
   */
  ghost predicate Contested(k: nat, hits: seq<Hit>, w: Hit) {
    var above, beaten := Count(hits, Above(w.score)), Count(hits, Beating(w));
    && w in hits && LastOfScore(hits, w)
    && above < k < beaten + Copies(hits, w) && above < beaten && 2 <= beaten
  }

  // ---------------------------------------------------------------- counting by parts

  lemma {:induction false} CountTwo(s: seq<Hit>, f: Hit -> bool, g: Hit -> bool, all: Hit -> bool)
    requires forall h :: h in s ==> !(f(h) && g(h)) && (all(h) <==> f(h) || g(h))
    ensures Count(s, all) == Count(s, f) + Count(s, g)
    decreases |s|
  {
    if |s| > 0 {
      assert s[0] in s;
      forall h | h in s[1..] ensures !(f(h) && g(h)) && (all(h) <==> f(h) || g(h)) {
        assert h in s;
      }
      CountTwo(s[1..], f, g, all);
    }
  }

  function Is(x: Hit): Hit -> bool { (h: Hit) => h == x }

  lemma {:induction false} CountIs(s: seq<Hit>, x: Hit)
    ensures Count(s, Is(x)) == Copies(s, x)
    decreases |s|
  {
    if |s| > 0 {
      CountIs(s[1..], x);
      assert s == [s[0]] + s[1..];
    }
  }

  function BeatingOrIs(x: Hit): Hit -> bool { (h: Hit) => IsBetter(h, x) || h == x }

  /** The hits that beat x, and x itself, are at least as good as x. */
  lemma BeatenInClass(s: seq<Hit>, x: Hit)
    ensures Count(s, Above(x.score)) <= Count(s, Beating(x))
    ensures Count(s, Beating(x)) + Copies(s, x) <= Count(s, AtLeast(x.score))
    ensures LastOfScore(s, x) ==> Count(s, Beating(x)) + Copies(s, x) == Count(s, AtLeast(x.score))
  {
    CountMore(s, Above(x.score), Beating(x));
    CountTwo(s, Beating(x), Is(x), BeatingOrIs(x));
    CountIs(s, x);
    CountMore(s, BeatingOrIs(x), AtLeast(x.score));
    if LastOfScore(s, x) {
      forall h | h in s ensures BeatingOrIs(x)(h) == AtLeast(x.score)(h) {
        assert h.score == x.score && h.id == x.id ==> h == x;
      }
      CountSame(s, BeatingOrIs(x), AtLeast(x.score));
    }
    hide Count;
  }

  lemma MissedCounts(a: seq<Hit>, f: Hit -> bool, x: Hit)
    requires x in a && !f(x)
    ensures Count(a, f) < |a|
  {
    if a[0] != x {
      MissedCounts(a[1..], f, x);
    }
  }

  lemma SomeCounts(a: seq<Hit>, f: Hit -> bool, h: Hit)
    requires h in a && f(h)
    ensures Count(a, f) > 0
  {
    if a[0] != h {
      SomeCounts(a[1..], f, h);
    }
  }

  lemma NoneCounts(a: seq<Hit>, f: Hit -> bool)
    requires forall h :: h in a ==> !f(h)
    ensures Count(a, f) == 0
  {
    if |a| > 0 {
      assert a[0] in a;
      NoneCounts(a[1..], f);
    }
  }

  lemma {:induction false} FullCount(a: seq<Hit>, f: Hit -> bool)
    requires Count(a, f) == |a|
    ensures forall h :: h in a ==> f(h)
  {
    forall h | h in a ensures f(h) {
      if !f(h) {
        MissedCounts(a, f, h);
      }
    }
  }

  // ---------------------------------------------------------------- one push

  lemma PushCopies(k: nat, q: seq<Hit>, h: Hit, w: Hit)
    ensures var r := Push(k, q, h);
            Copies(r, w) == if k == 0 then Copies(q, w)
                            else if |q| < k then Copies(q, w) + Copies([h], w)
                            else if IsBetter(h, q[0]) then Copies(q, w) + Copies([h], w) - Copies([q[0]], w)
                            else Copies(q, w)
    ensures forall x :: x in Push(k, q, h) ==> x in q || x == h
  {
    hide Insert, IsBetter;
    var r := Push(k, q, h);
    InsertCounts(q, h);
    if |q| > 0 {
      assert q == [q[0]] + q[1..];
      InsertCounts(q[1..], h);
    }
    forall x | x in r ensures x in q || x == h {
      assert x in multiset(r);
    }
  }

  /** A member of a full queue whose top is w: w again, or a hit that the queue gives up later. */
  lemma BehindTop(q: seq<Hit>, y: Hit)
    requires Queue(q) && y in q
    ensures y == q[0] || Before(q[0], y)
  {
    TopIsLowest(q, y);
  }

  lemma CollectSnoc(k: nat, hits: seq<Hit>, h: Hit)
    ensures Collect(k, hits + [h]) == Push(k, Collect(k, hits), h)
  {
    hide Push;
    assert (hits + [h])[..|hits + [h]| - 1] == hits;
  }

  lemma KeptArePushed(k: nat, hits: seq<Hit>, y: Hit)
    requires y in Collect(k, hits)
    ensures y in hits
  {
    hide Collect;
    CollectHolds(k, hits);
    assert y in multiset(Collect(k, hits));
    assert y in multiset(hits);
  }

  // ---------------------------------------------------------------- when the cut is clean

  lemma FitsKeepsShare(k: nat, hits: seq<Hit>, x: Hit)
    requires Count(hits, AtLeast(x.score)) <= k
    ensures Copies(Collect(k, hits), x) == Share(k, hits, x)
  {
    hide Collect, Count;
    RoomMeansKept(k, hits, x);
    BeatenInClass(hits, x);
  }

  lemma BelowKeepsNone(k: nat, hits: seq<Hit>, x: Hit)
    requires Count(hits, Above(x.score)) >= k
    ensures Copies(Collect(k, hits), x) == 0 && Share(k, hits, x) == 0
  {
    hide Collect, Count;
    BeatenInClass(hits, x);
    CutsAreUpward(x.score);
    KeepsBestScores(k, hits, Above(x.score));
    CollectHolds(k, hits);
    var q := Collect(k, hits);
    if x in q {
      MissedCounts(q, Above(x.score), x);
    }
    assert x !in multiset(q);
  }

  /** What the sink holds when the class of w is cut in two: the hits above it, and hits of the class. */
  lemma CutClass(k: nat, hits: seq<Hit>, w: Hit)
    requires Count(hits, Above(w.score)) < k < Count(hits, AtLeast(w.score))
    ensures var q := Collect(k, hits);
            && |q| == k && (forall y :: y in q ==> y.score >= w.score && y in hits)
            && Count(q, Above(w.score)) == Count(hits, Above(w.score))
  {
    hide Collect, Count;
    var q := Collect(k, hits);
    CutsAreUpward(w.score);
    KeepsBestScores(k, hits, Above(w.score));
    KeepsBestScores(k, hits, AtLeast(w.score));
    CollectHolds(k, hits);
    SizeAtLeast(hits, AtLeast(w.score));
    FullCount(q, AtLeast(w.score));
    forall y | y in q ensures y.score >= w.score && y in hits {
      assert AtLeast(w.score)(y);
      KeptArePushed(k, hits, y);
    }
  }

  lemma SizeAtLeast(hits: seq<Hit>, f: Hit -> bool)
    ensures Count(hits, f) <= |hits|
  {
  }

  function AnyHit(): Hit -> bool { (h: Hit) => true }

  function AboveOrIs(w: Hit): Hit -> bool { (h: Hit) => h.score > w.score || h == w }

  /** A queue of hits above w, copies of w and copies of y, counted. */
  lemma ThreeParts(q: seq<Hit>, w: Hit, y: Hit)
    requires w != y && w.score == y.score
    requires forall h :: h in q ==> h.score > w.score || h == w || h == y
    ensures |q| == Count(q, Above(w.score)) + Copies(q, w) + Copies(q, y)
  {
    CountTwo(q, Above(w.score), Is(w), AboveOrIs(w));
    CountTwo(q, AboveOrIs(w), Is(y), AnyHit());
    CountIs(q, w);
    CountIs(q, y);
    CountAll(q, AnyHit());
    hide Count;
  }

  lemma TwoParts(q: seq<Hit>, w: Hit)
    requires forall h :: h in q ==> h.score > w.score || h == w
    ensures |q| == Count(q, Above(w.score)) + Copies(q, w)
  {
    forall h | h in q ensures AboveOrIs(w)(h) {
    }
    CountTwo(q, Above(w.score), Is(w), AboveOrIs(w));
    CountIs(q, w);
    CountAll(q, AboveOrIs(w));
    hide Count;
  }

  /** A class of copies of one hit, cut in two: as many as there is room for are kept. */
  lemma OneHitClass(k: nat, hits: seq<Hit>, w: Hit)
    requires w in hits && LastOfScore(hits, w) && Count(hits, Beating(w)) == Count(hits, Above(w.score))
    requires Count(hits, Above(w.score)) < k < Count(hits, AtLeast(w.score))
    ensures Copies(Collect(k, hits), w) == Share(k, hits, w)
    ensures forall x :: x in hits && x.score == w.score ==> x == w
  {
    hide Collect, Count, LastOfScore;
    forall x | x in hits && x.score == w.score ensures x == w {
      OnlyW(hits, w, x);
    }
    CutClass(k, hits, w);
    BeatenInClass(hits, w);
    TwoParts(Collect(k, hits), w);
  }

  lemma OnlyW(hits: seq<Hit>, w: Hit, x: Hit)
    requires LastOfScore(hits, w) && Count(hits, Beating(w)) == Count(hits, Above(w.score))
    requires x in hits && x.score == w.score
    ensures x == w
  {
    if x.id < w.id {
      var i :| 0 <= i < |hits| && hits[i] == x;
      assert hits == hits[..i] + ([x] + hits[i + 1..]);
      var rest := hits[..i] + hits[i + 1..];
      CountAround(hits[..i], x, hits[i + 1..], Beating(w));
      CountAround(hits[..i], x, hits[i + 1..], Above(w.score));
      CountMore(rest, Above(w.score), Beating(w));
      hide Count;
    }
    assert x.id == w.id ==> x == w;
  }

  /** A hit that every other hit is beaten by is never given up. */
  lemma {:induction false} BestStays(k: nat, hits: seq<Hit>, y: Hit)
    requires k > 0 && y in hits && forall h :: h in hits ==> h == y || IsBetter(y, h)
    ensures y in Collect(k, hits)
    decreases |hits|
  {
    var n := |hits| - 1;
    var pre, h := hits[..n], hits[n];
    assert hits == pre + [h];
    CollectSnoc(k, pre, h);
    var q := Collect(k, pre);
    PushCopies(k, q, h, y);
    CollectHolds(k, pre);
    hide Collect, Push;
    if y in pre {
      forall x | x in pre ensures x == y || IsBetter(y, x) {
        assert x in hits;
      }
      BestStays(k, pre, y);
      assert y in multiset(q);
      assert h in hits;
    } else {
      assert h == y;
      if |q| == k {
        assert q[0] in q;
        KeptArePushed(k, pre, q[0]);
        assert q[0] in hits;
      }
    }
    assert y in multiset(Push(k, q, h));
  }

  /** A class of one hit and copies of another with a higher id, nothing above it: the one is kept, and copies fill the rest. */
  lemma OneAndCopies(k: nat, hits: seq<Hit>, w: Hit, y: Hit)
    requires w in hits && LastOfScore(hits, w) && y in hits && y.score == w.score && y != w
    requires Count(hits, Beating(w)) == 1 && Count(hits, Above(w.score)) == 0 && 0 < k < Count(hits, AtLeast(w.score))
    ensures Copies(Collect(k, hits), w) == Share(k, hits, w)
    ensures Copies(Collect(k, hits), y) == Share(k, hits, y)
    ensures forall x :: x in hits && x.score == w.score ==> x == w || x == y
  {
    hide Collect, Count, Share;
    var q := Collect(k, hits);
    YOnly(hits, w, y);
    CutClass(k, hits, w);
    BestStays(k, hits, y);
    CollectHolds(k, hits);
    ThreeParts(q, w, y);
    assert y in multiset(q);
    BeatenInClass(hits, w);
    SharesOf(k, hits, w, y);
  }

  lemma SharesOf(k: nat, hits: seq<Hit>, w: Hit, y: Hit)
    requires Count(hits, Beating(w)) == 1 && Count(hits, Beating(y)) == 0 && Copies(hits, y) == 1 && k > 0
    ensures Share(k, hits, y) == 1
    ensures k <= Copies(hits, w) ==> Share(k, hits, w) == k - 1
  {
    hide Count;
  }

  /** With one hit beating w, that hit is the only other one, it occurs once, and it beats everything else. */
  lemma YOnly(hits: seq<Hit>, w: Hit, y: Hit)
    requires w in hits && LastOfScore(hits, w) && y in hits && y.score == w.score && y != w
    requires Count(hits, Beating(w)) == 1 && Count(hits, Above(w.score)) == 0
    ensures forall h :: h in hits ==> h == y || IsBetter(y, h)
    ensures forall h :: h in hits && h.score >= w.score ==> h == w || h == y
    ensures Copies(hits, y) == 1 && Count(hits, Beating(y)) == 0
  {
    hide Count;
    var rest := TakeOut(hits, y, Beating(w));
    assert y.id == w.id ==> y == w;
    NoBeater(rest, w);
    forall h | h in hits ensures h == y || IsBetter(y, h) {
      assert h == y || !Beating(w)(h);
    }
    forall h | h in hits && h.score >= w.score ensures h == w || h == y {
      assert h == y || !Beating(w)(h);
      assert h.score == w.score && h.id == w.id ==> h == w;
    }
    NoneCounts(hits, Beating(y));
    assert Beating(w)(y);
    assert y !in multiset(rest);
  }

  lemma NoBeater(rest: seq<Hit>, w: Hit)
    requires Count(rest, Beating(w)) == 0
    ensures forall h :: h in rest ==> !Beating(w)(h)
  {
    forall h | h in rest ensures !Beating(w)(h) {
      if Beating(w)(h) {
        SomeCounts(rest, Beating(w), h);
      }
    }
  }

  lemma TakeOut(hits: seq<Hit>, y: Hit, f: Hit -> bool) returns (rest: seq<Hit>)
    requires y in hits
    ensures multiset(hits) == multiset(rest) + multiset{y}
    ensures forall h :: h in hits <==> h == y || h in rest
    ensures Count(hits, f) == Count(rest, f) + if f(y) then 1 else 0
  {
    var i :| 0 <= i < |hits| && hits[i] == y;
    rest := hits[..i] + hits[i + 1..];
    assert hits == hits[..i] + ([y] + hits[i + 1..]);
    CountAround(hits[..i], y, hits[i + 1..], f);
    hide Count;
  }

  /** Every hit of a list that no class contests is kept as it should. */
  lemma UncontestedKeepsShare(k: nat, hits: seq<Hit>, x: Hit)
    requires k >= 2 && (forall w :: !Contested(k, hits, w)) && x in hits
    ensures Copies(Collect(k, hits), x) == Share(k, hits, x)
  {
    hide Collect, Count, Share, LastOfScore;
    if Count(hits, AtLeast(x.score)) <= k {
      FitsKeepsShare(k, hits, x);
    } else if Count(hits, Above(x.score)) >= k {
      BelowKeepsNone(k, hits, x);
    } else {
      var w := LastInClass(hits, x);
      BeatenInClass(hits, w);
      assert !Contested(k, hits, w);
      if Count(hits, Beating(w)) == Count(hits, Above(w.score)) {
        OneHitClass(k, hits, w);
      } else {
        var y := OtherInClass(hits, w);
        OneAndCopies(k, hits, w, y);
      }
    }
  }

  lemma {:induction false} LastInClass(hits: seq<Hit>, x: Hit) returns (w: Hit)
    requires x in hits
    ensures w in hits && w.score == x.score && LastOfScore(hits, w)
    decreases |hits|
  {
    var n := |hits| - 1;
    var pre, h := hits[..n], hits[n];
    assert hits == pre + [h];
    if z :| z in pre && z.score == x.score {
      w := LastInClass(pre, z);
      if h.score == x.score && h.id > w.id {
        w := h;
      }
    } else {
      w := h;
    }
  }

  lemma OtherInClass(hits: seq<Hit>, w: Hit) returns (y: Hit)
    requires LastOfScore(hits, w) && Count(hits, Beating(w)) > Count(hits, Above(w.score))
    ensures y in hits && y.score == w.score && y != w
  {
    hide Count;
    if forall h :: h in hits && h.score == w.score ==> h == w {
      CountSame(hits, Beating(w), Above(w.score));
    }
    y :| y in hits && y.score == w.score && y != w;
  }

  // ---------------------------------------------------------------- when it is not

  function Pick(s: seq<Hit>, f: Hit -> bool): (r: seq<Hit>)
    ensures forall h :: h in r <==> h in s && f(h)
  {
    if |s| == 0 then [] else (if f(s[0]) then [s[0]] else []) + Pick(s[1..], f)
  }

  function Not(f: Hit -> bool): Hit -> bool { (h: Hit) => !f(h) }

  function SameScore(w: Hit): Hit -> bool { (h: Hit) => h.score == w.score }

  lemma PickStep(s: seq<Hit>, f: Hit -> bool)
    requires |s| > 0
    ensures multiset(Pick(s, f)) == multiset(Pick(s[1..], f)) + if f(s[0]) then multiset{s[0]} else multiset{}
  {
    var r := Pick(s[1..], f);
    assert Pick(s, f) == (if f(s[0]) then [s[0]] else []) + r;
  }

  lemma PickNone(f: Hit -> bool)
    ensures Pick([], f) == []
  {
  }

  lemma {:induction false} PickSplits(s: seq<Hit>, f: Hit -> bool)
    ensures multiset(Pick(s, f)) + multiset(Pick(s, Not(f))) == multiset(s)
    decreases |s|
  {
    hide Pick;
    if |s| == 0 {
      assert s == [];
      PickNone(f);
      PickNone(Not(f));
    } else {
      PickSplits(s[1..], f);
      PickStep(s, f);
      PickStep(s, Not(f));
      assert s == [s[0]] + s[1..];
    }
  }

  /** The copies of w, the rest of its class, and the hits with other scores. */
  lemma PartClass(hits: seq<Hit>, w: Hit) returns (ws: seq<Hit>, ties: seq<Hit>, others: seq<Hit>)
    requires LastOfScore(hits, w)
    ensures multiset(ws + ties + others) == multiset(hits)
    ensures forall h :: h in ws ==> h == w
    ensures forall h :: h in ties ==> h.score == w.score && h.id < w.id
    ensures forall h :: h in others ==> h.score != w.score
    ensures |ws| == Copies(hits, w)
  {
    hide Pick;
    ws := Pick(hits, Is(w));
    var rest := Pick(hits, Not(Is(w)));
    ties, others := Pick(rest, SameScore(w)), Pick(rest, Not(SameScore(w)));
    PickSplits(hits, Is(w));
    PickSplits(rest, SameScore(w));
    assert !Not(Is(w))(w) && w !in rest;
    assert w !in multiset(rest);
    AllCopies(ws, w);
    forall h | h in ties ensures h.score == w.score && h.id < w.id {
      assert h in rest && h in hits;
      assert h.id == w.id ==> h == w;
    }
  }

  lemma AllCopies(s: seq<Hit>, w: Hit)
    requires forall h :: h in s ==> h == w
    ensures Copies(s, w) == |s|
  {
    CountIs(s, w);
    CountAll(s, Is(w));
  }

  /** First the copies of w: the sink fills up with them. */
  lemma CopiesFirst(k: nat, w: Hit, ws: seq<Hit>)
    requires forall h :: h in ws ==> h == w
    ensures var q := Collect(k, ws); |q| == Min(k, |ws|) == Copies(q, w) && forall h :: h in q ==> h == w
  {
    hide Collect;
    CollectHolds(k, ws);
    var q := Collect(k, ws);
    forall h | h in q ensures h == w {
      KeptArePushed(k, ws, h);
    }
    AllCopies(q, w);
  }

  /** The sink holds only hits of w's class, all but one slot full of w if there are enough, and a tie at the top once it is full. */
  ghost predicate Packed(k: nat, w: Hit, n: nat, q: seq<Hit>) {
    && Queue(q) && |q| <= k && Copies(q, w) == Min(n, k - 1)
    && (forall h :: h in q ==> h == w || (h.score == w.score && h.id < w.id))
    && (|q| == k ==> q[0] != w)
  }

  lemma TieAtTop(q: seq<Hit>, w: Hit, t: Hit)
    requires Queue(q) && t in q && t.score == w.score && t.id < w.id
    ensures q[0] != w
  {
    BehindTop(q, t);
  }

  lemma PackedPush(k: nat, w: Hit, n: nat, q: seq<Hit>, h: Hit)
    requires k >= 2 && h.score == w.score && h.id < w.id
    requires Packed(k, w, n, q) || (Queue(q) && |q| == Min(k, n) == Copies(q, w) && forall x :: x in q ==> x == w)
    ensures Packed(k, w, n, Push(k, q, h))
  {
    hide Insert, Before;
    var r := Push(k, q, h);
    PushCopies(k, q, h, w);
    PushCopies(k, q, h, h);
    PushStays(k, q, h);
    OtherCopies(h, w);
    if |q| == k {
      assert q[0] in q;
      OtherCopies(q[0], w);
      if q[0] != w {
        OtherCopies(q[0], h);
      }
    }
    if |r| == k {
      var t :| t in r && t.score == w.score && t.id < w.id by {
        TieIn(k, q, h, w);
      }
      TieAtTop(r, w, t);
    }
  }

  lemma OtherCopies(h: Hit, w: Hit)
    ensures Copies([h], w) == if h == w then 1 else 0
  {
  }

  lemma PushStays(k: nat, q: seq<Hit>, h: Hit)
    requires Queue(q) && |q| <= k && k > 0
    ensures Queue(Push(k, q, h)) && |Push(k, q, h)| <= k && |q| <= |Push(k, q, h)|
  {
    hide Insert, Before;
    InsertKeepsQueue(q, h);
    if |q| > 0 {
      InsertKeepsQueue(q[1..], h);
    }
  }

  /** After a tie has been offered, the sink holds a tie: that one, or a better one that kept it out. */
  lemma TieIn(k: nat, q: seq<Hit>, h: Hit, w: Hit)
    requires k > 0 && |q| <= k && h.score == w.score && h.id < w.id
    requires forall x :: x in q ==> x == w || (x.score == w.score && x.id < w.id)
    ensures exists t :: t in Push(k, q, h) && t.score == w.score && t.id < w.id
  {
    hide Insert, Before;
    InsertCounts(q, h);
    if |q| < k {
      assert h in multiset(Insert(q, h));
      assert h in Push(k, q, h);
    } else if IsBetter(h, q[0]) {
      InsertCounts(q[1..], h);
      assert h in multiset(Insert(q[1..], h));
      assert h in Push(k, q, h);
    } else {
      assert q[0] in Push(k, q, h);
    }
  }

  lemma {:induction false} TiesNext(k: nat, w: Hit, ws: seq<Hit>, ties: seq<Hit>)
    requires k >= 2 && |ties| > 0 && (forall h :: h in ws ==> h == w)
    requires forall h :: h in ties ==> h.score == w.score && h.id < w.id
    ensures Packed(k, w, |ws|, Collect(k, ws + ties))
    decreases |ties|
  {
    hide Collect, Packed, Push;
    var n := |ties| - 1;
    var pre, h := ties[..n], ties[n];
    assert ws + ties == (ws + pre) + [h];
    assert h in ties;
    CollectSnoc(k, ws + pre, h);
    if n == 0 {
      assert ws + pre == ws;
      CopiesFirst(k, w, ws);
      CollectHolds(k, ws);
    } else {
      forall x | x in pre ensures x.score == w.score && x.id < w.id {
        assert x in ties;
      }
      TiesNext(k, w, ws, pre);
    }
    PackedPush(k, w, |ws|, Collect(k, ws + pre), h);
  }

  /** No copy of w has been given up, or only hits above w are left beside its copies. */
  ghost predicate Guarded(k: nat, w: Hit, c: nat, q: seq<Hit>) {
    && Queue(q) && |q| <= k && (|q| < k ==> Copies(q, w) == c)
    && (forall h :: h in q && h.score == w.score ==> h.id <= w.id)
    && (Copies(q, w) == c || forall h :: h in q ==> h == w || h.score > w.score)
  }

  lemma PackedGuards(k: nat, w: Hit, n: nat, q: seq<Hit>)
    requires k >= 2 && Packed(k, w, n, q)
    ensures Guarded(k, w, Min(n, k - 1), q)
  {
  }

  lemma GuardedPush(k: nat, w: Hit, c: nat, q: seq<Hit>, h: Hit)
    requires k >= 2 && Guarded(k, w, c, q) && h.score != w.score
    ensures Guarded(k, w, c, Push(k, q, h))
  {
    hide Insert;
    var r := Push(k, q, h);
    PushCopies(k, q, h, w);
    PushStays(k, q, h);
    OtherCopies(h, w);
    if |q| == k && IsBetter(h, q[0]) {
      assert q[0] in q;
      OtherCopies(q[0], w);
      if q[0] == w {
        forall y | y in r ensures y == w || y.score > w.score {
          if y in q {
            BehindTop(q, y);
          }
        }
      }
    }
  }

  lemma {:induction false} OthersLast(k: nat, w: Hit, c: nat, s: seq<Hit>, others: seq<Hit>)
    requires k >= 2 && Guarded(k, w, c, Collect(k, s)) && forall h :: h in others ==> h.score != w.score
    ensures Guarded(k, w, c, Collect(k, s + others))
    decreases |others|
  {
    hide Collect, Guarded, Push;
    if |others| == 0 {
      assert s + others == s;
    } else {
      var n := |others| - 1;
      var pre, h := others[..n], others[n];
      forall x | x in pre ensures x.score != w.score {
        assert x in others;
      }
      assert h in others;
      OthersLast(k, w, c, s, pre);
      assert s + others == (s + pre) + [h];
      CollectSnoc(k, s + pre, h);
      GuardedPush(k, w, c, Collect(k, s + pre), h);
    }
  }

  /** An order in which a contested class is settled wrongly: too many copies of its highest id are kept. */
  lemma BadOrder(k: nat, hits: seq<Hit>, w: Hit) returns (p: seq<Hit>)
    requires k >= 2 && Contested(k, hits, w)
    ensures multiset(p) == multiset(hits) && Copies(Collect(k, p), w) > Share(k, p, w)
  {
    hide Collect, Count, LastOfScore, Packed, Guarded;
    var ws, ties, others := PartClass(hits, w);
    p := ws + ties + others;
    CountOrderFree(p, hits, Above(w.score));
    CountOrderFree(p, hits, Beating(w));
    CountOrderFree(p, hits, AtLeast(w.score));
    BeatenInClass(hits, w);
    SomeTies(p, ws, ties, others, w);
    TiesNext(k, w, ws, ties);
    PackedGuards(k, w, |ws|, Collect(k, ws + ties));
    OthersLast(k, w, Min(|ws|, k - 1), ws + ties, others);
    CutClass(k, p, w);
    GuardedCounts(k, w, Min(|ws|, k - 1), Collect(k, p));
  }

  lemma SomeTies(p: seq<Hit>, ws: seq<Hit>, ties: seq<Hit>, others: seq<Hit>, w: Hit)
    requires p == ws + ties + others && (forall h :: h in ws ==> h == w) && (forall h :: h in others ==> h.score != w.score)
    requires Count(p, Above(w.score)) < Count(p, Beating(w))
    ensures |ties| > 0
  {
    hide Count;
    if |ties| == 0 {
      CountSame(p, Beating(w), Above(w.score));
    }
  }

  lemma GuardedCounts(k: nat, w: Hit, c: nat, q: seq<Hit>)
    requires Guarded(k, w, c, q) && |q| == k
    ensures Copies(q, w) == c || Copies(q, w) == k - Count(q, Above(w.score))
  {
    if Copies(q, w) != c {
      TwoParts(q, w);
    }
  }

  // ---------------------------------------------------------------- one slot

  /** With a single slot the two orders agree: the best hit is kept. */
  lemma {:induction false} SingleSlot(hits: seq<Hit>)
    requires |hits| > 0
    ensures |Collect(1, hits)| == 1 && Collect(1, hits)[0] in hits
    ensures forall h :: h in hits ==> h == Collect(1, hits)[0] || IsBetter(Collect(1, hits)[0], h)
    decreases |hits|
  {
    var n := |hits| - 1;
    assert hits == hits[..n] + [hits[n]];
    if n > 0 {
      SingleSlot(hits[..n]);
    } else {
      assert Collect(1, hits[..n]) == [];
    }
  }

  lemma SingleKeepsBest(hits: seq<Hit>)
    ensures KeepsBest(1, hits)
  {
    hide Collect, Count;
    forall x ensures Copies(Collect(1, hits), x) == Share(1, hits, x) {
      if x in hits {
        SingleSlot(hits);
        var b := Collect(1, hits)[0];
        assert Collect(1, hits) == [b];
        OtherCopies(b, x);
        assert x in multiset(hits);
        if x == b {
          NoneCounts(hits, Beating(x));
        } else {
          SomeCounts(hits, Beating(x), b);
        }
      } else {
        AbsentKeepsNone(1, hits, x);
      }
    }
  }

  lemma AbsentKeepsNone(k: nat, hits: seq<Hit>, x: Hit)
    requires x !in hits
    ensures Copies(Collect(k, hits), x) == 0 == Share(k, hits, x)
  {
    hide Collect, Count;
    assert x !in multiset(hits);
    if x in Collect(k, hits) {
      KeptArePushed(k, hits, x);
    }
    assert x !in multiset(Collect(k, hits));
  }

  // ---------------------------------------------------------------- every order

  lemma ContestedOrderFree(k: nat, hits: seq<Hit>, p: seq<Hit>, w: Hit)
    requires multiset(p) == multiset(hits) && Contested(k, p, w)
    ensures Contested(k, hits, w)
  {
    hide Count;
    CountOrderFree(p, hits, Above(w.score));
    CountOrderFree(p, hits, Beating(w));
    assert w in multiset(p) && w in multiset(hits);
    forall h | h in hits && h.score == w.score ensures h.id <= w.id {
      assert h in multiset(hits) && h in multiset(p);
      assert h in p;
    }
  }

  lemma OrderKeepsBest(k: nat, hits: seq<Hit>, p: seq<Hit>)
    requires multiset(p) == multiset(hits) && (k <= 1 || forall w :: !Contested(k, hits, w))
    ensures KeepsBest(k, p)
  {
    hide Count, Collect, Share, Contested;
    if k == 1 {
      SingleKeepsBest(p);
    } else {
      forall x ensures Copies(Collect(k, p), x) == Share(k, p, x) {
        if k == 0 {
          NoSlots(p, x);
        } else if x in p {
          forall w ensures !Contested(k, p, w) {
            if Contested(k, p, w) {
              ContestedOrderFree(k, hits, p, w);
            }
          }
          UncontestedKeepsShare(k, p, x);
        } else {
          AbsentKeepsNone(k, p, x);
        }
      }
    }
  }

  lemma NoSlots(p: seq<Hit>, x: Hit)
    ensures Copies(Collect(0, p), x) == 0 == Share(0, p, x)
  {
    hide Collect, Count;
    CollectHolds(0, p);
    assert Collect(0, p) == [];
  }

  /**
   Every order of pushing the same hits leaves exactly the k best of them,
   copies included, if and only if there is at most one slot or no score class
   is contested.
   */
  lemma KeepsBestIff(k: nat, hits: seq<Hit>)
    ensures (forall p :: multiset(p) == multiset(hits) ==> KeepsBest(k, p)) <==>
            k <= 1 || forall w :: !Contested(k, hits, w)
  {
    hide Count, Collect, Share, Contested;
    if k >= 2 && exists w :: Contested(k, hits, w) {
      var w :| Contested(k, hits, w);
      var p := BadOrder(k, hits, w);
      assert !KeepsBest(k, p);
    } else {
      forall p | multiset(p) == multiset(hits) ensures KeepsBest(k, p) {
        OrderKeepsBest(k, hits, p);
      }
    }
  }

  /** Three hits with one score and two slots: pushed from the highest id down, the sink keeps the highest and not the second. */
  lemma TieDependsOnOrder()
    ensures var a, b, c := Hit(1, 1.0), Hit(2, 1.0), Hit(3, 1.0);
            Collect(2, [a, b, c]) == [a, b] && Collect(2, [c, b, a]) == [a, c]
  {
    hide Insert, Collect, Before;
    var a, b, c := Hit(1, 1.0), Hit(2, 1.0), Hit(3, 1.0);
    TwoSlots(a, b);
    TwoSlots(c, b);
    assert Before(a, b) && Before(b, c) && Before(a, c) by {
      OrderedById();
    }
    Inserted(a, b);
    Inserted(b, c);
    Inserted(a, c);
    CollectSnoc(2, [a, b], c);
    assert [a, b] + [c] == [a, b, c];
    CollectSnoc(2, [c, b], a);
    assert [c, b] + [a] == [c, b, a] && [b, c][1..] == [c];
  }

  lemma OrderedById()
    ensures Before(Hit(1, 1.0), Hit(2, 1.0)) && Before(Hit(2, 1.0), Hit(3, 1.0)) && Before(Hit(1, 1.0), Hit(3, 1.0))
  {
  }

  lemma TwoSlots(x: Hit, y: Hit)
    ensures Collect(2, [x, y]) == Insert([x], y)
  {
    hide Insert, Before, IsBetter;
    CollectSnoc(2, [], x);
    CollectSnoc(2, [x], y);
    assert [] + [x] == [x] && [x] + [y] == [x, y];
    assert Collect(2, []) == [];
    OneInserted(x);
  }

  lemma OneInserted(x: Hit)
    ensures Insert([], x) == [x]
  {
  }

  lemma Inserted(x: Hit, y: Hit)
    requires Before(x, y)
    ensures Insert([], x) == [x] && Insert([], y) == [y] && Insert([x], y) == [x, y] && Insert([y], x) == [x, y]
  {
    assert Place([x], y) == 1 by {
      assert [x][1..] == [];
    }
    assert Place([y], x) == 0;
  }
}
