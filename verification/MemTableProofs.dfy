/** Every operation of the memtable keeps its temporal index in step with its metadata. */
module MemTableProofs {
  import opened Prelude
  import opened SegmentFormat
  import opened SortedRange
  import opened MemTableSpec

  // ---------------------------------------------------------------- multimap facts

  lemma SortedInsert(k: seq<nat>, u: nat, v: nat)
    requires Sorted(k) && u <= |k|
    requires (forall j :: 0 <= j < u ==> k[j] <= v) && (u < |k| ==> v <= k[u])
    ensures Sorted(k[..u] + [v] + k[u..])
  {
    var q := k[..u] + [v] + k[u..];
    forall i, j | 0 <= i < j < |q| ensures q[i] <= q[j] {
      assert j > u ==> q[j] == k[j - 1] && k[u] <= k[j - 1];
      assert i > u ==> q[i] == k[i - 1] && k[i - 1] <= k[j - 1];
      assert i < u ==> q[i] == k[i];
      assert j < u ==> q[j] == k[j];
      assert i < u < j ==> k[i] <= v <= k[u];
    }
  }

  lemma InsertSorted(ts: seq<Stamp>, x: Stamp)
    requires Sorted(Keys(ts))
    ensures Sorted(Keys(InsertStamp(ts, x)))
  {
    hide Sorted;
    var k := Keys(ts);
    var u := Upper(k, x.ts, 0);
    SortedInsert(k, u, x.ts);
    assert Keys(InsertStamp(ts, x)) == k[..u] + [x.ts as nat] + k[u..];
  }

  /** A new stamp goes behind every stamp with the same timestamp, and the rest keep their order. */
  lemma StampGoesLast(ts: seq<Stamp>, x: Stamp) returns (i: nat)
    requires Sorted(Keys(ts))
    ensures i <= |ts| && InsertStamp(ts, x) == ts[..i] + [x] + ts[i..]
    ensures (forall j :: 0 <= j < i ==> ts[j].ts <= x.ts) && (forall j :: i <= j < |ts| ==> ts[j].ts > x.ts)
  {
    var k := Keys(ts);
    i := Upper(k, x.ts, 0);
    forall j | 0 <= j < |ts| ensures j < i ==> ts[j].ts <= x.ts {
      assert k[j] == ts[j].ts;
    }
    forall j | i <= j < |ts| ensures ts[j].ts > x.ts {
      assert k[j] == ts[j].ts && k[i] <= k[j];
    }
  }

  lemma InsertCounts(ts: seq<Stamp>, x: Stamp)
    ensures multiset(InsertStamp(ts, x)) == multiset(ts) + multiset{x}
  {
    var u := Upper(Keys(ts), x.ts, 0);
    hide Upper, Keys;
    assert ts == ts[..u] + ts[u..];
  }

  /** Equal-range and search find an entry the sorted index holds. */
  lemma EraseFinds(ts: seq<Stamp>, x: Stamp) returns (i: nat)
    requires Sorted(Keys(ts)) && x in ts
    ensures i < |ts| && ts[i] == x && EraseStamp(ts, x) == ts[..i] + ts[i + 1..]
  {
    var k := Keys(ts);
    var j :| 0 <= j < |ts| && ts[j] == x;
    var lo, hi := Lower(k, x.ts, 0), Upper(k, x.ts, 0);
    ScanIsRange(k, x.ts, x.ts, j);
    i := FindStamp(ts, x.id, lo, hi);
    assert i <= j;
    ScanIsRange(k, x.ts, x.ts, i);
  }

  lemma DropSorted(ts: seq<Stamp>, i: nat)
    requires i < |ts| && Sorted(Keys(ts))
    ensures Sorted(Keys(ts[..i] + ts[i + 1..]))
  {
    var r := ts[..i] + ts[i + 1..];
    forall a, b | 0 <= a < b < |r| ensures Keys(r)[a] <= Keys(r)[b] {
      assert Keys(ts)[if a < i then a else a + 1] <= Keys(ts)[if b < i then b else b + 1];
    }
  }

  lemma EraseCounts(ts: seq<Stamp>, x: Stamp)
    requires Sorted(Keys(ts)) && x in ts
    ensures Sorted(Keys(EraseStamp(ts, x)))
    ensures multiset(EraseStamp(ts, x)) == multiset(ts) - multiset{x}
  {
    hide *;
    var i := EraseFinds(ts, x);
    DropSorted(ts, i);
    assert ts == ts[..i] + [x] + ts[i + 1..];
  }

  // ---------------------------------------------------------------- operations

  /** After taking id out, the index holds exactly the other ids' stamps. */
  lemma UnstampKeeps(m: Mem, id: U64)
    requires InStep(m)
    ensures Sorted(Keys(Unstamp(m, id)))
    ensures forall x :: multiset(Unstamp(m, id))[x] == if x.id == id then 0 else Due(m.meta, x)
  {
    hide EraseStamp, Sorted, Keys;
    if id in m.meta && m.meta[id].timestamp > 0 {
      var x := Stamp(m.meta[id].timestamp, id);
      assert Due(m.meta, x) == 1;
      assert x in multiset(m.times);
      EraseCounts(m.times, x);
    }
  }

  lemma PutInStep(m: Mem, id: U64, vec: Vec, meta: Metadata)
    requires InStep(m)
    ensures InStep(Put(m, id, vec, meta))
  {
    hide Unstamp, InsertStamp, Sorted, Keys;
    var times := Unstamp(m, id);
    UnstampKeeps(m, id);
    if Stored(meta) && meta.timestamp > 0 {
      var x := Stamp(meta.timestamp, id);
      InsertSorted(times, x);
      InsertCounts(times, x);
    }
  }

  lemma PutKeeps(m: Mem, id: U64, vec: Vec, meta: Metadata)
    requires Inv(m)
    ensures Inv(Put(m, id, vec, meta))
  {
    hide InStep, Unstamp, InsertStamp;
    PutInStep(m, id, vec, meta);
  }

  lemma DeleteKeeps(m: Mem, id: U64)
    requires Inv(m)
    ensures Inv(Delete(m, id))
  {
    hide Unstamp, Sorted, Keys;
    UnstampKeeps(m, id);
  }

  lemma {:induction false} PutManyLive(t: map<U64, Option<Vec>>, ids: seq<U64>, vecs: seq<Vec>, n: nat, id: U64)
    requires n <= |ids| == |vecs| && id in t && t[id].Some?
    ensures var r := PutMany(t, ids, vecs, n); id in r && r[id].Some?
    decreases n
  {
    if n > 0 {
      PutManyLive(t, ids, vecs, n - 1, id);
    }
  }

  lemma PutBatchKeeps(m: Mem, ids: seq<U64>, vecs: seq<Vec>)
    requires Inv(m) && |ids| == |vecs|
    ensures Inv(PutBatch(m, ids, vecs))
  {
    forall id | id in m.meta ensures id in PutBatch(m, ids, vecs).table && PutBatch(m, ids, vecs).table[id].Some? {
      PutManyLive(m.table, ids, vecs, |ids|, id);
    }
    hide PutMany;
  }

  // ---------------------------------------------------------------- runs

  datatype Op = OpPut(id: U64, vec: Vec, meta: Metadata) | OpDelete(id: U64) | OpBatch(ids: seq<U64>, vecs: seq<Vec>) | OpClear

  function Apply(m: Mem, op: Op): Mem {
    match op
    case OpPut(id, v, meta) => Put(m, id, v, meta)
    case OpDelete(id) => Delete(m, id)
    case OpBatch(ids, vs) => if |ids| == |vs| then PutBatch(m, ids, vs) else m
    case OpClear => Mem(map[], map[], [])
  }

  function Run(m: Mem, ops: seq<Op>): Mem
    decreases |ops|
  {
    if |ops| == 0 then m else Run(Apply(m, ops[0]), ops[1..])
  }

  lemma StepKeeps(m: Mem, op: Op)
    requires Inv(m)
    ensures Inv(Apply(m, op))
  {
    match op {
      case OpPut(id, v, meta) => PutKeeps(m, id, v, meta);
      case OpDelete(id) => DeleteKeeps(m, id);
      case OpBatch(ids, vs) =>
        if |ids| == |vs| {
          PutBatchKeeps(m, ids, vs);
        }
      case OpClear =>
    }
  }

  lemma {:induction false} RunKeeps(m: Mem, ops: seq<Op>)
    requires Inv(m)
    ensures Inv(Run(m, ops))
    decreases |ops|
  {
    hide Inv, Apply;
    if |ops| > 0 {
      StepKeeps(m, ops[0]);
      RunKeeps(Apply(m, ops[0]), ops[1..]);
    }
  }

  /** What a range scan yields, counted: the entries between the two timestamps, as often as the index holds them. */
  lemma RangeCounts(ts: seq<Stamp>, lo: nat, hi: nat, x: Stamp)
    requires Sorted(Keys(ts)) && !RunsOff(Keys(ts), lo, hi)
    ensures multiset(TimeRange(ts, lo, hi).value)[x] == if lo <= x.ts <= hi then multiset(ts)[x] else 0
  {
    hide Sorted, Keys;
    var a, b := Lower(Keys(ts), lo, 0), Upper(Keys(ts), hi, 0);
    RangeSplits(ts, lo, hi);
    SliceCounts(ts, a, b, x);
    var outer, inner := ts[..a] + ts[b..], ts[a..b];
    assert x !in outer || x !in inner;
  }

  lemma SliceCounts(ts: seq<Stamp>, a: nat, b: nat, x: Stamp)
    requires a <= b <= |ts|
    ensures multiset(ts)[x] == multiset(ts[a..b])[x] + multiset(ts[..a] + ts[b..])[x]
  {
    assert ts == ts[..a] + (ts[a..b] + ts[b..]);
  }

  /** The scan parts the index into entries inside and entries outside the range. */
  lemma RangeSplits(ts: seq<Stamp>, lo: nat, hi: nat)
    requires Sorted(Keys(ts)) && !RunsOff(Keys(ts), lo, hi)
    ensures var a, b := Lower(Keys(ts), lo, 0), Upper(Keys(ts), hi, 0);
            && a <= b
            && (forall x :: x in ts[a..b] ==> lo <= x.ts <= hi)
            && (forall x :: x in ts[..a] + ts[b..] ==> !(lo <= x.ts <= hi))
  {
    var k := Keys(ts);
    var a, b := Lower(k, lo, 0), Upper(k, hi, 0);
    forall j: nat | j < |ts| ensures a <= j < b <==> lo <= ts[j].ts <= hi {
      ScanIsRange(k, lo, hi, j);
    }
    hide *;
  }

  lemma RangeSorted(ts: seq<Stamp>, lo: nat, hi: nat)
    requires Sorted(Keys(ts)) && !RunsOff(Keys(ts), lo, hi)
    ensures Sorted(Keys(TimeRange(ts, lo, hi).value))
  {
    var k := Keys(ts);
    var a, b := Lower(k, lo, 0), Upper(k, hi, 0);
    var r := ts[a..b];
    forall i, j | 0 <= i < j < |r| ensures Keys(r)[i] <= Keys(r)[j] {
      assert k[a + i] <= k[a + j];
    }
  }

  /**
   After any run, a range scan that does not run off its index yields exactly
   the ids whose stored metadata has a timestamp in the range, once each, in
   order of timestamp, and every one of them is live.
   */
  lemma RangeIsMetadataScan(ops: seq<Op>, lo: nat, hi: nat)
    ensures var m := Run(Mem(map[], map[], []), ops);
            var r := TimeRange(m.times, lo, hi);
            r.Some? ==>
              && Sorted(Keys(r.value))
              && (forall x :: multiset(r.value)[x] == if lo <= x.ts <= hi then Due(m.meta, x) else 0)
              && (forall x :: x in r.value ==> x.id in m.table && m.table[x.id].Some?)
  {
    hide Run, Sorted, Keys, RunsOff, Lower, Upper;
    var m := Run(Mem(map[], map[], []), ops);
    EmptyInv();
    RunKeeps(Mem(map[], map[], []), ops);
    if !RunsOff(Keys(m.times), lo, hi) {
      RangeSorted(m.times, lo, hi);
      var r := TimeRange(m.times, lo, hi).value;
      forall x: Stamp ensures multiset(r)[x] == if lo <= x.ts <= hi then Due(m.meta, x) else 0 {
        RangeCounts(m.times, lo, hi, x);
      }
      forall x: Stamp | x in r ensures x.id in m.table && m.table[x.id].Some? {
        assert multiset(r)[x] > 0;
      }
    }
  }

  lemma EmptyInv()
    ensures Inv(Mem(map[], map[], []))
  {
  }

  /** A range with lo <= hi never runs off; otherwise it does exactly when a stamp lies strictly between. */
  lemma RangeDefinedIff(m: Mem, lo: nat, hi: nat)
    requires Inv(m)
    ensures TimeRange(m.times, lo, hi).None? <==>
            exists x :: x in m.times && hi < x.ts < lo
  {
    var k := Keys(m.times);
    RunsOffIff(k, lo, hi);
    hide RunsOff;
    if RunsOff(k, lo, hi) {
      var j :| 0 <= j < |k| && hi < k[j] < lo;
      assert m.times[j] in m.times;
    }
    if x :| x in m.times && hi < x.ts < lo {
      var j :| 0 <= j < |m.times| && m.times[j] == x;
      assert hi < k[j] < lo;
    }
  }

  /** Put then read the metadata back: it comes back exactly if it has a tenant, a source id, a timestamp or a text, or is empty. */
  lemma MetadataReadsBackIff(m: Mem, id: U64, vec: Vec, meta: Metadata)
    ensures GetMeta(Put(m, id, vec, meta), id) == meta <==>
            |meta.tenant| > 0 || meta.srcVid != 0 || meta.timestamp != 0 || |meta.text| > 0 || meta == NO_METADATA
  {
  }

  /** Metadata that names only a device is not stored: it reads back as none. */
  lemma DeviceAloneIsForgotten(vec: Vec)
    ensures var meta := NO_METADATA.(deviceId := [1]);
            GetMeta(Run(Mem(map[], map[], []), [OpPut(7, vec, meta)]), 7) == NO_METADATA != meta
  {
    var meta := NO_METADATA.(deviceId := [1]);
    var ops := [OpPut(7, vec, meta)];
    assert ops[1..] == [];
    assert Run(Mem(map[], map[], []), ops) == Put(Mem(map[], map[], []), 7, vec, meta);
  }

  /** After one Put at time 5, the time range from 9 to 1 is not defined. */
  lemma CrossedRangeUndefined(vec: Vec)
    ensures var m := Run(Mem(map[], map[], []), [OpPut(7, vec, NO_METADATA.(timestamp := 5))]);
            TimeRange(m.times, 9, 1).None?
  {
    var meta := NO_METADATA.(timestamp := 5);
    var ops := [OpPut(7, vec, meta)];
    assert ops[1..] == [];
    EmptyInv();
    RunKeeps(Mem(map[], map[], []), ops);
    var m := Run(Mem(map[], map[], []), ops);
    assert m == Put(Mem(map[], map[], []), 7, vec, meta);
    assert Stamp(5, 7) in multiset(m.times) by {
      assert Due(m.meta, Stamp(5, 7)) == 1;
    }
    hide TimeRange, InsertStamp, Unstamp;
    RangeDefinedIff(m, 9, 1);
  }

  // ---------------------------------------------------------------- what Get tells after a run

  function Last(ids: seq<U64>, vecs: seq<Vec>, id: U64, n: nat): Option<Vec>
    requires n <= |ids| == |vecs|
  {
    if n == 0 then None else if ids[n - 1] == id then Some(vecs[n - 1]) else Last(ids, vecs, id, n - 1)
  }

  /** The vector the history gives id: the newest write wins, a delete or a clear ends it. */
  function LatestVector(ops: seq<Op>, id: U64): Option<Vec>
    decreases |ops|
  {
    if |ops| == 0 then None
    else
      var n := |ops| - 1;
      match ops[n]
      case OpPut(i, v, _) => if i == id then Some(v) else LatestVector(ops[..n], id)
      case OpDelete(i) => if i == id then None else LatestVector(ops[..n], id)
      case OpBatch(ids, vs) =>
        if |ids| == |vs| && Last(ids, vs, id, |ids|).Some? then Last(ids, vs, id, |ids|) else LatestVector(ops[..n], id)
      case OpClear => None
  }

  /**
   The metadata the history gives id: what the last Put gave if that had a
   tenant, a source id, a timestamp or a text.  A batch leaves it alone, even
   one that overwrites the vector.
   */
  function LatestMetadata(ops: seq<Op>, id: U64): Metadata
    decreases |ops|
  {
    if |ops| == 0 then NO_METADATA
    else
      var n := |ops| - 1;
      match ops[n]
      case OpPut(i, _, meta) =>
        if i != id then LatestMetadata(ops[..n], id)
        else if |meta.tenant| > 0 || meta.srcVid != 0 || meta.timestamp != 0 || |meta.text| > 0 then meta
        else NO_METADATA
      case OpDelete(i) => if i == id then NO_METADATA else LatestMetadata(ops[..n], id)
      case OpBatch(_, _) => LatestMetadata(ops[..n], id)
      case OpClear => NO_METADATA
  }

  lemma {:induction false} RunSnoc(m: Mem, ops: seq<Op>, op: Op)
    ensures Run(m, ops + [op]) == Apply(Run(m, ops), op)
    decreases |ops|
  {
    hide Apply;
    if |ops| == 0 {
      assert Run(Apply(m, op), []) == Apply(m, op);
      assert (ops + [op])[1..] == [];
    } else {
      assert (ops + [op])[1..] == ops[1..] + [op];
      RunSnoc(Apply(m, ops[0]), ops[1..], op);
    }
  }

  function LiveVector(m: Mem, id: U64): Option<Vec> {
    if id in m.table then m.table[id] else None
  }

  lemma {:induction false} PutManyIs(t: map<U64, Option<Vec>>, ids: seq<U64>, vecs: seq<Vec>, n: nat, id: U64)
    requires n <= |ids| == |vecs|
    ensures var r, l := PutMany(t, ids, vecs, n), Last(ids, vecs, id, n);
            if l.Some? then id in r && r[id] == l else (id in r <==> id in t) && (id in t ==> r[id] == t[id])
    decreases n
  {
    if n > 0 {
      PutManyIs(t, ids, vecs, n - 1, id);
    }
  }

  /** After any run, an id reads back as the history says: vector and metadata. */
  lemma {:induction false} GetTellsLatest(ops: seq<Op>, id: U64)
    ensures var m := Run(Mem(map[], map[], []), ops);
            LiveVector(m, id) == LatestVector(ops, id) && GetMeta(m, id) == LatestMetadata(ops, id)
    decreases |ops|
  {
    hide Run, PutMany, Last, Unstamp, InsertStamp;
    var start := Mem(map[], map[], []);
    if |ops| == 0 {
      RunEmpty(start);
      assert ops == [];
    } else {
      var n := |ops| - 1;
      GetTellsLatest(ops[..n], id);
      RunSnoc(start, ops[..n], ops[n]);
      assert ops[..n] + [ops[n]] == ops;
      if ops[n].OpBatch? && |ops[n].ids| == |ops[n].vecs| {
        PutManyIs(Run(start, ops[..n]).table, ops[n].ids, ops[n].vecs, |ops[n].ids|, id);
      }
    }
  }

  lemma RunEmpty(m: Mem)
    ensures Run(m, []) == m
  {
  }
}
