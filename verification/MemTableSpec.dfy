/**
 The in-memory table: vectors by id (null for a tombstone), metadata by id, and
 a multimap from timestamp to id that must stay in step with the metadata.
 */
module MemTableSpec {
  import opened Prelude
  import opened SegmentFormat
  import opened SortedRange

  type Vec = seq<U32>

  /** One entry of the temporal multimap. */
  datatype Stamp = Stamp(ts: U64, id: U64)

  datatype Mem = Mem(table: map<U64, Option<Vec>>, meta: map<U64, Metadata>, times: seq<Stamp>)

  const NO_METADATA := Metadata([], [], [], 0, 0, 0, [], [], 0, 0)

  // ---------------------------------------------------------------- the temporal multimap

  function Keys(ts: seq<Stamp>): (k: seq<nat>)
    ensures |k| == |ts| && forall i :: 0 <= i < |ts| ==> k[i] == ts[i].ts
  {
    seq(|ts|, i requires 0 <= i < |ts| => ts[i].ts)
  }

  /** insert: behind every entry with the same or a smaller timestamp. */
  function InsertStamp(ts: seq<Stamp>, x: Stamp): (r: seq<Stamp>)
    ensures |r| == |ts| + 1
  {
    var u := Upper(Keys(ts), x.ts, 0);
    ts[..u] + [x] + ts[u..]
  }

  /** The first entry of id in ts[i..hi], or hi. */
  function FindStamp(ts: seq<Stamp>, id: U64, i: nat, hi: nat): (r: nat)
    requires i <= hi <= |ts|
    ensures i <= r <= hi
    ensures r < hi ==> ts[r].id == id
    ensures forall j :: i <= j < r ==> ts[j].id != id
    decreases hi - i
  {
    if i == hi || ts[i].id == id then i else FindStamp(ts, id, i + 1, hi)
  }

  /** equal_range on the timestamp, then a search for the id, then erase. */
  function EraseStamp(ts: seq<Stamp>, x: Stamp): (r: seq<Stamp>) {
    var lo, hi := Lower(Keys(ts), x.ts, 0), Upper(Keys(ts), x.ts, 0);
    if lo > hi then ts
    else
      var i := FindStamp(ts, x.id, lo, hi);
      if i == hi then ts else ts[..i] + ts[i + 1..]
  }

  // ---------------------------------------------------------------- operations

  /** Metadata worth storing. */
  predicate Stored(m: Metadata) {
    |m.tenant| > 0 || m.srcVid != 0 || m.timestamp != 0 || |m.text| > 0
  }

  /** Takes id out of the temporal index, if its metadata put it there. */
  function Unstamp(m: Mem, id: U64): seq<Stamp> {
    if id in m.meta && m.meta[id].timestamp > 0 then EraseStamp(m.times, Stamp(m.meta[id].timestamp, id)) else m.times
  }

  function Put(m: Mem, id: U64, vec: Vec, meta: Metadata): Mem {
    var times := Unstamp(m, id);
    if Stored(meta) then
      Mem(m.table[id := Some(vec)], m.meta[id := meta],
          if meta.timestamp > 0 then InsertStamp(times, Stamp(meta.timestamp, id)) else times)
    else Mem(m.table[id := Some(vec)], m.meta - {id}, times)
  }

  function Delete(m: Mem, id: U64): Mem {
    Mem(m.table[id := None], m.meta - {id}, Unstamp(m, id))
  }

  function PutMany(t: map<U64, Option<Vec>>, ids: seq<U64>, vecs: seq<Vec>, n: nat): map<U64, Option<Vec>>
    requires n <= |ids| == |vecs|
  {
    if n == 0 then t else PutMany(t, ids, vecs, n - 1)[ids[n - 1] := Some(vecs[n - 1])]
  }

  function PutBatch(m: Mem, ids: seq<U64>, vecs: seq<Vec>): Mem
    requires |ids| == |vecs|
  {
    m.(table := PutMany(m.table, ids, vecs, |ids|))
  }

  /** GetByTimeRange; None when the scan runs off the index. */
  function TimeRange(ts: seq<Stamp>, lo: nat, hi: nat): Option<seq<Stamp>> {
    if RunsOff(Keys(ts), lo, hi) then None else Some(ts[Lower(Keys(ts), lo, 0)..Upper(Keys(ts), hi, 0)])
  }

  function GetMeta(m: Mem, id: U64): Metadata {
    if id in m.meta then m.meta[id] else NO_METADATA
  }

  // ---------------------------------------------------------------- invariant

  /** How often the temporal index ought to hold x. */
  function Due(meta: map<U64, Metadata>, x: Stamp): nat {
    if x.id in meta && meta[x.id].timestamp == x.ts && x.ts > 0 then 1 else 0
  }

  /** The temporal index holds (timestamp, id) once for every id whose metadata has a timestamp, and nothing else. */
  ghost predicate InStep(m: Mem) {
    && Sorted(Keys(m.times))
    && (forall x :: multiset(m.times)[x] == Due(m.meta, x))
  }

  /** Only live ids carry metadata. */
  ghost predicate OnlyLive(m: Mem) {
    forall id :: id in m.meta ==> id in m.table && m.table[id].Some?
  }

  ghost predicate Inv(m: Mem) {
    InStep(m) && OnlyLive(m)
  }
}
