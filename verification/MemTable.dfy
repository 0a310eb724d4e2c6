/** The memtable as an object: an open-addressing map, a metadata map and a temporal index, updated in place. */
module MemTable {
  import opened Prelude
  import opened SegmentFormat
  import opened SortedRange
  import opened FlatHashMemMap
  import FlatHashSpec
  import S = MemTableSpec
  import opened MemTableProofs

  datatype Status = Ok | InvalidArgument | NotFound

  const INITIAL_CAP := 128

  /** Every other id has the vector and the metadata it had. */
  ghost predicate OthersKept(m: S.Mem, n: S.Mem, id: U64) {
    && m.table - {id} == n.table - {id}
    && m.meta - {id} == n.meta - {id}
  }

  class Table {
    const dim: nat
    const vectors: MemMap<Option<S.Vec>>
    var metadata: map<U64, Metadata>
    var temporal: seq<S.Stamp>

    ghost function State(): S.Mem
      reads this, vectors, vectors.slots
    {
      S.Mem(vectors.Map(), metadata, temporal)
    }

    ghost predicate Valid()
      reads this, vectors, vectors.slots
    {
      vectors.Valid() && S.Inv(State())
    }

    constructor (dim: nat, hash: FlatHashSpec.Hash)
      ensures Valid() && fresh(vectors) && fresh(vectors.slots)
      ensures State() == S.Mem(map[], map[], []) && this.dim == dim
    {
      this.dim := dim;
      vectors := new MemMap<Option<S.Vec>>(INITIAL_CAP, hash, None);
      metadata, temporal := map[], [];
      new;
      EmptyInv();
    }

    /** Takes id's entry out of the temporal index. */
    method DropStamp(id: U64)
      modifies `temporal
      ensures temporal == S.Unstamp(old(State()), id)
    {
      hide S.Inv;
      if id in metadata && metadata[id].timestamp > 0 {
        var x := S.Stamp(metadata[id].timestamp, id);
        var lo, hi := Lower(S.Keys(temporal), x.ts, 0), Upper(S.Keys(temporal), x.ts, 0);
        var i := lo;
        while i < hi
          invariant lo <= hi ==> lo <= i <= hi && S.FindStamp(temporal, id, lo, hi) == S.FindStamp(temporal, id, i, hi)
          invariant lo > hi ==> i == lo
          invariant temporal == old(temporal)
        {
          if temporal[i].id == id {
            temporal := temporal[..i] + temporal[i + 1..];
            return;
          }
          i := i + 1;
        }
      }
    }

    method Put(id: U64, vec: S.Vec, meta: Metadata) returns (s: Status)
      requires Valid() && id != FlatHashSpec.SENTINEL
      modifies this, vectors, vectors.slots
      ensures Valid() && (vectors.slots == old(vectors.slots) || fresh(vectors.slots))
      ensures s == if |vec| == dim then Ok else InvalidArgument
      ensures State() == if s.Ok? then S.Put(old(State()), id, vec, meta) else old(State())
      ensures s.Ok? ==>
                && id in State().table && State().table[id] == Some(vec)
                && S.GetMeta(State(), id) ==
                   (if |meta.tenant| > 0 || meta.srcVid != 0 || meta.timestamp != 0 || |meta.text| > 0 then meta else S.NO_METADATA)
                && OthersKept(old(State()), State(), id)
    {
      hide S.Inv, S.Unstamp, S.InsertStamp, FlatHashSpec.Put, FlatHashSpec.TableOk, FlatHashSpec.Contents;
      if |vec| != dim {
        return InvalidArgument;
      }
      PutKeeps(State(), id, vec, meta);
      var isNew := vectors.PutKey(id, Some(vec));
      PutMetadata(id, meta, old(State()));
      return Ok;
    }

    /** The second half of Put: metadata and temporal index. */
    method PutMetadata(id: U64, meta: Metadata, ghost m: S.Mem)
      requires m.meta == metadata && m.times == temporal
      modifies `metadata, `temporal
      ensures metadata == S.Put(m, id, [], meta).meta && temporal == S.Put(m, id, [], meta).times
    {
      hide S.Unstamp, S.InsertStamp;
      DropStampFor(id, m);
      if |meta.tenant| > 0 || meta.srcVid != 0 || meta.timestamp != 0 || |meta.text| > 0 {
        metadata := metadata[id := meta];
        if meta.timestamp > 0 {
          temporal := S.InsertStamp(temporal, S.Stamp(meta.timestamp, id));
        }
      } else {
        metadata := metadata - {id};
      }
    }

    /** DropStamp seen from a state that agrees on metadata and index. */
    method DropStampFor(id: U64, ghost m: S.Mem)
      requires m.meta == metadata && m.times == temporal
      modifies `temporal
      ensures temporal == S.Unstamp(m, id)
    {
      DropStamp(id);
    }

    method AllFit(vecs: seq<S.Vec>) returns (fit: bool)
      ensures fit <==> forall v :: v in vecs ==> |v| == dim
    {
      var i := 0;
      while i < |vecs|
        invariant i <= |vecs| && forall j :: 0 <= j < i ==> |vecs[j]| == dim
      {
        if |vecs[i]| != dim {
          assert vecs[i] in vecs;
          return false;
        }
        i := i + 1;
      }
      return true;
    }

    method PutBatch(ids: seq<U64>, vecs: seq<S.Vec>) returns (s: Status)
      requires Valid() && (forall i :: 0 <= i < |ids| ==> ids[i] != FlatHashSpec.SENTINEL)
      modifies this, vectors, vectors.slots
      ensures Valid() && (vectors.slots == old(vectors.slots) || fresh(vectors.slots))
      ensures s.Ok? <==> |ids| == |vecs| && (forall v :: v in vecs ==> |v| == dim)
      ensures !s.Ok? ==> s == InvalidArgument && State() == old(State())
      ensures s.Ok? ==> State() == S.PutBatch(old(State()), ids, vecs)
    {
      hide S.Inv, FlatHashSpec.Put, FlatHashSpec.TableOk, FlatHashSpec.Contents;
      if |ids| != |vecs| {
        return InvalidArgument;
      }
      var fit := AllFit(vecs);
      if !fit {
        return InvalidArgument;
      }
      PutBatchKeeps(State(), ids, vecs);
      var i := 0;
      while i < |ids|
        invariant i <= |ids| && vectors.Valid()
        invariant vectors.slots == old(vectors.slots) || fresh(vectors.slots)
        invariant State() == old(State()).(table := S.PutMany(old(State()).table, ids, vecs, i))
      {
        var isNew := vectors.PutKey(ids[i], Some(vecs[i]));
        i := i + 1;
      }
      return Ok;
    }

    method Delete(id: U64)
      requires Valid() && id != FlatHashSpec.SENTINEL
      modifies this, vectors, vectors.slots
      ensures Valid() && (vectors.slots == old(vectors.slots) || fresh(vectors.slots))
      ensures State() == S.Delete(old(State()), id)
      ensures id in State().table && State().table[id] == None && id !in metadata && OthersKept(old(State()), State(), id)
    {
      hide S.Inv, S.Unstamp, FlatHashSpec.Put, FlatHashSpec.TableOk, FlatHashSpec.Contents;
      DeleteKeeps(State(), id);
      var isNew := vectors.PutKey(id, None);
      DropStampFor(id, old(State()));
      metadata := metadata - {id};
    }

    /** A live vector comes back with its metadata; a tombstone and an unknown id are both not found. */
    method Get(id: U64) returns (s: Status, vec: S.Vec, meta: Metadata)
      requires Valid()
      ensures s.Ok? <==> id in State().table && State().table[id].Some?
      ensures s.Ok? ==> State().table[id] == Some(vec) && meta == S.GetMeta(State(), id)
      ensures !s.Ok? ==> s == NotFound
    {
      vec, meta := [], S.NO_METADATA;
      var v := vectors.FindKey(id);
      if v.None? || v.value.None? {
        return NotFound, vec, meta;
      }
      vec := v.value.value;
      if id in metadata {
        meta := metadata[id];
      }
      return Ok, vec, meta;
    }

    /** The ids stamped between lo and hi, in index order; None where the walk would run off the index. */
    method GetByTimeRange(lo: U64, hi: U64) returns (r: Option<seq<U64>>)
      requires Valid()
      ensures r.None? <==> S.TimeRange(temporal, lo, hi).None?
      ensures r.Some? ==>
                var range := S.TimeRange(temporal, lo, hi).value;
                |r.value| == |range| && forall i :: 0 <= i < |range| ==> r.value[i] == range[i].id
    {
      var first, last := Lower(S.Keys(temporal), lo, 0), Upper(S.Keys(temporal), hi, 0);
      if first > last {
        return None;
      }
      var out: seq<U64> := [];
      var i := first;
      while i != last
        invariant first <= i <= last && |out| == i - first
        invariant forall j :: 0 <= j < |out| ==> out[j] == temporal[first + j].id
        decreases last - i
      {
        out := out + [temporal[i].id];
        i := i + 1;
      }
      return Some(out);
    }

    method Clear()
      requires Valid()
      modifies this, vectors, vectors.slots
      ensures Valid() && vectors.slots == old(vectors.slots) && State() == S.Mem(map[], map[], [])
    {
      vectors.ClearAll();
      metadata, temporal := map[], [];
      EmptyInv();
    }
  }
}
