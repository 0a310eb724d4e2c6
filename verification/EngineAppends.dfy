/**
 Appends and deletes as records: which record a call adds to the log, when it
 flushes, and what lookups tell right after it.
 */
module EngineAppends {
  import opened Prelude
  import opened Bytes
  import opened LogFormat
  import opened EngineSpec
  import opened EngineProofs
  import opened EngineUnmapped
  import opened EngineRuns

  // ---------------------------------------------------------------- records for vectors

  /** The quantizer: the value range of a batch, and the code of one value in a range. */
  datatype Quantizer = Quantizer(range: seq<U32> -> (U32, U32), code: (U32, U32, U32) -> Byte)

  function Codes(q: Quantizer, mn: U32, mx: U32, vec: seq<U32>): (c: seq<Byte>)
    ensures |c| == |vec|
  {
    seq<Byte>(|vec|, i requires 0 <= i < |vec| => q.code(mn, mx, vec[i]))
  }

  function RecordFor(q: Option<Quantizer>, id: U64, vec: seq<U32>, tenant: seq<Byte>): (r: Record)
    requires |vec| < TWO_32 && |tenant| < TWO_32
    ensures WellFormed(r) && r.id == id && !r.body.Tomb?
  {
    match q
    case None => Record(id, |vec|, tenant, Raw(vec))
    case Some(z) => var (mn, mx) := z.range(vec); Record(id, |vec|, tenant, Sq8(mn, mx, Codes(z, mn, mx, vec)))
  }

  /** The i-th of n vectors laid out one after another. */
  function VectorAt(vectors: seq<U32>, d: U32, i: nat, n: nat): (v: seq<U32>)
    requires i < n && |vectors| == n * d
    ensures |v| == d
  {
    assert (i + 1) * d <= n * d && i * d + d == (i + 1) * d;
    vectors[i * d..i * d + d]
  }

  /** The record of one vector of a batch; quantized vectors take the range of the whole batch. */
  function BatchRecord(q: Option<Quantizer>, ids: seq<U64>, vectors: seq<U32>, d: U32, i: nat): (r: Record)
    requires i < |ids| && |vectors| == |ids| * d
    ensures WellFormed(r)
  {
    var v := VectorAt(vectors, d, i, |ids|);
    match q
    case None => RecordFor(None, ids[i], v, [])
    case Some(z) => var (mn, mx) := z.range(vectors); Record(ids[i], d, [], Sq8(mn, mx, Codes(z, mn, mx, v)))
  }

  function BatchRecords(q: Option<Quantizer>, ids: seq<U64>, vectors: seq<U32>, d: U32, n: nat): (rs: seq<Record>)
    requires n <= |ids| && |vectors| == |ids| * d
    ensures |rs| == n && AllWellFormed(rs)
  {
    if n == 0 then [] else BatchRecords(q, ids, vectors, d, n - 1) + [BatchRecord(q, ids, vectors, d, n - 1)]
  }

  /** The log has grown by the first k records of the batch. */
  ghost predicate BatchLogged(before: seq<Record>, after: seq<Record>, q: Option<Quantizer>,
                              ids: seq<U64>, vectors: seq<U32>, d: U32, k: nat)
  {
    k <= |ids| && |vectors| == |ids| * d && after == before + BatchRecords(q, ids, vectors, d, k)
  }

  function TombFor(id: U64, dim: U32): (r: Record)
    ensures WellFormed(r)
  {
    Record(id, dim, [], Tomb)
  }

  /** Append one record and flush if the buffer has reached the threshold. */
  function AddRecord(e: Eng, r: Record, threshold: nat, io: FlushIo): (f: (Eng, Status))
    requires WellFormed(r) && e.pos <= |e.file|
    ensures f.0.pos <= |f.0.file|
  {
    var p := Push(e, r);
    if p.pendingBytes >= threshold then Flush(p, io) else (p, Ok)
  }

  /** The first n vectors of a raw batch, appended one by one until one of them fails. */
  function AddRaw(e: Eng, ids: seq<U64>, vectors: seq<U32>, d: U32, n: nat, threshold: nat, ios: nat -> FlushIo): (f: (Eng, Status))
    requires e.pos <= |e.file| && n <= |ids| && |vectors| == |ids| * d && d > 0
    ensures f.0.pos <= |f.0.file|
    decreases n
  {
    if n == 0 then (e, Ok)
    else
      var (f, st) := AddRaw(e, ids, vectors, d, n - 1, threshold, ios);
      if st != Ok then (f, st) else AddRecord(f, BatchRecord(None, ids, vectors, d, n - 1), threshold, ios(n - 1))
  }

  /** A quantized batch: every record goes to the buffer, then one flush if the threshold is reached. */
  function AddQuantized(e: Eng, q: Quantizer, ids: seq<U64>, vectors: seq<U32>, d: U32, threshold: nat, io: FlushIo): (Eng, Status)
    requires e.pos <= |e.file| && |vectors| == |ids| * d && d > 0
  {
    var rs := BatchRecords(Some(q), ids, vectors, d, |ids|);
    PushedAll(e, rs);
    var p := PushAll(e, rs);
    if p.pendingBytes >= threshold then Flush(p, io) else (p, Ok)
  }

  lemma {:induction false} PushSnoc(e: Eng, rs: seq<Record>, r: Record)
    requires AllWellFormed(rs) && WellFormed(r)
    ensures AllWellFormed(rs + [r]) && PushAll(e, rs + [r]) == Push(PushAll(e, rs), r)
    decreases |rs|
  {
    hide Push, WellFormed;
    if |rs| == 0 {
      assert (rs + [r])[1..] == [];
    } else {
      assert (rs + [r])[1..] == rs[1..] + [r];
      PushSnoc(Push(e, rs[0]), rs[1..], r);
    }
  }

  /** Once an append of a raw batch fails, the rest of the batch is not tried. */
  lemma {:induction false} RawStops(e: Eng, ids: seq<U64>, vectors: seq<U32>, d: U32, m: nat, n: nat, threshold: nat, ios: nat -> FlushIo)
    requires e.pos <= |e.file| && m <= n <= |ids| && |vectors| == |ids| * d && d > 0
    requires AddRaw(e, ids, vectors, d, m, threshold, ios).1 != Ok
    ensures AddRaw(e, ids, vectors, d, n, threshold, ios) == AddRaw(e, ids, vectors, d, m, threshold, ios)
    decreases n
  {
    hide AddRecord, BatchRecord;
    if m < n {
      RawStops(e, ids, vectors, d, m, n - 1, threshold, ios);
    }
  }

  // ---------------------------------------------------------------- one record

  /** No flush happens below the threshold, and after a success less than the threshold is left waiting. */
  lemma AddFlushesAtThreshold(e: Eng, r: Record, threshold: nat, io: FlushIo)
    requires WellFormed(r) && e.pos <= |e.file|
    ensures var (f, st) := AddRecord(e, r, threshold, io);
            && (e.pendingBytes + Size(r) < threshold ==> st == Ok && f.file == e.file && f.pos == e.pos)
            && (st == Ok ==> f.pendingBytes < threshold || f.pendingBytes == 0)
  {
    hide Enc, Size, ParseFrom, WriteAt, Written, ClearFlags;
    var p := Push(e, r);
    if p.pendingBytes >= threshold && Flush(p, io).1 == Ok {
      SizePositive(r);
      FlushEmpties(p, io);
    }
  }

  lemma FlushEmpties(e: Eng, io: FlushIo)
    requires e.pos <= |e.file| && Flush(e, io).1 == Ok
    ensures |e.buffer| > 0 ==> Flush(e, io).0.pendingBytes == 0
    ensures |e.buffer| == 0 ==> Flush(e, io).0.pendingBytes == e.pendingBytes
  {
    hide ParseFrom, WriteAt, Written, ClearFlags;
  }

  lemma NewestOfAdded(rs: seq<Record>, r: Record, id: U64)
    ensures Newest(rs + [r], id) == if id == r.id then Some(r) else Newest(rs, id)
  {
    assert (rs + [r])[..|rs|] == rs;
  }

  /** The record just added is what its id answers: from the buffer, or from the file after a flush that succeeded. */
  lemma AddedIsFound(e: Eng, g: Books, r: Record, threshold: nat, io: FlushIo)
    requires Consistent(e, g) && WellFormed(r) && e.pos <= |e.file|
    requires Appending(e, g) || e.pendingBytes + Size(r) < threshold
    ensures var (f, st) := AddRecord(e, r, threshold, io);
            st == Ok ==> f.mapSize <= |f.file| && Lookup(f, r.id) == AnswerOf(Some(r))
  {
    hide Consistent, Flush, Lookup, AnswerOf, Enc, Size, WellFormed, Newest, BufferOk, Spoils, OnBoundary, Written, EncAll, Entries;
    PushKeeps(e, g, r);
    var p, h := Push(e, r), g.(pending := g.pending + [r], log := g.log + [r]);
    NewestOfAdded(g.pending, r, r.id);
    NewestOfAdded(g.log, r, r.id);
    if p.pendingBytes < threshold {
      ConsistentParts(p, h);
      BufferBounds(p, h);
      BufferedLookup(p, h, r.id);
    } else if Flush(p, io).1 == Ok {
      var h2 := FlushKeeps(p, h, io);
      NotSpoiled(p, h, io);
      AppendedFile(Flush(p, io).0, h2);
      LookupIsNewest(Flush(p, io).0, h2, r.id);
    }
  }

  lemma ConsistentParts(e: Eng, g: Books)
    requires Consistent(e, g)
    ensures BufferOk(e, g)
  {
    hide BufferOk, FileOk, MapOk, SameView;
  }

  /** On a mapped log, adding a record changes what no other id answers, whatever fails short of the reload. */
  lemma OthersAnswerAsBefore(e: Eng, g: Books, r: Record, threshold: nat, io: FlushIo, other: U64)
    requires Consistent(e, g) && Appending(e, g) && WellFormed(r) && e.pos <= |e.file| && e.mapSize > 0 && other != r.id
    ensures var f := AddRecord(e, r, threshold, io).0;
            e.mapSize <= |e.file| && (f.mapSize > 0 ==> f.mapSize <= |f.file| && Lookup(f, other) == Lookup(e, other))
  {
    hide Consistent, Flush, FlushOut, Lookup, AnswerOf, Enc, Size, WellFormed, Newest, BufferOk, Spoils, OnBoundary, Written, EncAll, Entries;
    PushKeeps(e, g, r);
    var p, h := Push(e, r), g.(pending := g.pending + [r], log := g.log + [r]);
    NewestOfAdded(g.log, r, other);
    AppendedFile(e, g);
    LookupIsNewest(e, g, other);
    if p.pendingBytes < threshold {
      AppendedFile(p, h);
      LookupIsNewest(p, h, other);
    } else {
      var h2 := FlushKeeps(p, h, io);
      NotSpoiled(p, h, io);
      AppendedFile(Flush(p, io).0, h2);
      if Flush(p, io).0.mapSize > 0 {
        LookupIsNewest(Flush(p, io).0, h2, other);
      }
    }
  }

  /** A raw vector appended with success reads back word for word. */
  lemma AppendedVectorIsFound(e: Eng, g: Books, id: U64, vec: seq<U32>, tenant: seq<Byte>, threshold: nat, io: FlushIo)
    requires Consistent(e, g) && Appending(e, g) && e.pos <= |e.file| && |vec| < TWO_32 && |tenant| < TWO_32
    ensures var (f, st) := AddRecord(e, RecordFor(None, id, vec, tenant), threshold, io);
            st == Ok ==> f.mapSize <= |f.file| && Lookup(f, id) == Found(|vec|, Raw(vec))
  {
    hide Consistent, Lookup, AddRecord;
    AddedIsFound(e, g, RecordFor(None, id, vec, tenant), threshold, io);
  }

  /** A quantized vector appended with success reads back as its range and one code for each of its values. */
  lemma AppendedCodesAreFound(e: Eng, g: Books, q: Quantizer, id: U64, vec: seq<U32>, tenant: seq<Byte>, threshold: nat, io: FlushIo)
    requires Consistent(e, g) && Appending(e, g) && e.pos <= |e.file| && |vec| < TWO_32 && |tenant| < TWO_32
    ensures var (f, st) := AddRecord(e, RecordFor(Some(q), id, vec, tenant), threshold, io);
            var (mn, mx) := q.range(vec);
            var codes := seq<Byte>(|vec|, i requires 0 <= i < |vec| => q.code(mn, mx, vec[i]));
            st == Ok ==> f.mapSize <= |f.file| && Lookup(f, id) == Found(|vec|, Sq8(mn, mx, codes))
  {
    hide Consistent, Lookup, AddRecord;
    var r := RecordFor(Some(q), id, vec, tenant);
    var (mn, mx) := q.range(vec);
    assert r.body.codes == seq<Byte>(|vec|, i requires 0 <= i < |vec| => q.code(mn, mx, vec[i]));
    AddedIsFound(e, g, r, threshold, io);
  }

  /** An id deleted with success answers Deleted. */
  lemma DeletedIsGone(e: Eng, g: Books, id: U64, threshold: nat, io: FlushIo)
    requires Consistent(e, g) && Appending(e, g) && e.pos <= |e.file|
    ensures var (f, st) := AddRecord(e, TombFor(id, e.dim), threshold, io);
            st == Ok ==> f.mapSize <= |f.file| && Lookup(f, id) == Deleted
  {
    hide Consistent, Lookup, AddRecord;
    AddedIsFound(e, g, TombFor(id, e.dim), threshold, io);
  }

  // ---------------------------------------------------------------- batches

  /** Where coordinate j of the i-th vector stands among vectors of d coordinates. */
  function Spot(d: U32, i: nat, j: nat): nat {
    i * d + j
  }

  /** The vector a record holds is the i-th of the batch, coordinate by coordinate. */
  ghost predicate HoldsVector(r: Record, q: Option<Quantizer>, vectors: seq<U32>, d: U32, i: nat) {
    match q
    case None =>
      && r.body.Raw? && |r.body.words| == d
      && (forall j: nat :: j < d ==> Spot(d, i, j) < |vectors| && r.body.words[j] == vectors[Spot(d, i, j)])
    case Some(z) =>
      && r.body.Sq8? && |r.body.codes| == d && (r.body.minVal, r.body.maxVal) == z.range(vectors)
      && (forall j: nat :: j < d ==> Spot(d, i, j) < |vectors| &&
                                     r.body.codes[j] == z.code(r.body.minVal, r.body.maxVal, vectors[Spot(d, i, j)]))
  }

  lemma {:induction false} BatchRecordsAt(q: Option<Quantizer>, ids: seq<U64>, vectors: seq<U32>, d: U32, n: nat, i: nat)
    requires i < n <= |ids| && |vectors| == |ids| * d
    ensures BatchRecords(q, ids, vectors, d, n)[i] == BatchRecord(q, ids, vectors, d, i)
    decreases n
  {
    hide BatchRecord;
    if i < n - 1 {
      BatchRecordsAt(q, ids, vectors, d, n - 1, i);
    }
  }

  lemma SliceAt(vectors: seq<U32>, d: U32, i: nat, n: nat, j: nat)
    requires i < n && |vectors| == n * d && j < d
    ensures Spot(d, i, j) < |vectors| && VectorAt(vectors, d, i, n)[j] == vectors[Spot(d, i, j)]
  {
    assert (i + 1) * d <= n * d && i * d + d == (i + 1) * d;
  }

  lemma BatchRecordHolds(q: Option<Quantizer>, ids: seq<U64>, vectors: seq<U32>, d: U32, i: nat)
    requires i < |ids| && |vectors| == |ids| * d
    ensures var r := BatchRecord(q, ids, vectors, d, i);
            r.id == ids[i] && r.dim == d && r.meta == [] && HoldsVector(r, q, vectors, d, i)
  {
    hide VectorAt, Spot;
    forall j: nat | j < d
      ensures Spot(d, i, j) < |vectors| && VectorAt(vectors, d, i, |ids|)[j] == vectors[Spot(d, i, j)]
    {
      SliceAt(vectors, d, i, |ids|, j);
    }
  }

  lemma PushedSome(e: Eng, rs: seq<Record>)
    requires AllWellFormed(rs) && |rs| > 0
    ensures |PushAll(e, rs).buffer| > 0
  {
    hide EncAll, PushAll, WellFormed;
    PushedAll(e, rs);
    EncSome(rs);
  }

  /** The log has grown by one record for each of the first ids in turn, holding the vector at that id's place. */
  ghost predicate BatchAdded(before: seq<Record>, after: seq<Record>, q: Option<Quantizer>,
                             ids: seq<U64>, vectors: seq<U32>, d: U32)
  {
    && |before| <= |after| <= |before| + |ids| && before <= after
    && forall i: nat :: i < |after| - |before| ==> AddedAt(before, after, q, ids, vectors, d, i)
  }

  /** The i-th record added is that of the i-th id. */
  ghost predicate AddedAt(before: seq<Record>, after: seq<Record>, q: Option<Quantizer>,
                          ids: seq<U64>, vectors: seq<U32>, d: U32, i: nat)
  {
    && i < |ids| && |before| + i < |after|
    && var r := after[|before| + i];
       r.id == ids[i] && r.dim == d && r.meta == [] && HoldsVector(r, q, vectors, d, i)
  }

  lemma NothingAdded(log: seq<Record>, q: Option<Quantizer>, ids: seq<U64>, vectors: seq<U32>, d: U32)
    ensures BatchAdded(log, log, q, ids, vectors, d)
  {
  }

  lemma BatchLoggedAdds(before: seq<Record>, after: seq<Record>, q: Option<Quantizer>,
                        ids: seq<U64>, vectors: seq<U32>, d: U32, k: nat)
    requires BatchLogged(before, after, q, ids, vectors, d, k)
    ensures |after| == |before| + k && BatchAdded(before, after, q, ids, vectors, d)
  {
    hide BatchRecord, HoldsVector, BatchRecords;
    forall i: nat | i < k ensures AddedAt(before, after, q, ids, vectors, d, i) {
      BatchRecordsAt(q, ids, vectors, d, k, i);
      BatchRecordHolds(q, ids, vectors, d, i);
    }
  }

  lemma BatchLoggedNext(before: seq<Record>, mid: seq<Record>, q: Option<Quantizer>,
                        ids: seq<U64>, vectors: seq<U32>, d: U32, k: nat)
    requires BatchLogged(before, mid, q, ids, vectors, d, k) && k < |ids|
    ensures BatchLogged(before, mid + [BatchRecord(q, ids, vectors, d, k)], q, ids, vectors, d, k + 1)
  {
    hide BatchRecord;
  }

  lemma RawNext(e: Eng, ids: seq<U64>, vectors: seq<U32>, d: U32, n: nat, threshold: nat, ios: nat -> FlushIo, f: Eng)
    requires e.pos <= |e.file| && n < |ids| && |vectors| == |ids| * d && d > 0
    requires AddRaw(e, ids, vectors, d, n, threshold, ios) == (f, Ok)
    ensures f.pos <= |f.file|
    ensures AddRaw(e, ids, vectors, d, n + 1, threshold, ios) ==
            AddRecord(f, BatchRecord(None, ids, vectors, d, n), threshold, ios(n))
  {
    hide AddRecord, BatchRecord;
  }

  lemma RawNothing(e: Eng, log: seq<Record>, ids: seq<U64>, vectors: seq<U32>, d: U32, threshold: nat, ios: nat -> FlushIo)
    requires e.pos <= |e.file| && |vectors| == |ids| * d && d > 0
    ensures AddRaw(e, ids, vectors, d, 0, threshold, ios) == (e, Ok) && BatchLogged(log, log, None, ids, vectors, d, 0)
  {
    assert log + [] == log;
  }
}
