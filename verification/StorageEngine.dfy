/**
 The engine as the program runs it.  Each method computes the corresponding
 transition on states, keeps Valid(), and says what happened to the log of
 appended records, which is what Get answers from.
 */
module StorageEngine {
  import opened Prelude
  import opened Bytes
  import opened LogFormat
  import opened EngineSpec
  import opened EngineProofs
  import opened EngineUnmapped
  import opened EngineRuns
  import opened EngineReports
  import opened EngineAppends

  // ---------------------------------------------------------------- opened files

  lemma OpenedConsistent(dim: U32, rs: seq<Record>, tail: seq<Byte>, io: FlushIo) returns (g: Books)
    requires dim > 0 && AllWellFormed(rs) && Incomplete(tail)
    ensures var e := Reload(Eng(dim, LogFile(dim, rs, tail), 0, |LogFile(dim, rs, tail)|, [], 0, 0, []), io.fstatOk, io.mmapOk).0;
            Consistent(e, g) && !g.lost && g.log == rs && g.durable == rs && g.tail == tail
  {
    var file := LogFile(dim, rs, tail);
    var e := Eng(dim, file, 0, |file|, [], 0, 0, []);
    var h := Books(rs, |rs|, tail, [], rs, [], false);
    assert rs[..|rs|] + [] == rs;
    assert SameView(h);
    EmptyBufferOk(e, h);
    hide EncAll, LogFile, Incomplete, SameView, BufferOk, Reload;
    g := IdleFlushKeeps(e, h, io);
  }

  /**
   An existing log opened by Open, any records appended and written out by a
   flush: Open accepts the file again if and only if there were none, and if
   there were some, it refuses the file whatever dimension it is given.
   */
  lemma OpenedLogOpensAgainIff(dim: U32, rs: seq<Record>, tail: seq<Byte>, first: FlushIo, more: seq<Record>, io: FlushIo)
    requires dim > 0 && AllWellFormed(rs) && Incomplete(tail) && AllWellFormed(more)
    requires Written(|EncAll(more)|, io.writes).1
    ensures var file := LogFile(dim, rs, tail);
            var e := PushAll(Reload(Eng(dim, file, 0, |file|, [], 0, 0, []), first.fstatOk, first.mmapOk).0, more);
            && e.pos <= |e.file| && (HeaderValid(Flush(e, io).0.file, dim) <==> more == [])
            && (more != [] ==> forall d: U32 :: !HeaderValid(Flush(e, io).0.file, d))
  {
    hide Consistent, EncAll, LogFile, Incomplete, HeaderValid, Flush, PushAll, ParseFrom;
    var g := OpenedConsistent(dim, rs, tail, first);
    var file := LogFile(dim, rs, tail);
    var e := Reload(Eng(dim, file, 0, |file|, [], 0, 0, []), first.fstatOk, first.mmapOk).0;
    ReopenedLogOpensAgainIff(e, g, more, io);
  }

  lemma UnknownConsistent(dim: U32, file: seq<Byte>, io: FlushIo) returns (g: Books)
    requires dim > 0
    ensures var e := Reload(Eng(dim, file, 0, |file|, [], 0, 0, []), io.fstatOk, io.mmapOk).0;
            Consistent(e, g) && g.lost
  {
    var e := Eng(dim, file, 0, |file|, [], 0, 0, []);
    var h := Books([], 0, [], [], [], [], true);
    EmptyBufferOk(e, h);
    hide BufferOk, Reload;
    g := IdleFlushKeeps(e, h, io);
  }

  lemma CreatedReload(dim: U32, io: FlushIo)
    requires dim > 0
    ensures var e := Reload(Eng(dim, FileHeader(dim), 64, 64, [], 0, 0, []), io.fstatOk, io.mmapOk);
            e.1 ==> e.0 == Created(dim)
  {
  }

  lemma ReloadFailedConsistent(dim: U32, io: FlushIo) returns (g: Books)
    requires dim > 0
    ensures var e := Reload(Eng(dim, FileHeader(dim), 64, 64, [], 0, 0, []), io.fstatOk, io.mmapOk).0;
            Consistent(e, g) && Appending(e, g) && g.log == []
  {
    CreatedConsistent(dim);
    var h := Books([], 0, [], [], [], [], false);
    var e := Eng(dim, FileHeader(dim), 64, 64, [], 0, 0, []);
    assert Consistent(e, h);
    hide Consistent, BufferOk, Reload, FileHeader;
    g := IdleFlushKeeps(e, h, io);
  }

  // ---------------------------------------------------------------- the engine

  class Engine {
    const quantizer: Quantizer
    var isOpen: bool
    var dim: U32
    var threshold: nat
    var useQuantization: bool
    var file: seq<Byte>
    var pos: nat
    var fileSize: nat
    var buffer: seq<Byte>
    var pendingBytes: nat
    var mapSize: nat
    var index: seq<Entry>
    ghost var books: Books

    ghost function State(): Eng
      reads this
    {
      Eng(dim, file, pos, fileSize, buffer, pendingBytes, mapSize, index)
    }

    ghost predicate Valid()
      reads this
    {
      if isOpen then Consistent(State(), books) else index == []
    }

    /** While the file is a log, the entries outside the buffer stand for its records, mapped or not. */
    ghost predicate Tracks()
      reads this
    {
      isOpen && (books.lost || Seen(books))
    }

    constructor (quantizer: Quantizer)
      ensures Valid() && !isOpen && file == []
    {
      this.quantizer := quantizer;
      isOpen, dim, threshold, useQuantization := false, 0, 32 * 1024 * 1024, true;
      file, pos, fileSize, buffer, pendingBytes, mapSize, index := [], 0, 0, [], 0, 0, [];
    }

    /** Forgets everything that was not flushed; the file stays as it is. */
    method Close()
      modifies this
      ensures Valid() && !isOpen && file == old(file)
      ensures buffer == [] && index == [] && pendingBytes == 0 && mapSize == 0 && fileSize == 0
    {
      isOpen, mapSize, fileSize, index, buffer, pendingBytes := false, 0, 0, [], [], 0;
    }

    /** BuildIndexFromMmap as a loop over record headers. */
    method BuildIndex(bytes: seq<Byte>) returns (es: seq<Entry>)
      ensures es == ParseFrom(bytes, 64)
    {
      hide RoundUp64, U32At, U64At;
      es := [];
      if |bytes| <= 64 {
        return;
      }
      var off := 64;
      while off + 64 <= |bytes|
        invariant es + ParseFrom(bytes, off) == ParseFrom(bytes, 64)
        decreases |bytes| - off
      {
        var flags := U32At(bytes, off + 12);
        var len := RecordSize(U32At(bytes, off + 8), U32At(bytes, off + 16), IsQuantized(flags));
        if off + len > |bytes| {
          break;
        }
        es := es + [Entry(U64At(bytes, off), off, len, IsTombstone(flags), false)];
        off := off + len;
      }
    }

    method ReloadMmap(io: FlushIo) returns (ok: bool)
      modifies `mapSize, `fileSize, `index
      ensures Reload(old(State()), io.fstatOk, io.mmapOk) == (State(), ok)
    {
      mapSize := 0;
      if !io.fstatOk {
        return false;
      }
      fileSize := |file|;
      if fileSize == 0 {
        index := [];
        return true;
      }
      if !io.mmapOk {
        return false;
      }
      mapSize := fileSize;
      index := BuildIndex(file);
      return true;
    }

    /** The write loop: goes on after short and interrupted writes, gives up on an error. */
    method WriteBuffer(writes: seq<WriteEvent>) returns (all: bool)
      requires pos <= |file|
      modifies `file, `pos
      ensures var (w, ok) := Written(|buffer|, writes);
              all == ok && pos == old(pos) + w && file == WriteAt(old(file), old(pos), buffer[..w])
    {
      hide WriteAt;
      var done, k := 0, 0;
      WriteNothing(file, pos);
      assert writes[0..] == writes && buffer[..0] == [];
      while done < |buffer| && k < |writes|
        invariant done <= |buffer| && k <= |writes| && pos == old(pos) + done && pos <= |file|
        invariant file == WriteAt(old(file), old(pos), buffer[..done])
        invariant var (w, ok) := Written(|buffer|, writes);
                  var (w2, ok2) := Written(|buffer| - done, writes[k..]); w == done + w2 && ok == ok2
      {
        var ev := writes[k];
        assert writes[k..][0] == ev && writes[k..][1..] == writes[k + 1..];
        if ev.Failed? {
          return false;
        }
        if ev.Wrote? {
          var n := Min(ev.n, |buffer| - done);
          WriteTwice(old(file), old(pos), buffer, done, n);
          file := WriteAt(file, pos, buffer[done..done + n]);
          pos := pos + n;
          done := done + n;
        }
        k := k + 1;
      }
      assert k == |writes| ==> writes[k..] == [];
      return done == |buffer|;
    }

    method FlushBufferToFile(io: FlushIo) returns (ok: bool)
      requires pos <= |file|
      modifies `file, `pos, `fileSize, `buffer, `pendingBytes, `index
      ensures FlushOut(old(State()), io) == (State(), ok)
    {
      if |buffer| == 0 {
        return true;
      }
      hide WriteAt, Written;
      var all := WriteBuffer(io.writes);
      if !all || !io.fsyncOk {
        return false;
      }
      fileSize := fileSize + |buffer|;
      buffer, pendingBytes := [], 0;
      index := ClearFlags(index);
      return true;
    }

    method FlushNow(io: FlushIo) returns (st: Status)
      requires Valid()
      modifies this
      ensures Valid() && isOpen == old(isOpen)
      ensures threshold == old(threshold) && useQuantization == old(useQuantization)
      ensures !isOpen ==> st == NotOpen && State() == old(State())
      ensures isOpen ==>
                && old(pos) <= |old(file)| && Flush(old(State()), io) == (State(), st)
                && books.log == old(books.log)
                && (books.lost <==> old(books.lost || Spoils(State(), books, io)))
                && (|old(file)| > 0 ==> st == if Succeeds(|old(buffer)|, io) then Ok else IOError)
      ensures old(Tracks()) ==> Tracks()
    {
      hide Consistent, Flush, FlushOut, Spoils, Appending, OnBoundary, EncAll, Written, BufferOk, Entries, Seen;
      if !isOpen {
        return NotOpen;
      }
      FlushBounds();
      if |file| > 0 {
        FlushSucceedsIff(State(), io);
      }
      ghost var g := FlushKeeps(State(), books, io);
      if !g.lost && Tracks() {
        FlushSeen(State(), books, g, io);
      }
      st := FlushAndMap(io);
      books := g;
    }

    method FlushAndMap(io: FlushIo) returns (st: Status)
      requires pos <= |file|
      modifies `file, `pos, `fileSize, `buffer, `pendingBytes, `index, `mapSize
      ensures Flush(old(State()), io) == (State(), st)
    {
      hide FlushOut, Reload;
      var ok := FlushBufferToFile(io);
      if !ok {
        return IOError;
      }
      ok := ReloadMmap(io);
      return if ok then Ok else IOError;
    }

    lemma FlushBounds()
      requires isOpen && Valid()
      ensures pos <= |file| && mapSize <= |file|
    {
    }

    /** Appends a record to the buffer and the index; flushes when the threshold is reached. */
    method Add(r: Record, io: FlushIo) returns (st: Status)
      requires Valid() && isOpen && WellFormed(r)
      modifies this
      ensures Valid() && isOpen && threshold == old(threshold) && dim == old(dim) && useQuantization == old(useQuantization)
      ensures old(pos) <= |old(file)| && AddRecord(old(State()), r, threshold, io) == (State(), st)
      ensures books.log == old(books.log) + [r]
      ensures old(pendingBytes) + Size(r) < threshold ==> st == Ok && file == old(file)
      ensures st == Ok ==> pendingBytes < threshold || pendingBytes == 0
      ensures old(Tracks()) ==> Tracks()
    {
      hide Consistent, Spoils, Flush, Enc, Size, WellFormed, SeenAs;
      FlushBounds();
      AddFlushesAtThreshold(State(), r, threshold, io);
      PushKeeps(State(), books, r);
      buffer := buffer + Enc(r);
      pendingBytes := pendingBytes + Size(r);
      index := index + [Entry(r.id, fileSize + |buffer| - Size(r), Size(r), r.body.Tomb?, true)];
      books := books.(pending := books.pending + [r], log := books.log + [r]);
      assert State() == Push(old(State()), r);
      st := Ok;
      if pendingBytes >= threshold {
        ghost var e := State();
        st := FlushNow(io);
        DimKept(e, io);
      }
    }

    method Append(id: U64, vec: seq<U32>, tenant: seq<Byte>, io: FlushIo) returns (st: Status)
      requires Valid() && |tenant| < TWO_32
      modifies this
      ensures Valid() && isOpen == old(isOpen)
      ensures !isOpen ==> st == NotOpen && State() == old(State())
      ensures isOpen && |vec| != old(dim) ==> st == InvalidArgument && State() == old(State()) && books == old(books)
      ensures isOpen && |vec| == old(dim) ==>
                var r := RecordFor(if old(useQuantization) then Some(quantizer) else None, id, vec, tenant);
                && old(pos) <= |old(file)| && AddRecord(old(State()), r, threshold, io) == (State(), st)
                && books.log == old(books.log) + [r]
      ensures isOpen && |vec| == old(dim) ==>
                && |books.log| == |old(books.log)| + 1 && books.log[..|old(books.log)|] == old(books.log)
                && var r := books.log[|old(books.log)|];
                   && r.id == id && r.dim == |vec| && r.meta == tenant
                   && (!old(useQuantization) ==> r.body == Raw(vec))
                   && (old(useQuantization) ==>
                         && r.body.Sq8? && (r.body.minVal, r.body.maxVal) == quantizer.range(vec) && |r.body.codes| == |vec|
                         && forall i :: 0 <= i < |vec| ==> r.body.codes[i] == quantizer.code(r.body.minVal, r.body.maxVal, vec[i]))
      ensures isOpen && |vec| == old(dim) && st == Ok ==> pendingBytes < threshold || pendingBytes == 0
      ensures threshold == old(threshold) && dim == old(dim) && useQuantization == old(useQuantization)
      ensures old(Tracks()) ==> Tracks()
    {
      hide Seen, AddRecord;
      if !isOpen {
        return NotOpen;
      }
      if |vec| != dim {
        return InvalidArgument;
      }
      var r := RecordFor(if useQuantization then Some(quantizer) else None, id, vec, tenant);
      st := Add(r, io);
    }

    /**
     Raw vectors are appended one by one, so that a flush may happen inside the
     batch; quantized ones share one value range and are flushed at most once.
     */
    method AppendBatch(ids: seq<U64>, vectors: seq<U32>, d: U32, ios: nat -> FlushIo) returns (st: Status)
      requires Valid()
      modifies this
      ensures Valid() && isOpen == old(isOpen)
      ensures !isOpen ==> st == NotOpen && State() == old(State())
      ensures isOpen && (d == 0 || (|ids| > 0 && |vectors| != |ids| * d)) ==> st == InvalidArgument && State() == old(State())
      ensures isOpen && d > 0 && |ids| == 0 ==> st == Ok && State() == old(State())
      ensures isOpen && d > 0 && |vectors| == |ids| * d && |ids| > 0 ==>
                var q := if old(useQuantization) then Some(quantizer) else None;
                && old(pos) <= |old(file)|
                && (q.None? && d != old(dim) ==> st == InvalidArgument && State() == old(State()))
                && (q.None? && d == old(dim) ==>
                      AddRaw(old(State()), ids, vectors, d, |ids|, old(threshold), ios) == (State(), st))
                && (q.Some? ==> AddQuantized(old(State()), quantizer, ids, vectors, d, old(threshold), ios(0)) == (State(), st))
                && exists k: nat :: BatchLogged(old(books.log), books.log, q, ids, vectors, d, k) &&
                                    (st == Ok || q.Some? ==> k == |ids|)
      ensures isOpen && d > 0 && |vectors| == |ids| * d ==>
                && (st == Ok ==> |books.log| == |old(books.log)| + |ids|)
                && BatchAdded(old(books.log), books.log, if old(useQuantization) then Some(quantizer) else None, ids, vectors, d)
      ensures isOpen && d > 0 && |ids| > 0 && st == Ok ==> pendingBytes < threshold || pendingBytes == 0
      ensures old(Tracks()) ==> Tracks()
    {
      hide Seen, AddRaw, AddQuantized, BatchAdded, BatchLogged, Consistent;
      ghost var q := if useQuantization then Some(quantizer) else None;
      NothingAdded(books.log, q, ids, vectors, d);
      if !isOpen {
        return NotOpen;
      }
      if d == 0 {
        return InvalidArgument;
      }
      if |ids| == 0 {
        return Ok;
      }
      if |vectors| != |ids| * d {
        return InvalidArgument;
      }
      if !useQuantization {
        st := AppendRawBatch(ids, vectors, d, ios);
      } else {
        st := AppendQuantizedBatch(ids, vectors, d, ios(0));
      }
      ghost var k: nat :| BatchLogged(old(books.log), books.log, q, ids, vectors, d, k) && (st == Ok || q.Some? ==> k == |ids|);
      BatchLoggedAdds(old(books.log), books.log, q, ids, vectors, d, k);
    }

    method AppendRawBatch(ids: seq<U64>, vectors: seq<U32>, d: U32, ios: nat -> FlushIo) returns (st: Status)
      requires Valid() && isOpen && !useQuantization && d > 0 && |vectors| == |ids| * d && |ids| > 0
      modifies this
      ensures Valid() && isOpen && old(pos) <= |old(file)|
      ensures d != old(dim) ==> st == InvalidArgument && State() == old(State())
      ensures d == old(dim) ==> AddRaw(old(State()), ids, vectors, d, |ids|, old(threshold), ios) == (State(), st)
      ensures exists k: nat :: BatchLogged(old(books.log), books.log, None, ids, vectors, d, k) && (st == Ok ==> k == |ids|)
      ensures threshold == old(threshold)
      ensures st == Ok ==> pendingBytes < threshold || pendingBytes == 0
      ensures old(Tracks()) ==> Tracks()
    {
      hide Consistent, WellFormed, AddRecord, Seen, AddRaw, BatchLogged;
      FlushBounds();
      var i := 0;
      RawNothing(State(), books.log, ids, vectors, d, threshold, ios);
      while i < |ids|
        invariant i <= |ids| && Valid() && isOpen && !useQuantization && dim == old(dim) && threshold == old(threshold)
        invariant d != dim ==> i == 0 && State() == old(State())
        invariant AddRaw(old(State()), ids, vectors, d, i, threshold, ios) == (State(), Ok)
        invariant BatchLogged(old(books.log), books.log, None, ids, vectors, d, i)
        invariant old(Tracks()) ==> Tracks()
        invariant i > 0 ==> pendingBytes < threshold || pendingBytes == 0
      {
        var v := VectorAt(vectors, d, i, |ids|);
        ghost var before := books.log;
        RawNext(old(State()), ids, vectors, d, i, threshold, ios, State());
        st := Append(ids[i], v, [], ios(i));
        if |v| != dim {
          return;
        }
        assert books.log == before + [BatchRecord(None, ids, vectors, d, i)];
        BatchLoggedNext(old(books.log), before, None, ids, vectors, d, i);
        if st != Ok {
          RawStops(old(State()), ids, vectors, d, i + 1, |ids|, threshold, ios);
          return;
        }
        i := i + 1;
      }
      return Ok;
    }

    method AppendQuantizedBatch(ids: seq<U64>, vectors: seq<U32>, d: U32, io: FlushIo) returns (st: Status)
      requires Valid() && isOpen && d > 0 && |vectors| == |ids| * d && |ids| > 0
      modifies this
      ensures Valid() && isOpen && old(pos) <= |old(file)| && threshold == old(threshold)
      ensures st == Ok ==> pendingBytes < threshold || pendingBytes == 0
      ensures AddQuantized(old(State()), quantizer, ids, vectors, d, old(threshold), io) == (State(), st)
      ensures BatchLogged(old(books.log), books.log, Some(quantizer), ids, vectors, d, |ids|)
      ensures old(Tracks()) ==> Tracks()
    {
      hide Consistent, WellFormed, Flush, Enc, Size, BatchRecord, Push, SeenAs;
      FlushBounds();
      var i := 0;
      assert books.log + [] == books.log;
      while i < |ids|
        invariant i <= |ids| && Valid() && isOpen && threshold == old(threshold)
        invariant State() == PushAll(old(State()), BatchRecords(Some(quantizer), ids, vectors, d, i))
        invariant books.log == old(books.log) + BatchRecords(Some(quantizer), ids, vectors, d, i)
        invariant old(Tracks()) ==> Tracks()
      {
        var r := BatchRecord(Some(quantizer), ids, vectors, d, i);
        PushKeeps(State(), books, r);
        ghost var e := State();
        buffer := buffer + Enc(r);
        pendingBytes := pendingBytes + Size(r);
        index := index + [Entry(r.id, fileSize + |buffer| - Size(r), Size(r), r.body.Tomb?, true)];
        books := books.(pending := books.pending + [r], log := books.log + [r]);
        PushIs(e, State(), r);
        PushSnoc(old(State()), BatchRecords(Some(quantizer), ids, vectors, d, i), r);
        i := i + 1;
      }
      st := Ok;
      if pendingBytes >= threshold {
        PushedSome(old(State()), BatchRecords(Some(quantizer), ids, vectors, d, |ids|));
        ghost var e := State();
        st := FlushNow(io);
        if st == Ok {
          FlushEmpties(e, io);
        }
      }
    }

    method Delete(id: U64, io: FlushIo) returns (st: Status)
      requires Valid()
      modifies this
      ensures Valid() && isOpen == old(isOpen)
      ensures !isOpen ==> st == NotOpen && State() == old(State())
      ensures isOpen ==>
                && old(pos) <= |old(file)| && AddRecord(old(State()), TombFor(id, dim), threshold, io) == (State(), st)
                && books.log == old(books.log) + [TombFor(id, dim)]
      ensures isOpen ==>
                && Newest(books.log, id).Some? && Newest(books.log, id).value.body.Tomb?
                && (forall other: U64 :: other != id ==> Newest(books.log, other) == Newest(old(books.log), other))
      ensures isOpen && st == Ok ==> pendingBytes < threshold || pendingBytes == 0
      ensures old(Tracks()) ==> Tracks()
    {
      hide Seen, Newest, AddRecord;
      if !isOpen {
        return NotOpen;
      }
      ghost var r := TombFor(id, dim);
      st := Add(TombFor(id, dim), io);
      forall other: U64 ensures Newest(books.log, other) == if other == id then Some(r) else Newest(old(books.log), other) {
        NewestOfAdded(old(books.log), r, other);
      }
    }

    /** Newest record wins, whether it is still in the buffer or already in the file. */
    method Get(id: U64) returns (a: Answer)
      requires Valid()
      ensures !isOpen ==> a == Missing
      ensures isOpen ==> mapSize <= |file| && a == Lookup(State(), id)
      ensures isOpen && !books.lost && mapSize > 0 ==> a == AnswerOf(Newest(books.log, id))
      ensures isOpen && Newest(books.pending, id).Some? ==> a == AnswerOf(Newest(books.pending, id))
      ensures Tracks() && !books.lost ==>
                var newest := Newest(books.log, id);
                && (a == AnswerOf(newest) <==> Readable(State(), newest, books.pending, id))
                && (a != AnswerOf(newest) ==> a == Corrupt)
    {
      hide Consistent, Fetch, AnswerOf, Newest, Seen, Readable;
      if isOpen {
        FlushBounds();
        LookupTells(State(), books, id);
        if Tracks() && !books.lost {
          LookupIsNewestIff(State(), books, id);
        }
      }
      var n := |index|;
      while n > 0 && index[n - 1].id != id
        invariant 0 <= n <= |index| && LastEntry(index, id, |index|) == LastEntry(index, id, n)
      {
        n := n - 1;
      }
      if n == 0 {
        return Missing;
      }
      var en := index[n - 1];
      if en.tombstone {
        return Deleted;
      }
      if en.inBuffer {
        if en.offset < fileSize || en.offset - fileSize + en.length > |buffer| {
          return Corrupt;
        }
        return Fetch(buffer, en.offset - fileSize);
      }
      if en.offset + en.length > mapSize {
        return Corrupt;
      }
      return Fetch(file[..mapSize], en.offset);
    }

    /**
     Opens a file.  A fresh one gets its header and the descriptor stays behind
     it; on an existing one the header is read without moving the descriptor.
     If the bytes are a log (`known`), the lookups start from its records.
     */
    method Open(bytes: seq<Byte>, dim: U32, threshold: nat, useQuantization: bool, io: OpenIo,
                ghost known: bool, ghost rs: seq<Record>, ghost tail: seq<Byte>) returns (st: Status)
      requires Valid()
      requires known ==> dim > 0 && AllWellFormed(rs) && Incomplete(tail) && bytes == LogFile(dim, rs, tail)
      modifies this
      ensures Valid()
      ensures dim == 0 ==> st == InvalidArgument
      ensures dim > 0 && io.openOk && io.fstatOk && |bytes| > 0 && (!io.headerOk || !HeaderValid(bytes, dim)) ==>
                st == Corruption && !isOpen
      ensures known && st.Ok? ==>
                isOpen && mapSize == |file| && file == bytes && pos == 0 && buffer == [] && !books.lost && books.log == rs
      ensures known && io == OpenIo(true, true, true, true, true) ==> st == Ok
      ensures bytes == [] && st.Ok? ==> isOpen && State() == Created(dim) && Appending(State(), books) && books.log == []
      ensures st.Ok? ==> Tracks()
      ensures st.Ok? <==> dim > 0 && io == OpenIo(true, true, true, true, true) && (bytes == [] || HeaderValid(bytes, dim))
      ensures dim > 0 && !st.Ok? ==>
                st == if io.openOk && io.fstatOk && |bytes| > 0 && (!io.headerOk || !HeaderValid(bytes, dim)) then Corruption else IOError
      ensures st.Ok? ==>
                && this.dim == dim && this.threshold == threshold && this.useQuantization == useQuantization
                && file == if bytes == [] then FileHeader(dim) else bytes
    {
      hide Consistent, HeaderValid, Created, Appending, LogFile, Incomplete, AllWellFormed, Seen, FileHeader;
      if dim == 0 {
        return InvalidArgument;
      }
      Close();
      this.dim, this.threshold, this.useQuantization := dim, threshold, useQuantization;
      pos := 0;
      if !io.openOk {
        return IOError;
      }
      file := bytes;
      if !io.fstatOk {
        return IOError;
      }
      fileSize := |file|;
      var rio := FlushIo([], false, io.refstatOk, io.mmapOk);
      var ok;
      if fileSize == 0 {
        if !io.headerOk {
          return IOError;
        }
        ok := AttachFresh(rio);
      } else {
        if !io.headerOk || !HeaderValid(file, dim) {
          HeaderKnown(dim, rs, tail, known, bytes);
          return Corruption;
        }
        ok := AttachExisting(rio, known, rs, tail);
      }
      return if ok then Ok else IOError;
    }

    /** Open on an empty file: write the header and map it. */
    method AttachFresh(io: FlushIo) returns (ok: bool)
      requires dim > 0 && buffer == [] && index == [] && pendingBytes == 0 && mapSize == 0
      modifies this
      ensures Valid() && isOpen && !books.lost && books.log == [] && (ok ==> Tracks())
      ensures ok ==> State() == Created(dim) && Appending(State(), books)
      ensures dim == old(dim) && threshold == old(threshold) && useQuantization == old(useQuantization)
      ensures file == FileHeader(dim) && (ok <==> io.fstatOk && io.mmapOk)
    {
      hide Consistent, Reload, Created, Appending, FileHeader, Seen;
      file, pos, fileSize := FileHeader(dim), 64, 64;
      CreatedReload(dim, io);
      books := ReloadFailedConsistent(dim, io);
      AppendingParts(Reload(State(), io.fstatOk, io.mmapOk).0, books);
      ReloadKeeps(State(), io);
      isOpen := true;
      ok := ReloadMmap(io);
      if ok {
        CreatedMapped(dim);
        MappedSeen(State(), books);
      }
    }

    /** Open on an existing file whose header is valid: map it and build the index. */
    method AttachExisting(io: FlushIo, ghost known: bool, ghost rs: seq<Record>, ghost tail: seq<Byte>) returns (ok: bool)
      requires dim > 0 && buffer == [] && index == [] && pendingBytes == 0 && mapSize == 0
      requires pos == 0 && fileSize == |file| > 0
      requires known ==> AllWellFormed(rs) && Incomplete(tail) && file == LogFile(dim, rs, tail)
      modifies this
      ensures Valid() && isOpen && (books.lost <==> !known) && (ok ==> Tracks())
      ensures file == old(file) && pos == 0 && buffer == [] && (ok ==> mapSize == |file|) && (known ==> books.log == rs)
      ensures dim == old(dim) && threshold == old(threshold) && useQuantization == old(useQuantization)
      ensures ok <==> io.fstatOk && io.mmapOk
    {
      hide Consistent, Reload, LogFile, Incomplete, AllWellFormed, Seen;
      if known {
        books := OpenedConsistent(dim, rs, tail, io);
      } else {
        books := UnknownConsistent(dim, file, io);
      }
      isOpen := true;
      ghost var e := State();
      ReloadMaps(e, io);
      ReloadKeeps(e, io);
      ok := ReloadMmap(io);
      if ok && known {
        MappedSeen(State(), books);
      }
    }
  }

  lemma AppendingParts(e: Eng, g: Books)
    requires Appending(e, g)
    ensures !g.lost
  {
  }

  lemma CreatedMapped(dim: U32)
    ensures Created(dim).mapSize > 0
  {
  }

  lemma ReloadKeeps(e: Eng, io: FlushIo)
    ensures var f := Reload(e, io.fstatOk, io.mmapOk).0; f.file == e.file && f.pos == e.pos && f.buffer == e.buffer && f.dim == e.dim
    ensures |e.file| > 0 ==> (Reload(e, io.fstatOk, io.mmapOk).1 <==> io.fstatOk && io.mmapOk)
  {
  }

  lemma PushIs(e: Eng, f: Eng, r: Record)
    requires WellFormed(r)
    requires f == e.(buffer := e.buffer + Enc(r), pendingBytes := e.pendingBytes + Size(r),
                     index := e.index + [Entry(r.id, e.fileSize + |e.buffer + Enc(r)| - Size(r), Size(r), r.body.Tomb?, true)])
    ensures f == Push(e, r)
  {
    hide Enc, Size;
  }

  lemma LookupTells(e: Eng, g: Books, id: U64)
    requires Consistent(e, g)
    ensures e.mapSize <= |e.file|
    ensures !g.lost && e.mapSize > 0 ==> Lookup(e, id) == AnswerOf(Newest(g.log, id))
    ensures Newest(g.pending, id).Some? ==> Lookup(e, id) == AnswerOf(Newest(g.pending, id))
  {
    hide BufferOk, FileOk, MapOk, SameView, Lookup, Newest;
    BufferBounds(e, g);
    if !g.lost && e.mapSize > 0 {
      LookupIsNewest(e, g, id);
    }
    if Newest(g.pending, id).Some? {
      BufferedLookup(e, g, id);
    }
  }

  lemma HeaderKnown(dim: U32, rs: seq<Record>, tail: seq<Byte>, known: bool, bytes: seq<Byte>)
    requires dim > 0 && (known ==> AllWellFormed(rs) && bytes == LogFile(dim, rs, tail))
    ensures known ==> HeaderValid(bytes, dim)
  {
    if known {
      HeaderIsValid(dim, rs, tail);
    }
  }

  lemma WriteTwice(file: seq<Byte>, pos: nat, data: seq<Byte>, done: nat, n: nat)
    requires pos <= |file| && done + n <= |data|
    ensures var f := WriteAt(file, pos, data[..done]);
            pos + done <= |f| && WriteAt(f, pos + done, data[done..done + n]) == WriteAt(file, pos, data[..done + n])
    ensures pos + done + n <= |WriteAt(file, pos, data[..done + n])|
  {
    assert data[..done + n] == data[..done] + data[done..done + n];
  }
}
