/**
 Newest record wins: whatever flushes happen and however they fail, a lookup
 tells the last record appended for an id, as long as the file is still a log.
 */
module EngineProofs {
  import opened Prelude
  import opened Bytes
  import opened LogFormat
  import opened EngineSpec

  // ---------------------------------------------------------------- lookups

  lemma BufferedLookup(e: Eng, g: Books, id: U64)
    requires BufferOk(e, g) && Newest(g.pending, id).Some?
    ensures Lookup(e, id) == AnswerOf(Newest(g.pending, id))
  {
    hide EncAll, Entries, WellFormed, Fetch, Size;
    var es := Entries(g.pending, e.fileSize, true);
    var i := LastEntry(es, id, |es|);
    assert g.pending[..|g.pending|] == g.pending;
    LastEntryIsNewest(g.pending, e.fileSize, true, id, |g.pending|);
    LastEntryConcat(g.stale, es, id, |g.stale| + |es|);
    EntriesAt(g.pending, e.fileSize, true, i);
    if !g.pending[i].body.Tomb? {
      WholeLies(e.buffer);
      FetchLaidOut(e.buffer, 0, g.pending, i);
    }
  }

  lemma WholeLies(b: seq<Byte>)
    ensures Lies(b, 0, b)
  {
  }

  lemma MappedLookup(e: Eng, g: Books, id: U64)
    requires BufferOk(e, g) && FileOk(e, g) && MapOk(e, g) && e.mapSize > 0 && Newest(g.pending, id).None?
    ensures Lookup(e, id) == AnswerOf(Newest(g.durable[..g.indexed], id))
  {
    hide EncAll, Entries, WellFormed, Fetch, Size, LogFile, Incomplete;
    var es := Entries(g.pending, e.fileSize, true);
    var rs := g.durable[..g.indexed];
    assert g.pending[..|g.pending|] == g.pending;
    assert rs[..|rs|] == rs;
    LastEntryIsNewest(g.pending, e.fileSize, true, id, |g.pending|);
    LastEntryIsNewest(rs, 64, false, id, |rs|);
    LastEntryConcat(g.stale, es, id, |g.stale| + |es|);
    var i := LastEntry(g.stale, id, |g.stale|);
    if i < |rs| {
      EntriesAt(rs, 64, false, i);
      if !rs[i].body.Tomb? {
        MapLies(e, g);
        FetchLaidOut(e.file[..e.mapSize], 64, rs, i);
      }
    }
  }

  lemma MapLies(e: Eng, g: Books)
    requires FileOk(e, g) && MapOk(e, g) && 0 < e.mapSize <= |e.file|
    ensures Lies(e.file[..e.mapSize], 64, EncAll(g.durable[..g.indexed]))
  {
    hide EncAll, LogFile, Entries, Incomplete;
    var rs, more := g.durable[..g.indexed], g.durable[g.indexed..];
    assert rs + more == g.durable;
    EncAllConcat(rs, more);
    LogParts(e.dim, g.durable, g.tail);
    LiesConcat(e.file, 64, EncAll(rs), EncAll(more));
    var n := |EncAll(rs)|;
    assert e.file[..e.mapSize][64..64 + n] == e.file[64..64 + n];
  }

  /** NEWEST WINS: with the map loaded and the file still a log, Get tells the last record appended for the id. */
  lemma LookupIsNewest(e: Eng, g: Books, id: U64)
    requires Consistent(e, g) && !g.lost && e.mapSize > 0
    ensures Lookup(e, id) == AnswerOf(Newest(g.log, id))
  {
    hide BufferOk, FileOk, MapOk, Lookup;
    BufferBounds(e, g);
    FileBounds(e, g);
    NewestConcat(g.durable[..g.indexed], g.pending, id);
    if Newest(g.pending, id).Some? {
      BufferedLookup(e, g, id);
    } else {
      MappedLookup(e, g, id);
    }
  }

  lemma BufferBounds(e: Eng, g: Books)
    requires BufferOk(e, g)
    ensures e.mapSize <= |e.file| && e.pos <= |e.file| && AllWellFormed(g.pending)
  {
  }

  lemma FileBounds(e: Eng, g: Books)
    requires FileOk(e, g)
    ensures g.indexed <= |g.durable| && AllWellFormed(g.durable)
  {
  }

  // ---------------------------------------------------------------- appends

  lemma PushKeeps(e: Eng, g: Books, r: Record)
    requires Consistent(e, g) && WellFormed(r)
    ensures Consistent(Push(e, r), g.(pending := g.pending + [r], log := g.log + [r]))
  {
    hide BufferOk, FileOk, MapOk, SameView, WellFormed;
    PushBuffer(e, g, r);
    if !g.lost {
      FileBounds(e, g);
      PushFile(e, g, r);
      PushView(g, r);
    }
  }

  lemma PushBuffer(e: Eng, g: Books, r: Record)
    requires BufferOk(e, g) && WellFormed(r)
    ensures BufferOk(Push(e, r), g.(pending := g.pending + [r], log := g.log + [r]))
  {
    hide EncAll, Enc, Entries, WellFormed;
    EncAllConcat(g.pending, [r]);
    EncAllOne(r);
    EntriesConcat(g.pending, [r], e.fileSize, true);
    OneEntry(r, e.fileSize + |e.buffer|);
    assert g.stale + (Entries(g.pending, e.fileSize, true) + Entries([r], e.fileSize + |e.buffer|, true)) ==
           Push(e, r).index;
  }

  lemma OneEntry(r: Record, off: nat)
    ensures Entries([r], off, true) == [Entry(r.id, off, Size(r), r.body.Tomb?, true)]
  {
    assert [r][1..] == [];
  }

  lemma PushFile(e: Eng, g: Books, r: Record)
    requires FileOk(e, g) && MapOk(e, g) && WellFormed(r)
    ensures FileOk(Push(e, r), g.(pending := g.pending + [r], log := g.log + [r]))
    ensures MapOk(Push(e, r), g.(pending := g.pending + [r], log := g.log + [r]))
  {
    hide EncAll, Enc, Entries, LogFile, Incomplete, WellFormed;
  }

  lemma PushView(g: Books, r: Record)
    requires g.indexed <= |g.durable| && SameView(g)
    ensures SameView(g.(pending := g.pending + [r], log := g.log + [r]))
  {
    forall id: U64
      ensures Newest(g.durable[..g.indexed] + (g.pending + [r]), id) == Newest(g.log + [r], id)
    {
      assert g.durable[..g.indexed] + (g.pending + [r]) == (g.durable[..g.indexed] + g.pending) + [r];
      NewestConcat(g.durable[..g.indexed] + g.pending, [r], id);
      NewestConcat(g.log, [r], id);
    }
  }

  // ---------------------------------------------------------------- flushes

  lemma WriteAtEnd(file: seq<Byte>, data: seq<Byte>)
    ensures WriteAt(file, |file|, data) == file + data
  {
  }

  lemma WriteNothing(file: seq<Byte>, pos: nat)
    requires pos <= |file|
    ensures WriteAt(file, pos, []) == file
  {
  }

  lemma WriteGrows(file: seq<Byte>, pos: nat, data: seq<Byte>)
    requires pos <= |file|
    ensures |WriteAt(file, pos, data)| >= |file| && pos + |data| <= |WriteAt(file, pos, data)|
  {
  }

  /** The engine after a write that got w bytes out and then failed. */
  function AfterWrite(e: Eng, w: nat): Eng
    requires e.pos <= |e.file| && w <= |e.buffer|
  {
    e.(file := WriteAt(e.file, e.pos, e.buffer[..w]), pos := e.pos + w)
  }

  lemma AfterWriteBuffer(e: Eng, g: Books, g': Books, w: nat)
    requires BufferOk(e, g) && w <= |e.buffer| && g'.pending == g.pending && g'.stale == g.stale
    ensures BufferOk(AfterWrite(e, w), g')
  {
    hide EncAll, Entries, WellFormed;
    WriteGrows(e.file, e.pos, e.buffer[..w]);
  }

  /** A failed flush loses no buffered record; w bytes of junk stay in the file. */
  lemma FailedWriteKeeps(e: Eng, g: Books, w: nat) returns (g': Books)
    requires Consistent(e, g) && w <= |e.buffer|
    ensures BufferOk(e, g) && Consistent(AfterWrite(e, w), g')
    ensures g'.log == g.log && g'.pending == g.pending && g'.stale == g.stale
    ensures g'.lost <==> g.lost || (w > 0 && e.pos != |e.file|)
    ensures Appending(e, g) && OnBoundary(g.pending, w) ==> Appending(AfterWrite(e, w), g')
    ensures Appending(e, g) ==> !g'.lost && Incomplete(g'.tail)
    ensures !g'.lost ==> g'.indexed == g.indexed && g.durable <= g'.durable && (w == 0 ==> g' == g)
    ensures Appending(e, g) && w == |e.buffer| > 0 ==>
              g'.durable == g.durable + g.pending && Appending(AfterWrite(e, w), g')
  {
    hide BufferOk, FileOk, MapOk, SameView, WriteAt, EncAll, WellFormed, Incomplete, OnBoundary;
    BufferBounds(e, g);
    if g.lost || (w > 0 && e.pos != |e.file|) {
      g' := g.(lost := true);
    } else if w == 0 {
      g' := g;
      WriteNothing(e.file, e.pos);
      EmptyIncomplete();
    } else if g.tail == [] {
      g' := JunkAdded(e, g, w);
      WriteAtEnd(e.file, e.buffer[..w]);
    } else {
      g' := g.(tail := g.tail + e.buffer[..w]);
      JunkOnTail(e, g, w);
    }
    AfterWriteBuffer(e, g, g', w);
  }

  lemma EmptyIncomplete()
    ensures Incomplete([])
  {
  }

  lemma JunkOnTail(e: Eng, g: Books, w: nat)
    requires BufferOk(e, g) && FileOk(e, g) && SameView(g) && MapOk(e, g)
    requires 0 < w <= |e.buffer| && e.pos == |e.file|
    ensures var g' := g.(tail := g.tail + e.buffer[..w]);
            FileOk(AfterWrite(e, w), g') && SameView(g') && MapOk(AfterWrite(e, w), g')
  {
    hide EncAll, Entries, WellFormed, WriteAt, Incomplete;
    WriteAtEnd(e.file, e.buffer[..w]);
    EncNothing();
  }

  lemma EncNothing()
    ensures EncAll([]) == []
  {
  }

  lemma JunkAdded(e: Eng, g: Books, w: nat) returns (g': Books)
    requires BufferOk(e, g) && FileOk(e, g) && SameView(g) && MapOk(e, g)
    requires 0 < w <= |e.buffer| && e.pos == |e.file| && g.tail == []
    ensures FileOk(AfterWrite(e, w), g') && SameView(g') && MapOk(AfterWrite(e, w), g')
    ensures g' == g.(durable := g'.durable, tail := g'.tail) && Incomplete(g'.tail) && g.durable <= g'.durable
    ensures AllWellFormed(g.pending) && (OnBoundary(g.pending, w) ==> g'.tail == [])
    ensures w == |e.buffer| ==> g'.durable == g.durable + g.pending && g'.tail == []
  {
    hide EncAll, Entries, WellFormed, WriteAt, Incomplete, OnBoundary, SameView;
    var k, tail := CutRecords(g.pending, w);
    g' := g.(durable := g.durable + g.pending[..k], tail := tail);
    WriteAtEnd(e.file, e.buffer[..w]);
    EncAllConcat(g.durable, g.pending[..k]);
    JunkLayout(e.dim, g.durable, g.pending[..k], tail);
    assert g.pending[..|g.pending|] == g.pending;
    assert g'.durable[..g.indexed] == g.durable[..g.indexed];
    JunkView(g, g');
    if tail != [] {
      NotOnBoundary(g.pending, w, k, tail);
    }
  }

  lemma JunkView(g: Books, g': Books)
    requires g.indexed <= |g.durable| && g.indexed <= |g'.durable| && SameView(g)
    requires g'.durable[..g.indexed] == g.durable[..g.indexed]
    requires g'.indexed == g.indexed && g'.pending == g.pending && g'.log == g.log
    ensures SameView(g')
  {
  }

  lemma JunkLayout(dim: U32, a: seq<Record>, b: seq<Record>, tail: seq<Byte>)
    requires AllWellFormed(a) && AllWellFormed(b)
    ensures AllWellFormed(a + b) && LogFile(dim, a, []) + (EncAll(b) + tail) == LogFile(dim, a + b, tail)
  {
    hide EncAll, FileHeader;
    EncAllConcat(a, b);
  }

  lemma {:induction false} ParseNotBuffered(b: seq<Byte>, off: nat, i: nat)
    requires i < |ParseFrom(b, off)|
    ensures !ParseFrom(b, off)[i].inBuffer
    decreases i
  {
    hide RoundUp64, U32At, U64At;
    if i > 0 {
      ParseNotBuffered(b, off + ParseFrom(b, off)[0].length, i - 1);
    }
  }

  /** After the buffer has gone out, the view of the file alone is the view of everything appended. */
  lemma FlushedView(g: Books, stale: seq<Entry>)
    requires g.indexed <= |g.durable| && SameView(g)
    requires forall i :: g.indexed <= i < |g.durable| ==> g.durable[i] in g.pending
    ensures SameView(Books(g.durable + g.pending, |g.durable + g.pending|, [], [], g.log, stale, false))
  {
    var all := g.durable + g.pending;
    var a, junk := g.durable[..g.indexed], g.durable[g.indexed..];
    forall id: U64 ensures Newest(all[..|all|] + [], id) == Newest(g.log, id) {
      assert all[..|all|] + [] == a + junk + g.pending;
      RepeatsAreHarmless(a, junk, g.pending, id);
    }
  }

  lemma EmptyBufferOk(e: Eng, g: Books)
    requires g.pending == [] && e.buffer == [] && e.pendingBytes == 0 && e.index == g.stale
    requires forall i :: 0 <= i < |g.stale| ==> !g.stale[i].inBuffer
    requires e.pos <= |e.file| && e.mapSize <= |e.file|
    ensures BufferOk(e, g)
  {
    assert g.stale + [] == g.stale;
  }

  /** The index after a reload, or the old one with its flags cleared when the reload failed. */
  lemma ReloadedIndex(f: Eng, io: FlushIo)
    requires forall i :: 0 <= i < |f.index| ==> !f.index[i].inBuffer
    requires f.pos <= |f.file|
    ensures var e := Reload(f, io.fstatOk, io.mmapOk).0;
            && (forall i :: 0 <= i < |e.index| ==> !e.index[i].inBuffer)
            && e.file == f.file && e.pos == f.pos && e.buffer == f.buffer && e.pendingBytes == f.pendingBytes
            && e.dim == f.dim && e.mapSize <= |e.file|
            && (e.mapSize > 0 ==> e.mapSize == |e.file| && e.index == ParseFrom(e.file, 64))
            && (Reload(f, io.fstatOk, io.mmapOk).1 && |f.file| > 0 ==> e.mapSize > 0)
  {
    hide ParseFrom;
    forall i: nat | i < |ParseFrom(f.file, 64)| ensures !ParseFrom(f.file, 64)[i].inBuffer {
      ParseNotBuffered(f.file, 64, i);
    }
  }

  lemma LogReloaded(e: Eng, rs: seq<Record>, tail: seq<Byte>)
    requires AllWellFormed(rs) && Incomplete(tail) && e.file == LogFile(e.dim, rs, tail) && e.mapSize == |e.file|
    requires e.index == ParseFrom(e.file, 64)
    ensures e.index == Entries(rs, 64, false) && 64 + |EncAll(rs)| <= e.mapSize
  {
    hide ParseFrom, EncAll, LogFile, Entries, Incomplete;
    ParseLog(e.dim, rs, tail);
    LogParts(e.dim, rs, tail);
  }

  /** The engine with its buffer written out, before the reload. */
  function Drained(e: Eng): Eng
    requires e.pos <= |e.file|
  {
    e.(file := WriteAt(e.file, e.pos, e.buffer), pos := e.pos + |e.buffer|, fileSize := e.fileSize + |e.buffer|,
       buffer := [], pendingBytes := 0, index := ClearFlags(e.index))
  }

  lemma DrainedKeeps(e: Eng, g: Books, io: FlushIo) returns (g': Books)
    requires Consistent(e, g) && |e.buffer| > 0
    ensures BufferOk(e, g)
    ensures var e2 := Reload(Drained(e), io.fstatOk, io.mmapOk).0;
            && Consistent(e2, g') && g'.log == g.log && g'.pending == []
            && (g'.lost <==> !Appending(e, g))
            && (!g'.lost ==> g'.durable == g.durable + g.pending && Appending(e2, g') &&
                             (e2.mapSize > 0 ==> e2.index == Entries(g'.durable, 64, false)))
  {
    hide BufferOk, FileOk, MapOk, SameView, WriteAt, EncAll, WellFormed, Incomplete, ParseFrom, Reload, Entries;
    BufferBounds(e, g);
    var f := Drained(e);
    WriteGrows(e.file, e.pos, e.buffer);
    ReloadedIndex(f, io);
    var e2 := Reload(f, io.fstatOk, io.mmapOk).0;
    if Appending(e, g) {
      var all := g.durable + g.pending;
      g' := Books(all, |all|, [], [], g.log, e2.index, false);
      DrainedFile(e, g, e2);
    } else {
      g' := Books(g.durable, 0, g.tail, [], g.log, e2.index, true);
    }
    EmptyBufferOk(e2, g');
  }

  lemma DrainedFile(e: Eng, g: Books, e2: Eng)
    requires BufferOk(e, g) && FileOk(e, g) && SameView(g) && Appending(e, g) && |e.buffer| > 0
    requires e2.dim == e.dim && e2.file == WriteAt(e.file, e.pos, e.buffer) && e2.mapSize <= |e2.file|
    requires e2.mapSize > 0 ==> e2.mapSize == |e2.file| && e2.index == ParseFrom(e2.file, 64)
    ensures var all := g.durable + g.pending;
            var g' := Books(all, |all|, [], [], g.log, e2.index, false);
            && FileOk(e2, g') && SameView(g') && MapOk(e2, g')
            && (e2.mapSize > 0 ==> e2.index == Entries(all, 64, false))
            && |e2.file| == |e.file| + |e.buffer|
  {
    hide EncAll, WellFormed, WriteAt, Incomplete, ParseFrom, SameView, Entries;
    var all := g.durable + g.pending;
    WriteAtEnd(e.file, e.buffer);
    JunkLayout(e.dim, g.durable, g.pending, []);
    assert EncAll(g.pending) + [] == EncAll(g.pending);
    FlushedView(g, e2.index);
    EmptyIncomplete();
    assert all[..|all|] == all;
    if e2.mapSize > 0 {
      LogReloaded(e2, all, []);
    }
  }

  /** A flush with nothing buffered only reloads, and finds what is already indexed. */
  lemma IdleFlushKeeps(e: Eng, g: Books, io: FlushIo) returns (g': Books)
    requires Consistent(e, g) && |e.buffer| == 0
    ensures var e2 := Reload(e, io.fstatOk, io.mmapOk).0;
            && Consistent(e2, g') && g'.log == g.log && g'.pending == [] && g'.lost == g.lost
            && g'.durable == g.durable && g'.tail == g.tail && e2.file == e.file && e2.pos == e.pos
            && (!g'.lost && e2.mapSize > 0 ==> e2.index == Entries(g'.durable, 64, false))
  {
    hide FileOk, MapOk, SameView, EncAll, WellFormed, Incomplete, ParseFrom, Reload, Entries;
    NothingPending(e, g);
    ReloadedIndex(e, io);
    var e2 := Reload(e, io.fstatOk, io.mmapOk).0;
    g' := g.(stale := e2.index, indexed := if g.lost then g.indexed else |g.durable|);
    if !g.lost {
      IdleFile(e, g, e2);
    }
    EmptyBufferOk(e2, g');
  }

  lemma NothingPending(e: Eng, g: Books)
    requires BufferOk(e, g) && |e.buffer| == 0
    ensures g.pending == [] && e.index == g.stale
  {
    hide Enc;
    if |g.pending| > 0 {
      EncAllCons(g.pending);
    }
  }

  lemma JunkIsPending(g: Books)
    requires g.indexed < |g.durable|
    requires forall i :: g.indexed <= i < |g.durable| ==> g.durable[i] in g.pending
    ensures g.pending != []
  {
    assert g.durable[g.indexed] in g.pending;
  }

  lemma IdleFile(e: Eng, g: Books, e2: Eng)
    requires FileOk(e, g) && SameView(g) && g.pending == []
    requires e2.dim == e.dim && e2.file == e.file && e2.mapSize <= |e2.file|
    requires e2.mapSize > 0 ==> e2.mapSize == |e2.file| && e2.index == ParseFrom(e2.file, 64)
    ensures var g' := g.(stale := e2.index, indexed := |g.durable|);
            && FileOk(e2, g') && SameView(g') && MapOk(e2, g')
            && (e2.mapSize > 0 ==> e2.index == Entries(g.durable, 64, false))
  {
    hide EncAll, WellFormed, Incomplete, ParseFrom, LogFile, Entries;
    if g.indexed < |g.durable| {
      JunkIsPending(g);
    }
    assert g.durable[..|g.durable|] == g.durable;
    if e2.mapSize > 0 {
      LogReloaded(e2, g.durable, g.tail);
    }
  }

  /** The flush writes, but not at the end of a log of whole records, so that what it leaves is no log. */
  ghost predicate Spoils(e: Eng, g: Books, io: FlushIo) {
    var (w, all) := Written(|e.buffer|, io.writes);
    w > 0 && (e.pos != |e.file| || (all && io.fsyncOk && g.tail != []))
  }

  /**
   FLUSH.  Whether it succeeds, fails half way or fails to reload, a flush
   keeps every appended record visible: the log is unchanged, and the state
   stays consistent with it unless the write spoils the file.  After success
   the index parsed back from the file is that of all records in order.
   */
  lemma FlushKeeps(e: Eng, g: Books, io: FlushIo) returns (g': Books)
    requires Consistent(e, g)
    ensures BufferOk(e, g)
    ensures Consistent(Flush(e, io).0, g') && g'.log == g.log
    ensures g'.lost <==> g.lost || Spoils(e, g, io)
    ensures Flush(e, io).1.Ok? ==> g'.pending == [] && (Appending(e, g) ==> Appending(Flush(e, io).0, g'))
    ensures g'.pending == if FlushOut(e, io).1 then [] else g.pending
    ensures Appending(e, g) && |e.buffer| > 0 && Written(|e.buffer|, io.writes).1 ==>
              g'.durable == g.durable + g.pending && Appending(Flush(e, io).0, g')
    ensures Flush(e, io).1.Ok? && !g'.lost ==>
              && g'.durable == g.durable + g.pending
              && Flush(e, io).0.index == Entries(g'.durable, 64, false)
              && Flush(e, io).0.mapSize == |Flush(e, io).0.file|
    ensures Appending(e, g) && OnBoundary(g.pending, Written(|e.buffer|, io.writes).0) ==> Appending(Flush(e, io).0, g')
    ensures !FlushOut(e, io).1 && !g'.lost ==>
              && g'.stale == g.stale && g'.indexed == g.indexed && g.durable <= g'.durable
              && (Written(|e.buffer|, io.writes).0 == 0 ==> g' == g)
    ensures FlushOut(e, io).1 && !g'.lost ==> g'.durable == g.durable + g.pending
  {
    hide BufferOk, FileOk, MapOk, SameView, WriteAt, EncAll, WellFormed, Incomplete, ParseFrom, Reload, Entries, OnBoundary;
    BufferBounds(e, g);
    var (w, all) := Written(|e.buffer|, io.writes);
    if |e.buffer| == 0 {
      NothingPending(e, g);
      g' := IdleFlushKeeps(e, g, io);
      ReloadMaps(e, io);
      assert g.durable + g.pending == g.durable;
    } else if !all || !io.fsyncOk {
      g' := FailedWriteKeeps(e, g, w);
    } else {
      assert e.buffer[..w] == e.buffer;
      g' := DrainedKeeps(e, g, io);
      ReloadMaps(Drained(e), io);
    }
    LogNotEmpty(Flush(e, io).0, g');
  }

  lemma ReloadMaps(f: Eng, io: FlushIo)
    ensures var (e, ok) := Reload(f, io.fstatOk, io.mmapOk);
            (ok ==> e.mapSize == |e.file|) && (io.fstatOk && io.mmapOk ==> ok)
  {
  }

  lemma LogNotEmpty(e: Eng, g: Books)
    requires Consistent(e, g)
    ensures !g.lost ==> |e.file| >= 64
  {
  }

  // ---------------------------------------------------------------- consequences

  lemma ClearedConcat(a: seq<Entry>, b: seq<Entry>)
    requires forall i :: 0 <= i < |a| ==> !a[i].inBuffer
    ensures ClearFlags(a + b) == a + ClearFlags(b)
  {
  }

  lemma NotSpoiled(e: Eng, g: Books, io: FlushIo)
    requires Appending(e, g)
    ensures !Spoils(e, g, io)
  {
  }

  function PushAll(e: Eng, rs: seq<Record>): (f: Eng)
    requires AllWellFormed(rs)
    ensures f.pos == e.pos && f.file == e.file
    decreases |rs|
  {
    if |rs| == 0 then e else PushAll(Push(e, rs[0]), rs[1..])
  }

  lemma {:induction false} PushAllKeeps(e: Eng, g: Books, rs: seq<Record>)
    requires Consistent(e, g) && AllWellFormed(rs)
    ensures Consistent(PushAll(e, rs), g.(pending := g.pending + rs, log := g.log + rs))
    decreases |rs|
  {
    hide Consistent, Push, WellFormed;
    if |rs| == 0 {
      assert g.pending + rs == g.pending && g.log + rs == g.log;
    } else {
      PushKeeps(e, g, rs[0]);
      PushAllKeeps(Push(e, rs[0]), g.(pending := g.pending + [rs[0]], log := g.log + [rs[0]]), rs[1..]);
      assert g.pending + [rs[0]] + rs[1..] == g.pending + rs;
      assert g.log + [rs[0]] + rs[1..] == g.log + rs;
    }
  }

  /**
   Retry after a failed fsync: the records are in the file twice, and every
   lookup answers as if the first fsync had succeeded.
   */
  lemma FsyncRetryIsIdempotent(e: Eng, g: Books, bad: FlushIo, more: seq<Record>, good: FlushIo, id: U64)
    requires Consistent(e, g) && Appending(e, g) && |e.buffer| > 0 && AllWellFormed(more)
    requires Written(|e.buffer|, bad.writes).1 && !bad.fsyncOk
    requires e.pos <= |e.file|
    requires Flush(PushAll(Flush(e, bad).0, more), good).1.Ok?
    ensures var f := Flush(PushAll(Flush(e, bad).0, more), good).0;
            && f.mapSize <= |f.file|
            && Lookup(f, id) == AnswerOf(Newest(g.log + more, id))
            && AllWellFormed(g.durable + g.pending + (g.pending + more))
            && f.file == LogFile(e.dim, g.durable + g.pending + (g.pending + more), [])
  {
    hide Consistent, Flush, Lookup, Push, WellFormed, EncAll, LogFile, Entries, Written, Spoils;
    var g1 := FlushKeeps(e, g, bad);
    NotSpoiled(e, g, bad);
    FailedFsync(e, bad);
    var f1 := PushAll(Flush(e, bad).0, more);
    PushAllKeeps(Flush(e, bad).0, g1, more);
    var h1 := g1.(pending := g1.pending + more, log := g1.log + more);
    var g2 := FlushKeeps(f1, h1, good);
    NotSpoiled(f1, h1, good);
    var f := Flush(f1, good).0;
    AppendedFile(f, g2);
    LookupIsNewest(f, g2, id);
    DimKept(e, bad);
    DimKept(f1, good);
    PushedDim(Flush(e, bad).0, more);
  }

  lemma FailedFsync(e: Eng, io: FlushIo)
    requires e.pos <= |e.file| && |e.buffer| > 0 && !io.fsyncOk
    ensures !FlushOut(e, io).1
  {
  }

  lemma DimKept(e: Eng, io: FlushIo)
    requires e.pos <= |e.file|
    ensures Flush(e, io).0.dim == e.dim
  {
    hide ParseFrom, WriteAt, Written;
  }

  lemma {:induction false} PushedDim(e: Eng, rs: seq<Record>)
    requires AllWellFormed(rs)
    ensures PushAll(e, rs).dim == e.dim
    decreases |rs|
  {
    if |rs| > 0 {
      PushedDim(Push(e, rs[0]), rs[1..]);
    }
  }

  lemma AppendedFile(e: Eng, g: Books)
    requires Consistent(e, g) && !g.lost
    ensures AllWellFormed(g.durable) && |e.file| >= 64 && e.mapSize <= |e.file|
    ensures g.tail == [] ==> e.file == LogFile(e.dim, g.durable, [])
  {
  }

  // ---------------------------------------------------------------- a fresh file

  /** A file just created: its header is written and the descriptor stands behind it. */
  function Created(dim: U32): Eng {
    Eng(dim, FileHeader(dim), 64, 64, [], 0, 64, [])
  }

  lemma CreatedConsistent(dim: U32)
    requires dim > 0
    ensures Consistent(Created(dim), Books([], 0, [], [], [], [], false))
    ensures Appending(Created(dim), Books([], 0, [], [], [], [], false))
  {
    EncNothing();
    EmptyIncomplete();
    assert FileHeader(dim) + [] + [] == FileHeader(dim);
    hide FileHeader, Incomplete;
  }
}
