/**
 Lookups while no map is loaded, which is how a flush whose reload failed leaves
 the engine: the index still knows every record, but only the buffered ones and
 the tombstones can be told without the map.
 */
module EngineUnmapped {
  import opened Prelude
  import opened LogFormat
  import opened EngineSpec
  import opened EngineProofs

  // ---------------------------------------------------------------- what an index knows of an id

  /** The last entry of the id stands for the newest record of the id, wherever it points. */
  ghost predicate SeenAs(es: seq<Entry>, rs: seq<Record>, id: U64) {
    var i, newest := LastEntry(es, id, |es|), Newest(rs, id);
    if i == |es| then newest.None?
    else newest.Some? && es[i].tombstone == newest.value.body.Tomb? && es[i].length > 0
  }

  /** The entries outside the buffer stand for the records the index has taken from the file. */
  ghost predicate Seen(g: Books) {
    g.indexed <= |g.durable| && forall id: U64 :: SeenAs(g.stale, g.durable[..g.indexed], id)
  }

  lemma SizePositive(r: Record)
    ensures Size(r) > 0
  {
  }

  lemma EntriesSeen(rs: seq<Record>, off: nat, inBuffer: bool, id: U64)
    requires AllWellFormed(rs)
    ensures SeenAs(Entries(rs, off, inBuffer), rs, id)
  {
    hide Entries, EncAll, Size, WellFormed, Newest;
    assert rs[..|rs|] == rs;
    LastEntryIsNewest(rs, off, inBuffer, id, |rs|);
    var i := LastEntry(Entries(rs, off, inBuffer), id, |rs|);
    if i < |rs| {
      EntriesAt(rs, off, inBuffer, i);
      SizePositive(rs[i]);
    }
  }

  lemma SeenConcat(a: seq<Entry>, b: seq<Entry>, ra: seq<Record>, rb: seq<Record>, id: U64)
    requires SeenAs(a, ra, id) && SeenAs(b, rb, id)
    ensures SeenAs(a + b, ra + rb, id)
  {
    hide Newest, LastEntry;
    NewestConcat(ra, rb, id);
    LastEntryConcat(a, b, id, |a| + |b|);
  }

  lemma ClearedSeen(es: seq<Entry>, rs: seq<Record>, id: U64)
    requires SeenAs(es, rs, id)
    ensures SeenAs(ClearFlags(es), rs, id)
  {
    hide Newest, LastEntry;
    var cs := ClearFlags(es);
    var i, j := LastEntry(es, id, |es|), LastEntry(cs, id, |cs|);
    assert forall k :: 0 <= k < |es| ==> cs[k] == es[k].(inBuffer := false);
    if i < |es| {
      assert cs[i].id == id;
    }
    if j < |es| {
      assert es[j].id == id;
    }
  }

  /** What is written again in front of the buffered records changes nothing. */
  lemma IndexSeen(e: Eng, g: Books, id: U64)
    requires BufferOk(e, g) && FileOk(e, g) && Seen(g)
    ensures SeenAs(e.index, g.durable + g.pending, id)
  {
    hide EncAll, Entries, WellFormed, Newest, LastEntry, LogFile, Incomplete;
    var a, junk := g.durable[..g.indexed], g.durable[g.indexed..];
    EntriesSeen(g.pending, e.fileSize, true, id);
    SeenConcat(g.stale, Entries(g.pending, e.fileSize, true), a, g.pending, id);
    assert a + junk + g.pending == g.durable + g.pending;
    RepeatsAreHarmless(a, junk, g.pending, id);
  }

  // ---------------------------------------------------------------- flushes

  /** Once nothing waits, every record of the log is covered. */
  lemma AllIndexed(e: Eng, g: Books)
    requires Consistent(e, g) && !g.lost && g.pending == []
    ensures g.indexed == |g.durable|
  {
    hide SameView, MapOk, BufferOk, LogFile, Incomplete, EncAll;
    if g.indexed < |g.durable| {
      JunkIsPending(g);
    }
  }

  lemma PendingBytes(e: Eng, g: Books)
    requires Consistent(e, g)
    ensures AllWellFormed(g.pending) && e.buffer == EncAll(g.pending)
    ensures e.buffer == [] <==> g.pending == []
    ensures g.pending == [] ==> e.index == g.stale
  {
    hide SameView, FileOk, MapOk, WellFormed;
    EncNothing();
    if e.buffer == [] {
      NothingPending(e, g);
    }
  }

  /** A flush that wrote everything but could not map the file leaves the index with its flags cleared. */
  lemma UnmappedIndex(e: Eng, io: FlushIo)
    requires e.pos <= |e.file| && |e.file| > 0 && FlushOut(e, io).1 && Flush(e, io).0.mapSize == 0
    ensures Flush(e, io).0.index == if |e.buffer| == 0 then e.index else ClearFlags(e.index)
  {
    hide ParseFrom, WriteAt, Written, ClearFlags;
    var w := Written(|e.buffer|, io.writes).0;
    WriteGrows(e.file, e.pos, e.buffer[..w]);
  }

  lemma FlushSeen(e: Eng, g: Books, g': Books, io: FlushIo)
    requires Consistent(e, g) && !g.lost && Seen(g) && e.pos <= |e.file|
    requires Consistent(Flush(e, io).0, g') && !g'.lost
    requires !FlushOut(e, io).1 ==> g'.stale == g.stale && g'.indexed == g.indexed && g.durable <= g'.durable
    requires FlushOut(e, io).1 ==> g'.pending == [] && g'.durable == g.durable + g.pending
    ensures Seen(g')
  {
    hide Consistent, Flush, FlushOut, SeenAs;
    if !FlushOut(e, io).1 {
      assert g'.durable[..g.indexed] == g.durable[..g.indexed];
    } else {
      var f := Flush(e, io).0;
      AllIndexed(f, g');
      assert g'.durable[..|g'.durable|] == g'.durable;
      forall id: U64 ensures SeenAs(g'.stale, g'.durable, id) {
        DrainedSeen(e, g, g', io, id);
      }
    }
  }

  lemma DrainedSeen(e: Eng, g: Books, g': Books, io: FlushIo, id: U64)
    requires Consistent(e, g) && !g.lost && Seen(g) && e.pos <= |e.file|
    requires Consistent(Flush(e, io).0, g') && !g'.lost
    requires FlushOut(e, io).1 && g'.pending == [] && g'.durable == g.durable + g.pending
    ensures SeenAs(g'.stale, g'.durable, id)
  {
    hide Flush, FlushOut, SeenAs, BufferOk, FileOk, MapOk, SameView, Seen, EncAll, Entries, WellFormed, ClearFlags;
    var f := Flush(e, io).0;
    AllIndexed(f, g');
    PendingBytes(f, g');
    AppendedFile(f, g');
    AppendedFile(e, g);
    assert g'.durable[..|g'.durable|] == g'.durable;
    if f.mapSize > 0 {
      MapIndex(f, g');
      EntriesSeen(g'.durable, 64, false, id);
    } else {
      UnmappedIndex(e, io);
      IndexSeen(e, g, id);
      ClearedSeen(e.index, g'.durable, id);
    }
  }

  lemma MapIndex(e: Eng, g: Books)
    requires MapOk(e, g) && e.mapSize > 0
    ensures g.indexed <= |g.durable| && g.stale == Entries(g.durable[..g.indexed], 64, false)
  {
  }

  /** A map that covers the indexed records leaves nothing unseen. */
  lemma MappedSeen(e: Eng, g: Books)
    requires Consistent(e, g) && !g.lost && e.mapSize > 0
    ensures Seen(g)
  {
    hide FileOk, MapOk, SameView, BufferOk, SeenAs, EncAll, Entries, WellFormed;
    AppendedFile(e, g);
    MapIndex(e, g);
    forall id: U64 ensures SeenAs(g.stale, g.durable[..g.indexed], id) {
      EntriesSeen(g.durable[..g.indexed], 64, false, id);
    }
  }

  // ---------------------------------------------------------------- lookups

  /** The newest record can be told: the map is there, or the record waits in the buffer, is a tombstone or does not exist. */
  predicate Readable(e: Eng, newest: Option<Record>, waiting: seq<Record>, id: U64) {
    e.mapSize > 0 || newest.None? || newest.value.body.Tomb? || Newest(waiting, id).Some?
  }

  /** Without a map, a lookup of a record that is neither buffered nor a tombstone reports corruption; every other is right. */
  lemma UnmappedLookup(e: Eng, g: Books, id: U64)
    requires Consistent(e, g) && !g.lost && Seen(g) && e.mapSize == 0
    ensures Lookup(e, id) ==
            if Readable(e, Newest(g.log, id), g.pending, id) then AnswerOf(Newest(g.log, id)) else Corrupt
  {
    hide FileOk, MapOk, SeenAs, EncAll, Entries, WellFormed, Newest, LastEntry, Lookup, BufferOk;
    NewestConcat(g.durable[..g.indexed], g.pending, id);
    if Newest(g.pending, id).Some? {
      BufferedLookup(e, g, id);
    } else {
      assert SeenAs(g.stale, g.durable[..g.indexed], id);
      StaleLookup(e, g, id);
    }
  }

  lemma StaleLookup(e: Eng, g: Books, id: U64)
    requires BufferOk(e, g) && e.mapSize == 0 && g.indexed <= |g.durable|
    requires SeenAs(g.stale, g.durable[..g.indexed], id) && Newest(g.pending, id).None?
    ensures var newest := Newest(g.durable[..g.indexed], id);
            Lookup(e, id) == if newest.Some? && !newest.value.body.Tomb? then Corrupt else AnswerOf(newest)
  {
    hide EncAll, Entries, WellFormed, Newest, LastEntry, Fetch;
    var es := Entries(g.pending, e.fileSize, true);
    EntriesSeen(g.pending, e.fileSize, true, id);
    LastEntryConcat(g.stale, es, id, |g.stale| + |es|);
  }

  /**
   A lookup is right if and only if the newest record can be told; otherwise it
   reports corruption, never an older record and never a missing one.
   */
  lemma LookupIsNewestIff(e: Eng, g: Books, id: U64)
    requires Consistent(e, g) && !g.lost && Seen(g)
    ensures var newest := Newest(g.log, id);
            && e.mapSize <= |e.file|
            && (Lookup(e, id) == AnswerOf(newest) <==> Readable(e, newest, g.pending, id))
            && (Lookup(e, id) != AnswerOf(newest) ==> Lookup(e, id) == Corrupt)
  {
    hide Consistent, Seen, Lookup, Newest;
    AppendedFile(e, g);
    if e.mapSize > 0 {
      LookupIsNewest(e, g, id);
    } else {
      UnmappedLookup(e, g, id);
    }
  }
}
