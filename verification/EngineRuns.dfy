/**
 Whole runs of the append-only engine: what a fresh log promises whatever fails,
 when a flush changes nothing but where records live, what a retry leaves, and
 what writing to a reopened log does to it.
 */
module EngineRuns {
  import opened Prelude
  import opened Bytes
  import opened LogFormat
  import opened EngineSpec
  import opened EngineProofs
  import opened EngineUnmapped

  datatype Op = OpAdd(record: Record) | OpFlush(io: FlushIo)

  function Step(e: Eng, op: Op): (f: Eng)
    requires e.pos <= |e.file| && (op.OpAdd? ==> WellFormed(op.record))
    ensures f.pos <= |f.file|
  {
    match op case OpAdd(r) => Push(e, r) case OpFlush(io) => Flush(e, io).0
  }

  ghost predicate AllAddable(ops: seq<Op>) {
    forall i :: 0 <= i < |ops| && ops[i].OpAdd? ==> WellFormed(ops[i].record)
  }

  function Run(e: Eng, ops: seq<Op>): (f: Eng)
    requires e.pos <= |e.file| && AllAddable(ops)
    ensures f.pos <= |f.file|
    decreases |ops|
  {
    if |ops| == 0 then e else Run(Step(e, ops[0]), ops[1..])
  }

  function Added(ops: seq<Op>): seq<Record> {
    if |ops| == 0 then []
    else (if ops[0].OpAdd? then [ops[0].record] else []) + Added(ops[1..])
  }

  // ---------------------------------------------------------------- torn records

  /** The flush gets a whole non-empty buffer out. */
  ghost predicate Completes(e: Eng, io: FlushIo)
    requires e.pos <= |e.file|
  {
    |e.buffer| > 0 && FlushOut(e, io).1
  }

  /** The flush's writes stop inside one of the buffered records. */
  ghost predicate Tears(e: Eng, pend: seq<Record>, io: FlushIo)
    requires AllWellFormed(pend)
  {
    !OnBoundary(pend, Written(|e.buffer|, io.writes).0)
  }

  /**
   No flush completes once a write has stopped inside a record; `pend` are the
   records waiting in the buffer, and `torn` says that one has.
   */
  ghost predicate NoFlushAfterTear(e: Eng, pend: seq<Record>, torn: bool, ops: seq<Op>)
    requires e.pos <= |e.file| && AllAddable(ops) && AllWellFormed(pend)
    decreases |ops|
  {
    |ops| == 0 ||
    match ops[0]
    case OpAdd(r) => NoFlushAfterTear(Step(e, ops[0]), pend + [r], torn, ops[1..])
    case OpFlush(io) =>
      && !(torn && Completes(e, io))
      && NoFlushAfterTear(Step(e, ops[0]), if FlushOut(e, io).1 then [] else pend, torn || Tears(e, pend, io), ops[1..])
  }

  /** The records waiting in the buffer after a run: those since the last flush that got its buffer out. */
  function Waiting(e: Eng, pend: seq<Record>, ops: seq<Op>): seq<Record>
    requires e.pos <= |e.file| && AllAddable(ops)
    decreases |ops|
  {
    if |ops| == 0 then pend
    else
      match ops[0]
      case OpAdd(r) => Waiting(Step(e, ops[0]), pend + [r], ops[1..])
      case OpFlush(io) => Waiting(Step(e, ops[0]), if FlushOut(e, io).1 then [] else pend, ops[1..])
  }

  /** A flush that succeeds settles the index; one that writes and fails unsettles it. */
  predicate StillAstray(e: Eng, astray: bool, io: FlushIo)
    requires e.pos <= |e.file|
  {
    !Flush(e, io).1.Ok? && (astray || (!FlushOut(e, io).1 && Written(|e.buffer|, io.writes).0 > 0))
  }

  /** After a run: some flush has written and failed, and none has succeeded since. */
  predicate Astray(e: Eng, astray: bool, ops: seq<Op>)
    requires e.pos <= |e.file| && AllAddable(ops)
    decreases |ops|
  {
    if |ops| == 0 then astray
    else Astray(Step(e, ops[0]), if ops[0].OpAdd? then astray else StillAstray(e, astray, ops[0].io), ops[1..])
  }

  // ---------------------------------------------------------------- what every run keeps

  /** A log that is only ever written at its end, and what map and index cover of it. */
  ghost predicate Growing(e: Eng, g: Books, torn: bool, astray: bool) {
    && Consistent(e, g) && !g.lost && e.pos == |e.file|
    && (!torn ==> g.tail == []) && (torn ==> g.pending != [])
    && Sized(e, g) && Seen(g) && Settled(e, g, torn, astray)
  }

  /** Unless the engine is astray, the index has every whole record of the file at its place. */
  ghost predicate Settled(e: Eng, g: Books, torn: bool, astray: bool) {
    && |g.stale| <= |g.durable|
    && (!astray ==> AllWellFormed(g.durable) && g.stale == Entries(g.durable, 64, false) &&
                    e.fileSize == 64 + |EncAll(g.durable)|)
    && (astray && !torn ==> |g.stale| < |g.durable|)
  }

  /** While a map is there, file_size_ is the size of the log up to the last indexed record. */
  ghost predicate Sized(e: Eng, g: Books) {
    e.mapSize > 0 ==>
      g.indexed <= |g.durable| && AllWellFormed(g.durable[..g.indexed]) &&
      e.fileSize == 64 + |EncAll(g.durable[..g.indexed])|
  }

  lemma GrowingParts(e: Eng, g: Books, torn: bool, astray: bool)
    requires Growing(e, g, torn, astray)
    ensures e.pos <= |e.file| && AllWellFormed(g.pending) && e.mapSize <= |e.file|
  {
    hide SameView, FileOk, MapOk, Sized, Seen, Settled;
  }

  lemma CreatedGrowing(dim: U32)
    requires dim > 0
    ensures Growing(Created(dim), Books([], 0, [], [], [], [], false), false, false)
  {
    hide Consistent, FileHeader;
    CreatedConsistent(dim);
    EncNothing();
  }

  lemma PushGrows(e: Eng, g: Books, torn: bool, astray: bool, r: Record)
    requires Growing(e, g, torn, astray) && WellFormed(r)
    ensures Growing(Push(e, r), g.(pending := g.pending + [r], log := g.log + [r]), torn, astray)
  {
    hide Consistent, WellFormed, EncAll, Enc, Entries, SeenAs;
    PushKeeps(e, g, r);
  }

  lemma FlushAtEnd(e: Eng, io: FlushIo)
    requires e.pos == |e.file|
    ensures var f := Flush(e, io).0; f.pos == |f.file|
    ensures Flush(e, io).1.Ok? ==> Flush(e, io).0.fileSize == |Flush(e, io).0.file|
    ensures FlushOut(e, io).1 && Flush(e, io).0.mapSize > 0 ==> Flush(e, io).0.fileSize == |Flush(e, io).0.file|
    ensures !FlushOut(e, io).1 ==> Flush(e, io).0.fileSize == e.fileSize && Flush(e, io).0.mapSize == e.mapSize
    ensures |e.buffer| == 0 ==> FlushOut(e, io).1
  {
    hide ParseFrom, WriteAt, Written;
    var w := Written(|e.buffer|, io.writes).0;
    WriteAtEnd(e.file, e.buffer[..w]);
  }

  lemma LogSize(e: Eng, g: Books)
    requires Consistent(e, g) && !g.lost && g.tail == []
    ensures AllWellFormed(g.durable) && |e.file| == 64 + |EncAll(g.durable)|
  {
    hide EncAll, SameView, MapOk, BufferOk, FileHeader;
  }

  lemma SizedAfter(f: Eng, g: Books)
    requires Consistent(f, g) && !g.lost && g.tail == [] && g.pending == []
    requires f.mapSize > 0 ==> f.fileSize == |f.file|
    ensures Sized(f, g)
  {
    hide Consistent, EncAll;
    AllIndexed(f, g);
    LogSize(f, g);
    assert g.durable[..|g.durable|] == g.durable;
  }

  /** A flush that does not complete behind a torn record keeps the log growing. */
  lemma FlushGrows(e: Eng, g: Books, torn: bool, astray: bool, io: FlushIo) returns (g': Books)
    requires Growing(e, g, torn, astray) && e.pos <= |e.file| && AllWellFormed(g.pending) && !(torn && Completes(e, io))
    ensures Growing(Flush(e, io).0, g', torn || Tears(e, g.pending, io), StillAstray(e, astray, io))
    ensures g'.log == g.log && g'.pending == if FlushOut(e, io).1 then [] else g.pending
    ensures Flush(e, io).1.Ok? ==> !torn && g.tail == []
  {
    hide Consistent, Flush, OnBoundary, FlushOut, EncAll, WellFormed, Written, Sized, Seen, Settled, StillAstray;
    g' := FlushKeeps(e, g, io);
    FlushAtEnd(e, io);
    FlushSpoils(e, g, torn, astray, io);
    EmptyBuffer(e, g, io);
    FlushSized(e, g, g', torn, astray, io);
    FlushSeen(e, g, g', io);
    FlushSettles(e, g, g', torn, astray, io);
  }

  lemma FlushSpoils(e: Eng, g: Books, torn: bool, astray: bool, io: FlushIo)
    requires Growing(e, g, torn, astray) && e.pos <= |e.file| && !(torn && Completes(e, io))
    ensures !Spoils(e, g, io)
    ensures FlushOut(e, io).1 ==> !torn
    ensures Flush(e, io).1.Ok? ==> FlushOut(e, io).1
  {
    hide FileOk, MapOk, SameView, Sized, Seen, Settled, EncAll, Entries, Reload, WriteAt;
    if |e.buffer| == 0 {
      NothingPending(e, g);
    }
  }

  /** What a flush does to the settled part of the index. */
  lemma FlushSettles(e: Eng, g: Books, g': Books, torn: bool, astray: bool, io: FlushIo)
    requires Growing(e, g, torn, astray) && e.pos <= |e.file| && AllWellFormed(g.pending)
    requires Consistent(Flush(e, io).0, g') && !g'.lost
    requires g'.pending == if FlushOut(e, io).1 then [] else g.pending
    requires FlushOut(e, io).1 ==> !torn && g'.tail == [] && g'.durable == g.durable + g.pending
    requires Flush(e, io).1.Ok? ==> FlushOut(e, io).1 && Flush(e, io).0.index == Entries(g'.durable, 64, false)
    requires !FlushOut(e, io).1 ==>
               && g'.stale == g.stale && g.durable <= g'.durable
               && (Written(|e.buffer|, io.writes).0 == 0 ==> g' == g)
    requires !torn && !Tears(e, g.pending, io) ==> g'.tail == []
    ensures Settled(Flush(e, io).0, g', torn || Tears(e, g.pending, io), StillAstray(e, astray, io))
  {
    hide Consistent, Flush, FlushOut, EncAll, WellFormed, Written, Sized, Seen, Entries, Tears, Settled;
    FlushAtEnd(e, io);
    if !FlushOut(e, io).1 {
      FailedSettles(e, g, g', torn, astray, io);
    } else if Flush(e, io).1.Ok? {
      SettledNow(Flush(e, io).0, g', torn || Tears(e, g.pending, io));
    } else {
      UnmappedSettles(e, g, g', astray, io);
      SettledParts(Flush(e, io).0, g', torn || Tears(e, g.pending, io), astray);
    }
  }

  lemma SettledParts(f: Eng, g: Books, torn: bool, astray: bool)
    requires Settled(f, g, false, astray)
    ensures Settled(f, g, torn, astray)
  {
  }

  lemma SettledNow(f: Eng, g: Books, torn: bool)
    requires Consistent(f, g) && !g.lost && g.tail == [] && g.pending == []
    requires f.fileSize == |f.file| && f.index == Entries(g.durable, 64, false)
    ensures Settled(f, g, torn, false)
  {
    hide Consistent, EncAll, Entries;
    LogSize(f, g);
    PendingBytes(f, g);
  }

  lemma FailedSettles(e: Eng, g: Books, g': Books, torn: bool, astray: bool, io: FlushIo)
    requires Growing(e, g, torn, astray) && e.pos <= |e.file| && AllWellFormed(g.pending) && !FlushOut(e, io).1
    requires Consistent(Flush(e, io).0, g') && !g'.lost && g'.stale == g.stale && g.durable <= g'.durable
    requires Written(|e.buffer|, io.writes).0 == 0 ==> g' == g
    requires !torn && !Tears(e, g.pending, io) ==> g'.tail == []
    ensures Settled(Flush(e, io).0, g', torn || Tears(e, g.pending, io), StillAstray(e, astray, io))
  {
    hide Consistent, EncAll, WellFormed, Written, Sized, Seen, Entries, Tears, ParseFrom, WriteAt;
    var w := Written(|e.buffer|, io.writes).0;
    if w > 0 && !torn && !Tears(e, g.pending, io) {
      LogSize(e, g);
      LogSize(Flush(e, io).0, g');
      WriteAtEnd(e.file, e.buffer[..w]);
      assert g'.durable != g.durable;
    }
  }

  /** The buffer is out but the file could not be mapped: what was settled stays so. */
  lemma UnmappedSettles(e: Eng, g: Books, g': Books, astray: bool, io: FlushIo)
    requires Growing(e, g, false, astray) && e.pos <= |e.file| && AllWellFormed(g.pending)
    requires FlushOut(e, io).1 && !Flush(e, io).1.Ok?
    requires Consistent(Flush(e, io).0, g') && !g'.lost && g'.pending == [] && g'.tail == []
    requires g'.durable == g.durable + g.pending
    ensures Settled(Flush(e, io).0, g', false, astray)
  {
    hide Consistent, Flush, FlushOut, EncAll, WellFormed, Sized, Seen, Entries, ClearFlags;
    var f := Flush(e, io).0;
    AppendedFile(e, g);
    FlushUnmapped(e, io);
    UnmappedIndex(e, io);
    PendingBytes(e, g);
    PendingBytes(f, g');
    AppendedFile(f, g');
    ClearedIndex(e, g);
    if !astray {
      EncAllConcat(g.durable, g.pending);
      EntriesConcat(g.durable, g.pending, 64, false);
      LogSize(f, g');
      LogSize(e, g);
    }
  }

  lemma FlushUnmapped(e: Eng, io: FlushIo)
    requires e.pos == |e.file| > 0 && FlushOut(e, io).1 && !Flush(e, io).1.Ok?
    ensures var f := Flush(e, io).0;
            && f.mapSize == 0 && |f.file| == |e.file| + |e.buffer|
            && (f.fileSize == |f.file| || f.fileSize == e.fileSize + |e.buffer|)
  {
    hide ParseFrom, WriteAt, Written, ClearFlags;
    var w := Written(|e.buffer|, io.writes).0;
    WriteAtEnd(e.file, e.buffer[..w]);
  }

  /** The index with its flags cleared: the settled entries, then those of the buffered records. */
  lemma ClearedIndex(e: Eng, g: Books)
    requires Consistent(e, g)
    ensures ClearFlags(e.index) == g.stale + Entries(g.pending, e.fileSize, false)
    ensures g.pending == [] ==> e.index == g.stale + Entries(g.pending, e.fileSize, false)
  {
    hide EncAll, Entries, FileOk, MapOk, SameView, ClearFlags;
    ClearedConcat(g.stale, Entries(g.pending, e.fileSize, true));
    ClearedEntries(g.pending, e.fileSize);
  }

  lemma EmptyBuffer(e: Eng, g: Books, io: FlushIo)
    requires Consistent(e, g) && AllWellFormed(g.pending)
    ensures Written(|e.buffer|, io.writes).1 ==> !Tears(e, g.pending, io)
    ensures e.pos <= |e.file| && FlushOut(e, io).1 ==> Written(|e.buffer|, io.writes).1
    ensures Tears(e, g.pending, io) ==> g.pending != []
  {
    hide FileOk, MapOk, SameView, Entries, WriteAt, WellFormed;
    assert g.pending[..|g.pending|] == g.pending;
    if g.pending == [] {
      EncNothing();
    }
  }

  lemma FlushSized(e: Eng, g: Books, g': Books, torn: bool, astray: bool, io: FlushIo)
    requires Growing(e, g, torn, astray) && e.pos <= |e.file| && Consistent(Flush(e, io).0, g') && !g'.lost
    requires g'.pending == if FlushOut(e, io).1 then [] else g.pending
    requires FlushOut(e, io).1 ==> g'.tail == []
    requires !FlushOut(e, io).1 ==> g'.indexed == g.indexed && g.durable <= g'.durable
    ensures Sized(Flush(e, io).0, g')
  {
    hide Consistent, Flush, FlushOut, EncAll;
    FlushAtEnd(e, io);
    if FlushOut(e, io).1 {
      SizedAfter(Flush(e, io).0, g');
    } else if e.mapSize > 0 {
      assert g'.durable[..g.indexed] == g.durable[..g.indexed];
    }
  }

  /** Every run in which no flush completes after a tear keeps file, buffer, map and index in step with what was appended. */
  lemma {:induction false} RunConsistent(e: Eng, g: Books, torn: bool, astray: bool, ops: seq<Op>) returns (g': Books, torn': bool)
    requires Growing(e, g, torn, astray) && e.pos <= |e.file| && AllAddable(ops) && AllWellFormed(g.pending)
    requires NoFlushAfterTear(e, g.pending, torn, ops)
    ensures Growing(Run(e, ops), g', torn', Astray(e, astray, ops))
    ensures g'.log == g.log + Added(ops) && g'.pending == Waiting(e, g.pending, ops)
    decreases |ops|
  {
    hide Growing, Flush, WellFormed, Tears, Completes, FlushOut, Push, StillAstray;
    if |ops| == 0 {
      g', torn' := g, torn;
      assert g.log + [] == g.log;
    } else {
      match ops[0] {
        case OpAdd(r) =>
          PushGrows(e, g, torn, astray, r);
          g', torn' := RunConsistent(Push(e, r), g.(pending := g.pending + [r], log := g.log + [r]), torn, astray, ops[1..]);
          assert g.log + [r] + Added(ops[1..]) == g.log + ([r] + Added(ops[1..]));
        case OpFlush(io) =>
          var h := FlushGrows(e, g, torn, astray, io);
          var t, a := torn || Tears(e, g.pending, io), StillAstray(e, astray, io);
          GrowingParts(Flush(e, io).0, h, t, a);
          g', torn' := RunConsistent(Flush(e, io).0, h, t, a, ops[1..]);
          assert [] + Added(ops[1..]) == Added(ops[1..]);
      }
    }
  }

  /**
   Over every run of appends, deletes and flushes on a log begun as a fresh
   file, with any write stopping anywhere and any fsync, fstat or mmap failing,
   as long as no flush completes after a write that stopped inside a record: a
   lookup tells the newest record of its id if and only if the file is mapped,
   or that record is still buffered, is a tombstone or does not exist.
   Otherwise it reports corruption.
   */
  lemma FreshRunNewestWins(dim: U32, ops: seq<Op>, id: U64)
    requires dim > 0 && AllAddable(ops) && NoFlushAfterTear(Created(dim), [], false, ops)
    ensures var e, newest := Run(Created(dim), ops), Newest(Added(ops), id);
            && e.mapSize <= |e.file|
            && (Lookup(e, id) == AnswerOf(newest) <==> Readable(e, newest, Waiting(Created(dim), [], ops), id))
            && (Lookup(e, id) != AnswerOf(newest) ==> Lookup(e, id) == Corrupt)
  {
    hide Consistent, Run, Created, Lookup, NoFlushAfterTear, Sized, Seen, Settled, Waiting, Astray, Readable, Newest;
    CreatedGrowing(dim);
    var g', torn' := RunConsistent(Created(dim), Books([], 0, [], [], [], [], false), false, false, ops);
    assert [] + Added(ops) == Added(ops);
    LookupIsNewestIff(Run(Created(dim), ops), g', id);
  }

  // ---------------------------------------------------------------- a flush only moves records

  lemma Covers(e: Eng, g: Books, torn: bool, astray: bool)
    requires Growing(e, g, torn, astray) && !torn && e.mapSize > 0
    ensures e.fileSize == |e.file| <==> !astray
  {
    hide SameView, BufferOk, LogFile, Incomplete, EncAll, Entries, Seen;
    LogSize(e, g);
    var rs, more := g.durable[..g.indexed], g.durable[g.indexed..];
    assert rs + more == g.durable;
    EncAllConcat(rs, more);
    if |more| > 0 {
      EncAllCons(more);
    } else {
      EncNothing();
      assert rs == g.durable;
    }
  }

  lemma ReindexesNow(e: Eng, g: Books, torn: bool, astray: bool, io: FlushIo)
    requires Growing(e, g, torn, astray) && e.pos <= |e.file| && AllWellFormed(g.pending) && !(torn && Completes(e, io))
    requires Flush(e, io).1.Ok?
    ensures Flush(e, io).0.index == ClearFlags(e.index) <==> !astray
    ensures e.mapSize > 0 ==> (e.fileSize == |e.file| <==> !astray)
  {
    hide Consistent, Flush, FlushOut, EncAll, WellFormed, Entries, Sized, Seen, ClearFlags, Completes;
    var h := FlushGrows(e, g, torn, astray, io);
    if e.mapSize > 0 {
      Covers(e, g, torn, astray);
    }
    var g' := FlushKeeps(e, g, io);
    NotSpoiled(e, g, io);
    ClearedIndex(e, g);
    if !astray {
      EntriesConcat(g.durable, g.pending, 64, false);
    } else {
      AppendedFile(Flush(e, io).0, g');
    }
  }

  /**
   At any point of any such run, mapped or not, a flush that succeeds leaves the
   index as it was with in_buffer cleared (same ids, offsets, lengths,
   tombstones and order) if and only if no flush has written and failed since
   the last one that succeeded.  While the file is mapped, that is the case if
   and only if the engine's file size is the size of the file.
   */
  lemma {:induction false} FlushReindexesIff(e: Eng, g: Books, torn: bool, astray: bool, ops: seq<Op>, io: FlushIo)
    requires Growing(e, g, torn, astray) && e.pos <= |e.file| && AllAddable(ops) && AllWellFormed(g.pending)
    requires AllAddable(ops + [OpFlush(io)]) && NoFlushAfterTear(e, g.pending, torn, ops + [OpFlush(io)])
    ensures var f := Run(e, ops);
            Flush(f, io).1.Ok? ==>
              && (Flush(f, io).0.index == ClearFlags(f.index) <==> !Astray(e, astray, ops))
              && (f.mapSize > 0 ==> (f.fileSize == |f.file| <==> !Astray(e, astray, ops)))
    decreases |ops|
  {
    hide Growing, Flush, WellFormed, Tears, Completes, FlushOut, Push, ClearFlags, StillAstray;
    var all := ops + [OpFlush(io)];
    if |ops| == 0 {
      if Flush(e, io).1.Ok? {
        ReindexesNow(e, g, torn, astray, io);
      }
    } else {
      assert all[0] == ops[0] && all[1..] == ops[1..] + [OpFlush(io)];
      match ops[0] {
        case OpAdd(r) =>
          PushGrows(e, g, torn, astray, r);
          FlushReindexesIff(Push(e, r), g.(pending := g.pending + [r], log := g.log + [r]), torn, astray, ops[1..], io);
        case OpFlush(io0) =>
          var h := FlushGrows(e, g, torn, astray, io0);
          var t, a := torn || Tears(e, g.pending, io0), StillAstray(e, astray, io0);
          GrowingParts(Flush(e, io0).0, h, t, a);
          FlushReindexesIff(Flush(e, io0).0, h, t, a, ops[1..], io);
      }
    }
  }

  /** The same for a log begun as a fresh file. */
  lemma FreshRunReindexesIff(dim: U32, ops: seq<Op>, io: FlushIo)
    requires dim > 0 && AllAddable(ops) && AllAddable(ops + [OpFlush(io)])
    requires NoFlushAfterTear(Created(dim), [], false, ops + [OpFlush(io)])
    ensures var f, astray := Run(Created(dim), ops), Astray(Created(dim), false, ops);
            Flush(f, io).1.Ok? ==>
              && (Flush(f, io).0.index == ClearFlags(f.index) <==> !astray)
              && (f.mapSize > 0 ==> (f.fileSize == |f.file| <==> !astray))
  {
    hide Growing, Flush, Run, NoFlushAfterTear, ClearFlags, FileHeader, Astray;
    CreatedGrowing(dim);
    FlushReindexesIff(Created(dim), Books([], 0, [], [], [], [], false), false, false, ops, io);
  }

  // ---------------------------------------------------------------- retry after a write that stopped

  /**
   Two flushes, the first of which got w bytes out and failed: the records are
   indexed where the second wrote them if and only if the first had stopped
   between two records.
   */
  lemma RetriedFlushIndexedIff(e: Eng, g: Books, bad: FlushIo, good: FlushIo)
    requires Consistent(e, g) && Appending(e, g) && e.pos <= |e.file| && AllWellFormed(g.pending) && |e.buffer| > 0
    requires !FlushOut(e, bad).1 && Flush(Flush(e, bad).0, good).1.Ok?
    ensures var f, w := Flush(Flush(e, bad).0, good).0, Written(|e.buffer|, bad.writes).0;
            && AllWellFormed(g.durable) && w <= |EncAll(g.pending)| && f.file == Retried(e.dim, g.durable, g.pending, w)
            && (IndexedAt(f.index, |e.file| + w) <==> OnBoundary(g.pending, w))
  {
    hide Consistent, Flush, FlushOut, EncAll, WellFormed, OnBoundary, IndexedAt, ParseFrom, Retried;
    var w := Written(|e.buffer|, bad.writes).0;
    PendingBytes(e, g);
    LogSize(e, g);
    TwoFlushes(e, g, bad, good, w);
    RetryIndexedIff(e.dim, g.durable, g.pending, w);
  }

  lemma TwoFlushes(e: Eng, g: Books, bad: FlushIo, good: FlushIo, w: nat)
    requires Consistent(e, g) && Appending(e, g) && AllWellFormed(g.pending) && |e.buffer| > 0 && e.pos <= |e.file|
    requires w == Written(|e.buffer|, bad.writes).0
    requires !FlushOut(e, bad).1 && Flush(Flush(e, bad).0, good).1.Ok?
    ensures AllWellFormed(g.durable) && w <= |EncAll(g.pending)|
    ensures var f := Flush(Flush(e, bad).0, good).0;
            f.file == Retried(e.dim, g.durable, g.pending, w) && f.index == ParseFrom(f.file, 64)
  {
    hide EncAll, WellFormed, ParseFrom, SameView, MapOk, Entries, WriteAt, Written, Incomplete, FileHeader, ClearFlags;
    var d := e.buffer[..w];
    WriteAtEnd(e.file, d);
    WriteAtEnd(e.file + d, e.buffer);
    var x := Flush(e, bad).0;
    assert x.file == e.file + d && x.pos == |x.file| && x.buffer == e.buffer;
    assert Written(|x.buffer|, good.writes).1;
    assert x.buffer[..|x.buffer|] == e.buffer;
    assert e.file + d == LogFile(e.dim, g.durable, d);
  }

  // ---------------------------------------------------------------- writing to a reopened log

  /** A record is no file header: the version it shows makes it a tombstone, and then the dimension it shows is 0. */
  lemma RecordIsNoHeader(b: seq<Byte>, r: Record, dim: U32)
    requires WellFormed(r) && Lies(b, 0, Enc(r))
    ensures !HeaderValid(b, dim)
  {
    hide Enc, Lies, U32At, U64At, HeaderOf;
    RecordParts(b, 0, r);
    HeaderReadsBack(b, 0, r);
  }

  lemma OverwrittenHeader(file: seq<Byte>, more: seq<Record>)
    requires AllWellFormed(more) && |more| > 0
    ensures forall dim: U32 :: !HeaderValid(WriteAt(file, 0, EncAll(more)), dim)
  {
    hide HeaderValid, Enc, WellFormed, WriteAt, EncAll, Lies;
    EncAllCons(more);
    SplicedAtStart(file, Enc(more[0]), EncAll(more[1..]));
    forall dim: U32 ensures !HeaderValid(WriteAt(file, 0, EncAll(more)), dim) {
      RecordIsNoHeader(WriteAt(file, 0, EncAll(more)), more[0], dim);
    }
  }

  lemma SplicedAtStart(file: seq<Byte>, a: seq<Byte>, b: seq<Byte>)
    ensures Lies(WriteAt(file, 0, a + b), 0, a)
  {
  }

  lemma {:induction false} PushedAll(e: Eng, rs: seq<Record>)
    requires AllWellFormed(rs)
    ensures var f := PushAll(e, rs); f.buffer == e.buffer + EncAll(rs) && f.file == e.file && f.pos == e.pos
    decreases |rs|
  {
    hide Enc, WellFormed;
    if |rs| == 0 {
      EncNothing();
    } else {
      EncAllCons(rs);
      PushedAll(Push(e, rs[0]), rs[1..]);
    }
  }

  /**
   A log opened again, records appended to it and a flush that writes them: the
   descriptor stands at 0, so the records overwrite the file header, and the
   file can be opened again if and only if there was nothing to write; if there
   was, it can be opened with no dimension at all.
   */
  lemma ReopenedLogOpensAgainIff(e: Eng, g: Books, more: seq<Record>, io: FlushIo)
    requires Consistent(e, g) && !g.lost && e.pos == 0 && e.buffer == [] && AllWellFormed(more)
    requires Written(|EncAll(more)|, io.writes).1
    ensures PushAll(e, more).pos <= |PushAll(e, more).file|
    ensures var file := Flush(PushAll(e, more), io).0.file;
            && (HeaderValid(file, e.dim) <==> more == [])
            && (more != [] ==> forall dim: U32 :: !HeaderValid(file, dim))
  {
    hide Consistent, EncAll, HeaderValid, WellFormed, ParseFrom, ClearFlags, WriteAt;
    PushedAll(e, more);
    var f := PushAll(e, more);
    assert f.buffer == EncAll(more);
    assert f.buffer[..|f.buffer|] == f.buffer;
    ConsistentLog(e, g);
    if |more| == 0 {
      EncNothing();
      HeaderIsValid(e.dim, g.durable, g.tail);
    } else {
      EncSome(more);
      OverwrittenHeader(e.file, more);
    }
  }

  lemma EncSome(rs: seq<Record>)
    requires AllWellFormed(rs) && |rs| > 0
    ensures |EncAll(rs)| > 0
  {
    hide Enc;
    EncAllCons(rs);
  }

  lemma ConsistentLog(e: Eng, g: Books)
    requires Consistent(e, g) && !g.lost
    ensures e.dim > 0 && AllWellFormed(g.durable) && e.file == LogFile(e.dim, g.durable, g.tail)
  {
  }
}
