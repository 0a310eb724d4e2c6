/**
 The append-only engine as transitions over values: a RAM buffer in front of
 the log, an index rebuilt by parsing, and lookups that must always see the
 newest record of an id.  The file and the descriptor's offset are part of the
 state, and every system call may fail.
 */
module EngineSpec {
  import opened Prelude
  import opened Bytes
  import opened LogFormat

  datatype Status = Ok | NotOpen | InvalidArgument | IOError | Corruption

  /** What Get reports.  Undefined stands for reading bytes that are not a record any more. */
  datatype Answer = Missing | Deleted | Found(dim: U32, body: Body) | Corrupt | Undefined

  datatype WriteEvent = Wrote(n: nat) | Interrupted | Failed

  /** One flush: the results of successive write(2) calls, then fsync, fstat and mmap. */
  datatype FlushIo = FlushIo(writes: seq<WriteEvent>, fsyncOk: bool, fstatOk: bool, mmapOk: bool)

  datatype OpenIo = OpenIo(openOk: bool, fstatOk: bool, headerOk: bool, refstatOk: bool, mmapOk: bool)

  // ---------------------------------------------------------------- pure parts

  /** Bytes that the write loop gets out of `len`, and whether that is all of them. */
  function Written(len: nat, writes: seq<WriteEvent>): (r: (nat, bool))
    ensures r.0 <= len && (r.1 <==> r.0 == len)
    decreases |writes|
  {
    if len == 0 then (0, true)
    else if |writes| == 0 then (0, false)
    else
      match writes[0]
      case Failed => (0, false)
      case Interrupted => Written(len, writes[1..])
      case Wrote(n) =>
        var m := Min(n, len);
        var rest := Written(len - m, writes[1..]);
        (m + rest.0, rest.1)
  }

  function WriteAt(file: seq<Byte>, pos: nat, data: seq<Byte>): seq<Byte>
    requires pos <= |file|
  {
    file[..pos] + data + (if pos + |data| <= |file| then file[pos + |data|..] else [])
  }

  /** The last entry for an id, or |es|. */
  function LastEntry(es: seq<Entry>, id: U64, n: nat): (i: nat)
    requires n <= |es|
    ensures i < n || i == |es|
    ensures i < n ==> es[i].id == id && forall j :: i < j < n ==> es[j].id != id
    ensures i == |es| ==> forall j :: 0 <= j < n ==> es[j].id != id
    decreases n
  {
    if n == 0 then |es| else if es[n - 1].id == id then n - 1 else LastEntry(es, id, n - 1)
  }

  function ClearFlags(es: seq<Entry>): (r: seq<Entry>)
    ensures |r| == |es|
  {
    seq(|es|, i requires 0 <= i < |es| => es[i].(inBuffer := false))
  }

  function AnswerOf(o: Option<Record>): Answer {
    match o
    case None => Missing
    case Some(r) => if r.body.Tomb? then Deleted else Found(r.dim, r.body)
  }

  /** Reading the record at off out of b, if its header still describes one that fits. */
  function Fetch(b: seq<Byte>, off: nat): Answer {
    if off + 64 > |b| then Undefined
    else if off + RecordSize(U32At(b, off + 8), U32At(b, off + 16), IsQuantized(U32At(b, off + 12))) > |b| then Undefined
    else Found(ReadAt(b, off).0, ReadAt(b, off).1)
  }

  predicate HeaderValid(b: seq<Byte>, dim: U32) {
    |b| >= 64 && b[..12] == MAGIC && U32At(b, 12) == 1 && dim > 0 && U32At(b, 16) == dim
  }

  lemma HeaderIsValid(dim: U32, rs: seq<Record>, tail: seq<Byte>)
    requires dim > 0 && AllWellFormed(rs)
    ensures HeaderValid(LogFile(dim, rs, tail), dim)
  {
    var b := LogFile(dim, rs, tail);
    LogParts(dim, rs, tail);
    hide EncAll, LogFile, LE, U32At;
    HeaderBytesAt(b, dim);
    U32ReadsBack(b, 12, 1);
    U32ReadsBack(b, 16, dim);
  }

  lemma HeaderBytesAt(b: seq<Byte>, dim: U32)
    requires |b| >= 64 && b[..64] == FileHeader(dim)
    ensures b[..12] == MAGIC && Lies(b, 12, LE(1, 4)) && Lies(b, 16, LE(dim, 4))
  {
    hide LE;
    var h := FileHeader(dim);
    assert b[..12] == h[..12];
    assert b[12..16] == h[12..16];
    assert b[16..20] == h[16..20];
  }

  // ---------------------------------------------------------------- lookups in an index

  /** The newest entry of a laid-out record list leads to its newest record. */
  lemma {:induction false} LastEntryIsNewest(rs: seq<Record>, off: nat, inBuffer: bool, id: U64, n: nat)
    requires AllWellFormed(rs) && n <= |rs|
    ensures var i := LastEntry(Entries(rs, off, inBuffer), id, n);
            if i < n then Newest(rs[..n], id) == Some(rs[i]) else Newest(rs[..n], id) == None
    decreases n
  {
    hide Entries, WellFormed, EncAll, Size;
    if n > 0 {
      EntriesAt(rs, off, inBuffer, n - 1);
      assert rs[..n][..n - 1] == rs[..n - 1];
      LastEntryIsNewest(rs, off, inBuffer, id, n - 1);
    }
  }

  lemma {:induction false} LastEntryConcat(a: seq<Entry>, b: seq<Entry>, id: U64, n: nat)
    requires |a| <= n <= |a| + |b|
    ensures var i := LastEntry(b, id, n - |a|);
            LastEntry(a + b, id, n) ==
            if i < n - |a| then |a| + i
            else if LastEntry(a, id, |a|) < |a| then LastEntry(a, id, |a|) else |a| + |b|
    decreases n
  {
    if n > |a| {
      LastEntryConcat(a, b, id, n - 1);
    } else {
      LastEntryPrefix(a, b, id, n);
    }
  }

  lemma {:induction false} LastEntryPrefix(a: seq<Entry>, b: seq<Entry>, id: U64, n: nat)
    requires n <= |a|
    ensures LastEntry(a + b, id, n) ==
            if LastEntry(a, id, n) < n then LastEntry(a, id, n) else |a| + |b|
    decreases n
  {
    if n > 0 {
      LastEntryPrefix(a, b, id, n - 1);
    }
  }

  lemma {:induction false} ClearedEntries(rs: seq<Record>, off: nat)
    ensures ClearFlags(Entries(rs, off, true)) == Entries(rs, off, false)
    decreases |rs|
  {
    if |rs| > 0 {
      ClearedEntries(rs[1..], off + Size(rs[0]));
      var es, fs := Entries(rs, off, true), Entries(rs, off, false);
      forall i | 0 <= i < |rs| ensures ClearFlags(es)[i] == fs[i] {
        if i > 0 {
          assert es[i] == Entries(rs[1..], off + Size(rs[0]), true)[i - 1];
          assert ClearFlags(Entries(rs[1..], off + Size(rs[0]), true))[i - 1] == fs[i];
        }
      }
    }
    hide Size;
  }

  /** A record laid out at `start` in b is fetched through its entry. */
  lemma FetchLaidOut(b: seq<Byte>, start: nat, rs: seq<Record>, i: nat)
    requires AllWellFormed(rs) && i < |rs| && Lies(b, start, EncAll(rs)) && !rs[i].body.Tomb?
    ensures start + |EncAll(rs[..i])| + Size(rs[i]) <= |b|
    ensures Fetch(b, start + |EncAll(rs[..i])|) == Found(rs[i].dim, rs[i].body)
  {
    hide EncAll, Enc, Lies, ReadAt, U32At, RoundUp64;
    RecordLies(rs, i);
    LiesInPart(b, start, EncAll(rs), |EncAll(rs[..i])|, Enc(rs[i]));
    LiesFits(b, start + |EncAll(rs[..i])|, Enc(rs[i]));
    RecordReadsBack(b, start + |EncAll(rs[..i])|, rs[i]);
  }

  // ---------------------------------------------------------------- the engine's state

  datatype Eng = Eng(
    dim: U32,
    file: seq<Byte>,
    pos: nat,
    fileSize: nat,
    buffer: seq<Byte>,
    pendingBytes: nat,
    mapSize: nat,
    index: seq<Entry>)

  /** Get. */
  function Lookup(e: Eng, id: U64): Answer
    requires e.mapSize <= |e.file|
  {
    var i := LastEntry(e.index, id, |e.index|);
    if i == |e.index| then Missing
    else
      var en := e.index[i];
      if en.tombstone then Deleted
      else if en.inBuffer then
        if en.offset < e.fileSize || en.offset - e.fileSize + en.length > |e.buffer| then Corrupt
        else Fetch(e.buffer, en.offset - e.fileSize)
      else if en.offset + en.length > e.mapSize then Corrupt
      else Fetch(e.file[..e.mapSize], en.offset)
  }

  /** AppendToBuffer and the index entry that goes with it. */
  function Push(e: Eng, r: Record): Eng
    requires WellFormed(r)
  {
    e.(buffer := e.buffer + Enc(r),
       pendingBytes := e.pendingBytes + Size(r),
       index := e.index + [Entry(r.id, e.fileSize + |e.buffer|, Size(r), r.body.Tomb?, true)])
  }

  /** FlushBufferToFile. */
  function FlushOut(e: Eng, io: FlushIo): (r: (Eng, bool))
    requires e.pos <= |e.file|
    ensures r.0.pos <= |r.0.file|
  {
    if |e.buffer| == 0 then (e, true)
    else
      var (w, all) := Written(|e.buffer|, io.writes);
      var f := e.(file := WriteAt(e.file, e.pos, e.buffer[..w]), pos := e.pos + w);
      if !all || !io.fsyncOk then (f, false)
      else (f.(fileSize := f.fileSize + |f.buffer|, buffer := [], pendingBytes := 0, index := ClearFlags(f.index)), true)
  }

  /** ReloadMmap and BuildIndexFromMmap. */
  function Reload(e: Eng, fstatOk: bool, mmapOk: bool): (r: (Eng, bool)) {
    if !fstatOk then (e.(mapSize := 0), false)
    else
      var f := e.(mapSize := 0, fileSize := |e.file|);
      if f.fileSize == 0 then (f.(index := []), true)
      else if !mmapOk then (f, false)
      else (f.(mapSize := |f.file|, index := ParseFrom(f.file, 64)), true)
  }

  function Flush(e: Eng, io: FlushIo): (r: (Eng, Status))
    requires e.pos <= |e.file|
    ensures r.0.pos <= |r.0.file|
  {
    var (f, ok) := FlushOut(e, io);
    if !ok then (f, IOError)
    else
      var (g, ok2) := Reload(f, io.fstatOk, io.mmapOk);
      (g, if ok2 then Ok else IOError)
  }

  // ---------------------------------------------------------------- what the bytes stand for

  /**
   durable: the whole records in the file, of which the first `indexed` are
   covered by the map; tail: the bytes after them; pending: the buffered
   records; log: everything appended, once each, in order; stale: index entries
   that do not point into the buffer.  `lost` is set once the file stops being
   a log.
   */
  datatype Books = Books(
    durable: seq<Record>,
    indexed: nat,
    tail: seq<Byte>,
    pending: seq<Record>,
    log: seq<Record>,
    stale: seq<Entry>,
    lost: bool)

  ghost predicate SameView(g: Books)
    requires g.indexed <= |g.durable|
  {
    forall id: U64 :: Newest(g.durable[..g.indexed] + g.pending, id) == Newest(g.log, id)
  }

  ghost predicate FileOk(e: Eng, g: Books) {
    && AllWellFormed(g.durable)
    && e.file == LogFile(e.dim, g.durable, g.tail)
    && (g.pending == [] ==> Incomplete(g.tail))
    && g.indexed <= |g.durable|
    && (forall i :: g.indexed <= i < |g.durable| ==> g.durable[i] in g.pending)
  }

  ghost predicate MapOk(e: Eng, g: Books) {
    e.mapSize > 0 ==>
      && g.indexed <= |g.durable| && AllWellFormed(g.durable[..g.indexed])
      && g.stale == Entries(g.durable[..g.indexed], 64, false)
      && 64 + |EncAll(g.durable[..g.indexed])| <= e.mapSize
  }

  ghost predicate BufferOk(e: Eng, g: Books) {
    && AllWellFormed(g.pending)
    && e.buffer == EncAll(g.pending) && e.pendingBytes == |e.buffer|
    && e.index == g.stale + Entries(g.pending, e.fileSize, true)
    && (forall i :: 0 <= i < |g.stale| ==> !g.stale[i].inBuffer)
    && e.pos <= |e.file| && e.mapSize <= |e.file|
  }

  ghost predicate Consistent(e: Eng, g: Books) {
    && e.dim > 0
    && BufferOk(e, g)
    && (!g.lost ==> FileOk(e, g) && SameView(g) && MapOk(e, g))
  }

  /** The file ends in a whole record and the next write goes to its end. */
  ghost predicate Appending(e: Eng, g: Books) {
    !g.lost && e.pos == |e.file| && g.tail == []
  }
}
