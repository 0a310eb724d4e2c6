/** Concrete runs in which the append-only engine does not keep what a reader might expect of it. */
module EngineWitnesses {
  import opened Prelude
  import opened Bytes
  import opened LogFormat
  import opened EngineSpec
  import opened EngineProofs
  import opened EngineRuns

  /** The tombstone of id 7 in a log of one-dimensional vectors; 128 bytes. */
  const GONE := Record(7, 1, [], Tomb)

  function GoneHeader(): seq<Byte> {
    [7, 0, 0, 0, 0, 0, 0, 0, 1, 0, 0, 0, 1, 0, 0, 0, 0, 0, 0, 0]
  }

  lemma GoneBytes()
    ensures WellFormed(GONE) && |Enc(GONE)| == 128 && Enc(GONE)[..20] == GoneHeader()
  {
    hide LE;
    FieldBytes();
    var h := HeaderBytes(7, 1, 1, 0);
    assert h[..20] == LE(7, 8) + LE(1, 4) + LE(1, 4) + LE(0, 4);
    assert Enc(GONE)[..20] == h[..20];
  }

  lemma FieldBytes()
    ensures LE(7, 8) == [7, 0, 0, 0, 0, 0, 0, 0] && LE(1, 4) == [1, 0, 0, 0] && LE(0, 4) == [0, 0, 0, 0]
  {
    ZeroBytes(7);
    ZeroBytes(3);
    ZeroBytes(4);
    assert LE(7, 8) == [7] + LE(0, 7) && LE(1, 4) == [1] + LE(0, 3);
  }

  lemma {:induction false} ZeroBytes(w: nat)
    ensures LE(0, w) == Repeat<Byte>(0, w)
    decreases w
  {
    if w > 0 {
      ZeroBytes(w - 1);
    }
  }

  lemma Word256(b: seq<Byte>, off: nat)
    requires off + 4 <= |b| && b[off..off + 4] == [0, 1, 0, 0]
    ensures U32At(b, off) == 256
  {
    var s: seq<Byte> := [0, 1, 0, 0];
    assert s[1..] == [1, 0, 0] && s[1..][1..] == [0, 0] && s[1..][1..][1..] == [0];
    assert FromLE([0]) == 0;
    assert FromLE([0, 0]) == 0;
    assert FromLE([1, 0, 0]) == 1;
  }

  /** A log in which one byte of the tombstone precedes the whole tombstone parses to nothing. */
  lemma MisalignedParse(b: seq<Byte>)
    requires WellFormed(GONE) && |Enc(GONE)| == 128 && |b| == 193 && b[64..65] == Enc(GONE)[..1] && b[65..] == Enc(GONE)
    ensures ParseFrom(b, 64) == []
  {
    GoneBytes();
    var e := Enc(GONE);
    hide Enc;
    assert e[..20] == GoneHeader();
    assert b[72..76] == e[7..11] == e[..20][7..11] == [0, 1, 0, 0];
    assert b[76..80] == e[11..15] == e[..20][11..15] == [0, 1, 0, 0];
    Word256(b, 72);
    Word256(b, 76);
    hide U32At, U64At;
  }

  /**
   A retry that loses a record: one byte of a tombstone is written, the next
   flush writes it all and succeeds, and the id is not found, neither deleted
   nor present.
   */
  lemma RetryLosesRecord()
    ensures WellFormed(GONE)
    ensures var e := Push(Created(1), GONE);
            var bad := FlushIo([Wrote(1), Failed], true, true, true);
            var good := FlushIo([Wrote(128)], true, true, true);
            var f := Flush(Flush(e, bad).0, good);
            && f.1.Ok? && f.0.mapSize <= |f.0.file|
            && Lookup(e, 7) == Deleted && Lookup(f.0, 7) == Missing
  {
    GoneBytes();
    hide Enc, FileHeader, ParseFrom, U32At, U64At;
    var e := Push(Created(1), GONE);
    var t := Enc(GONE);
    assert e.buffer == t;
    var bad := FlushIo([Wrote(1), Failed], true, true, true);
    var good := FlushIo([Wrote(128)], true, true, true);
    WrittenOne();
    var x := Flush(e, bad).0;
    assert x == e.(file := FileHeader(1) + t[..1], pos := 65) by {
      WriteAtEnd(FileHeader(1), t[..1]);
      hide WriteAt;
    }
    assert t[..128] == t;
    WriteAtEnd(x.file, t);
    var f := Flush(x, good);
    MisalignedParse(x.file + t);
  }

  lemma WrittenOne()
    ensures Written(128, [Wrote(1), Failed]) == (1, false)
    ensures Written(128, [Wrote(128)]) == (128, true)
  {
    assert [Wrote(1), Failed][1..] == [Failed];
    assert Written(127, [Failed]) == (0, false);
    assert [Wrote(128)][1..] == [];
    assert Written(0, []) == (0, true);
  }

  /** An empty log opened again and one deletion flushed to it: no Open accepts the file any more. */
  lemma ReopenedLogIsLost()
    ensures WellFormed(GONE)
    ensures var file := LogFile(1, [], []);
            var e := Reload(Eng(1, file, 0, |file|, [], 0, 0, []), true, true).0;
            var f := Flush(Push(e, GONE), FlushIo([Wrote(128)], true, true, true)).0;
            HeaderValid(file, 1) && HeaderValid(e.file, 1) && forall dim: U32 :: !HeaderValid(f.file, dim)
  {
    GoneBytes();
    hide Enc, LogFile, ParseFrom, HeaderValid, U32At, U64At, WriteAt;
    var file := LogFile(1, [], []);
    HeaderIsValid(1, [], []);
    var e := Reload(Eng(1, file, 0, |file|, [], 0, 0, []), true, true).0;
    var p := Push(e, GONE);
    assert e.file == file && p.file == file && p.pos == 0 && p.buffer == Enc(GONE);
    WrittenOne();
    assert Enc(GONE)[..128] == Enc(GONE);
    assert Flush(p, FlushIo([Wrote(128)], true, true, true)).0.file == WriteAt(file, 0, Enc(GONE));
    EncAllOne(GONE);
    OverwrittenHeader(file, [GONE]);
  }

  /** The first bytes of every log: magic, version 1 and dimension. */
  lemma FirstBytes()
    ensures FileHeader(1)[..20] == [80, 79, 77, 65, 73, 95, 76, 79, 71, 118, 49, 0, 1, 0, 0, 0, 1, 0, 0, 0]
  {
    hide LE;
    FieldBytes();
    assert FileHeader(1)[..20] == MAGIC + LE(1, 4) + LE(1, 4);
  }

  /** A quantized one-dimensional vector of id 7: flag 2, then the tenant, the range and one code. */
  lemma QuantizedBytes()
    ensures var r := Record(7, 1, [97], Sq8(0, 1, [9]));
            && WellFormed(r) && |Enc(r)| == 128
            && Enc(r)[..20] == [7, 0, 0, 0, 0, 0, 0, 0, 1, 0, 0, 0, 2, 0, 0, 0, 1, 0, 0, 0]
            && Enc(r)[64..74] == [97, 0, 0, 0, 0, 1, 0, 0, 0, 9]
  {
    hide LE;
    FieldBytes();
    TwoBytes();
    var r := Record(7, 1, [97], Sq8(0, 1, [9]));
    var h := HeaderBytes(7, 1, 2, 1);
    assert h[..20] == LE(7, 8) + LE(1, 4) + LE(2, 4) + LE(1, 4);
    assert Enc(r)[..20] == h[..20];
    assert BodyBytes(r.body) == LE(0, 4) + LE(1, 4) + [9];
    assert Enc(r)[64..74] == [97] + (LE(0, 4) + LE(1, 4) + [9]);
  }

  lemma TwoBytes()
    ensures LE(2, 4) == [2, 0, 0, 0]
  {
    ZeroBytes(3);
    assert LE(2, 4) == [2] + LE(0, 3);
  }

  /** A one-dimensional vector stored for id 7; 128 bytes. */
  const KEPT := Record(7, 1, [], Raw([5]))

  lemma KeptBytes()
    ensures WellFormed(KEPT) && |Enc(KEPT)| == 128 && Size(KEPT) == 128
  {
  }

  /**
   A flush that writes everything but cannot map the file: the vector was
   there, is safely in the file, and is reported as corrupt.
   */
  lemma UnmappedRecordIsCorrupt()
    ensures WellFormed(KEPT)
    ensures var e := Push(Created(1), KEPT);
            var (f, st) := Flush(e, FlushIo([Wrote(128)], true, true, false));
            && st == IOError && f.mapSize == 0 && f.file == FileHeader(1) + Enc(KEPT)
            && Lookup(e, 7) == Found(1, Raw([5])) && Lookup(f, 7) == Corrupt
  {
    KeptBytes();
    hide Enc, FileHeader, ParseFrom, WriteAt, Fetch;
    WrittenOne();
    var t := Enc(KEPT);
    assert t[..128] == t;
    WriteAtEnd(FileHeader(1), t);
    var e := Push(Created(1), KEPT);
    var f := Flush(e, FlushIo([Wrote(128)], true, true, false)).0;
    assert |FileHeader(1)| == 64;
    assert e.buffer == t;
    assert e.index == [Entry(7, 64, 128, false, true)];
    assert f.index == [Entry(7, 64, 128, false, false)];
    assert f.file == FileHeader(1) + t;
    assert LastEntry(f.index, 7, 1) == 0;
    BufferedRecord();
  }

  lemma BufferedRecord()
    ensures WellFormed(KEPT) && Lookup(Push(Created(1), KEPT), 7) == Found(1, Raw([5]))
  {
    hide Consistent, Created, Lookup, Push, Enc;
    CreatedConsistent(1);
    var g := Books([], 0, [], [], [], [], false);
    PushKeeps(Created(1), g, KEPT);
    var h := g.(pending := g.pending + [KEPT], log := g.log + [KEPT]);
    assert h.pending == [KEPT] && Newest([KEPT], 7) == Some(KEPT);
    OpenBuffer(Push(Created(1), KEPT), h);
    BufferedLookup(Push(Created(1), KEPT), h, 7);
  }

  lemma OpenBuffer(e: Eng, g: Books)
    requires Consistent(e, g)
    ensures BufferOk(e, g)
  {
  }
}
