/**
 What the engine reports, in terms of what the system calls did: how much a
 write loop gets out, when a flush succeeds, and which files Open accepts.
 */
module EngineReports {
  import opened Prelude
  import opened Bytes
  import opened LogFormat
  import opened EngineSpec
  import opened EngineProofs

  /** The bytes that successive writes take before the first error; an interrupted write takes none. */
  function Offered(writes: seq<WriteEvent>): nat
    decreases |writes|
  {
    if |writes| == 0 then 0
    else
      match writes[0]
      case Failed => 0
      case Interrupted => Offered(writes[1..])
      case Wrote(n) => n + Offered(writes[1..])
  }

  /** The write loop gets out as much as the writes before the first error take, and succeeds if that is everything. */
  lemma {:induction false} WrittenIsOffered(len: nat, writes: seq<WriteEvent>)
    ensures Written(len, writes).0 == Min(len, Offered(writes))
    ensures Written(len, writes).1 <==> Offered(writes) >= len
    decreases |writes|
  {
    if len > 0 && |writes| > 0 {
      match writes[0] {
        case Failed =>
        case Interrupted => WrittenIsOffered(len, writes[1..]);
        case Wrote(n) => WrittenIsOffered(len - Min(n, len), writes[1..]);
      }
    }
  }

  /** The outcomes let a flush of `len` bytes succeed. */
  predicate Succeeds(len: nat, io: FlushIo) {
    (len == 0 || (Offered(io.writes) >= len && io.fsyncOk)) && io.fstatOk && io.mmapOk
  }

  /** A flush succeeds if and only if everything buffered is written and synced and the file can be mapped again. */
  lemma FlushSucceedsIff(e: Eng, io: FlushIo)
    requires e.pos <= |e.file| && |e.file| > 0
    ensures Flush(e, io).1 == if Succeeds(|e.buffer|, io) then Ok else IOError
    ensures FlushOut(e, io).1 <==> |e.buffer| == 0 || (Offered(io.writes) >= |e.buffer| && io.fsyncOk)
  {
    hide ParseFrom, WriteAt, Written, Offered, ClearFlags;
    WrittenIsOffered(|e.buffer|, io.writes);
    WriteGrows(e.file, e.pos, e.buffer[..Written(|e.buffer|, io.writes).0]);
  }

  // ---------------------------------------------------------------- headers

  lemma {:induction false} FromLERoundTrip(b: seq<Byte>)
    ensures LE(FromLE(b), |b|) == b
    decreases |b|
  {
    if |b| > 0 {
      FromLERoundTrip(b[1..]);
      assert FromLE(b) % 256 == b[0] && FromLE(b) / 256 == FromLE(b[1..]);
      assert b == [b[0]] + b[1..];
    }
  }

  lemma WordIs(b: seq<Byte>, off: nat, x: U32)
    requires off + 4 <= |b|
    ensures U32At(b, off) == x <==> b[off..off + 4] == LE(x, 4)
  {
    hide FromLE, LE;
    FromLERoundTrip(b[off..off + 4]);
    if b[off..off + 4] == LE(x, 4) {
      U32ReadsBack(b, off, x);
    }
  }

  /** Open accepts an existing file if and only if it begins as the file that Open itself creates for that dimension. */
  lemma HeaderValidIff(b: seq<Byte>, dim: U32)
    ensures HeaderValid(b, dim) <==> dim > 0 && |b| >= 64 && b[..20] == FileHeader(dim)[..20]
  {
    hide U32At, LE;
    if |b| >= 64 {
      WordIs(b, 12, 1);
      WordIs(b, 16, dim);
      var h := FileHeader(dim);
      assert h[..20] == MAGIC + LE(1, 4) + LE(dim, 4);
      assert b[..20] == b[..12] + b[12..16] + b[16..20];
      ThreeParts(b[..12], b[12..16], b[16..20], MAGIC, LE(1, 4), LE(dim, 4));
    }
  }

  lemma ThreeParts(a: seq<Byte>, b: seq<Byte>, c: seq<Byte>, x: seq<Byte>, y: seq<Byte>, z: seq<Byte>)
    requires |a| == |x| && |b| == |y|
    ensures a + b + c == x + y + z <==> a == x && b == y && c == z
  {
    if a + b + c == x + y + z {
      var s := a + b + c;
      assert s[..|a|] == a && s[..|a|] == x;
      assert s[|a|..|a| + |b|] == b && s[|a|..|a| + |b|] == y;
      assert s[|a| + |b|..] == c && s[|a| + |b|..] == z;
    }
  }

  /** A log opens with its own dimension and with no other. */
  lemma LogOpensWithItsDimension(dim: U32, rs: seq<Record>, tail: seq<Byte>, d: U32)
    requires dim > 0 && AllWellFormed(rs)
    ensures HeaderValid(LogFile(dim, rs, tail), d) <==> d == dim
  {
    hide LogFile, U32At;
    HeaderIsValid(dim, rs, tail);
  }

  // ---------------------------------------------------------------- metadata

  /** The metadata blob of a record lies behind its header, with its length in the header. */
  lemma MetadataLies(b: seq<Byte>, off: nat, r: Record)
    requires WellFormed(r) && Lies(b, off, Enc(r))
    ensures off + 64 + |r.meta| <= |b| && U32At(b, off + 16) == |r.meta| && b[off + 64..off + 64 + |r.meta|] == r.meta
  {
    hide LE, U32At, BodyBytes, Padding, Lies;
    var h := LE(r.id, 8) + LE(r.dim, 4) + LE(Flags(r.body), 4);
    var t := LE(|r.meta|, 4) + Repeat<Byte>(0, 44);
    assert HeaderOf(r) == h + t;
    assert Enc(r) == (h + t) + (r.meta + (BodyBytes(r.body) + Padding(r)));
    LiesConcat(b, off, h + t, r.meta + (BodyBytes(r.body) + Padding(r)));
    LiesConcat(b, off, h, t);
    LiesConcat(b, off + 16, LE(|r.meta|, 4), Repeat<Byte>(0, 44));
    U32ReadsBack(b, off + 16, |r.meta|);
    LiesConcat(b, off + 64, r.meta, BodyBytes(r.body) + Padding(r));
    LiesExactly(b, off + 64, r.meta);
  }

  lemma LiesExactly(b: seq<Byte>, off: nat, d: seq<Byte>)
    requires Lies(b, off, d)
    ensures off + |d| <= |b| && b[off..off + |d|] == d
  {
  }
}
