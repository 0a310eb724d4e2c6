/**
 The append-only log on disk: a 64-byte file header, then records of a 64-byte
 header, a metadata blob and a vector payload, padded to 64 bytes.  Floats are
 their 32-bit patterns.
 */
module LogFormat {
  import opened Prelude
  import opened Bytes

  // ---------------------------------------------------------------- records

  datatype Body =
    | Raw(words: seq<U32>)
    | Sq8(minVal: U32, maxVal: U32, codes: seq<Byte>)
    | Tomb

  datatype Record = Record(id: U64, dim: U32, meta: seq<Byte>, body: Body)

  ghost predicate WellFormed(r: Record) {
    && |r.meta| < TWO_32
    && (r.body.Raw? ==> |r.body.words| == r.dim)
    && (r.body.Sq8? ==> |r.body.codes| == r.dim)
    && (r.body.Tomb? ==> r.meta == [])
  }

  ghost predicate AllWellFormed(rs: seq<Record>) {
    forall i :: 0 <= i < |rs| ==> WellFormed(rs[i])
  }

  const FLAG_TOMBSTONE: U32 := 1
  const FLAG_QUANTIZED: U32 := 2

  function Flags(b: Body): U32 {
    match b case Raw(_) => 0 case Sq8(_, _, _) => FLAG_QUANTIZED case Tomb => FLAG_TOMBSTONE
  }

  predicate IsTombstone(flags: U32) { flags % 2 == 1 }

  predicate IsQuantized(flags: U32) { flags / 2 % 2 == 1 }

  function RecordSize(dim: nat, metaLen: nat, quantized: bool): (n: nat)
    ensures n >= 64
  {
    RoundUp64(64 + (if quantized then metaLen + 8 + dim else metaLen + dim * 4))
  }

  function Size(r: Record): nat {
    RecordSize(r.dim, |r.meta|, r.body.Sq8?)
  }

  // ---------------------------------------------------------------- encoding

  function HeaderBytes(id: U64, dim: U32, flags: U32, metaLen: U32): (b: seq<Byte>)
    ensures |b| == 64
  {
    LE(id, 8) + LE(dim, 4) + LE(flags, 4) + LE(metaLen, 4) + Repeat<Byte>(0, 44)
  }

  function WordBytes(ws: seq<U32>): (b: seq<Byte>)
    ensures |b| == 4 * |ws|
  {
    if |ws| == 0 then [] else LE(ws[0], 4) + WordBytes(ws[1..])
  }

  function BodyBytes(b: Body): (s: seq<Byte>)
    ensures b.Raw? ==> |s| == 4 * |b.words|
    ensures b.Sq8? ==> |s| == 8 + |b.codes|
    ensures b.Tomb? ==> |s| == 0
  {
    match b
    case Raw(ws) => WordBytes(ws)
    case Sq8(mn, mx, codes) => LE(mn, 4) + LE(mx, 4) + codes
    case Tomb => []
  }

  function HeaderOf(r: Record): (b: seq<Byte>)
    requires WellFormed(r)
    ensures |b| == 64
  {
    HeaderBytes(r.id, r.dim, Flags(r.body), |r.meta|)
  }

  function Padding(r: Record): seq<Byte>
    requires WellFormed(r)
  {
    Repeat<Byte>(0, Size(r) - 64 - |r.meta| - |BodyBytes(r.body)|)
  }

  function Enc(r: Record): (b: seq<Byte>)
    requires WellFormed(r)
    ensures |b| == Size(r)
  {
    HeaderOf(r) + (r.meta + (BodyBytes(r.body) + Padding(r)))
  }

  function EncAll(rs: seq<Record>): (b: seq<Byte>)
    requires AllWellFormed(rs)
  {
    if |rs| == 0 then [] else Enc(rs[0]) + EncAll(rs[1..])
  }

  lemma {:induction false} EncAllConcat(a: seq<Record>, b: seq<Record>)
    requires AllWellFormed(a) && AllWellFormed(b)
    ensures AllWellFormed(a + b) && EncAll(a + b) == EncAll(a) + EncAll(b)
  {
    hide Enc, WellFormed;
    if |a| == 0 {
      assert a + b == b;
      assert EncAll(a) + EncAll(b) == EncAll(b);
    } else {
      assert (a + b)[1..] == a[1..] + b;
      EncAllConcat(a[1..], b);
      assert Enc(a[0]) + EncAll(a[1..]) + EncAll(b) == Enc(a[0]) + (EncAll(a[1..]) + EncAll(b));
    }
  }

  lemma EncAllCons(rs: seq<Record>)
    requires AllWellFormed(rs) && |rs| > 0
    ensures EncAll(rs) == Enc(rs[0]) + EncAll(rs[1..])
  {
  }

  lemma EncAllOne(r: Record)
    requires WellFormed(r)
    ensures EncAll([r]) == Enc(r)
  {
    assert [r][1..] == [];
  }

  // ---------------------------------------------------------------- the index

  datatype Entry = Entry(id: U64, offset: nat, length: nat, tombstone: bool, inBuffer: bool)

  /** The index entries of records laid out one after another from `off`. */
  function Entries(rs: seq<Record>, off: nat, inBuffer: bool): (es: seq<Entry>)
    ensures |es| == |rs|
  {
    if |rs| == 0 then []
    else [Entry(rs[0].id, off, Size(rs[0]), rs[0].body.Tomb?, inBuffer)] + Entries(rs[1..], off + Size(rs[0]), inBuffer)
  }

  /** BuildIndexFromMmap: walk record headers until one does not fit. */
  function ParseFrom(b: seq<Byte>, off: nat): (es: seq<Entry>)
    decreases |b| - off
  {
    if off + 64 > |b| then []
    else
      var flags := U32At(b, off + 12);
      var len := RecordSize(U32At(b, off + 8), U32At(b, off + 16), IsQuantized(flags));
      if off + len > |b| then []
      else [Entry(U64At(b, off), off, len, IsTombstone(flags), false)] + ParseFrom(b, off + len)
  }

  // ---------------------------------------------------------------- reading a record

  function WordsAt(b: seq<Byte>, off: nat, n: nat): (ws: seq<U32>)
    requires off + 4 * n <= |b|
    ensures |ws| == n
  {
    seq(n, i requires 0 <= i < n => U32At(b, off + 4 * i))
  }

  /** What Get hands out for the record at `off`: its dim and vector payload. */
  function ReadAt(b: seq<Byte>, off: nat): (r: (U32, Body))
    requires off + 64 <= |b|
    requires off + RecordSize(U32At(b, off + 8), U32At(b, off + 16), IsQuantized(U32At(b, off + 12))) <= |b|
  {
    var dim, data := U32At(b, off + 8), off + 64 + U32At(b, off + 16);
    if IsQuantized(U32At(b, off + 12)) then
      (dim, Sq8(U32At(b, data), U32At(b, data + 4), b[data + 8..data + 8 + dim]))
    else (dim, Raw(WordsAt(b, data, dim)))
  }

  /** The header fields of an encoded record, wherever it lies. */
  lemma HeaderReadsBack(b: seq<Byte>, off: nat, r: Record)
    requires WellFormed(r) && Lies(b, off, HeaderOf(r))
    ensures off + 64 <= |b|
    ensures U64At(b, off) == r.id && U32At(b, off + 8) == r.dim
    ensures U32At(b, off + 12) == Flags(r.body) && U32At(b, off + 16) == |r.meta|
    ensures IsQuantized(Flags(r.body)) == r.body.Sq8? && IsTombstone(Flags(r.body)) == r.body.Tomb?
  {
    hide HeaderBytes, LE, U32At, U64At, Lies, Flags, IsQuantized, IsTombstone;
    var f := Flags(r.body);
    LiesFits(b, off, HeaderOf(r));
    FlagBits(r.body);
    HeaderFields(b, off, r.id, r.dim, f, |r.meta|);
    U64ReadsBack(b, off, r.id);
    U32ReadsBack(b, off + 8, r.dim);
    U32ReadsBack(b, off + 12, f);
    U32ReadsBack(b, off + 16, |r.meta|);
  }

  lemma FlagBits(b: Body)
    ensures IsQuantized(Flags(b)) == b.Sq8? && IsTombstone(Flags(b)) == b.Tomb?
  {
  }

  lemma HeaderFields(b: seq<Byte>, off: nat, id: U64, dim: U32, flags: U32, metaLen: U32)
    requires Lies(b, off, HeaderBytes(id, dim, flags, metaLen))
    ensures Lies(b, off, LE(id, 8)) && Lies(b, off + 8, LE(dim, 4))
    ensures Lies(b, off + 12, LE(flags, 4)) && Lies(b, off + 16, LE(metaLen, 4))
  {
    hide LE, Lies;
    var x4 := LE(metaLen, 4) + Repeat<Byte>(0, 44);
    var x3 := LE(flags, 4) + x4;
    var x2 := LE(dim, 4) + x3;
    assert HeaderBytes(id, dim, flags, metaLen) == LE(id, 8) + x2;
    LiesConcat(b, off, LE(id, 8), x2);
    LiesConcat(b, off + 8, LE(dim, 4), x3);
    LiesConcat(b, off + 12, LE(flags, 4), x4);
    LiesConcat(b, off + 16, LE(metaLen, 4), Repeat<Byte>(0, 44));
  }

  /** The parts of an encoded record. */
  lemma RecordParts(b: seq<Byte>, off: nat, r: Record)
    requires WellFormed(r) && Lies(b, off, Enc(r))
    ensures off + Size(r) <= |b|
    ensures Lies(b, off, HeaderOf(r)) && Lies(b, off + 64, r.meta) && Lies(b, off + 64 + |r.meta|, BodyBytes(r.body))
  {
    hide Lies, HeaderBytes, BodyBytes, Padding;
    var rest := BodyBytes(r.body) + Padding(r);
    LiesFits(b, off, Enc(r));
    LiesConcat(b, off, HeaderOf(r), r.meta + rest);
    LiesConcat(b, off + 64, r.meta, rest);
    LiesConcat(b, off + 64 + |r.meta|, BodyBytes(r.body), Padding(r));
  }

  // ---------------------------------------------------------------- parsing undoes encoding

  /** One step of the parser over an encoded record that fits. */
  lemma ParseRecord(b: seq<Byte>, off: nat, r: Record)
    requires WellFormed(r) && Lies(b, off, Enc(r))
    ensures ParseFrom(b, off) == [Entry(r.id, off, Size(r), r.body.Tomb?, false)] + ParseFrom(b, off + Size(r))
  {
    hide Enc, U32At, U64At, Lies, HeaderOf, RoundUp64, IsQuantized, IsTombstone;
    RecordParts(b, off, r);
    HeaderReadsBack(b, off, r);
  }

  /** b from off on is a proper prefix of the encoding of r. */
  ghost predicate TornAt(b: seq<Byte>, off: nat, r: Record) {
    WellFormed(r) && off <= |b| < off + Size(r) && b[off..] == Enc(r)[..|b| - off]
  }

  /** The parser stops at a record that is cut short. */
  lemma ParseTorn(b: seq<Byte>, off: nat, r: Record)
    requires TornAt(b, off, r)
    ensures ParseFrom(b, off) == []
  {
    if off + 64 <= |b| {
      TornHeader(b, off, r);
      HeaderReadsBack(b, off, r);
      hide Enc, U32At, U64At, Lies, HeaderOf, RoundUp64;
    }
  }

  lemma TornHeader(b: seq<Byte>, off: nat, r: Record)
    requires TornAt(b, off, r) && off + 64 <= |b|
    ensures Lies(b, off, HeaderOf(r))
  {
    assert b[off..off + 64] == b[off..][..64];
    assert Enc(r)[..|b| - off][..64] == Enc(r)[..64];
    assert Enc(r)[..64] == HeaderOf(r);
  }

  /** Parsing a log of whole records gives their index, followed by whatever the rest parses to. */
  lemma {:induction false} ParseEncoded(b: seq<Byte>, off: nat, rs: seq<Record>)
    requires AllWellFormed(rs) && Lies(b, off, EncAll(rs))
    ensures ParseFrom(b, off) == Entries(rs, off, false) + ParseFrom(b, off + |EncAll(rs)|)
    decreases |rs|
  {
    hide Enc, ParseFrom, Lies;
    if |rs| > 0 {
      LiesConcat(b, off, Enc(rs[0]), EncAll(rs[1..]));
      ParseRecord(b, off, rs[0]);
      ParseEncoded(b, off + Size(rs[0]), rs[1..]);
    }
  }

  // ---------------------------------------------------------------- whole logs

  const MAGIC: seq<Byte> := [80, 79, 77, 65, 73, 95, 76, 79, 71, 118, 49, 0] // "POMAI_LOGv1\0"

  function FileHeader(dim: U32): (b: seq<Byte>)
    ensures |b| == 64
  {
    MAGIC + LE(1, 4) + LE(dim, 4) + Repeat<Byte>(0, 44)
  }

  /** A log file: header, whole records, and possibly the beginning of one more. */
  function LogFile(dim: U32, rs: seq<Record>, tail: seq<Byte>): (b: seq<Byte>)
    requires AllWellFormed(rs)
    ensures |b| >= 64
  {
    FileHeader(dim) + EncAll(rs) + tail
  }

  /** A record cut short, possibly before its first byte. */
  ghost predicate Incomplete(tail: seq<Byte>) {
    tail == [] || exists r :: WellFormed(r) && |tail| < Size(r) && tail == Enc(r)[..|tail|]
  }

  /**
   Recovery: reopening a log whose last record is cut short at any byte yields
   exactly the index of its whole records, in order.
   */
  lemma ParseLog(dim: U32, rs: seq<Record>, tail: seq<Byte>)
    requires AllWellFormed(rs) && Incomplete(tail)
    ensures ParseFrom(LogFile(dim, rs, tail), 64) == Entries(rs, 64, false)
  {
    hide Enc, EncAll, Entries, FileHeader, ParseFrom, Lies, LogFile;
    var b := LogFile(dim, rs, tail);
    var n := 64 + |EncAll(rs)|;
    LogParts(dim, rs, tail);
    ParseEncoded(b, 64, rs);
    if tail == [] {
      ParseEnd(b, n);
    } else {
      var r :| WellFormed(r) && |tail| < Size(r) && tail == Enc(r)[..|tail|];
      ParseTorn(b, n, r);
    }
  }

  lemma LogParts(dim: U32, rs: seq<Record>, tail: seq<Byte>)
    requires AllWellFormed(rs)
    ensures var b := LogFile(dim, rs, tail);
            var n := 64 + |EncAll(rs)|;
            |b| == n + |tail| && Lies(b, 64, EncAll(rs)) && b[n..] == tail && b[..64] == FileHeader(dim)
  {
    hide Enc, EncAll, FileHeader;
  }

  lemma ParseEnd(b: seq<Byte>, off: nat)
    requires |b| <= off
    ensures ParseFrom(b, off) == []
  {
  }

  /** Every cut of a log at or after its header is a log of a prefix of its records plus an incomplete one. */
  lemma CutLog(dim: U32, rs: seq<Record>, cut: nat) returns (k: nat, tail: seq<Byte>)
    requires AllWellFormed(rs) && 64 <= cut <= |LogFile(dim, rs, [])|
    ensures k <= |rs| && AllWellFormed(rs[..k]) && Incomplete(tail)
    ensures LogFile(dim, rs, [])[..cut] == LogFile(dim, rs[..k], tail)
    ensures k < |rs| ==> |tail| < Size(rs[k])
  {
    hide Enc, EncAll, FileHeader, Incomplete;
    k, tail := CutRecords(rs, cut - 64);
    assert LogFile(dim, rs, [])[..cut] == FileHeader(dim) + EncAll(rs)[..cut - 64];
  }

  lemma {:induction false} CutRecords(rs: seq<Record>, c: nat) returns (k: nat, tail: seq<Byte>)
    requires AllWellFormed(rs) && c <= |EncAll(rs)|
    ensures k <= |rs| && AllWellFormed(rs[..k]) && Incomplete(tail)
    ensures EncAll(rs)[..c] == EncAll(rs[..k]) + tail
    ensures k < |rs| ==> |tail| < Size(rs[k]) && tail == Enc(rs[k])[..|tail|]
    ensures k == |rs| ==> tail == []
    ensures c == |EncAll(rs)| ==> k == |rs|
  {
    hide Enc;
    if |rs| == 0 {
      k, tail := 0, [];
    } else if c < Size(rs[0]) {
      k, tail := 0, Enc(rs[0])[..c];
      assert EncAll(rs)[..c] == Enc(rs[0])[..c];
    } else {
      var n := Size(rs[0]);
      k, tail := CutRecords(rs[1..], c - n);
      CutStep(rs, c, k, tail);
      k := k + 1;
    }
  }

  /** A cut past the first record is a cut of the rest. */
  lemma CutStep(rs: seq<Record>, c: nat, k: nat, tail: seq<Byte>)
    requires AllWellFormed(rs) && |rs| > 0 && Size(rs[0]) <= c <= |EncAll(rs)| && k < |rs|
    requires AllWellFormed(rs[1..][..k]) && c - Size(rs[0]) <= |EncAll(rs[1..])|
    requires EncAll(rs[1..])[..c - Size(rs[0])] == EncAll(rs[1..][..k]) + tail
    ensures AllWellFormed(rs[..k + 1]) && EncAll(rs)[..c] == EncAll(rs[..k + 1]) + tail
  {
    hide Enc, EncAll, Size, WellFormed;
    EncAllCons(rs);
    EncAllCons(rs[..k + 1]);
    assert rs[..k + 1][1..] == rs[1..][..k];
    CutBytes(Enc(rs[0]), EncAll(rs[1..]), c, EncAll(rs[1..][..k]), tail);
  }

  lemma CutBytes(a: seq<Byte>, b: seq<Byte>, c: nat, x: seq<Byte>, y: seq<Byte>)
    requires |a| <= c <= |a| + |b| && b[..c - |a|] == x + y
    ensures (a + b)[..c] == a + x + y
  {
    assert (a + b)[..c] == a + b[..c - |a|];
  }

  /** Torn-tail recovery: any cut at or after the header parses to the longest prefix of whole records. */
  lemma TornTailRecovery(dim: U32, rs: seq<Record>, cut: nat)
    requires AllWellFormed(rs) && 64 <= cut <= |LogFile(dim, rs, [])|
    ensures exists k: nat :: k <= |rs| && AllWellFormed(rs[..k]) &&
              ParseFrom(LogFile(dim, rs, [])[..cut], 64) == Entries(rs[..k], 64, false) &&
              64 + |EncAll(rs[..k])| <= cut && (k < |rs| ==> cut < 64 + |EncAll(rs[..k])| + Size(rs[k]))
  {
    var k, tail := CutLog(dim, rs, cut);
    ParseLog(dim, rs[..k], tail);
    assert |LogFile(dim, rs[..k], tail)| == 64 + |EncAll(rs[..k])| + |tail|;
  }

  // ---------------------------------------------------------------- reading back

  lemma {:induction false} WordReadsBack(b: seq<Byte>, off: nat, ws: seq<U32>, i: nat)
    requires Lies(b, off, WordBytes(ws)) && i < |ws|
    ensures off + 4 * i + 4 <= |b| && U32At(b, off + 4 * i) == ws[i]
    decreases i
  {
    hide Lies, LE, U32At;
    LiesConcat(b, off, LE(ws[0], 4), WordBytes(ws[1..]));
    if i == 0 {
      U32ReadsBack(b, off, ws[0]);
    } else {
      WordReadsBack(b, off + 4, ws[1..], i - 1);
    }
  }

  /** A live record reads back as it was written, wherever it lies. */
  lemma RecordReadsBack(b: seq<Byte>, off: nat, r: Record)
    requires WellFormed(r) && !r.body.Tomb? && Lies(b, off, Enc(r))
    ensures off + 64 <= |b|
    ensures off + RecordSize(U32At(b, off + 8), U32At(b, off + 16), IsQuantized(U32At(b, off + 12))) <= |b|
    ensures ReadAt(b, off) == (r.dim, r.body)
  {
    hide Enc, U32At, U64At, Lies, HeaderOf, BodyBytes, IsQuantized, RoundUp64;
    RecordParts(b, off, r);
    HeaderReadsBack(b, off, r);
    BodyReadsBack(b, off + 64 + |r.meta|, r);
  }

  lemma BodyReadsBack(b: seq<Byte>, data: nat, r: Record)
    requires WellFormed(r) && !r.body.Tomb? && Lies(b, data, BodyBytes(r.body))
    ensures data + |BodyBytes(r.body)| <= |b|
    ensures r.body.Sq8? ==>
              && U32At(b, data) == r.body.minVal && U32At(b, data + 4) == r.body.maxVal
              && b[data + 8..data + 8 + r.dim] == r.body.codes
    ensures r.body.Raw? ==> WordsAt(b, data, r.dim) == r.body.words
  {
    hide Lies, U32At, LE;
    LiesFits(b, data, BodyBytes(r.body));
    if r.body.Sq8? {
      var Sq8(mn, mx, codes) := r.body;
      SqParts(b, data, mn, mx, codes);
    } else {
      forall i: nat | i < |r.body.words| ensures WordsAt(b, data, r.dim)[i] == r.body.words[i] {
        WordReadsBack(b, data, r.body.words, i);
      }
    }
  }

  lemma SqParts(b: seq<Byte>, data: nat, mn: U32, mx: U32, codes: seq<Byte>)
    requires Lies(b, data, LE(mn, 4) + LE(mx, 4) + codes)
    ensures data + 8 + |codes| <= |b|
    ensures U32At(b, data) == mn && U32At(b, data + 4) == mx && b[data + 8..data + 8 + |codes|] == codes
  {
    hide U32At, LE;
    assert LE(mn, 4) + LE(mx, 4) + codes == LE(mn, 4) + (LE(mx, 4) + codes);
    LiesConcat(b, data, LE(mn, 4), LE(mx, 4) + codes);
    LiesConcat(b, data + 4, LE(mx, 4), codes);
    U32ReadsBack(b, data, mn);
    U32ReadsBack(b, data + 4, mx);
  }

  // ---------------------------------------------------------------- positions in the log

  lemma {:induction false} EntriesAt(rs: seq<Record>, off: nat, inBuffer: bool, i: nat)
    requires AllWellFormed(rs) && i < |rs|
    ensures Entries(rs, off, inBuffer)[i] ==
            Entry(rs[i].id, off + |EncAll(rs[..i])|, Size(rs[i]), rs[i].body.Tomb?, inBuffer)
  {
    hide Enc, Size;
    if i > 0 {
      EntriesAt(rs[1..], off + Size(rs[0]), inBuffer, i - 1);
      assert rs[..i][1..] == rs[1..][..i - 1];
    }
  }

  lemma {:induction false} RecordLies(rs: seq<Record>, i: nat)
    requires AllWellFormed(rs) && i < |rs|
    ensures Lies(EncAll(rs), |EncAll(rs[..i])|, Enc(rs[i]))
  {
    hide Enc, EncAll;
    EncAllConcat(rs[..i], rs[i..]);
    assert rs[..i] + rs[i..] == rs;
    EncAllCons(rs[i..]);
  }

  lemma {:induction false} EntriesConcat(a: seq<Record>, b: seq<Record>, off: nat, inBuffer: bool)
    requires AllWellFormed(a) && AllWellFormed(b)
    ensures Entries(a + b, off, inBuffer) == Entries(a, off, inBuffer) + Entries(b, off + |EncAll(a)|, inBuffer)
  {
    hide Enc, Size;
    if |a| == 0 {
      assert a + b == b;
    } else {
      assert (a + b)[1..] == a[1..] + b;
      EntriesConcat(a[1..], b, off + Size(a[0]), inBuffer);
    }
  }

  // ---------------------------------------------------------------- newest record wins

  /** The specification of a lookup: the last record appended for an id. */
  function Newest(rs: seq<Record>, id: U64): Option<Record>
    decreases |rs|
  {
    if |rs| == 0 then None
    else if rs[|rs| - 1].id == id then Some(rs[|rs| - 1])
    else Newest(rs[..|rs| - 1], id)
  }

  lemma {:induction false} NewestConcat(a: seq<Record>, b: seq<Record>, id: U64)
    ensures Newest(a + b, id) == if Newest(b, id).Some? then Newest(b, id) else Newest(a, id)
    decreases |b|
  {
    if |b| == 0 {
      assert a + b == a;
    } else {
      assert (a + b)[..|a + b| - 1] == a + b[..|b| - 1];
      NewestConcat(a, b[..|b| - 1], id);
    }
  }

  lemma {:induction false} NewestIsIn(rs: seq<Record>, id: U64)
    ensures Newest(rs, id).None? <==> forall i :: 0 <= i < |rs| ==> rs[i].id != id
    ensures Newest(rs, id).Some? ==> Newest(rs, id).value in rs && Newest(rs, id).value.id == id
    decreases |rs|
  {
    if |rs| > 0 {
      NewestIsIn(rs[..|rs| - 1], id);
    }
  }

  /** Records that are written again do not change any lookup. */
  lemma RepeatsAreHarmless(a: seq<Record>, junk: seq<Record>, b: seq<Record>, id: U64)
    requires forall r :: r in junk ==> r in b
    ensures Newest(a + junk + b, id) == Newest(a + b, id)
  {
    NewestConcat(a + junk, b, id);
    NewestConcat(a, junk, id);
    NewestConcat(a, b, id);
    NewestIsIn(junk, id);
    NewestIsIn(b, id);
  }

  // ---------------------------------------------------------------- retry after a partial write

  lemma {:induction false} ParseOffsets(b: seq<Byte>, off: nat, i: nat)
    requires i < |ParseFrom(b, off)|
    ensures ParseFrom(b, off)[i].offset >= off
    decreases i
  {
    hide RoundUp64, U32At, U64At;
    if i > 0 {
      ParseOffsets(b, off + ParseFrom(b, off)[0].length, i - 1);
    }
  }

  ghost predicate OnBoundary(rs: seq<Record>, w: nat)
    requires AllWellFormed(rs)
  {
    exists k: nat :: k <= |rs| && AllWellFormed(rs[..k]) && w == |EncAll(rs[..k])|
  }

  ghost predicate IndexedAt(es: seq<Entry>, off: nat) {
    exists i: nat :: i < |es| && es[i].offset == off
  }

  /** The file after a write that stopped after w bytes of the buffered records, and then a full one. */
  function Retried(dim: U32, flushed: seq<Record>, buffered: seq<Record>, w: nat): seq<Byte>
    requires AllWellFormed(flushed) && AllWellFormed(buffered) && w <= |EncAll(buffered)|
  {
    LogFile(dim, flushed, EncAll(buffered)[..w]) + EncAll(buffered)
  }

  lemma RetryMisalignedMisses(dim: U32, flushed: seq<Record>, buffered: seq<Record>, w: nat, k: nat, tail: seq<Byte>)
    requires AllWellFormed(flushed) && AllWellFormed(buffered) && w <= |EncAll(buffered)| && k < |buffered|
    requires EncAll(buffered)[..w] == EncAll(buffered[..k]) + tail
    requires 0 < |tail| < Size(buffered[k]) && tail == Enc(buffered[k])[..|tail|]
    ensures !IndexedAt(ParseFrom(Retried(dim, flushed, buffered, w), 64), 64 + |EncAll(flushed)| + w)
  {
    hide Enc, EncAll, ParseFrom, Lies, Size, Retried, WellFormed, Entries, IndexedAt;
    var b := Retried(dim, flushed, buffered, w);
    var whole := flushed + buffered[..k];
    RetriedParts(dim, flushed, buffered, w, k, tail);
    var off := 64 + |EncAll(whole)|;
    ParseEncoded(b, 64, whole);
    MisalignedStep(b, off, buffered[k], tail, EncAll(buffered));
    NotIndexed(ParseFrom(b, off), off + |tail|);
    NoneLater(whole, off + |tail|);
    NeitherIndexed(Entries(whole, 64, false), ParseFrom(b, off), off + |tail|);
  }

  lemma RetriedParts(dim: U32, flushed: seq<Record>, buffered: seq<Record>, w: nat, k: nat, tail: seq<Byte>)
    requires AllWellFormed(flushed) && AllWellFormed(buffered) && w <= |EncAll(buffered)| && k < |buffered|
    requires EncAll(buffered)[..w] == EncAll(buffered[..k]) + tail
    ensures AllWellFormed(flushed + buffered[..k])
    ensures var b, off := Retried(dim, flushed, buffered, w), 64 + |EncAll(flushed + buffered[..k])|;
            && Lies(b, 64, EncAll(flushed + buffered[..k])) && off <= |b| && b[off..] == tail + EncAll(buffered)
            && off + |tail| == 64 + |EncAll(flushed)| + w
  {
    hide EncAll, FileHeader, Lies, LogFile, Retried, WellFormed;
    var whole := flushed + buffered[..k];
    EncAllConcat(flushed, buffered[..k]);
    assert |EncAll(buffered)[..w]| == w;
    RetriedLayout(dim, flushed, buffered, w, k, tail);
    LogParts(dim, whole, tail + EncAll(buffered));
  }

  lemma NotIndexed(es: seq<Entry>, off: nat)
    requires forall i: nat :: i < |es| ==> es[i].offset != off
    ensures !IndexedAt(es, off)
  {
  }

  lemma NeitherIndexed(a: seq<Entry>, b: seq<Entry>, off: nat)
    requires !IndexedAt(a, off) && !IndexedAt(b, off)
    ensures !IndexedAt(a + b, off)
  {
  }

  /** Whole records start before the place where they end. */
  lemma NoneLater(rs: seq<Record>, off: nat)
    requires AllWellFormed(rs) && off > 64 + |EncAll(rs)|
    ensures !IndexedAt(Entries(rs, 64, false), off)
  {
    hide Entries, EncAll, WellFormed, Size;
    forall i: nat | i < |rs| ensures Entries(rs, 64, false)[i].offset != off {
      EntriesAt(rs, 64, false, i);
      PrefixShorter(rs, i);
    }
  }

  lemma RetriedLayout(dim: U32, flushed: seq<Record>, buffered: seq<Record>, w: nat, k: nat, tail: seq<Byte>)
    requires AllWellFormed(flushed) && AllWellFormed(buffered) && w <= |EncAll(buffered)| && k < |buffered|
    requires EncAll(buffered)[..w] == EncAll(buffered[..k]) + tail
    ensures AllWellFormed(flushed + buffered[..k])
    ensures Retried(dim, flushed, buffered, w) == LogFile(dim, flushed + buffered[..k], tail + EncAll(buffered))
  {
    hide EncAll, FileHeader;
    EncAllConcat(flushed, buffered[..k]);
  }

  lemma PrefixShorter(rs: seq<Record>, i: nat)
    requires AllWellFormed(rs) && i <= |rs|
    ensures AllWellFormed(rs[..i]) && |EncAll(rs[..i])| <= |EncAll(rs)|
  {
    hide EncAll;
    EncAllConcat(rs[..i], rs[i..]);
    assert rs[..i] + rs[i..] == rs;
  }

  /** Parsing from a torn record never lands on the byte right after it. */
  lemma MisalignedStep(b: seq<Byte>, off: nat, r: Record, tail: seq<Byte>, rest: seq<Byte>)
    requires WellFormed(r) && off <= |b| && b[off..] == tail + rest
    requires 0 < |tail| < Size(r) && tail == Enc(r)[..|tail|]
    ensures forall i: nat :: i < |ParseFrom(b, off)| ==> ParseFrom(b, off)[i].offset != off + |tail|
  {
    hide Enc, U32At, U64At, Lies, HeaderOf, RoundUp64;
    if |tail| >= 64 {
      MisalignedHeader(b, off, r, tail, rest);
      HeaderReadsBack(b, off, r);
    }
    var es := ParseFrom(b, off);
    if |es| > 0 {
      assert es[0].length > |tail|;
      forall i: nat | 0 < i < |es| ensures es[i].offset != off + |tail| {
        ParseOffsets(b, off + es[0].length, i - 1);
      }
    }
  }

  lemma MisalignedHeader(b: seq<Byte>, off: nat, r: Record, tail: seq<Byte>, rest: seq<Byte>)
    requires WellFormed(r) && off <= |b| && b[off..] == tail + rest
    requires 64 <= |tail| < Size(r) && tail == Enc(r)[..|tail|]
    ensures Lies(b, off, HeaderOf(r))
  {
    hide HeaderBytes, BodyBytes;
    assert b[off..off + 64] == b[off..][..64] == tail[..64];
    assert tail[..64] == Enc(r)[..64];
    assert Enc(r)[..64] == HeaderOf(r);
  }

  /**
   A retried flush is indexed where it was written if and only if the failed
   write had stopped between two records.
   */
  lemma RetryIndexedIff(dim: U32, flushed: seq<Record>, buffered: seq<Record>, w: nat)
    requires AllWellFormed(flushed) && AllWellFormed(buffered) && |buffered| > 0 && w <= |EncAll(buffered)|
    ensures IndexedAt(ParseFrom(Retried(dim, flushed, buffered, w), 64), 64 + |EncAll(flushed)| + w) <==>
            OnBoundary(buffered, w)
  {
    hide Enc, EncAll, ParseFrom, Retried, Entries, WellFormed, Size, IndexedAt;
    var k, tail := CutRecords(buffered, w);
    if tail == [] {
      assert EncAll(buffered)[..w] == EncAll(buffered[..k]);
      RetryAligned(dim, flushed, buffered, k);
    } else {
      RetryMisalignedMisses(dim, flushed, buffered, w, k, tail);
      NotOnBoundary(buffered, w, k, tail);
    }
  }

  lemma NotOnBoundary(rs: seq<Record>, w: nat, k: nat, tail: seq<Byte>)
    requires AllWellFormed(rs) && k < |rs| && w <= |EncAll(rs)|
    requires w == |EncAll(rs[..k])| + |tail| && 0 < |tail| < Size(rs[k])
    ensures !OnBoundary(rs, w)
  {
    hide Enc, EncAll;
    forall j: nat | j <= |rs| ensures |EncAll(rs[..j])| != w {
      if j <= k {
        assert rs[..k][..j] == rs[..j];
        PrefixShorter(rs[..k], j);
      } else {
        assert rs[..j][..k + 1] == rs[..k + 1];
        PrefixShorter(rs[..j], k + 1);
        assert rs[..k + 1] == rs[..k] + [rs[k]];
        EncAllConcat(rs[..k], [rs[k]]);
        EncAllOne(rs[k]);
      }
    }
  }

  lemma RetryAligned(dim: U32, flushed: seq<Record>, buffered: seq<Record>, k: nat)
    requires AllWellFormed(flushed) && AllWellFormed(buffered) && 0 < |buffered| && k <= |buffered|
    requires |EncAll(buffered[..k])| <= |EncAll(buffered)|
    requires EncAll(buffered)[..|EncAll(buffered[..k])|] == EncAll(buffered[..k])
    ensures var w := |EncAll(buffered[..k])|;
            && ParseFrom(Retried(dim, flushed, buffered, w), 64) == Entries(flushed + buffered[..k] + buffered, 64, false)
            && IndexedAt(ParseFrom(Retried(dim, flushed, buffered, w), 64), 64 + |EncAll(flushed)| + w)
  {
    hide Enc, EncAll, ParseFrom, Retried, LogFile, Incomplete;
    var head := flushed + buffered[..k];
    EncAllConcat(flushed, buffered[..k]);
    AlignedLayout(dim, flushed, buffered, k);
    NothingIncomplete();
    ParseLog(dim, head + buffered, []);
    EntriesAt(head + buffered, 64, false, |head|);
    assert (head + buffered)[..|head|] == head;
  }

  lemma NothingIncomplete()
    ensures Incomplete([])
  {
  }

  lemma AlignedLayout(dim: U32, flushed: seq<Record>, buffered: seq<Record>, k: nat)
    requires AllWellFormed(flushed) && AllWellFormed(buffered) && k <= |buffered|
    requires |EncAll(buffered[..k])| <= |EncAll(buffered)|
    requires EncAll(buffered)[..|EncAll(buffered[..k])|] == EncAll(buffered[..k])
    ensures Retried(dim, flushed, buffered, |EncAll(buffered[..k])|) ==
            LogFile(dim, flushed + buffered[..k] + buffered, [])
  {
    hide Enc, EncAll, FileHeader;
    EncAllConcat(flushed, buffered[..k]);
    EncAllConcat(flushed + buffered[..k], buffered);
  }
}
