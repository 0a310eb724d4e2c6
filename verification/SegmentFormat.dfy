/**
 The immutable segment file (format version 6, unquantized vectors): header,
 fixed-size entries sorted by id, a metadata block of offsets and
 length-prefixed fields, and a temporal index sorted by timestamp.
 */
module SegmentFormat {
  import opened Prelude
  import opened Bytes

  // ---------------------------------------------------------------- values

  type Text = seq<Byte>

  /** lat and lon are the 64-bit patterns of the doubles. */
  datatype Metadata = Metadata(
    tenant: Text, deviceId: Text, locationId: Text,
    srcVid: U64, timestamp: U64, lsn: U64,
    text: Text, payload: Text,
    lat: U64, lon: U64)

  /** vec is the vector's memory: dim * 4 bytes. */
  datatype SegEntry = SegEntry(id: U64, deleted: bool, vec: seq<Byte>, meta: Metadata)

  datatype TimeEntry = TimeEntry(ts: U64, idx: U32)

  ghost predicate MetaOk(m: Metadata) {
    |m.tenant| < TWO_32 && |m.deviceId| < TWO_32 && |m.locationId| < TWO_32 && |m.text| < TWO_32 && |m.payload| < TWO_32
  }

  ghost predicate EntryOk(e: SegEntry, dim: nat) {
    |e.vec| == 4 * dim && MetaOk(e.meta)
  }

  ghost predicate EntriesOk(es: seq<SegEntry>, dim: nat) {
    forall i :: 0 <= i < |es| ==> EntryOk(es[i], dim)
  }

  // ---------------------------------------------------------------- metadata codec

  function StrBytes(s: Text): (b: seq<Byte>)
    requires |s| < TWO_32
    ensures |b| == 4 + |s|
  {
    LE(|s|, 4) + s
  }

  function MetaBytes(m: Metadata): (b: seq<Byte>)
    requires MetaOk(m)
    ensures |b| >= 60
  {
    LE(m.srcVid, 8) + (LE(m.timestamp, 8) + (LE(m.lsn, 8) + (LE(m.lat, 8) + (LE(m.lon, 8) + StringsBytes(m)))))
  }

  function StringsBytes(m: Metadata): (b: seq<Byte>)
    requires MetaOk(m)
    ensures |b| >= 20
  {
    StrBytes(m.deviceId) + (StrBytes(m.locationId) + (StrBytes(m.tenant) + (StrBytes(m.text) + StrBytes(m.payload))))
  }

  /** A decoded string and the cursor after it; None when the bytes run out. */
  function ReadStr(b: seq<Byte>, off: nat): Option<(Text, nat)> {
    if off + 4 > |b| then None
    else
      var n := U32At(b, off);
      if off + 4 + n > |b| then None else Some((b[off + 4..off + 4 + n], off + 4 + n))
  }

  /** The metadata decoder of GetMetadata and ForEach: five fixed fields, then five strings. */
  function ReadMeta(b: seq<Byte>, off: nat): Option<Metadata> {
    if off + 40 > |b| then None
    else
      var device := ReadStr(b, off + 40);
      if device.None? then None else
      var location := ReadStr(b, device.value.1);
      if location.None? then None else
      var tenant := ReadStr(b, location.value.1);
      if tenant.None? then None else
      var text := ReadStr(b, tenant.value.1);
      if text.None? then None else
      var payload := ReadStr(b, text.value.1);
      if payload.None? then None else
      Some(Metadata(tenant.value.0, device.value.0, location.value.0,
                    U64At(b, off), U64At(b, off + 8), U64At(b, off + 16),
                    text.value.0, payload.value.0,
                    U64At(b, off + 24), U64At(b, off + 32)))
  }

  lemma StrReadsBack(b: seq<Byte>, off: nat, s: Text)
    requires |s| < TWO_32 && Lies(b, off, StrBytes(s))
    ensures ReadStr(b, off) == Some((s, off + 4 + |s|))
  {
    LiesConcat(b, off, LE(|s|, 4), s);
    U32ReadsBack(b, off, |s|);
    hide U32At, LE;
  }

  lemma StringsReadBack(b: seq<Byte>, off: nat, m: Metadata)
    requires MetaOk(m) && Lies(b, off, StringsBytes(m))
    ensures ReadStr(b, off) == Some((m.deviceId, off + 4 + |m.deviceId|))
    ensures var o1 := off + 4 + |m.deviceId|;
            var o2 := o1 + 4 + |m.locationId|;
            var o3 := o2 + 4 + |m.tenant|;
            var o4 := o3 + 4 + |m.text|;
            && ReadStr(b, o1) == Some((m.locationId, o2))
            && ReadStr(b, o2) == Some((m.tenant, o3))
            && ReadStr(b, o3) == Some((m.text, o4))
            && ReadStr(b, o4) == Some((m.payload, o4 + 4 + |m.payload|))
  {
    hide Lies, StrBytes, ReadStr;
    var x4 := StrBytes(m.text) + StrBytes(m.payload);
    var x3 := StrBytes(m.tenant) + x4;
    var x2 := StrBytes(m.locationId) + x3;
    var o1 := off + 4 + |m.deviceId|;
    var o2 := o1 + 4 + |m.locationId|;
    var o3 := o2 + 4 + |m.tenant|;
    var o4 := o3 + 4 + |m.text|;
    LiesConcat(b, off, StrBytes(m.deviceId), x2);
    LiesConcat(b, o1, StrBytes(m.locationId), x3);
    LiesConcat(b, o2, StrBytes(m.tenant), x4);
    LiesConcat(b, o3, StrBytes(m.text), StrBytes(m.payload));
    StrReadsBack(b, off, m.deviceId);
    StrReadsBack(b, o1, m.locationId);
    StrReadsBack(b, o2, m.tenant);
    StrReadsBack(b, o3, m.text);
    StrReadsBack(b, o4, m.payload);
  }

  lemma FixedReadBack(b: seq<Byte>, off: nat, m: Metadata)
    requires MetaOk(m) && Lies(b, off, MetaBytes(m))
    ensures off + 40 <= |b| && Lies(b, off + 40, StringsBytes(m))
    ensures U64At(b, off) == m.srcVid && U64At(b, off + 8) == m.timestamp && U64At(b, off + 16) == m.lsn
    ensures U64At(b, off + 24) == m.lat && U64At(b, off + 32) == m.lon
  {
    LiesFits(b, off, MetaBytes(m));
    hide Lies, LE, U64At, StringsBytes;
    var x5 := LE(m.lon, 8) + StringsBytes(m);
    var x4 := LE(m.lat, 8) + x5;
    var x3 := LE(m.lsn, 8) + x4;
    var x2 := LE(m.timestamp, 8) + x3;
    LiesConcat(b, off, LE(m.srcVid, 8), x2);
    LiesConcat(b, off + 8, LE(m.timestamp, 8), x3);
    LiesConcat(b, off + 16, LE(m.lsn, 8), x4);
    LiesConcat(b, off + 24, LE(m.lat, 8), x5);
    LiesConcat(b, off + 32, LE(m.lon, 8), StringsBytes(m));
    U64ReadsBack(b, off, m.srcVid);
    U64ReadsBack(b, off + 8, m.timestamp);
    U64ReadsBack(b, off + 16, m.lsn);
    U64ReadsBack(b, off + 24, m.lat);
    U64ReadsBack(b, off + 32, m.lon);
  }

  /** All ten fields come back exactly, for arbitrary strings. */
  lemma MetaRoundTrip(b: seq<Byte>, off: nat, m: Metadata)
    requires MetaOk(m) && Lies(b, off, MetaBytes(m))
    ensures ReadMeta(b, off) == Some(m)
  {
    hide Lies, U64At, StringsBytes, MetaBytes, ReadStr;
    FixedReadBack(b, off, m);
    StringsReadBack(b, off + 40, m);
  }

  // ---------------------------------------------------------------- entries

  function EntrySize(dim: nat): (n: nat)
    ensures n >= 12 + 4 * dim
  {
    RoundUp64(12 + dim * 4)
  }

  const FLAG_TOMBSTONE: Byte := 1

  function EntryBytes(e: SegEntry, dim: nat): (b: seq<Byte>)
    requires EntryOk(e, dim)
    ensures |b| == EntrySize(dim)
  {
    LE(e.id, 8) + ([if e.deleted then FLAG_TOMBSTONE else 0, 0, 0, 0] +
    ((if e.deleted then Repeat<Byte>(0, 4 * dim) else e.vec) + Repeat<Byte>(0, EntrySize(dim) - 12 - 4 * dim)))
  }

  function AllEntryBytes(es: seq<SegEntry>, dim: nat): (b: seq<Byte>)
    requires EntriesOk(es, dim)
  {
    if |es| == 0 then [] else EntryBytes(es[0], dim) + AllEntryBytes(es[1..], dim)
  }

  lemma {:induction false} AllEntryBytesLength(es: seq<SegEntry>, dim: nat)
    requires EntriesOk(es, dim)
    ensures |AllEntryBytes(es, dim)| == |es| * EntrySize(dim)
    decreases |es|
  {
    hide EntryBytes, EntrySize;
    if |es| > 0 {
      AllEntryBytesLength(es[1..], dim);
      Distribute(|es|, EntrySize(dim));
    }
  }

  lemma Distribute(i: nat, n: nat)
    requires i > 0
    ensures i * n == n + (i - 1) * n
  {
  }

  /** Where the i-th of items of n bytes begins. */
  function Stride(i: nat, n: nat): nat {
    i * n
  }

  lemma StrideStep(i: nat, n: nat)
    ensures Stride(0, n) == 0
    ensures i > 0 ==> Stride(i, n) == n + Stride(i - 1, n)
  {
    if i > 0 {
      Distribute(i, n);
    }
  }

  lemma {:induction false} EntryLies(es: seq<SegEntry>, dim: nat, i: nat)
    requires EntriesOk(es, dim) && i < |es|
    ensures Lies(AllEntryBytes(es, dim), Stride(i, EntrySize(dim)), EntryBytes(es[i], dim))
    decreases i
  {
    hide EntryBytes, EntrySize, AllEntryBytes, Lies, Stride;
    var n, rest := EntrySize(dim), AllEntryBytes(es[1..], dim);
    AllEntryBytesCons(es, dim);
    StrideStep(i, n);
    if i == 0 {
      LiesHere(EntryBytes(es[0], dim), rest);
    } else {
      EntryLies(es[1..], dim, i - 1);
      LiesAfter(EntryBytes(es[0], dim), rest, Stride(i - 1, n), EntryBytes(es[i], dim));
    }
  }

  lemma AllEntryBytesCons(es: seq<SegEntry>, dim: nat)
    requires EntriesOk(es, dim) && |es| > 0
    ensures AllEntryBytes(es, dim) == EntryBytes(es[0], dim) + AllEntryBytes(es[1..], dim)
    ensures |EntryBytes(es[0], dim)| == EntrySize(dim)
  {
    hide EntryBytes, EntrySize;
  }

  lemma LiesAfter(x: seq<Byte>, y: seq<Byte>, off: nat, d: seq<Byte>)
    requires Lies(y, off, d)
    ensures Lies(x + y, |x| + off, d)
  {
    assert (x + y)[|x| + off..|x| + off + |d|] == y[off..off + |d|];
  }

  lemma EntryParts(b: seq<Byte>, off: nat, e: SegEntry, dim: nat)
    requires EntryOk(e, dim) && Lies(b, off, EntryBytes(e, dim))
    ensures off + 12 + 4 * dim <= |b|
    ensures U64At(b, off) == e.id && b[off + 8] == if e.deleted then FLAG_TOMBSTONE else 0
    ensures !e.deleted ==> b[off + 12..off + 12 + 4 * dim] == e.vec
  {
    hide LE, U64At, Lies;
    var flags := [if e.deleted then FLAG_TOMBSTONE else 0, 0, 0, 0];
    var body := if e.deleted then Repeat<Byte>(0, 4 * dim) else e.vec;
    var pad := Repeat<Byte>(0, EntrySize(dim) - 12 - 4 * dim);
    LiesConcat(b, off, LE(e.id, 8), flags + (body + pad));
    LiesConcat(b, off + 8, flags, body + pad);
    LiesConcat(b, off + 12, body, pad);
    U64ReadsBack(b, off, e.id);
    FlagByte(b, off + 8, flags);
    LiesThere(b, off + 12, body);
  }

  lemma LiesThere(b: seq<Byte>, off: nat, d: seq<Byte>)
    requires Lies(b, off, d)
    ensures off + |d| <= |b| && b[off..off + |d|] == d
  {
  }

  lemma FlagByte(b: seq<Byte>, off: nat, flags: seq<Byte>)
    requires Lies(b, off, flags) && |flags| == 4
    ensures b[off] == flags[0]
  {
    assert b[off..off + 4][0] == flags[0];
  }

  // ---------------------------------------------------------------- metadata block and temporal index

  function Blob(es: seq<SegEntry>, dim: nat): seq<Byte>
    requires EntriesOk(es, dim)
  {
    if |es| == 0 then [] else MetaBytes(es[0].meta) + Blob(es[1..], dim)
  }

  /** The blob offset of entry i; i == |es| gives the end of the blob. */
  function BlobOffset(es: seq<SegEntry>, dim: nat, i: nat): nat
    requires EntriesOk(es, dim) && i <= |es|
  {
    |Blob(es[..i], dim)|
  }

  function OffsetBytes(offs: seq<nat>): (b: seq<Byte>)
    ensures |b| == 8 * |offs|
  {
    if |offs| == 0 then [] else LE(offs[0], 8) + OffsetBytes(offs[1..])
  }

  function Offsets(es: seq<SegEntry>, dim: nat): (offs: seq<nat>)
    requires EntriesOk(es, dim)
    ensures |offs| == |es| + 1
  {
    seq(|es| + 1, i requires 0 <= i <= |es| => BlobOffset(es, dim, i))
  }

  function TimeBytes(ts: seq<TimeEntry>): (b: seq<Byte>)
    ensures |b| == 16 * |ts|
  {
    if |ts| == 0 then []
    else LE(ts[0].ts, 8) + (LE(ts[0].idx, 4) + (Repeat<Byte>(0, 4) + TimeBytes(ts[1..])))
  }

  lemma {:induction false} BlobConcat(a: seq<SegEntry>, b: seq<SegEntry>, dim: nat)
    requires EntriesOk(a, dim) && EntriesOk(b, dim)
    ensures EntriesOk(a + b, dim) && Blob(a + b, dim) == Blob(a, dim) + Blob(b, dim)
    decreases |a|
  {
    hide MetaBytes;
    if |a| == 0 {
      assert a + b == b;
      assert Blob(a, dim) + Blob(b, dim) == Blob(b, dim);
    } else {
      assert (a + b)[1..] == a[1..] + b;
      BlobConcat(a[1..], b, dim);
      assert MetaBytes(a[0].meta) + Blob(a[1..], dim) + Blob(b, dim) == MetaBytes(a[0].meta) + (Blob(a[1..], dim) + Blob(b, dim));
    }
  }

  lemma MetaLies(es: seq<SegEntry>, dim: nat, i: nat)
    requires EntriesOk(es, dim) && i < |es|
    ensures Lies(Blob(es, dim), BlobOffset(es, dim, i), MetaBytes(es[i].meta))
    ensures BlobOffset(es, dim, i) < BlobOffset(es, dim, i + 1) <= |Blob(es, dim)|
  {
    hide MetaBytes, Blob;
    assert es == es[..i] + es[i..];
    BlobConcat(es[..i], es[i..], dim);
    BlobCons(es[i..], dim);
    LiesHere(MetaBytes(es[i].meta), Blob(es[i..][1..], dim));
    LiesAfter(Blob(es[..i], dim), Blob(es[i..], dim), 0, MetaBytes(es[i].meta));
    assert es[..i + 1] == es[..i] + [es[i]];
    BlobConcat(es[..i], [es[i]], dim);
    BlobCons([es[i]], dim);
  }

  lemma LiesHere(x: seq<Byte>, y: seq<Byte>)
    ensures Lies(x + y, 0, x)
  {
  }

  lemma BlobCons(es: seq<SegEntry>, dim: nat)
    requires EntriesOk(es, dim) && |es| > 0
    ensures Blob(es, dim) == MetaBytes(es[0].meta) + Blob(es[1..], dim)
    ensures |es| == 1 ==> Blob(es, dim) == MetaBytes(es[0].meta)
  {
    assert |es| == 1 ==> es[1..] == [];
  }

  lemma {:induction false} OffsetReadsBack(b: seq<Byte>, off: nat, offs: seq<nat>, i: nat)
    requires Lies(b, off, OffsetBytes(offs)) && i < |offs| && offs[i] < TWO_64
    ensures off + 8 * i + 8 <= |b| && U64At(b, off + 8 * i) == offs[i]
    decreases i
  {
    hide Lies, LE, U64At;
    LiesConcat(b, off, LE(offs[0], 8), OffsetBytes(offs[1..]));
    if i == 0 {
      U64ReadsBack(b, off, offs[0]);
    } else {
      OffsetReadsBack(b, off + 8, offs[1..], i - 1);
    }
  }

  lemma {:induction false} TimeReadsBack(b: seq<Byte>, off: nat, ts: seq<TimeEntry>, i: nat)
    requires Lies(b, off, TimeBytes(ts)) && i < |ts|
    ensures off + 16 * i + 12 <= |b| && U64At(b, off + 16 * i) == ts[i].ts && U32At(b, off + 16 * i + 8) == ts[i].idx
    decreases i
  {
    hide Lies, LE, U64At, U32At;
    var x2 := Repeat<Byte>(0, 4) + TimeBytes(ts[1..]);
    LiesConcat(b, off, LE(ts[0].ts, 8), LE(ts[0].idx, 4) + x2);
    LiesConcat(b, off + 8, LE(ts[0].idx, 4), x2);
    LiesConcat(b, off + 12, Repeat<Byte>(0, 4), TimeBytes(ts[1..]));
    if i == 0 {
      U64ReadsBack(b, off, ts[0].ts);
      U32ReadsBack(b, off + 8, ts[0].idx);
    } else {
      TimeReadsBack(b, off + 16, ts[1..], i - 1);
    }
  }
}
