/**
 Segment files: building an image and reading it back undo each other, and the
 temporal index answers range queries.
 */
module Segment {
  import opened Prelude
  import opened Bytes
  import opened SegmentFormat

  // ---------------------------------------------------------------- the image

  const SEG_MAGIC: seq<Byte> := [112, 111, 109, 97, 105, 46, 115, 101, 103, 46, 118, 49] // "pomai.seg.v1"

  function HeaderBytes(count: nat, dim: nat, metaOff: nat, entrySize: nat, timeOff: nat): (b: seq<Byte>)
    ensures |b| == 56
  {
    SEG_MAGIC + (LE(6, 4) + (LE(count, 4) + (LE(dim, 4) + (LE(metaOff, 4) + (Repeat<Byte>(0, 12) +
    (LE(128, 4) + (LE(entrySize, 4) + (LE(timeOff, 4) + Repeat<Byte>(0, 4)))))))))
  }

  function MetaOffset(n: nat, dim: nat): nat {
    128 + n * EntrySize(dim)
  }

  function TimeOffset(es: seq<SegEntry>, dim: nat): nat
    requires EntriesOk(es, dim)
  {
    MetaOffset(|es|, dim) + 8 * (|es| + 1) + |Blob(es, dim)|
  }

  /** The file that Finish writes; the last four bytes are the checksum footer. */
  function Image(es: seq<SegEntry>, dim: nat, times: seq<TimeEntry>, crc: seq<Byte>): seq<Byte>
    requires EntriesOk(es, dim)
  {
    HeaderBytes(|es|, dim, MetaOffset(|es|, dim), EntrySize(dim), TimeOffset(es, dim)) +
    (Repeat<Byte>(0, 72) + (AllEntryBytes(es, dim) + (OffsetBytes(Offsets(es, dim)) + (Blob(es, dim) + (TimeBytes(times) + crc)))))
  }

  /** The sizes that the header's 32-bit fields can hold. */
  ghost predicate Fits(es: seq<SegEntry>, dim: nat) {
    EntriesOk(es, dim) && TimeOffset(es, dim) < TWO_32 && EntrySize(dim) < TWO_32
  }

  lemma ImageParts(es: seq<SegEntry>, dim: nat, times: seq<TimeEntry>, crc: seq<Byte>)
    requires EntriesOk(es, dim)
    ensures var b := Image(es, dim, times, crc);
            && Lies(b, 0, HeaderBytes(|es|, dim, MetaOffset(|es|, dim), EntrySize(dim), TimeOffset(es, dim)))
            && Lies(b, 128, AllEntryBytes(es, dim))
            && Lies(b, MetaOffset(|es|, dim), OffsetBytes(Offsets(es, dim)))
            && Lies(b, MetaOffset(|es|, dim) + 8 * (|es| + 1), Blob(es, dim))
            && Lies(b, TimeOffset(es, dim), TimeBytes(times))
            && |b| == TimeOffset(es, dim) + 16 * |times| + |crc|
  {
    hide HeaderBytes, AllEntryBytes, OffsetBytes, Offsets, Blob, TimeBytes, Lies, EntrySize;
    AllEntryBytesLength(es, dim);
    var b := Image(es, dim, times, crc);
    var h := HeaderBytes(|es|, dim, MetaOffset(|es|, dim), EntrySize(dim), TimeOffset(es, dim));
    var x5 := TimeBytes(times) + crc;
    var x4 := Blob(es, dim) + x5;
    var x3 := OffsetBytes(Offsets(es, dim)) + x4;
    var x2 := AllEntryBytes(es, dim) + x3;
    var x1 := Repeat<Byte>(0, 72) + x2;
    Whole(b);
    LiesConcat(b, 0, h, x1);
    LiesConcat(b, 56, Repeat<Byte>(0, 72), x2);
    LiesConcat(b, 128, AllEntryBytes(es, dim), x3);
    LiesConcat(b, MetaOffset(|es|, dim), OffsetBytes(Offsets(es, dim)), x4);
    LiesConcat(b, MetaOffset(|es|, dim) + 8 * (|es| + 1), Blob(es, dim), x5);
    LiesConcat(b, TimeOffset(es, dim), TimeBytes(times), crc);
  }

  lemma Whole(b: seq<Byte>)
    ensures Lies(b, 0, b)
  {
  }

  // ---------------------------------------------------------------- the reader

  datatype Reader = Reader(base: seq<Byte>, count: nat, dim: nat, entrySize: nat, start: nat, metaOff: nat, timeOff: nat)

  /** SegmentReader::Open on a version 6 file. */
  function Open(b: seq<Byte>): Option<Reader> {
    if |b| < 56 || b[..12] != SEG_MAGIC || U32At(b, 12) != 6 then None
    else
      var r := Reader(b, U32At(b, 16), U32At(b, 20), U32At(b, 44), U32At(b, 40), U32At(b, 24), U32At(b, 48));
      if |b| < r.start + r.count * r.entrySize + 4 then None else Some(r)
  }

  ghost predicate ReaderOk(r: Reader) {
    12 + 4 * r.dim <= r.entrySize && r.start + r.count * r.entrySize + 4 <= |r.base|
  }

  function EntryOff(r: Reader, i: nat): (off: nat)
    requires ReaderOk(r) && i < r.count
    ensures off + 12 + 4 * r.dim <= |r.base|
  {
    EntryInBounds(i, r.count, r.entrySize);
    r.start + i * r.entrySize
  }

  lemma EntryInBounds(i: nat, count: nat, size: nat)
    requires i < count
    ensures i * size + size <= count * size
  {
    assert (i + 1) * size <= count * size;
  }

  function IdAt(r: Reader, i: nat): U64
    requires ReaderOk(r) && i < r.count
  {
    U64At(r.base, EntryOff(r, i))
  }

  predicate DeletedAt(r: Reader, i: nat)
    requires ReaderOk(r) && i < r.count
  {
    r.base[EntryOff(r, i) + 8] % 2 == 1
  }

  function VecAt(r: Reader, i: nat): seq<Byte>
    requires ReaderOk(r) && i < r.count
  {
    r.base[EntryOff(r, i) + 12..EntryOff(r, i) + 12 + 4 * r.dim]
  }

  /** GetMetadata; None when a read would leave the file. */
  function MetaAt(r: Reader, i: nat): Option<Metadata>
    requires i < r.count
  {
    if r.metaOff == 0 || r.metaOff + 8 * i + 16 > |r.base| then None
    else
      var lo, hi := U64At(r.base, r.metaOff + 8 * i), U64At(r.base, r.metaOff + 8 * i + 8);
      if hi <= lo then None else ReadMeta(r.base, r.metaOff + 8 * (r.count + 1) + lo)
  }

  function TimeAt(r: Reader, i: nat): Option<TimeEntry> {
    if r.timeOff + 16 * i + 12 > |r.base| then None
    else Some(TimeEntry(U64At(r.base, r.timeOff + 16 * i), U32At(r.base, r.timeOff + 16 * i + 8)))
  }

  /** The reader sees exactly these entries and this temporal index. */
  ghost predicate Sees(r: Reader, es: seq<SegEntry>, times: seq<TimeEntry>) {
    && ReaderOk(r) && r.count == |es| == |times| && r.timeOff > 0
    && (forall i: nat :: i < |es| ==>
          && IdAt(r, i) == es[i].id && DeletedAt(r, i) == es[i].deleted
          && (!es[i].deleted ==> VecAt(r, i) == es[i].vec)
          && MetaAt(r, i) == Some(es[i].meta))
    && (forall i: nat :: i < |times| ==> TimeAt(r, i) == Some(times[i]))
  }

  lemma HeaderReadsBack(b: seq<Byte>, count: nat, dim: nat, metaOff: nat, entrySize: nat, timeOff: nat)
    requires Lies(b, 0, HeaderBytes(count, dim, metaOff, entrySize, timeOff))
    requires count < TWO_32 && dim < TWO_32 && metaOff < TWO_32 && entrySize < TWO_32 && timeOff < TWO_32
    ensures |b| >= 56 && b[..12] == SEG_MAGIC && U32At(b, 12) == 6 && U32At(b, 16) == count && U32At(b, 20) == dim
    ensures U32At(b, 24) == metaOff && U32At(b, 40) == 128 && U32At(b, 44) == entrySize && U32At(b, 48) == timeOff
  {
    MagicFirst(b, count, dim, metaOff, entrySize, timeOff);
    hide Lies, LE, U32At;
    var x8 := LE(timeOff, 4) + Repeat<Byte>(0, 4);
    var x7 := LE(entrySize, 4) + x8;
    var x6 := LE(128, 4) + x7;
    var x5 := Repeat<Byte>(0, 12) + x6;
    var x4 := LE(metaOff, 4) + x5;
    var x3 := LE(dim, 4) + x4;
    var x2 := LE(count, 4) + x3;
    LiesConcat(b, 0, SEG_MAGIC, LE(6, 4) + x2);
    LiesConcat(b, 12, LE(6, 4), x2);
    LiesConcat(b, 16, LE(count, 4), x3);
    LiesConcat(b, 20, LE(dim, 4), x4);
    LiesConcat(b, 24, LE(metaOff, 4), x5);
    LiesConcat(b, 28, Repeat<Byte>(0, 12), x6);
    LiesConcat(b, 40, LE(128, 4), x7);
    LiesConcat(b, 44, LE(entrySize, 4), x8);
    LiesConcat(b, 48, LE(timeOff, 4), Repeat<Byte>(0, 4));
    U32ReadsBack(b, 12, 6);
    U32ReadsBack(b, 16, count);
    U32ReadsBack(b, 20, dim);
    U32ReadsBack(b, 24, metaOff);
    U32ReadsBack(b, 40, 128);
    U32ReadsBack(b, 44, entrySize);
    U32ReadsBack(b, 48, timeOff);
  }

  lemma MagicFirst(b: seq<Byte>, count: nat, dim: nat, metaOff: nat, entrySize: nat, timeOff: nat)
    requires Lies(b, 0, HeaderBytes(count, dim, metaOff, entrySize, timeOff))
    ensures |b| >= 56 && b[..12] == SEG_MAGIC
  {
    hide LE;
    var h := HeaderBytes(count, dim, metaOff, entrySize, timeOff);
    assert b[..12] == b[0..56][..12];
    assert h[..12] == SEG_MAGIC;
  }

  lemma ProductBound(n: nat, size: nat)
    requires n > 0
    ensures size <= n * size
  {
  }

  /** Opening the built image finds the layout it was built with. */
  lemma OpenBuilt(es: seq<SegEntry>, dim: nat, times: seq<TimeEntry>, crc: seq<Byte>)
    requires Fits(es, dim) && |crc| == 4
    ensures Open(Image(es, dim, times, crc)) ==
            Some(Reader(Image(es, dim, times, crc), |es|, dim, EntrySize(dim), 128, MetaOffset(|es|, dim), TimeOffset(es, dim)))
  {
    hide HeaderBytes, AllEntryBytes, OffsetBytes, Offsets, Blob, TimeBytes, Lies, EntrySize, Image, U32At;
    ImageParts(es, dim, times, crc);
    ProductBound(EntrySize(dim), |es|);
    HeaderReadsBack(Image(es, dim, times, crc), |es|, dim, MetaOffset(|es|, dim), EntrySize(dim), TimeOffset(es, dim));
  }

  lemma PrefixReadsSame(b: seq<Byte>, c: nat, off: nat)
    requires off + 4 <= c <= |b|
    ensures U32At(b[..c], off) == U32At(b, off)
  {
    assert b[..c][off..off + 4] == b[off..off + 4];
  }

  /** A file cut short opens if and only if all its entries and a footer's worth of bytes are left. */
  lemma CutImageOpensIff(es: seq<SegEntry>, dim: nat, times: seq<TimeEntry>, crc: seq<Byte>, c: nat)
    requires Fits(es, dim) && |crc| == 4 && c <= |Image(es, dim, times, crc)|
    ensures Open(Image(es, dim, times, crc)[..c]).Some? <==> c >= MetaOffset(|es|, dim) + 4
  {
    hide Image, U32At, EntrySize, EntriesOk, Blob;
    var b := Image(es, dim, times, crc);
    OpenBuilt(es, dim, times, crc);
    Product(|es|, EntrySize(dim));
    if c >= 56 {
      PrefixReadsSame(b, c, 12);
      PrefixReadsSame(b, c, 16);
      PrefixReadsSame(b, c, 20);
      PrefixReadsSame(b, c, 24);
      PrefixReadsSame(b, c, 40);
      PrefixReadsSame(b, c, 44);
      PrefixReadsSame(b, c, 48);
      assert b[..c][..12] == b[..12];
    }
  }

  lemma Product(n: nat, m: nat)
    ensures n * m >= 0
  {
  }

  /** A file without the magic, or of a version outside 2 to 6, is refused. */
  lemma ForeignFileIsRefused(b: seq<Byte>)
    requires |b| < 56 || b[..12] != SEG_MAGIC || U32At(b, 12) < 2 || U32At(b, 12) > 6
    ensures Open(b).None?
  {
    hide U32At;
  }

  lemma BuiltEntry(es: seq<SegEntry>, dim: nat, times: seq<TimeEntry>, crc: seq<Byte>, r: Reader, i: nat)
    requires EntriesOk(es, dim) && i < |es| && ReaderOk(r)
    requires r == Reader(Image(es, dim, times, crc), |es|, dim, EntrySize(dim), 128, MetaOffset(|es|, dim), TimeOffset(es, dim))
    ensures IdAt(r, i) == es[i].id && DeletedAt(r, i) == es[i].deleted && (!es[i].deleted ==> VecAt(r, i) == es[i].vec)
  {
    hide HeaderBytes, AllEntryBytes, OffsetBytes, Offsets, Blob, TimeBytes, Lies, EntrySize, Image, U64At, EntryBytes;
    ImageParts(es, dim, times, crc);
    EntryLies(es, dim, i);
    LiesInPart(r.base, 128, AllEntryBytes(es, dim), i * EntrySize(dim), EntryBytes(es[i], dim));
    EntryParts(r.base, 128 + i * EntrySize(dim), es[i], dim);
  }

  lemma BuiltMeta(es: seq<SegEntry>, dim: nat, times: seq<TimeEntry>, crc: seq<Byte>, r: Reader, i: nat)
    requires Fits(es, dim) && i < |es|
    requires r == Reader(Image(es, dim, times, crc), |es|, dim, EntrySize(dim), 128, MetaOffset(|es|, dim), TimeOffset(es, dim))
    ensures MetaAt(r, i) == Some(es[i].meta)
  {
    hide HeaderBytes, AllEntryBytes, OffsetBytes, Blob, TimeBytes, Lies, EntrySize, Image, U64At, ReadMeta, MetaBytes;
    ImageParts(es, dim, times, crc);
    MetaLies(es, dim, i);
    var offs := Offsets(es, dim);
    OffsetReadsBack(r.base, r.metaOff, offs, i);
    OffsetReadsBack(r.base, r.metaOff, offs, i + 1);
    var blobOff := r.metaOff + 8 * (|es| + 1);
    LiesInPart(r.base, blobOff, Blob(es, dim), offs[i], MetaBytes(es[i].meta));
    MetaRoundTrip(r.base, blobOff + offs[i], es[i].meta);
  }

  lemma BuiltTime(es: seq<SegEntry>, dim: nat, times: seq<TimeEntry>, crc: seq<Byte>, r: Reader, i: nat)
    requires EntriesOk(es, dim) && i < |times|
    requires r == Reader(Image(es, dim, times, crc), |es|, dim, EntrySize(dim), 128, MetaOffset(|es|, dim), TimeOffset(es, dim))
    ensures TimeAt(r, i) == Some(times[i])
  {
    hide HeaderBytes, AllEntryBytes, OffsetBytes, Offsets, Blob, TimeBytes, Lies, EntrySize, Image, U64At, U32At;
    ImageParts(es, dim, times, crc);
    TimeReadsBack(r.base, r.timeOff, times, i);
  }

  /** BUILD THEN READ: the image of any entries that fit is read back exactly, field by field. */
  lemma BuiltIsSeen(es: seq<SegEntry>, dim: nat, times: seq<TimeEntry>, crc: seq<Byte>)
    requires Fits(es, dim) && |crc| == 4 && |times| == |es|
    ensures Open(Image(es, dim, times, crc)).Some? && Sees(Open(Image(es, dim, times, crc)).value, es, times)
  {
    hide Image, Blob, MetaAt, TimeAt, IdAt, DeletedAt, VecAt, U32At, AllEntryBytes;
    OpenBuilt(es, dim, times, crc);
    var r := Open(Image(es, dim, times, crc)).value;
    BuiltReaderOk(es, dim, times, crc, r);
    forall i: nat | i < |es|
      ensures IdAt(r, i) == es[i].id && DeletedAt(r, i) == es[i].deleted && (!es[i].deleted ==> VecAt(r, i) == es[i].vec)
      ensures MetaAt(r, i) == Some(es[i].meta)
    {
      BuiltEntry(es, dim, times, crc, r, i);
      BuiltMeta(es, dim, times, crc, r, i);
    }
    forall i: nat | i < |times| ensures TimeAt(r, i) == Some(times[i]) {
      BuiltTime(es, dim, times, crc, r, i);
    }
  }

  lemma BuiltReaderOk(es: seq<SegEntry>, dim: nat, times: seq<TimeEntry>, crc: seq<Byte>, r: Reader)
    requires EntriesOk(es, dim) && |crc| == 4
    requires r == Reader(Image(es, dim, times, crc), |es|, dim, EntrySize(dim), 128, MetaOffset(|es|, dim), TimeOffset(es, dim))
    ensures ReaderOk(r) && r.timeOff > 0
  {
    hide Image, Blob, EntrySize, HeaderBytes, AllEntryBytes, OffsetBytes, Offsets, TimeBytes, Lies;
    ImageParts(es, dim, times, crc);
  }
}
