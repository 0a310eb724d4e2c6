/**
 The checksum footer of a segment.  The header is hashed before the offset of the
 temporal index is known and rewritten afterwards, so the footer never is the
 checksum of the finished file.
 */
module SegmentFooter {
  import opened Prelude
  import opened Bytes
  import opened SegmentFormat
  import opened Segment
  import opened Crc32c
  import opened CrcDetection

  function Octet(b: Byte): bv8 { b as bv8 }

  function Octets(b: seq<Byte>): (o: seq<bv8>)
    ensures |o| == |b| && forall i :: 0 <= i < |b| ==> o[i] == Octet(b[i])
  {
    seq(|b|, i requires 0 <= i < |b| => Octet(b[i]))
  }

  lemma OctetIs(b: Byte)
    ensures Octet(b) as int == b
  {
    assert b % 256 == b;
  }

  lemma OctetTellsApart(a: Byte, b: Byte)
    ensures Octet(a) == Octet(b) ==> a == b
  {
    hide Octet;
    OctetIs(a);
    OctetIs(b);
  }

  lemma OctetsTellApart(a: seq<Byte>, b: seq<Byte>)
    requires |a| == |b| && a != b
    ensures Octets(a) != Octets(b)
  {
    hide Octet;
    var i :| 0 <= i < |a| && a[i] != b[i];
    OctetTellsApart(a[i], b[i]);
    assert Octets(a)[i] != Octets(b)[i];
  }

  lemma OctetsConcat(a: seq<Byte>, b: seq<Byte>)
    ensures Octets(a + b) == Octets(a) + Octets(b)
  {
    hide Octet;
  }

  /** The header as it is when it is hashed. */
  function EarlyHeader(es: seq<SegEntry>, dim: nat): seq<Byte>
    requires EntriesOk(es, dim)
  {
    HeaderBytes(|es|, dim, MetaOffset(|es|, dim), EntrySize(dim), 0)
  }

  /** Everything behind the header, up to the footer. */
  function Rest(es: seq<SegEntry>, dim: nat, times: seq<TimeEntry>): seq<Byte>
    requires EntriesOk(es, dim)
  {
    Repeat<Byte>(0, 72) + (AllEntryBytes(es, dim) + (OffsetBytes(Offsets(es, dim)) + (Blob(es, dim) + TimeBytes(times))))
  }

  /** The footer as Finish computes it, piece by piece. */
  function Footer(es: seq<SegEntry>, dim: nat, times: seq<TimeEntry>): bv32
    requires EntriesOk(es, dim)
  {
    var header := Crc(Octets(EarlyHeader(es, dim)), 0);
    var pad := Crc(Octets(Repeat<Byte>(0, 72)), header);
    var entries := Crc(Octets(AllEntryBytes(es, dim)), pad);
    var offsets := Crc(Octets(OffsetBytes(Offsets(es, dim))), entries);
    var blob := Crc(Octets(Blob(es, dim)), offsets);
    Crc(Octets(TimeBytes(times)), blob)
  }

  lemma CrcJoins(a: seq<Byte>, b: seq<Byte>, seed: bv32)
    ensures Crc(Octets(b), Crc(Octets(a), seed)) == Crc(Octets(a + b), seed)
  {
    hide Crc;
    OctetsConcat(a, b);
    ChecksumInPieces(Octets(a), Octets(b), seed);
  }

  /** The pieces add up to one checksum over the header before its rewrite and everything behind it. */
  lemma FooterIsEarly(es: seq<SegEntry>, dim: nat, times: seq<TimeEntry>)
    requires EntriesOk(es, dim)
    ensures Footer(es, dim, times) == Crc(Octets(EarlyHeader(es, dim) + Rest(es, dim, times)), 0)
  {
    hide Crc, Octets, EarlyHeader, AllEntryBytes, OffsetBytes, Offsets, Blob, TimeBytes;
    var h, p, e := EarlyHeader(es, dim), Repeat<Byte>(0, 72), AllEntryBytes(es, dim);
    var o, b, t := OffsetBytes(Offsets(es, dim)), Blob(es, dim), TimeBytes(times);
    CrcJoins(h, p, 0);
    CrcJoins(h + p, e, 0);
    CrcJoins(h + p + e, o, 0);
    CrcJoins(h + p + e + o, b, 0);
    CrcJoins(h + p + e + o + b, t, 0);
    assert h + p + e + o + b + t == h + (p + (e + (o + (b + t))));
  }

  /** The header around the offset of the temporal index. */
  lemma HeaderAround(count: nat, dim: nat, metaOff: nat, entrySize: nat, timeOff: nat) returns (front: seq<Byte>)
    ensures HeaderBytes(count, dim, metaOff, entrySize, timeOff) == front + LE(timeOff, 4) + Repeat<Byte>(0, 4)
    ensures HeaderBytes(count, dim, metaOff, entrySize, 0) == front + LE(0, 4) + Repeat<Byte>(0, 4)
  {
    hide LE;
    front := SEG_MAGIC + (LE(6, 4) + (LE(count, 4) + (LE(dim, 4) + (LE(metaOff, 4) + (Repeat<Byte>(0, 12) +
             (LE(128, 4) + LE(entrySize, 4)))))));
  }

  lemma OffsetIsNotZero(n: nat)
    requires 0 < n < TWO_32
    ensures LE(n, 4) != LE(0, 4)
  {
    hide LE, FromLE;
    Widths();
    LERoundTrip(n, 4);
    LERoundTrip(0, 4);
  }

  lemma BurstShows(front: seq<Byte>, x: seq<Byte>, y: seq<Byte>, back: seq<Byte>)
    requires |x| == |y| <= 4 && x != y
    ensures Crc(Octets(front + x + back), 0) != Crc(Octets(front + y + back), 0)
  {
    hide Crc, Octets;
    OctetsConcat(front + x, back);
    OctetsConcat(front, x);
    OctetsConcat(front + y, back);
    OctetsConcat(front, y);
    OctetsTellApart(x, y);
    OctetsLength(x, y);
    DetectsByteBursts(Octets(front), Octets(x), Octets(y), Octets(back), 0);
  }

  lemma OctetsLength(x: seq<Byte>, y: seq<Byte>)
    requires |x| == |y|
    ensures |Octets(x)| == |Octets(y)| == |x|
  {
  }

  /** The footer of a segment that fits its header is never the checksum of the file in front of it. */
  lemma FooterNeverMatches(es: seq<SegEntry>, dim: nat, times: seq<TimeEntry>)
    requires Fits(es, dim)
    ensures Footer(es, dim, times) != Crc(Octets(Image(es, dim, times, [])), 0)
  {
    hide Crc, Octets, Footer, HeaderBytes, AllEntryBytes, OffsetBytes, Offsets, Blob, TimeBytes, LE, EntrySize;
    FooterIsEarly(es, dim, times);
    var off := TimeOffset(es, dim);
    var front := HeaderAround(|es|, dim, MetaOffset(|es|, dim), EntrySize(dim), off);
    var back := Repeat<Byte>(0, 4) + Rest(es, dim, times);
    ImageBytes(es, dim, times, front, back);
    OffsetIsNotZero(off);
    BurstShows(front, LE(0, 4), LE(off, 4), back);
  }

  lemma ImageBytes(es: seq<SegEntry>, dim: nat, times: seq<TimeEntry>, front: seq<Byte>, back: seq<Byte>)
    requires EntriesOk(es, dim) && back == Repeat<Byte>(0, 4) + Rest(es, dim, times)
    requires HeaderBytes(|es|, dim, MetaOffset(|es|, dim), EntrySize(dim), TimeOffset(es, dim)) ==
             front + LE(TimeOffset(es, dim), 4) + Repeat<Byte>(0, 4)
    requires EarlyHeader(es, dim) == front + LE(0, 4) + Repeat<Byte>(0, 4)
    ensures Image(es, dim, times, []) == front + LE(TimeOffset(es, dim), 4) + back
    ensures EarlyHeader(es, dim) + Rest(es, dim, times) == front + LE(0, 4) + back
  {
    hide HeaderBytes, AllEntryBytes, OffsetBytes, Offsets, Blob, TimeBytes, LE, EarlyHeader, TimeOffset, EntrySize;
    assert TimeBytes(times) + [] == TimeBytes(times);
  }
}
