/**
 The segment builder and reader as loops: sorting and streaming entries out,
 binary search, iteration, and temporal range scans.
 */
module SegmentOps {
  import opened Prelude
  import opened Bytes
  import opened SegmentFormat
  import opened SortedRange
  import opened Segment

  // ---------------------------------------------------------------- lookups

  datatype Found = Found(vec: seq<Byte>, meta: Option<Metadata>) | FoundTombstone(tmeta: Option<Metadata>) | NotFound

  /** The position of an id, or |es|. */
  function PositionOf(es: seq<SegEntry>, id: U64): (i: nat)
    ensures i <= |es|
    ensures i < |es| ==> es[i].id == id
    ensures i == |es| ==> forall j :: 0 <= j < |es| ==> es[j].id != id
  {
    if |es| == 0 then 0 else if es[0].id == id then 0 else 1 + PositionOf(es[1..], id)
  }

  /** The specification of a point lookup, in terms of the entries alone. */
  function LookupIn(es: seq<SegEntry>, id: U64): Found {
    var i := PositionOf(es, id);
    if i == |es| then NotFound
    else if es[i].deleted then FoundTombstone(Some(es[i].meta))
    else Found(es[i].vec, Some(es[i].meta))
  }

  ghost predicate StrictlySorted(es: seq<SegEntry>) {
    forall i, j :: 0 <= i < j < |es| ==> es[i].id < es[j].id
  }

  /** Binary search over the bytes of the file, between two positions. */
  function Search(r: Reader, id: U64, left: nat, right: int): Found
    requires ReaderOk(r) && right < r.count && left <= right + 1
    decreases right + 1 - left
  {
    if left > right then NotFound
    else
      var mid := left + (right - left) / 2;
      if IdAt(r, mid) == id then
        if DeletedAt(r, mid) then FoundTombstone(MetaAt(r, mid)) else Found(VecAt(r, mid), MetaAt(r, mid))
      else if IdAt(r, mid) < id then Search(r, id, mid + 1, right)
      else Search(r, id, left, mid - 1)
  }

  /** A point lookup in an opened file. */
  function FindIn(r: Reader, id: U64): Found
    requires ReaderOk(r)
  {
    Search(r, id, 0, r.count - 1)
  }

  /** The search over the bytes answers as the entries they stand for. */
  lemma {:induction false} SearchIsLookup(r: Reader, es: seq<SegEntry>, times: seq<TimeEntry>, id: U64, left: nat, right: int)
    requires Sees(r, es, times) && StrictlySorted(es) && right < r.count && left <= right + 1
    requires forall i :: 0 <= i < left ==> es[i].id < id
    requires forall i :: right < i < |es| ==> es[i].id > id
    ensures ReaderOk(r) && Search(r, id, left, right) == LookupIn(es, id)
    decreases right + 1 - left
  {
    hide U64At, MetaAt, ReaderOk, EntryOff, TimeAt, IdAt, DeletedAt, VecAt, Sees, PositionOf, StrictlySorted;
    SeesAll(r, es, times);
    if left <= right {
      var mid := left + (right - left) / 2;
      SeesEntry(r, es, times, mid);
      SortedAround(es, mid);
      if es[mid].id == id {
        PositionIs(es, id, mid);
      } else if es[mid].id < id {
        SearchIsLookup(r, es, times, id, mid + 1, right);
      } else {
        SearchIsLookup(r, es, times, id, left, mid - 1);
      }
    } else {
      assert forall i :: 0 <= i < |es| ==> es[i].id != id;
    }
  }

  lemma SeesAll(r: Reader, es: seq<SegEntry>, times: seq<TimeEntry>)
    requires Sees(r, es, times)
    ensures ReaderOk(r) && r.count == |es|
  {
  }

  lemma SeesEntry(r: Reader, es: seq<SegEntry>, times: seq<TimeEntry>, i: nat)
    requires Sees(r, es, times) && i < |es|
    ensures ReaderOk(r) && i < r.count && IdAt(r, i) == es[i].id && DeletedAt(r, i) == es[i].deleted
    ensures (!es[i].deleted ==> VecAt(r, i) == es[i].vec) && MetaAt(r, i) == Some(es[i].meta)
  {
    hide U64At, MetaAt, ReaderOk, EntryOff, TimeAt, IdAt, DeletedAt, VecAt;
  }

  lemma SortedAround(es: seq<SegEntry>, mid: nat)
    requires StrictlySorted(es) && mid < |es|
    ensures forall i :: 0 <= i <= mid ==> es[i].id <= es[mid].id
    ensures forall i :: mid <= i < |es| ==> es[i].id >= es[mid].id
  {
  }

  lemma PositionIs(es: seq<SegEntry>, id: U64, i: nat)
    requires StrictlySorted(es) && i < |es| && es[i].id == id
    ensures PositionOf(es, id) == i
  {
    assert es[PositionOf(es, id)].id == id;
  }

  /** FindRaw: binary search over the entries in the file. */
  method FindRaw(r: Reader, id: U64, ghost es: seq<SegEntry>, ghost times: seq<TimeEntry>) returns (f: Found)
    requires Sees(r, es, times) && StrictlySorted(es)
    ensures ReaderOk(r) && f == FindIn(r, id) == LookupIn(es, id)
  {
    hide U64At, MetaAt, ReaderOk, EntryOff, TimeAt, IdAt, DeletedAt, VecAt, Sees, StrictlySorted, LookupIn;
    LookupInFile(r, es, times, id);
    if r.count == 0 {
      return NotFound;
    }
    var left, right := 0, r.count - 1;
    while left <= right
      invariant 0 <= left <= right + 1 && right < r.count && Search(r, id, left, right) == FindIn(r, id)
    {
      var mid := left + (right - left) / 2;
      var readId := IdAt(r, mid);
      if readId == id {
        if DeletedAt(r, mid) {
          return FoundTombstone(MetaAt(r, mid));
        }
        return Found(VecAt(r, mid), MetaAt(r, mid));
      }
      if readId < id {
        left := mid + 1;
      } else {
        right := mid - 1;
      }
    }
    return NotFound;
  }

  lemma LookupInFile(r: Reader, es: seq<SegEntry>, times: seq<TimeEntry>, id: U64)
    requires Sees(r, es, times) && StrictlySorted(es)
    ensures ReaderOk(r) && FindIn(r, id) == LookupIn(es, id)
  {
    hide U64At, MetaAt, ReaderOk, EntryOff, TimeAt, IdAt, DeletedAt, VecAt, Search, LookupIn;
    SearchIsLookup(r, es, times, id, 0, r.count - 1);
  }

  /** What ForEach hands to its callback for one entry: no vector for a tombstone. */
  datatype Visit = Visit(id: U64, vec: Option<seq<Byte>>, deleted: bool, meta: Option<Metadata>)

  function VisitOf(e: SegEntry): Visit {
    Visit(e.id, if e.deleted then None else Some(e.vec), e.deleted, Some(e.meta))
  }

  /** ForEach: a pointer stepping from entry to entry, decoding metadata in line. */
  method ForEach(r: Reader, ghost es: seq<SegEntry>, ghost times: seq<TimeEntry>) returns (vs: seq<Visit>)
    requires Sees(r, es, times)
    ensures |vs| == |es| && forall i :: 0 <= i < |es| ==> vs[i] == VisitOf(es[i])
    ensures forall i :: 0 <= i < |es| ==>
              && vs[i].id == es[i].id && vs[i].deleted == es[i].deleted && vs[i].meta == Some(es[i].meta)
              && vs[i].vec == if es[i].deleted then None else Some(es[i].vec)
  {
    hide U64At, MetaAt, ReaderOk, TimeAt;
    vs := [];
    var i := 0;
    while i < r.count
      invariant i <= r.count && |vs| == i
      invariant forall j :: 0 <= j < i ==> vs[j] == VisitOf(es[j])
    {
      var deleted := DeletedAt(r, i);
      vs := vs + [Visit(IdAt(r, i), if deleted then None else Some(VecAt(r, i)), deleted, MetaAt(r, i))];
      i := i + 1;
    }
  }

  // ---------------------------------------------------------------- temporal index

  function Stamps(ts: seq<TimeEntry>): (k: seq<nat>)
    ensures |k| == |ts| && forall i :: 0 <= i < |ts| ==> k[i] == ts[i].ts
  {
    seq(|ts|, i requires 0 <= i < |ts| => ts[i].ts)
  }

  /** A temporal index of es: sorted by timestamp, one entry per position. */
  ghost predicate TimesOk(es: seq<SegEntry>, times: seq<TimeEntry>) {
    && |times| == |es| && Sorted(Stamps(times))
    && (forall j :: 0 <= j < |times| ==> times[j].idx < |es| && times[j].ts == es[times[j].idx].meta.timestamp)
    && (forall i: nat :: i < |es| ==> Listed(times, i))
    && (forall j, k :: 0 <= j < k < |times| ==> times[j].idx != times[k].idx)
  }

  ghost predicate Listed(times: seq<TimeEntry>, i: nat) {
    exists j :: 0 <= j < |times| && times[j].idx == i
  }

  /** The positions between the two bounds; None when the scan runs off the index. */
  function ScanTimes(times: seq<TimeEntry>, lo: nat, hi: nat): Option<seq<U32>> {
    var k := Stamps(times);
    if RunsOff(k, lo, hi) then None
    else Some(Idxs(times[Lower(k, lo, 0)..Upper(k, hi, 0)]))
  }

  function Idxs(ts: seq<TimeEntry>): (r: seq<U32>)
    ensures |r| == |ts| && forall i :: 0 <= i < |ts| ==> r[i] == ts[i].idx
  {
    seq<U32>(|ts|, i requires 0 <= i < |ts| => ts[i].idx)
  }

  /** std::lower_bound over the file's temporal index. */
  method LowerBound(r: Reader, x: U64, ghost es: seq<SegEntry>, ghost times: seq<TimeEntry>) returns (i: nat)
    requires Sees(r, es, times) && Sorted(Stamps(times))
    ensures i == Lower(Stamps(times), x, 0)
  {
    hide U64At, U32At, MetaAt, ReaderOk, TimeAt, IdAt, DeletedAt, VecAt;
    ghost var k := Stamps(times);
    var lo, hi := 0, r.count;
    while lo < hi
      invariant lo <= hi <= r.count
      invariant forall j :: 0 <= j < lo ==> k[j] < x
      invariant forall j :: hi <= j < |k| ==> k[j] >= x
    {
      var mid := lo + (hi - lo) / 2;
      assert TimeAt(r, mid) == Some(times[mid]);
      if TimeAt(r, mid).value.ts < x {
        lo := mid + 1;
      } else {
        hi := mid;
      }
    }
    LowerIs(k, x, lo);
    return lo;
  }

  /** std::upper_bound over the file's temporal index. */
  method UpperBound(r: Reader, x: U64, ghost es: seq<SegEntry>, ghost times: seq<TimeEntry>) returns (i: nat)
    requires Sees(r, es, times) && Sorted(Stamps(times))
    ensures i == Upper(Stamps(times), x, 0)
  {
    hide U64At, U32At, MetaAt, ReaderOk, TimeAt, IdAt, DeletedAt, VecAt;
    ghost var k := Stamps(times);
    var lo, hi := 0, r.count;
    while lo < hi
      invariant lo <= hi <= r.count
      invariant forall j :: 0 <= j < lo ==> k[j] <= x
      invariant forall j :: hi <= j < |k| ==> k[j] > x
    {
      var mid := lo + (hi - lo) / 2;
      assert TimeAt(r, mid) == Some(times[mid]);
      if TimeAt(r, mid).value.ts <= x {
        lo := mid + 1;
      } else {
        hi := mid;
      }
    }
    UpperIs(k, x, lo);
    return lo;
  }

  /** SearchTemporal: step from one bound to the other, collecting positions. */
  method SearchTemporal(r: Reader, startTs: U64, endTs: U64, ghost es: seq<SegEntry>, ghost times: seq<TimeEntry>)
    returns (out: Option<seq<U32>>)
    requires Sees(r, es, times) && Sorted(Stamps(times))
    ensures out == ScanTimes(times, startTs, endTs)
  {
    hide U64At, U32At, MetaAt, ReaderOk, TimeAt, IdAt, DeletedAt, VecAt, Lower, Upper;
    var i := LowerBound(r, startTs, es, times);
    var e := UpperBound(r, endTs, es, times);
    if i > e {
      return None;
    }
    var res: seq<U32> := [];
    ghost var from := i;
    while i != e
      invariant from <= i <= e && res == Idxs(times[from..i])
      decreases e - i
    {
      assert TimeAt(r, i) == Some(times[i]);
      res := res + [TimeAt(r, i).value.idx];
      i := i + 1;
    }
    return Some(res);
  }

  /** A range scan finds each entry whose timestamp is in the range, exactly once, and nothing else. */
  lemma ScanTimesIsRange(es: seq<SegEntry>, times: seq<TimeEntry>, lo: nat, hi: nat, i: nat)
    requires TimesOk(es, times) && i < |es| && ScanTimes(times, lo, hi).Some?
    ensures i in ScanTimes(times, lo, hi).value <==> lo <= es[i].meta.timestamp <= hi
  {
    hide Lower, Upper, Idxs;
    var k := Stamps(times);
    assert Listed(times, i);
    var j :| 0 <= j < |times| && times[j].idx == i;
    ScanIsRange(k, lo, hi, j);
    InSlice(times, Lower(k, lo, 0), Upper(k, hi, 0), i, j);
  }

  lemma InSlice(times: seq<TimeEntry>, a: nat, b: nat, i: nat, j: nat)
    requires a <= b <= |times| && j < |times| && times[j].idx == i
    requires forall p, q :: 0 <= p < q < |times| ==> times[p].idx != times[q].idx
    ensures i in Idxs(times[a..b]) <==> a <= j < b
  {
    var out := Idxs(times[a..b]);
    if a <= j < b {
      assert out[j - a] == i;
    }
    if i in out {
      var p :| 0 <= p < |out| && out[p] == i;
      assert times[a + p].idx == i;
    }
  }

  lemma ScanTimesDistinct(es: seq<SegEntry>, times: seq<TimeEntry>, lo: nat, hi: nat)
    requires TimesOk(es, times) && ScanTimes(times, lo, hi).Some?
    ensures var out := ScanTimes(times, lo, hi).value;
            && (forall p :: 0 <= p < |out| ==> out[p] < |es|)
            && (forall p, q :: 0 <= p < q < |out| ==> out[p] != out[q])
  {
  }

  // ---------------------------------------------------------------- the builder

  /** Insertion into a list sorted by id; stands for std::sort, which promises no more than order and content. */
  function InsertById(e: SegEntry, es: seq<SegEntry>): (r: seq<SegEntry>)
    ensures multiset(r) == multiset(es) + multiset{e}
  {
    if |es| == 0 || e.id <= es[0].id then
      assert multiset([e] + es) == multiset{e} + multiset(es);
      [e] + es
    else
      assert es == [es[0]] + es[1..];
      [es[0]] + InsertById(e, es[1..])
  }

  function SortById(es: seq<SegEntry>): (r: seq<SegEntry>)
    ensures multiset(r) == multiset(es)
  {
    if |es| == 0 then [] else
      assert es == [es[0]] + es[1..];
      InsertById(es[0], SortById(es[1..]))
  }

  ghost predicate SortedById(es: seq<SegEntry>) {
    forall i, j :: 0 <= i < j < |es| ==> es[i].id <= es[j].id
  }

  ghost predicate UniqueIds(es: seq<SegEntry>) {
    forall i, j :: 0 <= i < j < |es| ==> es[i].id != es[j].id
  }

  lemma {:induction false} InsertByIdSorted(e: SegEntry, es: seq<SegEntry>)
    requires SortedById(es)
    ensures SortedById(InsertById(e, es))
    decreases |es|
  {
    if |es| > 0 && e.id > es[0].id {
      InsertByIdSorted(e, es[1..]);
      var rest := InsertById(e, es[1..]);
      forall i | 0 <= i < |rest| ensures es[0].id <= rest[i].id {
        assert rest[i] in multiset(rest);
        assert rest[i] in es[1..] || rest[i] == e;
      }
    }
  }

  lemma {:induction false} SortByIdSorted(es: seq<SegEntry>)
    ensures SortedById(SortById(es))
    decreases |es|
  {
    if |es| > 0 {
      SortByIdSorted(es[1..]);
      InsertByIdSorted(es[0], SortById(es[1..]));
    }
  }

  lemma {:induction false} CountsTwice<T>(s: seq<T>, i: nat, j: nat)
    requires i < j < |s| && s[i] == s[j]
    ensures multiset(s)[s[i]] >= 2
  {
    assert s == s[..j] + s[j..];
    assert s[..j][i] == s[i];
    assert s[j..][0] == s[i];
  }

  /** Strict order by id, whatever permutation the sort produced. */
  lemma SortedUniqueIsStrict(sorted: seq<SegEntry>, es: seq<SegEntry>)
    requires SortedById(sorted) && multiset(sorted) == multiset(es) && UniqueIds(es)
    ensures StrictlySorted(sorted)
  {
    forall i, j | 0 <= i < j < |sorted| ensures sorted[i].id != sorted[j].id {
      assert sorted[i] in multiset(es) && sorted[j] in multiset(es);
      var a :| 0 <= a < |es| && es[a] == sorted[i];
      var b :| 0 <= b < |es| && es[b] == sorted[j];
      if a == b {
        CountsTwice(sorted, i, j);
        OnceEach(es, a);
      }
    }
  }

  lemma OnceEach(es: seq<SegEntry>, a: nat)
    requires UniqueIds(es) && a < |es|
    ensures multiset(es)[es[a]] == 1
  {
    var l, r := es[..a], es[a + 1..];
    assert es == l + [es[a]] + r;
    assert es[a] !in l;
    assert es[a] !in r;
  }

  // ---------------------------------------------------------------- sorting timestamps

  function InsertByTime(t: TimeEntry, ts: seq<TimeEntry>): (r: seq<TimeEntry>)
    ensures multiset(r) == multiset(ts) + multiset{t}
  {
    if |ts| == 0 || t.ts <= ts[0].ts then
      assert multiset([t] + ts) == multiset{t} + multiset(ts);
      [t] + ts
    else
      assert ts == [ts[0]] + ts[1..];
      [ts[0]] + InsertByTime(t, ts[1..])
  }

  function SortByTime(ts: seq<TimeEntry>): (r: seq<TimeEntry>)
    ensures multiset(r) == multiset(ts)
  {
    if |ts| == 0 then [] else
      assert ts == [ts[0]] + ts[1..];
      InsertByTime(ts[0], SortByTime(ts[1..]))
  }

  ghost predicate SortedByTime(ts: seq<TimeEntry>) {
    forall i, j :: 0 <= i < j < |ts| ==> ts[i].ts <= ts[j].ts
  }

  lemma {:induction false} InsertByTimeSorted(t: TimeEntry, ts: seq<TimeEntry>)
    requires SortedByTime(ts)
    ensures SortedByTime(InsertByTime(t, ts))
    decreases |ts|
  {
    if |ts| > 0 && t.ts > ts[0].ts {
      InsertByTimeSorted(t, ts[1..]);
      var rest := InsertByTime(t, ts[1..]);
      forall i | 0 <= i < |rest| ensures ts[0].ts <= rest[i].ts {
        assert rest[i] in multiset(rest);
        assert rest[i] in ts[1..] || rest[i] == t;
      }
    }
  }

  lemma {:induction false} SortByTimeSorted(ts: seq<TimeEntry>)
    ensures SortedByTime(SortByTime(ts)) && Sorted(Stamps(SortByTime(ts)))
    decreases |ts|
  {
    if |ts| > 0 {
      SortByTimeSorted(ts[1..]);
      InsertByTimeSorted(ts[0], SortByTime(ts[1..]));
    }
  }

  /** The timestamps in entry order, as the builder collects them. */
  function RawTimes(es: seq<SegEntry>): (ts: seq<TimeEntry>)
    requires |es| < TWO_32
    ensures |ts| == |es| && forall i :: 0 <= i < |es| ==> ts[i] == TimeEntry(es[i].meta.timestamp, i)
  {
    seq<TimeEntry>(|es|, i requires 0 <= i < |es| => TimeEntry(es[i].meta.timestamp, i))
  }

  /** Any order of the collected timestamps that is sorted is a temporal index. */
  lemma AnySortedTimesOk(es: seq<SegEntry>, times: seq<TimeEntry>)
    requires |es| < TWO_32 && Sorted(Stamps(times)) && multiset(times) == multiset(RawTimes(es))
    ensures TimesOk(es, times)
  {
    var raw := RawTimes(es);
    SameLength(times, raw);
    forall j | 0 <= j < |times| ensures times[j].idx < |es| && times[j].ts == es[times[j].idx].meta.timestamp {
      assert times[j] in multiset(raw);
      var i :| 0 <= i < |raw| && raw[i] == times[j];
    }
    forall i: nat | i < |es| ensures Listed(times, i) {
      assert raw[i] in multiset(times);
      var j :| 0 <= j < |times| && times[j] == raw[i];
    }
    forall j, k | 0 <= j < k < |times| ensures times[j].idx != times[k].idx {
      if times[j].idx == times[k].idx {
        CountsTwice(times, j, k);
        RawOnce(es, times[j].idx);
      }
    }
  }

  lemma SameLength(a: seq<TimeEntry>, b: seq<TimeEntry>)
    requires multiset(a) == multiset(b)
    ensures |a| == |b|
  {
    assert |multiset(a)| == |a| && |multiset(b)| == |b|;
  }

  lemma RawOnce(es: seq<SegEntry>, i: nat)
    requires |es| < TWO_32 && i < |es|
    ensures multiset(RawTimes(es))[RawTimes(es)[i]] == 1
  {
    var raw := RawTimes(es);
    var l, r := raw[..i], raw[i + 1..];
    assert raw == l + [raw[i]] + r;
    assert raw[i] !in l;
    assert raw[i] !in r;
  }

  // ---------------------------------------------------------------- Finish

  lemma {:induction false} AllEntryBytesConcat(a: seq<SegEntry>, b: seq<SegEntry>, dim: nat)
    requires EntriesOk(a, dim) && EntriesOk(b, dim)
    ensures EntriesOk(a + b, dim) && AllEntryBytes(a + b, dim) == AllEntryBytes(a, dim) + AllEntryBytes(b, dim)
    decreases |a|
  {
    hide EntryBytes;
    if |a| == 0 {
      assert a + b == b;
      assert AllEntryBytes(a, dim) + AllEntryBytes(b, dim) == AllEntryBytes(b, dim);
    } else {
      assert (a + b)[1..] == a[1..] + b;
      AllEntryBytesConcat(a[1..], b, dim);
      assert EntryBytes(a[0], dim) + AllEntryBytes(a[1..], dim) + AllEntryBytes(b, dim) ==
             EntryBytes(a[0], dim) + (AllEntryBytes(a[1..], dim) + AllEntryBytes(b, dim));
    }
  }

  lemma EntriesStep(es: seq<SegEntry>, dim: nat, i: nat)
    requires EntriesOk(es, dim) && i < |es|
    ensures AllEntryBytes(es[..i + 1], dim) == AllEntryBytes(es[..i], dim) + EntryBytes(es[i], dim)
    ensures Blob(es[..i + 1], dim) == Blob(es[..i], dim) + MetaBytes(es[i].meta)
  {
    hide EntryBytes, MetaBytes, Blob;
    assert es[..i + 1] == es[..i] + [es[i]];
    AllEntryBytesConcat(es[..i], [es[i]], dim);
    BlobConcat(es[..i], [es[i]], dim);
    BlobCons([es[i]], dim);
    OneEntryBytes(es[i], dim);
  }

  lemma OneEntryBytes(e: SegEntry, dim: nat)
    requires EntryOk(e, dim)
    ensures AllEntryBytes([e], dim) == EntryBytes(e, dim)
  {
    assert [e][1..] == [];
  }

  lemma SortedEntriesOk(es: seq<SegEntry>, entries: seq<SegEntry>, dim: nat)
    requires multiset(es) == multiset(entries) && EntriesOk(entries, dim)
    ensures EntriesOk(es, dim) && |es| == |entries|
  {
    assert |multiset(es)| == |es| && |multiset(entries)| == |entries|;
    forall i | 0 <= i < |es| ensures EntryOk(es[i], dim) {
      assert es[i] in multiset(entries);
    }
  }

  method StreamEntries(es: seq<SegEntry>, dim: nat) returns (body: seq<Byte>)
    requires EntriesOk(es, dim)
    ensures body == AllEntryBytes(es, dim)
  {
    hide EntryBytes, AllEntryBytes, EntriesOk, MetaOk;
    body := [];
    BlobOfNothing(es, dim);
    var i := 0;
    while i < |es|
      invariant i <= |es| && PrefixOk(es, dim, i) && body == AllEntryBytes(es[..i], dim)
    {
      EntriesStep(es, dim, i);
      PrefixStep(es, dim, i);
      body := body + EntryBytes(es[i], dim);
      i := i + 1;
    }
    assert es[..|es|] == es;
  }

  method CollectMetadata(es: seq<SegEntry>, dim: nat) returns (offsets: seq<nat>, blob: seq<Byte>, stamps: seq<TimeEntry>)
    requires EntriesOk(es, dim) && |es| < TWO_32
    ensures offsets == Offsets(es, dim) && blob == Blob(es, dim) && stamps == RawTimes(es)
  {
    hide Collected, MetaBytes, MetaOk, Blob, Offsets, RawTimes, EntriesOk;
    CollectNothing(es, dim);
    offsets, stamps := [], [];
    blob := [];
    var i := 0;
    while i < |es|
      invariant i <= |es| && Collected(es, dim, i, offsets, blob, stamps)
    {
      CollectStep(es, dim, i, offsets, blob, stamps);
      offsets := offsets + [|blob|];
      blob := blob + MetaBytes(es[i].meta);
      stamps := stamps + [TimeEntry(es[i].meta.timestamp, i)];
      i := i + 1;
    }
    CollectEnd(es, dim, offsets, blob, stamps);
    offsets := offsets + [|blob|];
  }

  /** What the builder has collected after i entries. */
  ghost predicate Collected(es: seq<SegEntry>, dim: nat, i: nat, offsets: seq<nat>, blob: seq<Byte>, stamps: seq<TimeEntry>)
    requires EntriesOk(es, dim) && |es| < TWO_32 && i <= |es|
  {
    PrefixOk(es, dim, i) && offsets == Offsets(es, dim)[..i] && blob == Blob(es[..i], dim) && stamps == RawTimes(es)[..i]
  }

  lemma CollectNothing(es: seq<SegEntry>, dim: nat)
    requires EntriesOk(es, dim) && |es| < TWO_32
    ensures Collected(es, dim, 0, [], [], [])
  {
    hide Blob, Offsets, RawTimes;
    BlobOfNothing(es, dim);
  }

  lemma CollectStep(es: seq<SegEntry>, dim: nat, i: nat, offsets: seq<nat>, blob: seq<Byte>, stamps: seq<TimeEntry>)
    requires EntriesOk(es, dim) && |es| < TWO_32 && i < |es| && Collected(es, dim, i, offsets, blob, stamps)
    ensures MetaOk(es[i].meta)
    ensures Collected(es, dim, i + 1, offsets + [|blob|], blob + MetaBytes(es[i].meta),
                      stamps + [TimeEntry(es[i].meta.timestamp, i)])
  {
    hide MetaBytes, MetaOk, Blob, Offsets, RawTimes, AllEntryBytes;
    PrefixStep(es, dim, i);
    EntriesStep(es, dim, i);
    OffsetAt(es, dim, i);
    Grows(Offsets(es, dim), i);
    Grows(RawTimes(es), i);
  }

  lemma CollectEnd(es: seq<SegEntry>, dim: nat, offsets: seq<nat>, blob: seq<Byte>, stamps: seq<TimeEntry>)
    requires EntriesOk(es, dim) && |es| < TWO_32 && Collected(es, dim, |es|, offsets, blob, stamps)
    ensures offsets + [|blob|] == Offsets(es, dim) && blob == Blob(es, dim) && stamps == RawTimes(es)
  {
    hide Blob, Offsets, RawTimes;
    OffsetAt(es, dim, |es|);
    Grows(Offsets(es, dim), |es|);
    assert es[..|es|] == es;
    assert Offsets(es, dim)[..|es| + 1] == Offsets(es, dim);
    assert RawTimes(es)[..|es|] == RawTimes(es);
  }

  lemma Grows<T>(s: seq<T>, i: nat)
    requires i < |s|
    ensures s[..i + 1] == s[..i] + [s[i]]
  {
  }

  ghost predicate PrefixOk(es: seq<SegEntry>, dim: nat, i: nat) {
    i <= |es| && EntriesOk(es[..i], dim)
  }

  lemma PrefixStep(es: seq<SegEntry>, dim: nat, i: nat)
    requires EntriesOk(es, dim) && i < |es|
    ensures PrefixOk(es, dim, i) && PrefixOk(es, dim, i + 1) && EntryOk(es[i], dim)
  {
    hide EntryOk;
  }

  lemma OffsetAt(es: seq<SegEntry>, dim: nat, i: nat)
    requires EntriesOk(es, dim) && i <= |es|
    ensures Offsets(es, dim)[i] == |Blob(es[..i], dim)|
  {
    hide Blob;
  }

  lemma BlobOfNothing(es: seq<SegEntry>, dim: nat)
    requires EntriesOk(es, dim)
    ensures PrefixOk(es, dim, 0) && Blob(es[..0], dim) == [] && AllEntryBytes(es[..0], dim) == []
  {
  }

  /** Finish: sort by id, stream the entries, collect metadata and timestamps, sort those, and lay the file out. */
  method Finish(entries: seq<SegEntry>, dim: nat, crc: seq<Byte>)
    returns (image: seq<Byte>, es: seq<SegEntry>, times: seq<TimeEntry>)
    requires EntriesOk(entries, dim) && |entries| < TWO_32
    ensures multiset(es) == multiset(entries) && SortedById(es) && EntriesOk(es, dim)
    ensures TimesOk(es, times)
    ensures image == Image(es, dim, times, crc)
  {
    hide EntryOk, SortById, SortByTime, TimesOk, AllEntryBytes, Blob, HeaderBytes, SortedById;
    var sorted := SortById(entries);
    SortByIdSorted(entries);
    SortedEntriesOk(sorted, entries, dim);
    var body := StreamEntries(sorted, dim);
    var offsets, blob, stamps := CollectMetadata(sorted, dim);
    var order := SortByTime(stamps);
    SortByTimeSorted(stamps);
    AnySortedTimesOk(sorted, order);
    es, times := sorted, order;
    var metaOff := 128 + |sorted| * EntrySize(dim);
    var timeOff := metaOff + |offsets| * 8 + |blob|;
    image := HeaderBytes(|sorted|, dim, metaOff, EntrySize(dim), timeOff) +
             (Repeat<Byte>(0, 72) + (body + (OffsetBytes(offsets) + (blob + (TimeBytes(order) + crc)))));
  }

  lemma LookupByEntry(es: seq<SegEntry>, e: SegEntry)
    requires StrictlySorted(es) && e in es
    ensures LookupIn(es, e.id) == if e.deleted then FoundTombstone(Some(e.meta)) else Found(e.vec, Some(e.meta))
  {
    var i :| 0 <= i < |es| && es[i] == e;
    var p := PositionOf(es, e.id);
    assert es[p].id == es[i].id;
  }

  /**
   ROUND TRIP: whatever order the sorts leave equal timestamps in, the image of
   entries with unique ids answers a lookup of any id with that entry's vector
   and ten metadata fields, with its tombstone, or with not-found.
   */
  lemma SegmentRoundTrip(entries: seq<SegEntry>, es: seq<SegEntry>, dim: nat, times: seq<TimeEntry>, crc: seq<Byte>, id: U64)
    requires multiset(es) == multiset(entries) && SortedById(es) && UniqueIds(entries)
    requires Fits(es, dim) && |crc| == 4 && |times| == |es|
    ensures Open(Image(es, dim, times, crc)).Some? && ReaderOk(Open(Image(es, dim, times, crc)).value)
    ensures var r := Open(Image(es, dim, times, crc)).value;
            && (forall e :: e in entries && e.id == id ==>
                  FindIn(r, id) == if e.deleted then FoundTombstone(Some(e.meta)) else Found(e.vec, Some(e.meta)))
            && ((forall e :: e in entries ==> e.id != id) ==> FindIn(r, id) == NotFound)
  {
    hide Image, Sees, Open, LookupIn, ReaderOk, FindIn, EntriesOk, EntrySize, Blob;
    BuiltIsSeen(es, dim, times, crc);
    SortedUniqueIsStrict(es, entries);
    LookupInFile(Open(Image(es, dim, times, crc)).value, es, times, id);
    forall e | e in entries && e.id == id
      ensures LookupIn(es, id) == if e.deleted then FoundTombstone(Some(e.meta)) else Found(e.vec, Some(e.meta))
    {
      assert e in multiset(es);
      LookupByEntry(es, e);
    }
    if forall e :: e in entries ==> e.id != id {
      NotFoundIn(es, entries, id);
    }
  }

  lemma NotFoundIn(es: seq<SegEntry>, entries: seq<SegEntry>, id: U64)
    requires multiset(es) == multiset(entries) && forall e :: e in entries ==> e.id != id
    ensures LookupIn(es, id) == NotFound
  {
    forall i | 0 <= i < |es| ensures es[i].id != id {
      assert es[i] in multiset(entries);
      assert es[i] in entries;
    }
  }
}
