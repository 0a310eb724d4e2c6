/**
 Filtered search masks: one bit per segment entry.  The mask can be built by
 three plans (no filter, temporal index, full scan); they are specified by one
 predicate, and the exact condition under which they agree is proved.
 */
module BitsetMask {
  import opened Prelude
  import opened BitWords
  import opened SegmentFormat
  import opened SortedRange
  import opened Segment
  import opened SegmentOps

  // ---------------------------------------------------------------- filters

  datatype Filter = Filter(field: string, value: Text, minTs: U64, maxTs: U64, isRadius: bool, where_: (U64, U64, U64))

  /** Whether a position (lat, lon) lies within a radius filter's circle; left uninterpreted. */
  type Near = (Filter, U64, U64) -> bool

  predicate FilterMatches(f: Filter, m: Metadata, near: Near) {
    && !(f.field == "tenant" && m.tenant != f.value)
    && !(f.field == "device_id" && m.deviceId != f.value)
    && !(f.field == "location_id" && m.locationId != f.value)
    && !(f.field == "timestamp" && f.minTs > 0 && m.timestamp < f.minTs)
    && !(f.field == "timestamp" && f.maxTs > 0 && m.timestamp > f.maxTs)
    && !(f.field == "spatial" && f.isRadius && !near(f, m.lat, m.lon))
  }

  datatype SearchOptions = SearchOptions(
    filters: seq<Filter>, asOfTs: U64, asOfLsn: U64, partitionDevice: Text, partitionLocation: Text)

  predicate Matches(o: SearchOptions, m: Metadata, near: Near) {
    && !(o.asOfTs > 0 && m.timestamp > o.asOfTs)
    && !(o.asOfLsn > 0 && m.lsn > o.asOfLsn)
    && !(|o.partitionDevice| > 0 && m.deviceId != o.partitionDevice)
    && !(|o.partitionLocation| > 0 && m.locationId != o.partitionLocation)
    && (forall i :: 0 <= i < |o.filters| ==> FilterMatches(o.filters[i], m, near))
  }

  /** The entry is live and the options match its metadata. */
  predicate Passes(e: SegEntry, o: SearchOptions, near: Near) {
    !e.deleted && Matches(o, e.meta, near)
  }

  /** The first timestamp filter, or |fs|. */
  function FirstTemporal(fs: seq<Filter>, i: nat): (r: nat)
    requires i <= |fs|
    ensures i <= r <= |fs|
    ensures r < |fs| ==> fs[r].field == "timestamp"
    ensures forall j :: i <= j < r ==> fs[j].field != "timestamp"
    decreases |fs| - i
  {
    if i == |fs| || fs[i].field == "timestamp" then i else FirstTemporal(fs, i + 1)
  }

  /** The positions that the chosen plan marks; None when the temporal scan runs off its index. */
  ghost predicate PlanMarks(es: seq<SegEntry>, times: seq<TimeEntry>, o: SearchOptions, near: Near, i: nat)
    requires i < |es|
  {
    var t := FirstTemporal(o.filters, 0);
    if |o.filters| == 0 then !es[i].deleted
    else if t < |o.filters| then
      var scan := ScanTimes(times, o.filters[t].minTs, o.filters[t].maxTs);
      scan.Some? && i in scan.value && Passes(es[i], o, near)
    else Passes(es[i], o, near)
  }

  // ---------------------------------------------------------------- agreement of the plans

  ghost predicate PlanIsExact(es: seq<SegEntry>, times: seq<TimeEntry>, o: SearchOptions, near: Near) {
    forall i: nat :: i < |es| ==> (PlanMarks(es, times, o, near, i) <==> Passes(es[i], o, near))
  }

  /** The options outside the filters exclude nothing: unset, or a bound that no 64-bit value exceeds. */
  predicate Unrestricted(o: SearchOptions) {
    && (o.asOfTs == 0 || o.asOfTs == TWO_64 - 1) && (o.asOfLsn == 0 || o.asOfLsn == TWO_64 - 1)
    && o.partitionDevice == [] && o.partitionLocation == []
  }

  /** A live entry at the end of time, of no device and no place. */
  function LateEntry(): SegEntry {
    SegEntry(1, false, [], Metadata([], [], [], 0, TWO_64 - 1, TWO_64 - 1, [], [], 0, 0))
  }

  lemma LateEntryTells(times: seq<TimeEntry>, o: SearchOptions, near: Near)
    requires |o.filters| == 0
    ensures PlanIsExact([LateEntry()], times, o, near) <==> Unrestricted(o)
  {
    var es := [LateEntry()];
    assert PlanIsExact(es, times, o, near) <==> (PlanMarks(es, times, o, near, 0) <==> Passes(es[0], o, near));
  }

  /**
   Without filters the plan looks at tombstones only.  It is exact on every
   segment if and only if the as-of and partition options are unset, or bounds
   that nothing exceeds; otherwise a single late entry shows it is not.
   */
  lemma NoFilterExactIff(o: SearchOptions, near: Near)
    requires |o.filters| == 0
    ensures (forall es, times :: PlanIsExact(es, times, o, near)) <==> Unrestricted(o)
  {
    LateEntryTells([], o, near);
    if Unrestricted(o) {
      forall es: seq<SegEntry>, times ensures PlanIsExact(es, times, o, near) {
      }
    }
  }

  lemma PassesInRange(e: SegEntry, o: SearchOptions, near: Near, t: nat)
    requires t < |o.filters| && o.filters[t].field == "timestamp" && Passes(e, o, near)
    ensures o.filters[t].minTs <= e.meta.timestamp
    ensures o.filters[t].maxTs > 0 ==> e.meta.timestamp <= o.filters[t].maxTs
  {
    assert FilterMatches(o.filters[t], e.meta, near);
  }

  lemma TemporalMarks(es: seq<SegEntry>, times: seq<TimeEntry>, o: SearchOptions, near: Near, i: nat)
    requires TimesOk(es, times) && i < |es| && FirstTemporal(o.filters, 0) < |o.filters|
    requires var f := o.filters[FirstTemporal(o.filters, 0)]; !RunsOff(Stamps(times), f.minTs, f.maxTs)
    ensures var f := o.filters[FirstTemporal(o.filters, 0)];
            PlanMarks(es, times, o, near, i) <==>
            Passes(es[i], o, near) && (f.maxTs > 0 || es[i].meta.timestamp == 0)
  {
    var t := FirstTemporal(o.filters, 0);
    var f := o.filters[t];
    hide TimesOk, ScanTimes, RunsOff, Matches, FilterMatches, Sorted;
    ScanDefined(times, f.minTs, f.maxTs);
    ScanTimesIsRange(es, times, f.minTs, f.maxTs, i);
    if Passes(es[i], o, near) {
      PassesInRange(es[i], o, near, t);
    }
  }

  lemma ScanDefined(times: seq<TimeEntry>, lo: nat, hi: nat)
    ensures ScanTimes(times, lo, hi).Some? <==> !RunsOff(Stamps(times), lo, hi)
  {
  }

  /**
   The temporal plan marks exactly the entries that pass if and only if its
   upper bound is set, or every passing entry has timestamp 0: a bound of 0
   means "unbounded" to the filter but is a real bound to the index.
   */
  lemma TemporalExactIff(es: seq<SegEntry>, times: seq<TimeEntry>, o: SearchOptions, near: Near)
    requires TimesOk(es, times) && FirstTemporal(o.filters, 0) < |o.filters|
    requires var f := o.filters[FirstTemporal(o.filters, 0)]; !RunsOff(Stamps(times), f.minTs, f.maxTs)
    ensures var f := o.filters[FirstTemporal(o.filters, 0)];
            PlanIsExact(es, times, o, near) <==>
            (f.maxTs > 0 || forall i: nat :: i < |es| && Passes(es[i], o, near) ==> es[i].meta.timestamp == 0)
  {
    hide TimesOk, PlanMarks, RunsOff, Passes;
    forall i: nat | i < |es|
      ensures var f := o.filters[FirstTemporal(o.filters, 0)];
              PlanMarks(es, times, o, near, i) <==> Passes(es[i], o, near) && (f.maxTs > 0 || es[i].meta.timestamp == 0)
    {
      TemporalMarks(es, times, o, near, i);
    }
    var f := o.filters[FirstTemporal(o.filters, 0)];
    if PlanIsExact(es, times, o, near) && f.maxTs == 0 {
      forall i: nat | i < |es| && Passes(es[i], o, near) ensures es[i].meta.timestamp == 0 {
        assert PlanMarks(es, times, o, near, i) <==> Passes(es[i], o, near);
      }
    }
  }

  /** A time range with 0 < max and min <= max: the temporal plan agrees with the full scan. */
  lemma ProperRangeExact(es: seq<SegEntry>, times: seq<TimeEntry>, o: SearchOptions, near: Near)
    requires TimesOk(es, times) && FirstTemporal(o.filters, 0) < |o.filters|
    requires var f := o.filters[FirstTemporal(o.filters, 0)]; f.minTs <= f.maxTs && f.maxTs > 0
    ensures PlanIsExact(es, times, o, near)
  {
    var f := o.filters[FirstTemporal(o.filters, 0)];
    RunsOffIff(Stamps(times), f.minTs, f.maxTs);
    TemporalExactIff(es, times, o, near);
    hide PlanIsExact;
  }

  /** A filter from 1 on without an upper bound matches an entry of time 5, and the temporal plan misses it. */
  lemma UnboundedRangeMisses(near: Near)
    ensures var es := [SegEntry(1, false, [], Metadata([], [], [], 0, 5, 0, [], [], 0, 0))];
            var times := [TimeEntry(5, 0)];
            var o := SearchOptions([Filter("timestamp", [], 1, 0, false, (0, 0, 0))], 0, 0, [], []);
            && TimesOk(es, times) && !RunsOff(Stamps(times), 1, 0)
            && Passes(es[0], o, near) && !PlanMarks(es, times, o, near, 0)
  {
    var es := [SegEntry(1, false, [], Metadata([], [], [], 0, 5, 0, [], [], 0, 0))];
    var times := [TimeEntry(5, 0)];
    var o := SearchOptions([Filter("timestamp", [], 1, 0, false, (0, 0, 0))], 0, 0, [], []);
    assert times[0].idx == 0;
    assert FirstTemporal(o.filters, 0) == 0;
    RunsOffIff(Stamps(times), 1, 0);
    hide RunsOff, ScanTimes;
    TemporalMarks(es, times, o, near, 0);
  }

  /** Options for which every plan is exact on every segment. */
  predicate ExactOptions(o: SearchOptions) {
    var t := FirstTemporal(o.filters, 0);
    if |o.filters| == 0 then Unrestricted(o)
    else t == |o.filters| || (o.filters[t].minTs <= o.filters[t].maxTs && o.filters[t].maxTs > 0)
  }

  lemma ExactOptionsExact(es: seq<SegEntry>, times: seq<TimeEntry>, o: SearchOptions, near: Near)
    requires TimesOk(es, times) && ExactOptions(o)
    ensures PlanIsExact(es, times, o, near)
  {
    hide TimesOk, Passes, ScanTimes, Matches;
    var t := FirstTemporal(o.filters, 0);
    if |o.filters| == 0 {
      NoFilterExactIff(o, near);
    } else if t < |o.filters| {
      ProperRangeExact(es, times, o, near);
    }
  }

  // ---------------------------------------------------------------- bits in a mask

  /** (words[i >> 6] >> (i & 63)) & 1. */
  predicate TestWords(words: seq<nat>, i: nat) {
    i / 64 < |words| && Bit(words[i / 64], i % 64)
  }

  function SetWords(words: seq<nat>, i: nat): (r: seq<nat>)
    requires i / 64 < |words|
    ensures |r| == |words|
  {
    words[i / 64 := SetBit(words[i / 64], i % 64)]
  }

  ghost predicate WordsOk(words: seq<nat>) {
    forall j :: 0 <= j < |words| ==> words[j] < Pow2(64)
  }

  lemma SetWordsSets(words: seq<nat>, i: nat, j: nat)
    requires i / 64 < |words|
    ensures TestWords(SetWords(words, i), j) <==> j == i || TestWords(words, j)
  {
    hide Bit, SetBit;
    if i / 64 == j / 64 {
      SetBitSets(words[i / 64], i % 64, j % 64);
    }
  }

  lemma SetWordsOk(words: seq<nat>, i: nat)
    requires i / 64 < |words| && WordsOk(words)
    ensures WordsOk(SetWords(words, i))
  {
    hide SetBit, Pow2;
    SetBitBound(words[i / 64], i % 64, 64);
  }

  lemma ZerosTestFalse(words: seq<nat>, j: nat)
    requires forall i :: 0 <= i < |words| ==> words[i] == 0
    ensures !TestWords(words, j)
  {
    hide Bit;
    ZeroHasNoBits(j % 64);
  }

  function PopWords(words: seq<nat>, m: nat): nat
    requires m <= |words|
  {
    if m == 0 then 0 else PopWords(words, m - 1) + Pop(words[m - 1])
  }

  function CountTests(words: seq<nat>, lo: nat, hi: nat): nat
    requires lo <= hi
    decreases hi - lo
  {
    if lo == hi then 0 else (if TestWords(words, lo) then 1 else 0) + CountTests(words, lo + 1, hi)
  }

  lemma {:induction false} CountTestsSplit(words: seq<nat>, a: nat, b: nat, c: nat)
    requires a <= b <= c
    ensures CountTests(words, a, c) == CountTests(words, a, b) + CountTests(words, b, c)
    decreases b - a
  {
    hide TestWords;
    if a < b {
      CountTestsSplit(words, a + 1, b, c);
    }
  }

  lemma {:induction false} CountTestsInWord(words: seq<nat>, j: nat, k: nat)
    requires j < |words| && k <= 64
    ensures CountTests(words, 64 * j + k, 64 * j + 64) == CountBits(words[j], k, 64)
    decreases 64 - k
  {
    hide Bit;
    if k < 64 {
      assert (64 * j + k) / 64 == j && (64 * j + k) % 64 == k;
      CountTestsInWord(words, j, k + 1);
    }
  }

  /** The population count of the words is the number of positions that test true. */
  lemma {:induction false} PopWordsCounts(words: seq<nat>, m: nat)
    requires WordsOk(words) && m <= |words|
    ensures PopWords(words, m) == CountTests(words, 0, 64 * m)
    decreases m
  {
    hide Pow2, Pop, CountBits, TestWords;
    if m > 0 {
      PopWordsCounts(words, m - 1);
      CountTestsSplit(words, 0, 64 * (m - 1), 64 * m);
      CountTestsInWord(words, m - 1, 0);
      PopCounts(words[m - 1], 64);
    }
  }

  ghost function CountMarks(es: seq<SegEntry>, times: seq<TimeEntry>, o: SearchOptions, near: Near, lo: nat): nat
    requires lo <= |es|
    decreases |es| - lo
  {
    if lo == |es| then 0
    else (if PlanMarks(es, times, o, near, lo) then 1 else 0) + CountMarks(es, times, o, near, lo + 1)
  }

  /** The mask holds exactly the plan's positions and no stray bit beyond the segment. */
  ghost predicate MaskIs(words: seq<nat>, es: seq<SegEntry>, times: seq<TimeEntry>, o: SearchOptions, near: Near) {
    && (forall i: nat :: i < |es| ==> (TestWords(words, i) <==> PlanMarks(es, times, o, near, i)))
    && (forall i: nat :: i >= |es| ==> !TestWords(words, i))
  }

  lemma {:induction false} CountTestsBeyond(words: seq<nat>, lo: nat, hi: nat)
    requires lo <= hi && forall i: nat :: i >= lo ==> !TestWords(words, i)
    ensures CountTests(words, lo, hi) == 0
    decreases hi - lo
  {
    hide TestWords;
    if lo < hi {
      CountTestsBeyond(words, lo + 1, hi);
    }
  }

  lemma {:induction false} CountTestsIsMarks(words: seq<nat>, es: seq<SegEntry>, times: seq<TimeEntry>, o: SearchOptions, near: Near, lo: nat)
    requires lo <= |es| && MaskIs(words, es, times, o, near)
    ensures CountTests(words, lo, |es|) == CountMarks(es, times, o, near, lo)
    decreases |es| - lo
  {
    hide TestWords, PlanMarks;
    if lo < |es| {
      CountTestsIsMarks(words, es, times, o, near, lo + 1);
    }
  }

  /** PopCount of a built mask is the number of entries that the plan marks. */
  lemma PopIsMarked(words: seq<nat>, es: seq<SegEntry>, times: seq<TimeEntry>, o: SearchOptions, near: Near)
    requires WordsOk(words) && |es| <= 64 * |words| && MaskIs(words, es, times, o, near)
    ensures PopWords(words, |words|) == CountMarks(es, times, o, near, 0)
  {
    PopWordsCounts(words, |words|);
    CountTestsSplit(words, 0, |es|, 64 * |words|);
    CountTestsBeyond(words, |es|, 64 * |words|);
    CountTestsIsMarks(words, es, times, o, near, 0);
    hide CountTests, PopWords, CountMarks;
  }

  ghost function CountPassing(es: seq<SegEntry>, o: SearchOptions, near: Near, lo: nat): nat
    requires lo <= |es|
    decreases |es| - lo
  {
    if lo == |es| then 0 else (if Passes(es[lo], o, near) then 1 else 0) + CountPassing(es, o, near, lo + 1)
  }

  lemma {:induction false} ExactCounts(es: seq<SegEntry>, times: seq<TimeEntry>, o: SearchOptions, near: Near, lo: nat)
    requires lo <= |es| && PlanIsExact(es, times, o, near)
    ensures CountMarks(es, times, o, near, lo) == CountPassing(es, o, near, lo)
    decreases |es| - lo
  {
    hide PlanMarks, Passes;
    if lo < |es| {
      ExactCounts(es, times, o, near, lo + 1);
    }
  }

  /**
   THE PLANS AGREE: whichever plan built the mask, with no filters and open
   options, with filters none of which is temporal, or with a proper time range,
   bit i is set exactly when entry i is live and the options match it, and the
   population is the number of such entries.
   */
  lemma PlansAgree(words: seq<nat>, es: seq<SegEntry>, times: seq<TimeEntry>, o: SearchOptions, near: Near)
    requires TimesOk(es, times) && ExactOptions(o)
    requires WordsOk(words) && |es| <= 64 * |words| && MaskIs(words, es, times, o, near)
    ensures forall i: nat :: TestWords(words, i) <==> i < |es| && Passes(es[i], o, near)
    ensures PopWords(words, |words|) == CountPassing(es, o, near, 0)
  {
    hide TimesOk, ExactOptions, TestWords, PlanMarks, Passes, WordsOk, PopWords, CountMarks, CountPassing;
    ExactOptionsExact(es, times, o, near);
    PopIsMarked(words, es, times, o, near);
    ExactCounts(es, times, o, near, 0);
  }

  // ---------------------------------------------------------------- what the filters mean

  /** A filter constrains the one field it names; a filter on any other name constrains nothing. */
  lemma FilterMeans(f: Filter, m: Metadata, near: Near)
    ensures f.field == "tenant" ==> (FilterMatches(f, m, near) <==> m.tenant == f.value)
    ensures f.field == "device_id" ==> (FilterMatches(f, m, near) <==> m.deviceId == f.value)
    ensures f.field == "location_id" ==> (FilterMatches(f, m, near) <==> m.locationId == f.value)
    ensures f.field == "timestamp" ==>
              (FilterMatches(f, m, near) <==> f.minTs <= m.timestamp && (f.maxTs == 0 || m.timestamp <= f.maxTs))
    ensures f.field == "spatial" ==> (FilterMatches(f, m, near) <==> (f.isRadius ==> near(f, m.lat, m.lon)))
    ensures f.field !in ["tenant", "device_id", "location_id", "timestamp", "spatial"] ==> FilterMatches(f, m, near)
  {
    var names := ["tenant", "device_id", "location_id", "timestamp", "spatial"];
    assert names[0] == "tenant" && names[1] == "device_id" && names[2] == "location_id";
    assert names[3] == "timestamp" && names[4] == "spatial";
    Distinct();
  }

  lemma Distinct()
    ensures "tenant" != "device_id" && "tenant" != "location_id" && "tenant" != "timestamp" && "tenant" != "spatial"
    ensures "device_id" != "location_id" && "device_id" != "timestamp" && "device_id" != "spatial"
    ensures "location_id" != "timestamp" && "location_id" != "spatial" && "timestamp" != "spatial"
  {
    assert |"tenant"| == 6 && |"device_id"| == 9 && |"location_id"| == 11 && |"timestamp"| == 9 && |"spatial"| == 7;
    assert "device_id"[0] != "timestamp"[0];
  }

  /** An entry passes if it is live, not newer than the as-of bounds, in the chosen partitions, and every filter holds of it. */
  lemma PassesMeans(e: SegEntry, o: SearchOptions, near: Near)
    ensures Passes(e, o, near) <==>
            && !e.deleted
            && (o.asOfTs == 0 || e.meta.timestamp <= o.asOfTs) && (o.asOfLsn == 0 || e.meta.lsn <= o.asOfLsn)
            && (o.partitionDevice == [] || e.meta.deviceId == o.partitionDevice)
            && (o.partitionLocation == [] || e.meta.locationId == o.partitionLocation)
            && forall f :: f in o.filters ==> FilterMatches(f, e.meta, near)
  {
    hide FilterMatches;
    if Passes(e, o, near) {
      forall f | f in o.filters ensures FilterMatches(f, e.meta, near) {
        var i :| 0 <= i < |o.filters| && o.filters[i] == f;
      }
    }
  }

  /** The field that a filter by value looks at. */
  function FieldOf(m: Metadata, field: string): Option<Text> {
    if field == "tenant" then Some(m.tenant)
    else if field == "device_id" then Some(m.deviceId)
    else if field == "location_id" then Some(m.locationId)
    else None
  }

  lemma OneFilter(e: SegEntry, f: Filter, near: Near)
    ensures Passes(e, SearchOptions([f], 0, 0, [], []), near) <==> !e.deleted && FilterMatches(f, e.meta, near)
  {
    hide FilterMatches, Passes;
    PassesMeans(e, SearchOptions([f], 0, 0, [], []), near);
  }

  lemma OneFilterExact(f: Filter)
    requires f.field != "timestamp" || (f.minTs <= f.maxTs && f.maxTs > 0)
    ensures ExactOptions(SearchOptions([f], 0, 0, [], []))
  {
    assert FirstTemporal([f], 0) == if f.field == "timestamp" then 0 else 1 by {
      assert f.field != "timestamp" ==> FirstTemporal([f], 1) == 1;
    }
  }

  /** A mask built with one filter by tenant, device or location: bit i is set exactly if entry i is live and has that value. */
  lemma MaskByValue(words: seq<nat>, es: seq<SegEntry>, times: seq<TimeEntry>, f: Filter, near: Near, i: nat)
    requires f.field in ["tenant", "device_id", "location_id"] && TimesOk(es, times)
    requires WordsOk(words) && |es| <= 64 * |words| && MaskIs(words, es, times, SearchOptions([f], 0, 0, [], []), near)
    ensures TestWords(words, i) <==> i < |es| && !es[i].deleted && FieldOf(es[i].meta, f.field) == Some(f.value)
  {
    hide TimesOk, WordsOk, MaskIs, TestWords, Passes, FilterMatches, ExactOptions, PopWords, CountPassing;
    Distinct();
    OneFilterExact(f);
    PlansAgree(words, es, times, SearchOptions([f], 0, 0, [], []), near);
    if i < |es| {
      OneFilter(es[i], f, near);
      FilterMeans(f, es[i].meta, near);
    }
  }

  /** A mask built with one proper time range: bit i is set exactly if entry i is live and its timestamp is in the range. */
  lemma MaskByTime(words: seq<nat>, es: seq<SegEntry>, times: seq<TimeEntry>, f: Filter, near: Near, i: nat)
    requires f.field == "timestamp" && f.minTs <= f.maxTs && f.maxTs > 0 && TimesOk(es, times)
    requires WordsOk(words) && |es| <= 64 * |words| && MaskIs(words, es, times, SearchOptions([f], 0, 0, [], []), near)
    ensures TestWords(words, i) <==> i < |es| && !es[i].deleted && f.minTs <= es[i].meta.timestamp <= f.maxTs
  {
    hide TimesOk, WordsOk, MaskIs, TestWords, Passes, FilterMatches, ExactOptions, PopWords, CountPassing;
    OneFilterExact(f);
    PlansAgree(words, es, times, SearchOptions([f], 0, 0, [], []), near);
    if i < |es| {
      OneFilter(es[i], f, near);
      FilterMeans(f, es[i].meta, near);
    }
  }

  /** All(n) sets every bit of its words, so its population is n exactly when n is a multiple of 64. */
  lemma AllPopulationIff(n: nat)
    ensures var words := Repeat<nat>(Pow2(64) - 1, (n + 63) / 64);
            PopWords(words, |words|) == n <==> n % 64 == 0
  {
    hide Pow2, Pop, PopWords;
    var words := Repeat<nat>(Pow2(64) - 1, (n + 63) / 64);
    OnesPopulation(words, |words|);
  }

  lemma {:induction false} OnesPopulation(words: seq<nat>, m: nat)
    requires m <= |words| && forall j :: 0 <= j < |words| ==> words[j] == Pow2(64) - 1
    ensures PopWords(words, m) == 64 * m
    decreases m
  {
    hide Pow2, Pop;
    if m > 0 {
      OnesPopulation(words, m - 1);
      PopOfOnes(64);
    }
  }

  // ---------------------------------------------------------------- the mask

  class Mask {
    var n: nat
    var words: seq<nat>

    ghost predicate Valid()
      reads this
    {
      |words| == (n + 63) / 64 && WordsOk(words)
    }

    constructor (n: nat)
      ensures Valid() && this.n == n && forall i: nat :: !TestWords(words, i)
    {
      this.n := n;
      this.words := Repeat<nat>(0, (n + 63) / 64);
      new;
      ClearedWords(words);
    }

    method Test(i: nat) returns (b: bool)
      requires Valid() && i < n
      ensures b == TestWords(words, i)
    {
      b := Bit(words[i / 64], i % 64);
    }

    method Set(i: nat)
      requires Valid() && i / 64 < |words|
      modifies `words
      ensures Valid() && words == SetWords(old(words), i)
      ensures forall j: nat :: TestWords(words, j) <==> j == i || TestWords(old(words), j)
    {
      hide TestWords, SetBit, WordsOk;
      SetWordsOk(words, i);
      forall j: nat ensures TestWords(SetWords(words, i), j) <==> j == i || TestWords(words, j) {
        SetWordsSets(words, i, j);
      }
      words := words[i / 64 := SetBit(words[i / 64], i % 64)];
    }

    method PopCount() returns (c: nat)
      requires Valid()
      ensures c == PopWords(words, |words|) == CountTests(words, 0, 64 * |words|)
    {
      PopWordsCounts(words, |words|);
      hide CountTests, Pop, WordsOk;
      c := 0;
      var j := 0;
      while j < |words|
        invariant j <= |words| && c == PopWords(words, j)
      {
        var p := PopOne(words[j]);
        c := c + p;
        j := j + 1;
      }
    }

    static method PopOne(w: nat) returns (c: nat)
      ensures c == Pop(w)
    {
      c := 0;
      var x := w;
      while x != 0
        invariant c + Pop(x) == Pop(w)
      {
        c := c + x % 2;
        x := x / 2;
      }
    }

    /** Marks every listed position for which the entry is live and matches. */
    method MarkListed(r: Reader, o: SearchOptions, near: Near, list: seq<U32>,
                      ghost es: seq<SegEntry>, ghost times: seq<TimeEntry>)
      requires Valid() && Sees(r, es, times) && |es| <= n
      requires forall p :: 0 <= p < |list| ==> list[p] < |es|
      requires forall i: nat :: !TestWords(words, i)
      modifies `words
      ensures Valid()
      ensures forall i: nat :: TestWords(words, i) <==> i in list && Passes(es[i], o, near)
    {
      hide TestWords, Passes, Matches, WordsOk, SetWords, MetaAt, IdAt, VecAt, DeletedAt, TimeAt, ReaderOk;
      var p := 0;
      while p < |list|
        invariant p <= |list| && Valid()
        invariant forall i: nat :: TestWords(words, i) <==> i in list[..p] && Passes(es[i], o, near)
      {
        var idx := list[p];
        ghost var was := words;
        var pass := CheckEntry(r, idx, o, near, es, times);
        if pass {
          Set(idx);
        }
        forall i: nat ensures TestWords(words, i) <==> i in list[..p + 1] && Passes(es[i], o, near) {
          assert list[..p + 1] == list[..p] + [idx];
          if pass {
            SetWordsSets(was, idx, i);
          }
        }
        p := p + 1;
      }
      assert list[..|list|] == list;
    }

    /** Without filters: every entry that is not a tombstone. */
    method MarkLive(r: Reader, ghost es: seq<SegEntry>, ghost times: seq<TimeEntry>)
      requires Valid() && Sees(r, es, times) && |es| <= n
      requires forall i: nat :: !TestWords(words, i)
      modifies `words
      ensures Valid()
      ensures forall i: nat :: TestWords(words, i) <==> i < |es| && !es[i].deleted
    {
      hide TestWords, WordsOk, SetWords, MetaAt, IdAt, VecAt, TimeAt, ReaderOk;
      var p := 0;
      while p < r.count
        invariant p <= r.count && Valid()
        invariant forall i: nat :: TestWords(words, i) <==> i < p && !es[i].deleted
      {
        ghost var was := words;
        var live := !DeletedAt(r, p);
        assert live == !es[p].deleted;
        if live {
          Set(p);
        }
        forall i: nat ensures TestWords(words, i) <==> i < p + 1 && !es[i].deleted {
          if live {
            SetWordsSets(was, p, i);
          }
        }
        p := p + 1;
      }
    }

    /** Builds the mask by one of the three plans; false if the temporal scan ran off its index. */
    method BuildFromSegment(r: Reader, o: SearchOptions, near: Near,
                            ghost es: seq<SegEntry>, ghost times: seq<TimeEntry>) returns (ran: bool)
      requires Valid() && Sees(r, es, times) && TimesOk(es, times) && |es| < TWO_32
      modifies this
      ensures Valid()
      ensures |es| == 0 ==> ran && words == old(words) && n == old(n)
      ensures |es| > 0 ==> n == if |es| > old(n) then |es| else old(n)
      ensures |es| > 0 ==> (ran <==> !ScanRunsOff(times, o))
      ensures |es| > 0 && ran ==> MaskIs(words, es, times, o, near)
    {
      hide TestWords, WordsOk, ReaderOk, MetaAt, IdAt, VecAt, TimeAt, DeletedAt, TimesOk, Passes, ScanTimes;
      ran := true;
      if r.count == 0 {
        return;
      }
      if r.count > n {
        n := r.count;
      }
      words := Repeat<nat>(0, (n + 63) / 64);
      ClearedWords(words);
      if |o.filters| == 0 {
        MarkLive(r, es, times);
        return;
      }
      var t := FirstTemporalFilter(o.filters);
      if t < |o.filters| {
        TimesSorted(es, times);
        var found := SearchTemporal(r, o.filters[t].minTs, o.filters[t].maxTs, es, times);
        ScanDefined(times, o.filters[t].minTs, o.filters[t].maxTs);
        if found.None? {
          return false;
        }
        ScanTimesDistinct(es, times, o.filters[t].minTs, o.filters[t].maxTs);
        MarkListed(r, o, near, found.value, es, times);
      } else {
        MarkListed(r, o, near, AllPositions(r.count), es, times);
      }
    }

    static method FirstTemporalFilter(fs: seq<Filter>) returns (t: nat)
      ensures t == FirstTemporal(fs, 0)
    {
      t := 0;
      while t < |fs| && fs[t].field != "timestamp"
        invariant t <= |fs| && FirstTemporal(fs, 0) == FirstTemporal(fs, t)
      {
        t := t + 1;
      }
    }

    static method CheckEntry(r: Reader, idx: nat, o: SearchOptions, near: Near,
                             ghost es: seq<SegEntry>, ghost times: seq<TimeEntry>) returns (pass: bool)
      requires Sees(r, es, times) && idx < |es|
      ensures pass == Passes(es[idx], o, near)
    {
      hide Matches, MetaAt, IdAt, VecAt, TimeAt, ReaderOk;
      var deleted := DeletedAt(r, idx);
      var meta := MetaAt(r, idx);
      pass := !deleted && Matches(o, meta.value, near);
    }
  }

  /** The plan is the temporal one and its bounds make the scan run off. */
  ghost predicate ScanRunsOff(times: seq<TimeEntry>, o: SearchOptions) {
    var t := FirstTemporal(o.filters, 0);
    t < |o.filters| && RunsOff(Stamps(times), o.filters[t].minTs, o.filters[t].maxTs)
  }

  lemma TimesSorted(es: seq<SegEntry>, times: seq<TimeEntry>)
    requires TimesOk(es, times)
    ensures Sorted(Stamps(times))
  {
  }

  function AllPositions(n: nat): (r: seq<U32>)
    requires n < TWO_32
    ensures |r| == n && forall i :: 0 <= i < n ==> r[i] == i
    ensures forall i: nat :: i in r <==> i < n
  {
    if n == 0 then [] else AllPositions(n - 1) + [n - 1]
  }

  lemma ClearedWords(words: seq<nat>)
    requires forall i :: 0 <= i < |words| ==> words[i] == 0
    ensures WordsOk(words) && forall i: nat :: !TestWords(words, i)
  {
    PopOfOnes(64);
    forall i: nat ensures !TestWords(words, i) {
      ZerosTestFalse(words, i);
    }
    hide TestWords, Pow2;
  }
}
