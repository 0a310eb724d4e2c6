/**
 What the dirty mark is for: exactly when a change made to a clean page survives
 the CLOCK scan, and a run in which an unmarked change is lost.
 */
module PagePoolLoss {
  import opened Prelude
  import opened PagePoolSpec
  import opened PagePoolProofs
  import opened PagePoolRuns

  /** Page p is resident in a clean frame. */
  ghost predicate CleanAt(s: Pool, p: PageId) {
    p in s.pageIndex && s.pageIndex[p] < |s.meta| && s.meta[s.pageIndex[p]].inUse && !s.meta[s.pageIndex[p]].dirty
  }

  /** t holds p where s does, or has dropped it from the index; swap's copy of p and every frame are as in s. */
  ghost predicate Untouched(s: Pool, t: Pool, p: PageId)
    requires WF(s) && WF(t) && p in s.pageIndex
  {
    && Backing(t, p) == Backing(s, p) && t.arena == s.arena && |t.meta| == |s.meta|
    && (p in t.pageIndex ==> t.pageIndex[p] == s.pageIndex[p])
  }

  lemma FlushSpares(s: Pool, f: nat, p: PageId, io: Io)
    requires Inv(s) && f < |s.meta| && CleanAt(s, p)
    ensures var t := FlushFrame(s, f, io).0;
            WF(s) && Untouched(s, t, p) && CleanAt(t, p) && t.pageIndex == s.pageIndex
  {
    hide InUseFrames, DirtyFrames;
    if s.meta[f].inUse && s.meta[f].dirty {
      assert s.pageIndex[p] != f && s.meta[f].pageId != p;
      SwapWriteIsCopyOnWrite(s, f, s.meta[f].pageId, io);
    }
  }

  lemma InvOfStep(s: Pool, io: Io)
    requires Inv(s)
    ensures WF(s) && (ScanStep(s, io).1 ==> Inv(ScanStep(s, io).0))
  {
    hide Inv, Synced, Still, Scanned, ScanStep;
    InvParts(s);
    OwingSynced(s);
    ScanStepKeeps(s, io, Owing(s));
    if ScanStep(s, io).1 {
      StillParts(s, ScanStep(s, io).0, Owing(s));
    }
  }

  lemma StepSpares(s: Pool, p: PageId, io: Io)
    requires Inv(s) && CleanAt(s, p)
    ensures var (t, more) := ScanStep(s, io);
            WF(s) && Untouched(s, t, p) && (more ==> CleanAt(t, p) && p in t.pageIndex)
  {
    hide Inv, FlushFrame, SwapOk;
    HandMoves(s, p);
    var t := s.(hand := (s.hand + 1) % |s.meta|);
    FlushSpares(t, s.hand, p, io);
  }

  lemma HandMoves(s: Pool, p: PageId)
    requires Inv(s) && CleanAt(s, p)
    ensures |s.meta| > 0 && s.hand < |s.meta|
    ensures var t := s.(hand := (s.hand + 1) % |s.meta|);
            WF(s) && Inv(t) && WF(t) && CleanAt(t, p) && Backing(t, p) == Backing(s, p)
  {
    var idx := s.hand;
    assert s.meta[idx := s.meta[idx].(refBit := s.meta[idx].refBit)] == s.meta;
    AdvanceInv(s, idx, (idx + 1) % |s.meta|, s.meta[idx].refBit);
    hide InUseFrames, DirtyFrames, IndexedExcept;
  }

  /** A scan writes no clean page out: it leaves the page in its frame, or drops it and with it the frame's bytes. */
  lemma {:induction false} ScanSpares(s: Pool, p: PageId, steps: nat, io: Io)
    requires Inv(s) && CleanAt(s, p)
    ensures WF(s) && Untouched(s, ClockScan(s, steps, io).0, p)
    decreases steps
  {
    hide Inv, ScanStep, CleanAt, WF;
    InvOfStep(s, io);
    if steps == 0 {
      NothingTouched(s, p);
    } else {
      var (t, more) := ScanStep(s, io);
      StepSpares(s, p, io);
      if more {
        ScanSpares(t, p, steps - 1, io);
      }
    }
  }

  lemma NothingTouched(s: Pool, p: PageId)
    requires WF(s) && CleanAt(s, p)
    ensures Untouched(s, s, p)
  {
  }

  /** The pool after a client changed p and let go of it. */
  ghost function Changed(s: Pool, p: PageId, bytes: Page, mark: bool): (t: Pool)
    requires Inv(s) && p in s.pageIndex && |bytes| == s.pageSize
  {
    InvParts(s);
    Unpin(ClientWrite(s, p, bytes), p, mark)
  }

  lemma ChangedInv(s: Pool, p: PageId, bytes: Page, mark: bool, io: Io)
    requires Inv(s) && p in s.pageIndex && |bytes| == s.pageSize
    requires s.pageIndex[p] < |s.meta| && s.meta[s.pageIndex[p]].pins > 0
    ensures Inv(Changed(s, p, bytes, mark))
  {
    hide Inv;
    InvParts(s);
    var t := Exec(s, OpWrite(p, bytes), io);
    InvParts(t);
    var u := Exec(t, OpUnpin(p, mark), io);
  }

  lemma ChangedFrame(s: Pool, p: PageId, bytes: Page, mark: bool)
    requires Inv(s) && p in s.pageIndex && |bytes| == s.pageSize
    requires s.pageIndex[p] < |s.meta| && s.meta[s.pageIndex[p]].pins > 0
    ensures var u, f := Changed(s, p, bytes, mark), s.pageIndex[p];
            && WF(s) && WF(u) && u.pageIndex == s.pageIndex && |u.meta| == |s.meta|
            && u.arena[f] == bytes && u.meta[f].dirty == (mark || s.meta[f].dirty) && u.meta[f].inUse && u.meta[f].pageId == p
            && Backing(u, p) == Backing(s, p)
  {
    hide InUseFrames, DirtyFrames;
  }

  /** A ledger that promises p only; a pool in which p is dirty is in sync with it. */
  lemma PromisedOnly(u: Pool, p: PageId) returns (c: Ledger)
    requires Inv(u) && p in u.pageIndex && u.pageIndex[p] < |u.meta| && u.meta[u.pageIndex[p]].dirty
    ensures WF(u) && Synced(u, c) && p !in c.abandoned
  {
    hide InUseFrames, DirtyFrames;
    c := Ledger(u.pageIndex.Keys - {p}, u.pageIndex.Keys - {p});
  }

  /**
   A change made to a pinned page, then any scan under any I/O: the page still
   has the changed contents if and only if its frame was dirty, or the change
   was marked dirty, or the scan did not evict the page, or it changed nothing.
   */
  lemma ChangeSurvivesEvictionIff(s: Pool, p: PageId, bytes: Page, mark: bool, steps: nat, io: Io)
    requires Inv(s) && p in s.pageIndex && |bytes| == s.pageSize
    requires s.pageIndex[p] < |s.meta| && s.meta[s.pageIndex[p]].pins > 0
    ensures WF(s) && WF(Changed(s, p, bytes, mark))
    ensures var t := ClockScan(Changed(s, p, bytes, mark), steps, io).0;
            && (p in t.pageIndex ==> t.pageIndex[p] < |t.meta|)
            && (Value(t, p) == bytes <==>
                  mark || s.meta[s.pageIndex[p]].dirty || p in t.pageIndex || bytes == Backing(s, p))
  {
    hide Inv, ClockScan, Changed, WF, Scanned;
    ChangedInv(s, p, bytes, mark, io);
    ChangedFrame(s, p, bytes, mark);
    var u := Changed(s, p, bytes, mark);
    if mark || s.meta[s.pageIndex[p]].dirty {
      var c := PromisedOnly(u, p);
      ClockScanKeeps(u, steps, io, c);
      ScannedValue(u, ClockScan(u, steps, io).0, ClockScan(u, steps, io).1, c, p);
    } else {
      ScanSpares(u, p, steps, io);
    }
  }

  lemma ScannedValue(s: Pool, t: Pool, v: nat, c: Ledger, p: PageId)
    requires Scanned(s, t, v, c) && p !in c.abandoned
    ensures WF(s) && WF(t) && Indices(s) && Indices(t) && Value(t, p) == Value(s, p)
  {
  }

  // ---------------------------------------------------------------- a run that loses a change

  /** A pool of one frame that holds page p. */
  function One(pageSize: nat, swapOpen: bool, p: PageId, pins: nat, refBit: bool, bytes: Page): Pool {
    Pool(pageSize, pageSize, swapOpen, [PageMeta(p, pins, false, refBit, true)], [bytes],
         map[p := 0], map[], [], 0, map[], 1, 0, 0, 0)
  }

  lemma FirstFetch(pageSize: nat, swapOpen: bool, p: PageId, io: Io)
    requires pageSize > 0
    ensures var s := Create(pageSize, pageSize, swapOpen).value;
            WF(s) && Indices(s) && Fetch(s, p, false, io).pool == One(pageSize, swapOpen, p, 1, true, Zeros(pageSize))
  {
    var s := Create(pageSize, pageSize, swapOpen).value;
    assert pageSize / pageSize == 1;
    assert s.meta == [PageMeta(0, 0, false, false, false)] && s.arena == [Zeros(pageSize)];
    assert FirstFree(s.meta, 0) == 0;
  }

  lemma OneWF(pageSize: nat, swapOpen: bool, p: PageId, pins: nat, refBit: bool, bytes: Page)
    requires |bytes| == pageSize
    ensures var s := One(pageSize, swapOpen, p, pins, refBit, bytes); WF(s) && Indices(s)
  {
  }

  lemma OneScan(pageSize: nat, swapOpen: bool, p: PageId, bytes: Page, io: Io)
    requires |bytes| == pageSize
    ensures var s := One(pageSize, swapOpen, p, 0, true, bytes);
            WF(s) && ClockScan(s, 2, io) == (One(pageSize, swapOpen, p, 0, false, bytes).(pageIndex := map[]), 0)
  {
    var s := One(pageSize, swapOpen, p, 0, true, bytes);
    var t := One(pageSize, swapOpen, p, 0, false, bytes);
    OneWF(pageSize, swapOpen, p, 0, true, bytes);
    OneWF(pageSize, swapOpen, p, 0, false, bytes);
    assert s.meta[0 := s.meta[0].(refBit := false)] == t.meta;
    assert ScanStep(s, io) == (t, true);
    assert t.pageIndex - {p} == map[];
    assert ScanStep(t, io) == (t.(pageIndex := map[]), false);
    assert ClockScan(t, 1, io) == (t.(pageIndex := map[]), 0);
  }

  lemma NextFetch(pageSize: nat, swapOpen: bool, p: PageId, bytes: Page, q: PageId, io: Io)
    requires |bytes| == pageSize && q != p
    ensures var s := One(pageSize, swapOpen, p, 0, true, bytes);
            WF(s) && Indices(s) && Fetch(s, q, false, io).pool == One(pageSize, swapOpen, q, 1, true, Zeros(pageSize))
  {
    hide WF, Allocate;
    OneWF(pageSize, swapOpen, p, 0, true, bytes);
    NextAllocate(pageSize, swapOpen, p, bytes, q, io);
  }

  /** The frame is taken over by the next page, whose bytes are zeros. */
  lemma NextAllocate(pageSize: nat, swapOpen: bool, p: PageId, bytes: Page, q: PageId, io: Io)
    requires |bytes| == pageSize && q != p
    ensures var s := One(pageSize, swapOpen, p, 0, true, bytes);
            WF(s) && Allocate(s, q, io) == (One(pageSize, swapOpen, q, 0, true, Zeros(pageSize)).(pageIndex := map[]), 0)
  {
    hide WF, ClockScan, Load;
    OneWF(pageSize, swapOpen, p, 0, true, bytes);
    OneScan(pageSize, swapOpen, p, bytes, io);
    var s := One(pageSize, swapOpen, p, 0, true, bytes);
    assert FirstFree(s.meta, 0) == 1;
    assert [PageMeta(p, 0, false, false, true)][0 := Claimed(q)] == [Claimed(q)];
    NextLoad(pageSize, swapOpen, bytes, q, io);
  }

  lemma NextLoad(pageSize: nat, swapOpen: bool, bytes: Page, q: PageId, io: Io)
    requires |bytes| == pageSize
    ensures var t := One(pageSize, swapOpen, q, 0, true, bytes).(pageIndex := map[]);
            WF(t) && Load(t, 0, q, io) == (One(pageSize, swapOpen, q, 0, true, Zeros(pageSize)).(pageIndex := map[]), 0)
  {
    assert WF(One(pageSize, swapOpen, q, 0, true, bytes).(pageIndex := map[]));
    assert [bytes][0 := Zeros(pageSize)] == [Zeros(pageSize)];
  }

  /**
   The change is lost: in a pool of one frame a client fetches page 0, changes
   it, lets go of it unmarked; another page comes and goes; page 0 reads zeros.
   */
  lemma UnmarkedChangeIsLost(pageSize: nat, swapOpen: bool, bytes: Page, io: Io)
    requires pageSize > 0 && |bytes| == pageSize
    ensures var s := Create(pageSize, pageSize, swapOpen).value;
            var ops := [OpFetch(0, false), OpWrite(0, bytes), OpUnpin(0, false),
                        OpFetch(1, false), OpUnpin(1, false), OpFetch(0, false)];
            Inv(s) && Playable(s, ops, io) &&
            Run(s, ops, io) == One(pageSize, swapOpen, 0, 1, true, Zeros(pageSize))
  {
    hide Inv, Create, One, WF, Indices, Apply, Holds;
    var s := Create(pageSize, pageSize, swapOpen).value;
    var z := Zeros(pageSize);
    ChangeLetGo(pageSize, swapOpen, bytes, io);
    var ops := [OpFetch(0, false), OpWrite(0, bytes), OpUnpin(0, false)];
    OneFetches(pageSize, swapOpen, 0, bytes, 1, io);
    PlayOne(s, ops, OpFetch(1, false), One(pageSize, swapOpen, 1, 1, true, z), io);
    OneUnpins(pageSize, swapOpen, 1, z, io);
    PlayOne(s, ops + [OpFetch(1, false)], OpUnpin(1, false), One(pageSize, swapOpen, 1, 0, true, z), io);
    OneFetches(pageSize, swapOpen, 1, z, 0, io);
    PlayOne(s, ops + [OpFetch(1, false)] + [OpUnpin(1, false)], OpFetch(0, false), One(pageSize, swapOpen, 0, 1, true, z), io);
    assert ops + [OpFetch(1, false)] + [OpUnpin(1, false)] + [OpFetch(0, false)] ==
           [OpFetch(0, false), OpWrite(0, bytes), OpUnpin(0, false), OpFetch(1, false), OpUnpin(1, false), OpFetch(0, false)];
  }

  /** The first half of that run. */
  lemma ChangeLetGo(pageSize: nat, swapOpen: bool, bytes: Page, io: Io)
    requires pageSize > 0 && |bytes| == pageSize
    ensures var s := Create(pageSize, pageSize, swapOpen).value;
            var ops := [OpFetch(0, false), OpWrite(0, bytes), OpUnpin(0, false)];
            Inv(s) && Playable(s, ops, io) && Run(s, ops, io) == One(pageSize, swapOpen, 0, 0, true, bytes)
  {
    hide Inv, Create, One, WF, Indices, Apply, Holds, Matches;
    var s := Create(pageSize, pageSize, swapOpen).value;
    var z := Zeros(pageSize);
    CreatedMatches(pageSize, pageSize, swapOpen);
    MatchesSynced(s, [], Ledger({}, {}), pageSize);
    PlayNothing(s, io);
    FirstApplied(pageSize, swapOpen, io);
    PlayOne(s, [], OpFetch(0, false), One(pageSize, swapOpen, 0, 1, true, z), io);
    assert [] + [OpFetch(0, false)] == [OpFetch(0, false)];
    OneWrites(pageSize, swapOpen, z, bytes, io);
    PlayOne(s, [OpFetch(0, false)], OpWrite(0, bytes), One(pageSize, swapOpen, 0, 1, true, bytes), io);
    assert [OpFetch(0, false)] + [OpWrite(0, bytes)] == [OpFetch(0, false), OpWrite(0, bytes)];
    OneUnpins(pageSize, swapOpen, 0, bytes, io);
    PlayOne(s, [OpFetch(0, false), OpWrite(0, bytes)], OpUnpin(0, false), One(pageSize, swapOpen, 0, 0, true, bytes), io);
    assert [OpFetch(0, false), OpWrite(0, bytes)] + [OpUnpin(0, false)] ==
           [OpFetch(0, false), OpWrite(0, bytes), OpUnpin(0, false)];
  }

  lemma FirstApplied(pageSize: nat, swapOpen: bool, io: Io)
    requires pageSize > 0
    ensures var s := Create(pageSize, pageSize, swapOpen).value;
            WF(s) && Indices(s) && Holds(s, OpFetch(0, false)) &&
            Apply(s, OpFetch(0, false), io) == One(pageSize, swapOpen, 0, 1, true, Zeros(pageSize))
  {
    hide Fetch, WF, Indices, Create, One;
    FirstFetch(pageSize, swapOpen, 0, io);
  }

  lemma OneWrites(pageSize: nat, swapOpen: bool, before: Page, bytes: Page, io: Io)
    requires |before| == |bytes| == pageSize
    ensures var s := One(pageSize, swapOpen, 0, 1, true, before);
            WF(s) && Indices(s) && Holds(s, OpWrite(0, bytes)) &&
            Apply(s, OpWrite(0, bytes), io) == One(pageSize, swapOpen, 0, 1, true, bytes)
  {
    OneWF(pageSize, swapOpen, 0, 1, true, before);
  }

  lemma OneUnpins(pageSize: nat, swapOpen: bool, p: PageId, bytes: Page, io: Io)
    requires |bytes| == pageSize
    ensures var s := One(pageSize, swapOpen, p, 1, true, bytes);
            WF(s) && Indices(s) && Holds(s, OpUnpin(p, false)) &&
            Apply(s, OpUnpin(p, false), io) == One(pageSize, swapOpen, p, 0, true, bytes)
  {
    OneWF(pageSize, swapOpen, p, 1, true, bytes);
    var s := One(pageSize, swapOpen, p, 1, true, bytes);
    assert s.meta[0 := s.meta[0].(pins := 0)] == One(pageSize, swapOpen, p, 0, true, bytes).meta;
  }

  lemma OneFetches(pageSize: nat, swapOpen: bool, p: PageId, bytes: Page, q: PageId, io: Io)
    requires |bytes| == pageSize && q != p
    ensures var s := One(pageSize, swapOpen, p, 0, true, bytes);
            WF(s) && Indices(s) && Holds(s, OpFetch(q, false)) &&
            Apply(s, OpFetch(q, false), io) == One(pageSize, swapOpen, q, 1, true, Zeros(pageSize))
  {
    hide Fetch, WF, Indices, One;
    NextFetch(pageSize, swapOpen, p, bytes, q, io);
  }

  lemma PlayNothing(s: Pool, io: Io)
    requires Inv(s)
    ensures Playable(s, [], io) && Run(s, [], io) == s
  {
  }

  /** One more operation of a run. */
  lemma PlayOne(s: Pool, ops: seq<Op>, op: Op, t: Pool, io: Io)
    requires Inv(s) && Playable(s, ops, io) && Holds(Run(s, ops, io), op)
    requires WF(Run(s, ops, io)) && Indices(Run(s, ops, io)) && Apply(Run(s, ops, io), op, io) == t
    ensures Playable(s, ops + [op], io) && Run(s, ops + [op], io) == t
  {
    hide Inv, Holds, Apply, WF, Indices;
    assert (ops + [op])[..|ops + [op]| - 1] == ops;
  }
}
