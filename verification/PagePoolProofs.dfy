/**
 Every step of the page pool keeps its invariants and changes no page's logical
 value, whatever I/O fails; only the client's own writes do.
 */
module PagePoolProofs {
  import opened Prelude
  import opened PagePoolSpec

  // ---------------------------------------------------------------- one frame at a time

  lemma FrameSetsUpdate(meta: seq<PageMeta>, f: nat, m: PageMeta)
    requires f < |meta|
    ensures InUseFrames(meta[f := m]) == if m.inUse then InUseFrames(meta) + {f} else InUseFrames(meta) - {f}
    ensures DirtyFrames(meta[f := m]) ==
            if m.inUse && m.dirty then DirtyFrames(meta) + {f} else DirtyFrames(meta) - {f}
  {
  }

  /** Everything but one frame's pins, ref bit or (guarded) dirty bit is as before. */
  ghost predicate Kept(s: Pool, t: Pool, c: Ledger) {
    && Inv(s) && Inv(t)
    && Synced(t, c)
    && SameConfig(s, t) && SameValues(s, t, c) && SlotsFrozen(s, t)
  }

  /** As Kept, and also no frame changed its page, its bytes or its pins. */
  ghost predicate Still(s: Pool, t: Pool, c: Ledger) {
    && Kept(s, t, c)
    && PinnedKept(s, t)
    && t.pageIndex == s.pageIndex && t.arena == s.arena
  }

  lemma InvParts(s: Pool)
    requires Inv(s)
    ensures WF(s) && Indices(s) && s.hand < |s.meta| == |s.arena|
  {
  }

  lemma ClaimWF(s: Pool, f: nat, p: PageId, resident: nat)
    requires WF(s) && f < |s.meta|
    ensures WF(s.(meta := s.meta[f := Claimed(p)], resident := resident))
  {
  }

  lemma WFShape(s: Pool)
    requires WF(s)
    ensures s.hand < |s.meta| == |s.arena|
  {
  }

  lemma StillParts(s: Pool, t: Pool, c: Ledger)
    requires Still(s, t, c)
    ensures Inv(t) && Synced(t, c) && |t.meta| == |s.meta|
  {
  }

  lemma StillTrans(s: Pool, t: Pool, u: Pool, c: Ledger)
    requires Still(s, t, c) && Still(t, u, c)
    ensures Still(s, u, c)
  {
    hide Inv, Synced, SameValues, WF, PinnedKept, SlotsFrozen;
    InvParts(s);
    InvParts(t);
    InvParts(u);
    ValuesTrans(s, t, u, c);
    FrozenTrans(s, t, u);
    PinnedTrans(s, t, u);
  }

  lemma FrozenTrans(s: Pool, t: Pool, u: Pool)
    requires SlotsFrozen(s, t) && SlotsFrozen(t, u)
    ensures SlotsFrozen(s, u)
  {
  }

  lemma PinnedTrans(s: Pool, t: Pool, u: Pool)
    requires PinnedKept(s, t) && PinnedKept(t, u)
    ensures PinnedKept(s, u)
  {
  }

  lemma ValuesTrans(s: Pool, t: Pool, u: Pool, c: Ledger)
    requires WF(s) && WF(t) && WF(u) && Indices(s) && Indices(t) && Indices(u)
    requires SameValues(s, t, c) && SameValues(t, u, c)
    ensures SameValues(s, u, c)
  {
    forall p: PageId | p !in c.abandoned ensures Value(u, p) == Value(s, p) {
      assert Value(u, p) == Value(t, p);
    }
  }

  /** Pools with the same swap file and table back every page alike. */
  lemma SwapUntouched(s: Pool, t: Pool)
    requires SwapOk(s) && t.pageSize == s.pageSize && t.swapOpen == s.swapOpen
    requires t.swapped == s.swapped && t.freeSlots == s.freeSlots && t.nextSlot == s.nextSlot && t.disk == s.disk
    ensures SwapOk(t) && forall p: PageId :: Backing(t, p) == Backing(s, p)
  {
  }

  /** Copy-on-write: a swap write never touches a slot that holds any page's copy. */
  lemma SwapWriteIsCopyOnWrite(s: Pool, f: nat, p: PageId, io: Io)
    requires Inv(s) && f < |s.meta|
    ensures var (t, ok) := WriteToSwap(s, f, p, io);
            && SlotsFrozen(s, t)
            && t.freeSlots == []
            && (s.swapOpen ==> t.nextSlot == s.nextSlot + 1 && s.nextSlot !in s.disk && s.nextSlot !in s.swapped.Values)
            && (forall q: PageId :: q != p || !ok ==> Backing(t, q) == Backing(s, q))
            && (ok ==> Backing(t, p) == s.arena[f] && t.swapped == s.swapped[p := s.nextSlot])
            && (s.swapOpen ==> t.ioCalls == s.ioCalls + 1)
            && (!ok ==> t.swapped == s.swapped)
            && t == s.(swapped := t.swapped, nextSlot := t.nextSlot, disk := t.disk, ioCalls := t.ioCalls)
            && (ok <==> s.swapOpen && io.write(s.ioCalls, p) >= s.pageSize)
  {
    assert s.nextSlot !in s.disk;
  }

  lemma FlushFrameKeeps(s: Pool, f: nat, io: Io, c: Ledger)
    requires Inv(s) && Synced(s, c) && f < |s.meta|
    ensures var (t, ok) := FlushFrame(s, f, io);
            && Still(s, t, c)
            && t.hand == s.hand
            && (ok ==> t.meta == s.meta[f := s.meta[f].(dirty := s.meta[f].dirty && !s.meta[f].inUse)])
            && (!ok ==> t.meta == s.meta && t.swapped == s.swapped && s.meta[f].dirty)
  {
    SyncedAfterFlush(s, f, io, c);
    ValuesAfterFlush(s, f, io, c);
    InvAfterFlush(s, f, io);
    hide Inv, Synced, SameValues, WriteToSwap;
  }

  lemma InvAfterFlush(s: Pool, f: nat, io: Io)
    requires Inv(s) && f < |s.meta|
    ensures var (t, ok) := FlushFrame(s, f, io);
            && Inv(t) && PinnedKept(s, t) && SlotsFrozen(s, t) && SameConfig(s, t)
            && t.pageIndex == s.pageIndex && t.arena == s.arena && t.hand == s.hand
            && (ok ==> t.meta == s.meta[f := s.meta[f].(dirty := s.meta[f].dirty && !s.meta[f].inUse)])
            && (!ok ==> t.meta == s.meta && t.swapped == s.swapped && s.meta[f].dirty)
  {
    hide FlushFrame, WF, InUseFrames, DirtyFrames, SlotsFrozen;
    FlushFrameIs(s, f, io);
    InvParts(s);
    assert s.meta[f := s.meta[f]] == s.meta;
    if s.meta[f].inUse && s.meta[f].dirty {
      CleanedCount(s.meta, f);
    }
  }

  /** What flushing one frame changes. */
  lemma FlushFrameIs(s: Pool, f: nat, io: Io)
    requires Inv(s) && f < |s.meta|
    ensures var (t, ok) := FlushFrame(s, f, io);
            var m := s.meta[f];
            && WF(t) && SlotsFrozen(s, t)
            && t == s.(swapped := t.swapped, nextSlot := t.nextSlot, disk := t.disk, ioCalls := t.ioCalls,
                       meta := t.meta, dirtyCount := t.dirtyCount)
            && (if ok && m.inUse && m.dirty
                then t.meta == s.meta[f := m.(dirty := false)] &&
                     t.dirtyCount == if s.dirtyCount > 0 then s.dirtyCount - 1 else s.dirtyCount
                else t.meta == s.meta && t.dirtyCount == s.dirtyCount)
            && (!ok ==> t.swapped == s.swapped && m.dirty)
  {
    hide WriteToSwap, Counted, IndexedExcept;
    var m := s.meta[f];
    if m.inUse && m.dirty && s.swapOpen {
      SwapWriteIsCopyOnWrite(s, f, m.pageId, io);
    }
  }

  lemma CleanedCount(meta: seq<PageMeta>, f: nat)
    requires f < |meta| && meta[f].inUse && meta[f].dirty
    ensures var meta' := meta[f := meta[f].(dirty := false)];
            InUseFrames(meta') == InUseFrames(meta) && |DirtyFrames(meta')| == |DirtyFrames(meta)| - 1
  {
    FrameSetsUpdate(meta, f, meta[f].(dirty := false));
    assert f in DirtyFrames(meta) && f in InUseFrames(meta);
  }

  lemma FrameOfPage(s: Pool, f: nat)
    requires Inv(s) && f < |s.meta| && s.meta[f].inUse
    ensures s.meta[f].pageId in s.pageIndex && s.pageIndex[s.meta[f].pageId] == f
  {
  }

  /** Flushing a frame changes what backs its own page, and that becomes its bytes. */
  lemma FlushBacking(s: Pool, f: nat, io: Io)
    requires Inv(s) && f < |s.meta|
    ensures var (t, ok) := FlushFrame(s, f, io);
            var m := s.meta[f];
            && (forall q: PageId :: q != m.pageId ==> Backing(t, q) == Backing(s, q))
            && (if ok && m.inUse && m.dirty then Backing(t, m.pageId) == s.arena[f]
                else Backing(t, m.pageId) == Backing(s, m.pageId))
  {
    hide WriteToSwap, Counted, IndexedExcept;
    var m := s.meta[f];
    if m.inUse && m.dirty && s.swapOpen {
      SwapWriteIsCopyOnWrite(s, f, m.pageId, io);
    }
  }

  lemma SyncedAfterFlush(s: Pool, f: nat, io: Io, c: Ledger)
    requires Inv(s) && Synced(s, c) && f < |s.meta|
    ensures Synced(FlushFrame(s, f, io).0, c)
  {
    hide FlushFrame, Backing, SwapOk, Counted, IndexedExcept;
    var t := FlushFrame(s, f, io).0;
    FlushFrameIs(s, f, io);
    FlushBacking(s, f, io);
    forall g: nat | g < |t.meta| && t.meta[g].inUse && !t.meta[g].dirty && t.meta[g].pageId !in c.unmarked
      ensures t.arena[g] == Backing(t, t.meta[g].pageId)
    {
      FrameOfPage(s, g);
      if s.meta[f].inUse {
        FrameOfPage(s, f);
      }
    }
  }

  lemma ValuesAfterFlush(s: Pool, f: nat, io: Io, c: Ledger)
    requires Inv(s) && f < |s.meta|
    ensures var t := FlushFrame(s, f, io).0; Indices(t) && SameValues(s, t, c)
  {
    hide WriteToSwap, Counted;
    var m := s.meta[f];
    if m.inUse && m.dirty && s.swapOpen {
      SwapWriteIsCopyOnWrite(s, f, m.pageId, io);
    }
  }

  lemma {:induction false} FlushFromKeeps(s: Pool, i: nat, io: Io, c: Ledger)
    requires Inv(s) && Synced(s, c) && i <= |s.meta|
    ensures Still(s, FlushFrom(s, i, io).0, c)
    decreases |s.meta| - i
  {
    if i < |s.meta| {
      var t := FlushFrame(s, i, io).0;
      FlushFrameKeeps(s, i, io, c);
      StillParts(s, t, c);
      hide Still, Inv, Synced, FlushFrame, WF;
      FlushFromKeeps(t, i + 1, io, c);
      StillTrans(s, t, FlushFrom(t, i + 1, io).0, c);
    }
  }

  // ---------------------------------------------------------------- CLOCK

  /** The outcome of a scan: nothing changed, or frame v was evicted without losing its page. */
  ghost predicate Scanned(s: Pool, t: Pool, v: nat, c: Ledger) {
    && Inv(s) && WF(t) && Indices(t)
    && Synced(t, c)
    && SameConfig(s, t) && SameValues(s, t, c) && SlotsFrozen(s, t) && PinnedKept(s, t)
    && t.pageIndex.Keys <= s.pageIndex.Keys
    && t.arena == s.arena
    && if v == |s.meta| then Inv(t) else Vacant(t, v)
  }

  lemma StillThenScanned(s: Pool, t: Pool, u: Pool, v: nat, c: Ledger)
    requires Still(s, t, c) && Scanned(t, u, v, c)
    ensures Scanned(s, u, v, c)
  {
    hide Inv, WF, Synced, SameValues, Vacant, PinnedKept, SlotsFrozen;
    InvParts(s);
    InvParts(t);
    ValuesTrans(s, t, u, c);
    FrozenTrans(s, t, u);
    PinnedTrans(s, t, u);
  }

  lemma NothingScanned(s: Pool, c: Ledger)
    requires Inv(s) && Synced(s, c)
    ensures Scanned(s, s, |s.meta|, c)
  {
    assert SameValues(s, s, c);
    hide Inv, Synced, SameValues;
  }

  lemma AdvanceKeeps(s: Pool, c: Ledger, idx: nat, hand: nat, refBit: bool)
    requires Inv(s) && Synced(s, c) && idx < |s.meta| && hand < |s.meta|
    ensures Still(s, s.(hand := hand, meta := s.meta[idx := s.meta[idx].(refBit := refBit)]), c)
  {
    hide Inv, Synced, SameValues, WF;
    AdvanceInv(s, idx, hand, refBit);
    AdvanceSynced(s, c, idx, hand, refBit);
  }

  lemma AdvanceInv(s: Pool, idx: nat, hand: nat, refBit: bool)
    requires Inv(s) && idx < |s.meta| && hand < |s.meta|
    ensures Inv(s.(hand := hand, meta := s.meta[idx := s.meta[idx].(refBit := refBit)]))
  {
    hide InUseFrames, DirtyFrames;
    PinCounts(s.meta, idx, s.meta[idx].(refBit := refBit));
  }

  lemma AdvanceSynced(s: Pool, c: Ledger, idx: nat, hand: nat, refBit: bool)
    requires Inv(s) && Synced(s, c) && idx < |s.meta| && hand < |s.meta|
    ensures var t := s.(hand := hand, meta := s.meta[idx := s.meta[idx].(refBit := refBit)]);
            WF(t) && Indices(s) && Indices(t) && Synced(t, c) && SameValues(s, t, c) && PinnedKept(s, t)
  {
    hide Counted, SwapOk, Backing;
    SwapUntouched(s, s.(hand := hand, meta := s.meta[idx := s.meta[idx].(refBit := refBit)]));
  }

  lemma EvictKeeps(s: Pool, c: Ledger, idx: nat)
    requires Inv(s) && Synced(s, c) && idx < |s.meta|
    requires s.meta[idx].inUse && s.meta[idx].pins == 0 && !s.meta[idx].dirty
    ensures Scanned(s, s.(pageIndex := s.pageIndex - {s.meta[idx].pageId}), idx, c)
  {
    hide Inv, WF, Synced, SameValues, Vacant;
    EvictVacant(s, idx);
    EvictValues(s, c, idx);
  }

  lemma EvictVacant(s: Pool, idx: nat)
    requires Inv(s) && idx < |s.meta|
    requires s.meta[idx].inUse && s.meta[idx].pins == 0 && !s.meta[idx].dirty
    ensures var t := s.(pageIndex := s.pageIndex - {s.meta[idx].pageId});
            WF(t) && Vacant(t, idx) && Indices(s) && Indices(t) && PinnedKept(s, t)
  {
    hide InUseFrames, DirtyFrames;
  }

  lemma EvictValues(s: Pool, c: Ledger, idx: nat)
    requires Inv(s) && Synced(s, c) && idx < |s.meta|
    requires s.meta[idx].inUse && s.meta[idx].pins == 0 && !s.meta[idx].dirty
    ensures var t := s.(pageIndex := s.pageIndex - {s.meta[idx].pageId});
            WF(t) && Indices(t) && Synced(t, c) && SameValues(s, t, c)
  {
    hide InUseFrames, DirtyFrames;
  }

  lemma ScanStepKeeps(s: Pool, io: Io, c: Ledger)
    requires Inv(s) && Synced(s, c)
    ensures var (t, more) := ScanStep(s, io);
            if more then Still(s, t, c) else Scanned(s, t, s.hand, c)
  {
    hide Still, Inv, Synced, Scanned, WF, FlushFrame;
    InvParts(s);
    var idx := s.hand;
    var m := s.meta[idx];
    var t := s.(hand := (idx + 1) % |s.meta|);
    if m.inUse && m.pins == 0 && m.refBit {
      AdvanceKeeps(s, c, idx, t.hand, false);
    } else {
      AdvanceKeeps(s, c, idx, t.hand, m.refBit);
      assert s.meta[idx := m.(refBit := m.refBit)] == s.meta;
      if m.inUse && m.pins == 0 {
        TakeKeeps(s, t, idx, io, c);
      }
    }
  }

  /** The hand has found an unpinned frame without a reference bit. */
  lemma TakeKeeps(s: Pool, t: Pool, idx: nat, io: Io, c: Ledger)
    requires Still(s, t, c) && idx < |t.meta|
    requires t.meta[idx].inUse && t.meta[idx].pins == 0
    ensures WF(t)
    ensures var (u, ok) := if t.meta[idx].dirty then FlushFrame(t, idx, io) else (t, true);
            if ok then Scanned(s, u.(pageIndex := u.pageIndex - {t.meta[idx].pageId}), idx, c) else Still(s, u, c)
  {
    hide Still, Inv, Synced, Scanned, WF, FlushFrame;
    StillParts(s, t, c);
    InvParts(t);
    var m := t.meta[idx];
    if m.dirty {
      var (u, ok) := FlushFrame(t, idx, io);
      FlushFrameKeeps(t, idx, io, c);
      StillTrans(s, t, u, c);
      if ok {
        StillParts(s, u, c);
        EvictKeeps(u, c, idx);
        StillThenScanned(s, u, u.(pageIndex := u.pageIndex - {m.pageId}), idx, c);
      }
    } else {
      EvictKeeps(t, c, idx);
      StillThenScanned(s, t, t.(pageIndex := t.pageIndex - {m.pageId}), idx, c);
    }
  }

  lemma {:induction false} ClockScanKeeps(s: Pool, steps: nat, io: Io, c: Ledger)
    requires Inv(s) && Synced(s, c)
    ensures var (t, v) := ClockScan(s, steps, io); Scanned(s, t, v, c)
    decreases steps
  {
    hide Still, Inv, Synced, Scanned, WF, ScanStep;
    InvParts(s);
    if steps == 0 {
      NothingScanned(s, c);
    } else {
      var (t, more) := ScanStep(s, io);
      ScanStepKeeps(s, io, c);
      if more {
        StillParts(s, t, c);
        ClockScanKeeps(t, steps - 1, io, c);
        StillThenScanned(s, t, ClockScan(t, steps - 1, io).0, ClockScan(t, steps - 1, io).1, c);
      }
    }
  }

  // ---------------------------------------------------------------- fetch

  /** Synced, leaving out frame f. */
  ghost predicate OthersSynced(s: Pool, f: nat, c: Ledger)
    requires WF(s) && Indices(s)
  {
    && (forall g :: 0 <= g < |s.meta| && g != f && s.meta[g].inUse && !s.meta[g].dirty && s.meta[g].pageId !in c.unmarked ==>
          s.arena[g] == Backing(s, s.meta[g].pageId))
    && (forall q :: q in c.unmarked && q !in c.abandoned ==> q in s.pageIndex && s.meta[s.pageIndex[q]].pins > 0)
  }

  /** Frame f is claimed for p, which is not resident; every other frame is in sync. */
  ghost predicate ClaimedFor(s: Pool, f: nat, p: PageId, c: Ledger) {
    && Vacant(s, f) && Indices(s) && s.meta[f] == Claimed(p) && p !in s.pageIndex
    && OthersSynced(s, f, c)
  }

  ghost predicate Unlost(s: Pool, t: Pool, c: Ledger) {
    && WF(s) && WF(t) && Indices(s) && Indices(t)
    && SameValues(s, t, c) && SlotsFrozen(s, t) && SameConfig(s, t) && PinnedKept(s, t)
  }

  lemma UnlostTrans(s: Pool, t: Pool, u: Pool, c: Ledger)
    requires Unlost(s, t, c) && Unlost(t, u, c)
    ensures Unlost(s, u, c)
  {
    ValuesTrans(s, t, u, c);
    hide SameValues, WF;
  }

  lemma ClaimFree(s: Pool, f: nat, p: PageId, c: Ledger)
    requires Inv(s) && Synced(s, c) && f < |s.meta| && !s.meta[f].inUse && p !in s.pageIndex
    ensures var t := s.(meta := s.meta[f := Claimed(p)], resident := s.resident + 1);
            ClaimedFor(t, f, p, c) && Unlost(s, t, c)
  {
    var t := s.(meta := s.meta[f := Claimed(p)], resident := s.resident + 1);
    hide Inv, Vacant, Synced, OthersSynced, Unlost, IndexedExcept;
    FreeIsHole(s, f);
    FrameFreeVacant(s, f, p);
    ClaimSynced(s, t, f, p, c);
  }

  lemma FreeIsHole(s: Pool, f: nat)
    requires Inv(s) && f < |s.meta| && !s.meta[f].inUse
    ensures WF(s) && IndexedExcept(s, f)
  {
  }

  lemma FrameFreeVacant(s: Pool, f: nat, p: PageId)
    requires Inv(s) && f < |s.meta| && !s.meta[f].inUse && p !in s.pageIndex
    ensures Vacant(s.(meta := s.meta[f := Claimed(p)], resident := s.resident + 1), f)
  {
    ClaimedCounts(s.meta, f, p);
    hide InUseFrames, DirtyFrames;
  }

  lemma FrameVictimVacant(s: Pool, f: nat, p: PageId)
    requires Vacant(s, f) && p !in s.pageIndex
    ensures Vacant(s.(meta := s.meta[f := Claimed(p)]), f)
  {
    ClaimedCounts(s.meta, f, p);
    hide InUseFrames, DirtyFrames;
  }

  lemma ClaimedCounts(meta: seq<PageMeta>, f: nat, p: PageId)
    requires f < |meta| && (meta[f].inUse ==> !meta[f].dirty)
    ensures DirtyFrames(meta[f := Claimed(p)]) == DirtyFrames(meta)
    ensures |InUseFrames(meta[f := Claimed(p)])| == |InUseFrames(meta)| + (if meta[f].inUse then 0 else 1)
  {
    FrameSetsUpdate(meta, f, Claimed(p));
    if meta[f].inUse {
      assert f in InUseFrames(meta);
      assert InUseFrames(meta) + {f} == InUseFrames(meta);
    }
  }

  lemma ReleasedCounts(meta: seq<PageMeta>, f: nat)
    requires f < |meta| && meta[f].inUse && !meta[f].dirty
    ensures DirtyFrames(meta[f := meta[f].(inUse := false)]) == DirtyFrames(meta)
    ensures |InUseFrames(meta[f := meta[f].(inUse := false)])| == |InUseFrames(meta)| - 1
  {
    FrameSetsUpdate(meta, f, meta[f].(inUse := false));
    assert f in InUseFrames(meta);
  }

  lemma ClaimVictim(s: Pool, f: nat, p: PageId, c: Ledger)
    requires Vacant(s, f) && Indices(s) && Synced(s, c) && p !in s.pageIndex
    ensures var t := s.(meta := s.meta[f := Claimed(p)]);
            ClaimedFor(t, f, p, c) && Unlost(s, t, c)
  {
    var t := s.(meta := s.meta[f := Claimed(p)]);
    assert IndexedExcept(s, f);
    hide Vacant, Synced, OthersSynced, Unlost, IndexedExcept;
    FrameVictimVacant(s, f, p);
    ClaimSynced(s, t, f, p, c);
  }

  lemma ClaimSynced(s: Pool, t: Pool, f: nat, p: PageId, c: Ledger)
    requires WF(s) && Synced(s, c) && f < |s.meta| && IndexedExcept(s, f)
    requires t == s.(meta := s.meta[f := Claimed(p)], resident := t.resident)
    ensures OthersSynced(t, f, c) && Unlost(s, t, c)
  {
    hide SwapOk, Backing;
    SwapUntouched(s, t);
  }

  lemma LoadKeeps(s: Pool, f: nat, p: PageId, io: Io, c: Ledger)
    requires ClaimedFor(s, f, p, c)
    ensures var (t, g) := Load(s, f, p, io);
            && Unlost(s, t, c)
            && (g == |s.meta| || g == f)
            && t.swapped == s.swapped
            && (g == f ==> ClaimedFor(t, f, p, c) && t.arena[f] == Backing(s, p) && t.pageIndex == s.pageIndex)
            && (g == |s.meta| ==> Inv(t) && Synced(t, c))
  {
    var (t, ok) := ReadFromSwap(s, f, p, io);
    ReadKeeps(s, f, p, io, c);
    if !ok {
      var u := Load(s, f, p, io).0;
      ReleaseKeeps(t, u, f, c);
      hide Vacant, OthersSynced, Unlost, Inv, Synced;
      UnlostTrans(s, t, u, c);
    }
    hide Vacant, OthersSynced, Unlost, Inv, Synced;
  }

  lemma ReadKeeps(s: Pool, f: nat, p: PageId, io: Io, c: Ledger)
    requires Vacant(s, f) && Indices(s) && OthersSynced(s, f, c)
    ensures var (t, ok) := ReadFromSwap(s, f, p, io);
            && Vacant(t, f) && Unlost(s, t, c) && OthersSynced(t, f, c)
            && t == s.(arena := t.arena, ioCalls := t.ioCalls)
            && (ok ==> t.arena[f] == Backing(s, p))
  {
    hide Vacant, OthersSynced, Unlost, ReadFromSwap, WF, Backing;
    ReadBytes(s, f, p, io);
    ReadOthers(s, ReadFromSwap(s, f, p, io).0, f, c);
  }

  lemma ReadBytes(s: Pool, f: nat, p: PageId, io: Io)
    requires Vacant(s, f)
    ensures WF(s) && f < |s.meta|
    ensures var (t, ok) := ReadFromSwap(s, f, p, io);
            && t == s.(arena := t.arena, ioCalls := t.ioCalls)
            && |t.arena| == |s.arena| && t.arena == s.arena[f := t.arena[f]]
            && (ok ==> t.arena[f] == Backing(s, p))
  {
    hide IndexedExcept, Counted;
  }

  lemma ReadOthers(s: Pool, t: Pool, f: nat, c: Ledger)
    requires Vacant(s, f) && Indices(s) && OthersSynced(s, f, c)
    requires WF(t) && t == s.(arena := t.arena, ioCalls := t.ioCalls)
    requires |t.arena| == |s.arena| && t.arena == s.arena[f := t.arena[f]]
    ensures Vacant(t, f) && Unlost(s, t, c) && OthersSynced(t, f, c)
  {
    hide InUseFrames, DirtyFrames, SwapOk, Backing;
    SwapUntouched(s, t);
  }

  lemma ReleaseKeeps(s: Pool, t: Pool, f: nat, c: Ledger)
    requires Vacant(s, f) && Indices(s) && OthersSynced(s, f, c)
    requires t == s.(meta := s.meta[f := s.meta[f].(inUse := false)], resident := if s.resident > 0 then s.resident - 1 else s.resident)
    ensures Inv(t) && Synced(t, c) && Unlost(s, t, c)
  {
    hide SwapOk, Backing, InUseFrames, DirtyFrames;
    ReleasedCounts(s.meta, f);
    SwapUntouched(s, t);
  }

  lemma AllocateKeeps(s: Pool, p: PageId, io: Io, c: Ledger)
    requires Inv(s) && Synced(s, c) && p !in s.pageIndex
    ensures var (t, f) := Allocate(s, p, io);
            && Unlost(s, t, c)
            && (f == |s.meta| ==> Inv(t) && Synced(t, c))
            && (f < |s.meta| ==> ClaimedFor(t, f, p, c) && t.arena[f] == Backing(t, p))
  {
    hide Inv, Synced, WF, Indices, Vacant, OthersSynced, Unlost, ClockScan, Load, ClaimedFor, Scanned;
    InvParts(s);
    var i := FirstFree(s.meta, 0);
    if i < |s.meta| {
      ClaimFree(s, i, p, c);
      AllocateByLoad(s, s.(meta := s.meta[i := Claimed(p)], resident := s.resident + 1), i, p, io, c);
    } else {
      var (t, v) := ClockScan(s, 2 * |s.meta|, io);
      ClockScanKeeps(s, 2 * |s.meta|, io, c);
      ScannedParts(s, t, v, c);
      if v < |s.meta| {
        ClaimVictim(t, v, p, c);
        var u := t.(meta := t.meta[v := Claimed(p)]);
        UnlostTrans(s, t, u, c);
        AllocateByLoad(s, u, v, p, io, c);
      }
    }
  }

  lemma ScannedParts(s: Pool, t: Pool, v: nat, c: Ledger)
    requires Scanned(s, t, v, c)
    ensures WF(t) && Indices(t) && Unlost(s, t, c) && Synced(t, c) && t.pageIndex.Keys <= s.pageIndex.Keys
    ensures |t.meta| == |s.meta|
    ensures if v == |s.meta| then Inv(t) else Vacant(t, v)
  {
  }

  lemma AllocateByLoad(s: Pool, t: Pool, f: nat, p: PageId, io: Io, c: Ledger)
    requires Unlost(s, t, c) && ClaimedFor(t, f, p, c)
    ensures var (u, g) := Load(t, f, p, io);
            && Unlost(s, u, c)
            && (g == |t.meta| ==> Inv(u) && Synced(u, c))
            && (g < |t.meta| ==> g == f && ClaimedFor(u, f, p, c) && u.arena[f] == Backing(u, p))
  {
    LoadKeeps(t, f, p, io, c);
    var u := Load(t, f, p, io).0;
    UnlostTrans(s, t, u, c);
    LoadedBacking(t, u, p, c);
    hide Unlost, ClaimedFor, Inv, Synced;
  }

  lemma LoadedBacking(t: Pool, u: Pool, p: PageId, c: Ledger)
    requires Unlost(t, u, c) && u.swapped == t.swapped
    ensures Backing(u, p) == Backing(t, p)
  {
    hide SameValues, PinnedKept;
  }

  /** Pinned pages stay where they are, with the same bytes. */
  ghost predicate PinnedStay(s: Pool, t: Pool) {
    forall p :: p in s.pageIndex && s.pageIndex[p] < |s.meta| && s.meta[s.pageIndex[p]].pins > 0 ==>
      && p in t.pageIndex && t.pageIndex[p] == s.pageIndex[p]
      && s.pageIndex[p] < |s.arena| && s.pageIndex[p] < |t.arena|
      && t.arena[s.pageIndex[p]] == s.arena[s.pageIndex[p]]
  }

  /**
   A fetch, hit or miss, loses nothing: whatever I/O does, every page keeps its
   logical value and pinned pages stay put.  A fetch that succeeds pins p in
   the frame it returns, and that frame holds the logical value of p.
   */
  ghost predicate Fetched(s: Pool, r: FetchResult, p: PageId, c: Ledger) {
    && Kept(s, r.pool, c) && PinnedStay(s, r.pool)
    && (r.frame.Some? ==>
          && p in r.pool.pageIndex && r.pool.pageIndex[p] == r.frame.value
          && r.pool.meta[r.frame.value].pins > 0
          && (p !in c.abandoned ==> r.pool.arena[r.frame.value] == Value(s, p))
          && (r.isNew ==> r.pool.arena[r.frame.value] == Zeros(s.pageSize)))
  }

  lemma FetchHitKeeps(s: Pool, p: PageId, forWrite: bool, io: Io, c: Ledger)
    requires Inv(s) && Synced(s, c) && p in s.pageIndex
    ensures Fetched(s, Fetch(s, p, forWrite, io), p, c)
  {
    var f := s.pageIndex[p];
    var m := s.meta[f].(pins := s.meta[f].pins + 1, refBit := true);
    var t := s.(meta := s.meta[f := m]);
    PinCounts(s.meta, f, m);
    EditKeeps(s, t, f, m, c);
    EditSynced(s, t, f, m, c);
    hide InUseFrames, DirtyFrames, SameValues, Synced;
  }

  /** Editing one frame's pins, ref bit or dirty bit, with the dirty count in step. */
  lemma EditKeeps(s: Pool, t: Pool, f: nat, m: PageMeta, c: Ledger)
    requires Inv(s) && f < |s.meta| && m.inUse == s.meta[f].inUse && m.pageId == s.meta[f].pageId
    requires t == s.(meta := s.meta[f := m], dirtyCount := t.dirtyCount)
    requires InUseFrames(t.meta) == InUseFrames(s.meta) && t.dirtyCount == |DirtyFrames(t.meta)|
    ensures Inv(t) && SameConfig(s, t) && SameValues(s, t, c) && SlotsFrozen(s, t)
  {
    hide InUseFrames, DirtyFrames;
  }

  lemma EditSynced(s: Pool, t: Pool, f: nat, m: PageMeta, c: Ledger)
    requires Inv(s) && Synced(s, c) && f < |s.meta|
    requires m.inUse == s.meta[f].inUse && m.pageId == s.meta[f].pageId
    requires t == s.(meta := s.meta[f := m], dirtyCount := t.dirtyCount)
    requires m.inUse && !m.dirty && m.pageId !in c.unmarked ==> !s.meta[f].dirty
    requires m.inUse && m.pageId in c.unmarked && m.pageId !in c.abandoned ==> m.pins > 0
    ensures WF(t) && Synced(t, c)
  {
    hide Counted, SwapOk, Backing;
    SwapUntouched(s, t);
  }

  lemma PinCounts(meta: seq<PageMeta>, f: nat, m: PageMeta)
    requires f < |meta| && m.inUse == meta[f].inUse && m.dirty == meta[f].dirty
    ensures InUseFrames(meta[f := m]) == InUseFrames(meta) && DirtyFrames(meta[f := m]) == DirtyFrames(meta)
  {
  }

  lemma DirtiedCounts(meta: seq<PageMeta>, f: nat, m: PageMeta)
    requires f < |meta| && meta[f].inUse && !meta[f].dirty && m.inUse && m.dirty
    ensures InUseFrames(meta[f := m]) == InUseFrames(meta)
    ensures |DirtyFrames(meta[f := m])| == |DirtyFrames(meta)| + 1
  {
    FrameSetsUpdate(meta, f, m);
    assert f in InUseFrames(meta) && f !in DirtyFrames(meta);
    assert InUseFrames(meta) + {f} == InUseFrames(meta);
  }

  lemma FetchMissKeeps(s: Pool, p: PageId, forWrite: bool, io: Io, c: Ledger)
    requires Inv(s) && Synced(s, c) && p !in s.pageIndex
    ensures Fetched(s, Fetch(s, p, forWrite, io), p, c)
  {
    var (t, f) := Allocate(s, p, io);
    AllocateKeeps(s, p, io, c);
    if f < |s.meta| {
      PublishFetched(s, t, f, p, forWrite, Fetch(s, p, forWrite, io), c);
    } else {
      MissedFetched(s, t, p, c);
    }
    hide Allocate, ClaimedFor, Unlost, Inv, Synced, Publish, Fetched;
  }

  lemma MissedFetched(s: Pool, t: Pool, p: PageId, c: Ledger)
    requires Inv(s) && Inv(t) && Synced(t, c) && Unlost(s, t, c)
    ensures Fetched(s, FetchResult(t, None, false), p, c)
  {
    hide Inv, Synced, SameValues;
  }

  lemma PublishFetched(s: Pool, t: Pool, f: nat, p: PageId, forWrite: bool, r: FetchResult, c: Ledger)
    requires Inv(s) && p !in s.pageIndex && Unlost(s, t, c)
    requires ClaimedFor(t, f, p, c) && t.arena[f] == Backing(t, p)
    requires r == FetchResult(Publish(t, f, p, forWrite), Some(f), p !in t.swapped)
    ensures Fetched(s, r, p, c)
  {
    hide Synced, OthersSynced, InUseFrames, DirtyFrames, IndexedExcept;
    var u := Publish(t, f, p, forWrite);
    PublishInv(t, f, p, forWrite, c);
    PublishSynced(t, f, p, forWrite, c);
    PublishValues(t, f, p, forWrite, c);
    ValuesTrans(s, t, u, c);
    assert p !in c.abandoned ==> Value(t, p) == Value(s, p);
    assert Value(t, p) == Backing(t, p);
  }

  lemma PublishInv(t: Pool, f: nat, p: PageId, forWrite: bool, c: Ledger)
    requires ClaimedFor(t, f, p, c)
    ensures Inv(Publish(t, f, p, forWrite))
  {
    hide InUseFrames, DirtyFrames, OthersSynced;
    var m := t.meta[f].(pins := 1, refBit := true, dirty := forWrite);
    PublishIndexed(t, f, p, m);
    if forWrite {
      DirtiedCounts(t.meta, f, m);
    } else {
      PinCounts(t.meta, f, m);
    }
    hide IndexedExcept, WF;
  }

  lemma PublishIndexed(t: Pool, f: nat, p: PageId, m: PageMeta)
    requires f < |t.meta| && IndexedExcept(t, f) && p !in t.pageIndex && m.inUse && m.pageId == p
    ensures IndexedExcept(t.(pageIndex := t.pageIndex[p := f], meta := t.meta[f := m]), -1)
  {
  }

  lemma PublishSynced(t: Pool, f: nat, p: PageId, forWrite: bool, c: Ledger)
    requires ClaimedFor(t, f, p, c) && t.arena[f] == Backing(t, p)
    ensures Synced(Publish(t, f, p, forWrite), c)
  {
    hide InUseFrames, DirtyFrames;
  }

  lemma PublishValues(t: Pool, f: nat, p: PageId, forWrite: bool, c: Ledger)
    requires ClaimedFor(t, f, p, c) && t.arena[f] == Backing(t, p)
    ensures var u := Publish(t, f, p, forWrite);
            Indices(t) && Indices(u) && SameConfig(t, u) && SameValues(t, u, c) && SlotsFrozen(t, u)
    ensures var u := Publish(t, f, p, forWrite);
            forall q :: q in t.pageIndex ==> q in u.pageIndex && u.pageIndex[q] == t.pageIndex[q]
  {
    hide InUseFrames, DirtyFrames, OthersSynced;
  }
}
