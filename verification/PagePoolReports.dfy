/**
 What the pool tells its clients, and what they may rely on: when a page is new,
 which frame a writer's fetch leaves dirty, what a flush has written, and so
 exactly which changes survive an eviction.
 */
module PagePoolReports {
  import opened Prelude
  import opened PagePoolSpec
  import opened PagePoolProofs
  import opened PagePoolRuns
  import opened PagePoolLoss
  import opened PagePoolPins

  // ---------------------------------------------------------------- one frame

  /** The next write to swap, made for frame f, transfers a whole page. */
  ghost predicate CanWrite(s: Pool, f: nat, io: Io)
    requires f < |s.meta|
  {
    s.swapOpen && io.write(s.ioCalls, s.meta[f].pageId) >= s.pageSize
  }

  /** Flushing a frame succeeds exactly if there is nothing to write or all of it is written. */
  lemma FlushFrameTells(s: Pool, f: nat, io: Io)
    requires Inv(s) && f < |s.meta|
    ensures var (t, ok) := FlushFrame(s, f, io);
            var m := s.meta[f];
            && (ok <==> !m.inUse || !m.dirty || CanWrite(s, f, io))
            && t.ioCalls == s.ioCalls + (if m.inUse && m.dirty && s.swapOpen then 1 else 0)
  {
    hide WriteToSwap, Counted, IndexedExcept;
    var m := s.meta[f];
    if m.inUse && m.dirty && s.swapOpen {
      SwapWriteIsCopyOnWrite(s, f, m.pageId, io);
    }
  }

  /**
   Flushing a page succeeds if and only if the page is not resident, or clean,
   or its bytes are all written; afterwards it is clean, and what swap holds
   for a page that was dirty is its frame's bytes.
   */
  lemma FlushPageTells(s: Pool, p: PageId, io: Io)
    requires Inv(s)
    ensures WF(s) && Indices(s)
    ensures var (t, ok) := FlushPage(s, p, io);
            && t.pageIndex == s.pageIndex && t.arena == s.arena && |t.meta| == |s.meta|
            && (ok <==> p !in s.pageIndex || !s.meta[s.pageIndex[p]].dirty ||
                        (s.swapOpen && io.write(s.ioCalls, p) >= s.pageSize))
            && (ok && p in s.pageIndex ==>
                  && !t.meta[s.pageIndex[p]].dirty
                  && (s.meta[s.pageIndex[p]].dirty ==> Backing(t, p) == s.arena[s.pageIndex[p]]))
            && (!ok ==> t.meta == s.meta && t.swapped == s.swapped)
            && (forall q: PageId :: q != p ==> Backing(t, q) == Backing(s, q))
  {
    hide Inv, WF, FlushFrame, Backing, SlotsFrozen;
    InvParts(s);
    if p in s.pageIndex {
      PageOfFrame(s, p);
      FlushFrameTells(s, s.pageIndex[p], io);
      FlushFrameIs(s, s.pageIndex[p], io);
      FlushBacking(s, s.pageIndex[p], io);
    }
  }

  // ---------------------------------------------------------------- all frames

  /** The dirty frames from i up to f: each takes one call to write. */
  function DirtyAmong(meta: seq<PageMeta>, i: nat, f: nat): nat
    requires f <= |meta|
    decreases f - i
  {
    if i >= f then 0 else (if meta[i].inUse && meta[i].dirty then 1 else 0) + DirtyAmong(meta, i + 1, f)
  }

  lemma {:induction false} DirtyAmongSame(a: seq<PageMeta>, b: seq<PageMeta>, i: nat, f: nat)
    requires f <= |a| == |b| && forall g :: i <= g < f ==> a[g] == b[g]
    ensures DirtyAmong(a, i, f) == DirtyAmong(b, i, f)
    decreases f - i
  {
    if i < f {
      DirtyAmongSame(a, b, i + 1, f);
    }
  }

  ghost predicate DirtyAt(s: Pool, f: nat) {
    f < |s.meta| && s.meta[f].inUse && s.meta[f].dirty
  }

  /** In a sweep that starts at frame i, the write made for dirty frame f transfers a whole page. */
  ghost predicate SweepWrites(s: Pool, i: nat, f: nat, io: Io)
    requires f < |s.meta|
  {
    s.swapOpen && io.write(s.ioCalls + DirtyAmong(s.meta, i, f), s.meta[f].pageId) >= s.pageSize
  }

  ghost predicate Cleaned(s: Pool, t: Pool, i: nat, f: nat, io: Io)
    requires f < |s.meta| == |t.meta|
  {
    t.meta[f] == if i <= f && DirtyAt(s, f) && SweepWrites(s, i, f, io) then s.meta[f].(dirty := false) else s.meta[f]
  }

  /** What a sweep from frame i has done: every frame, what it reports, and which swap copies it left alone. */
  ghost predicate Swept(s: Pool, i: nat, io: Io, t: Pool, ok: bool) {
    && |t.meta| == |s.meta| && t.arena == s.arena && t.pageIndex == s.pageIndex
    && (ok <==> forall f: nat :: i <= f && DirtyAt(s, f) ==> SweepWrites(s, i, f, io))
    && (forall f: nat :: f < |s.meta| ==> Cleaned(s, t, i, f, io))
  }

  lemma {:induction false} FlushFromTells(s: Pool, i: nat, io: Io)
    requires Inv(s) && i <= |s.meta|
    ensures WF(s)
    ensures var (t, ok) := FlushFrom(s, i, io); Swept(s, i, io, t, ok)
    decreases |s.meta| - i
  {
    hide Inv, WF, FlushFrame, DirtyAmong, SlotsFrozen;
    InvParts(s);
    if i < |s.meta| {
      FlushedInv(s, i, io);
      var (u, one) := FlushFrame(s, i, io);
      FlushFromTells(u, i + 1, io);
      FlushFrameTells(s, i, io);
      FlushFrameIs(s, i, io);
      SweptFirst(s, u, one, i, io, FlushFrom(u, i + 1, io).0, FlushFrom(u, i + 1, io).1);
    }
  }

  lemma NoneBetween(meta: seq<PageMeta>, i: nat)
    requires i < |meta|
    ensures DirtyAmong(meta, i, i) == 0
    ensures forall f: nat :: i < f <= |meta| ==>
              DirtyAmong(meta, i, f) == (if meta[i].inUse && meta[i].dirty then 1 else 0) + DirtyAmong(meta, i + 1, f)
  {
  }

  lemma SweptFirst(s: Pool, u: Pool, one: bool, i: nat, io: Io, t: Pool, rest: bool)
    requires i < |s.meta| == |u.meta| && Swept(u, i + 1, io, t, rest)
    requires u == s.(swapped := u.swapped, nextSlot := u.nextSlot, disk := u.disk, ioCalls := u.ioCalls,
                     meta := u.meta, dirtyCount := u.dirtyCount)
    requires one <==> !DirtyAt(s, i) || CanWrite(s, i, io)
    requires u.meta == if one && DirtyAt(s, i) then s.meta[i := s.meta[i].(dirty := false)] else s.meta
    requires u.ioCalls == s.ioCalls + (if DirtyAt(s, i) && s.swapOpen then 1 else 0)
    ensures Swept(s, i, io, t, one && rest)
  {
    hide DirtyAmong;
    NoneBetween(s.meta, i);
    forall f: nat | i < f < |s.meta| ensures SweepWrites(s, i, f, io) <==> SweepWrites(u, i + 1, f, io) {
      DirtyAmongSame(s.meta, u.meta, i + 1, f);
    }
    assert DirtyAt(s, i) ==> (SweepWrites(s, i, i, io) <==> CanWrite(s, i, io));
    forall f: nat | f < |s.meta| ensures Cleaned(s, t, i, f, io) {
      assert Cleaned(u, t, i + 1, f, io);
    }
    SweptOk(s, u, one, i, io, rest);
  }

  lemma SweptOk(s: Pool, u: Pool, one: bool, i: nat, io: Io, rest: bool)
    requires i < |s.meta| == |u.meta| && (one <==> !DirtyAt(s, i) || SweepWrites(s, i, i, io))
    requires rest <==> forall f: nat :: i + 1 <= f && DirtyAt(u, f) ==> SweepWrites(u, i + 1, f, io)
    requires forall f: nat :: i < f < |s.meta| ==> u.meta[f] == s.meta[f]
    requires forall f: nat :: i < f < |s.meta| ==> (SweepWrites(s, i, f, io) <==> SweepWrites(u, i + 1, f, io))
    ensures one && rest <==> forall f: nat :: i <= f && DirtyAt(s, f) ==> SweepWrites(s, i, f, io)
  {
    hide SweepWrites;
    assert forall f: nat :: i < f ==> (DirtyAt(u, f) <==> DirtyAt(s, f));
    if one && rest {
      forall f: nat | i <= f && DirtyAt(s, f) ensures SweepWrites(s, i, f, io) {
        if f > i {
          assert DirtyAt(u, f);
        }
      }
    } else if one {
      var f: nat :| i + 1 <= f && DirtyAt(u, f) && !SweepWrites(u, i + 1, f, io);
      assert DirtyAt(s, f) && !SweepWrites(s, i, f, io);
    }
  }

  /**
   Flushing everything succeeds if and only if there is no dirty frame, or swap
   is open and each dirty frame's write, one call each in frame order, transfers
   a whole page.  After success no frame is dirty; after failure exactly the
   frames whose write fell short still are.
   */
  lemma FlushAllTells(s: Pool, io: Io)
    requires Inv(s)
    ensures WF(s)
    ensures var (t, ok) := FlushFrom(s, 0, io);
            && |t.meta| == |s.meta|
            && (ok <==> forall f: nat :: DirtyAt(s, f) ==> SweepWrites(s, 0, f, io))
            && (ok ==> forall f: nat :: !DirtyAt(t, f))
            && (forall f: nat :: DirtyAt(t, f) <==> DirtyAt(s, f) && !SweepWrites(s, 0, f, io))
  {
    hide Inv, WF, FlushFrom, SweepWrites;
    FlushFromTells(s, 0, io);
    var (t, ok) := FlushFrom(s, 0, io);
    forall f: nat ensures DirtyAt(t, f) <==> DirtyAt(s, f) && !SweepWrites(s, 0, f, io) {
      if f < |s.meta| {
        assert Cleaned(s, t, 0, f, io);
      }
    }
  }

  /** After a sweep that succeeds, swap holds the bytes of every page that was dirty. */
  lemma {:induction false} SweptPageIsSafe(s: Pool, i: nat, io: Io, f: nat)
    requires Inv(s) && i <= f && DirtyAt(s, f)
    ensures WF(s)
    ensures var (t, ok) := FlushFrom(s, i, io); ok ==> Backing(t, s.meta[f].pageId) == s.arena[f]
    decreases |s.meta| - i
  {
    hide Inv, WF, FlushFrame, Backing, SlotsFrozen;
    InvParts(s);
    FlushedInv(s, i, io);
    FlushFrameIs(s, i, io);
    var (u, one) := FlushFrame(s, i, io);
    FlushBacking(s, i, io);
    if i < f {
      SweptPageIsSafe(u, i + 1, io, f);
    } else {
      FrameOfPage(s, f);
      OtherBacking(u, i + 1, io, s.meta[f].pageId, f);
    }
  }

  /** A sweep over other frames leaves the swap copy of a page alone. */
  lemma {:induction false} OtherBacking(s: Pool, i: nat, io: Io, p: PageId, f: nat)
    requires Inv(s) && f < i <= |s.meta| && s.meta[f].inUse && s.meta[f].pageId == p
    ensures WF(s) && Backing(FlushFrom(s, i, io).0, p) == Backing(s, p)
    decreases |s.meta| - i
  {
    hide Inv, WF, FlushFrame, Backing, SlotsFrozen;
    InvParts(s);
    if i < |s.meta| {
      FlushedInv(s, i, io);
      FlushFrameIs(s, i, io);
      FlushBacking(s, i, io);
      FrameOfPage(s, f);
      if s.meta[i].inUse {
        FrameOfPage(s, i);
      }
      OtherBacking(FlushFrame(s, i, io).0, i + 1, io, p, f);
    }
  }

  // ---------------------------------------------------------------- swap copies of absent pages

  /** t has a swap copy of p exactly if s has, and it is the same. */
  ghost predicate SameCopy(s: Pool, t: Pool, p: PageId) {
    SwapOk(s) && SwapOk(t) && (p in t.swapped <==> p in s.swapped) && Backing(t, p) == Backing(s, p)
  }

  lemma CopyParts(s: Pool)
    requires WF(s)
    ensures SwapOk(s)
  {
  }

  lemma FlushCopy(s: Pool, f: nat, p: PageId, io: Io)
    requires Inv(s) && f < |s.meta| && p !in s.pageIndex
    ensures SameCopy(s, FlushFrame(s, f, io).0, p)
  {
    hide WriteToSwap, Counted;
    var m := s.meta[f];
    if m.inUse && m.dirty && s.swapOpen {
      assert m.pageId in s.pageIndex;
      SwapWriteIsCopyOnWrite(s, f, m.pageId, io);
    }
  }

  lemma StepCopy(s: Pool, p: PageId, io: Io)
    requires Inv(s) && p !in s.pageIndex
    ensures WF(s) && SameCopy(s, ScanStep(s, io).0, p) && p !in ScanStep(s, io).0.pageIndex
  {
    hide Inv, FlushFrame, SwapOk, Backing;
    InvParts(s);
    HandInv(s);
    var idx := s.hand;
    var t := s.(hand := (idx + 1) % |s.meta|);
    InvParts(t);
    CopyParts(s);
    SwapUntouched(s, t);
    var m := s.meta[idx];
    if m.inUse && m.pins == 0 && !m.refBit && m.dirty {
      FlushCopy(t, idx, p, io);
      FlushFrameIs(t, idx, io);
      EditCopy(s, ScanStep(s, io).0, FlushFrame(t, idx, io).0, p);
    } else {
      EditCopy(s, ScanStep(s, io).0, t, p);
    }
  }

  /** Index, frames and hand have no say in what swap holds. */
  lemma EditCopy(s: Pool, t: Pool, u: Pool, p: PageId)
    requires SameCopy(s, u, p) && t.pageSize == u.pageSize && t.swapOpen == u.swapOpen
    requires t.swapped == u.swapped && t.freeSlots == u.freeSlots && t.nextSlot == u.nextSlot && t.disk == u.disk
    ensures SameCopy(s, t, p)
  {
  }

  lemma {:induction false} ScanCopy(s: Pool, p: PageId, steps: nat, io: Io)
    requires Inv(s) && p !in s.pageIndex
    ensures WF(s) && SameCopy(s, ClockScan(s, steps, io).0, p)
    decreases steps
  {
    hide Inv, WF, ScanStep, Backing, SwapOk;
    InvOfStep(s, io);
    CopyParts(s);
    if steps > 0 {
      StepCopy(s, p, io);
      if ScanStep(s, io).1 {
        ScanCopy(ScanStep(s, io).0, p, steps - 1, io);
      }
    }
  }

  lemma LoadCopy(s: Pool, f: nat, p: PageId, resident: nat, io: Io)
    requires WF(s) && f < |s.meta| && WF(s.(meta := s.meta[f := Claimed(p)], resident := resident))
    ensures SameCopy(s, Load(s.(meta := s.meta[f := Claimed(p)], resident := resident), f, p, io).0, p)
  {
  }

  lemma AllocateCopy(s: Pool, p: PageId, io: Io)
    requires Inv(s) && p !in s.pageIndex
    ensures WF(s) && SameCopy(s, Allocate(s, p, io).0, p)
  {
    hide Inv, WF, ClockScan, Load, Backing, SwapOk;
    InvParts(s);
    var i := FirstFree(s.meta, 0);
    if i < |s.meta| {
      ClaimWF(s, i, p, s.resident + 1);
      LoadCopy(s, i, p, s.resident + 1, io);
    } else {
      var (t, v) := ClockScan(s, 2 * |s.meta|, io);
      ScanCopy(s, p, 2 * |s.meta|, io);
      if v < |s.meta| {
        ClaimWF(t, v, p, t.resident);
        LoadCopy(t, v, p, t.resident, io);
      }
    }
  }

  // ---------------------------------------------------------------- what a fetch reports

  /** The frame a fetch returns: pinned once more, referenced, and dirty if it was or if a miss brought it in for writing. */
  ghost predicate Handed(s: Pool, t: Pool, f: nat, p: PageId, forWrite: bool) {
    && p in t.pageIndex && t.pageIndex[p] == f < |t.meta| == |s.meta| && Indices(s)
    && t.meta[f].inUse && t.meta[f].refBit
    && t.meta[f].pins == (if p in s.pageIndex then s.meta[s.pageIndex[p]].pins + 1 else 1)
    && (t.meta[f].dirty <==> if p in s.pageIndex then s.meta[s.pageIndex[p]].dirty else forWrite)
  }

  /**
   A fetch reports a new page if and only if it succeeds, the page was not
   resident and swap had no copy of it.  A miss for writing leaves its frame
   dirty; a hit ignores the flag.
   */
  lemma FetchTells(s: Pool, p: PageId, forWrite: bool, io: Io)
    requires Inv(s)
    ensures WF(s) && Indices(s)
    ensures var r := Fetch(s, p, forWrite, io);
            && (r.isNew <==> r.frame.Some? && p !in s.pageIndex && p !in s.swapped)
            && (r.frame.Some? ==> Handed(s, r.pool, r.frame.value, p, forWrite))
            && SameCopy(s, r.pool, p)
  {
    hide Inv, WF, Allocate, Backing, SwapOk, IndexedExcept;
    InvParts(s);
    CopyParts(s);
    if p in s.pageIndex {
      HitTells(s, p, forWrite, io);
    } else {
      var (t, f) := Allocate(s, p, io);
      AllocateCopy(s, p, io);
      AllocatePins(s, p, io);
      if f < |t.meta| {
        EditCopy(s, Publish(t, f, p, forWrite), t, p);
      }
    }
  }

  lemma HitTells(s: Pool, p: PageId, forWrite: bool, io: Io)
    requires Inv(s) && p in s.pageIndex
    ensures WF(s) && Indices(s)
    ensures var r := Fetch(s, p, forWrite, io);
            && r.frame == Some(s.pageIndex[p]) && !r.isNew && Handed(s, r.pool, s.pageIndex[p], p, forWrite)
            && SameCopy(s, r.pool, p)
  {
    hide Counted, SwapOk, Backing, Allocate;
    CopyParts(s);
    SwapUntouched(s, Fetch(s, p, forWrite, io).pool);
  }

  /** While a frame is free, a miss evicts nothing and takes the lowest free frame. */
  lemma FreeFrameEvictsNothing(s: Pool, p: PageId, forWrite: bool, io: Io, f: nat)
    requires Inv(s) && p !in s.pageIndex && f < |s.meta| && !s.meta[f].inUse
    requires forall g :: 0 <= g < f ==> s.meta[g].inUse
    ensures WF(s) && Indices(s)
    ensures var r := Fetch(s, p, forWrite, io);
            r.frame.Some? ==> r.frame.value == f && r.pool.pageIndex == s.pageIndex[p := f]
  {
    hide Inv, WF, Load, ClockScan, IndexedExcept;
    InvParts(s);
    FreeIsHole(s, f);
    ClaimWF(s, f, p, s.resident + 1);
    assert FirstFree(s.meta, 0) == f;
    LoadPins(s, s.(meta := s.meta[f := Claimed(p)], resident := s.resident + 1), f, p, io);
  }

  // ---------------------------------------------------------------- what survives

  /**
   Fetch, change, let go, scan: in any pool and under any I/O, the page still
   has the changed contents if and only if the change was marked dirty, or the
   fetch was a miss for writing, or a hit on a dirty frame, or the scan did not
   evict the page, or the change changed nothing.
   */
  lemma FetchedChangeSurvivesIff(s: Pool, p: PageId, forWrite: bool, io: Io, bytes: Page, mark: bool, steps: nat, later: Io)
    requires Inv(s) && |bytes| == s.pageSize
    ensures WF(s) && Indices(s)
    ensures var r := Fetch(s, p, forWrite, io);
            r.frame.Some? ==>
              && Inv(r.pool) && p in r.pool.pageIndex && |bytes| == r.pool.pageSize && WF(Changed(r.pool, p, bytes, mark))
              && var t := ClockScan(Changed(r.pool, p, bytes, mark), steps, later).0;
                 && (p in t.pageIndex ==> t.pageIndex[p] < |t.meta|)
                 && (Value(t, p) == bytes <==>
                       || mark || (if p in s.pageIndex then s.meta[s.pageIndex[p]].dirty else forWrite)
                       || p in t.pageIndex || bytes == Backing(s, p))
  {
    hide Inv, WF, Fetch, Changed, ClockScan, Value, Backing, SwapOk;
    InvParts(s);
    FetchTells(s, p, forWrite, io);
    FetchInv(s, p, forWrite, io);
    var r := Fetch(s, p, forWrite, io);
    if r.frame.Some? {
      ChangeSurvivesEvictionIff(r.pool, p, bytes, mark, steps, later);
    }
  }

  lemma FetchInv(s: Pool, p: PageId, forWrite: bool, io: Io)
    requires Inv(s)
    ensures WF(s) && Indices(s) && Inv(Fetch(s, p, forWrite, io).pool) && Fetch(s, p, forWrite, io).pool.pageSize == s.pageSize
  {
    hide Inv, Synced, Fetch, Stepped;
    InvParts(s);
    OwingSynced(s);
    StepKeepsSynced(s, Owing(s), OpFetch(p, forWrite), io);
    SteppedSize(s, Fetch(s, p, forWrite, io).pool, OpFetch(p, forWrite), Owing(s));
  }

  lemma SteppedSize(s: Pool, t: Pool, op: Op, c: Ledger)
    requires Stepped(s, t, op, c)
    ensures t.pageSize == s.pageSize
  {
    hide Inv;
  }

  /** What p holds after its client stored bytes, let go of it unmarked, and the hand made some moves. */
  ghost predicate Survives(s: Pool, p: PageId, bytes: Page, steps: nat, later: Io) {
    && Inv(s) && p in s.pageIndex && |bytes| == s.pageSize && WF(Changed(s, p, bytes, false))
    && var t := ClockScan(Changed(s, p, bytes, false), steps, later).0;
       (p in t.pageIndex ==> t.pageIndex[p] < |t.meta|) && Value(t, p) == bytes
  }

  /** A page fetched for writing by a miss keeps an unmarked change through any scan. */
  lemma WriterKeepsChange(s: Pool, p: PageId, io: Io, bytes: Page, steps: nat, later: Io)
    requires Inv(s) && p !in s.pageIndex && |bytes| == s.pageSize
    ensures WF(s) && Indices(s)
    ensures var r := Fetch(s, p, true, io); r.frame.Some? ==> Survives(r.pool, p, bytes, steps, later)
  {
    hide Inv, WF, Fetch, Changed, ClockScan, Value, Backing, SwapOk;
    FetchedChangeSurvivesIff(s, p, true, io, bytes, false, steps, later);
  }
}
