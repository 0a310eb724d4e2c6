/**
 Pins and turns: the pin count of a page is the number of fetches that have not
 been unpinned, over every run; and CLOCK gives every frame its second chance,
 taking the nearest unpinned frame whose reference bit is clear.
 */
module PagePoolPins {
  import opened Prelude
  import opened PagePoolSpec
  import opened PagePoolProofs
  import opened PagePoolRuns
  import opened PagePoolLoss

  // ---------------------------------------------------------------- pins of a page

  ghost function PinsOf(s: Pool, p: PageId): nat {
    if p in s.pageIndex && s.pageIndex[p] < |s.meta| then s.meta[s.pageIndex[p]].pins else 0
  }

  ghost predicate PinsKept(s: Pool, t: Pool) {
    forall p: PageId :: PinsOf(t, p) == PinsOf(s, p)
  }

  lemma FlushPins(s: Pool, f: nat, io: Io)
    requires Inv(s) && f < |s.meta|
    ensures PinsKept(s, FlushFrame(s, f, io).0)
  {
    hide Inv, FlushFrame, WF, SlotsFrozen;
    InvParts(s);
    FlushFrameIs(s, f, io);
  }

  lemma {:induction false} FlushFromPins(s: Pool, i: nat, io: Io)
    requires Inv(s) && i <= |s.meta|
    ensures WF(s) && PinsKept(s, FlushFrom(s, i, io).0)
    decreases |s.meta| - i
  {
    hide Inv, WF, FlushFrame, PinsOf, Still;
    InvParts(s);
    if i < |s.meta| {
      FlushPins(s, i, io);
      FlushedInv(s, i, io);
      FlushFromPins(FlushFrame(s, i, io).0, i + 1, io);
    }
  }

  lemma FlushedInv(s: Pool, f: nat, io: Io)
    requires Inv(s) && f < |s.meta|
    ensures WF(s) && Inv(FlushFrame(s, f, io).0) && |FlushFrame(s, f, io).0.meta| == |s.meta|
  {
    hide Inv, FlushFrame, WF;
    InvParts(s);
    InvAfterFlush(s, f, io);
  }

  lemma StepPins(s: Pool, io: Io)
    requires Inv(s)
    ensures WF(s) && PinsKept(s, ScanStep(s, io).0)
  {
    hide FlushFrame, WF, Counted;
    InvParts(s);
    var idx := s.hand;
    var t := s.(hand := (idx + 1) % |s.meta|);
    HandInv(s);
    if s.meta[idx].inUse && s.meta[idx].pins == 0 && !s.meta[idx].refBit && s.meta[idx].dirty {
      FlushFrameIs(t, idx, io);
    }
  }

  lemma HandInv(s: Pool)
    requires Inv(s)
    ensures s.hand < |s.meta| && Inv(s.(hand := (s.hand + 1) % |s.meta|))
  {
    hide InUseFrames, DirtyFrames, SwapOk;
    SwapUntouched(s, s.(hand := (s.hand + 1) % |s.meta|));
  }

  lemma {:induction false} ScanPins(s: Pool, steps: nat, io: Io)
    requires Inv(s)
    ensures WF(s) && PinsKept(s, ClockScan(s, steps, io).0)
    decreases steps
  {
    hide Inv, WF, ScanStep, PinsOf;
    InvOfStep(s, io);
    if steps > 0 {
      StepPins(s, io);
      if ScanStep(s, io).1 {
        ScanPins(ScanStep(s, io).0, steps - 1, io);
      }
    }
  }

  /** Claiming and loading a frame that no page is indexed at. */
  lemma LoadPins(s: Pool, t: Pool, f: nat, p: PageId, io: Io)
    requires WF(t) && f < |s.meta| && IndexedExcept(s, f) && t == s.(meta := s.meta[f := Claimed(p)], resident := t.resident)
    ensures var (u, g) := Load(t, f, p, io);
            PinsKept(s, u) && u.pageIndex == s.pageIndex && (g == f || g == |s.meta|) && (g == f ==> u.meta[f] == Claimed(p))
  {
    hide WF;
  }

  lemma AllocatePins(s: Pool, p: PageId, io: Io)
    requires Inv(s) && p !in s.pageIndex
    ensures var (t, f) := Allocate(s, p, io);
            && WF(s) && PinsKept(s, t) && p !in t.pageIndex
            && (f < |t.meta| ==> IndexedExcept(t, f) && t.meta[f] == Claimed(p))
  {
    hide Inv, WF, ClockScan, Load, PinsOf, IndexedExcept, Synced, Unlost, ClaimedFor, Allocate;
    InvParts(s);
    OwingSynced(s);
    AllocateKeeps(s, p, io, Owing(s));
    var (t, f) := Allocate(s, p, io);
    AllocateFrame(s, p, io);
    if f < |t.meta| {
      ClaimedParts(t, f, p, Owing(s));
    }
  }

  lemma ClaimedParts(t: Pool, f: nat, p: PageId, c: Ledger)
    requires ClaimedFor(t, f, p, c)
    ensures IndexedExcept(t, f) && t.meta[f] == Claimed(p) && p !in t.pageIndex
  {
    hide IndexedExcept, OthersSynced;
  }

  lemma AllocateFrame(s: Pool, p: PageId, io: Io)
    requires Inv(s) && p !in s.pageIndex
    ensures WF(s) && PinsKept(s, Allocate(s, p, io).0) && p !in Allocate(s, p, io).0.pageIndex
  {
    hide Inv, WF, ClockScan, Load, PinsOf, IndexedExcept, Synced, Scanned;
    InvParts(s);
    var i := FirstFree(s.meta, 0);
    if i < |s.meta| {
      FreeIsHole(s, i);
      ClaimWF(s, i, p, s.resident + 1);
      LoadPins(s, s.(meta := s.meta[i := Claimed(p)], resident := s.resident + 1), i, p, io);
    } else {
      var (t, v) := ClockScan(s, 2 * |s.meta|, io);
      ScanPins(s, 2 * |s.meta|, io);
      OwingSynced(s);
      ClockScanKeeps(s, 2 * |s.meta|, io, Owing(s));
      ScanHole(s, t, v, Owing(s));
      if v < |s.meta| {
        ClaimWF(t, v, p, t.resident);
        LoadPins(t, t.(meta := t.meta[v := Claimed(p)]), v, p, io);
      }
    }
  }

  lemma ScanHole(s: Pool, t: Pool, v: nat, c: Ledger)
    requires Scanned(s, t, v, c)
    ensures t.pageIndex.Keys <= s.pageIndex.Keys && |t.meta| == |s.meta|
    ensures v != |s.meta| ==> v < |t.meta| && IndexedExcept(t, v)
  {
    hide Inv, Synced, SameValues, IndexedExcept;
  }

  /** A fetch that succeeds pins its page once more and no other; one that fails pins nothing. */
  lemma FetchPins(s: Pool, p: PageId, forWrite: bool, io: Io)
    requires Inv(s)
    ensures WF(s) && Indices(s)
    ensures var r := Fetch(s, p, forWrite, io);
            && PinsOf(r.pool, p) == PinsOf(s, p) + (if r.frame.Some? then 1 else 0)
            && (forall q: PageId :: q != p ==> PinsOf(r.pool, q) == PinsOf(s, q))
            && (p in s.pageIndex ==> r.frame == Some(s.pageIndex[p]))
  {
    hide Inv, WF, Allocate, IndexedExcept;
    InvParts(s);
    if p in s.pageIndex {
      HitPins(s, p, forWrite, io);
    } else {
      var (t, f) := Allocate(s, p, io);
      AllocatePins(s, p, io);
      assert PinsOf(s, p) == 0;
      if f < |t.meta| {
        PublishPins(t, f, p, forWrite);
      }
    }
  }

  lemma HitPins(s: Pool, p: PageId, forWrite: bool, io: Io)
    requires Inv(s) && p in s.pageIndex
    ensures WF(s) && Indices(s)
    ensures var r := Fetch(s, p, forWrite, io);
            && r.frame == Some(s.pageIndex[p]) && PinsOf(r.pool, p) == PinsOf(s, p) + 1
            && (forall q: PageId :: q != p ==> PinsOf(r.pool, q) == PinsOf(s, q))
  {
    hide Counted, SwapOk, Allocate;
  }

  lemma PublishPins(t: Pool, f: nat, p: PageId, forWrite: bool)
    requires WF(t) && f < |t.meta| && IndexedExcept(t, f) && p !in t.pageIndex
    ensures var u := Publish(t, f, p, forWrite);
            PinsOf(u, p) == 1 && forall q: PageId :: q != p ==> PinsOf(u, q) == PinsOf(t, q)
  {
    hide WF;
  }

  lemma UnpinPins(s: Pool, p: PageId, mark: bool)
    requires Inv(s)
    ensures WF(s) && Indices(s)
    ensures var t := Unpin(s, p, mark);
            && PinsOf(t, p) == (if PinsOf(s, p) > 0 then PinsOf(s, p) - 1 else 0)
            && (forall q: PageId :: q != p ==> PinsOf(t, q) == PinsOf(s, q))
  {
    hide Counted, SwapOk, Unpin;
    InvParts(s);
    UnpinIs(s, p, mark);
  }

  // ---------------------------------------------------------------- over runs

  /** The pins that clients hold on p after one more operation; fetches that fail count for nothing. */
  ghost function NextPins(s: Pool, op: Op, io: Io, p: PageId, held: nat): nat
    requires WF(s) && Indices(s)
  {
    if op.OpFetch? && op.page == p && Fetch(s, p, op.forWrite, io).frame.Some? then held + 1
    else if op.OpUnpin? && op.page == p && held > 0 then held - 1
    else held
  }

  lemma ExecPins(s: Pool, op: Op, io: Io, p: PageId)
    requires Inv(s) && Holds(s, op)
    ensures WF(s) && Indices(s) && PinsOf(Exec(s, op, io), p) == NextPins(s, op, io, p, PinsOf(s, p))
  {
    hide Inv, WF, Fetch, Unpin, FlushFrame, FlushFrom, PinsOf;
    InvParts(s);
    match op {
      case OpFetch(q, w) => FetchPins(s, q, w, io);
      case OpWrite(q, b) => WritePins(s, q, b, p);
      case OpUnpin(q, m) => UnpinPins(s, q, m);
      case OpFlushPage(q) =>
        if q in s.pageIndex {
          FlushPins(s, s.pageIndex[q], io);
        }
      case OpFlushAll => FlushFromPins(s, 0, io);
    }
  }

  lemma WritePins(s: Pool, q: PageId, bytes: Page, p: PageId)
    requires WF(s) && Indices(s) && q in s.pageIndex && |bytes| == s.pageSize
    ensures PinsOf(ClientWrite(s, q, bytes), p) == PinsOf(s, p)
  {
  }

  ghost function Held(s: Pool, ops: seq<Op>, io: Io, p: PageId): nat
    requires Inv(s) && Playable(s, ops, io)
    decreases |ops|
  {
    if |ops| == 0 then PinsOf(s, p)
    else
      var before := Run(s, ops[..|ops| - 1], io);
      InvParts(before);
      NextPins(before, ops[|ops| - 1], io, p, Held(s, ops[..|ops| - 1], io, p))
  }

  /**
   Over every run, whatever I/O fails: a page's pin count is the number of its
   successful fetches that have not been unpinned, so two clients that fetched
   it hold two pins, and no other operation changes it.
   */
  lemma {:induction false} RunPins(s: Pool, ops: seq<Op>, io: Io, p: PageId)
    requires Inv(s) && Playable(s, ops, io)
    ensures PinsOf(Run(s, ops, io), p) == Held(s, ops, io, p)
    decreases |ops|
  {
    hide Inv, WF, Exec, PinsOf, Holds, NextPins;
    if |ops| > 0 {
      var pre := ops[..|ops| - 1];
      RunPins(s, pre, io, p);
      ExecPins(Run(s, pre, io), ops[|ops| - 1], io, p);
    }
  }

  // ---------------------------------------------------------------- the second chance

  lemma StepTurns(s: Pool, io: Io)
    requires WF(s)
    ensures var (t, more) := ScanStep(s, io);
            && s.hand < |s.meta| == |t.meta| && t.hand == (s.hand + 1) % |s.meta|
            && (forall f :: 0 <= f < |s.meta| && f != s.hand ==> t.meta[f] == s.meta[f])
            && (!more ==> s.meta[s.hand].inUse && s.meta[s.hand].pins == 0 && !s.meta[s.hand].refBit)
  {
    hide SwapOk;
  }

  /** In its first round the scan passes over every frame whose reference bit is set. */
  lemma {:induction false} SecondChance(s: Pool, steps: nat, io: Io)
    requires WF(s) && steps <= |s.meta| && s.hand < |s.meta|
    ensures var v := ClockScan(s, steps, io).1;
            v < |s.meta| ==>
              Ahead(s.hand, v, |s.meta|) < steps && s.meta[v].inUse && s.meta[v].pins == 0 && !s.meta[v].refBit
    decreases steps
  {
    hide WF, ScanStep;
    if steps > 0 {
      StepTurns(s, io);
      var (t, more) := ScanStep(s, io);
      NextHand(s.hand, |s.meta|);
      if more {
        SecondChance(t, steps - 1, io);
      }
    }
  }

  /** A longer scan takes the victim that a shorter one finds. */
  lemma {:induction false} ScanIsSettled(s: Pool, steps: nat, more: nat, io: Io)
    requires WF(s) && ClockScan(s, steps, io).1 < |s.meta|
    ensures ClockScan(s, steps + more, io) == ClockScan(s, steps, io)
    decreases steps
  {
    hide WF, ScanStep;
    if steps > 0 {
      StepTurns(s, io);
      if ScanStep(s, io).1 {
        ScanIsSettled(ScanStep(s, io).0, steps - 1, more, io);
      }
    }
  }

  /**
   If some evictable frame has a clear reference bit, the scan takes an unpinned
   frame with a clear bit that the hand reaches no later than that one.
   */
  lemma NearestClearFrameGoes(s: Pool, f: nat, io: Io)
    requires WF(s) && Evictable(s, f, io) && !s.meta[f].refBit && s.hand < |s.meta|
    ensures var v := ClockScan(s, 2 * |s.meta|, io).1;
            && v < |s.meta| && Ahead(s.hand, v, |s.meta|) <= Ahead(s.hand, f, |s.meta|)
            && s.meta[v].inUse && s.meta[v].pins == 0 && !s.meta[v].refBit
  {
    hide WF, ClockScan;
    var d := Ahead(s.hand, f, |s.meta|);
    ClockFindsVictim(s, f, d + 1, io);
    SecondChance(s, d + 1, io);
    ScanIsSettled(s, d + 1, 2 * |s.meta| - d - 1, io);
  }
}
