/**
 The page pool as the program runs it: an object whose fields are updated in
 place.  Each method computes exactly the corresponding function on states.  The
 object remembers, for specification only, what its clients have done; Valid()
 says that every page they have not abandoned holds the last bytes written to it.
 */
module PagePool {
  import opened Prelude
  import opened PagePoolSpec
  import opened PagePoolProofs
  import opened PagePoolRuns
  import opened PagePoolPins
  import opened PagePoolReports

  class Pages {
    const pageSize: nat
    const capacityBytes: nat
    const swapOpen: bool
    var meta: seq<PageMeta>
    var arena: seq<Page>
    var pageIndex: map<PageId, nat>
    var swapped: map<PageId, nat>
    var freeSlots: seq<nat>
    var nextSlot: nat
    var disk: map<nat, Page>
    var resident: nat
    var dirtyCount: nat
    var hand: nat
    var ioCalls: nat
    ghost var history: seq<Op>
    ghost var ledger: Ledger

    ghost function State(): Pool
      reads this
    {
      Pool(pageSize, capacityBytes, swapOpen, meta, arena, pageIndex, swapped, freeSlots, nextSlot, disk,
           resident, dirtyCount, hand, ioCalls)
    }

    ghost predicate Valid()
      reads this
    {
      Matches(State(), history, ledger, pageSize) && Budgeted(State())
    }

    /** The history has grown by op, and the ledger with it. */
    twostate predicate Recorded(op: Op)
      reads this
    {
      && old(Indices(State()) && Holds(State(), op))
      && history == old(history) + [op] && ledger == old(NextLedger(State(), ledger, op))
    }

    constructor (pageSize: nat, capacityBytes: nat, swapOpen: bool)
      requires 0 < pageSize <= capacityBytes
      ensures Valid() && history == [] && ledger == Ledger({}, {})
      ensures Create(pageSize, capacityBytes, swapOpen) == Some(State())
    {
      this.pageSize, this.capacityBytes, this.swapOpen := pageSize, capacityBytes, swapOpen;
      meta := Repeat(PageMeta(0, 0, false, false, false), capacityBytes / pageSize);
      arena := Repeat(Zeros(pageSize), capacityBytes / pageSize);
      pageIndex, swapped, freeSlots, nextSlot, disk := map[], map[], [], 0, map[];
      resident, dirtyCount, hand, ioCalls := 0, 0, 0, 0;
      history, ledger := [], Ledger({}, {});
      new;
      CreatedMatches(pageSize, capacityBytes, swapOpen);
    }

    /** Refused options yield no pool. */
    static method Make(pageSize: nat, capacityBytes: nat, swapOpen: bool) returns (pool: Pages?)
      ensures pool == null <==> Create(pageSize, capacityBytes, swapOpen).None?
      ensures pool != null ==> fresh(pool) && pool.Valid() && Create(pageSize, capacityBytes, swapOpen) == Some(pool.State())
    {
      if pageSize == 0 || capacityBytes < pageSize {
        return null;
      }
      pool := new Pages(pageSize, capacityBytes, swapOpen);
    }

    method WritePageToSwap(frame: nat, pageId: PageId, io: Io) returns (ok: bool)
      requires WF(State()) && frame < |meta|
      modifies this
      ensures WriteToSwap(old(State()), frame, pageId, io) == (State(), ok)
    {
      if !swapOpen {
        return false;
      }
      var slot;
      if |freeSlots| > 0 {
        slot := freeSlots[|freeSlots| - 1];
        freeSlots := freeSlots[..|freeSlots| - 1];
      } else {
        slot := nextSlot;
        nextSlot := nextSlot + 1;
      }
      var n := Min(io.write(ioCalls, pageId), pageSize);
      disk := disk[slot := arena[frame][..n]];
      ioCalls := ioCalls + 1;
      if n != pageSize {
        return false;
      }
      swapped := swapped[pageId := slot];
      return true;
    }

    method ReadPageFromSwap(frame: nat, pageId: PageId, io: Io) returns (ok: bool)
      requires WF(State()) && frame < |meta|
      modifies this
      ensures ReadFromSwap(old(State()), frame, pageId, io) == (State(), ok)
    {
      if pageId !in swapped {
        arena := arena[frame := Zeros(pageSize)];
        return true;
      }
      var n := Min(io.read(ioCalls, pageId), pageSize);
      arena := arena[frame := disk[swapped[pageId]][..n] + arena[frame][n..]];
      ioCalls := ioCalls + 1;
      return n == pageSize;
    }

    method FlushOne(frame: nat, io: Io) returns (ok: bool)
      requires WF(State()) && frame < |meta|
      modifies this
      ensures FlushFrame(old(State()), frame, io) == (State(), ok)
    {
      if !meta[frame].inUse || !meta[frame].dirty {
        return true;
      }
      if !swapOpen {
        return false;
      }
      ok := WritePageToSwap(frame, meta[frame].pageId, io);
      if !ok {
        return false;
      }
      meta := meta[frame := meta[frame].(dirty := false)];
      if dirtyCount > 0 {
        dirtyCount := dirtyCount - 1;
      }
    }

    method FlushEach(io: Io) returns (ok: bool)
      requires WF(State())
      modifies this
      ensures FlushFrom(old(State()), 0, io) == (State(), ok)
    {
      hide WF, FlushFrame;
      ok := true;
      var i := 0;
      while i < |meta|
        invariant WF(State()) && i <= |meta| == |old(meta)|
        invariant FlushFrom(old(State()), 0, io) ==
                  (FlushFrom(State(), i, io).0, ok && FlushFrom(State(), i, io).1)
      {
        var one := FlushOne(i, io);
        if !one {
          ok := false;
        }
        i := i + 1;
      }
    }

    /** One move of the CLOCK hand; true if the frame it pointed at was evicted. */
    method Sweep(io: Io) returns (evicted: bool)
      requires WF(State())
      modifies this
      ensures ScanStep(old(State()), io) == (State(), !evicted)
    {
      var idx := hand;
      hand := (hand + 1) % |meta|;
      if !meta[idx].inUse || meta[idx].pins != 0 {
        return false;
      }
      if meta[idx].refBit {
        meta := meta[idx := meta[idx].(refBit := false)];
        return false;
      }
      if meta[idx].dirty {
        var ok := FlushOne(idx, io);
        if !ok {
          return false;
        }
      }
      pageIndex := pageIndex - {meta[idx].pageId};
      return true;
    }

    method BringIn(frame: nat, pageId: PageId, io: Io) returns (r: nat)
      requires WF(State()) && frame < |meta|
      modifies this
      ensures Load(old(State()), frame, pageId, io) == (State(), r)
    {
      var ok := ReadPageFromSwap(frame, pageId, io);
      if !ok {
        meta := meta[frame := meta[frame].(inUse := false)];
        if resident > 0 {
          resident := resident - 1;
        }
        return |meta|;
      }
      return frame;
    }

    method AllocateFrameForPage(pageId: PageId, io: Io) returns (frame: nat)
      requires WF(State())
      modifies this
      ensures Allocate(old(State()), pageId, io) == (State(), frame)
    {
      hide WF, ScanStep, Load;
      var i := 0;
      while i < |meta|
        invariant i <= |meta| && State() == old(State())
        invariant FirstFree(meta, 0) == FirstFree(meta, i)
      {
        if !meta[i].inUse {
          ClaimWF(State(), i, pageId, resident + 1);
          meta := meta[i := Claimed(pageId)];
          resident := resident + 1;
          frame := BringIn(i, pageId, io);
          return;
        }
        i := i + 1;
      }
      var n := |meta|;
      var pass := 0;
      while pass < 2 * n
        invariant pass <= 2 * n && |meta| == n && WF(State())
        invariant ClockScan(old(State()), 2 * n, io) == ClockScan(State(), 2 * n - pass, io)
      {
        WFShape(State());
        var idx := hand;
        var evicted := Sweep(io);
        if evicted {
          ClaimWF(State(), idx, pageId, resident);
          meta := meta[idx := Claimed(pageId)];
          frame := BringIn(idx, pageId, io);
          return;
        }
        pass := pass + 1;
      }
      return |meta|;
    }

    /**
     Pins a page; yields its frame, or None when no frame can be had.  The frame
     holds the last bytes written to the page, unless a client abandoned it.
     */
    method FetchPage(pageId: PageId, forWrite: bool, io: Io) returns (frame: Option<nat>, isNew: bool)
      requires Valid()
      modifies this
      ensures Valid() && Recorded(OpFetch(pageId, forWrite))
      ensures Fetch(old(State()), pageId, forWrite, io) == FetchResult(State(), frame, isNew)
      ensures frame.Some? && pageId !in old(ledger).abandoned ==>
                && frame.value < |arena| == |meta| && meta[frame.value].pins > 0
                && arena[frame.value] == LastWritten(old(history), pageId, pageSize)
                && (isNew ==> LastWritten(old(history), pageId, pageSize) == Zeros(pageSize))
      ensures isNew <==> frame.Some? && pageId !in old(pageIndex) && pageId !in old(swapped)
      ensures frame.Some? ==> Handed(old(State()), State(), frame.value, pageId, forWrite)
      ensures frame.Some? && forWrite && pageId !in old(pageIndex) ==>
                forall bytes: Page, steps: nat, later: Io :: |bytes| == pageSize ==> Survives(State(), pageId, bytes, steps, later)
    {
      hide Matches, Inv, WF, Budgeted, Fetch, NextLedger, Handed, Survives, SameCopy;
      ghost var op := OpFetch(pageId, forWrite);
      StepValid(State(), history, ledger, pageSize, op, io);
      FetchTells(State(), pageId, forWrite, io);
      if forWrite && pageId !in pageIndex {
        forall bytes: Page, steps: nat, later: Io | |bytes| == pageSize
          ensures var r := Fetch(State(), pageId, true, io); r.frame.Some? ==> Survives(r.pool, pageId, bytes, steps, later)
        {
          WriterKeepsChange(State(), pageId, io, bytes, steps, later);
        }
      }
      if pageId !in ledger.abandoned {
        FetchReturnsLastWritten(State(), history, ledger, pageSize, pageId, forWrite, io);
      }
      frame, isNew := PinFrame(pageId, forWrite, io);
      history, ledger := old(history) + [op], old(NextLedger(State(), ledger, op));
    }

    /** The code of FetchPage: a hit pins the frame, a miss allocates, indexes and pins one. */
    method PinFrame(pageId: PageId, forWrite: bool, io: Io) returns (frame: Option<nat>, isNew: bool)
      requires WF(State()) && Indices(State())
      modifies this
      ensures Fetch(old(State()), pageId, forWrite, io) == FetchResult(State(), frame, isNew)
    {
      hide WF, Allocate;
      if pageId in pageIndex {
        var f := pageIndex[pageId];
        meta := meta[f := meta[f].(pins := meta[f].pins + 1, refBit := true)];
        frame, isNew := Some(f), false;
      } else {
        var f := AllocateFrameForPage(pageId, io);
        if f == |meta| {
          frame, isNew := None, false;
        } else {
          pageIndex := pageIndex[pageId := f];
          var m := meta[f].(pins := 1, refBit := true);
          if forWrite {
            m := m.(dirty := true);
            dirtyCount := dirtyCount + 1;
          }
          meta := meta[f := m];
          frame, isNew := Some(f), pageId !in swapped;
        }
      }
    }

    method UnpinPage(pageId: PageId, mark: bool)
      requires Valid()
      modifies this
      ensures Valid() && Recorded(OpUnpin(pageId, mark))
      ensures State() == Unpin(old(State()), pageId, mark)
      ensures PinsOf(State(), pageId) == (if old(PinsOf(State(), pageId)) > 0 then old(PinsOf(State(), pageId)) - 1 else 0)
      ensures mark && pageId in pageIndex ==> pageIndex[pageId] < |meta| && meta[pageIndex[pageId]].dirty
    {
      hide Matches, Inv, WF, Budgeted, NextLedger, Unpin, PinsOf;
      ghost var op, io := OpUnpin(pageId, mark), Io((t, p) => 0, (t, p) => 0);
      StepValid(State(), history, ledger, pageSize, op, io);
      UnpinTells(State(), history, ledger, pageSize, pageId, mark);
      DropPin(pageId, mark);
      history, ledger := old(history) + [op], old(NextLedger(State(), ledger, op));
    }

    /** The code of UnpinPage. */
    method DropPin(pageId: PageId, mark: bool)
      requires WF(State()) && Indices(State())
      modifies `meta, `dirtyCount
      ensures State() == Unpin(old(State()), pageId, mark)
    {
      hide WF;
      if pageId in pageIndex {
        var f := pageIndex[pageId];
        var m := meta[f];
        if m.pins > 0 {
          m := m.(pins := m.pins - 1);
        }
        if mark {
          if !m.dirty {
            m := m.(dirty := true);
            dirtyCount := dirtyCount + 1;
          }
        }
        meta := meta[f := m];
      }
    }

    method FlushOnePage(pageId: PageId, io: Io) returns (ok: bool)
      requires Valid()
      modifies this
      ensures Valid() && Recorded(OpFlushPage(pageId))
      ensures FlushPage(old(State()), pageId, io) == (State(), ok)
      ensures ok <==> old(pageId !in pageIndex || !meta[pageIndex[pageId]].dirty ||
                          (swapOpen && io.write(ioCalls, pageId) >= pageSize))
      ensures ok && pageId in pageIndex ==>
                && !meta[pageIndex[pageId]].dirty
                && (old(meta[pageIndex[pageId]].dirty) ==> Backing(State(), pageId) == arena[pageIndex[pageId]])
    {
      hide Matches, Inv, WF, Budgeted, FlushFrame, Backing;
      ghost var op := OpFlushPage(pageId);
      StepValid(State(), history, ledger, pageSize, op, io);
      FlushPageTells(State(), pageId, io);
      ok := true;
      if pageId in pageIndex {
        ok := FlushOne(pageIndex[pageId], io);
      }
      history, ledger := old(history) + [op], old(NextLedger(State(), ledger, op));
    }

    method FlushAll(io: Io) returns (ok: bool)
      requires Valid()
      modifies this
      ensures Valid() && Recorded(OpFlushAll)
      ensures FlushFrom(old(State()), 0, io) == (State(), ok)
      ensures ok <==> forall f: nat :: DirtyAt(old(State()), f) ==> SweepWrites(old(State()), 0, f, io)
      ensures ok ==> forall f: nat :: !DirtyAt(State(), f)
    {
      hide Matches, Inv, WF, Budgeted, FlushFrom, DirtyAt, SweepWrites;
      ghost var op := OpFlushAll;
      StepValid(State(), history, ledger, pageSize, op, io);
      FlushAllTells(State(), io);
      ok := FlushEach(io);
      history, ledger := old(history) + [op], old(NextLedger(State(), ledger, op));
    }

    /** The client stores through the pointer that FetchPage returned. */
    method Store(pageId: PageId, bytes: Page)
      requires Valid() && Holds(State(), OpWrite(pageId, bytes))
      modifies this
      ensures Valid() && Recorded(OpWrite(pageId, bytes))
      ensures old(Indices(State())) && State() == ClientWrite(old(State()), pageId, bytes)
      ensures pageId !in ledger.abandoned
    {
      hide Matches, Inv, WF, Budgeted;
      ghost var op, io := OpWrite(pageId, bytes), Io((t, p) => 0, (t, p) => 0);
      StepValid(State(), history, ledger, pageSize, op, io);
      arena := arena[pageIndex[pageId] := bytes];
      history, ledger := old(history) + [op], old(NextLedger(State(), ledger, op));
    }
  }

  lemma StepValid(s: Pool, ops: seq<Op>, c: Ledger, pageSize: nat, op: Op, io: Io)
    requires Matches(s, ops, c, pageSize) && Budgeted(s) && Holds(s, op)
    ensures Inv(s) && WF(s) && Indices(s) && s.hand < |s.meta| == |s.arena|
    ensures Matches(Apply(s, op, io), ops + [op], NextLedger(s, c, op), pageSize) && Budgeted(Apply(s, op, io))
  {
    hide Matches, Inv, WF, Synced, Stepped, Apply, Holds, Indices;
    MatchesSynced(s, ops, c, pageSize);
    WFShape(s);
    ExecMatches(s, ops, c, pageSize, op, io);
    StepKeeps(s, Owing(s), op, io);
    OwingSynced(s);
    SteppedConfig(s, Apply(s, op, io), op, NextLedger(s, Owing(s), op));
  }

  lemma UnpinTells(s: Pool, ops: seq<Op>, c: Ledger, pageSize: nat, p: PageId, mark: bool)
    requires Matches(s, ops, c, pageSize)
    ensures WF(s) && Indices(s)
    ensures var t := Unpin(s, p, mark);
            && PinsOf(t, p) == (if PinsOf(s, p) > 0 then PinsOf(s, p) - 1 else 0)
            && (mark && p in t.pageIndex ==> t.pageIndex[p] < |t.meta| && t.meta[t.pageIndex[p]].dirty)
  {
    hide Matches, Inv, WF, Unpin, PinsOf;
    MatchesSynced(s, ops, c, pageSize);
    UnpinPins(s, p, mark);
    UnpinIs(s, p, mark);
  }

  lemma SteppedConfig(s: Pool, t: Pool, op: Op, c: Ledger)
    requires Stepped(s, t, op, c)
    ensures SameConfig(s, t)
  {
  }
}
