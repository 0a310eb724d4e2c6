/**
 Whole runs of the page pool: refinement of a plain page map, swap slots that
 are never overwritten, frames that do not move under a pin, and the exact
 condition under which the CLOCK hand finds nothing to evict.
 */
module PagePoolRuns {
  import opened Prelude
  import opened PagePoolSpec
  import opened PagePoolProofs

  datatype Op =
    | OpFetch(page: PageId, forWrite: bool)
    | OpWrite(page: PageId, bytes: Page)
    | OpUnpin(page: PageId, mark: bool)
    | OpFlushPage(page: PageId)
    | OpFlushAll

  /** A client writes only through a pointer it holds: to a page it has pinned. */
  ghost predicate Holds(s: Pool, op: Op) {
    op.OpWrite? ==>
      && op.page in s.pageIndex && s.pageIndex[op.page] < |s.meta| && s.meta[s.pageIndex[op.page]].pins > 0
      && |op.bytes| == s.pageSize
  }

  ghost function Exec(s: Pool, op: Op, io: Io): (t: Pool)
    requires Inv(s) && Holds(s, op)
    ensures Inv(t)
  {
    StepKeeps(s, Owing(s), op, io);
    Apply(s, op, io)
  }

  function Apply(s: Pool, op: Op, io: Io): (t: Pool)
    requires WF(s) && Indices(s) && Holds(s, op)
    ensures WF(t)
  {
    match op
    case OpFetch(p, w) => Fetch(s, p, w, io).pool
    case OpWrite(p, b) => ClientWrite(s, p, b)
    case OpUnpin(p, m) => Unpin(s, p, m)
    case OpFlushPage(p) => FlushPage(s, p, io).0
    case OpFlushAll => FlushFrom(s, 0, io).0
  }

  /** How one operation moves the clients' ledger. */
  function NextLedger(s: Pool, c: Ledger, op: Op): Ledger
    requires Indices(s) && Holds(s, op)
  {
    match op
    case OpWrite(p, _) =>
      Ledger(if s.meta[s.pageIndex[p]].dirty then c.unmarked - {p} else c.unmarked + {p}, c.abandoned - {p})
    case OpUnpin(p, mark) =>
      if mark then Ledger(c.unmarked - {p}, c.abandoned)
      else if p in c.unmarked && p in s.pageIndex && s.meta[s.pageIndex[p]].pins <= 1 then
        Ledger(c.unmarked, c.abandoned + {p})
      else c
    case _ => c
  }

  /** A ledger that promises nothing about resident pages; any pool is in sync with it. */
  function Owing(s: Pool): Ledger {
    Ledger(s.pageIndex.Keys, s.pageIndex.Keys)
  }

  lemma OwingSynced(s: Pool)
    requires Inv(s)
    ensures Synced(s, Owing(s))
  {
  }

  /** What one operation promises about every page that is not abandoned. */
  ghost predicate Stepped(s: Pool, t: Pool, op: Op, c: Ledger) {
    && Inv(s) && Inv(t) && SameConfig(s, t) && SlotsFrozen(s, t) && FramesStay(s, t)
    && (forall p: PageId :: p !in c.abandoned ==>
          Value(t, p) == if op.OpWrite? && op.page == p then op.bytes else Value(s, p))
  }

  ghost predicate FramesStay(s: Pool, t: Pool) {
    forall p :: p in s.pageIndex && s.pageIndex[p] < |s.meta| && s.meta[s.pageIndex[p]].pins > 0 ==>
      p in t.pageIndex && t.pageIndex[p] == s.pageIndex[p]
  }

  lemma UnpinKeeps(s: Pool, p: PageId, mark: bool, c: Ledger)
    requires Inv(s) && Synced(s, c)
    ensures var t := Unpin(s, p, mark);
            var c' := NextLedger(s, c, OpUnpin(p, mark));
            Inv(t) && Synced(t, c') && Stepped(s, t, OpUnpin(p, mark), c')
  {
    hide InUseFrames, DirtyFrames, Inv, WF, Synced, Unpin, NextLedger, Value;
    InvParts(s);
    var c' := NextLedger(s, c, OpUnpin(p, mark));
    var t := Unpin(s, p, mark);
    UnpinIs(s, p, mark);
    if p in s.pageIndex {
      var f := s.pageIndex[p];
      UnpinCounts(s, p, mark);
      EditKeeps(s, t, f, t.meta[f], c');
      UnpinSynced(s, p, mark, c);
    } else {
      LedgerUnpinned(s, p, mark, c);
    }
  }

  /** Unpinning edits one frame: its pins and its dirty bit. */
  lemma UnpinIs(s: Pool, p: PageId, mark: bool)
    requires WF(s) && Indices(s)
    ensures p !in s.pageIndex ==> Unpin(s, p, mark) == s
    ensures p in s.pageIndex ==>
              var t, f := Unpin(s, p, mark), s.pageIndex[p];
              && f < |t.meta| == |s.meta|
              && t == s.(meta := s.meta[f := t.meta[f]], dirtyCount := t.dirtyCount)
              && t.meta[f].inUse == s.meta[f].inUse && t.meta[f].pageId == s.meta[f].pageId
              && (!t.meta[f].dirty ==> !mark && !s.meta[f].dirty)
              && t.meta[f].pins == if s.meta[f].pins > 0 then s.meta[f].pins - 1 else 0
  {
    hide WF;
  }

  lemma LedgerUnpinned(s: Pool, p: PageId, mark: bool, c: Ledger)
    requires Inv(s) && Synced(s, c) && p !in s.pageIndex
    ensures Synced(s, NextLedger(s, c, OpUnpin(p, mark)))
  {
  }

  lemma UnpinCounts(s: Pool, p: PageId, mark: bool)
    requires Inv(s) && p in s.pageIndex
    ensures var t := Unpin(s, p, mark);
            InUseFrames(t.meta) == InUseFrames(s.meta) && t.dirtyCount == |DirtyFrames(t.meta)|
  {
    var f := s.pageIndex[p];
    var m := s.meta[f];
    var m1 := if m.pins > 0 then m.(pins := m.pins - 1) else m;
    if mark && !m.dirty {
      DirtiedCounts(s.meta, f, m1.(dirty := true));
    } else {
      PinCounts(s.meta, f, m1);
    }
    hide InUseFrames, DirtyFrames;
  }

  lemma UnpinSynced(s: Pool, p: PageId, mark: bool, c: Ledger)
    requires Inv(s) && Synced(s, c) && p in s.pageIndex
    ensures Synced(Unpin(s, p, mark), NextLedger(s, c, OpUnpin(p, mark)))
  {
    hide SwapOk, Backing, Unpin, Counted, IndexedExcept;
    InvParts(s);
    var t, f, c' := Unpin(s, p, mark), s.pageIndex[p], NextLedger(s, c, OpUnpin(p, mark));
    UnpinIs(s, p, mark);
    SwapUntouched(s, t);
    forall g: nat | g < |t.meta| && t.meta[g].inUse && !t.meta[g].dirty && t.meta[g].pageId !in c'.unmarked
      ensures t.arena[g] == Backing(t, t.meta[g].pageId)
    {
      FrameOfPage(s, g);
    }
    forall q: PageId | q in c'.unmarked && q !in c'.abandoned
      ensures q in t.pageIndex && t.pageIndex[q] < |t.meta| && t.meta[t.pageIndex[q]].pins > 0
    {
      PageOfFrame(s, p);
      if q in s.pageIndex {
        PageOfFrame(s, q);
      }
    }
  }

  lemma PageOfFrame(s: Pool, p: PageId)
    requires Inv(s) && p in s.pageIndex
    ensures var f := s.pageIndex[p]; f < |s.meta| && s.meta[f].inUse && s.meta[f].pageId == p
  {
  }

  lemma WriteKeeps(s: Pool, p: PageId, bytes: Page, c: Ledger)
    requires Inv(s) && Synced(s, c) && Holds(s, OpWrite(p, bytes))
    ensures var t := ClientWrite(s, p, bytes);
            var c' := NextLedger(s, c, OpWrite(p, bytes));
            Synced(t, c') && Stepped(s, t, OpWrite(p, bytes), c')
  {
    var t := ClientWrite(s, p, bytes);
    var c' := NextLedger(s, c, OpWrite(p, bytes));
    WriteSynced(s, p, bytes, c);
    assert forall q: PageId :: q != p && q in s.pageIndex ==> s.pageIndex[q] != s.pageIndex[p];
    forall q: PageId | q !in c'.abandoned
      ensures Value(t, q) == if q == p then bytes else Value(s, q)
    {
    }
    hide InUseFrames, DirtyFrames, Synced;
  }

  lemma WriteSynced(s: Pool, p: PageId, bytes: Page, c: Ledger)
    requires Inv(s) && Synced(s, c) && Holds(s, OpWrite(p, bytes))
    ensures Synced(ClientWrite(s, p, bytes), NextLedger(s, c, OpWrite(p, bytes)))
  {
    hide InUseFrames, DirtyFrames;
  }

  /** Every operation keeps the invariants, and only a client's own write changes a page. */
  lemma StepKeeps(s: Pool, c: Ledger, op: Op, io: Io)
    requires Inv(s) && Holds(s, op)
    ensures Inv(Apply(s, op, io))
    ensures Synced(s, c) ==>
              Synced(Apply(s, op, io), NextLedger(s, c, op)) && Stepped(s, Apply(s, op, io), op, NextLedger(s, c, op))
  {
    OwingSynced(s);
    StepKeepsSynced(s, Owing(s), op, io);
    if Synced(s, c) {
      StepKeepsSynced(s, c, op, io);
    }
    hide Inv, Synced, Apply, Owing;
  }

  lemma StepKeepsSynced(s: Pool, c: Ledger, op: Op, io: Io)
    requires Inv(s) && Synced(s, c) && Holds(s, op)
    ensures var t := Apply(s, op, io);
            var c' := NextLedger(s, c, op);
            Inv(t) && Synced(t, c') && Stepped(s, t, op, c')
  {
    var t := Apply(s, op, io);
    match op {
      case OpFetch(p, w) =>
        if p in s.pageIndex {
          FetchHitKeeps(s, p, w, io, c);
        } else {
          FetchMissKeeps(s, p, w, io, c);
        }
        FetchedSteps(s, Fetch(s, p, w, io), p, w, c);
      case OpWrite(p, b) =>
        WriteKeeps(s, p, b, c);
        SteppedInv(s, t, op, NextLedger(s, c, op));
      case OpUnpin(p, m) =>
        UnpinKeeps(s, p, m, c);
      case OpFlushPage(p) =>
        if p in s.pageIndex {
          FlushFrameKeeps(s, s.pageIndex[p], io, c);
        } else {
          StillSelf(s, c);
        }
        StillSteps(s, t, op, c);
      case OpFlushAll =>
        FlushFromKeeps(s, 0, io, c);
        StillSteps(s, t, op, c);
    }
    hide Inv, Synced, Still, Stepped, Fetched, Fetch, Unpin, FlushFrame, FlushFrom;
  }

  lemma SteppedInv(s: Pool, t: Pool, op: Op, c: Ledger)
    requires Stepped(s, t, op, c)
    ensures Inv(t)
  {
  }

  lemma StillSelf(s: Pool, c: Ledger)
    requires Inv(s) && Synced(s, c)
    ensures Still(s, s, c)
  {
    assert SameValues(s, s, c);
    hide Inv, Synced, SameValues;
  }

  lemma StillSteps(s: Pool, t: Pool, op: Op, c: Ledger)
    requires Still(s, t, c) && !op.OpWrite?
    ensures Inv(t) && Synced(t, c) && Stepped(s, t, op, c)
  {
    hide Inv, Synced;
  }

  lemma FetchedSteps(s: Pool, r: FetchResult, p: PageId, forWrite: bool, c: Ledger)
    requires Fetched(s, r, p, c)
    ensures Inv(r.pool) && Synced(r.pool, c) && Stepped(s, r.pool, OpFetch(p, forWrite), c)
  {
    hide Inv, Synced;
  }

  // ---------------------------------------------------------------- runs

  /** Every operation of the run is one its client may make in the state the run has then reached. */
  ghost predicate Playable(s: Pool, ops: seq<Op>, io: Io)
    requires Inv(s)
    decreases |ops|, 0
  {
    |ops| == 0 ||
    (Playable(s, ops[..|ops| - 1], io) && Holds(Run(s, ops[..|ops| - 1], io), ops[|ops| - 1]))
  }

  ghost function Run(s: Pool, ops: seq<Op>, io: Io): (t: Pool)
    requires Inv(s) && Playable(s, ops, io)
    ensures Inv(t)
    decreases |ops|, 1
  {
    if |ops| == 0 then s else Exec(Run(s, ops[..|ops| - 1], io), ops[|ops| - 1], io)
  }

  ghost function Books(s: Pool, ops: seq<Op>, io: Io): Ledger
    requires Inv(s) && Playable(s, ops, io)
    decreases |ops|
  {
    if |ops| == 0 then Ledger({}, {})
    else
      var before := Run(s, ops[..|ops| - 1], io);
      InvParts(before);
      NextLedger(before, Books(s, ops[..|ops| - 1], io), ops[|ops| - 1])
  }

  /** The specification: a page holds the last bytes written to it, or zeros. */
  function LastWritten(ops: seq<Op>, p: PageId, pageSize: nat): Page
    decreases |ops|
  {
    if |ops| == 0 then Zeros(pageSize)
    else
      var op := ops[|ops| - 1];
      if op.OpWrite? && op.page == p then op.bytes else LastWritten(ops[..|ops| - 1], p, pageSize)
  }

  ghost predicate Matches(s: Pool, ops: seq<Op>, c: Ledger, pageSize: nat) {
    && Inv(s) && Synced(s, c) && s.pageSize == pageSize
    && (forall p: PageId :: p !in c.abandoned ==> Value(s, p) == LastWritten(ops, p, pageSize))
  }

  lemma CreatedMatches(pageSize: nat, capacityBytes: nat, swapOpen: bool)
    requires 0 < pageSize <= capacityBytes
    ensures var s := Create(pageSize, capacityBytes, swapOpen).value;
            Matches(s, [], Ledger({}, {}), pageSize) && Budgeted(s)
  {
    var s := Create(pageSize, capacityBytes, swapOpen).value;
    QuotientPositive(capacityBytes, pageSize);
    assert InUseFrames(s.meta) == {};
    assert DirtyFrames(s.meta) == {};
  }

  lemma QuotientPositive(a: nat, b: nat)
    requires 0 < b <= a
    ensures a / b >= 1
  {
  }

  lemma MatchesStep(s: Pool, ops: seq<Op>, c: Ledger, pageSize: nat, op: Op, t: Pool, c': Ledger)
    requires Matches(s, ops, c, pageSize)
    requires WF(t) && Synced(t, c') && Stepped(s, t, op, c')
    requires forall p :: p in c.abandoned && !(op.OpWrite? && op.page == p) ==> p in c'.abandoned
    ensures Matches(t, ops + [op], c', pageSize)
  {
    assert (ops + [op])[..|ops|] == ops;
    forall p: PageId | p !in c'.abandoned
      ensures Value(t, p) == LastWritten(ops + [op], p, pageSize)
    {
    }
    hide Inv, Synced;
  }

  lemma {:induction false} RunMatches(s: Pool, ops: seq<Op>, io: Io, pageSize: nat)
    requires Inv(s) && Matches(s, [], Ledger({}, {}), pageSize) && Playable(s, ops, io)
    ensures Matches(Run(s, ops, io), ops, Books(s, ops, io), pageSize)
    decreases |ops|
  {
    hide Inv, WF, Synced, Matches, Stepped, Holds, NextLedger, Apply, Indices;
    if |ops| == 0 {
      assert ops == [];
    } else {
      var pre, op := ops[..|ops| - 1], ops[|ops| - 1];
      RunMatches(s, pre, io, pageSize);
      ExecMatches(Run(s, pre, io), pre, Books(s, pre, io), pageSize, op, io);
      assert pre + [op] == ops;
    }
  }

  lemma ExecMatches(s: Pool, ops: seq<Op>, c: Ledger, pageSize: nat, op: Op, io: Io)
    requires Inv(s) && Matches(s, ops, c, pageSize) && Holds(s, op)
    ensures Indices(s) && Matches(Exec(s, op, io), ops + [op], NextLedger(s, c, op), pageSize)
  {
    hide Inv, Synced, Matches, Stepped, Apply, Indices, WF;
    InvParts(s);
    MatchesSynced(s, ops, c, pageSize);
    StepKeeps(s, c, op, io);
    MatchesStep(s, ops, c, pageSize, op, Exec(s, op, io), NextLedger(s, c, op));
  }

  /**
   REFINEMENT.  Over every run of fetches, client writes, unpins and flushes,
   for every pattern of failed I/O, each page that no client abandoned has as
   its logical value the last bytes written to it.
   */
  lemma RunRefinesPageMap(pageSize: nat, capacityBytes: nat, swapOpen: bool, ops: seq<Op>, io: Io)
    requires 0 < pageSize <= capacityBytes
    ensures var s := Create(pageSize, capacityBytes, swapOpen).value;
            Inv(s) && (Playable(s, ops, io) ==> Matches(Run(s, ops, io), ops, Books(s, ops, io), pageSize))
  {
    var s := Create(pageSize, capacityBytes, swapOpen).value;
    hide Inv, Matches, Create, Playable;
    CreatedMatches(pageSize, capacityBytes, swapOpen);
    MatchesSynced(s, [], Ledger({}, {}), pageSize);
    if Playable(s, ops, io) {
      RunMatches(s, ops, io, pageSize);
    }
  }

  lemma MatchesSynced(s: Pool, ops: seq<Op>, c: Ledger, pageSize: nat)
    requires Matches(s, ops, c, pageSize)
    ensures Inv(s) && WF(s) && Indices(s) && Synced(s, c)
  {
  }

  /**
   A successful fetch at any point of any run returns a pinned frame holding
   the last bytes written to that page; a failed one changes no page.
   */
  lemma FetchReturnsLastWritten(s: Pool, ops: seq<Op>, c: Ledger, pageSize: nat, p: PageId, forWrite: bool, io: Io)
    requires Matches(s, ops, c, pageSize) && p !in c.abandoned
    ensures WF(s) && Indices(s)
    ensures var r := Fetch(s, p, forWrite, io);
            && (r.frame.Some? ==>
                  && r.frame.value < |r.pool.arena| == |r.pool.meta|
                  && r.pool.arena[r.frame.value] == LastWritten(ops, p, pageSize)
                  && r.pool.meta[r.frame.value].pins > 0
                  && (r.isNew ==> LastWritten(ops, p, pageSize) == Zeros(pageSize)))
            && Matches(r.pool, ops, c, pageSize)
  {
    var r := Fetch(s, p, forWrite, io);
    if p in s.pageIndex {
      FetchHitKeeps(s, p, forWrite, io, c);
    } else {
      FetchMissKeeps(s, p, forWrite, io, c);
    }
    FetchedMatches(s, r, ops, c, pageSize, p);
    hide Inv, Synced, Fetched, Matches, Fetch;
  }

  lemma FetchedMatches(s: Pool, r: FetchResult, ops: seq<Op>, c: Ledger, pageSize: nat, p: PageId)
    requires Matches(s, ops, c, pageSize) && Fetched(s, r, p, c) && p !in c.abandoned
    ensures WF(s) && Indices(s) && Matches(r.pool, ops, c, pageSize)
    ensures r.frame.Some? ==>
              && r.frame.value < |r.pool.arena| == |r.pool.meta|
              && r.pool.arena[r.frame.value] == LastWritten(ops, p, pageSize)
              && r.pool.meta[r.frame.value].pins > 0
              && (r.isNew ==> LastWritten(ops, p, pageSize) == Zeros(pageSize))
  {
    assert Value(s, p) == LastWritten(ops, p, pageSize);
    hide Synced, InUseFrames, DirtyFrames;
  }

  /** A client that marks every change before dropping its last pin abandons nothing. */
  ghost predicate Marks(s: Pool, c: Ledger, op: Op)
    requires Indices(s)
  {
    op.OpUnpin? && op.page in c.unmarked && op.page in s.pageIndex && s.meta[s.pageIndex[op.page]].pins <= 1 ==> op.mark
  }

  ghost predicate Disciplined(s: Pool, ops: seq<Op>, io: Io)
    requires Inv(s) && Playable(s, ops, io)
    decreases |ops|
  {
    |ops| == 0 ||
    (var pre := ops[..|ops| - 1];
     InvParts(Run(s, pre, io));
     Disciplined(s, pre, io) && Marks(Run(s, pre, io), Books(s, pre, io), ops[|ops| - 1]))
  }

  /** If every last unpin of a changed page carries the dirty mark, the run abandons nothing. */
  lemma {:induction false} DisciplineAbandonsNothing(s: Pool, ops: seq<Op>, io: Io)
    requires Inv(s) && Playable(s, ops, io) && Disciplined(s, ops, io)
    ensures Books(s, ops, io).abandoned == {}
    decreases |ops|
  {
    if |ops| > 0 {
      DisciplineAbandonsNothing(s, ops[..|ops| - 1], io);
      InvParts(Run(s, ops[..|ops| - 1], io));
    }
    hide Inv;
  }

  /** Swap is append-only over whole runs: a slot once written is never changed, so no failed write can damage a copy. */
  lemma {:induction false} RunFreezesSlots(s: Pool, ops: seq<Op>, io: Io)
    requires Inv(s) && Playable(s, ops, io)
    ensures SlotsFrozen(s, Run(s, ops, io))
    decreases |ops|
  {
    if |ops| > 0 {
      var pre := ops[..|ops| - 1];
      var b := Run(s, pre, io);
      RunFreezesSlots(s, pre, io);
      ExecSteps(b, ops[|ops| - 1], io);
    }
    hide Inv, Exec, Holds;
  }

  lemma ExecSteps(s: Pool, op: Op, io: Io)
    requires Inv(s) && Holds(s, op)
    ensures SlotsFrozen(s, Exec(s, op, io)) && FramesStay(s, Exec(s, op, io)) && SameConfig(s, Exec(s, op, io))
  {
    OwingSynced(s);
    StepKeeps(s, Owing(s), op, io);
    hide Inv, Synced, Apply, Holds;
  }

  ghost predicate Pinned(s: Pool, p: PageId) {
    p in s.pageIndex && s.pageIndex[p] < |s.meta| && s.meta[s.pageIndex[p]].pins > 0
  }

  ghost predicate PinnedThroughout(s: Pool, ops: seq<Op>, io: Io, p: PageId)
    requires Inv(s) && Playable(s, ops, io)
    decreases |ops|
  {
    Pinned(Run(s, ops, io), p) && (|ops| == 0 || PinnedThroughout(s, ops[..|ops| - 1], io, p))
  }

  /** While a page stays pinned, its frame, and so the client's pointer, does not move. */
  lemma {:induction false} PinnedPageKeepsFrame(s: Pool, ops: seq<Op>, io: Io, p: PageId)
    requires Inv(s) && Playable(s, ops, io) && PinnedThroughout(s, ops, io, p)
    ensures p in s.pageIndex && Run(s, ops, io).pageIndex[p] == s.pageIndex[p]
    decreases |ops|
  {
    if |ops| > 0 {
      var pre := ops[..|ops| - 1];
      PinnedPageKeepsFrame(s, pre, io, p);
      assert Pinned(Run(s, pre, io), p);
      ExecSteps(Run(s, pre, io), ops[|ops| - 1], io);
    }
    hide Inv, Exec, Holds;
  }

  /** Resident pages never exceed the memory budget, and the statistics are exact counts. */
  lemma ResidentWithinBudget(s: Pool)
    requires Inv(s) && Budgeted(s)
    ensures s.resident == |s.pageIndex|
    ensures s.resident * s.pageSize <= s.capacityBytes
  {
    assert InUseFrames(s.meta) <= Below(|s.meta|);
    SubsetSize(InUseFrames(s.meta), Below(|s.meta|));
    assert Image(s.pageIndex) == InUseFrames(s.meta) by {
      forall f | f in InUseFrames(s.meta) ensures f in Image(s.pageIndex) {
        assert s.meta[f].pageId in s.pageIndex;
      }
    }
    ImageSize(s.pageIndex);
    BudgetArithmetic(s.resident, |s.meta|, s.pageSize, s.capacityBytes);
  }

  lemma SubsetSize<T>(a: set<T>, b: set<T>)
    requires a <= b
    ensures |a| <= |b|
  {
    assert b == a + (b - a);
  }

  lemma BudgetArithmetic(r: nat, n: nat, size: nat, cap: nat)
    requires size > 0 && n == cap / size && r <= n
    ensures r * size <= cap
  {
    assert n * size <= cap;
    assert r * size <= n * size;
  }

  function Image(m: map<PageId, nat>): set<nat> {
    set p | p in m :: m[p]
  }

  lemma {:induction false} ImageSize(m: map<PageId, nat>)
    requires forall p, q :: p in m && q in m && m[p] == m[q] ==> p == q
    ensures |Image(m)| == |m|
    decreases |m|
  {
    if |m| > 0 {
      var k :| k in m;
      var rest := m - {k};
      assert m.Keys == rest.Keys + {k};
      ImageSize(rest);
      assert Image(m) == Image(rest) + {m[k]} by {
        forall p | p in m ensures m[p] in Image(rest) + {m[k]} {
          assert p == k || rest[p] in Image(rest);
        }
      }
      assert m[k] !in Image(rest);
    }
  }

  // ---------------------------------------------------------------- CLOCK completeness

  /** An unpinned frame that is clean, or whose page can be written out. */
  ghost predicate Evictable(s: Pool, f: nat, io: Io) {
    && f < |s.meta| && s.meta[f].inUse && s.meta[f].pins == 0
    && (!s.meta[f].dirty || (s.swapOpen && forall t: nat :: io.write(t, s.meta[f].pageId) >= s.pageSize))
  }

  /** How many moves of the hand reach frame f. */
  function Ahead(hand: nat, f: nat, n: nat): (d: int)
    requires hand < n && f < n
    ensures 0 <= d < n
  {
    if hand <= f then f - hand else f + n - hand
  }

  lemma NextHand(h: nat, n: nat)
    requires h < n
    ensures (h + 1) % n == if h + 1 == n then 0 else h + 1
  {
    if h + 1 < n {
      assert (h + 1) % n == h + 1;
    }
  }

  /** A step that goes on leaves an evictable frame as it was, except for clearing its ref bit when the hand is on it. */
  lemma ScanStepSpares(s: Pool, f: nat, io: Io)
    requires WF(s) && Evictable(s, f, io) && ScanStep(s, io).1
    ensures var t := ScanStep(s, io).0;
            && Evictable(t, f, io)
            && t.hand == (s.hand + 1) % |s.meta|
            && (s.hand == f ==> s.meta[f].refBit && !t.meta[f].refBit)
            && (s.hand != f ==> t.meta[f].refBit == s.meta[f].refBit)
  {
    hide SwapOk;
  }

  /**
   CLOCK completeness: from any hand position and any reference bits, 2n moves
   find a victim whenever some frame is evictable, however many flushes of
   other frames fail on the way.
   */
  lemma {:induction false} ClockFindsVictim(s: Pool, f: nat, steps: nat, io: Io)
    requires WF(s) && Evictable(s, f, io)
    requires steps > Ahead(s.hand, f, |s.meta|) + (if s.meta[f].refBit then |s.meta| else 0)
    ensures ClockScan(s, steps, io).1 < |s.meta|
    decreases steps
  {
    var (t, more) := ScanStep(s, io);
    if more {
      ScanStepSpares(s, f, io);
      NextHand(s.hand, |s.meta|);
      hide WF, ScanStep;
      ClockFindsVictim(t, f, steps - 1, io);
    }
  }

  lemma ClockFindsVictimInTwoRounds(s: Pool, f: nat, io: Io)
    requires WF(s) && Evictable(s, f, io)
    ensures ClockScan(s, 2 * |s.meta|, io).1 < |s.meta|
  {
    ClockFindsVictim(s, f, 2 * |s.meta|, io);
  }

  /** A frame CLOCK can never take: pinned, or dirty with nowhere to go. */
  ghost predicate Stuck(s: Pool, f: nat)
    requires f < |s.meta|
  {
    s.meta[f].inUse && (s.meta[f].pins > 0 || (s.meta[f].dirty && !s.swapOpen))
  }

  ghost predicate AllStuck(s: Pool) {
    forall f :: 0 <= f < |s.meta| ==> Stuck(s, f)
  }

  lemma {:induction false} ClockFindsNothing(s: Pool, steps: nat, io: Io)
    requires WF(s) && AllStuck(s)
    ensures ClockScan(s, steps, io).1 == |s.meta|
    decreases steps
  {
    if steps > 0 {
      var (t, more) := ScanStep(s, io);
      assert Stuck(s, s.hand);
      forall f | 0 <= f < |t.meta| ensures Stuck(t, f) {
        assert Stuck(s, f);
      }
      ClockFindsNothing(t, steps - 1, io);
    }
  }

  ghost predicate Reliable(io: Io, pageSize: nat) {
    forall t: nat, p: PageId :: io.write(t, p) >= pageSize && io.read(t, p) >= pageSize
  }

  /**
   A miss fails if and only if every frame is stuck.  Without swap that says:
   every frame is in use and pinned or dirty; with working swap: every frame
   is in use and pinned.
   */
  lemma MissFailsIffAllStuck(s: Pool, p: PageId, forWrite: bool, io: Io)
    requires Inv(s) && p !in s.pageIndex
    requires s.swapOpen ==> Reliable(io, s.pageSize)
    ensures Indices(s)
    ensures Fetch(s, p, forWrite, io).frame.None? <==> AllStuck(s)
  {
    hide Inv, WF, ClockScan, Publish, Load, AllStuck;
    InvParts(s);
    var i := FirstFree(s.meta, 0);
    if i < |s.meta| {
      FreeIsNotStuck(s, i);
      LoadSucceeds(s.(meta := s.meta[i := Claimed(p)], resident := s.resident + 1), s, i, p, io);
    } else if AllStuck(s) {
      ClockFindsNothing(s, 2 * |s.meta|, io);
    } else {
      VictimExists(s, io);
      var (t, v) := ClockScan(s, 2 * |s.meta|, io);
      ScanKeepsSwap(s, 2 * |s.meta|, io);
      LoadSucceeds(t.(meta := t.meta[v := Claimed(p)]), t, v, p, io);
    }
  }

  lemma FreeIsNotStuck(s: Pool, i: nat)
    requires i < |s.meta| && !s.meta[i].inUse
    ensures !AllStuck(s)
  {
    assert !Stuck(s, i);
  }

  lemma VictimExists(s: Pool, io: Io)
    requires Inv(s) && !AllStuck(s) && FirstFree(s.meta, 0) == |s.meta|
    requires s.swapOpen ==> Reliable(io, s.pageSize)
    ensures WF(s) && ClockScan(s, 2 * |s.meta|, io).1 < |s.meta|
  {
    hide Inv, WF, ClockScan;
    InvParts(s);
    var f :| 0 <= f < |s.meta| && !Stuck(s, f);
    ClockFindsVictimInTwoRounds(s, f, io);
  }

  lemma LoadSucceeds(t: Pool, s: Pool, f: nat, p: PageId, io: Io)
    requires WF(s) && f < |s.meta| && t == s.(meta := s.meta[f := Claimed(p)], resident := t.resident)
    requires s.swapOpen ==> Reliable(io, s.pageSize)
    ensures WF(t) && Load(t, f, p, io).1 == f
  {
  }

  lemma {:induction false} ScanKeepsSwap(s: Pool, steps: nat, io: Io)
    requires WF(s)
    ensures var t := ClockScan(s, steps, io).0; t.swapOpen == s.swapOpen && t.pageSize == s.pageSize
    decreases steps
  {
    hide WF, ScanStep;
    if steps > 0 {
      var (t, more) := ScanStep(s, io);
      ScanStepKeepsSwap(s, io);
      if more {
        ScanKeepsSwap(t, steps - 1, io);
      }
    }
  }

  lemma ScanStepKeepsSwap(s: Pool, io: Io)
    requires WF(s)
    ensures var t := ScanStep(s, io).0; t.swapOpen == s.swapOpen && t.pageSize == s.pageSize
  {
  }
}
