/**
 The page pool as a transition system over values: a fixed set of frames with
 pins, dirty bits and CLOCK reference bits, backed by an append-only swap file.

 Every pwrite/pread is answered by an arbitrary `Io` oracle that says how many
 bytes were transferred, so a lemma quantified over `io` holds for every
 pattern of short and failed transfers.
 */
module PagePoolSpec {
  import opened Prelude

  type PageId = nat
  type Page = seq<Byte>

  datatype PageMeta = PageMeta(pageId: PageId, pins: nat, dirty: bool, refBit: bool, inUse: bool)

  /** Bytes transferred by the t-th I/O call, made on behalf of a page; fewer than a page means failure. */
  datatype Io = Io(write: (nat, PageId) -> nat, read: (nat, PageId) -> nat)

  datatype Pool = Pool(
    pageSize: nat,
    capacityBytes: nat,
    swapOpen: bool,
    meta: seq<PageMeta>,
    arena: seq<Page>,
    pageIndex: map<PageId, nat>,
    swapped: map<PageId, nat>,
    freeSlots: seq<nat>,
    nextSlot: nat,
    disk: map<nat, Page>,
    resident: nat,
    dirtyCount: nat,
    hand: nat,
    ioCalls: nat)

  datatype FetchResult = FetchResult(pool: Pool, frame: Option<nat>, isNew: bool)

  // ---------------------------------------------------------------- invariants

  function Zeros(n: nat): (z: Page) { Repeat<Byte>(0, n) }

  ghost predicate Shape(s: Pool) {
    && |s.meta| > 0
    && |s.arena| == |s.meta|
    && s.hand < |s.meta|
    && (forall f :: 0 <= f < |s.arena| ==> |s.arena[f]| == s.pageSize)
  }

  /** The swap table: one distinct, fully written slot per swapped page; free slots are nobody's. */
  ghost predicate SwapOk(s: Pool) {
    && (forall i :: 0 <= i < |s.freeSlots| ==> s.freeSlots[i] < s.nextSlot)
    && (forall i, j :: 0 <= i < j < |s.freeSlots| ==> s.freeSlots[i] != s.freeSlots[j])
    && (forall p :: p in s.swapped ==> s.swapped[p] !in s.freeSlots)
    && (forall k :: k in s.disk ==> k < s.nextSlot)
    && (forall p :: p in s.swapped ==> s.swapOpen && s.swapped[p] in s.disk && |s.disk[s.swapped[p]]| == s.pageSize)
    && (forall p, q :: p in s.swapped && q in s.swapped && s.swapped[p] == s.swapped[q] ==> p == q)
  }

  ghost predicate WF(s: Pool) {
    Shape(s) && SwapOk(s)
  }

  /** page_index is a bijection between resident pages and in-use frames, leaving out frame `hole`. */
  ghost predicate IndexedExcept(s: Pool, hole: int) {
    && (forall p :: p in s.pageIndex ==>
          s.pageIndex[p] < |s.meta| && s.pageIndex[p] != hole &&
          s.meta[s.pageIndex[p]].inUse && s.meta[s.pageIndex[p]].pageId == p)
    && (forall f :: 0 <= f < |s.meta| && f != hole && s.meta[f].inUse ==>
          s.meta[f].pageId in s.pageIndex && s.pageIndex[s.meta[f].pageId] == f)
  }

  function InUseFrames(meta: seq<PageMeta>): set<nat> {
    set f: nat | f < |meta| && meta[f].inUse
  }

  function DirtyFrames(meta: seq<PageMeta>): set<nat> {
    set f: nat | f < |meta| && meta[f].inUse && meta[f].dirty
  }

  ghost predicate Counted(s: Pool) {
    s.resident == |InUseFrames(s.meta)| && s.dirtyCount == |DirtyFrames(s.meta)|
  }

  ghost predicate Inv(s: Pool) {
    && WF(s)
    && s.freeSlots == []
    && IndexedExcept(s, -1)
    && Counted(s)
  }

  /** The frames fit the memory budget. */
  ghost predicate Budgeted(s: Pool) {
    s.pageSize > 0 && |s.meta| == s.capacityBytes / s.pageSize
  }

  /** The invariant while frame f holds no indexed page: between eviction and installation. */
  ghost predicate Vacant(s: Pool, f: nat) {
    && WF(s)
    && s.freeSlots == []
    && f < |s.meta|
    && s.meta[f].inUse && !s.meta[f].dirty && s.meta[f].pins == 0
    && IndexedExcept(s, f)
    && Counted(s)
  }

  // ---------------------------------------------------------------- abstraction

  /** What swap holds for a page; a page never swapped out reads as zeros. */
  function Backing(s: Pool, p: PageId): Page
    requires SwapOk(s)
  {
    if p in s.swapped then s.disk[s.swapped[p]] else Zeros(s.pageSize)
  }

  /** The logical contents of a page: its frame if resident, else its backing copy. */
  function Value(s: Pool, p: PageId): Page
    requires WF(s)
    requires p in s.pageIndex ==> s.pageIndex[p] < |s.meta|
  {
    if p in s.pageIndex then s.arena[s.pageIndex[p]] else Backing(s, p)
  }

  /**
   What the clients have done so far.  `unmarked` holds the pages changed while
   clean and not yet marked dirty; `abandoned` those whose last pin was dropped
   in that state, so that the pool no longer owes anybody their contents.
   */
  datatype Ledger = Ledger(unmarked: set<PageId>, abandoned: set<PageId>)

  /** A clean frame equals its backing copy unless its page has an unmarked change, and then it is still pinned. */
  ghost predicate Synced(s: Pool, c: Ledger)
    requires WF(s)
  {
    && (forall f :: 0 <= f < |s.meta| && s.meta[f].inUse && !s.meta[f].dirty && s.meta[f].pageId !in c.unmarked ==>
          s.arena[f] == Backing(s, s.meta[f].pageId))
    && (forall p :: p in c.unmarked && p !in c.abandoned ==>
          p in s.pageIndex && s.pageIndex[p] < |s.meta| && s.meta[s.pageIndex[p]].pins > 0)
  }

  /** Nothing already in the swap file has been overwritten. */
  ghost predicate SlotsFrozen(s: Pool, t: Pool) {
    forall k :: k in s.disk ==> k in t.disk && t.disk[k] == s.disk[k]
  }

  /** Pinned pages stay in their frame with their bytes and pins untouched. */
  ghost predicate PinnedKept(s: Pool, t: Pool) {
    && |t.meta| == |s.meta| && |t.arena| == |s.arena| == |s.meta|
    && (forall p :: p in s.pageIndex && s.pageIndex[p] < |s.meta| && s.meta[s.pageIndex[p]].pins > 0 ==>
          && p in t.pageIndex && t.pageIndex[p] == s.pageIndex[p]
          && t.meta[s.pageIndex[p]].pins == s.meta[s.pageIndex[p]].pins
          && t.arena[s.pageIndex[p]] == s.arena[s.pageIndex[p]])
  }

  ghost predicate SameConfig(s: Pool, t: Pool) {
    t.pageSize == s.pageSize && t.capacityBytes == s.capacityBytes && t.swapOpen == s.swapOpen && |t.meta| == |s.meta|
  }

  ghost predicate Indices(s: Pool) {
    forall p :: p in s.pageIndex ==> s.pageIndex[p] < |s.meta|
  }

  ghost predicate SameValues(s: Pool, t: Pool, c: Ledger)
    requires WF(s) && WF(t) && Indices(s) && Indices(t)
  {
    forall p: PageId :: p !in c.abandoned ==> Value(t, p) == Value(s, p)
  }

  // ---------------------------------------------------------------- operations

  /** A pool as created; null when the options are refused. */
  function Create(pageSize: nat, capacityBytes: nat, swapOpen: bool): (r: Option<Pool>)
    ensures r.Some? <==> pageSize > 0 && capacityBytes >= pageSize
  {
    if pageSize == 0 || capacityBytes < pageSize then None
    else
      var n := capacityBytes / pageSize;
      Some(Pool(pageSize, capacityBytes, swapOpen,
                Repeat(PageMeta(0, 0, false, false, false), n), Repeat(Zeros(pageSize), n),
                map[], map[], [], 0, map[], 0, 0, 0, 0))
  }

  function WriteToSwap(s: Pool, f: nat, p: PageId, io: Io): (r: (Pool, bool))
    requires WF(s) && f < |s.meta|
    ensures WF(r.0)
  {
    if !s.swapOpen then (s, false)
    else
      var reuse := |s.freeSlots| > 0;
      var slot := if reuse then s.freeSlots[|s.freeSlots| - 1] else s.nextSlot;
      var n := Min(io.write(s.ioCalls, p), s.pageSize);
      var t := s.(freeSlots := if reuse then s.freeSlots[..|s.freeSlots| - 1] else s.freeSlots,
                  nextSlot := if reuse then s.nextSlot else s.nextSlot + 1,
                  disk := s.disk[slot := s.arena[f][..n]],
                  ioCalls := s.ioCalls + 1);
      if n != s.pageSize then (t, false)
      else (t.(swapped := t.swapped[p := slot]), true)
  }

  function ReadFromSwap(s: Pool, f: nat, p: PageId, io: Io): (r: (Pool, bool))
    requires WF(s) && f < |s.meta|
    ensures WF(r.0)
  {
    if p !in s.swapped then (s.(arena := s.arena[f := Zeros(s.pageSize)]), true)
    else
      var n := Min(io.read(s.ioCalls, p), s.pageSize);
      var bytes := s.disk[s.swapped[p]][..n] + s.arena[f][n..];
      (s.(arena := s.arena[f := bytes], ioCalls := s.ioCalls + 1), n == s.pageSize)
  }

  function FlushFrame(s: Pool, f: nat, io: Io): (r: (Pool, bool))
    requires WF(s) && f < |s.meta|
    ensures WF(r.0) && |r.0.meta| == |s.meta|
  {
    var m := s.meta[f];
    if !m.inUse || !m.dirty then (s, true)
    else if !s.swapOpen then (s, false)
    else
      var (t, ok) := WriteToSwap(s, f, m.pageId, io);
      if !ok then (t, false)
      else (t.(meta := t.meta[f := m.(dirty := false)],
               dirtyCount := if t.dirtyCount > 0 then t.dirtyCount - 1 else t.dirtyCount), true)
  }

  /** Flushes frames i, i+1, ...; a failure is reported but does not stop the sweep. */
  function FlushFrom(s: Pool, i: nat, io: Io): (r: (Pool, bool))
    requires WF(s) && i <= |s.meta|
    ensures WF(r.0)
    decreases |s.meta| - i
  {
    if i == |s.meta| then (s, true)
    else
      var (t, ok) := FlushFrame(s, i, io);
      var (u, rest) := FlushFrom(t, i + 1, io);
      (u, ok && rest)
  }

  /** The first unused frame at or after i, or |meta|. */
  function FirstFree(meta: seq<PageMeta>, i: nat): (f: nat)
    requires i <= |meta|
    ensures i <= f <= |meta|
    ensures f < |meta| ==> !meta[f].inUse
    ensures forall j :: i <= j < f ==> meta[j].inUse
    decreases |meta| - i
  {
    if i == |meta| || !meta[i].inUse then i else FirstFree(meta, i + 1)
  }

  /**
   One move of the CLOCK hand.  Pinned and unused frames are passed over, a set
   reference bit buys one more round, and a dirty frame is a victim only if it
   can be flushed.  Yields true when the scan has to go on; otherwise the frame
   the hand pointed at has been evicted.
   */
  function ScanStep(s: Pool, io: Io): (r: (Pool, bool))
    requires WF(s)
    ensures WF(r.0) && |r.0.meta| == |s.meta|
  {
    var idx := s.hand;
    var m := s.meta[idx];
    var t := s.(hand := (idx + 1) % |s.meta|);
    if !m.inUse || m.pins != 0 then (t, true)
    else if m.refBit then (t.(meta := t.meta[idx := m.(refBit := false)]), true)
    else
      var (u, ok) := if m.dirty then FlushFrame(t, idx, io) else (t, true);
      if !ok then (u, true) else (u.(pageIndex := u.pageIndex - {m.pageId}), false)
  }

  /** At most `steps` moves of the hand; yields the evicted frame, or |meta|. */
  function ClockScan(s: Pool, steps: nat, io: Io): (r: (Pool, nat))
    requires WF(s)
    ensures WF(r.0) && |r.0.meta| == |s.meta| && r.1 <= |s.meta|
    decreases steps
  {
    if steps == 0 then (s, |s.meta|)
    else
      var (t, more) := ScanStep(s, io);
      if more then ClockScan(t, steps - 1, io) else (t, s.hand)
  }

  /** Brings page p into frame f, which the caller has just claimed for it. */
  function Load(s: Pool, f: nat, p: PageId, io: Io): (r: (Pool, nat))
    requires WF(s) && f < |s.meta|
    ensures WF(r.0) && |r.0.meta| == |s.meta| && r.1 <= |s.meta|
  {
    var (t, ok) := ReadFromSwap(s, f, p, io);
    if ok then (t, f)
    else (t.(meta := t.meta[f := t.meta[f].(inUse := false)],
             resident := if t.resident > 0 then t.resident - 1 else t.resident), |s.meta|)
  }

  function Claimed(p: PageId): PageMeta {
    PageMeta(p, 0, false, true, true)
  }

  /** Returns the frame now holding p, or |meta| on failure. */
  function Allocate(s: Pool, p: PageId, io: Io): (r: (Pool, nat))
    requires WF(s)
    ensures WF(r.0) && |r.0.meta| == |s.meta| && r.1 <= |s.meta|
  {
    var i := FirstFree(s.meta, 0);
    if i < |s.meta| then
      Load(s.(meta := s.meta[i := Claimed(p)], resident := s.resident + 1), i, p, io)
    else
      var (t, v) := ClockScan(s, 2 * |s.meta|, io);
      if v == |s.meta| then (t, v)
      else Load(t.(meta := t.meta[v := Claimed(p)]), v, p, io)
  }

  /** The tail of a miss: index the loaded frame, pin it, and mark it dirty for a writer. */
  function Publish(t: Pool, f: nat, p: PageId, forWrite: bool): (u: Pool)
    requires WF(t) && f < |t.meta|
    ensures WF(u)
  {
    var m := t.meta[f].(pins := 1, refBit := true);
    var u := t.(pageIndex := t.pageIndex[p := f]);
    if forWrite then u.(meta := u.meta[f := m.(dirty := true)], dirtyCount := u.dirtyCount + 1)
    else u.(meta := u.meta[f := m])
  }

  function Fetch(s: Pool, p: PageId, forWrite: bool, io: Io): (r: FetchResult)
    requires WF(s) && Indices(s)
    ensures WF(r.pool)
  {
    if p in s.pageIndex then
      var f := s.pageIndex[p];
      var m := s.meta[f];
      FetchResult(s.(meta := s.meta[f := m.(pins := m.pins + 1, refBit := true)]), Some(f), false)
    else
      var (t, f) := Allocate(s, p, io);
      if f == |t.meta| then FetchResult(t, None, false)
      else
        FetchResult(Publish(t, f, p, forWrite), Some(f), p !in t.swapped)
  }

  function Unpin(s: Pool, p: PageId, mark: bool): (t: Pool)
    requires WF(s) && Indices(s)
    ensures WF(t)
  {
    if p !in s.pageIndex then s
    else
      var f := s.pageIndex[p];
      var m := s.meta[f];
      var m1 := if m.pins > 0 then m.(pins := m.pins - 1) else m;
      if mark && !m.dirty then
        s.(meta := s.meta[f := m1.(dirty := true)], dirtyCount := s.dirtyCount + 1)
      else s.(meta := s.meta[f := m1])
  }

  function FlushPage(s: Pool, p: PageId, io: Io): (r: (Pool, bool))
    requires WF(s) && Indices(s)
    ensures WF(r.0)
  {
    if p !in s.pageIndex then (s, true) else FlushFrame(s, s.pageIndex[p], io)
  }

  /** The client overwrites the page it holds a pointer to. */
  function ClientWrite(s: Pool, p: PageId, bytes: Page): (t: Pool)
    requires WF(s) && Indices(s)
    requires p in s.pageIndex && |bytes| == s.pageSize
    ensures WF(t)
  {
    s.(arena := s.arena[s.pageIndex[p] := bytes])
  }
}
