/**
 The open-addressing table as a value: slots probed linearly and cyclically
 from a key's home bucket, a sentinel key marking empty slots, doubling at
 three quarters full.  The hash is an arbitrary function.
 */
module FlatHashSpec {
  import opened Prelude

  type Key = U64
  const SENTINEL: Key := 0xFFFF_FFFF_FFFF_FFFF

  type Hash = Key -> nat

  datatype Slot<V> = Slot(key: Key, value: V)

  datatype Table<V> = Table(slots: seq<Slot<V>>, count: nat)

  // ---------------------------------------------------------------- cyclic positions

  /** x & mask, for x below twice the capacity. */
  function Wrap(x: nat, cap: nat): (r: nat)
    requires x < 2 * cap
    ensures r < cap
  {
    if x < cap then x else x - cap
  }

  /** (to - from) & mask: steps forward from one bucket to another. */
  function Dist(from: nat, to: nat, cap: nat): (d: nat)
    requires from < cap && to < cap
    ensures d < cap && Wrap(from + d, cap) == to
  {
    if from <= to then to - from else to + cap - from
  }

  /** hash & mask. */
  function Home(h: Hash, k: Key, cap: nat): (b: nat)
    requires cap > 0
    ensures b < cap
  {
    h(k) % cap
  }

  function At<V>(s: seq<Slot<V>>, from: nat, d: nat): Slot<V>
    requires from < |s| && d < |s|
  {
    s[Wrap(from + d, |s|)]
  }

  // ---------------------------------------------------------------- operations

  /** The first offset at or after i where the probe for k meets k or an empty slot; |s| if neither. */
  function Stop<V>(s: seq<Slot<V>>, k: Key, home: nat, i: nat): (r: nat)
    requires home < |s| && i <= |s|
    ensures i <= r <= |s|
    ensures forall d :: i <= d < r ==> At(s, home, d).key != SENTINEL && At(s, home, d).key != k
    ensures r < |s| ==> At(s, home, r).key == SENTINEL || At(s, home, r).key == k
    decreases |s| - i
  {
    if i == |s| || At(s, home, i).key == SENTINEL || At(s, home, i).key == k then i else Stop(s, k, home, i + 1)
  }

  function Find<V>(s: seq<Slot<V>>, h: Hash, k: Key): (r: Option<V>)
    requires |s| > 0
  {
    var home := Home(h, k, |s|);
    var d := Stop(s, k, home, 0);
    if d == |s| || At(s, home, d).key == SENTINEL then None else Some(At(s, home, d).value)
  }

  /** PutInternal: write at the stopping slot; the flag says whether the key is new. */
  function Insert<V>(s: seq<Slot<V>>, h: Hash, k: Key, v: V): (r: (seq<Slot<V>>, bool))
    requires |s| > 0
    ensures |r.0| == |s|
  {
    var home := Home(h, k, |s|);
    var d := Stop(s, k, home, 0);
    if d == |s| then (s, false)
    else
      var pos := Wrap(home + d, |s|);
      (s[pos := Slot(k, v)], s[pos].key == SENTINEL)
  }

  /** PutIntoRaw: write at the first empty slot, without looking for the key. */
  function RawInsert<V>(s: seq<Slot<V>>, h: Hash, k: Key, v: V): (r: seq<Slot<V>>)
    requires |s| > 0
    ensures |r| == |s|
  {
    var home := Home(h, k, |s|);
    var d := Stop(s, SENTINEL, home, 0);
    if d == |s| then s else s[Wrap(home + d, |s|) := Slot(k, v)]
  }

  function Blank<V>(dflt: V): Slot<V> {
    Slot(SENTINEL, dflt)
  }

  function Rehash<V>(old_: seq<Slot<V>>, i: nat, into: seq<Slot<V>>, h: Hash): (r: seq<Slot<V>>)
    requires i <= |old_| && |into| > 0
    ensures |r| == |into|
    decreases |old_| - i
  {
    if i == |old_| then into
    else
      Rehash(old_, i + 1, if old_[i].key != SENTINEL then RawInsert(into, h, old_[i].key, old_[i].value) else into, h)
  }

  function Grow<V>(t: Table<V>, h: Hash, dflt: V): (u: Table<V>)
    requires |t.slots| > 0
    ensures |u.slots| == 2 * |t.slots|
  {
    Table(Rehash(t.slots, 0, Repeat(Blank(dflt), 2 * |t.slots|), h), t.count)
  }

  function Threshold(cap: nat): nat {
    cap * 3 / 4
  }

  function Put<V>(t: Table<V>, h: Hash, dflt: V, k: Key, v: V): (r: (Table<V>, bool))
    requires |t.slots| > 0
    ensures |r.0.slots| > 0
  {
    var u := if t.count >= Threshold(|t.slots|) then Grow(t, h, dflt) else t;
    var (s, fresh_) := Insert(u.slots, h, k, v);
    (Table(s, if fresh_ then u.count + 1 else u.count), fresh_)
  }

  function Clear<V>(t: Table<V>, dflt: V): (u: Table<V>)
    ensures |u.slots| == |t.slots|
  {
    Table(Repeat(Blank(dflt), |t.slots|), 0)
  }

  // ---------------------------------------------------------------- invariants

  ghost predicate Unique<V>(s: seq<Slot<V>>) {
    forall i, j :: 0 <= i < j < |s| && s[i].key != SENTINEL ==> s[i].key != s[j].key
  }

  /** No empty slot on the way from bucket a to bucket b. */
  ghost predicate PathFull<V>(s: seq<Slot<V>>, a: nat, b: nat)
    requires a < |s| && b < |s|
  {
    forall d: nat :: d < Dist(a, b, |s|) ==> At(s, a, d).key != SENTINEL
  }

  /** Every key can be reached from its home, around the wrap. */
  ghost predicate Reachable<V>(s: seq<Slot<V>>, h: Hash) {
    forall i :: 0 <= i < |s| && s[i].key != SENTINEL ==> PathFull(s, Home(h, s[i].key, |s|), i)
  }

  function OccupiedSlots<V>(s: seq<Slot<V>>): set<nat> {
    set i: nat | i < |s| && s[i].key != SENTINEL
  }

  ghost predicate SlotsOk<V>(s: seq<Slot<V>>, h: Hash) {
    |s| > 0 && Unique(s) && Reachable(s, h)
  }

  ghost predicate TableOk<V>(t: Table<V>, h: Hash) {
    && |t.slots| > 0 && SlotsOk(t.slots, h)
    && t.count == |OccupiedSlots(t.slots)|
    && t.count <= Threshold(|t.slots|)
  }

  ghost function Keys<V>(s: seq<Slot<V>>): set<Key> {
    set i: nat | i < |s| && s[i].key != SENTINEL :: s[i].key
  }

  ghost function IndexOf<V>(s: seq<Slot<V>>, k: Key): (i: nat)
    requires k in Keys(s)
    ensures i < |s| && s[i].key == k
  {
    var i: nat :| i < |s| && s[i].key == k; i
  }

  /** The mathematical map that the slots stand for. */
  ghost function Contents<V>(s: seq<Slot<V>>): (m: map<Key, V>) {
    map k | k in Keys(s) :: s[IndexOf(s, k)].value
  }

  ghost function Lookup<V>(m: map<Key, V>, k: Key): Option<V> {
    if k in m then Some(m[k]) else None
  }
}
