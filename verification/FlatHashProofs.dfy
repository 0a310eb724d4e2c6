/**
 For every hash function and every sequence of Put and Clear, doublings
 included, Find answers exactly as a mathematical map would.
 */
module FlatHashProofs {
  import opened Prelude
  import opened FlatHashSpec

  // ---------------------------------------------------------------- one probe

  /** A present key stops the probe at its own slot. */
  lemma StopAtKey<V>(s: seq<Slot<V>>, h: Hash, i: nat)
    requires SlotsOk(s, h) && i < |s| && s[i].key != SENTINEL
    ensures var home := Home(h, s[i].key, |s|); Stop(s, s[i].key, home, 0) == Dist(home, i, |s|)
  {
    var k := s[i].key;
    var home := Home(h, k, |s|);
    var r := Stop(s, k, home, 0);
    var d := Dist(home, i, |s|);
    assert At(s, home, d).key == k;
    assert PathFull(s, home, i);
    forall e: nat | e < d ensures At(s, home, e).key != SENTINEL && At(s, home, e).key != k {
      assert Wrap(home + e, |s|) != i;
    }
  }

  /** An absent key is not found. */
  lemma AbsentKey<V>(s: seq<Slot<V>>, h: Hash, k: Key)
    requires |s| > 0 && k !in Keys(s)
    ensures Find(s, h, k) == None
  {
    var home := Home(h, k, |s|);
    var d := Stop(s, k, home, 0);
    assert d < |s| ==> At(s, home, d) == s[Wrap(home + d, |s|)];
    assert forall p: nat :: p < |s| && s[p].key != SENTINEL ==> s[p].key in Keys(s);
  }

  /** Find is lookup in the map. */
  lemma FindIsLookup<V>(s: seq<Slot<V>>, h: Hash, k: Key)
    requires SlotsOk(s, h)
    ensures Find(s, h, k) == Lookup(Contents(s), k)
  {
    if k in Keys(s) {
      StopAtKey(s, h, IndexOf(s, k));
    } else {
      AbsentKey(s, h, k);
    }
  }

  lemma EmptySlot<V>(s: seq<Slot<V>>)
    requires |OccupiedSlots(s)| < |s|
    ensures exists e: nat :: e < |s| && s[e].key == SENTINEL
  {
    assert Below(|s|) == OccupiedSlots(s) + (Below(|s|) - OccupiedSlots(s));
    var e :| e in Below(|s|) - OccupiedSlots(s);
    assert s[e].key == SENTINEL;
  }

  /** With a slot to spare, no probe runs off the table. */
  lemma ProbeStops<V>(s: seq<Slot<V>>, k: Key, home: nat)
    requires home < |s| && |OccupiedSlots(s)| < |s|
    ensures Stop(s, k, home, 0) < |s|
  {
    EmptySlot(s);
    var e: nat :| e < |s| && s[e].key == SENTINEL;
    assert At(s, home, Dist(home, e, |s|)) == s[e];
  }

  // ---------------------------------------------------------------- insertion

  /** Filling the empty slot where k's probe stops. */
  lemma FillSlot<V>(s: seq<Slot<V>>, h: Hash, k: Key, v: V, d: nat)
    requires SlotsOk(s, h) && k != SENTINEL && k !in Keys(s) && d < |s|
    requires var home := Home(h, k, |s|);
             At(s, home, d).key == SENTINEL && forall e: nat :: e < d ==> At(s, home, e).key != SENTINEL
    ensures var pos := Wrap(Home(h, k, |s|) + d, |s|);
            var t := s[pos := Slot(k, v)];
            && SlotsOk(t, h) && Contents(t) == Contents(s)[k := v]
            && |OccupiedSlots(t)| == |OccupiedSlots(s)| + 1
  {
    hide Unique, Reachable, Contents, Keys, OccupiedSlots;
    var home := Home(h, k, |s|);
    var pos := Wrap(home + d, |s|);
    FillUnique(s, pos, k, v);
    FillReachable(s, h, k, v, d);
    FilledCount(s, pos, k, v);
    ContentsUpdate(s, pos, k, v);
  }

  lemma FilledCount<V>(s: seq<Slot<V>>, pos: nat, k: Key, v: V)
    requires pos < |s| && s[pos].key == SENTINEL && k != SENTINEL
    ensures |OccupiedSlots(s[pos := Slot(k, v)])| == |OccupiedSlots(s)| + 1
  {
    assert OccupiedSlots(s[pos := Slot(k, v)]) == OccupiedSlots(s) + {pos};
    assert pos !in OccupiedSlots(s);
  }

  lemma FillUnique<V>(s: seq<Slot<V>>, pos: nat, k: Key, v: V)
    requires Unique(s) && pos < |s| && k !in Keys(s)
    ensures Unique(s[pos := Slot(k, v)])
  {
    assert forall i: nat :: i < |s| && s[i].key == k && k != SENTINEL ==> s[i].key in Keys(s);
  }

  /** With unique keys, each slot's value is what the map holds for its key. */
  lemma ContentsAt<V>(s: seq<Slot<V>>, i: nat)
    requires Unique(s) && i < |s| && s[i].key != SENTINEL
    ensures s[i].key in Contents(s) && Contents(s)[s[i].key] == s[i].value
  {
    assert s[i].key in Keys(s);
    assert IndexOf(s, s[i].key) == i;
  }

  lemma ContentsUpdate<V>(s: seq<Slot<V>>, pos: nat, k: Key, v: V)
    requires Unique(s) && pos < |s| && (s[pos].key == SENTINEL || s[pos].key == k) && k != SENTINEL
    requires Unique(s[pos := Slot(k, v)])
    ensures Contents(s[pos := Slot(k, v)]) == Contents(s)[k := v]
  {
    hide Contents, Unique, Keys;
    var t := s[pos := Slot(k, v)];
    KeysUpdate(s, pos, k, v);
    KeysAreContents(s);
    KeysAreContents(t);
    forall x | x in Keys(t) ensures Contents(t)[x] == Contents(s)[k := v][x] {
      ValueUpdate(s, pos, k, v, x);
    }
  }

  lemma KeysUpdate<V>(s: seq<Slot<V>>, pos: nat, k: Key, v: V)
    requires pos < |s| && (s[pos].key == SENTINEL || s[pos].key == k) && k != SENTINEL
    ensures Keys(s[pos := Slot(k, v)]) == Keys(s) + {k}
  {
    var t := s[pos := Slot(k, v)];
    forall x | x in Keys(s) + {k} ensures x in Keys(t) {
      var i := if x == k then pos else IndexOf(s, x);
      assert t[i].key == x;
    }
    forall x | x in Keys(t) ensures x in Keys(s) + {k} {
      var i := IndexOf(t, x);
      assert i == pos || s[i].key == x;
    }
  }

  lemma ValueUpdate<V>(s: seq<Slot<V>>, pos: nat, k: Key, v: V, x: Key)
    requires Unique(s) && pos < |s| && (s[pos].key == SENTINEL || s[pos].key == k) && k != SENTINEL
    requires Unique(s[pos := Slot(k, v)]) && (x == k || x in Keys(s))
    ensures var t := s[pos := Slot(k, v)];
            x in Contents(t) && (x == k || x in Contents(s)) && Contents(t)[x] == Contents(s)[k := v][x]
  {
    hide Contents, Unique;
    var t := s[pos := Slot(k, v)];
    if x == k {
      ContentsAt(t, pos);
    } else {
      var i := IndexOf(s, x);
      KeyIsNoSentinel(s, x);
      ContentsAt(s, i);
      ContentsAt(t, i);
    }
  }

  lemma KeyIsNoSentinel<V>(s: seq<Slot<V>>, x: Key)
    requires x in Keys(s)
    ensures x != SENTINEL
  {
  }

  lemma FillReachable<V>(s: seq<Slot<V>>, h: Hash, k: Key, v: V, d: nat)
    requires |s| > 0 && Reachable(s, h) && d < |s|
    requires forall e: nat :: e < d ==> At(s, Home(h, k, |s|), e).key != SENTINEL
    requires k != SENTINEL
    ensures var pos := Wrap(Home(h, k, |s|) + d, |s|);
            Reachable(s[pos := Slot(k, v)], h)
  {
    var home := Home(h, k, |s|);
    var pos := Wrap(home + d, |s|);
    var t := s[pos := Slot(k, v)];
    forall i | 0 <= i < |t| && t[i].key != SENTINEL
      ensures PathFull(t, Home(h, t[i].key, |t|), i)
    {
      var a := Home(h, t[i].key, |t|);
      forall e: nat | e < Dist(a, i, |t|) ensures At(t, a, e).key != SENTINEL {
        if i == pos {
          assert Dist(home, pos, |s|) == d;
          assert At(s, home, e).key != SENTINEL;
        } else {
          assert PathFull(s, a, i);
          assert At(s, a, e).key != SENTINEL;
        }
      }
    }
  }

  /** Overwriting the value of a present key. */
  lemma OverwriteSlot<V>(s: seq<Slot<V>>, h: Hash, i: nat, v: V)
    requires SlotsOk(s, h) && i < |s| && s[i].key != SENTINEL
    ensures var t := s[i := Slot(s[i].key, v)];
            && SlotsOk(t, h) && Contents(t) == Contents(s)[s[i].key := v]
            && OccupiedSlots(t) == OccupiedSlots(s)
  {
    var t := s[i := Slot(s[i].key, v)];
    forall j | 0 <= j < |t| && t[j].key != SENTINEL
      ensures PathFull(t, Home(h, t[j].key, |t|), j)
    {
      assert PathFull(s, Home(h, s[j].key, |s|), j);
      var a := Home(h, t[j].key, |t|);
      forall e: nat | e < Dist(a, j, |t|) ensures At(t, a, e).key != SENTINEL {
        assert At(s, a, e).key != SENTINEL;
      }
    }
    ContentsUpdate(s, i, s[i].key, v);
  }

  /** PutInternal inserts or overwrites exactly one binding. */
  lemma InsertCorrect<V>(s: seq<Slot<V>>, h: Hash, k: Key, v: V)
    requires SlotsOk(s, h) && k != SENTINEL && |OccupiedSlots(s)| < |s|
    ensures var (t, isNew) := Insert(s, h, k, v);
            && SlotsOk(t, h) && Contents(t) == Contents(s)[k := v]
            && isNew == (k !in Keys(s))
            && |OccupiedSlots(t)| == |OccupiedSlots(s)| + (if isNew then 1 else 0)
  {
    hide SlotsOk, Contents, OccupiedSlots, Keys;
    var home := Home(h, k, |s|);
    var d := Stop(s, k, home, 0);
    ProbeStops(s, k, home);
    StopTells(s, h, k);
    var pos := Wrap(home + d, |s|);
    if s[pos].key == SENTINEL {
      FillSlot(s, h, k, v, d);
    } else {
      OverwriteSlot(s, h, pos, v);
    }
  }

  lemma StopTells<V>(s: seq<Slot<V>>, h: Hash, k: Key)
    requires SlotsOk(s, h) && k != SENTINEL && Stop(s, k, Home(h, k, |s|), 0) < |s|
    ensures var home := Home(h, k, |s|);
            At(s, home, Stop(s, k, home, 0)).key == SENTINEL <==> k !in Keys(s)
  {
    hide SlotsOk, Keys, IndexOf;
    FindIsLookup(s, h, k);
  }

  lemma RawInsertCorrect<V>(s: seq<Slot<V>>, h: Hash, k: Key, v: V)
    requires SlotsOk(s, h) && k != SENTINEL && k !in Keys(s) && |OccupiedSlots(s)| < |s|
    ensures var t := RawInsert(s, h, k, v);
            && SlotsOk(t, h) && Contents(t) == Contents(s)[k := v]
            && |OccupiedSlots(t)| == |OccupiedSlots(s)| + 1
  {
    hide SlotsOk, Contents, OccupiedSlots, Keys;
    var home := Home(h, k, |s|);
    ProbeStops(s, SENTINEL, home);
    FillSlot(s, h, k, v, Stop(s, SENTINEL, home, 0));
  }

  // ---------------------------------------------------------------- growth

  lemma BlankOk<V>(n: nat, dflt: V, h: Hash)
    requires n > 0
    ensures var s := Repeat(Blank(dflt), n);
            SlotsOk(s, h) && Contents(s) == map[] && OccupiedSlots(s) == {}
  {
    var s := Repeat(Blank(dflt), n);
    assert Keys(s) == {};
  }

  /** Extending a prefix by one slot adds its binding, if it has one. */
  lemma PrefixContents<V>(s: seq<Slot<V>>, i: nat)
    requires Unique(s) && i < |s|
    ensures Contents(s[..i + 1]) ==
            if s[i].key == SENTINEL then Contents(s[..i]) else Contents(s[..i])[s[i].key := s[i].value]
    ensures s[i].key != SENTINEL ==> s[i].key !in Keys(s[..i])
  {
    hide Keys, Contents;
    var a, b := s[..i], s[..i + 1];
    PrefixKeys(s, i);
    ContentsKeys(a);
    ContentsKeys(b);
    forall x | x in Keys(a) ensures Contents(b)[x] == Contents(a)[x] {
      PrefixValue(s, i, x);
    }
    if s[i].key != SENTINEL {
      ContentsAt(b, i);
    }
  }

  lemma ContentsKeys<V>(s: seq<Slot<V>>)
    ensures Contents(s).Keys == Keys(s)
  {
  }

  lemma PrefixValue<V>(s: seq<Slot<V>>, i: nat, x: Key)
    requires Unique(s) && i < |s| && x in Keys(s[..i]) && x in Keys(s[..i + 1])
    ensures Contents(s[..i + 1])[x] == Contents(s[..i])[x]
  {
    var p := IndexOf(s[..i], x);
    assert p == IndexOf(s[..i + 1], x);
  }

  lemma PrefixKeys<V>(s: seq<Slot<V>>, i: nat)
    requires Unique(s) && i < |s|
    ensures Keys(s[..i + 1]) == Keys(s[..i]) + (if s[i].key == SENTINEL then {} else {s[i].key})
    ensures s[i].key != SENTINEL ==> s[i].key !in Keys(s[..i])
  {
    var a, b := s[..i], s[..i + 1];
    forall x | x in Keys(a) ensures x in Keys(b) {
      assert b[IndexOf(a, x)].key == x;
    }
    assert s[i].key != SENTINEL ==> b[i].key in Keys(b);
    forall x | x in Keys(b) ensures x in Keys(a) || (s[i].key != SENTINEL && x == s[i].key) {
      var j := IndexOf(b, x);
      assert j < i ==> a[j].key == x;
    }
  }

  lemma PrefixCount<V>(s: seq<Slot<V>>, i: nat)
    requires i < |s|
    ensures |OccupiedSlots(s[..i + 1])| == |OccupiedSlots(s[..i])| + (if s[i].key == SENTINEL then 0 else 1)
  {
    var a, b := s[..i], s[..i + 1];
    assert OccupiedSlots(b) == OccupiedSlots(a) + (if s[i].key == SENTINEL then {} else {i});
  }

  lemma OccupiedAtMost<V>(s: seq<Slot<V>>)
    ensures |OccupiedSlots(s)| <= |s|
  {
    assert Below(|s|) == OccupiedSlots(s) + (Below(|s|) - OccupiedSlots(s));
  }

  /** Rehashing the slots from i on carries the rest of the map over. */
  lemma {:induction false} RehashCorrect<V>(s: seq<Slot<V>>, i: nat, into: seq<Slot<V>>, h: Hash)
    requires Unique(s) && i <= |s| < |into| && SlotsOk(into, h)
    requires Contents(into) == Contents(s[..i]) && |OccupiedSlots(into)| == |OccupiedSlots(s[..i])|
    ensures var r := Rehash(s, i, into, h);
            SlotsOk(r, h) && Contents(r) == Contents(s) && |OccupiedSlots(r)| == |OccupiedSlots(s)|
    decreases |s| - i
  {
    hide SlotsOk, Contents, OccupiedSlots, Unique, RawInsert, Keys;
    if i == |s| {
      assert s[..i] == s;
    } else {
      PrefixContents(s, i);
      PrefixCount(s, i);
      if s[i].key != SENTINEL {
        OccupiedAtMost(s[..i]);
        KeysAreContents(into);
        KeysAreContents(s[..i]);
        RawInsertCorrect(into, h, s[i].key, s[i].value);
        RehashCorrect(s, i + 1, RawInsert(into, h, s[i].key, s[i].value), h);
      } else {
        RehashCorrect(s, i + 1, into, h);
      }
    }
  }

  lemma KeysAreContents<V>(s: seq<Slot<V>>)
    ensures Contents(s).Keys == Keys(s)
  {
  }

  /** One doubling keeps the map and leaves room below the threshold. */
  lemma GrowCorrect<V>(t: Table<V>, h: Hash, dflt: V)
    requires TableOk(t, h)
    ensures var u := Grow(t, h, dflt);
            TableOk(u, h) && Contents(u.slots) == Contents(t.slots) && u.count < Threshold(|u.slots|)
  {
    var blank := Repeat(Blank(dflt), 2 * |t.slots|);
    BlankOk(2 * |t.slots|, dflt, h);
    assert t.slots[..0] == [];
    assert Contents(t.slots[..0]) == map[];
    assert OccupiedSlots(t.slots[..0]) == {};
    RehashCorrect(t.slots, 0, blank, h);
    hide SlotsOk, Contents, OccupiedSlots, Rehash;
  }

  /** Put is map update; it grows at most once, and an empty slot remains. */
  lemma PutCorrect<V>(t: Table<V>, h: Hash, dflt: V, k: Key, v: V)
    requires TableOk(t, h) && k != SENTINEL
    ensures var (u, isNew) := Put(t, h, dflt, k, v);
            && TableOk(u, h) && Contents(u.slots) == Contents(t.slots)[k := v]
            && isNew == (k !in Contents(t.slots))
            && u.count < |u.slots|
            && |u.slots| == (if t.count >= |t.slots| * 3 / 4 then 2 * |t.slots| else |t.slots|)
  {
    hide SlotsOk, Contents, OccupiedSlots, Grow, Insert, Keys;
    var g := if t.count >= Threshold(|t.slots|) then Grow(t, h, dflt) else t;
    if t.count >= Threshold(|t.slots|) {
      GrowCorrect(t, h, dflt);
    }
    InsertCorrect(g.slots, h, k, v);
    KeysAreContents(t.slots);
    KeysAreContents(g.slots);
  }

  lemma ClearCorrect<V>(t: Table<V>, h: Hash, dflt: V)
    requires |t.slots| > 0
    ensures TableOk(Clear(t, dflt), h) && Contents(Clear(t, dflt).slots) == map[]
  {
    BlankOk(|t.slots|, dflt, h);
  }

  // ---------------------------------------------------------------- runs

  datatype Op<V> = OpPut(key: Key, value: V) | OpClear

  function Run<V>(t: Table<V>, h: Hash, dflt: V, ops: seq<Op<V>>): (u: Table<V>)
    requires |t.slots| > 0
    ensures |u.slots| > 0
    decreases |ops|
  {
    if |ops| == 0 then t
    else
      var before := Run(t, h, dflt, ops[..|ops| - 1]);
      match ops[|ops| - 1]
      case OpPut(k, v) => Put(before, h, dflt, k, v).0
      case OpClear => Clear(before, dflt)
  }

  /** The specification: the last Put of a key since the last Clear. */
  function Latest<V>(ops: seq<Op<V>>, k: Key): Option<V>
    decreases |ops|
  {
    if |ops| == 0 then None
    else
      match ops[|ops| - 1]
      case OpPut(key, v) => if key == k then Some(v) else Latest(ops[..|ops| - 1], k)
      case OpClear => None
  }

  ghost predicate Legal<V>(ops: seq<Op<V>>) {
    forall i :: 0 <= i < |ops| && ops[i].OpPut? ==> ops[i].key != SENTINEL
  }

  /** REFINEMENT: after any run on a table created empty, Find tells the last Put since the last Clear. */
  lemma {:induction false} FindTellsLatest<V>(cap: nat, h: Hash, dflt: V, ops: seq<Op<V>>, k: Key)
    requires cap > 0 && Legal(ops)
    ensures var t := Run(Table(Repeat(Blank(dflt), cap), 0), h, dflt, ops);
            TableOk(t, h) && Find(t.slots, h, k) == Latest(ops, k)
    decreases |ops|
  {
    var t0 := Table(Repeat(Blank(dflt), cap), 0);
    var t := Run(t0, h, dflt, ops);
    RunCorrect(t0, h, dflt, ops, k);
    BlankOk(cap, dflt, h);
    FindIsLookup(t.slots, h, k);
    hide SlotsOk, Contents, OccupiedSlots, Find, Run;
  }

  lemma {:induction false} RunCorrect<V>(t0: Table<V>, h: Hash, dflt: V, ops: seq<Op<V>>, k: Key)
    requires |t0.slots| > 0 && Legal(ops)
    requires TableOk(t0, h) && Contents(t0.slots) == map[]
    ensures var t := Run(t0, h, dflt, ops);
            TableOk(t, h) && Lookup(Contents(t.slots), k) == Latest(ops, k)
    decreases |ops|
  {
    hide TableOk, Contents, Put, Clear;
    if |ops| > 0 {
      var pre := ops[..|ops| - 1];
      var before := Run(t0, h, dflt, pre);
      RunCorrect(t0, h, dflt, pre, k);
      match ops[|ops| - 1] {
        case OpPut(key, v) => PutCorrect(before, h, dflt, key, v);
        case OpClear => ClearCorrect(before, h, dflt);
      }
    }
  }
}
