/**
 Backward-shift deletion.  Erase as written computes the next slot from a hole
 that may already have moved, so it skips slots.  The exact condition under
 which that is harmless is proved, next to the contiguous scan that the
 comment describes, which is always right.
 */
module FlatHashErase {
  import opened Prelude
  import opened FlatHashSpec
  import opened FlatHashProofs

  // ---------------------------------------------------------------- operations

  /** The key at slot i may move back into the hole: the hole lies between its home and i. */
  predicate Movable<V>(s: seq<Slot<V>>, h: Hash, hole: nat, i: nat)
    requires hole < |s| && i < |s|
  {
    var home := Home(h, s[i].key, |s|);
    Dist(home, hole, |s|) <= Dist(home, i, |s|)
  }

  /** Where a shift ends: the slots, the hole to clear, and the loop count at the last move. */
  datatype Shifted<V> = Shifted(slots: seq<Slot<V>>, hole: nat, last: nat)

  /** The loop as written: slot number (hole + i) & mask, where hole moves and i goes on counting. */
  function Shift<V>(s: seq<Slot<V>>, h: Hash, hole: nat, i: nat, last: nat): (r: Shifted<V>)
    requires hole < |s| && 0 < i <= |s|
    ensures |r.slots| == |s| && r.hole < |s|
    decreases |s| - i
  {
    if i == |s| then Shifted(s, hole, last)
    else
      var next := Wrap(hole + i, |s|);
      if s[next].key == SENTINEL then Shifted(s, hole, last)
      else if Movable(s, h, hole, next) then Shift(s[hole := s[next]], h, next, i + 1, i)
      else Shift(s, h, hole, i + 1, last)
  }

  /** The scan the comment describes: every slot after the deleted one in turn; j counts from the current hole. */
  function ShiftAll<V>(s: seq<Slot<V>>, h: Hash, hole: nat, j: nat, i: nat): (r: Shifted<V>)
    requires hole < |s| && 0 < j <= i <= |s|
    ensures |r.slots| == |s| && r.hole < |s|
    decreases |s| - i
  {
    if i == |s| then Shifted(s, hole, 0)
    else
      var next := Wrap(hole + j, |s|);
      if s[next].key == SENTINEL then Shifted(s, hole, 0)
      else if Movable(s, h, hole, next) then ShiftAll(s[hole := s[next]], h, next, 1, i + 1)
      else ShiftAll(s, h, hole, j + 1, i + 1)
  }

  function Position<V>(s: seq<Slot<V>>, h: Hash, k: Key): (pos: nat)
    requires |s| > 0
    ensures pos <= |s|
    ensures pos < |s| ==> s[pos].key == k && k != SENTINEL
  {
    var home := Home(h, k, |s|);
    var d := Stop(s, k, home, 0);
    if d == |s| || At(s, home, d).key == SENTINEL then |s| else Wrap(home + d, |s|)
  }

  function Erase<V>(t: Table<V>, h: Hash, dflt: V, k: Key): (r: (Table<V>, bool))
    requires |t.slots| > 0
  {
    var pos := Position(t.slots, h, k);
    if pos == |t.slots| then (t, false)
    else
      var r := Shift(t.slots, h, pos, 1, 0);
      (Table(r.slots[r.hole := Blank(dflt)], if t.count > 0 then t.count - 1 else 0), true)
  }

  function EraseAll<V>(t: Table<V>, h: Hash, dflt: V, k: Key): (r: (Table<V>, bool))
    requires |t.slots| > 0
  {
    var pos := Position(t.slots, h, k);
    if pos == |t.slots| then (t, false)
    else
      var r := ShiftAll(t.slots, h, pos, 1, 1);
      (Table(r.slots[r.hole := Blank(dflt)], if t.count > 0 then t.count - 1 else 0), true)
  }

  // ---------------------------------------------------------------- tables with a hole

  /** A well-formed table whose slot `hole` holds a key that is going away but still counts as occupied. */
  ghost predicate HoleOk<V>(s: seq<Slot<V>>, h: Hash, hole: nat) {
    && hole < |s| && s[hole].key != SENTINEL
    && (forall i, j :: 0 <= i < j < |s| && i != hole && j != hole && s[i].key != SENTINEL ==> s[i].key != s[j].key)
    && (forall i :: 0 <= i < |s| && i != hole && s[i].key != SENTINEL ==> PathFull(s, Home(h, s[i].key, |s|), i))
  }

  /** Slot i's key can be found only through the hole. */
  ghost predicate Needs<V>(s: seq<Slot<V>>, h: Hash, hole: nat, i: nat)
    requires hole < |s| && i < |s|
  {
    i != hole && s[i].key != SENTINEL && Movable(s, h, hole, i)
  }

  lemma CyclicSum(a: nat, b: nat, c: nat, cap: nat)
    requires a < cap && b < cap && c < cap && Dist(a, b, cap) <= Dist(a, c, cap)
    ensures Dist(a, c, cap) == Dist(a, b, cap) + Dist(b, c, cap)
  {
  }

  lemma MoveKeeps<V>(s: seq<Slot<V>>, h: Hash, hole: nat, next: nat, dflt: V)
    requires HoleOk(s, h, hole) && next < |s| && Needs(s, h, hole, next)
    ensures HoleOk(s[hole := s[next]], h, next)
    ensures Contents(s[hole := s[next]][next := Blank(dflt)]) == Contents(s[hole := Blank(dflt)])
    ensures OccupiedSlots(s[hole := s[next]]) == OccupiedSlots(s)
  {
    MoveReach(s, h, hole, next);
    MoveContents(s, h, hole, next, dflt);
  }

  lemma MoveReach<V>(s: seq<Slot<V>>, h: Hash, hole: nat, next: nat)
    requires HoleOk(s, h, hole) && next < |s| && Needs(s, h, hole, next)
    ensures HoleOk(s[hole := s[next]], h, next)
  {
    var t := s[hole := s[next]];
    forall i | 0 <= i < |t| && i != next && t[i].key != SENTINEL
      ensures PathFull(t, Home(h, t[i].key, |t|), i)
    {
      var a := Home(h, t[i].key, |t|);
      var j := if i == hole then next else i;
      assert PathFull(s, a, j);
      forall e: nat | e < Dist(a, i, |t|) ensures At(t, a, e).key != SENTINEL {
        assert At(s, a, e).key != SENTINEL;
      }
    }
  }

  lemma MoveContents<V>(s: seq<Slot<V>>, h: Hash, hole: nat, next: nat, dflt: V)
    requires HoleOk(s, h, hole) && next < |s| && next != hole && s[next].key != SENTINEL
    ensures Contents(s[hole := s[next]][next := Blank(dflt)]) == Contents(s[hole := Blank(dflt)])
  {
    var a := s[hole := Blank(dflt)];
    var b := s[hole := s[next]][next := Blank(dflt)];
    assert Unique(a) && Unique(b);
    forall x ensures x in Keys(a) <==> x in Keys(b) {
      if x in Keys(a) {
        var i := IndexOf(a, x);
        assert b[if i == next then hole else i].key == x;
      }
      if x in Keys(b) {
        var i := IndexOf(b, x);
        assert a[if i == hole then next else i].key == x;
      }
    }
    forall x | x in Keys(a) ensures Contents(b)[x] == Contents(a)[x] {
      var i := IndexOf(a, x);
      ContentsAt(a, i);
      ContentsAt(b, if i == next then hole else i);
    }
  }

  /** Clearing the hole leaves a well-formed table exactly when no key needs it. */
  lemma ClearHole<V>(s: seq<Slot<V>>, h: Hash, hole: nat, dflt: V)
    requires HoleOk(s, h, hole)
    requires forall i :: 0 <= i < |s| ==> !Needs(s, h, hole, i)
    ensures SlotsOk(s[hole := Blank(dflt)], h)
  {
    var t := s[hole := Blank(dflt)];
    forall i | 0 <= i < |t| && t[i].key != SENTINEL
      ensures PathFull(t, Home(h, t[i].key, |t|), i)
    {
      var a := Home(h, s[i].key, |s|);
      assert !Needs(s, h, hole, i);
      assert PathFull(s, a, i);
      forall e: nat | e < Dist(a, i, |t|) ensures At(t, a, e).key != SENTINEL {
        assert At(s, a, e).key != SENTINEL;
        assert Dist(a, Wrap(a + e, |s|), |s|) == e;
      }
    }
  }

  /** A key that needs the hole is lost when the hole is cleared. */
  lemma NeedyKeyLost<V>(s: seq<Slot<V>>, h: Hash, hole: nat, i: nat, dflt: V)
    requires HoleOk(s, h, hole) && i < |s| && Needs(s, h, hole, i)
    ensures Find(s[hole := Blank(dflt)], h, s[i].key) == None
    ensures s[i].key in Contents(s[hole := Blank(dflt)])
  {
    var t := s[hole := Blank(dflt)];
    var k := s[i].key;
    var home := Home(h, k, |s|);
    var d := Dist(home, hole, |s|);
    assert t[i].key in Keys(t);
    assert At(t, home, d).key == SENTINEL;
    forall e: nat | e < d ensures At(t, home, e).key != k {
      assert Wrap(home + e, |s|) != i && Wrap(home + e, |s|) != hole;
    }
  }

  // ---------------------------------------------------------------- the scans

  /** A key that can be reached from its home lies before any empty slot behind a hole on its path. */
  lemma BeforeEmpty<V>(s: seq<Slot<V>>, h: Hash, hole: nat, e: nat, m: nat)
    requires hole < |s| && 0 < e < |s| && m < |s| && At(s, hole, e).key == SENTINEL && s[m].key != SENTINEL
    requires PathFull(s, Home(h, s[m].key, |s|), m) && Movable(s, h, hole, m)
    ensures Dist(hole, m, |s|) < e
  {
    var home := Home(h, s[m].key, |s|);
    CyclicSum(home, hole, m, |s|);
    var d := Dist(home, hole, |s|) + e;
    assert d < |s| ==> At(s, home, d) == At(s, hole, e);
    assert Dist(hole, m, |s|) != e;
  }

  /** A key beyond an empty slot does not need a hole before it. */
  lemma NotBeyondEmpty<V>(s: seq<Slot<V>>, h: Hash, hole: nat, e: nat, m: nat)
    requires HoleOk(s, h, hole) && 0 < e < |s| && m < |s|
    requires At(s, hole, e).key == SENTINEL && Needs(s, h, hole, m)
    ensures Dist(hole, m, |s|) < e
  {
    BeforeEmpty(s, h, hole, e, m);
  }

  lemma {:induction false} ShiftKeeps<V>(s: seq<Slot<V>>, h: Hash, hole: nat, i: nat, last: nat, dflt: V)
    requires HoleOk(s, h, hole) && last < i <= |s|
    requires forall m: nat :: m < |s| && last < Dist(hole, m, |s|) < i ==> !Needs(s, h, hole, m)
    ensures var r := Shift(s, h, hole, i, last);
            && HoleOk(r.slots, h, r.hole) && r.last < |s|
            && Contents(r.slots[r.hole := Blank(dflt)]) == Contents(s[hole := Blank(dflt)])
            && OccupiedSlots(r.slots) == OccupiedSlots(s)
            && (forall m: nat :: m < |s| && Needs(r.slots, h, r.hole, m) ==> Dist(r.hole, m, |s|) <= r.last)
    decreases |s| - i
  {
    hide HoleOk, Contents, OccupiedSlots, Movable;
    HoleIn(s, h, hole);
    var next := if i == |s| then 0 else Wrap(hole + i, |s|);
    if i == |s| || s[next].key == SENTINEL {
      forall m: nat | m < |s| && Needs(s, h, hole, m) ensures Dist(hole, m, |s|) <= last {
        if i < |s| {
          NotBeyondEmpty(s, h, hole, i, m);
        }
      }
    } else if Movable(s, h, hole, next) {
      MoveKeeps(s, h, hole, next, dflt);
      ShiftKeeps(s[hole := s[next]], h, next, i + 1, i, dflt);
    } else {
      OffsetIs(hole, next, i, |s|);
      ShiftKeeps(s, h, hole, i + 1, last, dflt);
    }
  }

  lemma OffsetIs(hole: nat, next: nat, i: nat, cap: nat)
    requires hole < cap && i < cap && next == Wrap(hole + i, cap)
    ensures forall m: nat :: m < cap && Dist(hole, m, cap) == i ==> m == next
  {
  }

  lemma HoleIn<V>(s: seq<Slot<V>>, h: Hash, hole: nat)
    requires HoleOk(s, h, hole)
    ensures hole < |s| && s[hole].key != SENTINEL
  {
  }

  lemma Walk(hole: nat, j: nat, e: nat, cap: nat)
    requires hole < cap && e < cap && 0 < j <= Dist(hole, e, cap)
    ensures var next := Wrap(hole + j, cap);
            next != hole && Dist(next, e, cap) == Dist(hole, e, cap) - j && (Dist(next, e, cap) == 0 ==> next == e)
  {
  }

  lemma StartOver(hole: nat, cap: nat)
    requires hole < cap
    ensures forall m: nat :: m < cap && Dist(hole, m, cap) < 1 ==> m == hole
  {
  }

  lemma {:induction false} ShiftAllKeeps<V>(s: seq<Slot<V>>, h: Hash, hole: nat, j: nat, i: nat, e: nat, dflt: V)
    requires HoleOk(s, h, hole) && 0 < j <= i <= |s| && e < |s| && s[e].key == SENTINEL
    requires j <= Dist(hole, e, |s|) && Dist(hole, e, |s|) - j < |s| - i
    requires forall m: nat :: m < |s| && Dist(hole, m, |s|) < j ==> !Needs(s, h, hole, m)
    ensures var r := ShiftAll(s, h, hole, j, i);
            && HoleOk(r.slots, h, r.hole)
            && Contents(r.slots[r.hole := Blank(dflt)]) == Contents(s[hole := Blank(dflt)])
            && OccupiedSlots(r.slots) == OccupiedSlots(s)
            && (forall m: nat :: m < |s| ==> !Needs(r.slots, h, r.hole, m))
    decreases |s| - i
  {
    hide HoleOk, Contents, OccupiedSlots, Dist, Wrap, Movable;
    HoleIn(s, h, hole);
    Walk(hole, j, e, |s|);
    var next := Wrap(hole + j, |s|);
    if s[next].key == SENTINEL {
      forall m: nat | m < |s| ensures !Needs(s, h, hole, m) {
        if Needs(s, h, hole, m) {
          NotBeyondEmpty(s, h, hole, j, m);
        }
      }
    } else if Movable(s, h, hole, next) {
      MoveKeeps(s, h, hole, next, dflt);
      StartOver(next, |s|);
      ShiftAllKeeps(s[hole := s[next]], h, next, 1, i + 1, e, dflt);
    } else {
      OffsetIs(hole, next, j, |s|);
      ShiftAllKeeps(s, h, hole, j + 1, i + 1, e, dflt);
    }
  }

  // ---------------------------------------------------------------- whole deletions

  lemma PositionTells<V>(s: seq<Slot<V>>, h: Hash, k: Key)
    requires SlotsOk(s, h) && k != SENTINEL
    ensures Position(s, h, k) < |s| <==> k in Contents(s)
  {
    FindIsLookup(s, h, k);
    hide SlotsOk, Contents;
  }

  /** Erase finds a key exactly if the table holds it, and otherwise changes nothing. */
  lemma EraseTells<V>(t: Table<V>, h: Hash, dflt: V, k: Key)
    requires TableOk(t, h) && k != SENTINEL
    ensures var (u, found) := Erase(t, h, dflt, k);
            (found <==> k in Contents(t.slots)) && (!found ==> u == t)
  {
    hide SlotsOk, Contents, Shift, Position;
    PositionTells(t.slots, h, k);
  }

  lemma OpenHole<V>(s: seq<Slot<V>>, h: Hash, pos: nat, dflt: V)
    requires SlotsOk(s, h) && pos < |s| && s[pos].key != SENTINEL
    ensures HoleOk(s, h, pos)
    ensures Contents(s[pos := Blank(dflt)]) == Contents(s) - {s[pos].key}
  {
    BlankedContents(s, pos, dflt);
    hide Contents;
  }

  lemma BlankedContents<V>(s: seq<Slot<V>>, pos: nat, dflt: V)
    requires Unique(s) && pos < |s| && s[pos].key != SENTINEL
    ensures Contents(s[pos := Blank(dflt)]) == Contents(s) - {s[pos].key}
  {
    var t := s[pos := Blank(dflt)];
    BlankedKeys(s, pos, dflt);
    forall x | x in Keys(t) ensures Contents(t)[x] == Contents(s)[x] {
      var i := IndexOf(t, x);
      ContentsAt(s, i);
      ContentsAt(t, i);
    }
    hide Keys;
  }

  lemma BlankedKeys<V>(s: seq<Slot<V>>, pos: nat, dflt: V)
    requires Unique(s) && pos < |s| && s[pos].key != SENTINEL
    ensures Unique(s[pos := Blank(dflt)])
    ensures Keys(s[pos := Blank(dflt)]) == Keys(s) - {s[pos].key}
  {
    var t := s[pos := Blank(dflt)];
    forall x | x in Keys(s) && x != s[pos].key ensures x in Keys(t) {
      assert t[IndexOf(s, x)].key == x;
    }
    forall x | x in Keys(t) ensures x in Keys(s) && x != s[pos].key {
      assert s[IndexOf(t, x)].key == x;
    }
  }

  lemma ClearedCount<V>(s: seq<Slot<V>>, hole: nat, dflt: V)
    requires hole < |s| && s[hole].key != SENTINEL
    ensures |OccupiedSlots(s[hole := Blank(dflt)])| == |OccupiedSlots(s)| - 1
  {
    assert hole in OccupiedSlots(s);
    assert OccupiedSlots(s[hole := Blank(dflt)]) == OccupiedSlots(s) - {hole};
  }

  /** The contiguous scan removes exactly one key and keeps the table well formed. */
  lemma EraseAllCorrect<V>(t: Table<V>, h: Hash, dflt: V, k: Key)
    requires TableOk(t, h) && k != SENTINEL
    ensures var (u, found) := EraseAll(t, h, dflt, k);
            && TableOk(u, h) && Contents(u.slots) == Contents(t.slots) - {k}
            && found == (k in Contents(t.slots))
  {
    var s := t.slots;
    var pos := Position(s, h, k);
    PositionTells(s, h, k);
    RoomLeft(t, h);
    hide SlotsOk, Contents, OccupiedSlots, HoleOk, ShiftAll, Position;
    if pos < |s| {
      var e: nat :| e < |s| && s[e].key == SENTINEL;
      OpenHole(s, h, pos, dflt);
      ShiftAllKeeps(s, h, pos, 1, 1, e, dflt);
      var r := ShiftAll(s, h, pos, 1, 1);
      HoleIn(r.slots, h, r.hole);
      ClearHole(r.slots, h, r.hole, dflt);
      ClearedCount(r.slots, r.hole, dflt);
    }
  }

  lemma RoomLeft<V>(t: Table<V>, h: Hash)
    requires TableOk(t, h)
    ensures exists e: nat :: e < |t.slots| && t.slots[e].key == SENTINEL
  {
    EmptySlot(t.slots);
  }

  // ---------------------------------------------------------------- what the scan skips, read off the table

  /** The holes that the loop as written leaves behind, found on the table before the call: the last one, and the loop count there. */
  function Chain<V>(s: seq<Slot<V>>, h: Hash, hole: nat, i: nat, last: nat): (r: (nat, nat))
    requires hole < |s| && 0 < i <= |s| && last < i
    ensures r.0 < |s| && r.1 < |s|
    decreases |s| - i
  {
    if i == |s| then (hole, last)
    else
      var next := Wrap(hole + i, |s|);
      if s[next].key == SENTINEL then (hole, last)
      else if Movable(s, h, hole, next) then Chain(s, h, next, i + 1, i)
      else Chain(s, h, hole, i + 1, last)
  }

  /** The slots that the loop jumps over when it makes its last hole hold no key that belongs in that hole. */
  predicate SkipsNothingNeeded<V>(s: seq<Slot<V>>, h: Hash, pos: nat)
    requires pos < |s| && |s| > 1
  {
    var (hole, last) := Chain(s, h, pos, 1, 0);
    forall d :: 0 < d <= last ==> At(s, hole, d).key == SENTINEL || !Movable(s, h, hole, Wrap(hole + d, |s|))
  }

  /** u is s with keys moved back between pos and hole; e is the first empty slot after pos. */
  ghost predicate Shifting<V>(s: seq<Slot<V>>, u: seq<Slot<V>>, h: Hash, pos: nat, hole: nat, e: nat) {
    && SlotsOk(s, h) && HoleOk(u, h, hole) && |u| == |s| && pos < |s| && e < |s|
    && s[e].key == SENTINEL && Dist(pos, hole, |s|) < Dist(pos, e, |s|)
    && (forall x: nat :: x < |s| && Dist(pos, x, |s|) >= Dist(pos, hole, |s|) ==> u[x] == s[x])
    && (forall x: nat :: x < |s| && Dist(pos, x, |s|) < Dist(pos, hole, |s|) ==>
          u[x].key != SENTINEL && s[x].key != SENTINEL)
  }

  lemma Behind(pos: nat, hole: nat, e: nat, x: nat, cap: nat)
    requires pos < cap && hole < cap && e < cap && x < cap && Dist(pos, hole, cap) < Dist(pos, e, cap)
    ensures 0 < Dist(hole, e, cap) && Wrap(hole + Dist(hole, e, cap), cap) == e
    ensures Dist(pos, x, cap) < Dist(pos, hole, cap) ==> Dist(hole, x, cap) > Dist(hole, e, cap)
    ensures Dist(pos, x, cap) >= Dist(pos, hole, cap) ==> Dist(pos, x, cap) == Dist(pos, hole, cap) + Dist(hole, x, cap)
    ensures Dist(pos, e, cap) == Dist(pos, hole, cap) + Dist(hole, e, cap)
  {
  }

  /** Moved slots and slots of the table before the call agree on what may move into the hole. */
  lemma SameMovable<V>(s: seq<Slot<V>>, u: seq<Slot<V>>, h: Hash, pos: nat, hole: nat, e: nat, x: nat)
    requires Shifting(s, u, h, pos, hole, e) && x < |s| && x != hole
    ensures u[x].key == SENTINEL <==> s[x].key == SENTINEL
    ensures s[x].key != SENTINEL ==> (Movable(u, h, hole, x) <==> Movable(s, h, hole, x))
    ensures s[x].key != SENTINEL && Movable(s, h, hole, x) ==>
              Dist(pos, hole, |s|) < Dist(pos, x, |s|) < Dist(pos, e, |s|)
  {
    Behind(pos, hole, e, x, |s|);
    var d := Dist(hole, e, |s|);
    assert At(s, hole, d).key == SENTINEL && At(u, hole, d).key == SENTINEL;
    if s[x].key != SENTINEL {
      if Movable(s, h, hole, x) {
        BeforeEmpty(s, h, hole, d, x);
      }
      if Movable(u, h, hole, x) {
        NotBeyondEmpty(u, h, hole, d, x);
      }
    }
  }

  lemma MoveShifts<V>(s: seq<Slot<V>>, u: seq<Slot<V>>, h: Hash, pos: nat, hole: nat, e: nat, next: nat)
    requires Shifting(s, u, h, pos, hole, e) && next < |s| && Needs(u, h, hole, next)
    ensures Shifting(s, u[hole := u[next]], h, pos, next, e)
  {
    SameMovable(s, u, h, pos, hole, e, next);
    MoveReach(u, h, hole, next);
    var v := u[hole := u[next]];
    hide HoleOk, SlotsOk, Movable;
    forall x: nat | x < |s| && Dist(pos, x, |s|) < Dist(pos, next, |s|)
      ensures v[x].key != SENTINEL && s[x].key != SENTINEL
    {
      RunIsFull(s, u, h, pos, hole, e, next, x);
    }
  }

  /** Every slot between the hole and a key that needs it is occupied. */
  lemma RunIsFull<V>(s: seq<Slot<V>>, u: seq<Slot<V>>, h: Hash, pos: nat, hole: nat, e: nat, next: nat, x: nat)
    requires Shifting(s, u, h, pos, hole, e) && next < |s| && Needs(u, h, hole, next)
    requires x < |s| && Dist(pos, x, |s|) < Dist(pos, next, |s|)
    ensures u[x].key != SENTINEL && s[x].key != SENTINEL
  {
    var cap := |s|;
    SameMovable(s, u, h, pos, hole, e, next);
    if Dist(pos, x, cap) >= Dist(pos, hole, cap) {
      Behind(pos, hole, e, x, cap);
      Behind(pos, hole, e, next, cap);
      OnPath(u, h, hole, next, x);
    }
  }

  /** A slot between the hole and a key that may move into it is on that key's path. */
  lemma OnPath<V>(u: seq<Slot<V>>, h: Hash, hole: nat, next: nat, x: nat)
    requires HoleOk(u, h, hole) && next < |u| && x < |u| && Needs(u, h, hole, next)
    requires Dist(hole, x, |u|) < Dist(hole, next, |u|)
    ensures u[x].key != SENTINEL
  {
    var cap := |u|;
    var home := Home(h, u[next].key, cap);
    CyclicSum(home, hole, next, cap);
    assert PathFull(u, home, next);
    var d := Dist(home, hole, cap) + Dist(hole, x, cap);
    assert d < Dist(home, next, cap);
    assert At(u, home, d) == u[x];
  }

  /** The loop as written ends where the chain on the table before the call says. */
  lemma {:induction false} ShiftFollowsChain<V>(s: seq<Slot<V>>, u: seq<Slot<V>>, h: Hash, pos: nat, hole: nat, e: nat, i: nat, last: nat)
    requires Shifting(s, u, h, pos, hole, e) && hole < |u| && 0 < i <= |s| && last < i
    ensures var r := Shift(u, h, hole, i, last);
            (r.hole, r.last) == Chain(s, h, hole, i, last) && Shifting(s, r.slots, h, pos, r.hole, e)
    decreases |s| - i
  {
    hide Shifting, Movable;
    ShiftingParts(s, u, h, pos, hole, e);
    if i < |s| {
      var next := Wrap(hole + i, |s|);
      SameMovable(s, u, h, pos, hole, e, next);
      if s[next].key != SENTINEL {
        if Movable(u, h, hole, next) {
          MoveShifts(s, u, h, pos, hole, e, next);
          ShiftFollowsChain(s, u[hole := u[next]], h, pos, next, e, i + 1, i);
        } else {
          ShiftFollowsChain(s, u, h, pos, hole, e, i + 1, last);
        }
      }
    }
  }

  lemma ShiftingParts<V>(s: seq<Slot<V>>, u: seq<Slot<V>>, h: Hash, pos: nat, hole: nat, e: nat)
    requires Shifting(s, u, h, pos, hole, e)
    ensures |u| == |s| && hole < |s| && pos < |s| && e < |s|
  {
    hide SlotsOk;
  }

  /** On the table before the call, the window holds a needed key exactly when it does after the shift. */
  lemma WindowIff<V>(s: seq<Slot<V>>, r: Shifted<V>, h: Hash, pos: nat, e: nat)
    requires pos < |s| && |s| > 1 && Shifting(s, r.slots, h, pos, r.hole, e) && r.last < |s|
    requires (r.hole, r.last) == Chain(s, h, pos, 1, 0)
    ensures r.hole < |r.slots| == |s|
    ensures SkipsNothingNeeded(s, h, pos) <==>
            forall m: nat :: m < |s| && Dist(r.hole, m, |s|) <= r.last ==> !Needs(r.slots, h, r.hole, m)
  {
    hide Shifting, Movable, Chain;
    ShiftingParts(s, r.slots, h, pos, r.hole, e);
    var cap := |s|;
    if SkipsNothingNeeded(s, h, pos) {
      forall m: nat | m < cap && Dist(r.hole, m, cap) <= r.last ensures !Needs(r.slots, h, r.hole, m) {
        if m != r.hole {
          SameMovable(s, r.slots, h, pos, r.hole, e, m);
          var d := Dist(r.hole, m, cap);
          assert At(s, r.hole, d) == s[m] && d > 0;
        }
      }
    } else {
      var d :| 0 < d <= r.last && At(s, r.hole, d).key != SENTINEL && Movable(s, h, r.hole, Wrap(r.hole + d, cap));
      var m := Wrap(r.hole + d, cap);
      assert m != r.hole && Dist(r.hole, m, cap) == d;
      SameMovable(s, r.slots, h, pos, r.hole, e, m);
    }
  }

  ghost predicate AnswersLike<V>(s: seq<Slot<V>>, h: Hash, m: map<Key, V>)
    requires |s| > 0
  {
    forall x: Key :: Find(s, h, x) == Lookup(m, x)
  }

  /**
   Erase as written always removes the one key physically, and every other key
   can still be found exactly when, on the table before the call, the slots that
   the loop jumps over hold no key that belongs in the hole it clears.
   */
  lemma EraseKeepsOthersIff<V>(t: Table<V>, h: Hash, dflt: V, k: Key)
    requires TableOk(t, h) && k in Contents(t.slots)
    ensures Position(t.slots, h, k) < |t.slots| && |t.slots| > 1
    ensures var (u, found) := Erase(t, h, dflt, k);
            && found && |u.slots| == |t.slots|
            && Contents(u.slots) == Contents(t.slots) - {k}
            && u.count == |OccupiedSlots(u.slots)|
            && (AnswersLike(u.slots, h, Contents(t.slots) - {k}) <==>
                SkipsNothingNeeded(t.slots, h, Position(t.slots, h, k)))
  {
    hide TableOk, SlotsOk, Contents, OccupiedSlots, HoleOk, Shift, Position, SkipsNothingNeeded, Shifting, Chain;
    var s := t.slots;
    TableParts(t, h, k);
    PositionTells(s, h, k);
    var pos := Position(s, h, k);
    RoomLeft(t, h);
    var e: nat :| e < |s| && s[e].key == SENTINEL;
    OpenHole(s, h, pos, dflt);
    ShiftKeeps(s, h, pos, 1, 0, dflt);
    var r := Shift(s, h, pos, 1, 0);
    StartShifting(s, h, pos, e);
    ShiftFollowsChain(s, s, h, pos, pos, e, 1, 0);
    WindowIff(s, r, h, pos, e);
    HoleIn(r.slots, h, r.hole);
    ClearedCount(r.slots, r.hole, dflt);
    ClearedIff(r, h, dflt, Contents(s) - {k});
  }

  lemma TableParts<V>(t: Table<V>, h: Hash, k: Key)
    requires TableOk(t, h) && k in Contents(t.slots)
    ensures k != SENTINEL && SlotsOk(t.slots, h) && t.count == |OccupiedSlots(t.slots)|
  {
    KeysAreContents(t.slots);
    hide SlotsOk, OccupiedSlots;
  }

  lemma StartShifting<V>(s: seq<Slot<V>>, h: Hash, pos: nat, e: nat)
    requires SlotsOk(s, h) && HoleOk(s, h, pos) && pos < |s| && e < |s| && s[e].key == SENTINEL
    ensures Shifting(s, s, h, pos, pos, e)
  {
    assert s[pos].key != SENTINEL;
    hide SlotsOk, HoleOk;
  }

  lemma ClearedIff<V>(r: Shifted<V>, h: Hash, dflt: V, m: map<Key, V>)
    requires HoleOk(r.slots, h, r.hole) && r.last < |r.slots|
    requires forall i: nat :: i < |r.slots| && Needs(r.slots, h, r.hole, i) ==> Dist(r.hole, i, |r.slots|) <= r.last
    requires Contents(r.slots[r.hole := Blank(dflt)]) == m
    ensures AnswersLike(r.slots[r.hole := Blank(dflt)], h, m) <==>
            forall i: nat :: i < |r.slots| && Dist(r.hole, i, |r.slots|) <= r.last ==> !Needs(r.slots, h, r.hole, i)
  {
    hide HoleOk, Contents;
    HoleIn(r.slots, h, r.hole);
    var s, u := r.slots, r.slots[r.hole := Blank(dflt)];
    if i: nat :| i < |s| && Needs(s, h, r.hole, i) {
      NeedyKeyLost(s, h, r.hole, i, dflt);
      assert Find(u, h, s[i].key) != Lookup(m, s[i].key);
    } else {
      ClearHole(s, h, r.hole, dflt);
      forall x: Key ensures Find(u, h, x) == Lookup(m, x) {
        FindIsLookup(u, h, x);
      }
    }
  }

  /** In any table, three keys in a row at their common home with an empty slot behind them: erasing the first loses the third. */
  lemma ThirdOfThreeLost<V>(t: Table<V>, h: Hash, dflt: V, pos: nat)
    requires TableOk(t, h) && pos < |t.slots| && |t.slots| >= 4
    requires forall d :: 0 <= d < 3 ==> At(t.slots, pos, d).key != SENTINEL && Home(h, At(t.slots, pos, d).key, |t.slots|) == pos
    requires At(t.slots, pos, 3).key == SENTINEL
    ensures var k, lost := t.slots[pos].key, At(t.slots, pos, 2).key;
            && lost in Contents(t.slots) && lost != k
            && Find(t.slots, h, lost) == Lookup(Contents(t.slots), lost)
            && Find(Erase(t, h, dflt, k).0.slots, h, lost) == None
  {
    hide HoleOk, Contents, SlotsOk, OccupiedSlots, Shift, Position, Find;
    var s, cap := t.slots, |t.slots|;
    var p1, p2 := Wrap(pos + 1, cap), Wrap(pos + 2, cap);
    assert At(s, pos, 0) == s[pos] && At(s, pos, 1) == s[p1] && At(s, pos, 2) == s[p2];
    AtHome(s, h, pos);
    ShiftOfThree(s, h, pos);
    OpenHole(s, h, pos, dflt);
    ThirdNeeds(s, h, pos, p1, p2);
    FindIsLookup(s, h, s[p2].key);
    NeedyKeyLost(s[pos := s[p1]], h, p1, p2, dflt);
    PresentKey(s, p2);
    KeysDiffer(s, h, pos, p2);
  }

  lemma KeysDiffer<V>(s: seq<Slot<V>>, h: Hash, i: nat, j: nat)
    requires SlotsOk(s, h) && i < |s| && j < |s| && i != j && s[i].key != SENTINEL
    ensures s[i].key != s[j].key
  {
    hide Reachable;
  }

  lemma AtHome<V>(s: seq<Slot<V>>, h: Hash, pos: nat)
    requires pos < |s| && s[pos].key != SENTINEL && Home(h, s[pos].key, |s|) == pos
    ensures Position(s, h, s[pos].key) == pos
  {
    assert At(s, pos, 0) == s[pos];
  }

  /** The second of the three moves into the hole, and the scan goes on behind the third. */
  lemma ShiftOfThree<V>(s: seq<Slot<V>>, h: Hash, pos: nat)
    requires pos < |s| && |s| >= 4
    requires At(s, pos, 1).key != SENTINEL && Home(h, At(s, pos, 1).key, |s|) == pos && At(s, pos, 3).key == SENTINEL
    ensures var p1 := Wrap(pos + 1, |s|);
            Shift(s, h, pos, 1, 0) == Shifted(s[pos := s[p1]], p1, 1)
  {
    var p1, p3 := Wrap(pos + 1, |s|), Wrap(pos + 3, |s|);
    var s1 := s[pos := s[p1]];
    assert At(s, pos, 1) == s[p1] && At(s, pos, 3) == s[p3];
    assert Wrap(p1 + 2, |s|) == p3;
    assert Shift(s1, h, p1, 2, 1) == Shifted(s1, p1, 1);
  }

  lemma ThirdNeeds<V>(s: seq<Slot<V>>, h: Hash, pos: nat, p1: nat, p2: nat)
    requires HoleOk(s, h, pos) && |s| >= 4 && p1 == Wrap(pos + 1, |s|) && p2 == Wrap(pos + 2, |s|)
    requires s[p1].key != SENTINEL && s[p2].key != SENTINEL
    requires Home(h, s[p1].key, |s|) == pos && Home(h, s[p2].key, |s|) == pos
    ensures HoleOk(s[pos := s[p1]], h, p1) && Needs(s[pos := s[p1]], h, p1, p2) && p1 != p2 && p2 != pos
  {
    MoveReach(s, h, pos, p1);
    hide HoleOk;
  }

  lemma PresentKey<V>(s: seq<Slot<V>>, i: nat)
    requires i < |s| && s[i].key != SENTINEL
    ensures s[i].key in Contents(s)
  {
    assert s[i].key in Keys(s);
  }

  /** Three keys with one home: erasing the first loses the third. */
  lemma EraseLosesThird(dflt: int)
    ensures var h: Hash := k => 0;
            var t := Table([Slot(1, 10), Slot(2, 20), Slot(3, 30), Blank(dflt)], 3);
            && TableOk(t, h)
            && Find(t.slots, h, 3) == Some(30)
            && Find(Erase(t, h, dflt, 1).0.slots, h, 3) == None
  {
    var h: Hash := k => 0;
    var s := [Slot(1, 10), Slot(2, 20), Slot(3, 30), Blank(dflt)];
    assert OccupiedSlots(s) == {0, 1, 2};
    assert Stop(s, 3, 0, 2) == 2 && Stop(s, 3, 0, 1) == 2;
    assert Position(s, h, 1) == 0;
    var s1 := s[0 := s[1]];
    assert Shift(s1, h, 1, 2, 1) == Shifted(s1, 1, 1);
    assert Shift(s, h, 0, 1, 0) == Shifted(s1, 1, 1);
    var u := s1[1 := Blank(dflt)];
    assert Stop(u, 3, 0, 1) == 1;
  }
}
