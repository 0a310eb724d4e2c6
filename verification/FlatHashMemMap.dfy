/**
 The table as the program runs it: an array of slots changed in place by probe
 and rehash loops.  Each method computes the corresponding function on slot
 sequences; the public methods say what happens to the map.
 */
module FlatHashMemMap {
  import opened Prelude
  import opened FlatHashSpec
  import opened FlatHashProofs
  import opened FlatHashErase

  class MemMap<V> {
    const hash: Hash
    const dflt: V
    var slots: array<Slot<V>>
    var cap: nat
    var count: nat

    ghost function State(): Table<V>
      reads this, slots
    {
      Table(slots[..], count)
    }

    ghost predicate Valid()
      reads this, slots
    {
      cap == slots.Length && cap > 0 && TableOk(State(), hash)
    }

    ghost function Map(): map<Key, V>
      reads this, slots
    {
      Contents(slots[..])
    }

    constructor (cap: nat, hash: Hash, dflt: V)
      requires cap > 0
      ensures Valid() && fresh(slots) && Map() == map[]
      ensures State() == Table(Repeat(Blank(dflt), cap), 0) && this.hash == hash && this.dflt == dflt
    {
      this.hash, this.dflt, this.cap, this.count := hash, dflt, cap, 0;
      slots := new Slot<V>[cap](_ => Blank(dflt));
      new;
      assert slots[..] == Repeat(Blank(dflt), cap);
      BlankOk(cap, dflt, hash);
    }

    method FindKey(key: Key) returns (r: Option<V>)
      requires Valid()
      ensures r == Find(slots[..], hash, key) == Lookup(Map(), key)
    {
      hide SlotsOk, Contents, OccupiedSlots;
      FindIsLookup(slots[..], hash, key);
      var idx := Home(hash, key, cap);
      var i := 0;
      while i < cap
        invariant i <= cap
        invariant Stop(slots[..], key, idx, 0) == Stop(slots[..], key, idx, i)
      {
        var s := slots[Wrap(idx + i, cap)];
        if s.key == SENTINEL {
          return None;
        }
        if s.key == key {
          return Some(s.value);
        }
        i := i + 1;
      }
      return None;
    }

    method PutInternal(key: Key, value: V) returns (isNew: bool)
      requires slots.Length == cap > 0
      modifies slots, `count
      ensures Insert(old(slots[..]), hash, key, value) == (slots[..], isNew)
      ensures count == old(count) + (if isNew then 1 else 0)
    {
      var idx := Home(hash, key, cap);
      var i := 0;
      while i < cap
        invariant i <= cap && slots[..] == old(slots[..]) && count == old(count)
        invariant Stop(slots[..], key, idx, 0) == Stop(slots[..], key, idx, i)
      {
        var pos := Wrap(idx + i, cap);
        if slots[pos].key == SENTINEL {
          slots[pos] := Slot(key, value);
          count := count + 1;
          return true;
        }
        if slots[pos].key == key {
          slots[pos] := Slot(key, value);
          return false;
        }
        i := i + 1;
      }
      return false;
    }

    static method PutIntoRaw(a: array<Slot<V>>, hash: Hash, key: Key, value: V)
      requires a.Length > 0
      modifies a
      ensures a[..] == RawInsert(old(a[..]), hash, key, value)
    {
      var idx := Home(hash, key, a.Length);
      var i := 0;
      while i < a.Length
        invariant i <= a.Length && a[..] == old(a[..])
        invariant Stop(a[..], SENTINEL, idx, 0) == Stop(a[..], SENTINEL, idx, i)
      {
        var pos := Wrap(idx + i, a.Length);
        if a[pos].key == SENTINEL {
          a[pos] := Slot(key, value);
          return;
        }
        i := i + 1;
      }
    }

    method GrowTable()
      requires slots.Length == cap > 0
      modifies this
      ensures fresh(slots) && slots.Length == cap
      ensures State() == Grow(old(State()), hash, dflt)
    {
      var newCap := cap * 2;
      var blank := Blank(dflt);
      var newSlots := new Slot<V>[newCap](_ => blank);
      assert newSlots[..] == Repeat(blank, newCap);
      ghost var was := slots[..];
      var i := 0;
      while i < cap
        invariant i <= cap == slots.Length && slots[..] == was && newSlots != slots && fresh(newSlots)
        invariant Rehash(was, 0, Repeat(blank, newCap), hash) == Rehash(was, i, newSlots[..], hash)
        modifies newSlots
      {
        if slots[i].key != SENTINEL {
          PutIntoRaw(newSlots, hash, slots[i].key, slots[i].value);
        }
        i := i + 1;
      }
      cap := newCap;
      slots := newSlots;
    }

    /** Insert or overwrite; true if the key is new. */
    method PutKey(key: Key, value: V) returns (isNew: bool)
      requires Valid() && key != SENTINEL
      modifies this, slots
      ensures Valid() && (slots == old(slots) || fresh(slots))
      ensures Map() == old(Map())[key := value]
      ensures isNew == (key !in old(Map()))
      ensures Put(old(State()), hash, dflt, key, value) == (State(), isNew)
      ensures cap == if old(count) >= old(cap) * 3 / 4 then 2 * old(cap) else old(cap)
    {
      hide TableOk, Contents, Insert, Grow;
      PutCorrect(State(), hash, dflt, key, value);
      if count >= cap * 3 / 4 {
        GrowTable();
      }
      isNew := PutInternal(key, value);
    }

    method ClearAll()
      requires Valid()
      modifies slots, `count
      ensures Valid() && Map() == map[] && cap == old(cap)
    {
      ClearCorrect(State(), hash, dflt);
      var i := 0;
      while i < cap
        invariant i <= cap == slots.Length
        invariant forall j :: 0 <= j < i ==> slots[j] == Blank(dflt)
      {
        slots[i] := Blank(dflt);
        i := i + 1;
      }
      count := 0;
      assert slots[..] == Repeat(Blank(dflt), cap);
    }

    method FindPosition(key: Key) returns (pos: nat)
      requires slots.Length == cap > 0
      ensures pos == Position(slots[..], hash, key)
    {
      var idx := Home(hash, key, cap);
      var i := 0;
      while i < cap
        invariant i <= cap
        invariant Stop(slots[..], key, idx, 0) == Stop(slots[..], key, idx, i)
      {
        var probe := Wrap(idx + i, cap);
        if slots[probe].key == SENTINEL {
          break;
        }
        if slots[probe].key == key {
          return probe;
        }
        i := i + 1;
      }
      return cap;
    }

    /** Deletion as written: the slot number is taken from a hole that may have moved. */
    method EraseKey(key: Key) returns (found: bool)
      requires Valid()
      modifies slots, `count
      ensures Erase(old(State()), hash, dflt, key) == (State(), found)
      ensures cap == old(cap) == slots.Length
      ensures key != SENTINEL ==> (found <==> key in old(Map())) && (!found ==> State() == old(State()))
    {
      hide TableOk, Shift, Stop, Contents, Position;
      if key != SENTINEL {
        EraseTells(State(), hash, dflt, key);
      }
      var pos := FindPosition(key);
      if pos == cap {
        return false;
      }
      var hole := ShiftBack(pos);
      slots[hole] := Blank(dflt);
      if count > 0 {
        count := count - 1;
      }
      return true;
    }

    method ShiftBack(pos: nat) returns (hole: nat)
      requires slots.Length == cap && pos < cap
      modifies slots
      ensures hole < cap
      ensures var r := Shift(old(slots[..]), hash, pos, 1, 0); slots[..] == r.slots && hole == r.hole
    {
      hide Home, Dist, Wrap;
      hole := pos;
      ghost var last := 0;
      var i := 1;
      while i < cap
        invariant 0 < i <= cap && hole < cap
        invariant Shift(old(slots[..]), hash, pos, 1, 0) == Shift(slots[..], hash, hole, i, last)
      {
        var next := Wrap(hole + i, cap);
        var s := slots[next];
        if s.key == SENTINEL {
          break;
        }
        var home := Home(hash, s.key, cap);
        if Dist(home, hole, cap) <= Dist(home, next, cap) {
          ghost var was := slots[..];
          slots[hole] := slots[next];
          assert slots[..] == was[hole := was[next]];
          hole, last := next, i;
        }
        i := i + 1;
      }
    }
  }
}
