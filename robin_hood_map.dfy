/** The Robin Hood open-addressing table: uint64 keys, values of any type,
    a flat slot array of size + maxDist entries updated in place. */
module RobinHood {
  import opened Bits
  import opened Sizing
  import opened Slots
  import opened FibonacciHash

  class RobinHoodMap<V> {
    var entries: array<Entry<V>>
    var size: uint32
    var shift: nat
    var count: nat
    var maxDist: uint32

    /** The abstract view: the key/value pairs the table holds. */
    ghost var Contents: map<uint64, V>

    /** The table invariant: a valid geometry, every slot keeping SlotOk,
        the live slots holding exactly Contents, and count their number. The
        slot array then has the size + maxDist slots rehash allocates. */
    ghost predicate Valid()
      reads this, entries
      ensures Valid() ==> entries.Length == size + maxDist
    {
      && ValidSize(size)
      && shift == ShiftForSize(size)
      && maxDist == MaxDistForSize(size)
      && SlotsOk(entries[..], size)
      && Represents(entries[..], Contents)
      && count == Occupancy(entries[..])
    }

    /** newRobinHoodMap: an empty table whose size is the smallest power of
        two at least twice the capacity hint. The rehash it performs starts
        from a table without slots, so it only allocates. */
    constructor (initialCapacity: int)
      requires initialCapacity <= MaxCapacity
      ensures Valid() && fresh(entries)
      ensures Contents == map[] && count == 0
      ensures size == TargetSize(initialCapacity) && entries.Length == size + maxDist
      ensures forall p | 0 <= p < entries.Length :: entries[p] == Empty()
    {
      entries := new Entry<V>[0](_ => Empty());
      size, shift, count, maxDist := 0, 0, 0, 0;
      Contents := map[];
      new;
      Allocate(TargetSize(initialCapacity));
    }

    /** Slot i is where the carried entry n is looked at next: n is live and
        not in the table, i is n.dist slots past n's home, n is closer than
        the distance cap, and a displaced n follows a live entry at most one
        slot less displaced. */
    ghost predicate Carrying(n: Entry<V>, i: nat)
      reads this, entries
    {
      && Valid()
      && n.value.Some? && n.key !in Contents
      && i == Home(n.key, size) + n.dist && n.dist < maxDist && i < entries.Length
      && (n.dist > 0 ==> i > 0 && entries[i - 1].value.Some? && n.dist <= entries[i - 1].dist + 1)
    }

    /** Replaces the slot array by an empty one of newSize + maxDist slots
        and re-inserts every live entry of the old array, in array order. */
    method Rehash(newSize: nat) returns (ok: bool)
      requires ValidSize(newSize)
      requires Represents(entries[..], Contents) && count == Occupancy(entries[..])
      modifies this
      decreases MaxSize - newSize, 3
      ensures Valid() && fresh(entries) && newSize <= size
      ensures ok ==> Contents == old(Contents) && count == old(count)
      ensures !ok ==> size == MaxSize && SubMap(Contents, old(Contents))
    {
      var oldEntries := entries;
      ghost var oldSlots := entries[..];
      ghost var all := Contents;
      Allocate(newSize);
      var idx := 0;
      while idx < oldEntries.Length
        invariant 0 <= idx <= oldEntries.Length && oldEntries[..] == oldSlots
        invariant Valid() && fresh(entries) && newSize <= size
        invariant Represents(oldSlots[..idx], Contents)
        invariant count == LiveIn(oldSlots, 0, idx)
      {
        var e := oldEntries[idx];
        assert oldSlots[..idx + 1][..idx] == oldSlots[..idx];
        RepresentsExtend(oldSlots, Contents, idx);
        if e.value.Some? {
          assert e.key in all;
          ghost var before := Contents;
          ok := Put(e.key, e.value.value);
          if !ok {
            PrefixSubMap(oldSlots, idx + 1, before[e.key := e.value.value], all);
            return;
          }
        }
        idx := idx + 1;
      }
      assert oldSlots[..idx] == oldSlots;
      RepresentsUnique(oldSlots, Contents, all);
      ok := true;
    }

    /** The first half of rehash: the new geometry and an all-empty slot array. */
    method Allocate(newSize: nat)
      requires ValidSize(newSize)
      modifies this
      ensures Valid() && fresh(entries) && size == newSize
      ensures Contents == map[] && count == 0
      ensures forall p | 0 <= p < entries.Length :: entries[p] == Empty()
    {
      HomeBelowSize(0, newSize);
      size := newSize;
      shift := ShiftForSize(size);
      maxDist := MaxDistForSize(size);
      entries := new Entry<V>[size + maxDist](_ => Empty());
      count := 0;
      Contents := map[];
      EmptyTable(entries[..], size);
    }

    /** Inserts a key that is not in the table. The carried entry starts at
        its home slot; when it reaches the distance cap the table doubles
        and the carried entry restarts at its own home slot. Growth past
        MaxSize home slots is refused: Put then returns false. */
    method Put(k: uint64, v: V) returns (ok: bool)
      requires Valid() && k !in Contents
      modifies this, entries
      decreases MaxSize - size, 2
      ensures Valid() && old(size) <= size
      ensures entries == old(entries) || fresh(entries)
      ensures ok ==> Contents == old(Contents)[k := v] && count == old(count) + 1
      ensures !ok ==> size == MaxSize && SubMap(Contents, old(Contents)[k := v])
    {
      ghost var goal := Contents[k := v];
      var n := Entry(k, Some(v), 0);
      var i: nat := Hash(n.key, shift);
      HomeBelowSize(n.key, size);
      while true
        invariant Carrying(n, i) && goal == Contents[n.key := n.value.value]
        invariant old(size) <= size && (entries == old(entries) || fresh(entries)) && count == old(count)
        decreases MaxSize - size, entries.Length - i
      {
        var stored;
        stored, n := PlaceAt(n, i);
        if stored {
          return true;
        }
        i := i + 1;
        if n.dist == maxDist {
          ghost var before := Contents;
          ok, i := Grow(n);
          if !ok {
            assert SubMap(before, goal);
            SubMapTransitive(Contents, before, goal);
            return false;
          }
          n := n.(dist := 0);
        }
      }
    }

    /** One turn of Put's loop at slot i: an empty slot takes the carried
        entry; a resident closer to its home than the carried entry is to
        its own swaps with it (the resident is carried on); then the
        carried entry moves one slot further from home. */
    method PlaceAt(n: Entry<V>, i: nat) returns (stored: bool, next: Entry<V>)
      requires Carrying(n, i)
      modifies this`count, this`Contents, entries
      ensures Valid()
      ensures stored ==> Contents == old(Contents)[n.key := n.value.value] && count == old(count) + 1
      ensures !stored ==> count == old(count) && next.value.Some? && next.key !in Contents
      ensures !stored ==> Contents[next.key := next.value.value] == old(Contents)[n.key := n.value.value]
      ensures !stored ==> next.dist <= maxDist && (next.dist < maxDist ==> Carrying(next, i + 1))
    {
      var e := entries[i];
      if e.value.None? {
        StoreAt(n, i);
        return true, n;
      }
      assert SlotOk(entries[..], size, i);
      next := n;
      if e.dist < n.dist {
        next := SwapAt(n, i);
      }
      HomeBelowSize(next.key, size);
      next := next.(dist := next.dist + 1);
      stored := false;
    }

    /** The carried entry n goes into the empty slot i. */
    method StoreAt(n: Entry<V>, i: nat)
      requires Carrying(n, i) && entries[i].value.None?
      modifies this`count, this`Contents, entries
      ensures Valid() && entries[..] == old(entries[..])[i := n]
      ensures Contents == old(Contents)[n.key := n.value.value] && count == old(count) + 1
    {
      HomeBelowSize(n.key, size);
      StoreCarried(entries[..], size, i, n);
      RepresentsStore(entries[..], Contents, i, n);
      OccupancyUpdate(entries[..], i, n);
      entries[i] := n;
      count := count + 1;
      Contents := Contents[n.key := n.value.value];
    }

    /** The carried entry n takes slot i from the resident e, closer to its
        home than n is to its own; e is carried on from slot i. */
    method SwapAt(n: Entry<V>, i: nat) returns (e: Entry<V>)
      requires Carrying(n, i) && entries[i].value.Some? && entries[i].dist < n.dist
      modifies this`Contents, entries
      ensures Valid() && e == old(entries[i]) && entries[..] == old(entries[..])[i := n]
      ensures e.key !in Contents && Contents[e.key := e.value.value] == old(Contents)[n.key := n.value.value]
      ensures Home(e.key, size) + e.dist == i && e.dist < n.dist
    {
      e := entries[i];
      assert SlotOk(entries[..], size, i);
      HomeBelowSize(n.key, size);
      StoreCarried(entries[..], size, i, n);
      RepresentsStore(entries[..], Contents, i, n);
      OccupancyUpdate(entries[..], i, n);
      entries[i] := n;
      Contents := (Contents - {e.key})[n.key := n.value.value];
    }

    /** Put's growth step: the table doubles and the carried entry n will
        restart at its home slot in the doubled table. */
    method Grow(n: Entry<V>) returns (ok: bool, i: nat)
      requires Valid() && n.value.Some? && n.key !in Contents
      modifies this
      decreases MaxSize - size, 1
      ensures Valid() && old(size) <= size
      ensures entries == old(entries) || fresh(entries)
      ensures ok ==> 2 * old(size) <= size && Contents == old(Contents) && count == old(count)
      ensures ok ==> Carrying(n.(dist := 0), i)
      ensures !ok ==> size == MaxSize && SubMap(Contents, old(Contents))
    {
      if size == MaxSize {
        return false, 0;
      }
      DoubledSizeIsValid(size);
      ok := Rehash(2 * size);
      i := Hash(n.key, shift);
      HomeBelowSize(n.key, size);
    }

    /** The value stored under k, or None. The probe stops at the key or at
        the first slot whose entry is closer to its home than the probe is
        to k's home; it visits at most maxDist + 1 slots. */
    method Get(k: uint64) returns (r: Option<V>, ghost probes: nat)
      requires Valid()
      ensures r == if k in Contents then Some(Contents[k]) else None
      ensures probes <= maxDist + 1
    {
      var dist: nat := 0;
      var i: nat := Hash(k, shift);
      probes := 0;
      HomeBelowSize(k, size);
      while true
        invariant i == Home(k, size) + dist && dist <= maxDist && probes == dist
        invariant forall p | Home(k, size) <= p < i :: !(entries[p].value.Some? && entries[p].key == k)
        decreases maxDist - dist
      {
        var e := entries[i];
        probes := probes + 1;
        if k == e.key {
          if e.value.None? {
            ProbeMiss(entries[..], size, Contents, k, i, dist);
          }
          return e.value, probes;
        }
        if dist > e.dist {
          ProbeMiss(entries[..], size, Contents, k, i, dist);
          return None, probes;
        }
        assert SlotOk(entries[..], size, i);
        dist := dist + 1;
        i := i + 1;
      }
    }

    /** Removes k if present. The probe is Get's; a hit is removed by
        backward shift. */
    method Delete(k: uint64)
      requires Valid()
      modifies this`count, this`Contents, entries
      ensures Valid()
      ensures Contents == old(Contents) - {k}
      ensures count == if k in old(Contents) then old(count) - 1 else old(count)
      ensures k !in old(Contents) ==> entries[..] == old(entries[..])
      ensures k in old(Contents) ==> exists i: nat, j: nat ::
        && DeletionRun(old(entries[..]), i, j) && old(entries[..])[i].key == k
        && entries[..] == BackShift(old(entries[..]), i, j)
    {
      var dist: nat := 0;
      var i: nat := Hash(k, shift);
      HomeBelowSize(k, size);
      while true
        invariant i == Home(k, size) + dist && dist <= maxDist && i < entries.Length
        invariant forall p | Home(k, size) <= p < i :: !(entries[p].value.Some? && entries[p].key == k)
        decreases maxDist - dist
      {
        var e := entries[i];
        if e.value.Some? && k == e.key {
          ShiftBack(i);
          return;
        }
        if dist > e.dist {
          ProbeMiss(entries[..], size, Contents, k, i, dist);
          assert Contents - {k} == Contents;
          return;
        }
        assert SlotOk(entries[..], size, i);
        dist := dist + 1;
        i := i + 1;
      }
    }

    /** Deletes the live entry of slot i by backward shift and clears the
        last slot of the run. */
    method ShiftBack(i: nat)
      requires Valid() && i < entries.Length && entries[i].value.Some?
      modifies this`count, this`Contents, entries
      ensures Valid()
      ensures Contents == old(Contents) - {old(entries[i].key)} && count == old(count) - 1
      ensures exists j: nat :: DeletionRun(old(entries[..]), i, j) && entries[..] == BackShift(old(entries[..]), i, j)
    {
      ghost var s0 := entries[..];
      var k := entries[i].key;
      OccupancyUpdate(s0, i, Empty());
      SentinelEmpty(s0, size);
      var j := MoveRun(i, s0);
      assert entries[..] == BackShift(s0, i, j);
      BackShiftSlotsOk(s0, size, i, j);
      BackShiftRepresents(s0, size, Contents, i, j);
      BackShiftOccupancy(s0, i, j);
      count := count - 1;
      Contents := Contents - {k};
    }

    /** The inner loop of Delete: starting after slot i, each displaced
        entry moves back one slot, one slot closer to its home, until the
        first slot j holding an entry at distance 0 (an empty slot or an
        entry at its home); the hole left at slot j - 1 is then cleared.
        s0 names the slots on entry. */
    method MoveRun(i: nat, ghost s0: seq<Entry<V>>) returns (j: nat)
      requires entries[..] == s0
      requires i < |s0| - 1 && s0[|s0| - 1].dist == 0 && s0[i].value.Some?
      modifies entries
      ensures DeletionRun(s0, i, j)
      ensures forall m | 0 <= m < entries.Length :: entries[m] == BackShift(s0, i, j)[m]
    {
      var hole: nat := i;
      j := i + 1;
      while entries[j].dist != 0
        invariant i < j < entries.Length && hole == j - 1
        invariant forall m | i < m < j :: s0[m].dist > 0
        invariant forall m | 0 <= m < i :: entries[m] == s0[m]
        invariant forall m | j - 1 <= m < entries.Length :: entries[m] == s0[m]
        invariant forall m | i <= m < j - 1 :: entries[m] == Dec(s0[m + 1])
        decreases entries.Length - j
      {
        var t := entries[j];
        assert t == s0[j] && j < entries.Length - 1;
        entries[hole] := Dec(t);
        hole := j;
        j := j + 1;
      }
      entries[hole] := Empty();
    }
  }
}
