/** The slot array of a Robin Hood table as a value: the entry type, the
    invariant every slot keeps, the map the slots represent, and the facts
    about them that insertion, lookup and backward-shift deletion rely on. */
module Slots {
  import opened Bits
  import opened Sizing

  datatype Option<T> = None | Some(value: T)

  /** A slot: a key, a value (None is the source's nil, an empty slot) and
      the distance of the entry from its home slot. */
  datatype Entry<V> = Entry(key: uint64, value: Option<V>, dist: uint32)

  /** The zero entry, which is what an empty slot holds. */
  function Empty<V>(): Entry<V>
  {
    Entry(0, None, 0)
  }

  /** The invariant of slot i in a table with `size` home slots: an empty slot
      is the zero entry; a live entry sits `dist` slots past its home, never
      as far as the distance cap, and, when displaced, follows a live entry
      that is at most one slot less displaced (Robin Hood order). */
  ghost predicate SlotOk<V>(s: seq<Entry<V>>, size: uint32, i: nat)
    requires i < |s|
  {
    if s[i].value.None? then s[i] == Empty()
    else
      && Home(s[i].key, size) + s[i].dist == i
      && s[i].dist < MaxDistForSize(size)
      && (s[i].dist > 0 ==> i > 0 && s[i - 1].value.Some? && s[i].dist <= s[i - 1].dist + 1)
  }

  /** The whole array: size + maxDist slots, each keeping SlotOk. */
  ghost predicate SlotsOk<V>(s: seq<Entry<V>>, size: uint32)
  {
    && |s| == size + MaxDistForSize(size)
    && forall i | 0 <= i < |s| :: SlotOk(s, size, i)
  }

  ghost predicate KeysDistinct<V>(s: seq<Entry<V>>)
  {
    forall i, j | 0 <= i < j < |s| && s[i].value.Some? && s[j].value.Some? :: s[i].key != s[j].key
  }

  ghost predicate Holds<V>(s: seq<Entry<V>>, k: uint64)
  {
    exists i | 0 <= i < |s| :: s[i].value.Some? && s[i].key == k
  }

  /** The live entries of `s` are exactly the pairs of `m`, each key once. */
  ghost predicate Represents<V>(s: seq<Entry<V>>, m: map<uint64, V>)
  {
    && KeysDistinct(s)
    && (forall i | 0 <= i < |s| && s[i].value.Some? :: s[i].key in m && m[s[i].key] == s[i].value.value)
    && (forall k | k in m :: Holds(s, k))
  }

  ghost predicate SubMap<V>(m: map<uint64, V>, m': map<uint64, V>)
  {
    forall k | k in m :: k in m' && m[k] == m'[k]
  }

  /** The number of live slots. */
  function Occupancy<V>(s: seq<Entry<V>>): nat
  {
    LiveIn(s, 0, |s|)
  }

  /** The number of live slots among s[lo..hi]. */
  function LiveIn<V>(s: seq<Entry<V>>, lo: nat, hi: nat): nat
    requires lo <= hi <= |s|
    decreases hi - lo
  {
    if lo == hi then 0
    else LiveIn(s, lo, hi - 1) + (if s[hi - 1].value.Some? then 1 else 0)
  }

  /** An entry moved one slot back towards its home. */
  function Dec<V>(e: Entry<V>): Entry<V>
  {
    e.(dist := if e.dist > 0 then e.dist - 1 else 0)
  }

  /** Slot i is live, every slot after it up to j is displaced, and slot j
      is not: the run that backward-shift deletion of slot i moves. */
  ghost predicate DeletionRun<V>(s: seq<Entry<V>>, i: nat, j: nat)
  {
    && i < j < |s|
    && s[i].value.Some?
    && s[j].dist == 0
    && forall m | i < m < j :: s[m].dist > 0
  }

  /** The slots after deleting slot i by backward shift: the run i+1 .. j-1
      moves back one slot with its distances decremented, and slot j - 1
      becomes empty. */
  function BackShift<V>(s: seq<Entry<V>>, i: nat, j: nat): (t: seq<Entry<V>>)
    requires i < j <= |s|
    ensures |t| == |s| && t[j - 1] == Empty()
  {
    seq(|s|, m requires 0 <= m < |s| =>
      if m < i || m >= j then s[m]
      else if m == j - 1 then Empty()
      else Dec(s[m + 1]))
  }

  // ---- Occupancy ----

  /** Counting live slots is additive over adjacent ranges. */
  lemma {:induction false} LiveInSplit<V>(s: seq<Entry<V>>, lo: nat, mid: nat, hi: nat)
    requires lo <= mid <= hi <= |s|
    ensures LiveIn(s, lo, hi) == LiveIn(s, lo, mid) + LiveIn(s, mid, hi)
    decreases hi - mid
  {
    if mid < hi {
      LiveInSplit(s, lo, mid, hi - 1);
    }
  }

  /** Two arrays live in the same places of a range hold the same number
      of entries there. */
  lemma {:induction false} LiveInSame<V>(s: seq<Entry<V>>, t: seq<Entry<V>>, lo: nat, hi: nat)
    requires lo <= hi <= |s| && hi <= |t|
    requires forall m | lo <= m < hi :: s[m].value.Some? <==> t[m].value.Some?
    ensures LiveIn(s, lo, hi) == LiveIn(t, lo, hi)
    decreases hi - lo
  {
    if lo < hi {
      LiveInSame(s, t, lo, hi - 1);
    }
  }

  /** The same for a range of t that is live where the range one slot
      further on in s is. */
  lemma {:induction false} LiveInShifted<V>(t: seq<Entry<V>>, s: seq<Entry<V>>, lo: nat, hi: nat)
    requires lo <= hi <= |t| && hi < |s|
    requires forall m | lo <= m < hi :: t[m].value.Some? <==> s[m + 1].value.Some?
    ensures LiveIn(t, lo, hi) == LiveIn(s, lo + 1, hi + 1)
    decreases hi - lo
  {
    if lo < hi {
      LiveInShifted(t, s, lo, hi - 1);
    }
  }

  lemma OccupancyUpdate<V>(s: seq<Entry<V>>, i: nat, x: Entry<V>)
    requires i < |s|
    ensures Occupancy(s[i := x]) + (if s[i].value.Some? then 1 else 0)
         == Occupancy(s) + (if x.value.Some? then 1 else 0)
  {
    var t := s[i := x];
    LiveInSplit(s, 0, i, |s|);
    LiveInSplit(s, i, i + 1, |s|);
    LiveInSplit(t, 0, i, |t|);
    LiveInSplit(t, i, i + 1, |t|);
    LiveInSame(s, t, 0, i);
    LiveInSame(s, t, i + 1, |s|);
  }

  lemma {:induction false} LiveInOfEmpties<V>(s: seq<Entry<V>>, hi: nat)
    requires hi <= |s|
    requires forall p | 0 <= p < hi :: s[p].value.None?
    ensures LiveIn(s, 0, hi) == 0
  {
    if hi > 0 {
      LiveInOfEmpties(s, hi - 1);
    }
  }

  // ---- Robin Hood order ----

  /** Every slot between a live entry's home and the entry is live, and the
      entry in it is at least as far from its own home as that slot is from
      the entry's home: probing for a key never meets a hole or a richer
      entry before the key. */
  lemma {:induction false} ChainOccupied<V>(s: seq<Entry<V>>, size: uint32, p: nat, m: nat)
    requires SlotsOk(s, size)
    requires p < |s| && s[p].value.Some?
    requires p - s[p].dist <= m <= p
    ensures s[m].value.Some? && s[m].dist >= m - (p - s[p].dist)
    decreases p - m
  {
    if m < p {
      assert SlotOk(s, size, p);
      assert SlotOk(s, size, p - 1);
      ChainOccupied(s, size, p - 1, m);
    }
  }

  /** The last slot is never live: it stops every probe. */
  lemma SentinelEmpty<V>(s: seq<Entry<V>>, size: uint32)
    requires ValidSize(size) && SlotsOk(s, size)
    ensures s[|s| - 1] == Empty()
  {
    var last := |s| - 1;
    assert SlotOk(s, size, last);
    if s[last].value.Some? {
      HomeBelowSize(s[last].key, size);
      assert false;
    }
  }

  /** A freshly allocated array is a valid, empty table. */
  lemma EmptyTable<V>(s: seq<Entry<V>>, size: uint32)
    requires |s| == size + MaxDistForSize(size)
    requires forall p | 0 <= p < |s| :: s[p] == Empty()
    ensures SlotsOk(s, size) && Represents(s, map[]) && Occupancy(s) == 0
  {
    forall p | 0 <= p < |s|
      ensures SlotOk(s, size, p)
    {
    }
    LiveInOfEmpties(s, |s|);
  }

  // ---- Insertion ----

  /** Storing the carried entry `n` at slot i, where i is empty or holds an
      entry less displaced than n, keeps every slot's invariant. */
  lemma StoreCarried<V>(s: seq<Entry<V>>, size: uint32, i: nat, n: Entry<V>)
    requires SlotsOk(s, size) && i < |s|
    requires n.value.Some? && Home(n.key, size) + n.dist == i && n.dist < MaxDistForSize(size)
    requires n.dist > 0 ==> i > 0 && s[i - 1].value.Some? && n.dist <= s[i - 1].dist + 1
    requires s[i].value.None? || s[i].dist < n.dist
    ensures SlotsOk(s[i := n], size)
  {
    var t := s[i := n];
    forall p | 0 <= p < |t|
      ensures SlotOk(t, size, p)
    {
      assert SlotOk(s, size, p);
      if p == i + 1 {
        assert SlotOk(s, size, i);
      }
    }
  }

  /** Storing a live entry with a new key at slot i: the map loses the key
      that was there, if any, and gains the new pair. */
  lemma RepresentsStore<V>(s: seq<Entry<V>>, m: map<uint64, V>, i: nat, x: Entry<V>)
    requires Represents(s, m) && i < |s|
    requires x.value.Some? && x.key !in m
    ensures Represents(s[i := x],
      (if s[i].value.Some? then m - {s[i].key} else m)[x.key := x.value.value])
  {
    var t := s[i := x];
    var m' := (if s[i].value.Some? then m - {s[i].key} else m)[x.key := x.value.value];
    forall k | k in m'
      ensures Holds(t, k)
    {
      if k == x.key {
        assert t[i].value.Some? && t[i].key == k;
      } else {
        assert Holds(s, k);
        var w :| 0 <= w < |s| && s[w].value.Some? && s[w].key == k;
        assert t[w] == s[w];
      }
    }
  }

  /** The live entries of a prefix, one slot longer. */
  lemma RepresentsExtend<V>(s: seq<Entry<V>>, m: map<uint64, V>, idx: nat)
    requires idx < |s| && KeysDistinct(s) && Represents(s[..idx], m)
    ensures s[idx].value.Some? ==> s[idx].key !in m && Represents(s[..idx + 1], m[s[idx].key := s[idx].value.value])
    ensures s[idx].value.None? ==> Represents(s[..idx + 1], m)
  {
    var p, q := s[..idx], s[..idx + 1];
    assert q == p + [s[idx]];
    if s[idx].value.Some? {
      forall w | 0 <= w < |p| && p[w].value.Some?
        ensures p[w].key != s[idx].key
      {
        assert p[w] == s[w];
      }
      assert !Holds(p, s[idx].key);
      var m' := m[s[idx].key := s[idx].value.value];
      forall k | k in m'
        ensures Holds(q, k)
      {
        if k == s[idx].key {
          assert q[idx].value.Some? && q[idx].key == k;
        } else {
          assert Holds(p, k);
          var w :| 0 <= w < |p| && p[w].value.Some? && p[w].key == k;
          assert q[w] == p[w];
        }
      }
    } else {
      forall k | k in m
        ensures Holds(q, k)
      {
        assert Holds(p, k);
        var w :| 0 <= w < |p| && p[w].value.Some? && p[w].key == k;
        assert q[w] == p[w];
      }
    }
  }

  lemma SubMapTransitive<V>(a: map<uint64, V>, b: map<uint64, V>, c: map<uint64, V>)
    requires SubMap(a, b) && SubMap(b, c)
    ensures SubMap(a, c)
  {
  }

  /** What a prefix represents is part of what the whole array represents. */
  lemma PrefixSubMap<V>(s: seq<Entry<V>>, idx: nat, m: map<uint64, V>, all: map<uint64, V>)
    requires idx <= |s| && Represents(s[..idx], m) && Represents(s, all)
    ensures SubMap(m, all)
  {
    forall k | k in m
      ensures k in all && m[k] == all[k]
    {
      assert Holds(s[..idx], k);
      var w :| 0 <= w < idx && s[..idx][w].value.Some? && s[..idx][w].key == k;
      assert s[w] == s[..idx][w];
    }
  }

  /** The map an array represents is determined by the array. */
  lemma RepresentsUnique<V>(s: seq<Entry<V>>, m1: map<uint64, V>, m2: map<uint64, V>)
    requires Represents(s, m1) && Represents(s, m2)
    ensures m1 == m2
  {
    forall k | k in m1
      ensures k in m2 && m1[k] == m2[k]
    {
      assert Holds(s, k);
    }
    forall k | k in m2
      ensures k in m1
    {
      assert Holds(s, k);
    }
  }

  /** Dropping the last slot drops its key, if it is live, from the map. */
  lemma RepresentsInit<V>(s: seq<Entry<V>>, m: map<uint64, V>)
    requires s != [] && Represents(s, m)
    ensures var last := s[|s| - 1];
      Represents(s[..|s| - 1], if last.value.Some? then m - {last.key} else m)
  {
    var init, last := s[..|s| - 1], s[|s| - 1];
    var m' := if last.value.Some? then m - {last.key} else m;
    forall k | k in m'
      ensures Holds(init, k)
    {
      assert Holds(s, k);
      var w :| 0 <= w < |s| && s[w].value.Some? && s[w].key == k;
      assert w < |s| - 1;
      assert init[w] == s[w];
    }
  }

  /** The count of live slots is the number of keys represented: with
      distinct keys there are no duplicates in the table. */
  lemma {:induction false} OccupancyIsSize<V>(s: seq<Entry<V>>, m: map<uint64, V>)
    requires Represents(s, m)
    ensures Occupancy(s) == |m|
    decreases |s|
  {
    if s != [] {
      var init, last := s[..|s| - 1], s[|s| - 1];
      var m' := if last.value.Some? then m - {last.key} else m;
      RepresentsInit(s, m);
      OccupancyIsSize(init, m');
      LiveInSame(s, init, 0, |init|);
      assert |m| == |m'| + (if last.value.Some? then 1 else 0) by {
        if last.value.Some? {
          assert last.key in m;
        }
      }
    }
  }

  // ---- Lookup ----

  /** Why a probe may stop: at slot i, `dist` slots past k's home, with k
      in no earlier slot of the probe, an empty slot or an entry closer to
      its home than `dist` proves k absent. */
  lemma ProbeMiss<V>(s: seq<Entry<V>>, size: uint32, m: map<uint64, V>, k: uint64, i: nat, dist: nat)
    requires SlotsOk(s, size) && Represents(s, m) && i < |s|
    requires i == Home(k, size) + dist
    requires forall p | Home(k, size) <= p < i :: !(s[p].value.Some? && s[p].key == k)
    requires s[i].value.Some? ==> s[i].key != k && dist > s[i].dist
    ensures k !in m
  {
    if k in m {
      assert Holds(s, k);
      var p :| 0 <= p < |s| && s[p].value.Some? && s[p].key == k;
      assert SlotOk(s, size, p);
      ChainOccupied(s, size, p, i);
    }
  }

  // ---- Deletion ----

  lemma BackShiftSlotsOk<V>(s: seq<Entry<V>>, size: uint32, i: nat, j: nat)
    requires SlotsOk(s, size) && DeletionRun(s, i, j)
    ensures SlotsOk(BackShift(s, i, j), size)
  {
    var t := BackShift(s, i, j);
    forall p | 0 <= p < |t|
      ensures SlotOk(t, size, p)
    {
      BackShiftSlotOk(s, size, i, j, p);
    }
  }

  /** One slot of the shifted array: slots outside the run keep their entry
      and their predecessor's, the moved entries come one slot closer to
      home behind an entry moved with them (or behind slot i - 1), and the
      last slot of the run is empty. */
  lemma BackShiftSlotOk<V>(s: seq<Entry<V>>, size: uint32, i: nat, j: nat, p: nat)
    requires SlotsOk(s, size) && DeletionRun(s, i, j) && p < |s|
    ensures SlotOk(BackShift(s, i, j), size, p)
  {
    var t := BackShift(s, i, j);
    if p < i || p > j {
      assert SlotOk(s, size, p);
      assert t[p] == s[p];
      if p > 0 && s[p].dist > 0 {
        assert t[p - 1] == s[p - 1];
      }
    } else if p == j {
      assert SlotOk(s, size, p);
      assert t[p] == s[p] && s[p].dist == 0;
    } else if p == j - 1 {
      assert t[p] == Empty();
    } else {
      var e := s[p + 1];
      assert SlotOk(s, size, p + 1);
      assert e.dist > 0 && e.value.Some?;
      assert t[p] == Dec(e);
      if e.dist > 1 {
        assert SlotOk(s, size, p);
        if p == i {
          assert s[i].dist > 0;
          assert t[p - 1] == s[p - 1];
        } else {
          assert t[p - 1] == Dec(s[p]);
          assert s[p].dist > 0;
        }
      }
    }
  }

  /** The slot of s whose entry slot p of the shifted array holds. */
  function BackShiftSource(i: nat, j: nat, p: nat): nat
  {
    if i <= p < j - 1 then p + 1 else p
  }

  lemma BackShiftLive<V>(s: seq<Entry<V>>, size: uint32, i: nat, j: nat, p: nat)
    requires SlotsOk(s, size) && DeletionRun(s, i, j) && p < |s|
    requires BackShift(s, i, j)[p].value.Some?
    ensures p != j - 1 && BackShiftSource(i, j, p) != i && BackShiftSource(i, j, p) < |s|
    ensures s[BackShiftSource(i, j, p)].value.Some?
    ensures BackShift(s, i, j)[p].key == s[BackShiftSource(i, j, p)].key
    ensures BackShift(s, i, j)[p].value == s[BackShiftSource(i, j, p)].value
  {
  }

  lemma BackShiftRepresents<V>(s: seq<Entry<V>>, size: uint32, m: map<uint64, V>, i: nat, j: nat)
    requires SlotsOk(s, size) && Represents(s, m) && DeletionRun(s, i, j)
    ensures Represents(BackShift(s, i, j), m - {s[i].key})
  {
    var t := BackShift(s, i, j);
    var k := s[i].key;
    forall p, q | 0 <= p < q < |t| && t[p].value.Some? && t[q].value.Some?
      ensures t[p].key != t[q].key
    {
      BackShiftLive(s, size, i, j, p);
      BackShiftLive(s, size, i, j, q);
      assert BackShiftSource(i, j, p) < BackShiftSource(i, j, q);
    }
    forall p | 0 <= p < |t| && t[p].value.Some?
      ensures t[p].key in m - {k} && (m - {k})[t[p].key] == t[p].value.value
    {
      BackShiftLive(s, size, i, j, p);
    }
    forall key | key in m - {k}
      ensures Holds(t, key)
    {
      assert Holds(s, key);
      var w :| 0 <= w < |s| && s[w].value.Some? && s[w].key == key;
      if i < w < j {
        assert t[w - 1] == Dec(s[w]);
      } else {
        assert t[w] == s[w];
      }
    }
  }

  lemma BackShiftOccupancy<V>(s: seq<Entry<V>>, i: nat, j: nat)
    requires DeletionRun(s, i, j)
    ensures Occupancy(BackShift(s, i, j)) + 1 == Occupancy(s)
  {
    var t := BackShift(s, i, j);
    LiveInSplit(s, 0, i, |s|);
    LiveInSplit(s, i, i + 1, |s|);
    LiveInSplit(s, i + 1, j, |s|);
    LiveInSplit(t, 0, i, |t|);
    LiveInSplit(t, i, j - 1, |t|);
    LiveInSplit(t, j - 1, j, |t|);
    LiveInSame(s, t, 0, i);
    LiveInSame(s, t, j, |s|);
    forall m | i <= m < j - 1
      ensures t[m].value.Some? <==> s[m + 1].value.Some?
    {
      assert t[m] == Dec(s[m + 1]);
    }
    LiveInShifted(t, s, i, j - 1);
  }
}
