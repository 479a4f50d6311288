/** Two places where robin_hood.go departs from what its comments intend,
    modelled as written on slot arrays, each with a concrete table that
    shows the departure. The class in robin_hood_map.dfy implements the
    intended behaviour. */
module AsWritten {
  import opened Bits
  import opened FibonacciHash
  import opened Sizing
  import opened Slots

  /** How one probe epoch of Put ends in a fixed slot array. */
  datatype Turn<V> =
    | Placed(slots: seq<Entry<V>>)
    | Capped(slots: seq<Entry<V>>, carried: Entry<V>, last: nat)
    | RanOff

  /** Put's loop from slot i with the carried entry n, up to the point where
      the carried entry reaches the distance cap (where the source grows the
      table). `last` is the slot looked at when the cap was reached. */
  function PutFrom<V>(s: seq<Entry<V>>, size: uint32, i: nat, n: Entry<V>): (r: Turn<V>)
    ensures r.Placed? ==> |r.slots| == |s|
    ensures r.Capped? ==> |r.slots| == |s| && r.last < |s|
    decreases |s| - i
  {
    if i >= |s| then RanOff
    else if s[i].value.None? then Placed(s[i := n])
    else
      var swap := s[i].dist < n.dist;
      var t := if swap then s[i := n] else s;
      var c := if swap then s[i] else n;
      if c.dist + 1 >= TwoTo32 then RanOff
      else if c.dist + 1 == MaxDistForSize(size) then Capped(t, c.(dist := c.dist + 1), i)
      else PutFrom(t, size, i + 1, c.(dist := c.dist + 1))
  }

  /** rehash's loop on values: the live entries of `prev` from slot i on,
      in slot order, each put into `slots` from its home with distance 0.
      None when one of those puts would itself have to grow the table. */
  function RehashFrom<V>(prev: seq<Entry<V>>, i: nat, size: uint32, slots: seq<Entry<V>>): (r: Option<seq<Entry<V>>>)
    ensures r.Some? ==> |r.value| == |slots|
    decreases |prev| - i
  {
    if i >= |prev| then Some(slots)
    else if prev[i].value.None? then RehashFrom(prev, i + 1, size, slots)
    else
      match PutFrom(slots, size, Home(prev[i].key, size), Entry(prev[i].key, prev[i].value, 0))
      case Placed(u) => RehashFrom(prev, i + 1, size, u)
      case _ => None
  }

  /** Put as written, from slot i with the carried entry n: when the cap is
      reached the table doubles and the insertion restarts from the home of
      `e.key`, e being the slot of the old table where the cap was reached,
      with the carried entry's distance reset to 0. The result is the new
      slots and size; None when the model stops following: a put inside the
      rehash that would grow again, a doubling past the uint32 range, or
      more restarts than `fuel`. */
  function PutAsWritten<V>(s: seq<Entry<V>>, size: uint32, i: nat, n: Entry<V>, fuel: nat): (r: Option<(seq<Entry<V>>, uint32)>)
    ensures r.Some? ==> size <= r.value.1
    ensures r.Some? && |s| == size + MaxDistForSize(size) ==> |r.value.0| == r.value.1 + MaxDistForSize(r.value.1)
    decreases fuel
  {
    match PutFrom(s, size, i, n)
    case Placed(u) => Some((u, size))
    case RanOff => None
    case Capped(t, c, last) =>
      if fuel == 0 || 2 * size >= TwoTo32 then None
      else
        var size' := 2 * size;
        match RehashFrom(t, 0, size', Empties(size' + MaxDistForSize(size')))
        case None => None
        case Some(g) => PutAsWritten(g, size', Home(t[last].key, size'), c.(dist := 0), fuel - 1)
  }

  /** The probe of Get and Delete as written: the first slot whose key is
      k, without looking at whether the slot is occupied, or None once the
      probe is farther from k's home than the resident is from its own. */
  function ProbeAsWritten<V>(s: seq<Entry<V>>, k: uint64, i: nat, dist: nat): (r: Option<nat>)
    ensures r.Some? ==> i <= r.value < |s| && s[r.value].key == k
    ensures r.Some? ==> forall p | i <= p < r.value :: s[p].key != k
    decreases |s| - i
  {
    if i >= |s| then None
    else if k == s[i].key then Some(i)
    else if dist > s[i].dist then None
    else ProbeAsWritten(s, k, i + 1, dist + 1)
  }

  /** Delete's `m.count--` on the uint32 field. */
  function DecrementCount(count: uint32): (r: uint32)
    ensures count > 0 ==> r == count - 1
    ensures count == 0 ==> r == TwoTo32 - 1
  {
    (count - 1) % TwoTo32
  }

  /** The count after Delete(k) as written: decremented whenever the probe
      as written matches. */
  function DeleteCountAsWritten<V>(s: seq<Entry<V>>, size: uint32, k: uint64, count: uint32): (r: uint32)
    ensures r != count <==> ProbeAsWritten(s, k, Home(k, size), 0).Some?
  {
    if ProbeAsWritten(s, k, Home(k, size), 0).Some? then DecrementCount(count) else count
  }

  function Live(k: uint64, v: int, dist: uint32): Entry<int>
  {
    Entry(k, Some(v), dist)
  }

  function Empties<V>(n: nat): seq<Entry<V>>
  {
    seq(n, _ => Empty())
  }

  /** Delete(0) on a new, empty table (two home slots, six slots): the
      probe for key 0 starts at slot 1, matches the empty slot there, whose
      key is 0, and count wraps from 0 to 4294967295 although the table
      holds nothing. */
  lemma DeleteZeroOnEmptyTable()
    ensures SlotsOk(Empties<int>(6), 2) && Represents(Empties<int>(6), map[]) && Occupancy(Empties<int>(6)) == 0
    ensures Home(0, 2) == 1 && ProbeAsWritten(Empties<int>(6), 0, Home(0, 2), 0) == Some(1)
    ensures DeleteCountAsWritten(Empties<int>(6), 2, 0, 0) == 4294967295
  {
    HomesInTwoSlots();
    EmptyTable(Empties<int>(6), 2);
  }

  /** Keys 2, 8, 10 and 16, all at home slot 1 of a two-slot table, as four
      Puts on a new table leave them: the run fills slots 1 to 4 and only
      the sentinel, slot 5, is left empty after it. */
  function FullRun(): seq<Entry<int>>
  {
    [Empty(), Live(2, 100, 0), Live(8, 101, 1), Live(10, 102, 2), Live(16, 103, 3), Empty()]
  }

  /** Delete(0) on FullRun(): the probe passes the four live keys, none of
      them 0, and matches the sentinel, the last slot, whose key is 0. The
      shift loop then starts reading at index |s|, past the slot array. */
  lemma DeleteZeroMatchesSentinel()
    ensures SlotsOk(FullRun(), 2) && Occupancy(FullRun()) == 4
    ensures ProbeAsWritten(FullRun(), 0, Home(0, 2), 0) == Some(|FullRun()| - 1)
  {
    HomesInTwoSlots();
    HomesOfFullRun();
    var s := FullRun();
    forall i | 0 <= i < |s|
      ensures SlotOk(s, 2, i)
    {
      if i == 0 {
      } else if i == 1 {
      } else if i == 2 {
      } else if i == 3 {
      } else if i == 4 {
      } else {
      }
    }
  }

  /** The home slots of the keys below in a table of two home slots. */
  lemma HomesInTwoSlots()
    ensures Home(0, 2) == 1
    ensures Home(4, 2) == 0 && Home(5, 2) == 0 && Home(6, 2) == 0 && Home(7, 2) == 0 && Home(12, 2) == 0
    ensures MaxDistForSize(2) == 4
  {
    SmallestTable();
    Pow2Of61To64();
    HashIs(0, 63, 1);
    HashIs(4, 63, 0);
    HashIs(5, 63, 0);
    HashIs(6, 63, 0);
    HashIs(7, 63, 0);
    HashIs(12, 63, 0);
  }

  /** The home slots of FullRun()'s keys in a table of two home slots. */
  lemma HomesOfFullRun()
    ensures Home(2, 2) == 1 && Home(8, 2) == 1 && Home(10, 2) == 1 && Home(16, 2) == 1
  {
    SmallestTable();
    Pow2Of61To64();
    HashIs(2, 63, 1);
    HashIs(8, 63, 1);
    HashIs(10, 63, 1);
    HashIs(16, 63, 1);
  }

  /** The home slots of the keys below in a table of four home slots. */
  lemma HomesInFourSlots()
    ensures Home(4, 4) == 0 && Home(5, 4) == 0 && Home(6, 4) == 1 && Home(7, 4) == 1 && Home(12, 4) == 0
    ensures MaxDistForSize(4) == 4
  {
    ShiftOfPowerOfTwo(2);
    MaxDistOfPowerOfTwo(2);
    Pow2Of61To64();
    HashIs(4, 62, 0);
    HashIs(5, 62, 0);
    HashIs(6, 62, 1);
    HashIs(7, 62, 1);
    HashIs(12, 62, 0);
  }

  /** Keys 4, 5, 6 and 7, all at home slot 0 of a two-slot table, as four
      Puts leave them: each one step farther than the one before. */
  function FourKeys(): seq<Entry<int>>
  {
    [Live(4, 100, 0), Live(5, 101, 1), Live(6, 102, 2), Live(7, 103, 3), Empty(), Empty()]
  }

  function FourKeysMap(): map<uint64, int>
  {
    map[4 := 100, 5 := 101, 6 := 102, 7 := 103]
  }

  /** The same keys rehashed into four home slots, where 6 and 7 live at
      home slot 1. */
  function FourKeysGrown(): seq<Entry<int>>
  {
    [Live(4, 100, 0), Live(5, 101, 1), Live(6, 102, 1), Live(7, 103, 2), Empty(), Empty(), Empty(), Empty()]
  }

  /** Where the restart as written leaves key 12: slot 4, recorded at
      distance 3 although its home is slot 0. */
  function RestartedFromOtherHome(): seq<Entry<int>>
  {
    [Live(4, 100, 0), Live(5, 101, 1), Live(6, 102, 1), Live(7, 103, 2), Live(12, 104, 3), Empty(), Empty(), Empty()]
  }

  /** Where a restart at key 12's own home leaves the five keys. */
  function RestartedFromOwnHome(): seq<Entry<int>>
  {
    [Live(4, 100, 0), Live(5, 101, 1), Live(12, 104, 2), Live(7, 103, 2), Live(6, 102, 3), Empty(), Empty(), Empty()]
  }

  /** FourKeys() is a valid table of 2 home slots. */
  lemma FourKeysSlotsOk()
    ensures SlotsOk(FourKeys(), 2)
  {
    HomesInTwoSlots();
    var s := FourKeys();
    forall i | 0 <= i < |s|
      ensures SlotOk(s, 2, i)
    {
      if i == 0 {
      } else if i == 1 {
      } else if i == 2 {
      } else if i == 3 {
      } else if i == 4 {
      } else {
      }
    }
  }

  /** FourKeys() holds FourKeysMap(). */
  lemma FourKeysRepresents()
    ensures Represents(FourKeys(), FourKeysMap())
  {
    var s := FourKeys();
    forall i, j | 0 <= i < j < |s| && s[i].value.Some? && s[j].value.Some?
      ensures s[i].key != s[j].key
    {
      assert i < 4 && j < 4;
    }
    forall i | 0 <= i < |s| && s[i].value.Some?
      ensures s[i].key in FourKeysMap() && FourKeysMap()[s[i].key] == s[i].value.value
    {
      if i == 0 {
      } else if i == 1 {
      } else if i == 2 {
      } else {
        assert i == 3;
      }
    }
    assert Holds(s, 4) && Holds(s, 5) && Holds(s, 6) by {
      assert s[0].key == 4 && s[1].key == 5 && s[2].key == 6;
    }
    assert Holds(s, 7) by {
      assert s[3].key == 7;
    }
  }

  /** Put(12, 104) on FourKeys() carries 12 past 4, 5 and 6 and reaches the
      distance cap at slot 3, whose resident is key 7: this is where Put
      grows the table. */
  lemma CapReachedAtKeySeven()
    ensures PutFrom(FourKeys(), 2, Home(12, 2), Live(12, 104, 0)) == Capped(FourKeys(), Live(12, 104, 4), 3)
    ensures FourKeys()[3].key == 7
  {
    HomesInTwoSlots();
    var s := FourKeys();
    assert PutFrom(s, 2, 0, Live(12, 104, 0)) == PutFrom(s, 2, 1, Live(12, 104, 1));
    assert PutFrom(s, 2, 1, Live(12, 104, 1)) == PutFrom(s, 2, 2, Live(12, 104, 2));
    assert PutFrom(s, 2, 2, Live(12, 104, 2)) == PutFrom(s, 2, 3, Live(12, 104, 3));
  }

  /** FourKeysGrown() is the empty eight-slot table with the four keys
      written into slots 0 to 3. */
  lemma GrownInOrder()
    ensures Empties<int>(8)[0 := Live(4, 100, 0)][1 := Live(5, 101, 1)][2 := Live(6, 102, 1)][3 := Live(7, 103, 2)]
         == FourKeysGrown()
  {
  }

  /** Doubling FourKeys() re-puts the four keys, in slot order, into four
      home slots. */
  lemma GrowToFourSlots()
    ensures RehashFrom(FourKeys(), 0, 4, Empties<int>(8)) == Some(FourKeysGrown())
  {
    HomesInFourSlots();
    var s, e := FourKeys(), Empties<int>(8);
    var t1 := e[0 := Live(4, 100, 0)];
    var t2 := t1[1 := Live(5, 101, 1)];
    var t3 := t2[2 := Live(6, 102, 1)];
    var t4 := t3[3 := Live(7, 103, 2)];
    GrownInOrder();
    assert PutFrom(e, 4, 0, Live(4, 100, 0)) == Placed(t1);
    assert PutFrom(t1, 4, 0, Live(5, 101, 0)) == PutFrom(t1, 4, 1, Live(5, 101, 1)) == Placed(t2);
    assert PutFrom(t2, 4, 1, Live(6, 102, 0)) == PutFrom(t2, 4, 2, Live(6, 102, 1)) == Placed(t3);
    assert PutFrom(t3, 4, 1, Live(7, 103, 0)) == PutFrom(t3, 4, 2, Live(7, 103, 1));
    assert PutFrom(t3, 4, 2, Live(7, 103, 1)) == PutFrom(t3, 4, 3, Live(7, 103, 2)) == Placed(t4);
    assert RehashFrom(s, 4, 4, t4) == RehashFrom(s, 6, 4, t4);
    assert RehashFrom(s, 3, 4, t3) == RehashFrom(s, 4, 4, t4);
    assert RehashFrom(s, 2, 4, t2) == RehashFrom(s, 3, 4, t3);
    assert RehashFrom(s, 1, 4, t1) == RehashFrom(s, 2, 4, t2);
    assert RehashFrom(s, 0, 4, e) == RehashFrom(s, 1, 4, t1);
  }

  /** The restart as written: after the table grew, Put starts again from
      `hash(e.key, m.shift)`, where e is the slot of the old table at which
      the cap was reached. Here that is key 7's home, slot 1, not key 12's
      home, slot 0. The carried entry runs to slot 4, three slots past its
      home but recorded at distance 3 from slot 1, so the slot invariant
      fails there and the lookup of 12 gives up at slot 2: Get(12) answers
      nil although Put(12, 104) returned. */
  lemma RestartFromOtherHome()
    ensures Home(FourKeys()[3].key, 4) == 1 && Home(12, 4) == 0
    ensures PutFrom(FourKeysGrown(), 4, Home(FourKeys()[3].key, 4), Live(12, 104, 0)) == Placed(RestartedFromOtherHome())
    ensures !SlotOk(RestartedFromOtherHome(), 4, 4)
    ensures ProbeAsWritten(RestartedFromOtherHome(), 12, Home(12, 4), 0) == None
  {
    HomesInFourSlots();
    var g, b := FourKeysGrown(), RestartedFromOtherHome();
    assert PutFrom(g, 4, 1, Live(12, 104, 0)) == PutFrom(g, 4, 2, Live(12, 104, 1));
    assert PutFrom(g, 4, 2, Live(12, 104, 1)) == PutFrom(g, 4, 3, Live(12, 104, 2));
    assert PutFrom(g, 4, 3, Live(12, 104, 2)) == PutFrom(g, 4, 4, Live(12, 104, 3));
    assert g[4 := Live(12, 104, 3)] == b;
    assert ProbeAsWritten(b, 12, 0, 0) == ProbeAsWritten(b, 12, 1, 1);
    assert ProbeAsWritten(b, 12, 1, 1) == ProbeAsWritten(b, 12, 2, 2);
  }

  /** Put(12, 104) as written on FourKeys(): the table doubles once and
      the key ends in RestartedFromOtherHome(), where the lookup as written
      misses it. */
  lemma PutTwelveAsWritten()
    ensures PutAsWritten(FourKeys(), 2, Home(12, 2), Live(12, 104, 0), 1) == Some((RestartedFromOtherHome(), 4))
    ensures ProbeAsWritten(RestartedFromOtherHome(), 12, Home(12, 4), 0) == None
  {
    CapReachedAtKeySeven();
    HomesInFourSlots();
    GrowToFourSlots();
    RestartFromOtherHome();
    assert 4 + MaxDistForSize(4) == 8;
    PutAsWrittenGrows(FourKeys(), 2, Home(12, 2), Live(12, 104, 0), 1, FourKeysGrown());
  }

  /** One growth of PutAsWritten, unfolded on symbolic arguments. */
  lemma PutAsWrittenGrows<V>(s: seq<Entry<V>>, size: uint32, i: nat, n: Entry<V>, fuel: nat, g: seq<Entry<V>>)
    requires PutFrom(s, size, i, n).Capped? && fuel > 0 && 2 * size < TwoTo32
    requires RehashFrom(PutFrom(s, size, i, n).slots, 0, 2 * size, Empties(2 * size + MaxDistForSize(2 * size))) == Some(g)
    ensures var r := PutFrom(s, size, i, n);
      PutAsWritten(s, size, i, n, fuel)
      == PutAsWritten(g, 2 * size, Home(r.slots[r.last].key, 2 * size), r.carried.(dist := 0), fuel - 1)
  {
  }

  /** The intended restart, from the carried key's own home, swaps 12 in
      ahead of 6 and leaves RestartedFromOwnHome(), a valid table holding
      all five keys, where the lookup of 12 finds it at slot 2. */
  lemma RestartFromOwnHome()
    ensures PutFrom(FourKeysGrown(), 4, Home(12, 4), Live(12, 104, 0)) == Placed(RestartedFromOwnHome())
    ensures ProbeAsWritten(RestartedFromOwnHome(), 12, Home(12, 4), 0) == Some(2)
  {
    HomesInFourSlots();
    var g, r := FourKeysGrown(), RestartedFromOwnHome();
    var g' := g[2 := Live(12, 104, 2)];
    assert PutFrom(g, 4, 0, Live(12, 104, 0)) == PutFrom(g, 4, 1, Live(12, 104, 1));
    assert PutFrom(g, 4, 1, Live(12, 104, 1)) == PutFrom(g, 4, 2, Live(12, 104, 2));
    assert PutFrom(g, 4, 2, Live(12, 104, 2)) == PutFrom(g', 4, 3, Live(6, 102, 2));
    assert PutFrom(g', 4, 3, Live(6, 102, 2)) == PutFrom(g', 4, 4, Live(6, 102, 3));
    assert g'[4 := Live(6, 102, 3)] == r;
    assert ProbeAsWritten(r, 12, 0, 0) == ProbeAsWritten(r, 12, 1, 1);
  }

  /** FourKeysGrown() is a valid table of 4 home slots. */
  lemma FourKeysGrownSlotsOk()
    ensures SlotsOk(FourKeysGrown(), 4)
  {
    HomesInFourSlots();
    var s := FourKeysGrown();
    forall i | 0 <= i < |s|
      ensures SlotOk(s, 4, i)
    {
      if i == 0 {
      } else if i == 1 {
      } else if i == 2 {
      } else if i == 3 {
      } else {
        assert s[i] == Empty();
      }
    }
  }

  /** FourKeysGrown() holds FourKeysMap(). */
  lemma FourKeysGrownRepresents()
    ensures Represents(FourKeysGrown(), FourKeysMap())
  {
    var s := FourKeysGrown();
    forall i, j | 0 <= i < j < |s| && s[i].value.Some? && s[j].value.Some?
      ensures s[i].key != s[j].key
    {
      assert i < 4 && j < 4;
    }
    forall i | 0 <= i < |s| && s[i].value.Some?
      ensures s[i].key in FourKeysMap() && FourKeysMap()[s[i].key] == s[i].value.value
    {
      if i == 0 {
      } else if i == 1 {
      } else if i == 2 {
      } else {
        assert i == 3;
      }
    }
    assert Holds(s, 4) && Holds(s, 5) && Holds(s, 6) by {
      assert s[0].key == 4 && s[1].key == 5 && s[2].key == 6;
    }
    assert Holds(s, 7) by {
      assert s[3].key == 7;
    }
  }

  /** RestartedFromOwnHome() is a valid table of 4 home slots. */
  lemma RestartedFromOwnHomeSlotsOk()
    ensures SlotsOk(RestartedFromOwnHome(), 4)
  {
    HomesInFourSlots();
    var s := RestartedFromOwnHome();
    forall i | 0 <= i < |s|
      ensures SlotOk(s, 4, i)
    {
      if i == 0 {
      } else if i == 1 {
      } else if i == 2 {
      } else if i == 3 {
      } else if i == 4 {
      } else {
        assert s[i] == Empty();
      }
    }
  }

  /** RestartedFromOwnHome() holds the four keys and 12. */
  lemma RestartedFromOwnHomeRepresents()
    ensures Represents(RestartedFromOwnHome(), FourKeysMap()[12 := 104])
  {
    var s, m := RestartedFromOwnHome(), FourKeysMap()[12 := 104];
    forall i, j | 0 <= i < j < |s| && s[i].value.Some? && s[j].value.Some?
      ensures s[i].key != s[j].key
    {
      assert i < 5 && j < 5;
    }
    forall i | 0 <= i < |s| && s[i].value.Some?
      ensures s[i].key in m && m[s[i].key] == s[i].value.value
    {
      if i == 0 {
      } else if i == 1 {
      } else if i == 2 {
      } else if i == 3 {
      } else {
        assert i == 4;
      }
    }
    assert Holds(s, 4) && Holds(s, 5) && Holds(s, 6) by {
      assert s[0].key == 4 && s[1].key == 5 && s[4].key == 6;
    }
    assert Holds(s, 7) && Holds(s, 12) by {
      assert s[3].key == 7 && s[2].key == 12;
    }
  }
}
