# Robin Hood hash table (maptoy) in Dafny

This project models `robinHoodMap` from `robin_hood.go`. It is an open-addressing hash table that maps `uint64` keys to values using Robin Hood linear probing. Entries are placed by Fibonacci hashing:

- Each entry records its *distance* from its home slot.
- On insertion, an entry that is further from home than the resident of a slot takes that slot. The resident is then carried on ("steal from the rich").
- An entry's distance is capped at `maxDist = max(bits.Len32(size), 4)`. When a carried entry reaches the cap, the table doubles and the insertion restarts.
- The slot array has `size + maxDist` slots. Its last slot is a sentinel that is never filled.
- Deletion uses backward shift: the displaced entries after the deleted one each move back one slot.

The modules follow the source's structure:

- `bits.dfy` (module `Bits`): `uint32`/`uint64`, powers of two, and Go's `bits.Len`/`bits.Len32` (`BitLen`) with the facts the geometry needs.
- `hash.dfy` (module `FibonacciHash`): `hash` (`k |= 1`, the 64-bit wrapping multiply, the shift, the `uint32` truncation).
- `sizing.dfy` (module `Sizing`):
  - `maxDistForSize`;
  - the shift set by `rehash`;
  - the home slot of a key;
  - the initial size chosen by `newRobinHoodMap`.
- `slots.dfy` (module `Slots`): the slot array as a value, with these parts:
  - the entry type;
  - the table invariant slot by slot (`SlotOk`: an empty slot is the zero entry; a live entry sits `dist` slots past its home, below the cap, and follows a live entry at most one slot less displaced);
  - the abstract map a slot array represents;
  - the occupancy count;
  - the backward-shift result;
  - the lemmas that each step of the class keeps all of these.
- `robin_hood_map.dfy` (module `RobinHood`): the class `RobinHoodMap<V>`. Its fields are the source's `entries` (an `array`), `size`, `shift`, `count` and `maxDist`, plus a ghost `Contents` map. Its methods are the constructor, `Rehash`, `Allocate`, `Put` with its helpers `PlaceAt`, `StoreAt`, `SwapAt` and `Grow`, `Get`, and `Delete` with its helpers `ShiftBack` and `MoveRun`. Each method is proved against `Valid()` and `Contents`.
- `findings.dfy` (module `AsWritten`): two places where the source departs from its own design, modelled as written, with concrete tables that exhibit each departure.

Where the design comments and the code disagree, the model follows the code:

- The comment at `robin_hood.go:68-70` puts the distance cap at log2 of the slot count. The code (`robin_hood.go:86-92`) uses `bits.Len32(size)`, which is `log2(size) + 1` for a power of two, with a floor of 4. `MaxDistForSize` is the code's formula.
- The shift of `robin_hood.go:108` is `64 - bits.Len32(size - 1)`, which is `64 - log2(size)` for the power-of-two sizes the table uses (`Sizing.ShiftOfPowerOfTwo`).
- The comment at `robin_hood.go:47-51` says insertion "is restarted" after growth. The code restarts from the home of `e.key`, not from the home of the carried entry. See "## Findings".

## Model

| member | source | states |
|---|---|---|
| Bits.BitLen | robin_hood.go:87 | `bits.Len32`/`bits.Len` is 0 exactly for 0 and never exceeds its argument |
| Bits.BitLenBounds | robin_hood.go:87 | BitLen(x) bits suffice to write x and one fewer do not |
| FibonacciHash.Hash | robin_hood.go:26-29 | `uint32((k \| 1) * C >> shift)` with the uint64 wrap: below 2^(64 - shift), so it indexes 2^(64 - shift) home slots, and 0 for a shift of 64 or more |
| FibonacciHash.ForceOdd | robin_hood.go:27 | `k \| 1` is odd, is k or k + 1, and agrees with k above the lowest bit |
| FibonacciHash.HashIgnoresLowBit | robin_hood.go:26-29 | two keys that differ only in their lowest bit have the same hash for every shift |
| FibonacciHash.HashIs | robin_hood.go:28 | the hash is the top bits of the wrapped product: c whenever the product lies in [c * 2^shift, (c + 1) * 2^shift) |
| FibonacciHash.ShiftRightPastWidth | robin_hood.go:28 | a right shift by 64 or more leaves 0 of a 64-bit value, as Go's shift does |
| Sizing.ShiftForSize | robin_hood.go:108 | the shift (`64 - bits.Len32(size - 1)`, with the uint32 subtraction) lies in [32, 64] |
| Sizing.ShiftOfPowerOfTwo | robin_hood.go:108 | for 2^b home slots the shift is exactly 64 - b |
| Sizing.HomeBelowSize | robin_hood.go:26-29 | every key's home slot for a valid size lies in [0, size) |
| Sizing.MaxDistForSize | robin_hood.go:86-92 | the distance cap lies in [4, 32] |
| Sizing.MaxDistOfPowerOfTwo | robin_hood.go:86-92 | for 2^b home slots the cap is max(b + 1, 4) |
| Sizing.SmallestTable | robin_hood.go:54-56 | a table of 2 home slots has distance cap 4, 6 slots in all, and shift 63 |
| Sizing.DoubledSizeIsValid | robin_hood.go:151 | doubling a power-of-two size below 2^31 gives a power-of-two size of at most 2^31 |
| Sizing.TargetSize | robin_hood.go:95-98 | the initial size is a valid size, at least twice the capacity hint (a hint below 1 counts as 1), and no larger than any power of two that is |
| Slots.EmptyTable | robin_hood.go:110-112 | a freshly made slot array of size + maxDist zero entries is a valid table representing the empty map, with occupancy 0 |
| Slots.SentinelEmpty | robin_hood.go:51-53 | in a valid table the last slot is always the zero entry |
| Slots.ChainOccupied | robin_hood.go:37-45 | every slot from a live entry's home up to the entry is live, and each is displaced at least as far as its offset from that home |
| Slots.StoreCarried | robin_hood.go:131-143 | storing the carried entry in an empty slot, or in place of a resident closer to its home, keeps every slot's invariant |
| Slots.RepresentsStore | robin_hood.go:131-143 | after that store, the table represents the old map without the evicted resident's key and with the carried entry's pair |
| Slots.OccupancyUpdate | robin_hood.go:134 | writing one slot changes the live-slot count by exactly the change in that slot's liveness |
| Slots.RepresentsExtend | robin_hood.go:114-119 | rehash's scan of the old array gathers exactly the pairs of its live slots, each key new when it is reached |
| Slots.RepresentsUnique | robin_hood.go:114-119 | a slot array represents one map only, so rehash's result holds exactly the old pairs |
| Slots.OccupancyIsSize | robin_hood.go:82 | the number of live slots equals the number of keys of the represented map |
| Slots.ProbeMiss | robin_hood.go:166-169 | a probe (Get's, and Delete's at lines 195-197) that reaches a slot whose entry is closer to its home than the probe is to k's home, with no earlier match, proves k is absent |
| Slots.BackShift | robin_hood.go:183-193 | deletion by backward shift keeps the array length and leaves the last slot of the run empty; what it means for the table is stated by the three lemmas below |
| Slots.BackShiftSlotsOk | robin_hood.go:183-193 | backward-shift deletion keeps every slot's invariant |
| Slots.BackShiftRepresents | robin_hood.go:183-193 | after backward-shift deletion the table represents the old map without the deleted key |
| Slots.BackShiftOccupancy | robin_hood.go:182-193 | backward-shift deletion lowers the live-slot count by exactly one |
| Slots.LiveInSplit | robin_hood.go:82 | live-slot counts add over adjacent ranges |
| RobinHood.RobinHoodMap.Valid | robin_hood.go:37-84 | the table invariant (valid geometry, every slot in Robin Hood order, the live slots holding exactly Contents, count their number) implies the slot array has the size + maxDist slots rehash allocates |
| RobinHood.RobinHoodMap.constructor | robin_hood.go:94-103 | a new table is valid and empty, with the smallest power-of-two size at least twice the hint, and has size + maxDist empty slots |
| RobinHood.RobinHoodMap.Allocate | robin_hood.go:106-112 | rehash's reset: the new size, shift and cap, all slots empty, count 0 |
| RobinHood.RobinHoodMap.Rehash | robin_hood.go:105-120 | re-inserting the live entries in array order keeps exactly the same pairs and count in a valid table of at least the requested size |
| RobinHood.RobinHoodMap.Put | robin_hood.go:127-156 | inserting an absent key adds exactly that pair and raises count by one; the table stays valid and only grows |
| RobinHood.RobinHoodMap.PlaceAt | robin_hood.go:130-146 | one probe step either stores the carried entry, or carries on an entry (possibly the swapped resident) with the same pair set overall, one slot further from home |
| RobinHood.RobinHoodMap.StoreAt | robin_hood.go:131-135 | an empty slot takes the carried entry: that one slot changes, the pair is added, count rises by one |
| RobinHood.RobinHoodMap.SwapAt | robin_hood.go:138-143 | the carried entry takes the slot of a resident closer to its home; the resident, now carried, sits exactly at its own distance and is closer to home than the entry that displaced it |
| RobinHood.RobinHoodMap.Grow | robin_hood.go:148-154 | at the cap the table at least doubles, keeps its pairs and count, and the carried entry restarts at distance 0 from its own home |
| RobinHood.RobinHoodMap.Get | robin_hood.go:158-172 | returns the value stored under k or None when k is absent, after at most maxDist + 1 probes |
| RobinHood.RobinHoodMap.Delete | robin_hood.go:174-201 | removes exactly k; count drops by one exactly when k was present; on a miss the slots are unchanged; on a hit the new slots are the backward shift of the old ones from k's slot |
| RobinHood.RobinHoodMap.ShiftBack | robin_hood.go:178-193 | deleting a live slot by backward shift keeps the table valid, removes that slot's key and lowers count by one |
| RobinHood.RobinHoodMap.MoveRun | robin_hood.go:183-193 | the shift loop stops at the first following slot at distance 0, and leaves the slots exactly as the backward shift of the old ones from slot i: the run moved one slot back with distances decremented, its last slot cleared, no other slot changed |
| AsWritten.ProbeAsWritten | robin_hood.go:160-169 | the probe of Get and Delete as written, matching on the key alone: a hit is the first slot from the home whose key is k, occupied or not |
| AsWritten.DecrementCount | robin_hood.go:182 | `m.count--` on a uint32: one less for a positive count, 4294967295 for 0 |
| AsWritten.DeleteCountAsWritten | robin_hood.go:174-182 | Delete as written changes count exactly when its probe matches a slot with key k |
| AsWritten.RehashFrom | robin_hood.go:114-119 | rehash's re-insertion as written on values keeps the length of the new slot array |
| AsWritten.PutAsWritten | robin_hood.go:127-156 | Put as written with its restart at the home of `e.key`: the size never shrinks, and a table of size + maxDist slots ends as one of its new size + maxDist slots |
| AsWritten.PutFrom | robin_hood.go:129-150 | one probe epoch of Put as written on a slot array keeps its length and ends at a slot inside it |
| AsWritten.DeleteZeroOnEmptyTable | robin_hood.go:178-182 | on the empty 2-slot table, Delete(0) as written matches the empty home slot 1 and decrements count 0 to 4294967295 |
| AsWritten.DeleteZeroMatchesSentinel | robin_hood.go:176-183 | on a valid 2-slot table whose keys 2, 8, 10 and 16 fill slots 1 to 4, Delete(0)'s probe as written passes them all and matches the sentinel, the last slot |
| AsWritten.CapReachedAtKeySeven | robin_hood.go:146-151 | inserting 12 into a table of keys 4, 5, 6, 7 (all home 0 of 2) reaches the cap while looking at the slot of key 7 |
| AsWritten.GrowToFourSlots | robin_hood.go:105-120 | rehashing that table into 4 home slots re-inserts 4, 5, 6, 7 in array order into a known layout |
| AsWritten.RestartFromOtherHome | robin_hood.go:152-153 | restarting from the home of key 7 (slot 1) instead of key 12's home (slot 0) stores 12 at distance 3 in slot 4, where it breaks the slot invariant, and Get's probe then misses it |
| AsWritten.PutTwelveAsWritten | robin_hood.go:127-156 | the whole Put(12) as written ends in that broken table, where key 12 cannot be found |
| AsWritten.RestartFromOwnHome | robin_hood.go:152-153 | restarting from key 12's own home instead stores it in slot 2, where the probe finds it |
| AsWritten.RestartedFromOwnHomeSlotsOk | robin_hood.go:37-45 | the table after the corrected restart keeps every slot's invariant |
| AsWritten.RestartedFromOwnHomeRepresents | robin_hood.go:127-156 | the table after the corrected restart represents the old pairs plus 12 |
| AsWritten.FourKeysSlotsOk | robin_hood.go:37-45 | the example table of keys 4, 5, 6, 7 is a valid table |
| AsWritten.FourKeysRepresents | robin_hood.go:127-135 | the example table of keys 4, 5, 6, 7 holds exactly the pairs mapping 4, 5, 6, 7 to 100, 101, 102, 103 |
| AsWritten.FourKeysGrownRepresents | robin_hood.go:105-120 | the example table after growth holds the same four pairs |
| AsWritten.FourKeysGrownSlotsOk | robin_hood.go:105-120 | the example table after growth is a valid table |

## Left out

- `String()` (`robin_hood.go:203-210`) only formats the table for printing; it is not modelled.
- `entriesPtr` and `entry(i)` (`robin_hood.go:79, 111, 122-125`) index the slot array through `unsafe` pointer arithmetic without bounds checks. The model indexes the array directly and proves every index in bounds.
- Values are a type parameter `V`. The source's `nil` pointer is `None`, and `Put` takes a value, so storing `nil` is not expressible.
- RobinHood.RobinHoodMap.Put: requires the key to be absent. The source does not check for an existing key, and inserting a key twice stores it twice; that case is not modelled.
- RobinHood.RobinHoodMap.Grow: when the table already has 2^31 home slots, the source's `2 * m.size` wraps to 0 in `uint32`. The model refuses the growth instead and returns false, and Put and Rehash then promise only that the table is valid and holds a subset of the pairs.
- RobinHood.RobinHoodMap.Rehash: on failed nested growth it promises only that the pairs are a subset of the old ones.
- RobinHood.RobinHoodMap.constructor: requires a capacity hint of at most 2^30, the largest whose target size fits the `uint32` size. For larger hints the source's `uint32(targetSize)` conversion truncates; that is not modelled. The rehash it performs starts from a table without slots, so the model only allocates.
- `count` and `shift` are unbounded naturals. `count` equals the number of live slots, so it stays within `uint32` except through the Delete finding, which `AsWritten.DecrementCount` models with wrap-around.
- RobinHood.RobinHoodMap.Get: the probe count is a ghost out-parameter used only to state the `O(log N)` bound.
- The restart at `robin_hood.go:152` sets i to the hash minus 1 before the loop's `i++`, wrapping in uint32 when the hash is 0. The model restarts at the home slot directly. Get's and Delete's probes stop at the sentinel's distance 0 at the latest; the model proves they never pass it.
- AsWritten.PutAsWritten: models Put as written with a fuel bound on growth steps. It returns None when a growth inside a rehash would itself need a growth, or when the fuel runs out; the exhibited run needs neither.
- `robin_hood_test.go` is not part of this model. Garbage collection, `unsafe.Pointer` aliasing and concurrency are outside it.

## Findings

| source | as written | input that shows it | evidently intended | confidence | as-written member | corrected member |
|---|---|---|---|---|---|---|
| robin_hood.go:152 | after growth, the probe restarts at `hash(e.key, m.shift)`. Here `e` points at the slot of the old, discarded array, not at the carried entry | a table of 2 home slots holding keys 4, 5, 6, 7 (all home 0); Put(12) reaches the cap at key 7's slot and restarts from key 7's new home 1 instead of key 12's home 0. Key 12 lands at distance 3 in slot 4, and Get(12) returns nil | restart at `hash(n.key, m.shift)`, the carried entry's own home | not executed | AsWritten.PutTwelveAsWritten | RobinHood.RobinHoodMap.Grow |
| robin_hood.go:178-182 | Delete matches `k == e.key` without checking that the slot is live; an empty slot has key 0 | Delete(0) on a new table (capacity 1, 2 home slots): key 0's home slot 1 is empty with key 0, so count goes from 0 to 4294967295. Also: new(1), then Put 2, 8, 10 and 16 (all home 1) fill slots 1 to 4 at distances 0 to 3; Delete(0) then matches the sentinel slot 5, and the shift loop (robin_hood.go:183-185) reads entry(6), one past the six slots | match only a live slot (`e.value != nil && k == e.key`) | not executed | AsWritten.DeleteZeroOnEmptyTable | RobinHood.RobinHoodMap.Delete |

The restart finding is shown in several steps:

- `AsWritten.CapReachedAtKeySeven`, `AsWritten.GrowToFourSlots` and `AsWritten.RestartFromOtherHome` take Put(12) step by step.
- `AsWritten.PutTwelveAsWritten` follows the whole Put as written through `AsWritten.PutAsWritten`.
- `AsWritten.RestartFromOwnHome` gives the same input under the intended restart.

The corrected restart is what `RobinHood.RobinHoodMap.Grow` and `Put` implement, and their contracts close it for all inputs. The corrected Delete matches only a live slot. Get matches empty slots as well, as the source does; that returns `None` correctly, and `Get`'s contract covers it.
