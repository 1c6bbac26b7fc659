# NewsFeed and DictHash in Dafny

This project models two classes of a small C++ news-feed library and proves properties of the model.

**`DictHash<KeyType, ValueType, Hasher>`** is an open-addressing hash table with linear probing.
- Every bucket is ACTIVE, EMPTY or DELETED.
- `currentSize` counts the ACTIVE and DELETED buckets.
- `checksize` rehashes into a table of `nextprime(2 * tablesize)` buckets once `currentSize * 2 >= tablesize`.
- `getBucket` returns the first DELETED bucket on the probe path whenever it saw one, even when an ACTIVE bucket with the key comes later. The model keeps that behaviour. Two consequences follow, each shown on a three-bucket table:
  - `has` can be false, and the const `get` can throw, for a key that an ACTIVE bucket holds (`Probe.HiddenKey`). Dictionary.h:29-34 promises `has` is true for every key in the dictionary. Adding x, then a key k that collides with it, then removing x reaches that state.
  - `add` can then make k ACTIVE in a second bucket. The const `get` returns the value of the first of the two buckets on the probe path (`Probe.DoubleKey`).
- What `has` and the const `get` do find is always right: an ACTIVE bucket holding the key and the value returned (`Probe.FoundIsActive`).
- `isprime` only tries even factors. So from 4 on, it accepts exactly the odd numbers, and the capacities run 7, 15, 31, 63, ...

**`NewsFeed`** is a priority queue of headlines, least stale first. It is a 1-indexed binary min-heap of headlines (slot 0 unused) plus three dictionaries:
- headline to story;
- headline to staleness;
- headline to heap slot (`locations`).

`enqueue` records the new headline's slot as `n` before incrementing `n`. So the record is right only if `bubble` later moves the headline. The model keeps this as written:
- `Feed.NewsFeed.Enqueue` states both outcomes.
- `Scenarios.StaleReweight` replays an input where the stale record makes `reweight` re-sift from the wrong slot. `peek` then still returns a headline that is no longer the least stale.

Modules:
- `Wrappers`: Option, and the Result/Outcome values that stand for the `std::invalid_argument` exceptions the code throws.
- `Probe`: the probe of `getBucket` and the slot counts, as functions over the sequence of buckets. Also the map the ACTIVE buckets stand for (`ActiveMap`) and the tombstone-free ("clean") tables on which the probe behaves as a map lookup.
- `Capacity`: `isprime`, `nextprime` and the integer square root `isprime` uses.
- `HashTable`: class `DictHash` over an `array` of buckets, with `Valid()`.
  - `currentSize` is the number of non-EMPTY buckets.
  - The table is at most half full plus one bucket, so some bucket is EMPTY.
  - EMPTY and DELETED buckets hold the default key and value.
  - The class also holds the iterator class `ConstIterator`.
- `Heaps`: the heap order, the sift-up and sift-down invariants, and the tracking of recorded slots, stated over the heap array's contents.
- `Feed`: class `NewsFeed` over an `array` of headlines, with the three dictionaries held as maps.
  - `NewsFeed` never removes a dictionary entry, so its tables never hold a tombstone.
  - On such tables, `DictHash` is proved above to behave as a map: `add` is map update and the const `get` is lookup.
- `Scenarios`: the enqueue / reweight / peek / dequeue sequence of the `p5.cpp` driver, proved from the contracts of `Feed`.

## Model

| member | source | states |
|---|---|---|
| Capacity.FloorSqrt | DictHash.h:203 | the truncated square root r of n: r * r <= n < (r + 1) * (r + 1) |
| Capacity.IsPrime | DictHash.h:202-208 | trial division by 2, 4, 6, ... accepts exactly the numbers below 4 and the odd numbers (PassesPrimeTest) |
| Capacity.NextPrime | DictHash.h:215-222 | 7 below 7; otherwise the least number from n on that isprime accepts, which is n when n is odd and n + 1 when it is even |
| Probe.Pos | DictHash.h:184 | slot j steps after start, wrapping at the table size |
| Probe.Offset | DictHash.h:184 | every slot is reached from start within one lap of the probe |
| Probe.FirstStop | DictHash.h:184-191 | the first probe step at an EMPTY bucket or an ACTIVE bucket holding the key; no earlier step stops |
| Probe.FirstDeleted | DictHash.h:185-187 | the first DELETED bucket before a given step; none earlier |
| Probe.StopWithinLap | DictHash.h:184 | with an EMPTY bucket somewhere, the probe stops within one lap, so the loop terminates |
| Probe.Locate | DictHash.h:179-195 | the bucket getBucket returns lies inside the table |
| Probe.LocateCases | DictHash.h:179-195 | getBucket returns the first DELETED bucket before the probe stops if there is one, otherwise the bucket where it stops |
| Probe.LocateActive | DictHash.h:188-189 | an ACTIVE bucket returned by getBucket holds the key probed for |
| Probe.Used | DictHash.h:177 | the number of ACTIVE and DELETED buckets is at most the table size |
| Probe.ActiveCount | DictHash.h:235-237 | the number of ACTIVE buckets is at most the number of non-EMPTY ones |
| Probe.UsedBelowSize | DictHash.h:184 | a table with fewer used buckets than slots has an EMPTY bucket |
| Probe.UsedUpdate | DictHash.h:66-67 | writing a bucket changes the used count by one exactly on an EMPTY to non-EMPTY or non-EMPTY to EMPTY change |
| Probe.AllEmpty | DictHash.h:233-234 | a freshly allocated table has no used bucket, holds no pair and is clean |
| Probe.ActiveMapUpdate | DictHash.h:68-73 | making the key's only ACTIVE bucket hold a value updates the map at that key |
| Probe.ActiveMapAt | DictHash.h:94-95 | with distinct ACTIVE keys, an ACTIVE bucket's pair is in the map |
| Probe.ActiveMapWitness | DictHash.h:58 | every key of the map is held by some ACTIVE bucket |
| Probe.ActiveMapHasKey | DictHash.h:58 | the key of any ACTIVE bucket is a key of the map |
| Probe.ActiveCountPrefix | DictHash.h:235-237 | the rehash loop never meets more ACTIVE buckets than the old table holds |
| Probe.StoreLocates | DictHash.h:63-74 | after getBucket's bucket is made ACTIVE for the key, getBucket returns the same bucket again |
| Probe.RemoveHides | DictHash.h:98-105 | after remove turns getBucket's ACTIVE bucket into a tombstone, the table still has an EMPTY bucket and getBucket returns a DELETED bucket |
| Probe.CleanLocate | DictHash.h:179-195 | on a clean table, getBucket returns the key's ACTIVE bucket, or an EMPTY one when no ACTIVE bucket holds the key |
| Probe.LookupClean | DictHash.h:89-96 | on a clean table, what has and the const get find is exactly the map's entry for the key |
| Probe.CleanStore | DictHash.h:61-75 | on a clean table, storing in getBucket's bucket keeps the table clean and updates the map at the key |
| Probe.FoundIsActive | DictHash.h:89-96 | whatever has or the const get finds, on any table, is an ACTIVE bucket holding the key and the value returned, so the key is a key of the map |
| Probe.HiddenKey | DictHash.h:179-195 | on the table [DELETED, ACTIVE(k, v), EMPTY] probed from slot 0, getBucket's probe stops at the ACTIVE bucket in slot 1 and returns the tombstone in slot 0 that it passed first, so has is false and get fails for k although the map holds k with v |
| Probe.DoubleKey | DictHash.h:89-96 | on the table [ACTIVE(k, v), ACTIVE(k, w), EMPTY] with v != w, get returns v while the map holds k with w |
| HashTable.DictHash.constructor | DictHash.h:26 | an unallocated, clean table with no pair |
| HashTable.DictHash.GetBucket | DictHash.h:179-195 | the loop returns the bucket Locate describes |
| HashTable.DictHash.Has | DictHash.h:54-59 | false on an unallocated table, otherwise whether getBucket's bucket is ACTIVE; true only for a key of the map, tombstones or not; on a clean table, exactly membership of the key |
| HashTable.DictHash.Get | DictHash.h:89-96 | the value in getBucket's bucket if ACTIVE, NotFound otherwise and on an unallocated table; Ok only for a key of the map, with the value of an ACTIVE bucket holding that key, tombstones or not; on a clean table, exactly map lookup |
| HashTable.DictHash.Occupy | DictHash.h:64-70 | bucket b becomes the ACTIVE entry; currentSize grows by one exactly when b was EMPTY; the table stays valid |
| HashTable.DictHash.Store | DictHash.h:63-74 | only getBucket's bucket changes, to the pair; currentSize grows exactly when it was EMPTY; the key then finds the value; a clean table stays clean with the map updated |
| HashTable.DictHash.CheckSize | DictHash.h:228-240 | afterwards the table is allocated and currentSize * 2 < tablesize, with the same pairs; without a rehash nothing changes; with one the table is fresh, clean and 7 or 2 * tablesize + 1 long |
| HashTable.DictHash.Rehash | DictHash.h:229-239 | a fresh clean table of the new size holding exactly the ACTIVE pairs of the old one |
| HashTable.DictHash.GrownSize | DictHash.h:232 | nextprime(2 * tablesize) is 7 or 2 * tablesize + 1, odd, and more than twice the ACTIVE buckets |
| HashTable.DictHash.Reallocate | DictHash.h:230-234 | a fresh all-EMPTY table of the new size, with currentSize 0 |
| HashTable.DictHash.Allocate | DictHash.h:233-234 | new Entry[tablesize] with currentSize 0 is a valid, clean, empty table |
| HashTable.DictHash.ReinsertAll | DictHash.h:235-237 | after the loop the table holds exactly the ACTIVE pairs of the old table and is still under half full |
| HashTable.DictHash.Reinsert | DictHash.h:236-237 | an ACTIVE old bucket is added and any other is skipped; the map grows accordingly and stays clean |
| HashTable.DictHash.Add | DictHash.h:61-75 | afterwards the key finds the value, tombstones or not; on a clean table, and after a rehash whatever the old table held, the new table is clean and the map is the old one updated at the key; without a rehash only getBucket's bucket changes and currentSize grows exactly when it was EMPTY |
| HashTable.DictHash.GetOrCreate | DictHash.h:77-87 | the key then finds the returned value; a key absent before gets the default value, as does a key has did not find when no rehash happens; on a clean table, and after a rehash whatever the old table held, the new table is clean, the value is the key's old map value or the default, and the map gains the key with it; without a rehash, the value is the one in getBucket's bucket, only that bucket changes (to ACTIVE for the key, value kept) and currentSize grows exactly when it was EMPTY |
| HashTable.DictHash.Vivify | DictHash.h:79-86 | getBucket's bucket becomes ACTIVE for the key, keeping its value, which is returned; if has was false the value is the default |
| HashTable.DictHash.Remove | DictHash.h:98-105 | afterwards the key is not found; if it was not found before nothing changes, otherwise only its bucket becomes a DELETED bucket with default key and value |
| HashTable.DictHash.Begin | DictHash.h:151-156 | an iterator at the first ACTIVE slot, or at tablesize when none is |
| HashTable.DictHash.End | DictHash.h:162-164 | an iterator at tablesize |
| HashTable.ConstIterator.constructor | DictHash.h:125 | holds the dictionary and slot given |
| HashTable.ConstIterator.Key | DictHash.h:127-129 | at an ACTIVE slot, a key of the dictionary |
| HashTable.ConstIterator.Next | DictHash.h:131-136 | moves to the next ACTIVE slot after the current one, or to tablesize when none is left, skipping only non-ACTIVE slots |
| HashTable.ConstIterator.Differs | DictHash.h:138-140 | iterators that do not differ are at the same slot |
| Heaps.OnlyOnce | NewsFeed.cpp:123-133 | a headline held once in slots 1..n is, at its slot, the only one |
| Heaps.RootIsLightest | NewsFeed.cpp:103-107 | the root of an ordered heap is no heavier than any live slot |
| Heaps.LightestAtRoot | NewsFeed.cpp:103-107 | a headline strictly lighter than all other queued ones is at the root |
| Heaps.BubbleDone | NewsFeed.cpp:12 | where bubble's loop stops, the heap is ordered |
| Heaps.BubbleStep | NewsFeed.cpp:13-15 | swapping a slot lighter than its parent with the parent moves the only disorder up to the parent |
| Heaps.PercolateDone | NewsFeed.cpp:20-25 | where percolate's loop stops, the heap is ordered |
| Heaps.PercolateStep | NewsFeed.cpp:21-27 | swapping a slot with its lighter child, when that child is lighter, moves the only disorder down to the child |
| Heaps.Appended | NewsFeed.cpp:96-99 | appending a headline with its story, weight and record keeps the heap indexed and other records right; the multiset gains it; an ordered heap is disordered only above the new slot |
| Heaps.RootRemoved | NewsFeed.cpp:112 | swap(root(), n--) permutes the slots, loses exactly the root from the live multiset, records the root at the old n and the last headline at 1, keeps other records right, and leaves an ordered heap disordered only below the root (Swapped) |
| Heaps.SwapOut | NewsFeed.cpp:112 | swapping the root with slot n permutes the slots, and slots 1..n-1 then hold all but the old root |
| Heaps.SwapOutTracks | NewsFeed.cpp:112 | after that swap, every other headline whose record was right still has a right record |
| Heaps.OrderedElsewhere | NewsFeed.cpp:97 | re-weighting a headline that is not queued keeps the heap order |
| Heaps.AppendExceptUp | NewsFeed.cpp:99-100 | a headline placed after an ordered heap leaves only its slot to sift up |
| Heaps.RemoveRootExceptDown | NewsFeed.cpp:112-113 | moving the last slot to the root of an ordered heap leaves only the root to sift down |
| Heaps.LighterExceptUp | NewsFeed.cpp:125-133 | lowering the weight of a headline at one slot only leaves that slot to sift up |
| Heaps.HeavierExceptDown | NewsFeed.cpp:125-131 | raising the weight of a headline at one slot only leaves that slot to sift down |
| Heaps.SwapPermutes | NewsFeed.cpp:35-36 | swapping two live slots permutes slots 1..n |
| Heaps.PermutedTrans | NewsFeed.cpp:11-17 | a sequence of swaps is a permutation |
| Heaps.PermutedKeeps | NewsFeed.cpp:134-136 | a queued headline is still in some live slot after a permutation |
| Heaps.TracksKeptTrans | NewsFeed.cpp:35-39 | keeping records right is preserved across successive swaps |
| Heaps.SwapTracks | NewsFeed.cpp:35-39 | swap records both swapped headlines at their new slots and keeps every right record right |
| Heaps.SameSlots | NewsFeed.cpp:61-62 | a copy of slots 1..n carries the same heap, order and records |
| Heaps.PermutedIndexed | NewsFeed.cpp:35-39 | permuting the slots keeps every queued headline with a story, weight and record |
| Heaps.RootNotLighter | NewsFeed.cpp:112-113 | after a dequeue from an ordered heap, the new root is no lighter than the dequeued one |
| Heaps.RecordsKeptTrans | NewsFeed.cpp:35-39 | records that keep their keys and change only to right ones stay so across successive swaps |
| Heaps.RoundKept | NewsFeed.cpp:11-29 | one more round of bubble or percolate keeps the permutation, the right records and the changed-only-to-right records since the start |
| Heaps.SwapRecords | NewsFeed.cpp:35-39 | swap keeps the keys of the records and changes a record only to a right one |
| Heaps.AppendRecords | NewsFeed.cpp:96-100 | adding the new headline's record adds only its key; any other record changed afterwards is right |
| Heaps.RemovedRecords | NewsFeed.cpp:112-113 | across swap(root(), n--) and percolate, the records keep their keys, the dequeued headline's record is the old n unless it is right, and every other changed record is right |
| Heaps.RemovedTracks | NewsFeed.cpp:112-113 | a record right after the swap of a dequeue stays right across the percolate |
| Heaps.RemovedRecordStays | NewsFeed.cpp:112 | a dequeued headline that is no longer queued keeps the record old n |
| Heaps.Settled | NewsFeed.cpp:112-113 | across a whole dequeue: the root ends in slot old n, the live multiset loses exactly it, an ordered heap gives a new root no lighter, right records stay right, and records change only as RemovedRecords says |
| Heaps.AncestorStep | NewsFeed.cpp:13-15 | the parent of an ancestor of slot c (or c itself) from 2 on is again an ancestor, strictly above c |
| Feed.NewsFeed.constructor | NewsFeed.cpp:82 | an empty heap of capacity 0 with empty dictionaries |
| Feed.NewsFeed.Root | NewsFeed.cpp:66-68 | root() is a slot from 1 on whose parent is slot 0, the unused slot outside the heap, so it is slot 1 |
| Feed.NewsFeed.Parent | NewsFeed.cpp:70-72 | the parent of a slot from 2 on is a smaller slot from 1 on |
| Feed.NewsFeed.Left | NewsFeed.cpp:74-76 | parent(left(p)) == p, and left(p) > p from 1 on |
| Feed.NewsFeed.Right | NewsFeed.cpp:78-80 | parent(right(p)) == p and right(p) == left(p) + 1 |
| Feed.NewsFeed.ValidSlot | NewsFeed.cpp:41-43 | i is valid exactly when 1 <= i <= n |
| Feed.NewsFeed.IsRoot | NewsFeed.cpp:45-47 | is_root(i) exactly when i == 1 |
| Feed.NewsFeed.IsLeaf | NewsFeed.cpp:49-51 | is_leaf(i) exactly when no live slot has i as parent, that is, i == 0 or 2i > n |
| Feed.NewsFeed.HasRight | NewsFeed.cpp:53-55 | has_right(p) exactly when 2p + 1 <= n |
| Feed.NewsFeed.Empty | NewsFeed.cpp:115-117 | empty exactly when no headline is queued |
| Feed.NewsFeed.Weight | NewsFeed.cpp:119-121 | the staleness of a headline ever enqueued (dequeued ones included); NotFound for any other; never fails for a queued one |
| Feed.NewsFeed.Get | NewsFeed.cpp:140-143 | the story of a headline ever enqueued; NotFound for any other; never fails for a queued one |
| Feed.NewsFeed.Value | NewsFeed.cpp:31-33 | the weight of the headline in slot i, which exists for every live slot |
| Feed.NewsFeed.Swap | NewsFeed.cpp:35-39 | exchanges two slots and nothing else, records both at their new slots, keeps every right record right, and changes no other record |
| Feed.NewsFeed.SwapUp | NewsFeed.cpp:13-15 | one round of bubble: the headline moves to the parent slot, recorded there; the slots stay a permutation, the disorder moves up, right records stay right, the records keep their keys and any record that changes becomes right |
| Feed.NewsFeed.Bubble | NewsFeed.cpp:11-17 | permutes slots 1..n only; makes a heap ordered except above slot c ordered; the headline ends at slot c or one of its ancestors, recorded there if it moved; right records stay right, the records keep their keys and any changed record is right; throws only from slot 0 when heap[0] has no weight |
| Feed.NewsFeed.LighterChild | NewsFeed.cpp:21-23 | a child of p no heavier than either child, and the right one only when it is strictly lighter than the left |
| Feed.NewsFeed.SwapDown | NewsFeed.cpp:26-27 | one round of percolate: the headline moves to the child slot, recorded there; the slots stay a permutation, the disorder moves down, right records stay right, the records keep their keys and any record that changes becomes right |
| Feed.NewsFeed.Percolate | NewsFeed.cpp:19-29 | permutes slots 1..n only; makes a heap ordered except below slot p ordered; the headline ends at a deeper slot, recorded there, if it moved; right records stay right, the records keep their keys and any changed record is right |
| Feed.NewsFeed.Resize | NewsFeed.cpp:57-64 | capacity becomes 2 * capacity + 17 > n in a fresh array with the same live slots, order and records |
| Feed.NewsFeed.Append | NewsFeed.cpp:96-99 | story and weight recorded, the slot recorded as the old n, and the headline put in slot n + 1 |
| Feed.NewsFeed.Push | NewsFeed.cpp:96-100 | the multiset gains the headline, which ends in some slot; its record is right if it moved and the old n otherwise; order kept for a new headline, and only for one: a duplicate enqueue changes the weight of the copy already queued; the records gain only its key, other right records stay right and any other changed record is right, so a stale record survives |
| Feed.NewsFeed.Enqueue | NewsFeed.cpp:93-101 | as Push, after growing a full heap to 2 * capacity + 17 slots |
| Feed.NewsFeed.Peek | NewsFeed.cpp:103-107 | EmptyQueue exactly on an empty heap; otherwise the root, no heavier than any queued headline when the heap is ordered |
| Feed.NewsFeed.RemoveRoot | NewsFeed.cpp:112 | swap(root(), n--) as RootRemoved states it (Swapped): the root moves to old slot n and is recorded there, the last headline moves to slot 1 and is recorded there, no other record changes; only the root is left to sift down |
| Feed.NewsFeed.SettleRoot | NewsFeed.cpp:113 | percolate(root()) after that swap: slot n + 1 and the live multiset are kept, an ordered heap is ordered again with a root no lighter than the dequeued one, and the records change as Settled says |
| Feed.NewsFeed.Pop | NewsFeed.cpp:112-113 | n drops by one, the old root sits in old slot n and leaves the live multiset; order is kept and the new root is no lighter than the old; the records keep their keys, right ones stay right, other changed ones are right; the old root's record is the old n unless right, and exactly the old n once it is no longer queued |
| Feed.NewsFeed.Dequeue | NewsFeed.cpp:109-114 | EmptyQueue and no change on an empty heap; otherwise as Pop; stories and staleness are untouched, so the dequeued headline keeps its story, its weight and, once no longer queued, its record old n |
| Feed.NewsFeed.Resift | NewsFeed.cpp:124-133 | stores the new weight and sifts from the recorded slot; a permutation of the slots; right records stay right, the records keep their keys and any changed one is right; an ordered heap whose record for the headline is right, with the headline queued only there, stays ordered; fails only when bubbling from slot 0 |
| Feed.NewsFeed.Relocate | NewsFeed.cpp:134-137 | records the first slot holding the headline, changing no other record and no slot |
| Feed.NewsFeed.Reweight | NewsFeed.cpp:123-138 | weight(h) == w afterwards, the live multiset is unchanged, h is recorded at its first slot; other right records stay right and any other changed record is right; an ordered heap whose record was right, with the headline queued only there, stays ordered; a lighter weight at the root moves nothing |
| Scenarios.StaleReweight | NewsFeed.cpp:98-99 | after enqueue Flash (1) and J (2), J is recorded at slot 1; reweight J to 0 then moves nothing, and peek still names Flash |
| Scenarios.Pair | NewsFeed.cpp:93-101 | two enqueues, the second heavier: it stays in slot 2 and is recorded at slot 1 |
| Scenarios.LateReweight | NewsFeed.cpp:123-138 | after that pair and a third enqueue, B still carries its stale record 1, so reweight(B, 0) may be called; it succeeds and B then weighs 0 |
| Scenarios.Insert | NewsFeed.cpp:93-101 | enqueue of a new headline onto an ordered heap keeps it ordered and adds the headline |
| Scenarios.InsertLightest | NewsFeed.cpp:93-101 | a headline lighter than every queued one bubbles to the root, so its record is right |
| Scenarios.Drop | NewsFeed.cpp:109-114 | dequeue of the root of an ordered heap removes exactly it and keeps the order |
| Scenarios.Restale | NewsFeed.cpp:123-138 | reweight of a headline queued once with a right record keeps the heap ordered and the multiset |
| Scenarios.Opening | p5.cpp:14-16 | after three enqueues of distinct headlines, the heap is ordered and holds them with their weights |
| Scenarios.Fill | p5.cpp:14-18 | after the fourth enqueue (weight -1) and reweight to 4, the heap is ordered and holds the four with weights 1, 2, 3, 4 |
| Scenarios.Lightest | p5.cpp:19 | peek returns the strictly lightest queued headline |
| Scenarios.Inspect | p5.cpp:19-22 | peek, get and weight return the lightest headline, its story and its weight |
| Scenarios.FrontRound | p5.cpp:19-24 | as Inspect, then dequeue leaves the rest, and empty tells whether the rest is empty |
| Scenarios.QuietRound | p5.cpp:31-33 | peek names the lightest headline, and dequeue leaves the rest |
| Scenarios.LastRound | p5.cpp:34-38 | peek and weight name the last headline, and the heap is then empty |
| Scenarios.Replay | p5.cpp:14-38 | for any four distinct headlines, the peeks come out in weight order, with the stories, weights and empty flags the driver prints |
| Scenarios.Driver | p5.cpp:14-38 | the driver's own run: peeks Flash, J, K, L; weights 1, 2, 4; empty false, false, true |

## Left out

- The mutable `get` returns a modifiable `ValueType&` (DictHash.h:77-87; Dictionary.h:40). `HashTable.DictHash.GetOrCreate` returns the value instead, so writing through the reference is not modelled. NewsFeed's own writes go through `add`.
- The three dictionaries of `NewsFeed` are Dafny maps, not `DictHash` objects. On tombstone-free tables `DictHash` is proved to behave as a map, but composing the class with the feed is not verified.
- `Feed.NewsFeed.Reweight` requires the headline to be queued, with a recorded slot of at most `n`. The const `get` of `locations` throws for a headline never enqueued. The scan for the headline has no bound, so it is modelled only where the headline is in slots 1..n.
  - For a headline never enqueued while already queued, the record is its slot, or its slot minus one while it has not moved since `enqueue`. Either way it is at most `n`.
  - The bound can fail only when a headline is enqueued while it is still queued. Enqueue A (5), h (10), h (10), then dequeue twice: that leaves `n` = 1, slot 1 = h and a record of 2 for h. The source would then sift from slot 2, outside the heap, which the model does not cover.
- Feed.NewsFeed.Push and `Feed.NewsFeed.Enqueue` promise the heap order only for a headline not already queued. That limit is the source's own behaviour: `add` on `staleness` re-weights the copy already in the heap, and only the new copy is bubbled. Enqueue A (1), h (5), B (6), then h (0): the new h in slot 4 stays below its parent, the old h in slot 2, which now also weighs 0. That leaves h, weighing 0, in slot 2 below A, weighing 1, in slot 1.
- `Feed.NewsFeed.Resift`: reweight reads the old weight with the mutable `get`, which would insert a weight for an unknown headline. The model only covers queued headlines, which always have a weight. Like `Feed.NewsFeed.Reweight`, it also requires the recorded slot to be at most `n`, for the reasons given above: only a duplicate enqueue breaks that bound, and the source would then sift from a slot outside the heap.
- `bubble` from slot 0 calls `value(0)`, that is, the const `get` of `heap[0]`. It is modelled as a failure when `heap[0]` has no weight, and as a comparison otherwise.
- The heap is `nullptr` before the first `enqueue`. It is modelled as a one-slot array (slot 0 only). New slots hold the empty headline that `new std::string[]` produces.
- Destructors, the copy and move constructors and assignments, and `delete[]` are memory management and are not modelled.
- `loadfactor` returns a `double`. It is not modelled; the integer relation `currentSize * 2` against `tablesize` appears in the contracts instead.
- `std::sqrt` in `isprime` is taken as the exact integer square root. Floating-point rounding is not modelled.
- `size_t` and `int` are unbounded here. Wrap-around of `tablesize * 2`, `2 * capacity + 17` or `currentSize` is not modelled.
- The `Hasher` (`std::hash` or `HeadlineHasher`) is a function `hash: K -> nat` given to the `DictHash` constructor.
- `NewsFeed::begin` and `NewsFeed::end` (NewsFeed.cpp:146-152) are not modelled. `end` uses the heap count as a table slot and `begin` does not skip to an ACTIVE slot, so that iteration is not well defined.
- The printing of `p5.cpp` is not modelled. The scenarios return what it prints.
- Dictionary.h and PriorityQueue.h are interfaces without logic. Their comments are used only as contract sources.
- HashTable.DictHash.GetOrCreate: the map view afterwards is stated when the table was clean and whenever `checksize` rehashes. A rehash reinserts a key hidden behind a tombstone, so the `get` then returns its old value rather than `ValueType()`. Without a rehash, on a table with tombstones, the exact bucket write and the returned value are stated, but the map view is not. Two such tables break it. With a tombstone ahead of an ACTIVE bucket holding the key, the tombstone becomes ACTIVE with `ValueType()` and the key is ACTIVE twice. With the key already ACTIVE twice, `get` returns the first copy while the map view holds the later one (`Probe.DoubleKey`).
- HashTable.DictHash.Add: the map view (the pairs updated at the key) is stated for tables without tombstones and after a rehash, which rebuilds the table without them. Without a rehash, on a table with tombstones, the exact bucket write is stated, but the map view is not. With a tombstone before an ACTIVE bucket holding the key, `add` makes the key ACTIVE twice. With the key already ACTIVE twice, `add` updates the first copy while the map view keeps the later one.
- HashTable.DictHash.Remove requires `tablesize > 0`. On a dictionary that nothing was ever added to, the source's `remove` calls getBucket with a table size of 0 and computes `hash % 0` (DictHash.h:184). That division by zero is undefined behaviour in C++, so the model does not cover that call.
- HashTable.ConstIterator.Differs states only that iterators that do not differ are at the same slot, not that they also share the dictionary.
- HashTable.DictHash.Get: `Ok(v)` is not stated to mean that the map holds the key with `v`. When the key is ACTIVE in two buckets, which `add` can cause behind a tombstone, the map holds the value of the bucket with the higher index while `get` returns the one it probes first (`Probe.DoubleKey`). The contract states instead that some ACTIVE bucket holds the key with `v`.
