# stecs: a verified model of the bitset, column store, query and entity core

This project models the core of the stecs repository. It has two parts:

- **inbitset**: a three-level radix bitmap. Slots are grouped 256 to a bottom block, bottom blocks 256 to a middle block, and middle blocks 256 under one top block. The middle and bottom blocks live in pools that are allocated on demand. Each block is a 256-bit `Bits` value made of four 64-bit lanes.
- **mosaic**: an entity-component store built from three pieces:
  - column stores: a presence mask over a vector of possibly uninitialised cells;
  - queries: trees of stores, `maybe` wrappers and tuples, iterated over the intersection of their masks;
  - an identity allocator: reusable indices, never-reused handles, a handle-to-index map and a reverse `handles` column.

The modules follow the source files:

| module | file | models |
|---|---|---|
| `Wrappers` | `wrappers.dfy` | `Option`, and `Outcome`, where `Panic(message)` stands for an `expect` that fails |
| `Lanes` | `lanes.dfy` | one `u64` lane as 64 bits: set/clear a bit, `\|`, `trailing_zeros`, `v & (v - 1)`, `count_ones`, and a lane holding a `usize` word |
| `Bits` | `bits.dfy` | `Bits` from inbitset/src/bits.rs |
| `InBitSet` | `inbitset.dfy` | `LevelIndices`, `Level`, `TopBlock`/`MiddleBlock::get_or_insert` and `BitSet` from inbitset/src/lib.rs |
| `Sparse` | `sparse.dfy` | mosaic's `BitSet`, from the `hi_sparse_bitset` library, as a finite `set<nat>` iterated in ascending order |
| `Store` | `store.dfy` | `VecStore` and `MaskStore` from mosaic/src/store.rs |
| `Query` | `query.dfy` | the queries, `bitset_and` and `QueryIter` from mosaic/src/query.rs |
| `Entity` | `entity.dfy` | `IndexAlloc`, `HandleAlloc`, `IndexMap` and `Entities` from mosaic/src/entity.rs |

Where the source mutates state, the model does too:

- `Level`, `BitSet`, `VecStore`, `MaskStore`, `QueryIter` and the allocators are classes, and their methods carry `modifies` clauses.
- `Bits` is a `Copy` value embedded in the blocks of a pool. Its `&mut self` operations are therefore functions that return the updated value. `for_each_set` is a method that keeps the source's two nested loops.
- Queries are pure compositions, so they are datatypes and functions.

An inbitset slot is **present** (`InBitSet.MemberIn`) when the pointer chain leads to a set bit. The chain runs from the top bit, through that bit's `u8` pointer, to the middle bit, then through that bit's `u16` pointer to the bottom bit.

The `BitSet` invariant has three parts:

- the pools are distinct;
- their free lists are well formed and empty;
- every set bit points at a block of the next pool that only it points at. Ghost owner sequences record which bit that is.

From this invariant `insert` is proved to:

- make exactly its slot present and keep every other slot as it was;
- keep every pointer of a set bit;
- allocate at most one block per pool, and none when the slot was present;
- never reach the "failed to compress block index" panic.

Two places where the code and its evident design disagree:

- **`MaybeQuery`** (mosaic/src/query.rs:82-95). It is declared with named fields `inner` and `mask`. But `open` reads `self.0` and returns `BitSetAll`, a type that is defined nowhere. `maybe()` at mosaic/src/query.rs:35 builds it as a one-field newtype. The model follows that newtype intent: `open` opens the inner query and returns the mask holding every index (`Query.Mask.All`), keeping the inner mask for `get`.
- **`BitSet::contains`** (inbitset/src/lib.rs:26-35). It has no return type, and it reads the bottom pool at the middle index. The model's membership is the pointer chain. The literal reading is kept apart as `InBitSet.BitSet.ContainsAsWritten`, and the evident intent is `InBitSet.BitSet.Contains` (see Findings).

## Model

| member | source | states |
|---|---|---|
| Lanes.SetBit | inbitset/src/bits.rs:59-61 | `lane \|= 1 << k` sets bit `k` and keeps every other bit |
| Lanes.ClearBit | inbitset/src/bits.rs:72-74 | `lane &= !(1 << k)` clears bit `k` and keeps every other bit |
| Lanes.Or | inbitset/benches/is_empty.rs:9-15 | each bit of `a \| b` is set exactly when it is set in `a` or in `b` |
| Lanes.PopCount | inbitset/src/bits.rs:25 | `count_ones` of a lane is at most 64 |
| Lanes.CountBelowZeroIff | inbitset/src/bits.rs:25 | the count of set bits below position `n` is zero exactly when no bit below `n` is set |
| Lanes.PopCountZero | inbitset/src/bits.rs:25 | `count_ones` is zero exactly for the zero lane |
| Lanes.TestBitWord | inbitset/src/bits.rs:48-49 | on a lane's `u64` value, `(value & (1 << k)) != 0` holds exactly when bit `k` of the lane is set |
| Lanes.TrailingZeros | inbitset/src/bits.rs:33 | `trailing_zeros` is the position of the lowest set bit (every lower bit is clear, that bit is set), and 64 exactly for the zero lane |
| Lanes.ClearLowest | inbitset/src/bits.rs:36 | `value &= value - 1` clears the lowest set bit and no other |
| Lanes.ClearLowestCount | inbitset/src/bits.rs:32-36 | clearing the lowest set bit lowers the population count by one, so the inner loop of `for_each_set` terminates |
| Lanes.WordRoundTrip | inbitset/src/bits.rs:80-87 | a `usize` stored in a lane (`empty as u64`) reads back (`array[0] as usize`) as the same number |
| Lanes.WordBound | inbitset/src/bits.rs:80-82 | a word read from a lane fits in 64 bits |
| Lanes.WordZero | inbitset/src/lib.rs:133-137 | the zeroed lane holds the word 0 |
| Bits.Position | inbitset/src/bits.rs:46-47 | global bit `lane * 64 + j` has lane `lane` and position `j` |
| Bits.Bits.Get | inbitset/src/bits.rs:41-50 | `get_unchecked(b)` is bit `b % 64` of lane `b / 64`; its arithmetic reading is `Bits.Bits.GetTestsMask` |
| Bits.Bits.GetTestsMask | inbitset/src/bits.rs:45-50 | `get_unchecked(b)` equals `(lanes[b / 64] & (1 << (b % 64))) != 0` on the lane's `u64` value |
| Bits.Bits.IsEmpty | inbitset/src/bits.rs:18-21 | the OR reduction is zero exactly when no bit below 256 is set, and exactly when the enumeration of set bits is empty |
| Bits.Bits.EmptyIffLanesZero | inbitset/benches/is_empty.rs:9-15 | `is_empty` holds exactly when all four lanes are zero |
| Bits.Bits.EmptyIffNoBit | inbitset/benches/is_empty.rs:9-15 | `x[0] \| x[1] \| x[2] \| x[3] == 0` exactly when no bit is set, and exactly when no index is enumerated |
| Bits.Bits.CountSet | inbitset/src/bits.rs:23-26 | the sum of the four lane population counts is at most 256 |
| Bits.Bits.CountSetIsOnes | inbitset/benches/count_ones.rs:9-19 | the sum of the lane counts equals the number of set bits below 256, and it is 0 exactly when the block is empty |
| Bits.Bits.Set | inbitset/src/bits.rs:52-63 | `set_unchecked(b)` returns the previous value of bit `b`; afterwards `b` is set and every other bit is unchanged |
| Bits.Bits.Unset | inbitset/src/bits.rs:65-76 | `unset_unchecked(b)` returns the previous value of bit `b`; afterwards `b` is clear and every other bit is unchanged |
| Bits.Bits.TakeEmptyBlock | inbitset/src/bits.rs:78-83 | returns the word in lane 0, which fits in 64 bits; lane 0 is zeroed and bits 64..255 are unchanged |
| Bits.Bits.SetEmptyBlock | inbitset/src/bits.rs:85-88 | stores the word in lane 0 so that `take_empty_block` returns it; bits 64..255 are unchanged |
| Bits.TakeAfterSetEmpty | inbitset/src/bits.rs:78-88 | `take_empty_block` after `set_empty_block(e)` returns `e`, and lanes 1 to 3 survive the round trip |
| Bits.Bits.ForEachSet | inbitset/src/bits.rs:28-39 | the indices passed to `f` are exactly the set bits in strictly ascending order (`Ones`), each once |
| Bits.Bits.ForEachSetInLane | inbitset/src/bits.rs:31-37 | one pass of the inner `while`: appends the set bits of lane `lane`, lowest first, to those of the lower lanes |
| Bits.Bits.NextOne | inbitset/src/bits.rs:33-35 | the lowest set bit of the remaining value is the next set bit of the block, so `lane * 64 + bit` is the next index to visit |
| Bits.Bits.LaneDone | inbitset/src/bits.rs:32 | once `value` is zero, the lane holds no further set bit |
| Bits.Bits.OnesBelowSpec | inbitset/src/bits.rs:28 | the enumeration below `n` holds exactly the set bits below `n`, strictly ascending |
| Bits.Bits.OnesGap | inbitset/src/bits.rs:32-37 | a range of clear bits adds nothing to the enumeration |
| Bits.Bits.CountBelowIsLaneCount | inbitset/src/bits.rs:24-25 | the set bits below `lane * 64 + j` number the counts of the lower lanes plus those of lane `lane` below `j` |
| Bits.EmptyHasNoBits | inbitset/src/bits.rs:12 | the default (all-zero) block has no set bit, is empty and counts 0 |
| Bits.CountAfterSet | inbitset/src/bits.rs:56-63 | setting a clear bit adds one to `count_set`; setting a set bit changes nothing |
| Bits.SetPresent | inbitset/src/bits.rs:56-63 | setting a bit that is already set gives back the same block |
| Bits.CountWithUnsetBit | inbitset/src/bits.rs:23-26 | a block with a clear bit counts fewer than 256 set bits |
| InBitSet.NewIndices | inbitset/src/lib.rs:198-213 | middle and bottom are below 256, `top * 65536 + middle * 256 + bottom` is the slot, and `top < 256` exactly for slots below `2^24` |
| InBitSet.IndicesRoundTrip | inbitset/src/lib.rs:198-213 | every triple with middle and bottom below 256 is the split of exactly one slot |
| InBitSet.InsertPastCapacity | inbitset/src/lib.rs:16-22 | slot `2^24` splits into top index 256, past the top block; every larger slot does too |
| InBitSet.PopKeepsFreeList | inbitset/src/lib.rs:69-82 | popping the head of a well-formed free list leaves a well-formed free list whose head is the popped block's lane 0 |
| InBitSet.Level.constructor | inbitset/src/lib.rs:59-63 | the empty pool with the `usize::MAX` sentinel that the field comment prescribes; its free list is well formed |
| InBitSet.Level.Derived | inbitset/src/lib.rs:59-63 | the pool the derived `Default` builds: no blocks and `empty == 0` |
| InBitSet.DerivedDefaultHasNoFreeList | inbitset/src/lib.rs:59-82 | the derived default pool has no well-formed free list, and it fails the guard that `pop_empty_block` needs (`empty == usize::MAX` or `empty < blocks.len()`) |
| InBitSet.Level.PopEmptyBlock | inbitset/src/lib.rs:69-82 | `None` exactly when `empty == usize::MAX`, with nothing changed; otherwise the old head is returned, the new head is that block's lane 0, which is zeroed, and the free list stays well formed |
| InBitSet.Level.InsertBlock | inbitset/src/lib.rs:84-92 | reuses the free-list head if there is one; otherwise appends a default block and returns the old length; the result indexes the pool, which grows by at most one |
| InBitSet.GetOrInsert | inbitset/src/lib.rs:106-124 | the bit is set on every path. On a set bit the stored pointer is returned and the pool is untouched. On a clear bit `insert_block` runs once: its result is stored and returned when it fits the pointer width, and otherwise the call panics with "failed to compress block index" after the bit is set |
| InBitSet.TopRoom | inbitset/src/lib.rs:116-119 | while a top bit is clear, the middle pool holds fewer than 256 blocks, so a new middle pointer fits in `u8` |
| InBitSet.MidRoom | inbitset/src/lib.rs:156-159 | while a middle bit is clear, the bottom pool holds fewer than `2^16` blocks, so a new bottom pointer fits in `u16` |
| InBitSet.ExtendsKeepsMembers | inbitset/src/lib.rs:16-56 | a present slot stays present when bits are only added and set pointers are kept |
| InBitSet.TopFresh | inbitset/src/lib.rs:115-122 | pointing a fresh top bit at a new default middle block keeps the pointer shape, keeps older bits and pointers, and adds no present slot |
| InBitSet.MidFresh | inbitset/src/lib.rs:155-162 | pointing a fresh middle bit at a new default bottom block keeps the pointer shape, keeps older bits and pointers, and adds no present slot |
| InBitSet.TopStep | inbitset/src/lib.rs:44-46 | after `get_or_insert` on the top block, top bit `t` is set and points at middle block `mi`; no present slot is added, and nothing changes when the bit was set |
| InBitSet.MidStep | inbitset/src/lib.rs:48-52 | after `get_or_insert` on the middle block, the path leads to bottom block `b`; no present slot is added, and nothing changes when the path existed |
| InBitSet.LeafSet | inbitset/src/lib.rs:20-22 | setting the bottom bit on slot `i`'s path makes `i` present and no other slot, since no two paths share a bottom block |
| InBitSet.BitSet.constructor | inbitset/src/lib.rs:9-13 | the empty bitset meets the invariant and holds no slot |
| InBitSet.BitSet.GetOrInsertMiddleBlock | inbitset/src/lib.rs:44-46 | top bit `topIndex` ends set and pointing at a middle block; the invariant is kept, the present slots are the same, and nothing is allocated when the bit was set |
| InBitSet.BitSet.GetOrInsertInMiddle | inbitset/src/lib.rs:48-52 | the path through `topIndex` and `middleIndex` ends at a bottom block; the invariant is kept, the present slots are the same, and nothing is allocated when the path existed |
| InBitSet.BitSet.GetOrInsertBottomBlock | inbitset/src/lib.rs:38-56 | returns the bottom block on the path; the invariant is kept, no slot is added, bits and pointers are only added, each pool grows by at most one, and nothing changes when the path existed |
| InBitSet.BitSet.Insert | inbitset/src/lib.rs:16-24 | afterwards slot `i` is present and every other slot is as before. Existing bits and pointers are kept, each pool grows by at most one, and re-inserting changes nothing |
| InBitSet.MemberIn | inbitset/src/lib.rs:16-56 | slot `i` is present when its top bit is set, the top pointer leads to a middle block whose bit `middle` is set, and that block's pointer leads to a bottom block whose bit `bottom` is set |
| InBitSet.BitSet.Member | inbitset/src/lib.rs:16-56 | membership of slot `i` in this bitset, following the pointer chain; every member is below `2^24` |
| InBitSet.BitSet.ContainsAsWritten | inbitset/src/lib.rs:26-35 | the literal `contains`: bit `bottom` of the bottom block at position `middle`, with the top block and both pointers ignored |
| InBitSet.BitSet.Contains | inbitset/src/lib.rs:26-35 | `contains` as intended: true exactly when the slot is present under the pointer chain; slots past the top block are absent |
| InBitSet.MisreadWitness | inbitset/src/lib.rs:26-35 | once slot 65536 is present in a bitset with at most one bottom block, bit 0 of bottom block 0 is set |
| InBitSet.ContainsMisreads | inbitset/src/lib.rs:26-35 | after inserting slot 65536 into the empty bitset, slot 0 is not present, yet the literal `contains` reads it as present |
| Sparse.Min | mosaic/src/entity.rs:49 | the first index a non-empty set yields is in the set and is its least element |
| Sparse.Ascending | mosaic/src/query.rs:56 | the iteration of a set has one entry per element, every entry in the set, strictly ascending, starting at the least element |
| Sparse.AscendingCovers | mosaic/src/query.rs:56 | every element of the set is yielded by its iteration |
| Sparse.AscendingDistinct | mosaic/src/query.rs:56 | the iteration yields no index twice |
| Store.VecStore.constructor | mosaic/src/store.rs:90-96 | the default raw store has no cells |
| Store.VecStore.Get | mosaic/src/store.rs:101-103 | given an initialised cell, returns the value that cell holds |
| Store.VecStore.GetMut | mosaic/src/store.rs:105-107 | writing through the reference to an initialised cell replaces that cell and no other |
| Store.VecStore.Insert | mosaic/src/store.rs:109-118 | grows the vector to `index + 1` with uninitialised cells when it is too short, then writes cell `index` |
| Store.VecStore.Remove | mosaic/src/store.rs:120-122 | returns the value of an initialised cell, which then no longer owns it |
| Store.Grown | mosaic/src/store.rs:111-115 | after growth the vector covers `index`, keeps its old cells as a prefix, and every new cell is uninitialised |
| Store.InsertKeepsOthers | mosaic/src/store.rs:109-118 | the raw `insert` at `index` changes no other cell and initialises no other cell |
| Store.MaskStore.constructor | mosaic/src/store.rs:18-22 | the default mask store has an empty mask and meets the invariant (the mask holds exactly the initialised cells) |
| Store.MaskStore.Get | mosaic/src/store.rs:37-43 | `Some` exactly when the mask holds the index, and then the stored value |
| Store.MaskStore.GetMut | mosaic/src/store.rs:45-51 | found exactly when the mask holds the index; only then is that cell written; the invariant is kept |
| Store.MaskStore.Insert | mosaic/src/store.rs:53-62 | returns the previous value (`None` when absent); the index joins the mask and holds the new value; every other index reads as before; the invariant is kept |
| Store.MaskStore.Remove | mosaic/src/store.rs:64-70 | returns the previous value (`None` when absent, with the vector unchanged); the index leaves the mask; every other index reads as before; the invariant is kept |
| Store.MaskStore.Snapshot | mosaic/src/store.rs:33-35 | the store as a column value meeting the same invariant, with the same `get` at every index |
| Query.And | mosaic/src/query.rs:215 | `apply(And, a, b)` holds exactly the indices both masks hold, and is the all-indices mask only when both are |
| Query.BitSetAnd | mosaic/src/query.rs:203-232 | the result holds exactly the indices that every mask of the tuple holds |
| Query.Open | mosaic/src/query.rs:116-163 | a store opens to its mask and raw store; `maybe` opens to the all-indices mask and the inner mask and accessor; a tuple opens each part and its mask holds exactly the indices every part's mask holds |
| Query.Get | mosaic/src/query.rs:97-105 | a store fetches its cell; `maybe` yields `Some` exactly when the inner mask holds the index; a tuple yields one item per part |
| Query.MaskInOwnMasks | mosaic/src/query.rs:160 | every index of a query's mask lies in the mask of each store whose raw `get` it reaches |
| Query.OwnMasksSafe | mosaic/src/query.rs:97-105 | with every store valid, indices inside the stores' own masks make every raw fetch hit an initialised cell |
| Query.OpenSafe | mosaic/src/query.rs:67 | fetching at any index of the opened mask calls the raw `get` only on initialised cells |
| Query.GetStore | mosaic/src/query.rs:116-142 | a store query yields the value the store's own `get` returns |
| Query.GetMaybe | mosaic/src/query.rs:92-105 | `maybe` yields `Some(inner item)` when the inner mask holds the index and `None` otherwise; the inner `get` runs only in the first case |
| Query.GetTuple | mosaic/src/query.rs:166-169 | a tuple yields, at one index, the tuple of its parts' items at that index |
| Query.MaybeKeepsMask | mosaic/src/query.rs:92-95 | adding a `maybe` part to a tuple leaves the tuple's mask unchanged |
| Query.Fetched | mosaic/src/query.rs:75-78 | the items fetched at a sequence of indices, one per index, in order |
| Query.FetchedStep | mosaic/src/query.rs:64-79 | the first `next` plus what remains is what `for_each` visits |
| Query.QueryIter.constructor | mosaic/src/query.rs:53-59 | opens the query, iterates its mask in ascending order, and every index to come is safe to fetch at |
| Query.QueryIter.Next | mosaic/src/query.rs:64-68 | `None` once the mask is exhausted; otherwise the item at the next index, and the cursor advances by one |
| Query.QueryIter.ForEach | mosaic/src/query.rs:70-79 | passes `f` the items at the remaining indices, in order, one per index |
| Query.IterYieldsMask | mosaic/src/query.rs:53-68 | an index is yielded by the iterator exactly when the query's mask holds it |
| Entity.IndexAlloc.constructor | mosaic/src/entity.rs:41-45 | the default allocator: nothing freed, `next == 0` |
| Entity.IndexAlloc.Upcoming | mosaic/src/entity.rs:49-54 | the index `allocate` hands out next: the least freed index, else `next` |
| Entity.IndexAlloc.Allocate | mosaic/src/entity.rs:48-61 | takes the least freed index and removes it; with nothing freed, returns `next` and bumps it; panics with "no entity left to allocate" at `usize::MAX` |
| Entity.IndexAlloc.Free | mosaic/src/entity.rs:63-65 | the index joins the freed set |
| Entity.HandleAlloc.constructor | mosaic/src/entity.rs:68-71 | the default counter is 0 |
| Entity.HandleAlloc.Allocate | mosaic/src/entity.rs:74-81 | returns the counter and bumps it, so handles strictly increase; at `u64::MAX` it panics with "no handle left to allocate", so `u64::MAX` is never handed out |
| Entity.IndexMap.constructor | mosaic/src/entity.rs:84-87 | the default map is empty |
| Entity.IndexMap.Insert | mosaic/src/entity.rs:90-92 | maps the handle to the index |
| Entity.IndexMap.Remove | mosaic/src/entity.rs:94-96 | returns the handle's index if it had one, and the handle is gone |
| Entity.IndexMap.Get | mosaic/src/entity.rs:98-100 | `Some` exactly for mapped handles, and then the mapped index |
| Entity.Entities.constructor | mosaic/src/entity.rs:10-16 | no entity is live, and the invariant holds |
| Entity.Entities.Get | mosaic/src/entity.rs:36-38 | `Some` exactly for live handles. Under the invariant, a live handle's index is in the `handles` column and holds that handle, and a handle never handed out is `None` |
| Entity.Entities.IndexMapInjective | mosaic/src/entity.rs:19-34 | no two live handles share an index |
| Entity.Entities.Allocate | mosaic/src/entity.rs:19-25 | panics exactly when the index allocator is exhausted (nothing freed and `next` at `usize::MAX`) or the handle counter is at `u64::MAX`, with that allocator's message. The handle is the handle counter and the index is the least freed index or `next`. Afterwards `get(h) == Some(i)` and the column holds `h` at `i`. The allocators' new state is stated in full: the index is removed from the freed set or `next` is bumped, and the handle counter is bumped. That state holds even when the handle allocator panics after the index was taken. On a panic the map and the column are unchanged, and the invariant is kept |
| Entity.Entities.Free | mosaic/src/entity.rs:27-34 | returns what `get` returned, and `next` of the index allocator never changes. For a handle that is not live, nothing changes at all. For a live handle, the handle leaves the map, its index leaves the column and joins the freed set, and `get` then returns `None`. The invariant is kept |

## Left out

- SIMD: `Simd<u64, 4>` is four scalar lanes; `reduce_or` and `count_ones().reduce_sum()` are written lane by lane, the form the benches compare them with.
- `Bits` is modelled as a value, and each `&mut self` operation (`Set`, `Unset`, `TakeEmptyBlock`, `SetEmptyBlock`) returns the updated block, which its caller writes back, because the block is a `Copy` field of a pool entry.
- InBitSet.BitSet.Insert: requires `i < 2^24`. The source checks no bound: for a larger slot, `insert` passes a top index of 256 or more to `set_unchecked`, against that function's safety rule. `set_unchecked` then indexes lane 4 or beyond of the four-lane `Simd` (inbitset/src/bits.rs:60), and that index is bounds-checked, so the call panics; no memory is corrupted. The `requires` models that panic by excluding it (see Findings).
- InBitSet.BitSet.constructor: the source gives `BitSet` no constructor. The model starts from the empty bitset with sentinel free lists, the only start from which `insert` is safe.
- InBitSet.GetOrInsert: the "failed to decompress block index" `expect` is not modelled. Widening `u8`/`u16` to `usize` cannot fail.
- Nothing calls `set_empty_block` and `BitSet` has no `remove`, so the model's `BitSet` invariant keeps both free lists empty. `pop_empty_block` on a non-empty free list is modelled and proved on its own.
- Store.VecStore.Remove: the source reads the value out (`ptr::read`) and leaves the bytes in place. The model marks the cell uninitialised (`None`), which is what the mask store's invariant relies on.
- Store.VecStore.GetMut: `get_mut` returns a `&mut T`; the model takes the value written through it as an argument. The same holds for Store.MaskStore.GetMut.
- Aliasing and concurrency: `UnsafeCell`, the `Send`/`Sync` impls, and handing out `&mut` through `&` in the `&mut MaskStore` query are not modelled. Only index validity is proved.
- `MaybeUninit` drop and leak behaviour is not modelled.
- Query.Open: every store of a query holds one item type `T`. The source's heterogeneous tuple types are not modelled.
- The bitset-configuration bounds on tuple masks (mosaic/src/query.rs:149, 184, 208) are compile-time type equalities. In the model every mask shares one configuration, so they hold trivially.
- Query.QueryIter.constructor: requires a finite mask. A query whose mask is the all-indices mask (a bare `maybe`) would iterate every index, and `BitSetAll` is defined nowhere.
- Sparse.Ascending: `hi_sparse_bitset::BitSet` is not part of this model. It is taken to be an unbounded finite set iterated in ascending order; its capacity, its configuration and the panic on an index past its capacity are not modelled.
- `HashMap` hashing: the index map is a Dafny `map`.
- Entity.Entities.Allocate: a handle panic after the index was taken is modelled as a returned `Panic` that leaves the index consumed, neither live nor freed. The invariant survives, but the state is not rolled back.
- mosaic/src/lib.rs contributes only type aliases: `Index` is a 64-bit `usize` and `Handle` a `u64`, bounding the counters at `0xFFFF_FFFF_FFFF_FFFF`.
- The derive crates (mosaic_derive, ecs_derive), the examples, ecs/src/lib.rs (including `World::free`) and the benchmark harnesses are not part of this model. The benches are only cited for the lane-wise forms.

## Findings

| source | as written | input that shows it | evidently intended | confidence | as-written member | corrected member |
|---|---|---|---|---|---|---|
| inbitset/src/lib.rs:26-35 | `contains` returns nothing, and it reads bit `bottom` of the bottom block at position `middle`, ignoring the top block and both pointers | insert slot 65536 into an empty bitset, then ask for slot 0: the bottom block at position 0 has bit 0 set, but slot 0 was never inserted | follow top bit → `u8` pointer → middle bit → `u16` pointer → bottom bit, and return that bool | not executed | InBitSet.ContainsMisreads | InBitSet.BitSet.Contains |
| inbitset/src/lib.rs:59-63 | `Level` derives `Default`, so `empty` starts at 0, not at the `usize::MAX` sentinel the field comment names | a default `Level` with no blocks: `pop_empty_block` sees `empty != usize::MAX` and indexes `blocks[0]` of an empty vector | start with `empty = usize::MAX` | not executed | InBitSet.DerivedDefaultHasNoFreeList | InBitSet.Level.constructor |
| inbitset/src/lib.rs:16-22 | `insert` takes any `usize` and passes the top index to `set_unchecked` without a check | slot `2^24` gives top index 256, past the 256-bit top block; `set_unchecked(256)` indexes lane 4 of the four-lane `Simd` and panics on its bounds check | reject slots at or above `2^24` | not executed | InBitSet.InsertPastCapacity | InBitSet.BitSet.Insert |
