/** The three-level radix bitmap of inbitset/src/lib.rs. A slot index splits
    into a top, a middle and a bottom index of eight bits each. The single top
    block has one bit per middle block and a `u8` pointer into the middle
    pool for each set bit. A middle block has one bit per bottom block and a
    `u16` pointer into the bottom pool for each set bit. A bottom block's bits
    are the slots themselves. The pools are `Level`s: vectors of blocks with
    a free list threaded through lane 0 of the free blocks. */
module InBitSet {

  import opened Wrappers
  import opened Lanes
  import opened Bits

  /** `BOTTOM_BLOCK_CAP`: the slots under one bottom block. */
  const BOTTOM_BLOCK_CAP: nat := 0x100
  /** `MIDDLE_BLOCK_CAP`: the slots under one middle block. */
  const MIDDLE_BLOCK_CAP: nat := 0x1_0000
  /** The slots under the single top block, `2^24`. */
  const CAPACITY: nat := 0x100_0000
  /** One more than `u8::MAX`: the top block's pointers are `u8`. */
  const U8_LIMIT: nat := 0x100
  /** One more than `u16::MAX`: a middle block's pointers are `u16`. */
  const U16_LIMIT: nat := 0x1_0000
  const COMPRESS_FAILED: string := "failed to compress block index"

  // ---------------------------------------------------------------------------
  // LevelIndices

  datatype LevelIndices = LevelIndices(top: nat, middle: nat, bottom: nat)

  /** `LevelIndices::new`: the base-256 digits of a slot index. The top digit
      fits the 256-bit top block exactly for the indices below `2^24`. */
  function NewIndices(bitIndex: nat): (r: LevelIndices)
    ensures r.middle < BOTTOM_BLOCK_CAP && r.bottom < BOTTOM_BLOCK_CAP
    ensures r.top * 0x1_0000 + r.middle * 0x100 + r.bottom == bitIndex
    ensures r.top < SIZE <==> bitIndex < CAPACITY
  {
    var topRem := bitIndex % MIDDLE_BLOCK_CAP;
    LevelIndices(bitIndex / MIDDLE_BLOCK_CAP, topRem / BOTTOM_BLOCK_CAP, topRem % BOTTOM_BLOCK_CAP)
  }

  /** Every triple of digits is the split of exactly one slot index. */
  lemma IndicesRoundTrip(t: nat, m: nat, b: nat)
    requires m < BOTTOM_BLOCK_CAP && b < BOTTOM_BLOCK_CAP
    ensures NewIndices(t * 0x1_0000 + m * 0x100 + b) == LevelIndices(t, m, b)
  {
    var r := NewIndices(t * 0x1_0000 + m * 0x100 + b);
    assert m * 0x100 + b < 0x1_0000;
    assert r.middle * 0x100 + r.bottom < 0x1_0000;
    assert r.top == t;
    assert r.middle == m;
  }

  /** Slot `2^24` splits into top index 256, one past the top block's last
      bit: `insert` checks no bound, so on this slot it would call
      `set_unchecked(256)` on the top block. */
  lemma InsertPastCapacity()
    ensures NewIndices(CAPACITY) == LevelIndices(SIZE, 0, 0)
    ensures forall i: nat | i >= CAPACITY :: NewIndices(i).top >= SIZE
  {}

  // ---------------------------------------------------------------------------
  // Blocks

  /** `TopBlock`, `MiddleBlock` and `BottomBlock`: the bits of a block and,
      for the top and middle levels, one child pointer per bit (`indices`).
      A bottom block has no pointers. */
  datatype Block = Block(bits: Bits, indices: seq<nat>)

  function ZeroIndices(): (r: seq<nat>)
    ensures |r| == SIZE && forall k | 0 <= k < SIZE :: r[k] == 0
  {
    seq(256, k => 0)
  }

  /** `TopBlock::default()` and `MiddleBlock::default()`: everything zeroed. */
  const INNER_DEFAULT: Block := Block(EMPTY, ZeroIndices())
  /** `BottomBlock::default()`. */
  const LEAF_DEFAULT: Block := Block(EMPTY, [])

  // ---------------------------------------------------------------------------
  // Level: a pool of blocks with a free list

  /** The free block at position `k` of the free list, or `usize::MAX` past
      its end. */
  function Link(chain: seq<nat>, k: nat): nat {
    if k < |chain| then chain[k] else WORD_MAX
  }

  /** `chain` lists the free blocks of a pool from its head `empty`: each is a
      block of the pool, none is listed twice, and lane 0 of each holds the
      next one, the last holding `usize::MAX`. */
  predicate FreeList(blocks: seq<Block>, empty: nat, chain: seq<nat>) {
    && (forall k | 0 <= k < |chain| :: chain[k] < |blocks| && chain[k] < WORD_MAX)
    && (forall k1, k2 | 0 <= k1 < k2 < |chain| :: chain[k1] != chain[k2])
    && empty == Link(chain, 0)
    && forall k | 0 <= k < |chain| :: Word(blocks[chain[k]].bits.lanes[0]) == Link(chain, k + 1)
  }

  /** Taking the head of a well-formed free list leaves a well-formed free list. */
  lemma PopKeepsFreeList(blocks: seq<Block>, empty: nat, chain: seq<nat>)
    requires FreeList(blocks, empty, chain) && empty != WORD_MAX
    ensures chain != [] && chain[0] == empty && empty < |blocks|
    ensures FreeList(blocks[empty := blocks[empty].(bits := blocks[empty].bits.TakeEmptyBlock().1)],
                     blocks[empty].bits.TakeEmptyBlock().0, chain[1..])
  {
    var taken := blocks[empty].bits.TakeEmptyBlock();
    var blocks' := blocks[empty := blocks[empty].(bits := taken.1)];
    forall k | 0 <= k < |chain[1..]|
      ensures Word(blocks'[chain[1..][k]].bits.lanes[0]) == Link(chain[1..], k + 1)
    {
      assert chain[1..][k] == chain[k + 1] != chain[0];
      assert Word(blocks[chain[k + 1]].bits.lanes[0]) == Link(chain, k + 2);
    }
    assert Word(blocks[chain[0]].bits.lanes[0]) == Link(chain, 1);
  }

  /** A pool whose free list is empty may grow by any block. */
  lemma AppendKeepsFreeList(blocks: seq<Block>, x: Block, chain: seq<nat>)
    requires FreeList(blocks, WORD_MAX, chain)
    ensures chain == [] && FreeList(blocks + [x], WORD_MAX, chain)
  {}

  /** `Level<B>`: the blocks of one level and the head of its free list
      (`usize::MAX` when there is none). `chain` is the free list as a
      sequence of block positions; `blank` is `B::default()`. */
  class Level {
    var blocks: seq<Block>
    var empty: nat
    ghost var chain: seq<nat>
    const blank: Block

    ghost predicate Valid()
      reads this
    {
      FreeList(blocks, empty, chain)
    }

    /** The empty pool with the `usize::MAX` sentinel that the field's comment
        prescribes. */
    constructor (blank: Block)
      ensures blocks == [] && empty == WORD_MAX && chain == [] && this.blank == blank
      ensures Valid()
    {
      blocks := [];
      empty := WORD_MAX;
      chain := [];
      this.blank := blank;
    }

    /** The pool that `#[derive(Default)]` builds: `empty` is `0`, not the
        sentinel. */
    constructor Derived(blank: Block)
      ensures blocks == [] && empty == 0 && chain == [] && this.blank == blank
    {
      blocks := [];
      empty := 0;
      chain := [];
      this.blank := blank;
    }

    /** The position that `insert_block` hands out next. */
    function NextIndex(): nat
      reads this
    {
      if empty == WORD_MAX then |blocks| else empty
    }

    /** Across a call, the pool popped the free block `index`: lane 0 of that
        block became the new head and was zeroed. */
    twostate predicate Popped(index: nat)
      reads this
    {
      && index < |old(blocks)|
      && blocks == old(blocks)[index := old(blocks)[index].(bits := old(blocks)[index].bits.TakeEmptyBlock().1)]
      && empty == old(blocks)[index].bits.TakeEmptyBlock().0
      && chain == (if old(chain) == [] then [] else old(chain)[1..])
    }

    /** Across a call, the pool handed out block `index`: the free-list head
        if there was one, else a default block pushed at the end. */
    twostate predicate Allocated(index: nat)
      reads this
    {
      && index == old(NextIndex()) && index < |blocks|
      && |old(blocks)| <= |blocks| <= |old(blocks)| + 1
      && (old(empty) == WORD_MAX ==> blocks == old(blocks) + [blank] && empty == WORD_MAX && chain == old(chain))
      && (old(empty) != WORD_MAX ==> Popped(index))
    }

    /** `pop_empty_block`: `None` exactly when there is no free block;
        otherwise the head, with lane 0 of the head's block as the new head. */
    method PopEmptyBlock() returns (r: Option<nat>)
      requires empty == WORD_MAX || empty < |blocks|
      modifies this
      ensures r == None <==> old(empty) == WORD_MAX
      ensures r == None ==> blocks == old(blocks) && empty == old(empty) && chain == old(chain)
      ensures r.Some? ==> r.value == old(empty) && Popped(r.value)
      ensures old(Valid()) ==> Valid()
    {
      if empty == WORD_MAX {
        return None;
      }
      var index := empty;
      ghost var oldChain := chain;
      if FreeList(blocks, empty, chain) {
        PopKeepsFreeList(blocks, empty, chain);
      }
      var taken := blocks[index].bits.TakeEmptyBlock();
      blocks := blocks[index := blocks[index].(bits := taken.1)];
      empty := taken.0;
      chain := if oldChain == [] then [] else oldChain[1..];
      r := Some(index);
    }

    /** `insert_block`: reuse the free-list head, else push a default block;
        the result is a position of the pool and the pool grows by at most one. */
    method InsertBlock() returns (index: nat)
      requires empty == WORD_MAX || empty < |blocks|
      modifies this
      ensures Allocated(index)
      ensures index < |blocks| && |old(blocks)| <= |blocks| <= |old(blocks)| + 1
      ensures old(Valid()) ==> Valid()
    {
      var popped := PopEmptyBlock();
      if popped.Some? {
        index := popped.value;
      } else {
        if Valid() {
          AppendKeepsFreeList(blocks, blank, chain);
        }
        index := |blocks|;
        blocks := blocks + [blank];
      }
    }
  }

  /** A pool built by the derived `Default` has a free-list head that names no
      block, so `pop_empty_block` and `insert_block` may not be called on it. */
  lemma DerivedDefaultHasNoFreeList(blocks: seq<Block>, chain: seq<nat>)
    requires blocks == []
    ensures !FreeList(blocks, 0, chain)
    ensures !(0 == WORD_MAX || 0 < |blocks|)
  {
    assert chain != [] ==> Link(chain, 0) == chain[0];
  }

  // ---------------------------------------------------------------------------
  // get_or_insert

  /** `TopBlock::get_or_insert` (`cap == U8_LIMIT`) and
      `MiddleBlock::get_or_insert` (`cap == U16_LIMIT`), with the closure
      `f` being `pool.insert_block()`. The block is passed and returned by
      value. The bit is set on every path. If it was already set, the stored
      pointer is returned and the pool is untouched. Otherwise one block is
      taken from the pool; its position is stored and returned when it fits in
      the pointer width, and the call panics when it does not. */
  method GetOrInsert(block: Block, bit: nat, cap: nat, pool: Level) returns (out: Outcome<nat>, updated: Block)
    requires bit < SIZE && |block.indices| == SIZE
    requires !block.bits.Get(bit) ==> pool.empty == WORD_MAX || pool.empty < |pool.blocks|
    modifies pool
    ensures updated.bits == block.bits.Set(bit).1
    ensures block.bits.Get(bit) ==>
      out == Done(block.indices[bit]) && updated.indices == block.indices && unchanged(pool)
    ensures !block.bits.Get(bit) ==>
      && pool.Allocated(old(pool.NextIndex()))
      && out == (if old(pool.NextIndex()) < cap then Done(old(pool.NextIndex())) else Panic(COMPRESS_FAILED))
      && updated.indices == (if old(pool.NextIndex()) < cap then block.indices[bit := old(pool.NextIndex())] else block.indices)
    ensures !block.bits.Get(bit) ==> old(pool.Valid()) ==> pool.Valid()
  {
    var r := block.bits.Set(bit);
    if r.0 {
      out := Done(block.indices[bit]);
      updated := Block(r.1, block.indices);
    } else {
      var index := pool.InsertBlock();
      if index < cap {
        out := Done(index);
        updated := Block(r.1, block.indices[bit := index]);
      } else {
        out := Panic(COMPRESS_FAILED);
        updated := Block(r.1, block.indices);
      }
    }
  }


  // ---------------------------------------------------------------------------
  // The shape of a bitset and its members

  /** The number of set bits over a sequence of blocks. */
  function SumCounts(s: seq<Block>): nat {
    if s == [] then 0 else SumCounts(s[..|s| - 1]) + s[|s| - 1].bits.CountSet()
  }

  /** The top block has one pointer per bit. The pointer of each set bit leads
      to a middle block whose owner is that bit, so no two set bits share a
      middle block, and the middle pool holds one block per set top bit. */
  ghost predicate TopPointers(top: Block, mids: seq<Block>, midOwner: seq<nat>) {
    && |top.indices| == SIZE && |midOwner| == |mids|
    && (forall t | 0 <= t < SIZE && top.bits.Get(t) :: top.indices[t] < |mids| && midOwner[top.indices[t]] == t)
    && |mids| == top.bits.CountSet()
  }

  /** Every middle block has one pointer per bit. The pointer of each set bit
      of any middle block leads to a bottom block whose owner is that block
      and bit, so no two set bits share a bottom block, and the bottom pool
      holds one block per set middle bit. */
  ghost predicate MidPointers(mids: seq<Block>, bots: seq<Block>, botOwner: seq<(nat, nat)>) {
    && |botOwner| == |bots|
    && (forall k | 0 <= k < |mids| :: |mids[k].indices| == SIZE)
    && (forall k, c | 0 <= k < |mids| && 0 <= c < SIZE && mids[k].bits.Get(c) ::
          mids[k].indices[c] < |bots| && botOwner[mids[k].indices[c]] == (k, c))
    && |bots| == SumCounts(mids)
  }

  /** The pointers of a bitset are well formed. */
  ghost predicate Shape(top: Block, mids: seq<Block>, bots: seq<Block>, midOwner: seq<nat>, botOwner: seq<(nat, nat)>) {
    TopPointers(top, mids, midOwner) && MidPointers(mids, bots, botOwner)
  }

  /** The bottom block that the pointers lead to for top bit `t` and middle
      bit `m`, when both bits on the way are set. */
  function BottomAt(top: Block, mids: seq<Block>, t: nat, m: nat): Option<nat>
    requires t < SIZE && m < SIZE
  {
    if t < |top.indices| && top.bits.Get(t) && top.indices[t] < |mids|
       && m < |mids[top.indices[t]].indices| && mids[top.indices[t]].bits.Get(m)
    then Some(mids[top.indices[t]].indices[m])
    else None
  }

  /** Slot `i` is present: its top bit, the middle bit its top pointer leads
      to, and the bottom bit its middle pointer leads to are all set. */
  predicate MemberIn(top: Block, mids: seq<Block>, bots: seq<Block>, i: nat) {
    var ix := NewIndices(i);
    ix.top < SIZE &&
    (var p := BottomAt(top, mids, ix.top, ix.middle);
     p.Some? && p.value < |bots| && bots[p.value].bits.Get(ix.bottom))
  }

  /** Two bitsets have the same members. */
  ghost predicate SameMembers(top0: Block, mids0: seq<Block>, bots0: seq<Block>,
                              top1: Block, mids1: seq<Block>, bots1: seq<Block>) {
    forall j :: MemberIn(top1, mids1, bots1, j) == MemberIn(top0, mids0, bots0, j)
  }

  /** The second bitset only adds to the first: every set bit stays set and
      every pointer of a set bit stays the same. */
  ghost predicate Extends(top0: Block, mids0: seq<Block>, bots0: seq<Block>,
                          top1: Block, mids1: seq<Block>, bots1: seq<Block>) {
    && |top0.indices| == SIZE && |top1.indices| == SIZE
    && |mids0| <= |mids1| && |bots0| <= |bots1|
    && (forall k | 0 <= k < |mids1| :: |mids1[k].indices| == SIZE)
    && (forall k | 0 <= k < |mids0| :: |mids0[k].indices| == SIZE)
    && (forall t | 0 <= t < SIZE && top0.bits.Get(t) :: top1.bits.Get(t) && top1.indices[t] == top0.indices[t])
    && (forall k, c | 0 <= k < |mids0| && 0 <= c < SIZE && mids0[k].bits.Get(c) ::
          mids1[k].bits.Get(c) && mids1[k].indices[c] == mids0[k].indices[c])
    && (forall k, c | 0 <= k < |bots0| && 0 <= c < SIZE && bots0[k].bits.Get(c) :: bots1[k].bits.Get(c))
  }

  /** Members of a bitset stay members in every extension of it. */
  lemma ExtendsKeepsMembers(top0: Block, mids0: seq<Block>, bots0: seq<Block>,
                            top1: Block, mids1: seq<Block>, bots1: seq<Block>, i: nat)
    requires Extends(top0, mids0, bots0, top1, mids1, bots1)
    requires MemberIn(top0, mids0, bots0, i)
    ensures MemberIn(top1, mids1, bots1, i)
  {
    var ix := NewIndices(i);
    var mi := top0.indices[ix.top];
    assert top1.indices[ix.top] == mi;
    assert mids1[mi].indices[ix.middle] == mids0[mi].indices[ix.middle];
  }

  lemma ExtendsTrans(top0: Block, mids0: seq<Block>, bots0: seq<Block>,
                     top1: Block, mids1: seq<Block>, bots1: seq<Block>,
                     top2: Block, mids2: seq<Block>, bots2: seq<Block>)
    requires Extends(top0, mids0, bots0, top1, mids1, bots1)
    requires Extends(top1, mids1, bots1, top2, mids2, bots2)
    ensures Extends(top0, mids0, bots0, top2, mids2, bots2)
  {}

  // ---------------------------------------------------------------------------
  // Counting lemmas

  lemma SumAppend(s: seq<Block>, x: Block)
    ensures SumCounts(s + [x]) == SumCounts(s) + x.bits.CountSet()
  {
    assert (s + [x])[..|s|] == s;
  }

  lemma {:induction false} SumUpdate(s: seq<Block>, k: nat, x: Block)
    requires k < |s|
    ensures SumCounts(s[k := x]) + s[k].bits.CountSet() == SumCounts(s) + x.bits.CountSet()
    decreases |s|
  {
    var n := |s| - 1;
    if k == n {
      assert s[k := x][..n] == s[..n];
    } else {
      assert s[k := x][..n] == s[..n][k := x];
      SumUpdate(s[..n], k, x);
    }
  }

  lemma {:induction false} SumAtMost(s: seq<Block>)
    ensures SumCounts(s) <= 256 * |s|
    decreases |s|
  {
    if s != [] {
      SumAtMost(s[..|s| - 1]);
    }
  }

  /** When one block of a sequence has an unset bit, the sequence holds fewer
      than 256 set bits per block. */
  lemma {:induction false} SumBelow(s: seq<Block>, k: nat, b: nat)
    requires k < |s| && b < SIZE && !s[k].bits.Get(b)
    ensures SumCounts(s) < 256 * |s|
    decreases |s|
  {
    var n := |s| - 1;
    if k == n {
      CountWithUnsetBit(s[n].bits, b);
      SumAtMost(s[..n]);
    } else {
      SumBelow(s[..n], k, b);
    }
  }

  // ---------------------------------------------------------------------------
  // The three steps of `insert`

  /** Room for one more middle block: a top bit is still unset, so the pool
      holds fewer than 256 blocks and the new position fits in a `u8`. */
  lemma TopRoom(top: Block, mids: seq<Block>, midOwner: seq<nat>, t: nat)
    requires TopPointers(top, mids, midOwner) && t < SIZE && !top.bits.Get(t)
    ensures |mids| < U8_LIMIT
  {
    CountWithUnsetBit(top.bits, t);
  }

  /** Room for one more bottom block: a middle bit is still unset, so the pool
      holds fewer than `2^16` blocks and the new position fits in a `u16`. */
  lemma MidRoom(top: Block, mids: seq<Block>, bots: seq<Block>, midOwner: seq<nat>, botOwner: seq<(nat, nat)>,
                k: nat, m: nat)
    requires Shape(top, mids, bots, midOwner, botOwner)
    requires k < |mids| && m < SIZE && !mids[k].bits.Get(m)
    ensures |bots| < U16_LIMIT
  {
    SumBelow(mids, k, m);
  }

  /** Setting a fresh top bit `t` and pointing it at a default middle block
      appended to the pool keeps the shape, adds to the bitset, and adds no
      member. */
  lemma TopFresh(top0: Block, mids0: seq<Block>, bots: seq<Block>, own0: seq<nat>, botOwner: seq<(nat, nat)>,
                 t: nat, top1: Block, mids1: seq<Block>)
    requires Shape(top0, mids0, bots, own0, botOwner)
    requires t < SIZE && !top0.bits.Get(t)
    requires top1 == Block(top0.bits.Set(t).1, top0.indices[t := |mids0|])
    requires mids1 == mids0 + [INNER_DEFAULT]
    ensures Shape(top1, mids1, bots, own0 + [t], botOwner)
    ensures Extends(top0, mids0, bots, top1, mids1, bots)
    ensures SameMembers(top0, mids0, bots, top1, mids1, bots)
  {
    CountAfterSet(top0.bits, t);
    SumAppend(mids0, INNER_DEFAULT);
    EmptyHasNoBits();
    TopFreshMembers(top0, mids0, bots, own0, botOwner, t, top1, mids1);
    forall k, c | 0 <= k < |mids1| && 0 <= c < SIZE && mids1[k].bits.Get(c)
      ensures mids1[k].indices[c] < |bots| && botOwner[mids1[k].indices[c]] == (k, c)
    {
      assert k < |mids0|;
    }
  }

  /** The fresh top bit leads to a default middle block, which has no bit
      set, and every other path leads where it led before: the members stay
      the same. */
  lemma TopFreshMembers(top0: Block, mids0: seq<Block>, bots: seq<Block>, own0: seq<nat>, botOwner: seq<(nat, nat)>,
                        t: nat, top1: Block, mids1: seq<Block>)
    requires Shape(top0, mids0, bots, own0, botOwner)
    requires t < SIZE && !top0.bits.Get(t)
    requires top1 == Block(top0.bits.Set(t).1, top0.indices[t := |mids0|])
    requires mids1 == mids0 + [INNER_DEFAULT]
    ensures SameMembers(top0, mids0, bots, top1, mids1, bots)
  {
    EmptyHasNoBits();
    forall j
      ensures MemberIn(top1, mids1, bots, j) == MemberIn(top0, mids0, bots, j)
    {
      var ix := NewIndices(j);
      if ix.top < SIZE && ix.top != t && top0.bits.Get(ix.top) {
        assert mids1[top0.indices[ix.top]] == mids0[top0.indices[ix.top]];
      }
    }
  }

  /** Setting a fresh bit `m` of middle block `mi` and pointing it at a
      default bottom block appended to the pool keeps the shape, adds to the
      bitset, and adds no member. */
  lemma MidFresh(top: Block, mids1: seq<Block>, bots0: seq<Block>, midOwner: seq<nat>, own0: seq<(nat, nat)>,
                 mi: nat, m: nat, mids2: seq<Block>, bots1: seq<Block>)
    requires Shape(top, mids1, bots0, midOwner, own0)
    requires mi < |mids1| && m < SIZE && !mids1[mi].bits.Get(m)
    requires mids2 == mids1[mi := Block(mids1[mi].bits.Set(m).1, mids1[mi].indices[m := |bots0|])]
    requires bots1 == bots0 + [LEAF_DEFAULT]
    ensures Shape(top, mids2, bots1, midOwner, own0 + [(mi, m)])
    ensures Extends(top, mids1, bots0, top, mids2, bots1)
    ensures SameMembers(top, mids1, bots0, top, mids2, bots1)
  {
    var blk := Block(mids1[mi].bits.Set(m).1, mids1[mi].indices[m := |bots0|]);
    var own1 := own0 + [(mi, m)];
    CountAfterSet(mids1[mi].bits, m);
    SumUpdate(mids1, mi, blk);
    SumAppend(bots0, LEAF_DEFAULT);
    MidFreshMembers(top, mids1, bots0, midOwner, own0, mi, m, mids2, bots1);
    forall k, c | 0 <= k < |mids2| && 0 <= c < SIZE && mids2[k].bits.Get(c)
      ensures mids2[k].indices[c] < |bots1| && own1[mids2[k].indices[c]] == (k, c)
    {
      if k != mi || c != m {
        assert mids1[k].bits.Get(c) && mids2[k].indices[c] == mids1[k].indices[c];
      }
    }
  }

  /** The fresh middle bit leads to a default bottom block, which has no bit
      set, and every other path leads where it led before: the members stay
      the same. */
  lemma MidFreshMembers(top: Block, mids1: seq<Block>, bots0: seq<Block>, midOwner: seq<nat>, own0: seq<(nat, nat)>,
                        mi: nat, m: nat, mids2: seq<Block>, bots1: seq<Block>)
    requires Shape(top, mids1, bots0, midOwner, own0)
    requires mi < |mids1| && m < SIZE && !mids1[mi].bits.Get(m)
    requires mids2 == mids1[mi := Block(mids1[mi].bits.Set(m).1, mids1[mi].indices[m := |bots0|])]
    requires bots1 == bots0 + [LEAF_DEFAULT]
    ensures SameMembers(top, mids1, bots0, top, mids2, bots1)
  {
    EmptyHasNoBits();
    forall j
      ensures MemberIn(top, mids2, bots1, j) == MemberIn(top, mids1, bots0, j)
    {
      var ix := NewIndices(j);
      if ix.top < SIZE && top.bits.Get(ix.top) {
        var p := top.indices[ix.top];
        if p == mi && ix.middle == m {
          assert bots1[|bots0|] == LEAF_DEFAULT;
        } else if mids1[p].bits.Get(ix.middle) {
          assert mids2[p].indices[ix.middle] == mids1[p].indices[ix.middle];
          assert bots1[mids1[p].indices[ix.middle]] == bots0[mids1[p].indices[ix.middle]];
        }
      }
    }
  }

  /** What `get_or_insert` does to a block and to a pool without free blocks,
      `index` being the pointer it returns. */
  predicate GotOrInserted(block0: Block, bit: nat, pool0: seq<Block>, blank: Block,
                          block1: Block, pool1: seq<Block>, index: nat)
    requires bit < SIZE && |block0.indices| == SIZE
  {
    && block1.bits == block0.bits.Set(bit).1
    && if block0.bits.Get(bit) then
         block1.indices == block0.indices && index == block0.indices[bit] && pool1 == pool0
       else
         block1.indices == block0.indices[bit := |pool0|] && index == |pool0| && pool1 == pool0 + [blank]
  }

  /** `get_or_insert` on the top block, with the middle pool: afterwards top
      bit `t` is set and points at middle block `mi`; the shape is kept, the
      bitset only grows, no member is added, and nothing changes when the bit
      was already set. */
  lemma TopStep(top0: Block, mids0: seq<Block>, bots: seq<Block>, own0: seq<nat>, botOwner: seq<(nat, nat)>,
                t: nat, top1: Block, mids1: seq<Block>, mi: nat)
    requires Shape(top0, mids0, bots, own0, botOwner) && t < SIZE
    requires GotOrInserted(top0, t, mids0, INNER_DEFAULT, top1, mids1, mi)
    ensures Shape(top1, mids1, bots, if top0.bits.Get(t) then own0 else own0 + [t], botOwner)
    ensures Extends(top0, mids0, bots, top1, mids1, bots)
    ensures SameMembers(top0, mids0, bots, top1, mids1, bots)
    ensures top1.bits.Get(t) && top1.indices[t] == mi && mi < |mids1| && |mids1| <= |mids0| + 1
    ensures top0.bits.Get(t) ==> top1 == top0 && mids1 == mids0
  {
    if top0.bits.Get(t) {
      SetPresent(top0.bits, t);
    } else {
      TopFresh(top0, mids0, bots, own0, botOwner, t, top1, mids1);
    }
  }

  /** `get_or_insert` on the middle block that top bit `t` points at, with the
      bottom pool: afterwards the path through `t` and `m` leads to bottom
      block `b`; the shape is kept, the bitset only grows, no member is added,
      and nothing changes when the path already existed. */
  lemma MidStep(top: Block, mids1: seq<Block>, bots0: seq<Block>, midOwner: seq<nat>, own0: seq<(nat, nat)>,
                t: nat, m: nat, blk: Block, mids2: seq<Block>, bots1: seq<Block>, b: nat)
    requires Shape(top, mids1, bots0, midOwner, own0) && t < SIZE && m < SIZE && top.bits.Get(t)
    requires GotOrInserted(mids1[top.indices[t]], m, bots0, LEAF_DEFAULT, blk, bots1, b)
    requires mids2 == mids1[top.indices[t] := blk]
    ensures Shape(top, mids2, bots1, midOwner,
                  if mids1[top.indices[t]].bits.Get(m) then own0 else own0 + [(top.indices[t], m)])
    ensures Extends(top, mids1, bots0, top, mids2, bots1)
    ensures SameMembers(top, mids1, bots0, top, mids2, bots1)
    ensures BottomAt(top, mids2, t, m) == Some(b) && b < |bots1| && |bots1| <= |bots0| + 1
    ensures mids1[top.indices[t]].bits.Get(m) ==> mids2 == mids1 && bots1 == bots0
  {
    var mi := top.indices[t];
    if mids1[mi].bits.Get(m) {
      SetPresent(mids1[mi].bits, m);
      assert mids1[mi := blk] == mids1;
    } else {
      MidFresh(top, mids1, bots0, midOwner, own0, mi, m, mids2, bots1);
    }
  }

  /** Setting bottom bit `ix.bottom` of the block on slot `i`'s path makes `i`
      a member and, since paths do not share bottom blocks, no other slot. */
  lemma LeafSet(top: Block, mids: seq<Block>, bots0: seq<Block>, midOwner: seq<nat>, botOwner: seq<(nat, nat)>,
                i: nat, b: nat, bots1: seq<Block>)
    requires Shape(top, mids, bots0, midOwner, botOwner) && i < CAPACITY
    requires BottomAt(top, mids, NewIndices(i).top, NewIndices(i).middle) == Some(b)
    requires bots1 == bots0[b := bots0[b].(bits := bots0[b].bits.Set(NewIndices(i).bottom).1)]
    ensures Shape(top, mids, bots1, midOwner, botOwner)
    ensures Extends(top, mids, bots0, top, mids, bots1)
    ensures forall j :: MemberIn(top, mids, bots1, j) <==> j == i || MemberIn(top, mids, bots0, j)
  {
    var ix := NewIndices(i);
    forall j
      ensures MemberIn(top, mids, bots1, j) <==> j == i || MemberIn(top, mids, bots0, j)
    {
      var jx := NewIndices(j);
      if jx.top < SIZE {
        var p := BottomAt(top, mids, jx.top, jx.middle);
        if p == Some(b) {
          assert botOwner[b] == (top.indices[jx.top], jx.middle) == (top.indices[ix.top], ix.middle);
          assert midOwner[top.indices[jx.top]] == jx.top;
          if jx.bottom == ix.bottom {
            assert j == i;
          }
        }
      }
    }
  }

  // ---------------------------------------------------------------------------
  // BitSet

  /** `BitSet`: the top block and the middle and bottom pools. `midOwner`
      records the top bit pointing at each middle block and `botOwner` the
      middle block and bit pointing at each bottom block. */
  class BitSet {
    var top: Block
    const middle: Level
    const bottom: Level
    ghost var midOwner: seq<nat>
    ghost var botOwner: seq<(nat, nat)>

    /** The pools are distinct, their free lists are empty (no block is ever
        returned to them), pushed blocks are the zeroed defaults, and the
        pointers have the shape stated by `TopPointers` and `MidPointers`. */
    ghost predicate Valid()
      reads this, middle, bottom
    {
      && middle != bottom
      && middle.Valid() && bottom.Valid()
      && middle.chain == [] && bottom.chain == []
      && middle.blank == INNER_DEFAULT && bottom.blank == LEAF_DEFAULT
      && Shape(top, middle.blocks, bottom.blocks, midOwner, botOwner)
    }

    /** Slot `i` is present, following the pointer chain. */
    predicate Member(i: nat)
      reads this, middle, bottom
      ensures Member(i) ==> i < CAPACITY
    {
      MemberIn(top, middle.blocks, bottom.blocks, i)
    }

    /** `contains` as written: bit `ix.bottom` of the bottom block at position
        `ix.middle`, ignoring the top block and both pointers. */
    predicate ContainsAsWritten(i: nat)
      reads this, bottom
      requires NewIndices(i).middle < |bottom.blocks|
    {
      bottom.blocks[NewIndices(i).middle].bits.Get(NewIndices(i).bottom)
    }

    /** `contains` as evidently intended: follow the top bit, its pointer,
        the middle bit and its pointer to the bottom bit. A slot past the top
        block is absent. */
    method Contains(i: nat) returns (present: bool)
      requires Valid()
      ensures present <==> Member(i)
    {
      var ix := NewIndices(i);
      if ix.top >= SIZE || !top.bits.Get(ix.top) {
        return false;
      }
      var mid := middle.blocks[top.indices[ix.top]];
      if !mid.bits.Get(ix.middle) {
        return false;
      }
      present := bottom.blocks[mid.indices[ix.middle]].bits.Get(ix.bottom);
    }

    /** The empty bitset. */
    constructor ()
      ensures Valid() && fresh(middle) && fresh(bottom)
      ensures middle.blocks == [] && bottom.blocks == []
      ensures forall i :: !Member(i)
    {
      top := INNER_DEFAULT;
      middle := new Level(INNER_DEFAULT);
      bottom := new Level(LEAF_DEFAULT);
      midOwner := [];
      botOwner := [];
      new;
      EmptyHasNoBits();
    }

    /** The first half of `get_or_insert_bottom_block`: `get_or_insert` on
        the top block, allocating from the middle pool. Afterwards top bit
        `topIndex` is set and points at middle block `mi`; no member is added,
        the pointer fits in a `u8`, and nothing changes when the bit was
        already set. */
    method GetOrInsertMiddleBlock(topIndex: nat) returns (mi: nat)
      requires Valid() && topIndex < SIZE
      modifies this, middle
      ensures Valid()
      ensures top.bits.Get(topIndex) && top.indices[topIndex] == mi && mi < |middle.blocks|
      ensures SameMembers(old(top), old(middle.blocks), bottom.blocks, top, middle.blocks, bottom.blocks)
      ensures Extends(old(top), old(middle.blocks), bottom.blocks, top, middle.blocks, bottom.blocks)
      ensures |middle.blocks| <= old(|middle.blocks|) + 1
      ensures old(top.bits.Get(topIndex)) ==> top == old(top) && middle.blocks == old(middle.blocks)
    {
      ghost var top0, mids0 := top, middle.blocks;
      if !top.bits.Get(topIndex) {
        TopRoom(top, middle.blocks, midOwner, topIndex);
      }
      var o, newTop := GetOrInsert(top, topIndex, U8_LIMIT, middle);
      mi := o.value;
      TopStep(top0, mids0, bottom.blocks, midOwner, botOwner, topIndex, newTop, middle.blocks, mi);
      if !top0.bits.Get(topIndex) {
        midOwner := midOwner + [topIndex];
      }
      top := newTop;
    }

    /** The second half of `get_or_insert_bottom_block`: `get_or_insert` on
        middle block `mi`, the one top bit `topIndex` points at, allocating
        from the bottom pool. Afterwards the path through `topIndex` and
        `middleIndex` leads to bottom block `b`; no member is added, the
        pointer fits in a `u16`, and nothing changes when the path already
        existed. */
    method GetOrInsertInMiddle(topIndex: nat, mi: nat, middleIndex: nat) returns (b: nat)
      requires Valid() && topIndex < SIZE && middleIndex < SIZE
      requires top.bits.Get(topIndex) && top.indices[topIndex] == mi
      modifies this, middle, bottom
      ensures Valid() && top == old(top)
      ensures BottomAt(top, middle.blocks, topIndex, middleIndex) == Some(b) && b < |bottom.blocks|
      ensures SameMembers(top, old(middle.blocks), old(bottom.blocks), top, middle.blocks, bottom.blocks)
      ensures Extends(top, old(middle.blocks), old(bottom.blocks), top, middle.blocks, bottom.blocks)
      ensures |middle.blocks| == old(|middle.blocks|) && |bottom.blocks| <= old(|bottom.blocks|) + 1
      ensures old(BottomAt(top, middle.blocks, topIndex, middleIndex)).Some? ==>
        middle.blocks == old(middle.blocks) && bottom.blocks == old(bottom.blocks)
    {
      ghost var mids1, bots0 := middle.blocks, bottom.blocks;
      if !mids1[mi].bits.Get(middleIndex) {
        MidRoom(top, mids1, bots0, midOwner, botOwner, mi, middleIndex);
      }
      var o, newMid := GetOrInsert(middle.blocks[mi], middleIndex, U16_LIMIT, bottom);
      b := o.value;
      MidStep(top, mids1, bots0, midOwner, botOwner, topIndex, middleIndex, newMid, mids1[mi := newMid], bottom.blocks, b);
      if !mids1[mi].bits.Get(middleIndex) {
        botOwner := botOwner + [(mi, middleIndex)];
      }
      middle.blocks := middle.blocks[mi := newMid];
    }

    /** `get_or_insert_bottom_block`: set the top bit and the middle bit on
        the path, allocating the missing middle and bottom blocks, and return
        the bottom block the path leads to. No member is added, and nothing
        is allocated when the path already existed. The pointers always fit, so
        the compression never panics. */
    method GetOrInsertBottomBlock(topIndex: nat, middleIndex: nat) returns (b: nat)
      requires Valid() && topIndex < SIZE && middleIndex < SIZE
      modifies this, middle, bottom
      ensures Valid()
      ensures BottomAt(top, middle.blocks, topIndex, middleIndex) == Some(b) && b < |bottom.blocks|
      ensures SameMembers(old(top), old(middle.blocks), old(bottom.blocks), top, middle.blocks, bottom.blocks)
      ensures Extends(old(top), old(middle.blocks), old(bottom.blocks), top, middle.blocks, bottom.blocks)
      ensures |middle.blocks| <= old(|middle.blocks|) + 1 && |bottom.blocks| <= old(|bottom.blocks|) + 1
      ensures old(BottomAt(top, middle.blocks, topIndex, middleIndex)).Some? ==>
        top == old(top) && middle.blocks == old(middle.blocks) && bottom.blocks == old(bottom.blocks)
    {
      ghost var top0, mids0, bots0 := top, middle.blocks, bottom.blocks;
      var mi := GetOrInsertMiddleBlock(topIndex);
      ghost var top1, mids1 := top, middle.blocks;
      b := GetOrInsertInMiddle(topIndex, mi, middleIndex);
      ExtendsTrans(top0, mids0, bots0, top1, mids1, bots0, top1, middle.blocks, bottom.blocks);
    }

    /** `insert`: afterwards slot `i` is present and the other slots are as
        they were. Everything present stays present with the same pointers, at
        most one block is added to each pool, and inserting a present slot
        changes nothing. */
    method Insert(i: nat)
      requires Valid() && i < CAPACITY
      modifies this, middle, bottom
      ensures Valid()
      ensures Member(i)
      ensures forall j :: Member(j) <==> j == i || old(Member(j))
      ensures Extends(old(top), old(middle.blocks), old(bottom.blocks), top, middle.blocks, bottom.blocks)
      ensures |middle.blocks| <= old(|middle.blocks|) + 1 && |bottom.blocks| <= old(|bottom.blocks|) + 1
      ensures old(Member(i)) ==>
        top == old(top) && middle.blocks == old(middle.blocks) && bottom.blocks == old(bottom.blocks)
    {
      ghost var top0, mids0, bots0 := top, middle.blocks, bottom.blocks;
      var ix := NewIndices(i);
      var b := GetOrInsertBottomBlock(ix.top, ix.middle);
      ghost var bots1 := bottom.blocks;
      var r := bottom.blocks[b].bits.Set(ix.bottom);
      if bots1[b].bits.Get(ix.bottom) {
        SetPresent(bots1[b].bits, ix.bottom);
      }
      bottom.blocks := bottom.blocks[b := bottom.blocks[b].(bits := r.1)];
      LeafSet(top, middle.blocks, bots1, midOwner, botOwner, i, b, bottom.blocks);
      ExtendsTrans(top0, mids0, bots0, top, middle.blocks, bots1, top, middle.blocks, bottom.blocks);
    }
  }

  /** After inserting slot `65536` into the empty bitset, bottom block 0 is
      the one on its path, so bit 0 of that block is set. */
  lemma MisreadWitness(top: Block, mids: seq<Block>, bots: seq<Block>)
    requires MemberIn(top, mids, bots, 0x1_0000) && |bots| <= 1
    ensures |bots| == 1 && bots[0].bits.Get(0)
  {
    assert NewIndices(0x1_0000) == LevelIndices(1, 0, 0);
  }

  /** The literal `contains` disagrees with membership: after inserting slot
      `65536` (top index 1), slot `0` reads as present, because bottom block 0
      is the one that slot `65536` uses. */
  method ContainsMisreads() returns (s: BitSet)
    ensures s.Valid()
    ensures s.Member(0x1_0000) && !s.Member(0)
    ensures NewIndices(0).middle < |s.bottom.blocks| && s.ContainsAsWritten(0)
  {
    s := new BitSet();
    s.Insert(0x1_0000);
    MisreadWitness(s.top, s.middle.blocks, s.bottom.blocks);
    assert NewIndices(0) == LevelIndices(0, 0, 0);
  }
}
