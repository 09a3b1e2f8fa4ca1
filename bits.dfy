/** A 256-bit block of the hierarchical bitset (inbitset/src/bits.rs): four
    64-bit lanes, bit `b` living in lane `b / 64` at position `b % 64`.
    `Bits` is a `Copy` value embedded in the blocks of a pool, so each of its
    `&mut self` operations is modelled as a function that returns the updated
    block next to whatever the Rust method returns. */
module Bits {

  import opened Lanes

  const LANES: nat := 4
  /** The number of bits in a block. */
  const SIZE: nat := 256

  type LaneArray = s: seq<Lane> | |s| == LANES witness [ZERO, ZERO, ZERO, ZERO]

  /** Global bit `lane * 64 + j` of a block is bit `j` of lane `lane`. */
  lemma Position(lane: nat, j: nat)
    requires j < LANE_BITS
    ensures (lane * 64 + j) / 64 == lane
    ensures (lane * 64 + j) % 64 == j
  {}

  datatype Bits = Bits(lanes: LaneArray) {

    /** `get_unchecked`: bit `b % 64` of lane `b / 64`. */
    predicate Get(b: nat)
      requires b < SIZE
    {
      lanes[b / 64][b % 64]
    }

    /** `get_unchecked` on the lane's `u64` value: `(lane & (1 << bit)) != 0`. */
    lemma GetTestsMask(b: nat)
      requires b < SIZE
      ensures Get(b) <==> TestBit(Word(lanes[b / 64]), b % 64)
    {
      TestBitWord(lanes[b / 64], b % 64);
    }

    /** The set bits below `n`, in ascending order. */
    function OnesBelow(n: nat): seq<nat>
      requires n <= SIZE
    {
      if n == 0 then [] else OnesBelow(n - 1) + (if Get(n - 1) then [n - 1] else [])
    }

    /** Every set bit of the block, lowest first. */
    function Ones(): seq<nat> {
      OnesBelow(SIZE)
    }

    /** `is_empty`: the OR reduction of the four lanes is zero. */
    predicate IsEmpty()
      ensures IsEmpty() <==> forall b | 0 <= b < SIZE :: !Get(b)
      ensures IsEmpty() <==> Ones() == []
    {
      EmptyIffNoBit();
      IsZero(Or(Or(Or(lanes[0], lanes[1]), lanes[2]), lanes[3]))
    }

    /** An empty block is one whose four lanes are all zero. */
    lemma EmptyIffLanesZero()
      ensures IsEmpty() <==> forall k | 0 <= k < LANES :: lanes[k] == ZERO
    {
      if IsEmpty() {
        forall k | 0 <= k < LANES ensures lanes[k] == ZERO {
          forall c | 0 <= c < LANE_BITS ensures !lanes[k][c] {
            Position(k, c);
            assert !Get(k * 64 + c);
          }
          ZeroIffNoBit(lanes[k]);
        }
      } else {
        var b :| 0 <= b < SIZE && Get(b);
        assert lanes[b / 64] != ZERO;
      }
    }

    /** `count_set`: the sum of the per-lane population counts. */
    function CountSet(): (n: nat)
      ensures n <= SIZE
    {
      PopCount(lanes[0]) + PopCount(lanes[1]) + PopCount(lanes[2]) + PopCount(lanes[3])
    }

    /** The sum of the lane counts is the number of set bits, and it is zero
        exactly when the block is empty. */
    lemma CountSetIsOnes()
      ensures CountSet() == |Ones()|
      ensures CountSet() == 0 <==> IsEmpty()
    {
      CountBelowIsLaneCount(LANES - 1, LANE_BITS);
      assert LanePrefix(1) == PopCount(lanes[0]);
      assert LanePrefix(3) == LanePrefix(1) + PopCount(lanes[1]) + PopCount(lanes[2]);
      OnesBelowLength(SIZE);
      OnesBelowSpec(SIZE);
    }

    /** `set_unchecked`: the previous value of bit `b` and the block with `b` set. */
    function Set(b: nat): (r: (bool, Bits))
      requires b < SIZE
      ensures r.0 == Get(b)
      ensures r.1.Get(b)
      ensures forall c | 0 <= c < SIZE && c != b :: r.1.Get(c) == Get(c)
    {
      var lane, bit := b / 64, b % 64;
      (lanes[lane][bit], Bits(lanes[lane := SetBit(lanes[lane], bit)]))
    }

    /** `unset_unchecked`: the previous value of bit `b` and the block with `b` clear. */
    function Unset(b: nat): (r: (bool, Bits))
      requires b < SIZE
      ensures r.0 == Get(b)
      ensures !r.1.Get(b)
      ensures forall c | 0 <= c < SIZE && c != b :: r.1.Get(c) == Get(c)
    {
      var lane, bit := b / 64, b % 64;
      (lanes[lane][bit], Bits(lanes[lane := ClearBit(lanes[lane], bit)]))
    }

    /** `take_empty_block`: the free-list link held in lane 0, and the block
        with lane 0 zeroed; lanes 1 to 3 are untouched. */
    function TakeEmptyBlock(): (r: (nat, Bits))
      ensures r.0 == Word(lanes[0]) && r.0 <= WORD_MAX
      ensures forall b | 0 <= b < LANE_BITS :: !r.1.Get(b)
      ensures forall b | LANE_BITS <= b < SIZE :: r.1.Get(b) == Get(b)
    {
      WordBound(lanes[0]);
      (Word(lanes[0]), Bits(lanes[0 := ZERO]))
    }

    /** `set_empty_block`: store a free-list link in lane 0. */
    function SetEmptyBlock(empty: nat): (r: Bits)
      requires empty <= WORD_MAX
      ensures r.TakeEmptyBlock().0 == empty
      ensures forall b | LANE_BITS <= b < SIZE :: r.Get(b) == Get(b)
    {
      WordRoundTrip(empty);
      Bits(lanes[0 := FromWord(empty)])
    }

    /** `for_each_set`: the indices passed to `f`, in the order of the calls. */
    method ForEachSet() returns (visited: seq<nat>)
      ensures visited == Ones()
    {
      visited := [];
      for lane := 0 to LANES
        invariant visited == OnesBelow(lane * 64)
      {
        visited := ForEachSetInLane(lane, visited);
      }
    }

    /** One round of the outer loop of `for_each_set`: the set bits of lane
        `lane`, lowest first, appended to those of the lanes below it. */
    method ForEachSetInLane(lane: nat, before: seq<nat>) returns (visited: seq<nat>)
      requires lane < LANES && before == OnesBelow(lane * 64)
      ensures visited == OnesBelow((lane + 1) * 64)
    {
      visited := before;
      var value := lanes[lane];
      ghost var pos: nat := 0;
      ghost var done: nat := lane * 64;
      while !IsZero(value)
        invariant pos <= LANE_BITS && done == lane * 64 + pos
        invariant forall k | 0 <= k < pos :: !value[k]
        invariant forall k | pos <= k < LANE_BITS :: value[k] == lanes[lane][k]
        invariant visited == OnesBelow(done)
        decreases PopCount(value)
      {
        var bit := TrailingZeros(value);
        var bitIndex := lane * 64 + bit;
        NextOne(lane, pos, value, bit, done, bitIndex);
        visited := visited + [bitIndex];
        ClearLowestCount(value);
        value := ClearLowest(value);
        pos := bit + 1;
        done := bitIndex + 1;
      }
      LaneDone(lane, pos, value, done);
    }

    /** Within lane `lane`, if `value` agrees with the lane from `pos` on and
        `bit` is its lowest set bit, the next set bit of the block after
        `lane * 64 + pos` is `lane * 64 + bit`. */
    lemma NextOne(lane: nat, pos: nat, value: Lane, bit: nat, from: nat, at: nat)
      requires lane < LANES && pos <= bit < LANE_BITS
      requires from == lane * 64 + pos && at == lane * 64 + bit
      requires forall k | pos <= k < LANE_BITS :: value[k] == lanes[lane][k]
      requires value[bit] && forall k | 0 <= k < bit :: !value[k]
      ensures OnesBelow(at + 1) == OnesBelow(from) + [at]
    {
      forall g | lane * 64 + pos <= g < lane * 64 + bit ensures !Get(g) {
        Position(lane, g - lane * 64);
      }
      OnesGap(lane * 64 + pos, lane * 64 + bit);
      Position(lane, bit);
    }

    /** Once `value` is zero, lane `lane` has no set bit from `pos` on. */
    lemma LaneDone(lane: nat, pos: nat, value: Lane, from: nat)
      requires lane < LANES && pos <= LANE_BITS && IsZero(value) && from == lane * 64 + pos
      requires forall k | pos <= k < LANE_BITS :: value[k] == lanes[lane][k]
      ensures OnesBelow((lane + 1) * 64) == OnesBelow(lane * 64 + pos)
    {
      assert (lane + 1) * 64 == lane * 64 + LANE_BITS;
      forall g | lane * 64 + pos <= g < lane * 64 + LANE_BITS ensures !Get(g) {
        Position(lane, g - lane * 64);
      }
      OnesGap(lane * 64 + pos, lane * 64 + LANE_BITS);
    }

    // -------------------------------------------------------------------------
    // Lemmas about the abstraction.

    /** A range without set bits adds nothing to `OnesBelow`. */
    lemma {:induction false} OnesGap(lo: nat, hi: nat)
      requires lo <= hi <= SIZE
      requires forall k | lo <= k < hi :: !Get(k)
      ensures OnesBelow(hi) == OnesBelow(lo)
      decreases hi
    {
      if lo < hi {
        OnesGap(lo, hi - 1);
      }
    }

    /** `OnesBelow(n)` lists exactly the set bits below `n`, strictly ascending. */
    lemma {:induction false} OnesBelowSpec(n: nat)
      requires n <= SIZE
      ensures forall b: nat :: b in OnesBelow(n) <==> b < n && Get(b)
      ensures forall i, j | 0 <= i < j < |OnesBelow(n)| :: OnesBelow(n)[i] < OnesBelow(n)[j]
    {
      if n > 0 {
        OnesBelowSpec(n - 1);
        var prev := OnesBelow(n - 1);
        forall i | 0 <= i < |prev| ensures prev[i] < n - 1 {
          assert prev[i] in prev;
        }
      }
    }

    lemma {:induction false} OnesBelowLength(n: nat)
      requires n <= SIZE
      ensures |OnesBelow(n)| <= n
    {
      if n > 0 {
        OnesBelowLength(n - 1);
      }
    }

    /** The population counts of the first `k` lanes. */
    function LanePrefix(k: nat): nat
      requires k <= LANES
    {
      if k == 0 then 0 else LanePrefix(k - 1) + PopCount(lanes[k - 1])
    }

    /** The set bits below `lane * 64 + j` are those of the lanes below `lane`
        and those of lane `lane` below position `j`. */
    lemma {:induction false} CountBelowIsLaneCount(lane: nat, j: nat)
      requires lane < LANES && j <= LANE_BITS
      ensures |OnesBelow(lane * 64 + j)| == LanePrefix(lane) + CountBelow(lanes[lane], j)
      decreases lane, j
    {
      if j == 0 {
        if lane > 0 {
          CountBelowIsLaneCount(lane - 1, LANE_BITS);
        }
      } else {
        CountBelowIsLaneCount(lane, j - 1);
        Position(lane, j - 1);
      }
    }

    /** The OR of the lanes is zero exactly when no bit is set. */
    lemma EmptyIffNoBit()
      ensures IsZero(Or(Or(Or(lanes[0], lanes[1]), lanes[2]), lanes[3])) <==> forall b | 0 <= b < SIZE :: !Get(b)
      ensures (forall b | 0 <= b < SIZE :: !Get(b)) <==> Ones() == []
    {
      var all := Or(Or(Or(lanes[0], lanes[1]), lanes[2]), lanes[3]);
      if IsZero(all) {
        forall b | 0 <= b < SIZE ensures !Get(b) {
          assert !all[b % 64];
        }
      } else {
        var bit := TrailingZeros(all);
        var lane := if lanes[0][bit] then 0 else if lanes[1][bit] then 1 else if lanes[2][bit] then 2 else 3;
        Position(lane, bit);
        assert Get(lane * 64 + bit);
      }
      OnesBelowSpec(SIZE);
      if Ones() != [] {
        assert Ones()[0] in Ones();
      }
    }
  }

  /** The all-zero block, `Bits::default()`. */
  const EMPTY: Bits := Bits([ZERO, ZERO, ZERO, ZERO])

  lemma EmptyHasNoBits()
    ensures forall b | 0 <= b < SIZE :: !EMPTY.Get(b)
    ensures EMPTY.IsEmpty() && EMPTY.CountSet() == 0
  {
    EMPTY.CountSetIsOnes();
  }

  /** Setting an unset bit adds one to the count; setting a set bit changes nothing. */
  lemma {:induction false} CountAfterSet(x: Bits, b: nat)
    requires b < SIZE
    ensures x.Set(b).1.CountSet() == if x.Get(b) then x.CountSet() else x.CountSet() + 1
  {
    var y := x.Set(b).1;
    OnesAfterSet(x, y, b, SIZE);
    x.CountSetIsOnes();
    y.CountSetIsOnes();
  }

  lemma {:induction false} OnesAfterSet(x: Bits, y: Bits, b: nat, n: nat)
    requires b < SIZE && n <= SIZE
    requires y.Get(b) && forall c | 0 <= c < SIZE && c != b :: y.Get(c) == x.Get(c)
    ensures |y.OnesBelow(n)| == if x.Get(b) || n <= b then |x.OnesBelow(n)| else |x.OnesBelow(n)| + 1
    decreases n
  {
    if n > 0 {
      OnesAfterSet(x, y, b, n - 1);
    }
  }

  /** Setting a bit that is already set gives back the same block. */
  lemma SetPresent(x: Bits, b: nat)
    requires b < SIZE && x.Get(b)
    ensures x.Set(b).1 == x
  {
    var lane, bit := b / 64, b % 64;
    assert SetBit(x.lanes[lane], bit) == x.lanes[lane];
    assert x.lanes[lane := x.lanes[lane]] == x.lanes;
  }

  /** A block with an unset bit holds at most 255 set bits. */
  lemma CountWithUnsetBit(x: Bits, b: nat)
    requires b < SIZE && !x.Get(b)
    ensures x.CountSet() < SIZE
  {
    CountAfterSet(x, b);
  }

  /** Reading back a link stored by `set_empty_block` yields it, and lanes 1 to 3
      survive the round trip. */
  lemma TakeAfterSetEmpty(x: Bits, e: nat)
    requires e <= WORD_MAX
    ensures x.SetEmptyBlock(e).TakeEmptyBlock().0 == e
    ensures x.SetEmptyBlock(e).TakeEmptyBlock().1.lanes[1..] == x.lanes[1..]
  {}
}
