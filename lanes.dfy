/** One 64-bit lane (`u64`) of a bitset block, seen as its 64 bits, lowest
    first. The lane operations of inbitset/src/bits.rs are modelled by their
    effect on those bits: `|= 1 << k` sets bit `k`, `&= !(1 << k)` clears it,
    `trailing_zeros` finds the lowest set bit and `v & (v - 1)` clears it.
    A lane also stores a `usize` (the free-list link), through the unsigned
    binary encoding `Word`/`FromWord`. */
module Lanes {

  const LANE_BITS: nat := 64

  /** `usize::MAX` and `u64::MAX`: both types are 64 bits wide. */
  const WORD_MAX: nat := 0xFFFF_FFFF_FFFF_FFFF

  /** The 64 bits of the value `0`. */
  function Zeros(): (r: seq<bool>)
    ensures |r| == LANE_BITS && forall c | 0 <= c < LANE_BITS :: !r[c]
  {
    seq(64, c => false)
  }

  type Lane = s: seq<bool> | |s| == LANE_BITS witness Zeros()

  /** The lane whose value is `0`. */
  const ZERO: Lane := Zeros()

  /** `v == 0`. */
  predicate IsZero(v: Lane) {
    forall c | 0 <= c < LANE_BITS :: !v[c]
  }

  /** `v | (1 << k)`. */
  function SetBit(v: Lane, k: nat): (r: Lane)
    requires k < LANE_BITS
    ensures r[k] && forall c | 0 <= c < LANE_BITS && c != k :: r[c] == v[c]
  {
    v[k := true]
  }

  /** `v & !(1 << k)`. */
  function ClearBit(v: Lane, k: nat): (r: Lane)
    requires k < LANE_BITS
    ensures !r[k] && forall c | 0 <= c < LANE_BITS && c != k :: r[c] == v[c]
  {
    v[k := false]
  }

  /** `a | b`. */
  function Or(a: Lane, b: Lane): (r: Lane)
    ensures forall c | 0 <= c < LANE_BITS :: r[c] == (a[c] || b[c])
  {
    seq(64, c requires 0 <= c < 64 => a[c] || b[c])
  }

  lemma ZeroIffNoBit(v: Lane)
    ensures v == ZERO <==> IsZero(v)
  {
    if IsZero(v) {
      assert v == ZERO;
    }
  }

  /** The index of the lowest set bit at or above `t`, or 64 if there is none. */
  function TrailingZerosFrom(v: Lane, t: nat): (r: nat)
    requires t <= LANE_BITS
    requires forall c | 0 <= c < t :: !v[c]
    ensures t <= r <= LANE_BITS
    ensures forall c | 0 <= c < r :: !v[c]
    ensures r < LANE_BITS ==> v[r]
    decreases LANE_BITS - t
  {
    if t == LANE_BITS then LANE_BITS
    else if v[t] then t
    else TrailingZerosFrom(v, t + 1)
  }

  /** `u64::trailing_zeros`: the index of the lowest set bit, and 64 for `0`. */
  function TrailingZeros(v: Lane): (r: nat)
    ensures r <= LANE_BITS
    ensures forall c | 0 <= c < r :: !v[c]
    ensures r < LANE_BITS ==> v[r]
    ensures r == LANE_BITS <==> IsZero(v)
  {
    TrailingZerosFrom(v, 0)
  }

  /** `v & (v - 1)`: the lane with its lowest set bit cleared. */
  function ClearLowest(v: Lane): (r: Lane)
    requires !IsZero(v)
    ensures !r[TrailingZeros(v)]
    ensures forall c | 0 <= c < LANE_BITS && c != TrailingZeros(v) :: r[c] == v[c]
  {
    ClearBit(v, TrailingZeros(v))
  }

  /** The number of set bits of `v` below position `n`. */
  function CountBelow(v: Lane, n: nat): (r: nat)
    requires n <= LANE_BITS
    ensures r <= n
  {
    if n == 0 then 0 else CountBelow(v, n - 1) + (if v[n - 1] then 1 else 0)
  }

  /** `u64::count_ones`. */
  function PopCount(v: Lane): (r: nat)
    ensures r <= LANE_BITS
  {
    CountBelow(v, LANE_BITS)
  }

  /** A prefix count is zero exactly when the prefix has no set bit. */
  lemma {:induction false} CountBelowZeroIff(v: Lane, n: nat)
    requires n <= LANE_BITS
    ensures CountBelow(v, n) == 0 <==> forall c | 0 <= c < n :: !v[c]
  {
    if n > 0 {
      CountBelowZeroIff(v, n - 1);
    }
  }

  /** `count_ones` is zero exactly for the zero lane. */
  lemma PopCountZero(v: Lane)
    ensures PopCount(v) == 0 <==> IsZero(v)
  {
    CountBelowZeroIff(v, LANE_BITS);
  }

  /** Clearing a set bit lowers every prefix count that covers it by one. */
  lemma {:induction false} CountBelowClear(v: Lane, k: nat, n: nat)
    requires k < LANE_BITS && v[k] && n <= LANE_BITS
    ensures CountBelow(ClearBit(v, k), n) == CountBelow(v, n) - (if k < n then 1 else 0)
  {
    if n > 0 {
      CountBelowClear(v, k, n - 1);
    }
  }

  /** `value &= value - 1` removes exactly one set bit, which is why the
      enumeration loop of `for_each_set` terminates. */
  lemma ClearLowestCount(v: Lane)
    requires !IsZero(v)
    ensures PopCount(ClearLowest(v)) == PopCount(v) - 1
    ensures PopCount(v) > 0
  {
    CountBelowClear(v, TrailingZeros(v), LANE_BITS);
  }

  // ---------------------------------------------------------------------------
  // A lane holding a machine word.

  function Pow2(n: nat): (r: nat)
    ensures r >= 1
  {
    if n == 0 then 1 else 2 * Pow2(n - 1)
  }

  /** The unsigned value of bits `lo..|s|` of `s`, bit `lo` weighing 1. */
  function ValueFrom(s: seq<bool>, lo: nat): (r: nat)
    requires lo <= |s|
    decreases |s| - lo
  {
    if lo == |s| then 0 else (if s[lo] then 1 else 0) + 2 * ValueFrom(s, lo + 1)
  }

  /** The `w` lowest binary digits of `n`, lowest first. */
  function Digits(n: nat, w: nat): (r: seq<bool>)
    ensures |r| == w
  {
    if w == 0 then [] else [n % 2 == 1] + Digits(n / 2, w - 1)
  }

  /** The lane as a `u64`/`usize` (`array[0] as usize`). */
  function Word(v: Lane): nat {
    ValueFrom(v, 0)
  }

  /** `n as u64`, for an `n` that fits in 64 bits. */
  function FromWord(n: nat): (r: Lane)
    requires n <= WORD_MAX
  {
    Digits(n, LANE_BITS)
  }

  /** `(w & (1 << k)) != 0` on the value `w`: binary digit `k` of `w` is 1. */
  predicate TestBit(w: nat, k: nat) {
    (w / Pow2(k)) % 2 == 1
  }

  /** Testing bit `k` of a lane's word reads bit `k` of the lane. */
  lemma TestBitWord(v: Lane, k: nat)
    requires k < LANE_BITS
    ensures TestBit(Word(v), k) <==> v[k]
  {
    ValueFromDigit(v, 0, k);
  }

  lemma {:induction false} ValueFromDigit(s: seq<bool>, lo: nat, k: nat)
    requires lo <= k < |s|
    ensures (ValueFrom(s, lo) / Pow2(k - lo)) % 2 == (if s[k] then 1 else 0)
    decreases k - lo
  {
    if k > lo {
      ValueFromDigit(s, lo + 1, k);
      assert Pow2(k - lo) == 2 * Pow2(k - lo - 1);
      DivHalf(if s[lo] then 1 else 0, ValueFrom(s, lo + 1), Pow2(k - lo - 1));
    }
  }

  /** Dividing `b + 2 * rest` by `2 * c` drops the low digit `b`. */
  lemma DivHalf(b: nat, rest: nat, c: nat)
    requires b < 2 && c >= 1
    ensures (b + 2 * rest) / (2 * c) == rest / c
  {
    var q, r := rest / c, rest % c;
    assert rest == c * q + r;
    assert b + 2 * rest == (2 * c) * q + (2 * r + b);
    DivUnique(b + 2 * rest, 2 * c, q, 2 * r + b);
  }

  lemma DivUnique(a: nat, d: nat, q: nat, r: nat)
    requires d > 0 && a == d * q + r && r < d
    ensures a / d == q
  {
    var q1, r1 := a / d, a % d;
    assert a == d * q1 + r1 && r1 < d;
    if q1 < q {
      MulAtLeast(d, q - q1);
    } else if q < q1 {
      MulAtLeast(d, q1 - q);
    }
  }

  lemma MulAtLeast(d: nat, x: nat)
    requires x >= 1
    ensures d * x >= d
  {
    assert d * x == d + d * (x - 1);
  }

  lemma {:induction false} ValueFromShift(b: bool, s: seq<bool>, lo: nat)
    requires lo <= |s|
    ensures ValueFrom([b] + s, lo + 1) == ValueFrom(s, lo)
    decreases |s| - lo
  {
    if lo < |s| {
      ValueFromShift(b, s, lo + 1);
    }
  }

  lemma {:induction false} DigitsValue(n: nat, w: nat)
    requires n < Pow2(w)
    ensures ValueFrom(Digits(n, w), 0) == n
  {
    if w > 0 {
      DigitsValue(n / 2, w - 1);
      ValueFromShift(n % 2 == 1, Digits(n / 2, w - 1), 0);
    }
  }

  lemma {:induction false} Pow2Add(a: nat, b: nat)
    ensures Pow2(a + b) == Pow2(a) * Pow2(b)
  {
    if a > 0 {
      Pow2Add(a - 1, b);
    }
  }

  lemma Pow2Value()
    ensures Pow2(64) == WORD_MAX + 1
  {
    assert Pow2(8) == 0x100;
    Pow2Add(8, 8);
    assert Pow2(16) == 0x1_0000;
    Pow2Add(16, 16);
    assert Pow2(32) == 0x1_0000_0000;
    Pow2Add(32, 32);
  }

  /** Storing a word in a lane and reading it back yields the word. */
  lemma WordRoundTrip(n: nat)
    requires n <= WORD_MAX
    ensures Word(FromWord(n)) == n
  {
    Pow2Value();
    DigitsValue(n, LANE_BITS);
  }

  lemma {:induction false} ValueFromBound(s: seq<bool>, lo: nat)
    requires lo <= |s|
    ensures ValueFrom(s, lo) < Pow2(|s| - lo)
    decreases |s| - lo
  {
    if lo < |s| {
      ValueFromBound(s, lo + 1);
    }
  }

  /** A word read from a lane fits in 64 bits. */
  lemma WordBound(v: Lane)
    ensures Word(v) <= WORD_MAX
  {
    Pow2Value();
    ValueFromBound(v, 0);
  }

  lemma {:induction false} ValueFromZero(lo: nat)
    requires lo <= LANE_BITS
    ensures ValueFrom(ZERO, lo) == 0
    decreases LANE_BITS - lo
  {
    if lo < LANE_BITS {
      ValueFromZero(lo + 1);
    }
  }

  /** The zero lane holds the word `0`. */
  lemma WordZero()
    ensures Word(ZERO) == 0
  {
    ValueFromZero(0);
  }
}
