/** The `BitSet` of mosaic (mosaic/src/lib.rs), a `hi_sparse_bitset::BitSet`
    from a library that is not part of this model. It is taken to be a finite
    set of indices: `contains`, `insert` and `remove` are `in`, `+ {i}` and
    `- {i}` on a `set<nat>` (`remove` reports `i in s`), and iterating it
    yields its indices in ascending order, as `Ascending` does. */
module Sparse {

  /** The least index of a non-empty set, the one its iterator yields first. */
  function Min(s: set<nat>): (m: nat)
    requires s != {}
    ensures m in s && forall x | x in s :: m <= x
  {
    assert Least(s) in s && forall x | x in s :: Least(s) <= x;
    var m :| m in s && forall x | x in s :: m <= x;
    m
  }

  /** A least index, found by taking any index out and comparing it with the
      least of the rest. */
  ghost function Least(s: set<nat>): (m: nat)
    requires s != {}
    ensures m in s && forall x | x in s :: m <= x
    decreases s
  {
    var y :| y in s;
    if s == {y} then y
    else
      var r := Least(s - {y});
      assert forall x | x in s :: x == y || x in s - {y};
      if y < r then y else r
  }

  /** The indices of `s` in the order the set's iterator yields them. */
  function Ascending(s: set<nat>): (r: seq<nat>)
    ensures |r| == |s|
    ensures forall k | 0 <= k < |r| :: r[k] in s
    ensures forall k | 0 <= k < |r| - 1 :: r[k] < r[k + 1]
    ensures s != {} ==> r[0] == Min(s)
    decreases s
  {
    if s == {} then []
    else
      var m := Min(s);
      var rest := Ascending(s - {m});
      [m] + rest
  }

  /** Every index of the set is yielded. */
  lemma {:induction false} AscendingCovers(s: set<nat>, x: nat)
    requires x in s
    ensures x in Ascending(s)
    decreases s
  {
    if x != Min(s) {
      AscendingCovers(s - {Min(s)}, x);
    }
  }

  /** Strictly ascending sequences hold no index twice. */
  lemma AscendingDistinct(s: set<nat>)
    ensures forall j, k | 0 <= j < k < |Ascending(s)| :: Ascending(s)[j] < Ascending(s)[k]
  {
    var r := Ascending(s);
    forall j, k | 0 <= j < k < |r| ensures r[j] < r[k] {
      AscendingStep(r, j, k);
    }
  }

  lemma {:induction false} AscendingStep(r: seq<nat>, j: nat, k: nat)
    requires forall i | 0 <= i < |r| - 1 :: r[i] < r[i + 1]
    requires j < k < |r|
    ensures r[j] < r[k]
    decreases k - j
  {
    if k > j + 1 {
      AscendingStep(r, j, k - 1);
    }
  }
}
