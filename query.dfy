/** The query engine of mosaic/src/query.rs. A query is a tree: a borrowed
    mask store at the leaves, `maybe` around a query, and tuples of one to
    four queries. Opening a query gives the mask of the indices it matches
    and the accessors to fetch with; fetching at an index calls the raw,
    unchecked `get` of every store the query reaches. */
module Query {

  import opened Wrappers
  import opened Store
  import opened Sparse

  // ---------------------------------------------------------------------------
  // Masks

  /** What `open` returns as the mask: the mask of a store, the mask that
      holds every index (the `BitSetAll` that `MaybeQuery` returns), or the
      intersection `apply(And, ..)` of masks, here kept as a set. */
  datatype Mask = All | Only(indices: set<nat>)

  predicate InMask(m: Mask, i: nat) {
    m.All? || i in m.indices
  }

  /** `hi_sparse_bitset::apply(And, a, b)`. */
  function And(a: Mask, b: Mask): (r: Mask)
    ensures forall i: nat :: InMask(r, i) <==> InMask(a, i) && InMask(b, i)
    ensures r.All? <==> a.All? && b.All?
  {
    match (a, b)
    case (All, _) => b
    case (_, All) => a
    case (Only(x), Only(y)) => Only(x * y)
  }

  /** `BitSetAnd::bitset_and` on a tuple of masks: a one-tuple is its mask,
      a longer tuple the `And` of its first mask with `bitset_and` of the
      rest. The result holds exactly the indices that every mask holds. */
  function BitSetAnd(masks: seq<Mask>): (r: Mask)
    requires |masks| >= 1
    ensures forall i: nat :: InMask(r, i) <==> forall k | 0 <= k < |masks| :: InMask(masks[k], i)
  {
    if |masks| == 1 then masks[0]
    else
      var rest := BitSetAnd(masks[1..]);
      assert forall i: nat :: (forall k | 0 <= k < |masks| :: InMask(masks[k], i)) <==>
                              InMask(masks[0], i) && forall k | 0 <= k < |masks| - 1 :: InMask(masks[1..][k], i);
      And(masks[0], rest)
  }

  // ---------------------------------------------------------------------------
  // Queries, accessors and items

  /** `&MaskStore` and `&mut MaskStore` (`Store`), `MaybeQuery` (`Maybe`) and
      `QueryTuple` (`Tuple`). */
  datatype Query<T> = Store(column: Column<T>) | Maybe(inner: Query<T>) | Tuple(parts: seq<Query<T>>)

  /** `Query::Access`: the raw store of a mask store, the inner mask with the
      inner accessors for `maybe`, and one accessor per part for a tuple. */
  datatype Access<T> = Raw(vec: seq<Option<T>>) | MaybeAccess(mask: Mask, inner: Access<T>) | TupleAccess(parts: seq<Access<T>>)

  /** `Query::Item`: a reference to a stored value, an optional item, or a
      tuple of items. */
  datatype Item<T> = Value(value: T) | Optional(item: Option<Item<T>>) | Items(items: seq<Item<T>>)

  /** `define_query!` exists for tuples of one to four queries. */
  predicate WellFormed<T>(q: Query<T>) {
    match q
    case Store(_) => true
    case Maybe(inner) => WellFormed(inner)
    case Tuple(parts) => 1 <= |parts| <= 4 && forall k | 0 <= k < |parts| :: WellFormed(parts[k])
  }

  /** Every store the query reaches keeps its invariant. */
  ghost predicate StoresValid<T>(q: Query<T>) {
    match q
    case Store(c) => ColumnValid(c)
    case Maybe(inner) => StoresValid(inner)
    case Tuple(parts) => forall k | 0 <= k < |parts| :: StoresValid(parts[k])
  }

  /** `Query::open`. A store opens to its mask and its raw store; `maybe`
      opens the inner query and returns the all-indices mask, keeping the
      inner mask for `get`; a tuple opens every part and ANDs their masks. */
  function Open<T>(q: Query<T>): (r: (Mask, Access<T>))
    requires WellFormed(q)
    ensures q.Store? ==> r == (Only(q.column.mask), Raw(q.column.vec))
    ensures q.Maybe? ==> r.0 == All && r.1.MaybeAccess?
    ensures q.Tuple? ==> r.1.TupleAccess? && |r.1.parts| == |q.parts|
    ensures q.Tuple? ==> forall k | 0 <= k < |q.parts| :: r.1.parts[k] == Open(q.parts[k]).1
    ensures q.Tuple? ==> forall i: nat ::
      InMask(r.0, i) <==> forall k | 0 <= k < |q.parts| :: InMask(Open(q.parts[k]).0, i)
  {
    match q
    case Store(c) => (Only(c.mask), Raw(c.vec))
    case Maybe(inner) =>
      var (m, a) := Open(inner);
      (All, MaybeAccess(m, a))
    case Tuple(parts) =>
      var sub := seq(|parts|, k requires 0 <= k < |parts| => Open(parts[k]));
      var masks := seq(|parts|, k requires 0 <= k < |parts| => sub[k].0);
      assert forall k | 0 <= k < |parts| :: masks[k] == Open(parts[k]).0;
      (BitSetAnd(masks), TupleAccess(seq(|parts|, k requires 0 <= k < |parts| => sub[k].1)))
  }

  /** The mask of a query. */
  function MaskOf<T>(q: Query<T>): Mask
    requires WellFormed(q)
  {
    Open(q).0
  }

  /** Every raw `get` that fetching at `i` reaches gets a cell that holds a
      value: the precondition of the unchecked accessors. */
  ghost predicate Safe<T>(a: Access<T>, i: nat) {
    match a
    case Raw(vec) => Initialised(vec, i)
    case MaybeAccess(m, inner) => InMask(m, i) ==> Safe(inner, i)
    case TupleAccess(parts) => forall k | 0 <= k < |parts| :: Safe(parts[k], i)
  }

  /** `Query::get`. A store's accessor returns its cell through the raw `get`
      (or `get_mut`); `maybe` calls the inner `get` only when the inner mask
      holds the index; a tuple fetches every part at the same index. */
  function Get<T>(a: Access<T>, i: nat): (r: Item<T>)
    requires Safe(a, i)
    ensures a.Raw? ==> r.Value? && Some(r.value) == a.vec[i]
    ensures a.MaybeAccess? ==> r.Optional? && (r.item.Some? <==> InMask(a.mask, i))
    ensures a.TupleAccess? ==> r.Items? && |r.items| == |a.parts|
  {
    match a
    case Raw(vec) => Value(vec[i].value)
    case MaybeAccess(m, inner) => if InMask(m, i) then Optional(Some(Get(inner, i))) else Optional(None)
    case TupleAccess(parts) => Items(seq(|parts|, k requires 0 <= k < |parts| => Get(parts[k], i)))
  }

  // ---------------------------------------------------------------------------
  // The safety contract

  /** The index handed to every raw `get` lies in the mask of that `get`'s
      own store: for a store, its mask; inside `maybe`, only when the inner
      mask holds the index; in a tuple, for every part. */
  ghost predicate InOwnMasks<T>(q: Query<T>, i: nat)
    requires WellFormed(q)
  {
    match q
    case Store(c) => i in c.mask
    case Maybe(inner) => InMask(MaskOf(inner), i) ==> InOwnMasks(inner, i)
    case Tuple(parts) => forall k | 0 <= k < |parts| :: InOwnMasks(parts[k], i)
  }

  /** Every index a query's mask yields satisfies the safety contract. */
  lemma {:induction false} MaskInOwnMasks<T>(q: Query<T>, i: nat)
    requires WellFormed(q) && InMask(MaskOf(q), i)
    ensures InOwnMasks(q, i)
  {
    match q
    case Store(_) =>
    case Maybe(inner) =>
      if InMask(MaskOf(inner), i) {
        MaskInOwnMasks(inner, i);
      }
    case Tuple(parts) =>
      forall k | 0 <= k < |parts| ensures InOwnMasks(parts[k], i) {
        MaskInOwnMasks(parts[k], i);
      }
  }

  /** With every store keeping its invariant, the safety contract makes every
      raw fetch valid. */
  lemma {:induction false} OwnMasksSafe<T>(q: Query<T>, i: nat)
    requires WellFormed(q) && StoresValid(q) && InOwnMasks(q, i)
    ensures Safe(Open(q).1, i)
  {
    match q
    case Store(c) =>
    case Maybe(inner) =>
      if InMask(MaskOf(inner), i) {
        OwnMasksSafe(inner, i);
      }
    case Tuple(parts) =>
      forall k | 0 <= k < |parts| ensures Safe(Open(q).1.parts[k], i) {
        OwnMasksSafe(parts[k], i);
      }
  }

  /** Fetching at any index of the query's mask is safe. */
  lemma OpenSafe<T>(q: Query<T>, i: nat)
    requires WellFormed(q) && StoresValid(q) && InMask(MaskOf(q), i)
    ensures Safe(Open(q).1, i)
  {
    MaskInOwnMasks(q, i);
    OwnMasksSafe(q, i);
  }

  // ---------------------------------------------------------------------------
  // What a fetch yields

  /** A store query yields the value that `Store::get` returns. */
  lemma GetStore<T>(c: Column<T>, i: nat)
    requires ColumnValid(c) && i in c.mask
    ensures Safe(Open(Store(c)).1, i)
    ensures ColumnGet(c, i) == Some(Get(Open(Store(c)).1, i).value)
  {}

  /** `maybe` yields `Some` of the inner item exactly when the inner mask
      holds the index, and `None` otherwise. */
  lemma GetMaybe<T>(q: Query<T>, i: nat)
    requires WellFormed(q) && StoresValid(q)
    ensures Safe(Open(Maybe(q)).1, i)
    ensures InMask(MaskOf(q), i) ==>
      Safe(Open(q).1, i) && Get(Open(Maybe(q)).1, i) == Optional(Some(Get(Open(q).1, i)))
    ensures !InMask(MaskOf(q), i) ==> Get(Open(Maybe(q)).1, i) == Optional(None)
  {
    if InMask(MaskOf(q), i) {
      OpenSafe(q, i);
    }
  }

  /** A tuple yields, at one index, the tuple of its parts' items. */
  lemma GetTuple<T>(parts: seq<Query<T>>, i: nat)
    requires WellFormed(Tuple(parts)) && StoresValid(Tuple(parts)) && InMask(MaskOf(Tuple(parts)), i)
    ensures Safe(Open(Tuple(parts)).1, i)
    ensures forall k | 0 <= k < |parts| :: Safe(Open(parts[k]).1, i)
    ensures Get(Open(Tuple(parts)).1, i).items == seq(|parts|, k requires 0 <= k < |parts| => Get(Open(parts[k]).1, i))
  {
    OpenSafe(Tuple(parts), i);
  }

  /** Adding a `maybe` part to a tuple leaves the tuple's mask the same. */
  lemma MaybeKeepsMask<T>(parts: seq<Query<T>>, q: Query<T>, i: nat)
    requires WellFormed(Tuple(parts)) && WellFormed(q) && |parts| < 4
    ensures WellFormed(Tuple(parts + [Maybe(q)]))
    ensures InMask(MaskOf(Tuple(parts + [Maybe(q)])), i) <==> InMask(MaskOf(Tuple(parts)), i)
  {
    var more := parts + [Maybe(q)];
    assert forall k | 0 <= k < |parts| :: more[k] == parts[k];
  }

  // ---------------------------------------------------------------------------
  // QueryIter

  /** The items fetched at the indices `idx`, in order. */
  function Fetched<T>(a: Access<T>, idx: seq<nat>): (r: seq<Item<T>>)
    requires forall k | 0 <= k < |idx| :: Safe(a, idx[k])
    ensures |r| == |idx|
    ensures forall k | 0 <= k < |idx| :: r[k] == Get(a, idx[k])
  {
    seq(|idx|, k requires 0 <= k < |idx| => Get(a, idx[k]))
  }

  /** What `next` yields first and what the iterator then still yields make
      up what `for_each` visits. */
  lemma FetchedStep<T>(a: Access<T>, idx: seq<nat>)
    requires idx != [] && forall k | 0 <= k < |idx| :: Safe(a, idx[k])
    ensures Fetched(a, idx) == [Get(a, idx[0])] + Fetched(a, idx[1..])
  {}

  /** `QueryIter<Q>`: the iterator over the opened mask (`indices`, the
      indices it still yields) and the accessors. */
  class QueryIter<T> {
    var indices: seq<nat>
    const access: Access<T>

    /** Every index still to come is safe to fetch at. */
    ghost predicate Valid()
      reads this
    {
      forall k | 0 <= k < |indices| :: Safe(access, indices[k])
    }

    /** `QueryIter::new`: open the query and iterate its mask in ascending
        order. */
    constructor (q: Query<T>)
      requires WellFormed(q) && StoresValid(q) && MaskOf(q).Only?
      ensures Valid()
      ensures indices == Ascending(MaskOf(q).indices) && access == Open(q).1
    {
      var (m, a) := Open(q);
      indices := Ascending(m.indices);
      access := a;
      new;
      forall k | 0 <= k < |indices| ensures Safe(access, indices[k]) {
        OpenSafe(q, indices[k]);
      }
    }

    /** `Iterator::next`: the item at the next index of the mask, or `None`
        when the mask is exhausted. */
    method Next() returns (r: Option<Item<T>>)
      requires Valid()
      modifies this
      ensures Valid()
      ensures old(indices) == [] ==> r == None && indices == []
      ensures old(indices) != [] ==> r == Some(Get(access, old(indices)[0])) && indices == old(indices)[1..]
    {
      if indices == [] {
        r := None;
      } else {
        r := Some(Get(access, indices[0]));
        indices := indices[1..];
      }
    }

    /** `Iterator::for_each`: the items passed to `f`, in the order of the
        calls: one per index still to come. */
    method ForEach() returns (items: seq<Item<T>>)
      requires Valid()
      ensures items == Fetched(access, indices)
    {
      items := [];
      var rest := indices;
      while rest != []
        invariant |rest| <= |indices| && rest == indices[|indices| - |rest|..]
        invariant items == Fetched(access, indices[..|indices| - |rest|])
        decreases |rest|
      {
        var done := |indices| - |rest|;
        assert indices[..done + 1] == indices[..done] + [rest[0]];
        items := items + [Get(access, rest[0])];
        rest := rest[1..];
      }
      assert indices[..|indices|] == indices;
    }
  }

  /** An iterator over a query yields one item per index of the query's
      mask, in ascending order of the indices. */
  lemma IterYieldsMask<T>(q: Query<T>, i: nat)
    requires WellFormed(q) && MaskOf(q).Only?
    ensures i in Ascending(MaskOf(q).indices) <==> InMask(MaskOf(q), i)
  {
    if InMask(MaskOf(q), i) {
      AscendingCovers(MaskOf(q).indices, i);
    }
  }
}
