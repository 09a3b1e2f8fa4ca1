/** The column stores of mosaic/src/store.rs. A `VecStore<T>` is a vector of
    possibly uninitialised cells; a cell is `None` while it holds no value
    (never written, or its value moved out by `remove`). A `MaskStore<T>`
    pairs such a vector with a presence mask. The unchecked accessors of the
    vector demand a cell that holds a value; the mask store only calls them
    at indices of its mask, and keeps every index of its mask initialised. */
module Store {

  import opened Wrappers

  /** The cells of a vector that hold a value. */
  ghost predicate Initialised<T>(vec: seq<Option<T>>, i: nat) {
    i < |vec| && vec[i].Some?
  }

  /** `VecStore<T>`: `Vec<UnsafeCell<MaybeUninit<T>>>`. */
  class VecStore<T> {
    var vec: seq<Option<T>>

    /** `VecStore::default()`: no cells. */
    constructor ()
      ensures vec == []
    {
      vec := [];
    }

    /** `RawStore::get`: the value of cell `index`, which must hold one. */
    function Get(index: nat): (v: T)
      reads this
      requires index < |vec| && vec[index].Some?
      ensures Some(v) == vec[index]
    {
      vec[index].value
    }

    /** `RawStore::get_mut` followed by a write through the returned
        reference: cell `index`, which must hold a value, now holds `v`. */
    method GetMut(index: nat, v: T)
      requires index < |vec| && vec[index].Some?
      modifies this
      ensures vec == old(vec)[index := Some(v)]
    {
      vec := vec[index := Some(v)];
    }

    /** `RawStore::insert`: when the vector is too short it is lengthened to
        `index + 1` with uninitialised cells; then cell `index` is written. */
    method Insert(index: nat, c: T)
      modifies this
      ensures vec == Grown(old(vec), index)[index := Some(c)]
    {
      if |vec| <= index {
        vec := Grown(vec, index);
      }
      vec := vec[index := Some(c)];
    }

    /** `RawStore::remove`: the value of cell `index`, read out; the cell no
        longer owns it. */
    method Remove(index: nat) returns (v: T)
      requires index < |vec| && vec[index].Some?
      modifies this
      ensures Some(v) == old(vec[index])
      ensures vec == old(vec)[index := None]
    {
      v := vec[index].value;
      vec := vec[index := None];
    }
  }

  /** The vector after `reserve` and `set_len(index + 1)` when it is too
      short to hold cell `index`, and the vector itself otherwise. */
  function Grown<T>(vec: seq<Option<T>>, index: nat): (r: seq<Option<T>>)
    ensures |r| == if |vec| <= index then index + 1 else |vec|
    ensures index < |r|
    ensures r[..|vec|] == vec
    ensures forall k | |vec| <= k < |r| :: r[k] == None
  {
    if |vec| <= index then vec + seq(index + 1 - |vec|, k => None) else vec
  }

  /** Writing cell `index` after growing the vector changes no other cell
      and leaves no other cell initialised that was not before. */
  lemma InsertKeepsOthers<T>(vec: seq<Option<T>>, index: nat, c: T, j: nat)
    requires j != index
    ensures Initialised(Grown(vec, index)[index := Some(c)], j) <==> Initialised(vec, j)
    ensures j < |vec| ==> Grown(vec, index)[index := Some(c)][j] == vec[j]
  {
    var g := Grown(vec, index);
    if j < |vec| {
      assert g[..|vec|][j] == g[j];
    }
  }

  /** `MaskStore<T>`: the presence mask and the raw store. */
  class MaskStore<T> {
    var mask: set<nat>
    const store: VecStore<T>

    /** The mask holds exactly the initialised cells. An index of the mask
        is thus always a valid argument of the raw accessors. */
    ghost predicate Valid()
      reads this, store
    {
      forall i: nat :: i in mask <==> Initialised(store.vec, i)
    }

    /** `MaskStore::default()`: an empty mask over an empty vector. */
    constructor ()
      ensures Valid() && mask == {} && fresh(store)
    {
      mask := {};
      store := new VecStore();
    }

    /** `Store::get`: the value at `index` exactly when the mask holds
        it; the raw store is read only in that case. */
    function Get(index: nat): (r: Option<T>)
      reads this, store
      requires Valid()
      ensures r.Some? <==> index in mask
      ensures r.Some? ==> store.vec[index] == r
    {
      if index in mask then Some(store.Get(index)) else None
    }

    /** `Store::get_mut` followed by a write of `v` through the reference
        when there is one: `false` and no change when `index` is absent. */
    method GetMut(index: nat, v: T) returns (found: bool)
      requires Valid()
      modifies store
      ensures Valid()
      ensures found <==> index in mask
      ensures found ==> store.vec == old(store.vec)[index := Some(v)]
      ensures !found ==> store.vec == old(store.vec)
    {
      if index in mask {
        store.GetMut(index, v);
        found := true;
      } else {
        found := false;
      }
    }

    /** `Store::insert`. At a present index the new value is swapped in and
        the old one returned, the mask staying the same; at an absent index
        the index joins the mask, the value is stored and `None` returned.
        No other index changes. */
    method Insert(index: nat, value: T) returns (prev: Option<T>)
      requires Valid()
      modifies this, store
      ensures Valid()
      ensures prev == old(Get(index))
      ensures mask == old(mask) + {index}
      ensures Get(index) == Some(value)
      ensures forall j: nat | j != index :: Get(j) == old(Get(j))
    {
      if index in mask {
        var previous := store.Get(index);
        store.GetMut(index, value);
        prev := Some(previous);
      } else {
        ghost var vec0 := store.vec;
        mask := mask + {index};
        store.Insert(index, value);
        forall j: nat | j != index
          ensures Initialised(store.vec, j) <==> Initialised(vec0, j)
          ensures j < |vec0| ==> store.vec[j] == vec0[j]
        {
          InsertKeepsOthers(vec0, index, value, j);
        }
        prev := None;
      }
    }

    /** `Store::remove`: the value at `index` when present, which leaves the
        mask and the cell; `None` and no change when absent. No other index
        changes. */
    method Remove(index: nat) returns (prev: Option<T>)
      requires Valid()
      modifies this, store
      ensures Valid()
      ensures prev == old(Get(index))
      ensures mask == old(mask) - {index}
      ensures prev.None? ==> store.vec == old(store.vec)
      ensures forall j: nat | j != index :: Get(j) == old(Get(j))
    {
      var present := index in mask;
      mask := mask - {index};
      if present {
        var v := store.Remove(index);
        prev := Some(v);
      } else {
        prev := None;
      }
    }

    /** The contents as a value, for the queries. */
    function Snapshot(): (c: Column<T>)
      reads this, store
      requires Valid()
      ensures ColumnValid(c)
      ensures forall i: nat :: ColumnGet(c, i) == Get(i)
    {
      Column(mask, store.vec)
    }
  }

  /** A mask store as a value: what a query over it opens to. */
  datatype Column<T> = Column(mask: set<nat>, vec: seq<Option<T>>)

  ghost predicate ColumnValid<T>(c: Column<T>) {
    forall i: nat :: i in c.mask <==> Initialised(c.vec, i)
  }

  /** `Store::get` on a column. */
  function ColumnGet<T>(c: Column<T>, index: nat): Option<T>
    requires ColumnValid(c)
  {
    if index in c.mask then c.vec[index] else None
  }
}
