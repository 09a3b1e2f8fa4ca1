/** The identity allocator of mosaic/src/entity.rs. An entity has a handle
    (`u64`), never reissued, and an index (`usize`) into the columns, reused
    after the entity is freed. `Entities` keeps the map from handles to
    indices and, in the `handles` column, the handle stored at each index in
    use. A panic (`expect` on an overflowing counter) is an `Outcome.Panic`
    carrying its message; the state it leaves is the state at the panic. */
module Entity {

  import opened Wrappers
  import opened Sparse
  import opened Store

  /** `usize::MAX`: `Index` is a 64-bit `usize`. */
  const INDEX_MAX: nat := 0xFFFF_FFFF_FFFF_FFFF
  /** `u64::MAX`: `Handle` is a `u64`. */
  const HANDLE_MAX: nat := 0xFFFF_FFFF_FFFF_FFFF
  const NO_ENTITY: string := "no entity left to allocate"
  const NO_HANDLE: string := "no handle left to allocate"

  /** `IndexAlloc`: the freed indices and the next never-used index. */
  class IndexAlloc {
    var freed: set<nat>
    var next: nat

    /** `next` is a `usize`, and every freed index was handed out before. */
    ghost predicate Valid()
      reads this
    {
      next <= INDEX_MAX && forall i | i in freed :: i < next
    }

    constructor ()
      ensures freed == {} && next == 0 && Valid()
    {
      freed := {};
      next := 0;
    }

    /** `allocate` panics: nothing is freed and `next` is at `usize::MAX`. */
    predicate Exhausted()
      reads this
    {
      freed == {} && next >= INDEX_MAX
    }

    /** The index `allocate` hands out when it does not panic. */
    function Upcoming(): (i: nat)
      reads this
      ensures freed != {} ==> i in freed && forall x | x in freed :: i <= x
      ensures freed == {} ==> i == next
    {
      if freed != {} then Min(freed) else next
    }

    /** `IndexAlloc::allocate`: the first freed index the set's iterator
        yields, the least one, taken out of the freed set; when nothing is
        freed, `next`, which is then bumped, panicking when it would pass
        `usize::MAX`. */
    method Allocate() returns (out: Outcome<nat>)
      modifies this
      ensures old(freed) != {} ==>
        out == Done(Min(old(freed))) && freed == old(freed) - {Min(old(freed))} && next == old(next)
      ensures old(freed) == {} && old(next) < INDEX_MAX ==>
        out == Done(old(next)) && freed == {} && next == old(next) + 1
      ensures old(freed) == {} && old(next) >= INDEX_MAX ==>
        out == Panic(NO_ENTITY) && freed == {} && next == old(next)
      ensures old(Valid()) ==> Valid()
    {
      var first := if freed == {} then None else Some(Ascending(freed)[0]);
      if first.Some? {
        freed := freed - {first.value};
        out := Done(first.value);
      } else if next < INDEX_MAX {
        out := Done(next);
        next := next + 1;
      } else {
        out := Panic(NO_ENTITY);
      }
    }

    /** `IndexAlloc::free`: the index joins the freed set. */
    method Free(index: nat)
      modifies this
      ensures freed == old(freed) + {index} && next == old(next)
      ensures old(Valid()) && index < next ==> Valid()
    {
      freed := freed + {index};
    }
  }

  /** `HandleAlloc`: the next handle to hand out. */
  class HandleAlloc {
    var next: nat

    ghost predicate Valid()
      reads this
    {
      next <= HANDLE_MAX
    }

    constructor ()
      ensures next == 0 && Valid()
    {
      next := 0;
    }

    /** `HandleAlloc::allocate`: the counter, which is then bumped; it
        panics instead of passing `u64::MAX`, so `u64::MAX` itself is never
        handed out and no handle is handed out twice. */
    method Allocate() returns (out: Outcome<nat>)
      modifies this
      ensures old(next) < HANDLE_MAX ==> out == Done(old(next)) && next == old(next) + 1
      ensures old(next) >= HANDLE_MAX ==> out == Panic(NO_HANDLE) && next == old(next)
      ensures out.Done? ==> out.value < HANDLE_MAX && out.value < next
      ensures old(Valid()) ==> Valid()
    {
      if next < HANDLE_MAX {
        out := Done(next);
        next := next + 1;
      } else {
        out := Panic(NO_HANDLE);
      }
    }
  }

  /** `IndexMap`: the `HashMap` from handles to indices. */
  class IndexMap {
    var indices: map<nat, nat>

    constructor ()
      ensures indices == map[]
    {
      indices := map[];
    }

    /** `IndexMap::insert`. */
    method Insert(handle: nat, index: nat)
      modifies this
      ensures indices == old(indices)[handle := index]
    {
      indices := indices[handle := index];
    }

    /** `IndexMap::remove`: the index the handle had, if any, and the handle
        is gone. */
    method Remove(handle: nat) returns (r: Option<nat>)
      modifies this
      ensures r == old(Get(handle))
      ensures indices == old(indices) - {handle}
      ensures r.None? ==> unchanged(this)
    {
      r := Get(handle);
      if r.Some? {
        indices := indices - {handle};
      }
    }

    /** `IndexMap::get`. */
    function Get(handle: nat): (r: Option<nat>)
      reads this
      ensures r.Some? <==> handle in indices
      ensures r.Some? ==> r.value == indices[handle]
    {
      if handle in indices then Some(indices[handle]) else None
    }
  }

  /** `Entities`: the two allocators, the handle-to-index map and the
      `handles` column. */
  class Entities {
    const indexAlloc: IndexAlloc
    const handleAlloc: HandleAlloc
    const indexMap: IndexMap
    const handles: MaskStore<nat>

    /** The map and the column are inverse to each other: each live handle
        maps to an index of the column holding that handle, and each index
        of the column holds a live handle mapping back to it. Freed indices
        are not in the column, every live or freed index was handed out by
        the index allocator, and every live handle by the handle allocator. */
    ghost predicate Valid()
      reads this, indexAlloc, handleAlloc, indexMap, handles, handles.store
    {
      && indexAlloc.Valid() && handleAlloc.Valid() && handles.Valid()
      && (forall h | h in indexMap.indices :: h < handleAlloc.next)
      && (forall h | h in indexMap.indices ::
            indexMap.indices[h] in handles.mask && handles.Get(indexMap.indices[h]) == Some(h))
      && (forall i | i in handles.mask ::
            handles.Get(i).value in indexMap.indices && indexMap.indices[handles.Get(i).value] == i)
      && (forall i | i in indexAlloc.freed :: i !in handles.mask)
      && (forall i | i in handles.mask :: i < indexAlloc.next)
    }

    /** `Entities::default()`: no entity. */
    constructor ()
      ensures Valid()
      ensures indexMap.indices == map[] && handles.mask == {} && indexAlloc.freed == {}
    {
      indexAlloc := new IndexAlloc();
      handleAlloc := new HandleAlloc();
      indexMap := new IndexMap();
      handles := new MaskStore();
    }

    /** `Entities::get`: the index of a live handle, `None` for a handle
        that was never handed out or has been freed. */
    function Get(handle: nat): (r: Option<nat>)
      reads this, indexAlloc, handleAlloc, indexMap, handles, handles.store
      ensures r.Some? <==> handle in indexMap.indices
      ensures Valid() && r.Some? ==> r.value in handles.mask && handles.Get(r.value) == Some(handle)
      ensures Valid() && handle >= handleAlloc.next ==> r == None
    {
      indexMap.Get(handle)
    }

    /** No two live handles share an index. */
    lemma IndexMapInjective(h1: nat, h2: nat)
      requires Valid() && h1 in indexMap.indices && h2 in indexMap.indices
      requires indexMap.indices[h1] == indexMap.indices[h2]
      ensures h1 == h2
    {
      assert handles.Get(indexMap.indices[h1]) == Some(h1);
    }

    /** `Entities::allocate`: an index, then a handle, linked both ways. The
        new handle is the counter of the handle allocator, so it was never
        handed out before; the index is the least freed one or the next
        unused one. A panic of the handle allocator comes after the index is
        taken: that index is then neither live nor free. */
    method Allocate() returns (out: Outcome<(nat, nat)>)
      requires Valid()
      modifies indexAlloc, handleAlloc, indexMap, handles, handles.store
      ensures Valid()
      ensures out.Done? ==>
        && out.value.0 == old(handleAlloc.next)
        && out.value.1 == old(indexAlloc.Upcoming())
        && out.value.1 !in old(handles.mask)
        && indexMap.indices == old(indexMap.indices)[out.value.0 := out.value.1]
        && handles.mask == old(handles.mask) + {out.value.1}
        && handles.Get(out.value.1) == Some(out.value.0)
        && Get(out.value.0) == Some(out.value.1)
      ensures out.Panic? <==> old(indexAlloc.Exhausted()) || old(handleAlloc.next) >= HANDLE_MAX
      ensures out.Panic? ==> out.message == if old(indexAlloc.Exhausted()) then NO_ENTITY else NO_HANDLE
      ensures out.Panic? ==> indexMap.indices == old(indexMap.indices) && handles.mask == old(handles.mask)
      ensures old(indexAlloc.Exhausted()) ==>
        indexAlloc.freed == old(indexAlloc.freed) && indexAlloc.next == old(indexAlloc.next)
        && handleAlloc.next == old(handleAlloc.next)
      ensures !old(indexAlloc.Exhausted()) ==>
        && indexAlloc.freed == old(indexAlloc.freed) - {old(indexAlloc.Upcoming())}
        && indexAlloc.next == (if old(indexAlloc.freed) != {} then old(indexAlloc.next) else old(indexAlloc.next) + 1)
        && handleAlloc.next == (if old(handleAlloc.next) < HANDLE_MAX then old(handleAlloc.next) + 1 else old(handleAlloc.next))
      ensures forall i | i in handles.mask && i in old(handles.mask) :: handles.Get(i) == old(handles.Get(i))
    {
      var o1 := indexAlloc.Allocate();
      if o1.Panic? {
        return Panic(o1.message);
      }
      var index := o1.value;
      var o2 := handleAlloc.Allocate();
      if o2.Panic? {
        return Panic(o2.message);
      }
      var handle := o2.value;
      assert handle !in indexMap.indices;
      assert index !in handles.mask;
      indexMap.Insert(handle, index);
      var _ := handles.Insert(index, handle);
      out := Done((handle, index));
    }

    /** `Entities::free`: for a live handle, its index, which leaves the map,
        the column and joins the freed set; for any other handle, `None` and
        no change. */
    method Free(handle: nat) returns (r: Option<nat>)
      requires Valid()
      modifies indexAlloc, indexMap, handles, handles.store
      ensures Valid()
      ensures r == old(Get(handle))
      ensures Get(handle) == None
      ensures indexAlloc.next == old(indexAlloc.next)
      ensures r.None? ==> unchanged(indexAlloc, indexMap, handles, handles.store)
      ensures r.Some? ==>
        && indexMap.indices == old(indexMap.indices) - {handle}
        && handles.mask == old(handles.mask) - {r.value}
        && indexAlloc.freed == old(indexAlloc.freed) + {r.value}
      ensures forall i | i in handles.mask :: handles.Get(i) == old(handles.Get(i))
    {
      var removed := indexMap.Remove(handle);
      if removed.None? {
        return None;
      }
      var index := removed.value;
      var _ := handles.Remove(index);
      indexAlloc.Free(index);
      r := Some(index);
    }
  }
}
