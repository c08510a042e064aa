/** The element store of src/ui/element_store.rs: every stored element
    lives in a slot of a slab allocator of 4096 slots, and elements stored
    with an explicit id are also reachable through an id map.  An element
    box is represented by the index of its slot. */
module ElementStore {
  import opened Common
  import opened Allocator
  import opened Elements

  const STORED_ELEMENTS_CAPACITY: nat := 4096

  class Store {
    var slab: SlabAllocator<ElementBox>
    /** `id_hash_map`: element id to the slot of the box stored under it. */
    var idMap: map<Id, nat>

    /** The slab is valid, and every entry of the id map names a live slot
        whose stored element carries that (non-`NONE`) id. */
    ghost predicate Valid()
      reads this, slab, slab.slots
    {
      slab.Valid() && slab.cap == STORED_ELEMENTS_CAPACITY &&
      forall id :: id in idMap ==>
        id != NONE_ID && idMap[id] < slab.slots.Length &&
        slab.slots[idMap[id]].Used? && slab.slots[idMap[id]].value.id == id
    }

    /** `ElementStore::new`. */
    constructor ()
      ensures Valid() && fresh(slab) && fresh(slab.slots)
      ensures idMap == map[] && slab.len == 0 && slab.maxLen == 0
    {
      slab := new SlabAllocator<ElementBox>(STORED_ELEMENTS_CAPACITY);
      idMap := map[];
    }

    /** `get_computed_bounds`: the bounds of the element stored under `id`,
        or `None` when no element carries it. */
    function GetComputedBounds(id: Id): (r: Option<ComputedBounds>)
      reads this, slab, slab.slots
      requires Valid()
      ensures r.Some? <==> id in idMap
      ensures r.Some? ==> r.value == Bounds(slab.slots[idMap[id]].value.element)
    {
      if id in idMap then Some(Bounds(slab.slots[idMap[id]].value.element)) else None
    }

    /** `get_all_element_ids`, as a set: the hash map's key order is not
        modelled. */
    function AllElementIds(): (r: set<Id>)
      reads this
      ensures forall id :: id in r <==> id in idMap
    {
      idMap.Keys
    }

    /** `ElementBox::new`: allocates a slot for `element` and, when it has
        an id, points the id map at that slot, replacing any earlier entry.
        The source panics when the slab is exhausted; that is `Err` here and
        nothing changes. */
    method NewBox(element: ElementBox) returns (r: Result<nat, AllocError>)
      requires Valid()
      modifies this, slab, slab.slots
      ensures Valid() && slab == old(slab) && slab.slots == old(slab.slots)
      ensures r.Err? <==> old(slab.freeList) == [] && old(slab.maxLen) >= STORED_ELEMENTS_CAPACITY
      ensures r.Err? ==> idMap == old(idMap) && unchanged(slab) && unchanged(slab.slots)
      ensures r.Ok? ==> r.value < slab.slots.Length && slab.slots[r.value] == Used(element) &&
                        !old(slab.slots[r.value]).Used? && slab.len == old(slab.len) + 1
      ensures r.Ok? ==> forall i :: 0 <= i < slab.slots.Length && i != r.value ==> slab.slots[i] == old(slab.slots[i])
      ensures r.Ok? ==> idMap == if element.id == NONE_ID then old(idMap) else old(idMap)[element.id := r.value]
    {
      r := slab.Alloc(element);
      if r.Ok? && element.id != NONE_ID {
        idMap := idMap[element.id := r.value];
      }
    }

    /** `IntoElementBox::store` and `store_with_id` for an `Element`: the
        element with default computed data under the given id (`NONE_ID`
        for `store`). */
    method StoreElement(e: Element, id: Id) returns (r: Result<nat, AllocError>)
      requires Valid()
      modifies this, slab, slab.slots
      ensures Valid() && slab == old(slab) && slab.slots == old(slab.slots)
      ensures r.Err? <==> old(slab.freeList) == [] && old(slab.maxLen) >= STORED_ELEMENTS_CAPACITY
      ensures r.Ok? ==> r.value < slab.slots.Length && slab.slots[r.value] == Used(ElementBox(FromElement(e), id))
      ensures r.Ok? ==> idMap == if id == NONE_ID then old(idMap) else old(idMap)[id := r.value]
      ensures r.Ok? ==> slab.slots[r.value].value.id == id && ElementOf(slab.slots[r.value].value.element) == e
      ensures r.Ok? ==> !old(slab.slots[r.value]).Used? &&
                        forall i :: 0 <= i < slab.slots.Length && i != r.value ==> slab.slots[i] == old(slab.slots[i])
      ensures r.Err? ==> idMap == old(idMap) && unchanged(slab) && unchanged(slab.slots)
    {
      AccessorsAgree(e, FromElement(e));
      r := NewBox(ElementBox(FromElement(e), id));
    }

    /** `store` and `store_with_id` for an `ElementWithComputed`: the
        computed data is kept as it is. */
    method StoreComputed(e: ElementWithComputed, id: Id) returns (r: Result<nat, AllocError>)
      requires Valid()
      modifies this, slab, slab.slots
      ensures Valid() && slab == old(slab) && slab.slots == old(slab.slots)
      ensures r.Err? <==> old(slab.freeList) == [] && old(slab.maxLen) >= STORED_ELEMENTS_CAPACITY
      ensures r.Ok? ==> r.value < slab.slots.Length && slab.slots[r.value] == Used(ElementBox(e, id))
      ensures r.Ok? ==> idMap == if id == NONE_ID then old(idMap) else old(idMap)[id := r.value]
      ensures r.Ok? ==> !old(slab.slots[r.value]).Used? &&
                        forall i :: 0 <= i < slab.slots.Length && i != r.value ==> slab.slots[i] == old(slab.slots[i])
      ensures r.Err? ==> idMap == old(idMap) && unchanged(slab) && unchanged(slab.slots)
    {
      r := NewBox(ElementBox(e, id));
    }

    /** `Drop for ElementBox`: removes the id entry only while it still
        names this box's slot (a later box with the same id may have taken
        it over), then frees the slot. */
    method DropBox(p: nat) returns (dropped: ElementBox)
      requires Valid() && p < slab.slots.Length && slab.slots[p].Used?
      modifies this, slab, slab.slots
      ensures Valid() && slab == old(slab) && slab.slots == old(slab.slots)
      ensures dropped == old(slab.slots[p].value)
      ensures idMap == if dropped.id != NONE_ID && dropped.id in old(idMap) && old(idMap)[dropped.id] == p
                       then old(idMap) - {dropped.id} else old(idMap)
      ensures slab.len == old(slab.len) - 1 && slab.slots[p] == Free(old(slab.nextSlot))
      ensures forall i :: 0 <= i < slab.slots.Length && i != p ==> slab.slots[i] == old(slab.slots[i])
    {
      var id := slab.slots[p].value.id;
      if id != NONE_ID && id in idMap && idMap[id] == p {
        idMap := idMap - {id};
      }
      dropped := slab.Dealloc(p);
    }

    /** `element_mut`: replaces the element of a live box in place; its id
        and every other slot stay as they are. */
    method SetElement(p: nat, e: ElementWithComputed)
      requires Valid() && p < slab.slots.Length && slab.slots[p].Used?
      modifies slab.slots
      ensures Valid() && slab.slots[p] == Used(ElementBox(e, old(slab.slots[p].value.id)))
      ensures forall i :: 0 <= i < slab.slots.Length && i != p ==> slab.slots[i] == old(slab.slots[i])
    {
      OverwriteLive(slab.slots[..], slab.len, slab.maxLen, slab.nextSlot, slab.freeList, slab.live, p,
                    ElementBox(e, slab.slots[p].value.id));
      slab.slots[p] := Used(ElementBox(e, slab.slots[p].value.id));
      assert slab.slots[..] == old(slab.slots[..])[p := slab.slots[p]];
    }
  }

  /** Storing an element under an id and dropping it again leaves no entry
      for that id, even when another box had been stored under it before. */
  method StoreThenDrop(s: Store, e: Element, id: Id) returns (r: Result<nat, AllocError>)
    requires s.Valid() && id != NONE_ID
    modifies s, s.slab, s.slab.slots
    ensures s.Valid()
    ensures r.Ok? ==> s.idMap == old(s.idMap) - {id}
    ensures r.Err? ==> s.idMap == old(s.idMap)
  {
    r := s.StoreElement(e, id);
    if r.Ok? {
      var _ := s.DropBox(r.value);
      assert s.idMap == old(s.idMap)[id := r.value] - {id};
    }
  }

  /** Dropping an older box after a newer box took over its id keeps the
      entry pointing at the newer box. */
  method ShadowThenDropOld(s: Store, old_p: nat, e: Element) returns (r: Result<nat, AllocError>)
    requires s.Valid() && old_p < s.slab.slots.Length && s.slab.slots[old_p].Used?
    requires s.slab.slots[old_p].value.id != NONE_ID
    modifies s, s.slab, s.slab.slots
    ensures s.Valid()
    ensures var id := old(s.slab.slots[old_p].value.id);
            r.Ok? ==> id in s.idMap && s.idMap[id] == r.value && s.idMap == old(s.idMap)[id := r.value]
  {
    var id := s.slab.slots[old_p].value.id;
    r := s.StoreElement(e, id);
    if r.Ok? {
      assert r.value != old_p;
      var _ := s.DropBox(old_p);
    }
  }
}
